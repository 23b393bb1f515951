/**
 * The records the exporters write: one row per graph node (eight columns:
 * id, type, flags, lineno, code, endlineno, name, doccomment) and one row per
 * relationship (start, end, type), and the text line each becomes.
 */
module Graph {
  import opened Text

  datatype NodeRow = NodeRow(id: int, nodeType: string, flags: string, lineno: string, code: string,
                             endLineno: string, name: string, docComment: string)

  datatype RelRow = RelRow(start: int, end: int, relType: string)

  const PARENT_OF := "PARENT_OF"
  const FILE_OF := "FILE_OF"
  const DIRECTORY_OF := "DIRECTORY_OF"

  function NodeColumns(r: NodeRow): seq<string>
  {
    [IntToString(r.id), r.nodeType, r.flags, r.lineno, r.code, r.endLineno, r.name, r.docComment]
  }

  /** The line `fwrite` puts in the node file. */
  function NodeLine(r: NodeRow, delim: char): string
  {
    Join(NodeColumns(r), delim) + "\n"
  }

  /** The line `fwrite` puts in the relationship file. */
  function RelLine(r: RelRow, delim: char): string
  {
    Join([IntToString(r.start), IntToString(r.end), r.relType], delim) + "\n"
  }

  /**
   * A node line has eight columns and its first column reads back as the id,
   * provided no text column contains the delimiter.
   */
  lemma {:induction false} NodeLineColumns(r: NodeRow, delim: char)
    requires delim != '-' && !IsDigit(delim)
    requires forall k :: 1 <= k < 8 ==> delim !in NodeColumns(r)[k]
    ensures var line := NodeLine(r, delim);
      var cols := Split(line[..|line| - 1], delim);
      |cols| == 8 && cols == NodeColumns(r)
  {
    IntToStringHasNo(r.id, delim);
    var line := NodeLine(r, delim);
    assert line[..|line| - 1] == Join(NodeColumns(r), delim);
    SplitJoin(NodeColumns(r), delim);
  }

  /** A relationship line has three columns: start, end and type. */
  lemma {:induction false} RelLineColumns(r: RelRow, delim: char)
    requires delim != '-' && !IsDigit(delim)
    requires delim !in r.relType
    ensures var line := RelLine(r, delim);
      Split(line[..|line| - 1], delim) == [IntToString(r.start), IntToString(r.end), r.relType]
  {
    IntToStringHasNo(r.start, delim);
    IntToStringHasNo(r.end, delim);
    var line := RelLine(r, delim);
    assert line[..|line| - 1] == Join([IntToString(r.start), IntToString(r.end), r.relType], delim);
    SplitJoin([IntToString(r.start), IntToString(r.end), r.relType], delim);
  }

  lemma AppendAssoc<T>(a: seq<T>, b: seq<T>, c: seq<T>)
    ensures (a + b) + c == a + (b + c)
  {
  }

  /** How many of the relationships end at `id`. */
  function CountEnds(rels: seq<RelRow>, id: int): nat
  {
    if |rels| == 0 then 0
    else CountEnds(rels[..|rels| - 1], id) + (if rels[|rels| - 1].end == id then 1 else 0)
  }

  lemma {:induction false} CountEndsAppend(a: seq<RelRow>, b: seq<RelRow>, id: int)
    ensures CountEnds(a + b, id) == CountEnds(a, id) + CountEnds(b, id)
    decreases |b|
  {
    if |b| == 0 {
      assert a + b == a;
    } else {
      assert (a + b)[..|a + b| - 1] == a + b[..|b| - 1];
      CountEndsAppend(a, b[..|b| - 1], id);
    }
  }

  /** The relationships end at lo, lo + 1, ..., hi - 1, each exactly once, and nowhere else. */
  ghost predicate EndsExactly(rels: seq<RelRow>, lo: int, hi: int)
  {
    forall id :: CountEnds(rels, id) == (if lo <= id < hi then 1 else 0)
  }

  /**
   * Appending a subtree's relationships and the one that reaches the
   * subtree's root to relationships that end at lo .. mid - 1 gives ones
   * that end at lo .. hi - 1, each once.
   */
  lemma EndsExtend(a: seq<RelRow>, b: seq<RelRow>, e: RelRow, lo: int, mid: int, hi: int)
    requires lo <= mid < hi
    requires EndsExactly(a, lo, mid) && EndsExactly(b, mid + 1, hi)
    requires e.end == mid
    ensures EndsExactly(a + b + [e], lo, hi)
  {
    forall id
      ensures CountEnds(a + b + [e], id) == (if lo <= id < hi then 1 else 0)
    {
      CountEndsAppend(a + b, [e], id);
      CountEndsAppend(a, b, id);
      assert CountEnds([e], id) == (if id == mid then 1 else 0) by {
        assert [e][..0] == [];
      }
    }
  }

  /** The ends of the relationships that start at `id`, in writing order. */
  function EdgesFrom(rels: seq<RelRow>, id: int): seq<int>
  {
    if |rels| == 0 then []
    else EdgesFrom(rels[..|rels| - 1], id) + (if rels[|rels| - 1].start == id then [rels[|rels| - 1].end] else [])
  }

  lemma {:induction false} EdgesFromAppend(a: seq<RelRow>, b: seq<RelRow>, id: int)
    ensures EdgesFrom(a + b, id) == EdgesFrom(a, id) + EdgesFrom(b, id)
    decreases |b|
  {
    if |b| == 0 {
      assert a + b == a;
    } else {
      assert (a + b)[..|a + b| - 1] == a + b[..|b| - 1];
      EdgesFromAppend(a, b[..|b| - 1], id);
    }
  }

  /**
   * Appending relationships none of which starts at `id`, then one that
   * does, adds exactly that one's end.
   */
  lemma EdgesFromExtend(a: seq<RelRow>, b: seq<RelRow>, e: RelRow, id: int)
    requires forall k :: 0 <= k < |b| ==> b[k].start != id
    requires e.start == id
    ensures EdgesFrom(a + b + [e], id) == EdgesFrom(a, id) + [e.end]
  {
    EdgesFromNone(b, id);
    EdgesFromAppend(a + b, [e], id);
    EdgesFromAppend(a, b, id);
    assert EdgesFrom([e], id) == [e.end] by {
      assert [e][..0] == [];
    }
  }

  /** The same when the one that starts at `id` comes before the others. */
  lemma EdgesFromInsert(a: seq<RelRow>, e: RelRow, b: seq<RelRow>, id: int)
    requires forall k :: 0 <= k < |b| ==> b[k].start != id
    requires e.start == id
    ensures EdgesFrom(a + [e] + b, id) == EdgesFrom(a, id) + [e.end]
  {
    EdgesFromNone(b, id);
    EdgesFromAppend(a + [e], b, id);
    EdgesFromExtend(a, [], e, id);
    assert a + [] + [e] == a + [e];
  }

  lemma {:induction false} EdgesFromNone(rels: seq<RelRow>, id: int)
    requires forall k :: 0 <= k < |rels| ==> rels[k].start != id
    ensures EdgesFrom(rels, id) == []
  {
    if |rels| > 0 {
      EdgesFromNone(rels[..|rels| - 1], id);
    }
  }
}
