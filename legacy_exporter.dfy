/**
 * The older, tab-only exporter of CSVExporter.php: one fixed (jexp) dialect,
 * a `cleanup` pass instead of `quote_and_escape`, an `export` that writes
 * each PARENT_OF row before it descends into the child, and a
 * `store_filenode` that writes the FILE_OF row to the node that comes next.
 */
module LegacyExporter {
  import opened Ast
  import opened Text
  import opened Graph
  import Flags
  import Exporter

  /** The two header lines the constructor writes. */
  const NODE_HEADER := "index:int\ttype\tflags:string_array\tlineno:int\tcode\tendlineno:int\tname\tdoccomment\n"
  const REL_HEADER := "start\tend\ttype\n"

  // ---------------------------------------------------------------------
  // cleanup

  /** The three replacements of `cleanup`: tab, line feed, carriage return. */
  function ReplaceControls(s: string): string
  {
    ReplaceChar(ReplaceChar(ReplaceChar(s, '\t', "\\t"), '\n', "\\n"), '\r', "\\r")
  }

  /** The pattern `^"(.*)"$`: two quotes at the ends (no line feed can remain in between). */
  predicate QuoteWrapped(t: string)
  {
    |t| >= 2 && t[0] == '"' && t[|t| - 1] == '"'
  }

  /**
   * `cleanup`: replaces the control characters; when the result is wrapped
   * in quotes, the quotes between the outer two are backslash-escaped.
   */
  function Cleanup(s: string): string
  {
    var t := ReplaceControls(s);
    if QuoteWrapped(t) then "\"" + ReplaceChar(t[1..|t| - 1], '"', "\\\"") + "\"" else t
  }

  lemma ReplaceControlsRemoves(s: string)
    ensures '\t' !in ReplaceControls(s) && '\n' !in ReplaceControls(s) && '\r' !in ReplaceControls(s)
  {
    var s1 := ReplaceChar(s, '\t', "\\t");
    var s2 := ReplaceChar(s1, '\n', "\\n");
    ReplaceCharRemoves(s, '\t', "\\t", '\t');
    ReplaceCharRemoves(s1, '\n', "\\n", '\t');
    ReplaceCharRemoves(s1, '\n', "\\n", '\n');
    ReplaceCharRemoves(s2, '\r', "\\r", '\t');
    ReplaceCharRemoves(s2, '\r', "\\r", '\n');
    ReplaceCharRemoves(s2, '\r', "\\r", '\r');
  }

  lemma ReplaceControlsAppend(a: string, b: string)
    ensures ReplaceControls(a + b) == ReplaceControls(a) + ReplaceControls(b)
  {
    ReplaceCharAppend(a, b, '\t', "\\t");
    var a1, b1 := ReplaceChar(a, '\t', "\\t"), ReplaceChar(b, '\t', "\\t");
    ReplaceCharAppend(a1, b1, '\n', "\\n");
    ReplaceCharAppend(ReplaceChar(a1, '\n', "\\n"), ReplaceChar(b1, '\n', "\\n"), '\r', "\\r");
  }

  /** In the text `str_replace("\"", "\\\"", ...)` returns, every quote follows a backslash. */
  lemma {:induction false} EscapedQuotes(s: string)
    ensures forall k :: 0 <= k < |ReplaceChar(s, '"', "\\\"")| && ReplaceChar(s, '"', "\\\"")[k] == '"' ==>
      k > 0 && ReplaceChar(s, '"', "\\\"")[k - 1] == '\\'
  {
    if |s| > 0 {
      EscapedQuotes(s[1..]);
      var head := if s[0] == '"' then "\\\"" else [s[0]];
      var rest := ReplaceChar(s[1..], '"', "\\\"");
      var r := head + rest;
      assert r == ReplaceChar(s, '"', "\\\"");
      forall k | 0 <= k < |r| && r[k] == '"'
        ensures k > 0 && r[k - 1] == '\\'
      {
        if k < |head| {
          assert s[0] == '"' && k == 1 && r[0] == '\\';
        } else if k > |head| {
          assert r[k - 1] == rest[k - |head| - 1];
        }
      }
    }
  }

  /**
   * After `cleanup` no tab, line feed or carriage return is left; a
   * quote-wrapped text keeps its outer quotes and every quote between them
   * follows a backslash; any other text keeps its quotes as they were.
   */
  lemma CleanupSpec(s: string)
    ensures var r := Cleanup(s);
      && '\t' !in r && '\n' !in r && '\r' !in r
      && (QuoteWrapped(ReplaceControls(s)) ==>
            && QuoteWrapped(r)
            && forall k :: 0 < k < |r| - 1 && r[k] == '"' ==> r[k - 1] == '\\')
      && (!QuoteWrapped(ReplaceControls(s)) ==> r == ReplaceControls(s))
  {
    var t := ReplaceControls(s);
    ReplaceControlsRemoves(s);
    if QuoteWrapped(t) {
      var inner := t[1..|t| - 1];
      var e := ReplaceChar(inner, '"', "\\\"");
      var r := "\"" + e + "\"";
      assert '\t' !in inner && '\n' !in inner && '\r' !in inner;
      ReplaceCharRemoves(inner, '"', "\\\"", '\t');
      ReplaceCharRemoves(inner, '"', "\\\"", '\n');
      ReplaceCharRemoves(inner, '"', "\\\"", '\r');
      EscapedQuotes(inner);
      forall k | 0 < k < |r| - 1 && r[k] == '"'
        ensures r[k - 1] == '\\'
      {
        assert e[k - 1] == '"';
        assert k - 1 > 0 && e[k - 2] == '\\';
      }
    }
  }

  /**
   * A string leaf is wrapped in quotes before `cleanup`, so its code column
   * is always quote-wrapped, whatever the string holds.
   */
  lemma StringCodeWrapped(s: string)
    ensures Cleanup("\"" + s + "\"") == "\"" + ReplaceChar(ReplaceControls(s), '"', "\\\"") + "\""
  {
    ReplaceControlsAppend("\"" + s, "\"");
    ReplaceControlsAppend("\"", s);
    var t := ReplaceControls("\"" + s + "\"");
    assert ReplaceControls("\"") == "\"" by {
      ReplaceCharAbsent("\"", '\t', "\\t");
      ReplaceCharAbsent("\"", '\n', "\\n");
      ReplaceCharAbsent("\"", '\r', "\\r");
    }
    assert t == "\"" + ReplaceControls(s) + "\"";
    assert t[1..|t| - 1] == ReplaceControls(s);
  }

  /**
   * `cleanup` does not escape backslashes, so a tab and the two characters
   * backslash, `t` come out as the same text: the reader cannot tell them apart.
   */
  lemma CleanupNotInjective()
    ensures "\t" != "\\t" && Cleanup("\t") == Cleanup("\\t")
  {
    assert ReplaceChar("\t", '\t', "\\t") == "\\t" by {
      ReplaceCharSingle('\t', '\t', "\\t");
    }
    ReplaceCharAbsent("\\t", '\t', "\\t");
    ReplaceCharAbsent("\\t", '\n', "\\n");
    ReplaceCharAbsent("\\t", '\r', "\\r");
  }

  // ---------------------------------------------------------------------
  // csv_format_flags

  function ErrorText(kind: int, flags: Bits): string
  {
    "[ERROR]" + Exporter.UnexpectedFlags(kind, flags)
  }

  /**
   * `csv_format_flags` of this revision: names joined by a comma, and an
   * unquoted error text where nothing is named and the flags are not 0.
   */
  function FormatFlags(info: FlagInfo, kind: int, flags: Bits): (r: string)
    ensures Flags.Render(info, ',', kind, flags).None? ==> (r == "" <==> flags == 0)
    ensures Flags.Render(info, ',', kind, flags).Some? ==> r == Flags.Render(info, ',', kind, flags).value
    ensures Flags.Render(info, ',', kind, flags).None? && flags != 0 ==> r == ErrorText(kind, flags)
  {
    match Flags.Render(info, ',', kind, flags)
    case Some(text) => text
    case None => if flags == 0 then "" else ErrorText(kind, flags)
  }

  /**
   * Where names are found both revisions write the same text (the later
   * one in its jexp dialect), and both leave the column empty exactly when
   * nothing is named and the flags are 0.
   */
  lemma FormatFlagsAgainstLater(info: FlagInfo, kind: int, flags: Bits)
    ensures Flags.Render(info, ',', kind, flags).Some? ==>
      FormatFlags(info, kind, flags) == Exporter.CsvFormatFlags(info, Exporter.ArrayDelim(Exporter.JEXP_FORMAT), kind, flags)
    ensures FormatFlags(info, kind, flags) == "" <==> Exporter.CsvFormatFlags(info, ',', kind, flags) == ""
    ensures Flags.Render(info, ',', kind, flags).None? && flags != 0 ==>
      FormatFlags(info, kind, flags) != Exporter.CsvFormatFlags(info, ',', kind, flags)
  {
    if Flags.Render(info, ',', kind, flags).None? && flags != 0 {
      assert FormatFlags(info, kind, flags)[0] == '[';
      assert Exporter.CsvFormatFlags(info, ',', kind, flags)[0] == '"';
    }
  }

  // ---------------------------------------------------------------------
  // rows and the walk

  function OptionalInt(o: Option<int>): string
  {
    match o
    case Some(n) => IntToString(n)
    case None => ""
  }

  /** The row `export` stores for an AST node: the doc comment goes through `cleanup`, unquoted. */
  function NodeRowOf(php: Php, v: Value, id: int): NodeRow
    requires v.Node?
  {
    NodeRow(id, php.kindName(v.kind),
            if php.usesFlags(v.kind) then FormatFlags(php.flagInfo, v.kind, v.flags) else "",
            IntToString(v.lineno), "", OptionalInt(v.endLineno),
            if v.name.Some? then v.name.value else "",
            if v.docComment.Some? then Cleanup(v.docComment.value) else "")
  }

  /** The code column of a plain value, before `cleanup`. */
  function LeafText(v: Value): string
    requires !v.Node?
  {
    match v
    case Str(s) => "\"" + s + "\""
    case Null => ""
    case Integer(n) => IntToString(n)
    case Float(t) => t
  }

  function LeafRow(v: Value, nodeline: int, id: int): NodeRow
    requires !v.Node?
  {
    NodeRow(id, TypeName(v), "", IntToString(nodeline), Cleanup(LeafText(v)), "", "", "")
  }

  function RowFor(php: Php): (Value, int, int) -> NodeRow
  {
    (v: Value, nodeline: int, id: int) =>
      if v.Node? then NodeRowOf(php, v, id) else LeafRow(v, nodeline, id)
  }

  lemma RowForKeepsId(php: Php)
    ensures Exporter.KeepsId(RowFor(php))
  {
  }

  /**
   * What `export($v, $nodeline)` appends when the counter stands at `start`:
   * the row of `v`, then, child by child, the PARENT_OF row to the id the
   * child is about to receive, followed by the child's own rows.
   */
  function ExportTree(row: (Value, int, int) -> NodeRow, v: Value, nodeline: int, start: int): Exporter.Output
    decreases v, Rank(v)
  {
    if v.Node? then
      Exporter.Output([row(v, nodeline, start)] + ExportChildren(row, v, |v.children|, start, start + 1).nodes,
                      ExportChildren(row, v, |v.children|, start, start + 1).rels)
    else
      Exporter.Output([row(v, nodeline, start)], [])
  }

  function ExportChildren(row: (Value, int, int) -> NodeRow, v: Value, k: nat, root: int, start: int): Exporter.Output
    requires v.Node? && k <= |v.children|
    decreases v, k
  {
    if k == 0 then Exporter.Output([], [])
    else
      Exporter.Output(ExportChildren(row, v, k - 1, root, start).nodes
                        + ExportTree(row, v.children[k - 1], v.lineno, start + ChildrenSize(v, k - 1)).nodes,
                      ExportChildren(row, v, k - 1, root, start).rels
                        + [RelRow(root, start + ChildrenSize(v, k - 1), PARENT_OF)]
                        + ExportTree(row, v.children[k - 1], v.lineno, start + ChildrenSize(v, k - 1)).rels)
  }

  /**
   * The node rows come out exactly as in the later revision (for the same
   * row function): writing the edge first changes only the order of the
   * relationship rows.
   */
  lemma {:induction false} SameNodes(row: (Value, int, int) -> NodeRow, v: Value, nodeline: int, start: int)
    ensures ExportTree(row, v, nodeline, start).nodes == Exporter.ExportTree(row, v, nodeline, start).nodes
    decreases v, Rank(v)
  {
    if v.Node? {
      SameChildNodes(row, v, |v.children|, start, start + 1);
    }
  }

  lemma {:induction false} SameChildNodes(row: (Value, int, int) -> NodeRow, v: Value, k: nat, root: int, start: int)
    requires v.Node? && k <= |v.children|
    ensures ExportChildren(row, v, k, root, start).nodes == Exporter.ExportChildren(row, v, k, root, start).nodes
    decreases v, k
  {
    if k > 0 {
      SameChildNodes(row, v, k - 1, root, start);
      SameNodes(row, v.children[k - 1], v.lineno, start + ChildrenSize(v, k - 1));
    }
  }

  /**
   * The relationship rows are those of the later revision, each as often,
   * only in another order: the edge to a child comes before the child's
   * rows instead of after them.
   */
  lemma {:induction false} SameRelsReordered(row: (Value, int, int) -> NodeRow, v: Value, nodeline: int, start: int)
    ensures multiset(ExportTree(row, v, nodeline, start).rels) == multiset(Exporter.ExportTree(row, v, nodeline, start).rels)
    decreases v, Rank(v)
  {
    if v.Node? {
      SameChildRelsReordered(row, v, |v.children|, start, start + 1);
    }
  }

  lemma {:induction false} SameChildRelsReordered(row: (Value, int, int) -> NodeRow, v: Value, k: nat, root: int, start: int)
    requires v.Node? && k <= |v.children|
    ensures multiset(ExportChildren(row, v, k, root, start).rels) == multiset(Exporter.ExportChildren(row, v, k, root, start).rels)
    decreases v, k
  {
    if k > 0 {
      var at := start + ChildrenSize(v, k - 1);
      var prev, prevLater := ExportChildren(row, v, k - 1, root, start), Exporter.ExportChildren(row, v, k - 1, root, start);
      var child, childLater := ExportTree(row, v.children[k - 1], v.lineno, at), Exporter.ExportTree(row, v.children[k - 1], v.lineno, at);
      var edge := RelRow(root, at, PARENT_OF);
      assert ExportChildren(row, v, k, root, start).rels == prev.rels + [edge] + child.rels;
      assert Exporter.ExportChildren(row, v, k, root, start).rels == prevLater.rels + childLater.rels + [edge];
      SameChildRelsReordered(row, v, k - 1, root, start);
      SameRelsReordered(row, v.children[k - 1], v.lineno, at);
      EdgeMoved(prev.rels, prevLater.rels, child.rels, childLater.rels, edge);
    }
  }

  /** Moving the edge from before a child's rows to after them keeps the multiset. */
  lemma EdgeMoved(prev: seq<RelRow>, prevLater: seq<RelRow>, child: seq<RelRow>, childLater: seq<RelRow>, edge: RelRow)
    requires multiset(prev) == multiset(prevLater) && multiset(child) == multiset(childLater)
    ensures multiset(prev + [edge] + child) == multiset(prevLater + childLater + [edge])
  {
  }

  /** Each id ends as many relationships as in the later revision. */
  lemma {:induction false} SameEnds(row: (Value, int, int) -> NodeRow, v: Value, nodeline: int, start: int)
    ensures forall id :: CountEnds(ExportTree(row, v, nodeline, start).rels, id)
                      == CountEnds(Exporter.ExportTree(row, v, nodeline, start).rels, id)
    decreases v, Rank(v)
  {
    if v.Node? {
      SameChildEnds(row, v, |v.children|, start, start + 1);
    }
  }

  lemma {:induction false} SameChildEnds(row: (Value, int, int) -> NodeRow, v: Value, k: nat, root: int, start: int)
    requires v.Node? && k <= |v.children|
    ensures forall id :: CountEnds(ExportChildren(row, v, k, root, start).rels, id)
                      == CountEnds(Exporter.ExportChildren(row, v, k, root, start).rels, id)
    decreases v, k
  {
    if k > 0 {
      var mid := start + ChildrenSize(v, k - 1);
      var c := v.children[k - 1];
      SameChildEnds(row, v, k - 1, root, start);
      SameEnds(row, c, v.lineno, mid);
      var edge := RelRow(root, mid, PARENT_OF);
      var a, b := ExportChildren(row, v, k - 1, root, start).rels, ExportTree(row, c, v.lineno, mid).rels;
      var a', b' := Exporter.ExportChildren(row, v, k - 1, root, start).rels, Exporter.ExportTree(row, c, v.lineno, mid).rels;
      assert ExportChildren(row, v, k, root, start).rels == a + [edge] + b;
      assert Exporter.ExportChildren(row, v, k, root, start).rels == a' + b' + [edge];
      forall id
        ensures CountEnds(a + [edge] + b, id) == CountEnds(a' + b' + [edge], id)
      {
        CountEndsAppend(a + [edge], b, id);
        CountEndsAppend(a, [edge], id);
        CountEndsAppend(a' + b', [edge], id);
        CountEndsAppend(a', b', id);
      }
    }
  }

  /** The relationships leaving a node end, in order, at the same ids as in the later revision. */
  lemma {:induction false} SameRootEdges(row: (Value, int, int) -> NodeRow, v: Value, k: nat, root: int, start: int)
    requires v.Node? && k <= |v.children| && root < start
    ensures EdgesFrom(ExportChildren(row, v, k, root, start).rels, root)
         == EdgesFrom(Exporter.ExportChildren(row, v, k, root, start).rels, root)
    decreases k
  {
    if k > 0 {
      var mid := start + ChildrenSize(v, k - 1);
      var c := v.children[k - 1];
      SameRootEdges(row, v, k - 1, root, start);
      var edge := RelRow(root, mid, PARENT_OF);
      var a, b := ExportChildren(row, v, k - 1, root, start).rels, ExportTree(row, c, v.lineno, mid).rels;
      var a', b' := Exporter.ExportChildren(row, v, k - 1, root, start).rels, Exporter.ExportTree(row, c, v.lineno, mid).rels;
      assert ExportChildren(row, v, k, root, start).rels == a + [edge] + b;
      assert Exporter.ExportChildren(row, v, k, root, start).rels == a' + b' + [edge];
      Exporter.ExportTreeNotFrom(row, c, v.lineno, mid, root);
      EdgesFromExtend(a', b', edge, root);
      TreeNotFrom(row, c, v.lineno, mid, root);
      EdgesFromInsert(a, edge, b, root);
    }
  }

  /** No relationship of a subtree starts at an id below the subtree's own. */
  lemma TreeNotFrom(row: (Value, int, int) -> NodeRow, v: Value, nodeline: int, start: int, id: int)
    requires id < start
    ensures forall j :: 0 <= j < |ExportTree(row, v, nodeline, start).rels| ==> ExportTree(row, v, nodeline, start).rels[j].start != id
  {
    var rels := ExportTree(row, v, nodeline, start).rels;
    TreeEdges(row, v, nodeline, start);
    forall j | 0 <= j < |rels|
      ensures rels[j].start != id
    {
      assert rels[j] in rels;
    }
  }

  /**
   * Every relationship is a PARENT_OF row from an earlier to a later id,
   * both inside the ids the walk assigned.
   */
  lemma {:induction false} TreeEdges(row: (Value, int, int) -> NodeRow, v: Value, nodeline: int, start: int)
    ensures forall e :: e in ExportTree(row, v, nodeline, start).rels ==> e.relType == PARENT_OF && start <= e.start < e.end < start + Size(v)
    decreases v, Rank(v)
  {
    if v.Node? {
      ChildEdges(row, v, |v.children|, start, start + 1);
    }
  }

  lemma {:induction false} ChildEdges(row: (Value, int, int) -> NodeRow, v: Value, k: nat, root: int, start: int)
    requires v.Node? && k <= |v.children| && root < start
    ensures forall e :: e in ExportChildren(row, v, k, root, start).rels ==>
        && e.relType == PARENT_OF && (e.start == root || start <= e.start)
        && e.start < e.end && start <= e.end < start + ChildrenSize(v, k)
    decreases v, k
  {
    if k > 0 {
      ChildEdges(row, v, k - 1, root, start);
      TreeEdges(row, v.children[k - 1], v.lineno, start + ChildrenSize(v, k - 1));
    }
  }

  /**
   * The walk's rows carry the ids start .. start + Size(v) - 1 in order;
   * every id but the root's ends exactly one relationship; and the edges
   * leaving the root end, in child order, at the ids the children receive.
   */
  lemma TreeShape(row: (Value, int, int) -> NodeRow, v: Value, nodeline: int, start: int)
    requires Exporter.KeepsId(row)
    ensures |ExportTree(row, v, nodeline, start).nodes| == Size(v)
    ensures forall i :: 0 <= i < |ExportTree(row, v, nodeline, start).nodes| ==> ExportTree(row, v, nodeline, start).nodes[i].id == start + i
    ensures EndsExactly(ExportTree(row, v, nodeline, start).rels, start + 1, start + Size(v))
    ensures v.Node? ==> EdgesFrom(ExportTree(row, v, nodeline, start).rels, start) == Exporter.ChildRoots(v, |v.children|, start + 1)
  {
    SameNodes(row, v, nodeline, start);
    SameEnds(row, v, nodeline, start);
    Exporter.ExportTreeSize(row, v, nodeline, start);
    Exporter.ExportTreeIds(row, v, nodeline, start);
    Exporter.ExportTreeEnds(row, v, nodeline, start);
    if v.Node? {
      SameRootEdges(row, v, |v.children|, start, start + 1);
      Exporter.RootEdgesInChildOrder(row, v, nodeline, start);
    }
  }

  // ---------------------------------------------------------------------
  // the exporter object

  class CsvExporter {
    const php: Php
    const nodeHeader: string
    const relHeader: string
    var nodes: seq<NodeRow>
    var rels: seq<RelRow>
    var nodecount: int
    /** The rows `export` gives values: `RowFor(php)`. */
    ghost const row: (Value, int, int) -> NodeRow

    ghost predicate Valid()
      reads this
    {
      && (forall v, nodeline, id {:trigger RowFor(php)(v, nodeline, id)} ::
            row(v, nodeline, id) == RowFor(php)(v, nodeline, id))
      && nodecount == |nodes|
      && forall i :: 0 <= i < |nodes| ==> nodes[i].id == i
    }

    /** The files start with their tab headers only; the counter starts at 0. */
    constructor (php: Php)
      ensures Valid()
      ensures this.php == php && row == RowFor(php)
      ensures nodeHeader == NODE_HEADER && relHeader == REL_HEADER
      ensures nodes == [] && rels == [] && nodecount == 0
    {
      this.php := php;
      nodeHeader := NODE_HEADER;
      relHeader := REL_HEADER;
      row := RowFor(php);
      nodes := [];
      rels := [];
      nodecount := 0;
    }

    /** `export`: writes the tree rooted at `ast`; the counter grows by its size. */
    method Export(ast: Value, nodeline: int)
      requires Valid()
      modifies this
      ensures Valid()
      ensures nodecount == old(nodecount) + Size(ast)
      ensures nodes == old(nodes) + ExportTree(row, ast, nodeline, old(nodecount)).nodes
      ensures rels == old(rels) + ExportTree(row, ast, nodeline, old(nodecount)).rels
      decreases ast, 1
    {
      assert row(ast, nodeline, nodecount) == RowFor(php)(ast, nodeline, nodecount);
      if ast.Node? {
        var nodetype := php.kindName(ast.kind);
        var line := ast.lineno;
        var nodeflags := "";
        if php.usesFlags(ast.kind) {
          nodeflags := FormatFlags(php.flagInfo, ast.kind, ast.flags);
        }
        // unset variables interpolate as the empty string
        var nodeendline, nodename, nodedoccomment := "", "", "";
        if ast.endLineno.Some? {
          nodeendline := IntToString(ast.endLineno.value);
        }
        if ast.name.Some? {
          nodename := ast.name.value;
        }
        if ast.docComment.Some? {
          nodedoccomment := ast.docComment.value;
        }
        var startnode := nodecount;
        StoreNode(nodetype, nodeflags, line, "", nodeendline, nodename, nodedoccomment);
        assert Cleanup("") == "";
        ExportChildNodes(ast, startnode);
        AppendAssoc(old(nodes), [NodeRowOf(php, ast, startnode)],
                    ExportChildren(row, ast, |ast.children|, startnode, startnode + 1).nodes);
      } else {
        StoreNode(TypeName(ast), "", nodeline, LeafText(ast), "", "", "");
        assert Cleanup("") == "";
      }
    }

    /**
     * The loop of `export` over the children of the node whose row, with id
     * `root`, was just stored: the PARENT_OF row to the current counter,
     * then the child.
     */
    method ExportChildNodes(ast: Value, root: int)
      requires Valid() && ast.Node? && nodecount == root + 1
      modifies this
      ensures Valid()
      ensures nodecount == root + 1 + ChildrenSize(ast, |ast.children|)
      ensures nodes == old(nodes) + ExportChildren(row, ast, |ast.children|, root, root + 1).nodes
      ensures rels == old(rels) + ExportChildren(row, ast, |ast.children|, root, root + 1).rels
      decreases ast, 0
    {
      var i := 0;
      while i < |ast.children|
        invariant 0 <= i <= |ast.children|
        invariant Valid()
        invariant nodes == old(nodes) + ExportChildren(row, ast, i, root, root + 1).nodes
        invariant rels == old(rels) + ExportChildren(row, ast, i, root, root + 1).rels
        invariant nodecount == root + 1 + ChildrenSize(ast, i)
      {
        ghost var done := ExportChildren(row, ast, i, root, root + 1);
        ghost var edge := RelRow(root, nodecount, PARENT_OF);
        StoreRel(root, nodecount, PARENT_OF);
        ghost var mid := nodecount;
        Export(ast.children[i], ast.lineno);
        ghost var child := ExportTree(row, ast.children[i], ast.lineno, mid);
        assert ExportChildren(row, ast, i + 1, root, root + 1)
          == Exporter.Output(done.nodes + child.nodes, done.rels + [edge] + child.rels);
        AppendAssoc(old(nodes), done.nodes, child.nodes);
        AppendAssoc(old(rels), done.rels, [edge]);
        AppendAssoc(old(rels), done.rels + [edge], child.rels);
        assert ChildrenSize(ast, i + 1) == ChildrenSize(ast, i) + Size(ast.children[i]);
        i := i + 1;
      }
    }

    /** `store_node`: code and doc comment go through `cleanup`; one row, then the counter moves on. */
    method StoreNode(nodeType: string, flags: string, lineno: int, code: string,
                     endLineno: string, name: string, docComment: string)
      requires Valid()
      modifies this
      ensures Valid()
      ensures nodes == old(nodes) + [NodeRow(old(nodecount), nodeType, flags, IntToString(lineno), Cleanup(code),
                                             endLineno, name, Cleanup(docComment))]
      ensures rels == old(rels) && nodecount == old(nodecount) + 1
    {
      var cleanCode := Cleanup(code);
      var cleanComment := Cleanup(docComment);
      nodes := nodes + [NodeRow(nodecount, nodeType, flags, IntToString(lineno), cleanCode, endLineno, name, cleanComment)];
      nodecount := nodecount + 1;
    }

    /**
     * `store_filenode`: a File row with the raw file name, and a FILE_OF row
     * from it to the id the next row will receive.
     */
    method StoreFileNode(filename: string)
      requires Valid()
      modifies this
      ensures Valid()
      ensures nodecount == old(nodecount) + 1
      ensures nodes == old(nodes) + [NodeRow(old(nodecount), "File", "", "", "", "", filename, "")]
      ensures rels == old(rels) + [RelRow(old(nodecount), nodecount, FILE_OF)]
    {
      nodes := nodes + [NodeRow(nodecount, "File", "", "", "", "", filename, "")];
      var start := nodecount;
      nodecount := nodecount + 1;
      StoreRel(start, nodecount, FILE_OF);
    }

    /** `store_rel`: one relationship row; the counter does not move. */
    method StoreRel(start: int, end: int, relType: string)
      requires Valid()
      modifies this
      ensures Valid()
      ensures rels == old(rels) + [RelRow(start, end, relType)]
      ensures nodes == old(nodes) && nodecount == old(nodecount)
    {
      rels := rels + [RelRow(start, end, relType)];
    }
  }
}
