/**
 * The current exporter, src/CSVExporter.php: a `CsvExporter` object owns the
 * node file, the relationship file and the node counter, writes a header for
 * its dialect (neo4j-import or jexp batch-import), and walks a php-ast tree
 * writing one node row per value and one PARENT_OF row per child.
 *
 * The files are the sequences of rows `nodes` and `rels`; the walk is
 * specified by the pure function `ExportTree`, and the method `Export` is
 * proved to append exactly what `ExportTree` says.
 */
module Exporter {
  import opened Ast
  import opened Text
  import opened Graph
  import Flags

  const NEO4J_FORMAT := 0
  const JEXP_FORMAT := 1

  const FILE := "File"
  const DIR := "Directory"

  /** Column delimiter: a tab for jexp, a comma otherwise. */
  function CsvDelim(format: int): char
  {
    if format == JEXP_FORMAT then '\t' else ','
  }

  /** Delimiter between the names of combinable flags: a comma for jexp, a semicolon otherwise. */
  function ArrayDelim(format: int): char
  {
    if format == JEXP_FORMAT then ',' else ';'
  }

  function NodeHeaderColumns(format: int): seq<string>
  {
    if format == JEXP_FORMAT then
      ["index:int", "type", "flags:string_array", "lineno:int", "code", "endlineno:int", "name", "doccomment"]
    else
      ["nodeId:ID", "type", "flags:string[]", "lineno:int", "code", "endlineno:int", "name", "doccomment"]
  }

  function RelHeaderColumns(format: int): seq<string>
  {
    if format == JEXP_FORMAT then ["start", "end", "type"] else [":START_ID", ":END_ID", ":TYPE"]
  }

  function NodeHeader(format: int): string
  {
    Join(NodeHeaderColumns(format), CsvDelim(format)) + "\n"
  }

  function RelHeader(format: int): string
  {
    Join(RelHeaderColumns(format), CsvDelim(format)) + "\n"
  }

  /** A header line: its columns joined by the delimiter, then a line feed. */
  lemma {:induction false} HeaderLineSplits(cols: seq<string>, delim: char)
    requires |cols| >= 1
    requires forall i :: 0 <= i < |cols| ==> delim !in cols[i]
    ensures var h := Join(cols, delim) + "\n";
      Split(h[..|h| - 1], delim) == cols
  {
    var h := Join(cols, delim) + "\n";
    assert h[..|h| - 1] == Join(cols, delim);
    SplitJoin(cols, delim);
  }

  /** Whatever the format, the node header has 8 columns and the relationship header 3. */
  lemma HeaderColumns(format: int)
    ensures var h := NodeHeader(format);
      var cols := Split(h[..|h| - 1], CsvDelim(format));
      |cols| == 8 && cols == NodeHeaderColumns(format)
    ensures var h := RelHeader(format);
      var cols := Split(h[..|h| - 1], CsvDelim(format));
      |cols| == 3 && cols == RelHeaderColumns(format)
  {
    HeaderColumnsFree(format);
    HeaderLineSplits(NodeHeaderColumns(format), CsvDelim(format));
    HeaderLineSplits(RelHeaderColumns(format), CsvDelim(format));
  }

  /** No column name of a header contains the delimiter of its format. */
  lemma HeaderColumnsFree(format: int)
    ensures forall i :: 0 <= i < |NodeHeaderColumns(format)| ==> CsvDelim(format) !in NodeHeaderColumns(format)[i]
    ensures forall i :: 0 <= i < |RelHeaderColumns(format)| ==> CsvDelim(format) !in RelHeaderColumns(format)[i]
  {
    if format == JEXP_FORMAT {
      JexpHeaderColumnsFree();
    } else {
      Neo4jHeaderColumnsFree();
    }
  }

  lemma JexpHeaderColumnsFree()
    ensures forall i :: 0 <= i < 8 ==> '\t' !in NodeHeaderColumns(JEXP_FORMAT)[i]
    ensures forall i :: 0 <= i < 3 ==> '\t' !in RelHeaderColumns(JEXP_FORMAT)[i]
  {
  }

  lemma Neo4jHeaderColumnsFree()
    ensures forall i :: 0 <= i < 8 ==> ',' !in NodeHeaderColumns(NEO4J_FORMAT)[i]
    ensures forall i :: 0 <= i < 3 ==> ',' !in RelHeaderColumns(NEO4J_FORMAT)[i]
  {
  }

  // ---------------------------------------------------------------------
  // quote_and_escape

  /** The replacements of `quote_and_escape`, in the order it performs them. */
  function EscapeInner(format: int, s: string): string
  {
    var s1 := ReplaceChar(s, '\\', "\\\\");
    var s2 := if format == NEO4J_FORMAT then ReplaceChar(ReplaceChar(s1, '\n', "\\n"), '\r', "\\r") else s1;
    ReplaceChar(s2, '"', "\\\"")
  }

  /** `quote_and_escape`: escape backslashes (and, for neo4j, line breaks) and quotes, then quote. */
  function QuoteAndEscape(format: int, s: string): (r: string)
    ensures |r| >= 2 && r[0] == '"' && r[|r| - 1] == '"'
  {
    "\"" + EscapeInner(format, s) + "\""
  }

  /** What one character of the input becomes. */
  function EscapeChar(format: int, c: char): string
  {
    if c == '\\' then "\\\\"
    else if c == '"' then "\\\""
    else if format == NEO4J_FORMAT && c == '\n' then "\\n"
    else if format == NEO4J_FORMAT && c == '\r' then "\\r"
    else [c]
  }

  /** The character-by-character reading of the replacements. */
  function EscapeAll(format: int, s: string): string
  {
    if |s| == 0 then "" else EscapeChar(format, s[0]) + EscapeAll(format, s[1..])
  }

  /** The reader's side: a backslash and the character after it stand for one character. */
  function UnescapeChar(c: char): char
  {
    if c == 'n' then '\n' else if c == 'r' then '\r' else c
  }

  function Unescape(t: string): string
    decreases |t|
  {
    if |t| == 0 then ""
    else if t[0] == '\\' && |t| >= 2 then [UnescapeChar(t[1])] + Unescape(t[2..])
    else [t[0]] + Unescape(t[1..])
  }

  /** Every backslash starts a two-character escape and no quote stands alone. */
  predicate WellEscaped(t: string)
    decreases |t|
  {
    || |t| == 0
    || (t[0] == '\\' && |t| >= 2 && WellEscaped(t[2..]))
    || (t[0] != '\\' && t[0] != '"' && WellEscaped(t[1..]))
  }

  lemma {:induction false} EscapeInnerAppend(format: int, a: string, b: string)
    ensures EscapeInner(format, a + b) == EscapeInner(format, a) + EscapeInner(format, b)
  {
    ReplaceCharAppend(a, b, '\\', "\\\\");
    var a1, b1 := ReplaceChar(a, '\\', "\\\\"), ReplaceChar(b, '\\', "\\\\");
    var a2, b2 := a1, b1;
    if format == NEO4J_FORMAT {
      ReplaceCharAppend(a1, b1, '\n', "\\n");
      var a3, b3 := ReplaceChar(a1, '\n', "\\n"), ReplaceChar(b1, '\n', "\\n");
      ReplaceCharAppend(a3, b3, '\r', "\\r");
      a2, b2 := ReplaceChar(a3, '\r', "\\r"), ReplaceChar(b3, '\r', "\\r");
    }
    ReplaceCharAppend(a2, b2, '"', "\\\"");
  }

  lemma EscapeInnerChar(format: int, c: char)
    ensures EscapeInner(format, [c]) == EscapeChar(format, c)
  {
    ReplaceCharSingle(c, '\\', "\\\\");
    if c == '\\' {
      ReplaceCharAbsent("\\\\", '\n', "\\n");
      ReplaceCharAbsent("\\\\", '\r', "\\r");
      ReplaceCharAbsent("\\\\", '"', "\\\"");
    } else {
      ReplaceCharSingle(c, '\n', "\\n");
      if format == NEO4J_FORMAT && c == '\n' {
        ReplaceCharAbsent("\\n", '\r', "\\r");
        ReplaceCharAbsent("\\n", '"', "\\\"");
      } else {
        ReplaceCharSingle(c, '\r', "\\r");
        if format == NEO4J_FORMAT && c == '\r' {
          ReplaceCharAbsent("\\r", '"', "\\\"");
        } else {
          ReplaceCharSingle(c, '"', "\\\"");
        }
      }
    }
  }

  /** The chain of replacements escapes each character on its own. */
  lemma {:induction false} EscapeInnerIsEscapeAll(format: int, s: string)
    ensures EscapeInner(format, s) == EscapeAll(format, s)
  {
    if |s| > 0 {
      assert s == [s[0]] + s[1..];
      EscapeInnerAppend(format, [s[0]], s[1..]);
      EscapeInnerChar(format, s[0]);
      EscapeInnerIsEscapeAll(format, s[1..]);
    }
  }

  lemma {:induction false} UnescapeEscapeAll(format: int, s: string)
    ensures Unescape(EscapeAll(format, s)) == s
    ensures WellEscaped(EscapeAll(format, s))
  {
    if |s| > 0 {
      var rest := EscapeAll(format, s[1..]);
      UnescapeEscapeAll(format, s[1..]);
      assert EscapeAll(format, s) == EscapeChar(format, s[0]) + rest;
      UnescapeEscapeChar(format, s[0], rest);
      assert [s[0]] + s[1..] == s;
    }
  }

  /** Reading back one escaped character in front of any text. */
  lemma UnescapeEscapeChar(format: int, c: char, rest: string)
    ensures Unescape(EscapeChar(format, c) + rest) == [c] + Unescape(rest)
    ensures WellEscaped(rest) ==> WellEscaped(EscapeChar(format, c) + rest)
  {
    var t := EscapeChar(format, c) + rest;
    if |EscapeChar(format, c)| == 2 {
      assert t[2..] == rest;
    } else {
      assert t[1..] == rest;
    }
  }

  /**
   * Stripping the outer quotes of `quote_and_escape`'s result and undoing the
   * backslash escapes gives back the input, in either format; so the escaping
   * is injective.
   */
  lemma QuoteAndEscapeRoundTrip(format: int, s: string)
    ensures var r := QuoteAndEscape(format, s);
      Unescape(r[1..|r| - 1]) == s
  {
    var r := QuoteAndEscape(format, s);
    assert r[1..|r| - 1] == EscapeInner(format, s);
    EscapeInnerIsEscapeAll(format, s);
    UnescapeEscapeAll(format, s);
  }

  /** Between the outer quotes every backslash and every quote is escaped. */
  lemma QuoteAndEscapeWellEscaped(format: int, s: string)
    ensures var r := QuoteAndEscape(format, s);
      WellEscaped(r[1..|r| - 1])
  {
    var r := QuoteAndEscape(format, s);
    assert r[1..|r| - 1] == EscapeInner(format, s);
    EscapeInnerIsEscapeAll(format, s);
    UnescapeEscapeAll(format, s);
  }

  /** In the neo4j format the escaped text holds no raw line feed or carriage return. */
  lemma QuoteAndEscapeNoRawNewline(s: string)
    ensures '\n' !in QuoteAndEscape(NEO4J_FORMAT, s)
    ensures '\r' !in QuoteAndEscape(NEO4J_FORMAT, s)
  {
    var s1 := ReplaceChar(s, '\\', "\\\\");
    var s2 := ReplaceChar(s1, '\n', "\\n");
    var s3 := ReplaceChar(s2, '\r', "\\r");
    ReplaceCharRemoves(s1, '\n', "\\n", '\n');
    ReplaceCharRemoves(s2, '\r', "\\r", '\n');
    ReplaceCharRemoves(s2, '\r', "\\r", '\r');
    ReplaceCharRemoves(s3, '"', "\\\"", '\n');
    ReplaceCharRemoves(s3, '"', "\\\"", '\r');
  }

  // ---------------------------------------------------------------------
  // csv_format_flags

  /** The text both exporter revisions print after their `[WARNING]` or `[ERROR]` tag. */
  function UnexpectedFlags(kind: int, flags: Bits): string
  {
    " Unexpected flags for kind: kind=" + IntToString(kind) + " and flags=" + IntToString(SignedValue(flags))
  }

  function Warning(kind: int, flags: Bits): string
  {
    "\"[WARNING]" + UnexpectedFlags(kind, flags) + "\""
  }

  /**
   * `csv_format_flags`: the rendered flag names, or, when nothing is named,
   * the empty string for flags 0 and a quoted warning naming kind and flags
   * otherwise.
   */
  function CsvFormatFlags(info: FlagInfo, arrayDelim: char, kind: int, flags: Bits): (r: string)
    ensures Flags.Render(info, arrayDelim, kind, flags).Some? ==> r == Flags.Render(info, arrayDelim, kind, flags).value
    ensures Flags.Render(info, arrayDelim, kind, flags).None? ==> (r == "" <==> flags == 0)
    ensures Flags.Render(info, arrayDelim, kind, flags).None? && flags != 0 ==> r == Warning(kind, flags)
  {
    match Flags.Render(info, arrayDelim, kind, flags)
    case Some(text) => text
    case None => if flags == 0 then "" else Warning(kind, flags)
  }

  /** Non-zero flags never render as empty text when every table name is non-empty. */
  lemma FlagsNeverDropped(info: FlagInfo, arrayDelim: char, kind: int, flags: Bits)
    requires Flags.AllNamesNonEmpty(info)
    requires flags != 0
    ensures CsvFormatFlags(info, arrayDelim, kind, flags) != ""
  {
    if Flags.Render(info, arrayDelim, kind, flags).Some? {
      Flags.RenderedNonEmpty(info, arrayDelim, kind, flags);
    }
  }

  /** Flags 0 render as the empty string for every kind without an exclusive table. */
  lemma ZeroFlagsEmpty(info: FlagInfo, arrayDelim: char, kind: int)
    requires kind !in info.exclusive
    ensures CsvFormatFlags(info, arrayDelim, kind, 0) == ""
  {
    Flags.ZeroFlagsRenderNothing(info, arrayDelim, kind);
  }

  // ---------------------------------------------------------------------
  // the rows and the walk

  function OptionalInt(o: Option<int>): string
  {
    match o
    case Some(n) => IntToString(n)
    case None => ""
  }

  function OptionalText(o: Option<string>): string
  {
    match o
    case Some(t) => t
    case None => ""
  }

  /** The row `export` stores for an AST node. */
  function NodeRowOf(format: int, php: Php, v: Value, id: int): NodeRow
    requires v.Node?
  {
    NodeRow(id, php.kindName(v.kind),
            if php.usesFlags(v.kind) then CsvFormatFlags(php.flagInfo, ArrayDelim(format), v.kind, v.flags) else "",
            IntToString(v.lineno), "", OptionalInt(v.endLineno), OptionalText(v.name),
            if v.docComment.Some? then QuoteAndEscape(format, v.docComment.value) else "")
  }

  /** The code column of a plain value: quoted and escaped for a string, the bare text for a number. */
  function LeafCode(format: int, v: Value): string
    requires !v.Node?
  {
    match v
    case Str(s) => QuoteAndEscape(format, s)
    case Null => ""
    case Integer(n) => IntToString(n)
    case Float(t) => t
  }

  /** The row `export` stores for a plain value, on the line it inherits. */
  function LeafRow(format: int, v: Value, nodeline: int, id: int): NodeRow
    requires !v.Node?
  {
    NodeRow(id, TypeName(v), "", IntToString(nodeline), LeafCode(format, v), "", "", "")
  }

  /** The row `store_fileordirnode` writes. */
  function FileOrDirRow(format: int, nodeType: string, filename: string, id: int): NodeRow
  {
    NodeRow(id, nodeType, "", "", "", "", QuoteAndEscape(format, filename), "")
  }

  /**
   * The row a value receives, given the line it inherits from its parent and
   * its id: `export`'s two branches.
   */
  function RowFor(format: int, php: Php): (Value, int, int) -> NodeRow
  {
    (v: Value, nodeline: int, id: int) =>
      if v.Node? then NodeRowOf(format, php, v, id) else LeafRow(format, v, nodeline, id)
  }

  /** A row function that puts the id it is given in the row. */
  ghost predicate KeepsId(row: (Value, int, int) -> NodeRow)
  {
    forall v, nodeline, id :: row(v, nodeline, id).id == id
  }

  lemma RowForKeepsId(format: int, php: Php)
    ensures KeepsId(RowFor(format, php))
  {
  }

  datatype Output = Output(nodes: seq<NodeRow>, rels: seq<RelRow>)

  /**
   * What `export($v, $nodeline)` appends to the two files when the counter
   * stands at `start`: the row of `v` itself, then, child by child, the
   * child's rows and relationships followed by the PARENT_OF row to it.
   * The walk is stated for any row function; `export` uses `RowFor`.
   */
  function ExportTree(row: (Value, int, int) -> NodeRow, v: Value, nodeline: int, start: int): Output
    decreases v, Rank(v)
  {
    if v.Node? then
      Output([row(v, nodeline, start)] + ExportChildren(row, v, |v.children|, start, start + 1).nodes,
             ExportChildren(row, v, |v.children|, start, start + 1).rels)
    else
      Output([row(v, nodeline, start)], [])
  }

  /** The first `k` iterations of the loop over the children of node `v` whose id is `root`. */
  function ExportChildren(row: (Value, int, int) -> NodeRow, v: Value, k: nat, root: int, start: int): Output
    requires v.Node? && k <= |v.children|
    decreases v, k
  {
    if k == 0 then Output([], [])
    else
      Output(ExportChildren(row, v, k - 1, root, start).nodes
               + ExportTree(row, v.children[k - 1], v.lineno, start + ChildrenSize(v, k - 1)).nodes,
             ExportChildren(row, v, k - 1, root, start).rels
               + ExportTree(row, v.children[k - 1], v.lineno, start + ChildrenSize(v, k - 1)).rels
               + [RelRow(root, start + ChildrenSize(v, k - 1), PARENT_OF)])
  }


  /** The ids the children of `v` receive when the first child gets `base`. */
  function ChildRoots(v: Value, k: nat, base: int): (r: seq<int>)
    requires v.Node? && k <= |v.children|
    ensures |r| == k
  {
    if k == 0 then [] else ChildRoots(v, k - 1, base) + [base + ChildrenSize(v, k - 1)]
  }

  /** The walk writes one row per value of the tree and one relationship per value but the root. */
  lemma {:induction false} ExportTreeSize(row: (Value, int, int) -> NodeRow, v: Value, nodeline: int, start: int)
    ensures |ExportTree(row, v, nodeline, start).nodes| == Size(v) && |ExportTree(row, v, nodeline, start).rels| == Size(v) - 1
    decreases v, Rank(v)
  {
    if v.Node? {
      ExportChildrenSize(row, v, |v.children|, start, start + 1);
    }
  }

  lemma {:induction false} ExportChildrenSize(row: (Value, int, int) -> NodeRow, v: Value, k: nat, root: int, start: int)
    requires v.Node? && k <= |v.children|
    ensures |ExportChildren(row, v, k, root, start).nodes| == ChildrenSize(v, k) && |ExportChildren(row, v, k, root, start).rels| == ChildrenSize(v, k)
    decreases v, k
  {
    if k > 0 {
      var prev := ExportChildren(row, v, k - 1, root, start);
      ExportChildrenSize(row, v, k - 1, root, start);
      ExportTreeSize(row, v.children[k - 1], v.lineno, start + ChildrenSize(v, k - 1));
    }
  }

  /** With a row function that keeps ids, the rows carry the consecutive ids start, start + 1, ... */
  lemma {:induction false} ExportTreeIds(row: (Value, int, int) -> NodeRow, v: Value, nodeline: int, start: int)
    requires KeepsId(row)
    ensures forall i :: 0 <= i < |ExportTree(row, v, nodeline, start).nodes| ==> ExportTree(row, v, nodeline, start).nodes[i].id == start + i
    decreases v, Rank(v)
  {
    var o := ExportTree(row, v, nodeline, start);
    assert o.nodes[0].id == start;
    if v.Node? {
      var ch := ExportChildren(row, v, |v.children|, start, start + 1);
      ExportChildrenIds(row, v, |v.children|, start, start + 1);
      forall i | 1 <= i < |o.nodes|
        ensures o.nodes[i].id == start + i
      {
        assert 0 <= i - 1 < |ch.nodes|;
        assert o.nodes[i] == ch.nodes[i - 1];
        assert ch.nodes[i - 1].id == start + 1 + (i - 1);
      }
    }
  }

  lemma {:induction false} ExportChildrenIds(row: (Value, int, int) -> NodeRow, v: Value, k: nat, root: int, start: int)
    requires v.Node? && k <= |v.children|
    requires KeepsId(row)
    ensures forall i :: 0 <= i < |ExportChildren(row, v, k, root, start).nodes| ==> ExportChildren(row, v, k, root, start).nodes[i].id == start + i
    decreases v, k
  {
    if k > 0 {
      var prev := ExportChildren(row, v, k - 1, root, start);
      var mid := start + ChildrenSize(v, k - 1);
      var child := ExportTree(row, v.children[k - 1], v.lineno, mid);
      ExportChildrenIds(row, v, k - 1, root, start);
      ExportChildrenSize(row, v, k - 1, root, start);
      ExportTreeIds(row, v.children[k - 1], v.lineno, mid);
      var o := ExportChildren(row, v, k, root, start);
      forall i | 0 <= i < |o.nodes|
        ensures o.nodes[i].id == start + i
      {
        if i >= |prev.nodes| {
          assert o.nodes[i] == child.nodes[i - |prev.nodes|];
        }
      }
    }
  }

  /**
   * Every relationship of the walk is a PARENT_OF row from an earlier to a
   * later id, both inside the ids the walk assigned.
   */
  lemma {:induction false} ExportTreeEdges(row: (Value, int, int) -> NodeRow, v: Value, nodeline: int, start: int)
    ensures forall e :: e in ExportTree(row, v, nodeline, start).rels ==> e.relType == PARENT_OF && start <= e.start < e.end < start + Size(v)
    decreases v, Rank(v)
  {
    if v.Node? {
      ExportChildrenEdges(row, v, |v.children|, start, start + 1);
    }
  }

  lemma {:induction false} ExportChildrenEdges(row: (Value, int, int) -> NodeRow, v: Value, k: nat, root: int, start: int)
    requires v.Node? && k <= |v.children| && root < start
    ensures forall e :: e in ExportChildren(row, v, k, root, start).rels ==>
        && e.relType == PARENT_OF && (e.start == root || start <= e.start)
        && e.start < e.end && start <= e.end < start + ChildrenSize(v, k)
    decreases v, k
  {
    if k > 0 {
      var prev := ExportChildren(row, v, k - 1, root, start);
      ExportChildrenEdges(row, v, k - 1, root, start);
      ExportChildrenSize(row, v, k - 1, root, start);
      ExportTreeEdges(row, v.children[k - 1], v.lineno, start + ChildrenSize(v, k - 1));
    }
  }

  /**
   * Every id but the root's is the end of exactly one relationship: the
   * relationships form a tree over the rows.
   */
  lemma {:induction false} ExportTreeEnds(row: (Value, int, int) -> NodeRow, v: Value, nodeline: int, start: int)
    ensures EndsExactly(ExportTree(row, v, nodeline, start).rels, start + 1, start + Size(v))
    decreases v, Rank(v)
  {
    if v.Node? {
      ExportChildrenEnds(row, v, |v.children|, start, start + 1);
      assert start + 1 + ChildrenSize(v, |v.children|) == start + Size(v);
    }
  }

  lemma {:induction false} ExportChildrenEnds(row: (Value, int, int) -> NodeRow, v: Value, k: nat, root: int, start: int)
    requires v.Node? && k <= |v.children|
    ensures EndsExactly(ExportChildren(row, v, k, root, start).rels, start, start + ChildrenSize(v, k))
    decreases v, k
  {
    if k > 0 {
      var prev := ExportChildren(row, v, k - 1, root, start);
      var mid := start + ChildrenSize(v, k - 1);
      var c := v.children[k - 1];
      var child := ExportTree(row, c, v.lineno, mid);
      ExportChildrenEnds(row, v, k - 1, root, start);
      ExportChildrenSize(row, v, k - 1, root, start);
      ExportTreeEnds(row, c, v.lineno, mid);
      assert mid + Size(c) == start + ChildrenSize(v, k);
      EndsExtend(prev.rels, child.rels, RelRow(root, mid, PARENT_OF), start, mid, start + ChildrenSize(v, k));
    }
  }

  /**
   * The PARENT_OF rows leaving a node are one per child, in child order, and
   * each ends at the id the child's subtree starts with.
   */
  lemma RootEdgesInChildOrder(row: (Value, int, int) -> NodeRow, v: Value, nodeline: int, start: int)
    requires v.Node?
    ensures EdgesFrom(ExportTree(row, v, nodeline, start).rels, start) == ChildRoots(v, |v.children|, start + 1)
  {
    ExportChildrenRootEdges(row, v, |v.children|, start, start + 1);
  }

  lemma {:induction false} ExportChildrenRootEdges(row: (Value, int, int) -> NodeRow, v: Value, k: nat, root: int, start: int)
    requires v.Node? && k <= |v.children| && root < start
    ensures EdgesFrom(ExportChildren(row, v, k, root, start).rels, root) == ChildRoots(v, k, start)
    decreases k
  {
    if k > 0 {
      var mid := start + ChildrenSize(v, k - 1);
      ExportChildrenRootEdges(row, v, k - 1, root, start);
      ExportTreeNotFrom(row, v.children[k - 1], v.lineno, mid, root);
      EdgesFromExtend(ExportChildren(row, v, k - 1, root, start).rels,
                      ExportTree(row, v.children[k - 1], v.lineno, mid).rels, RelRow(root, mid, PARENT_OF), root);
    }
  }

  /** No relationship of a subtree starts at an id below the subtree's own. */
  lemma ExportTreeNotFrom(row: (Value, int, int) -> NodeRow, v: Value, nodeline: int, start: int, id: int)
    requires id < start
    ensures forall j :: 0 <= j < |ExportTree(row, v, nodeline, start).rels| ==> ExportTree(row, v, nodeline, start).rels[j].start != id
  {
    var rels := ExportTree(row, v, nodeline, start).rels;
    ExportTreeEdges(row, v, nodeline, start);
    forall j | 0 <= j < |rels|
      ensures rels[j].start != id
    {
      assert rels[j] in rels;
    }
  }

  /**
   * The rows of child `j` sit right after those of the children before it,
   * and the first of them, the one the PARENT_OF row points at, is the row
   * of the child itself, on the line of the parent node.
   */
  lemma ChildRootRow(row: (Value, int, int) -> NodeRow, v: Value, nodeline: int, start: int, j: nat)
    requires v.Node? && j < |v.children|
    ensures && 1 + ChildrenSize(v, j) < |ExportTree(row, v, nodeline, start).nodes|
      && ExportTree(row, v, nodeline, start).nodes[1 + ChildrenSize(v, j)] == row(v.children[j], v.lineno, start + 1 + ChildrenSize(v, j))
  {
    var t := ExportTree(row, v, nodeline, start);
    assert t == Output([row(v, nodeline, start)] + ExportChildren(row, v, |v.children|, start, start + 1).nodes,
                       ExportChildren(row, v, |v.children|, start, start + 1).rels);
    NodeRowAfterRoot(row, v, nodeline, start, j, t);
  }

  /** `ChildRootRow` for an output `t` known to be the unfolded walk of `v`. */
  lemma NodeRowAfterRoot(row: (Value, int, int) -> NodeRow, v: Value, nodeline: int, start: int, j: nat, t: Output)
    requires v.Node? && j < |v.children|
    requires t == Output([row(v, nodeline, start)] + ExportChildren(row, v, |v.children|, start, start + 1).nodes,
                         ExportChildren(row, v, |v.children|, start, start + 1).rels)
    ensures 1 + ChildrenSize(v, j) < |t.nodes| && t.nodes[1 + ChildrenSize(v, j)] == row(v.children[j], v.lineno, start + 1 + ChildrenSize(v, j))
  {
    ExportChildrenRow(row, v, |v.children|, start, start + 1, j);
  }

  lemma {:induction false} ExportChildrenRow(row: (Value, int, int) -> NodeRow, v: Value, k: nat, root: int, start: int, j: nat)
    requires v.Node? && j < k <= |v.children|
    ensures && ChildrenSize(v, j) < |ExportChildren(row, v, k, root, start).nodes|
      && ExportChildren(row, v, k, root, start).nodes[ChildrenSize(v, j)] == row(v.children[j], v.lineno, start + ChildrenSize(v, j))
    decreases k
  {
    var prev := ExportChildren(row, v, k - 1, root, start);
    var child := ExportTree(row, v.children[k - 1], v.lineno, start + ChildrenSize(v, k - 1));
    assert ExportChildren(row, v, k, root, start).nodes == prev.nodes + child.nodes;
    ExportChildrenSize(row, v, k - 1, root, start);
    if j < k - 1 {
      ExportChildrenRow(row, v, k - 1, root, start, j);
    } else {
      ExportTreeSize(row, v.children[j], v.lineno, start + ChildrenSize(v, j));
    }
  }

  /**
   * With `export`'s rows: a plain child is written on the line of the node
   * it belongs to, a child node on its own line.
   */
  lemma ChildLine(format: int, php: Php, v: Value, nodeline: int, start: int, j: nat)
    requires v.Node? && j < |v.children|
    ensures var c := v.children[j];
      && 1 + ChildrenSize(v, j) < |ExportTree(RowFor(format, php), v, nodeline, start).nodes|
      && ExportTree(RowFor(format, php), v, nodeline, start).nodes[1 + ChildrenSize(v, j)].lineno == IntToString(if c.Node? then c.lineno else v.lineno)
  {
    ChildRootRow(RowFor(format, php), v, nodeline, start, j);
  }

  // ---------------------------------------------------------------------
  // the exporter object

  class CsvExporter {
    const format: int
    const csvDelim: char
    const arrayDelim: char
    const php: Php
    /** First line of the node file and of the relationship file. */
    const nodeHeader: string
    const relHeader: string
    /** The rows written to the node file and to the relationship file. */
    var nodes: seq<NodeRow>
    var rels: seq<RelRow>
    var nodecount: int
    /** The rows `export` gives values: `RowFor(format, php)`. */
    ghost const row: (Value, int, int) -> NodeRow

    /**
     * The delimiters belong to the format, `row` gives the rows of `export`,
     * and the node ids are exactly 0 .. nodecount - 1.
     */
    ghost predicate Valid()
      reads this
    {
      && csvDelim == CsvDelim(format) && arrayDelim == ArrayDelim(format)
      && (forall v, nodeline, id {:trigger RowFor(format, php)(v, nodeline, id)} ::
            row(v, nodeline, id) == RowFor(format, php)(v, nodeline, id))
      && nodecount == |nodes|
      && forall i :: 0 <= i < |nodes| ==> nodes[i].id == i
    }

    constructor (format: int, php: Php)
      ensures Valid()
      ensures this.format == format && this.php == php && row == RowFor(format, php)
      ensures csvDelim == (if format == JEXP_FORMAT then '\t' else ',')
      ensures arrayDelim == (if format == JEXP_FORMAT then ',' else ';')
      ensures nodeHeader == NodeHeader(format) && relHeader == RelHeader(format)
      ensures nodes == [] && rels == [] && nodecount == 0
    {
      this.format := format;
      this.php := php;
      row := RowFor(format, php);
      if format == JEXP_FORMAT {
        csvDelim := '\t';
        arrayDelim := ',';
      } else {
        csvDelim := ',';
        arrayDelim := ';';
      }
      nodeHeader := NodeHeader(format);
      relHeader := RelHeader(format);
      nodes := [];
      rels := [];
      nodecount := 0;
    }

    /**
     * `export`: writes the tree rooted at `ast` and returns the id its root
     * received, which is the counter on entry; the counter grows by the
     * size of the tree.
     */
    method Export(ast: Value, nodeline: int) returns (root: int)
      requires Valid()
      modifies this
      ensures Valid()
      ensures root == old(nodecount)
      ensures nodecount == old(nodecount) + Size(ast)
      ensures nodes == old(nodes) + ExportTree(row, ast, nodeline, root).nodes
      ensures rels == old(rels) + ExportTree(row, ast, nodeline, root).rels
      decreases ast, 1
    {
      root := nodecount;
      assert row(ast, nodeline, root) == RowFor(format, php)(ast, nodeline, root);
      if ast.Node? {
        ghost var expected := NodeRowOf(format, php, ast, root);
        var nodetype := php.kindName(ast.kind);
        var line := ast.lineno;
        var nodeflags := "";
        if php.usesFlags(ast.kind) {
          nodeflags := CsvFormatFlags(php.flagInfo, arrayDelim, ast.kind, ast.flags);
        }
        assert nodeflags == expected.flags;
        // unset variables interpolate as the empty string
        var nodeendline, nodename, nodedoccomment := "", "", "";
        if ast.endLineno.Some? {
          nodeendline := IntToString(ast.endLineno.value);
        }
        assert nodeendline == expected.endLineno;
        if ast.name.Some? {
          nodename := ast.name.value;
        }
        assert nodename == expected.name;
        if ast.docComment.Some? {
          nodedoccomment := QuoteAndEscape(format, ast.docComment.value);
        }
        assert nodedoccomment == expected.docComment;
        StoreNode(nodetype, nodeflags, line, "", nodeendline, nodename, nodedoccomment);
        ExportChildNodes(ast, root);
        AppendAssoc(old(nodes), [expected], ExportChildren(row, ast, |ast.children|, root, root + 1).nodes);
      } else if ast.Str? {
        StoreNode(TypeName(ast), "", nodeline, QuoteAndEscape(format, ast.text), "", "", "");
      } else if ast.Null? {
        StoreNode(TypeName(ast), "", nodeline, "", "", "", "");
      } else {
        var nodecode := if ast.Integer? then IntToString(ast.number) else ast.repr;
        StoreNode(TypeName(ast), "", nodeline, nodecode, "", "", "");
      }
    }

    /**
     * The loop of `export` over the children of a node whose row, with id
     * `root`, was just stored: each child is exported on the node's line and
     * linked to it by a PARENT_OF row.
     */
    method ExportChildNodes(ast: Value, root: int)
      requires Valid() && ast.Node? && nodecount == root + 1
      modifies this
      ensures Valid()
      ensures nodecount == root + 1 + ChildrenSize(ast, |ast.children|)
      ensures nodes == old(nodes) + ExportChildren(row, ast, |ast.children|, root, root + 1).nodes
      ensures rels == old(rels) + ExportChildren(row, ast, |ast.children|, root, root + 1).rels
      decreases ast, 0
    {
      var i := 0;
      while i < |ast.children|
        invariant 0 <= i <= |ast.children|
        invariant Valid()
        invariant nodes == old(nodes) + ExportChildren(row, ast, i, root, root + 1).nodes
        invariant rels == old(rels) + ExportChildren(row, ast, i, root, root + 1).rels
        invariant nodecount == root + 1 + ChildrenSize(ast, i)
      {
        ghost var done := ExportChildren(row, ast, i, root, root + 1);
        var childnode := Export(ast.children[i], ast.lineno);
        ghost var child := ExportTree(row, ast.children[i], ast.lineno, childnode);
        StoreRel(root, childnode, PARENT_OF);
        ghost var edge := RelRow(root, childnode, PARENT_OF);
        assert ExportChildren(row, ast, i + 1, root, root + 1)
          == Output(done.nodes + child.nodes, done.rels + child.rels + [edge]);
        AppendAssoc(old(nodes), done.nodes, child.nodes);
        AppendAssoc(old(rels), done.rels, child.rels);
        AppendAssoc(old(rels), done.rels + child.rels, [edge]);
        assert ChildrenSize(ast, i + 1) == ChildrenSize(ast, i) + Size(ast.children[i]);
        i := i + 1;
      }
    }

    /** `store_node`: one row with the current counter as id, then the counter moves on. */
    method StoreNode(nodeType: string, flags: string, lineno: int, code: string,
                     endLineno: string, name: string, docComment: string)
      requires Valid()
      modifies this
      ensures Valid()
      ensures nodes == old(nodes) + [NodeRow(old(nodecount), nodeType, flags, IntToString(lineno), code,
                                             endLineno, name, docComment)]
      ensures rels == old(rels) && nodecount == old(nodecount) + 1
    {
      var row := NodeRow(nodecount, nodeType, flags, IntToString(lineno), code, endLineno, name, docComment);
      nodes := nodes + [row];
      nodecount := nodecount + 1;
    }

    /** `store_filenode`: a File row named after the file; returns its id. */
    method StoreFileNode(filename: string) returns (id: int)
      requires Valid()
      modifies this
      ensures Valid()
      ensures id == old(nodecount) && nodecount == id + 1
      ensures nodes == old(nodes) + [FileOrDirRow(format, FILE, filename, id)] && rels == old(rels)
    {
      id := StoreFileOrDirNode(FILE, filename);
    }

    /** `store_dirnode`: a Directory row named after the directory; returns its id. */
    method StoreDirNode(dirname: string) returns (id: int)
      requires Valid()
      modifies this
      ensures Valid()
      ensures id == old(nodecount) && nodecount == id + 1
      ensures nodes == old(nodes) + [FileOrDirRow(format, DIR, dirname, id)] && rels == old(rels)
    {
      id := StoreFileOrDirNode(DIR, dirname);
    }

    /** `store_fileordirnode`: returns the current counter, then increments it. */
    method StoreFileOrDirNode(nodeType: string, filename: string) returns (id: int)
      requires Valid()
      modifies this
      ensures Valid()
      ensures id == old(nodecount) && nodecount == id + 1
      ensures nodes == old(nodes) + [FileOrDirRow(format, nodeType, filename, id)] && rels == old(rels)
    {
      var quoted := QuoteAndEscape(format, filename);
      var row := NodeRow(nodecount, nodeType, "", "", "", "", quoted, "");
      nodes := nodes + [row];
      id := nodecount;
      nodecount := nodecount + 1;
    }

    /** `store_rel`: one relationship row; the counter does not move. */
    method StoreRel(start: int, end: int, relType: string)
      requires Valid()
      modifies this
      ensures Valid()
      ensures rels == old(rels) + [RelRow(start, end, relType)]
      ensures nodes == old(nodes) && nodecount == old(nodecount)
    {
      rels := rels + [RelRow(start, end, relType)];
    }
  }
}
