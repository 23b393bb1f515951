/**
 * The oldest walker, csvexport.php: `compute_csv` threads the node counter
 * through its parameters and its return value instead of keeping it in an
 * object, and `ast_csv_export` writes the two headers and walks from 0.
 * The two open files are a `CsvFiles` object whose sequences the walk
 * appends to.
 */
module CsvExport {
  import opened Ast
  import opened Text
  import opened Graph
  import LegacyExporter
  import Exporter

  const NODE_HEADER := "index\ttype\tlineno\tcode\n"
  const REL_HEADER := "start\tend\ttype\n"

  /**
   * A line of the node file: a node has three columns (id, kind name, line);
   * a plain value a fourth, its code.
   */
  datatype Row = Row(id: int, nodeType: string, lineno: int, code: Option<string>)

  function RowColumnsOf(r: Row): seq<string>
  {
    [IntToString(r.id), r.nodeType, IntToString(r.lineno)] + (if r.code.Some? then [r.code.value] else [])
  }

  /** The line `fwrite` writes: the columns separated by tabs. */
  function RowText(r: Row): string
  {
    Join(RowColumnsOf(r), '\t') + "\n"
  }

  /**
   * Split at the tabs, a node line gives back its three columns and a value
   * line its four, provided the kind name and the code hold no tab.
   */
  lemma RowColumns(r: Row)
    requires '\t' !in r.nodeType
    requires r.code.Some? ==> '\t' !in r.code.value
    ensures var t := RowText(r);
      var cols := Split(t[..|t| - 1], '\t');
      |cols| == (if r.code.Some? then 4 else 3) && cols == RowColumnsOf(r)
  {
    IntToStringHasNo(r.id, '\t');
    IntToStringHasNo(r.lineno, '\t');
    var t := RowText(r);
    assert t[..|t| - 1] == Join(RowColumnsOf(r), '\t');
    SplitJoin(RowColumnsOf(r), '\t');
  }

  /** The code column of a plain value: a string between quotes, as it is. */
  function LeafCode(v: Value): string
    requires !v.Node?
  {
    match v
    case Str(s) => "\"" + s + "\""
    case Null => ""
    case Integer(n) => IntToString(n)
    case Float(t) => t
  }

  /** What `compute_csv` returns and writes: the last id it used, the rows and the relationships. */
  datatype Walked = Walked(last: int, rows: seq<Row>, rels: seq<RelRow>)

  /**
   * `compute_csv($v, ..., $n, $nodeline)`: the row of `v` with id `n`; for a
   * node then, child by child, the counter moves on by one, a PARENT_OF row
   * to it is written, and the child is walked from there.
   */
  function Walk(php: Php, v: Value, nodeline: int, n: int): Walked
    decreases v, Rank(v)
  {
    if v.Node? then
      Walked(WalkChildren(php, v, |v.children|, n).last,
             [Row(n, php.kindName(v.kind), v.lineno, None)] + WalkChildren(php, v, |v.children|, n).rows,
             WalkChildren(php, v, |v.children|, n).rels)
    else
      Walked(n, [Row(n, TypeName(v), nodeline, Some(LeafCode(v)))], [])
  }

  /** The first `k` iterations of the loop over the children of node `v` whose id is `n`. */
  function WalkChildren(php: Php, v: Value, k: nat, n: int): Walked
    requires v.Node? && k <= |v.children|
    decreases v, k
  {
    if k == 0 then Walked(n, [], [])
    else
      Walked(Walk(php, v.children[k - 1], v.lineno, WalkChildren(php, v, k - 1, n).last + 1).last,
             WalkChildren(php, v, k - 1, n).rows
               + Walk(php, v.children[k - 1], v.lineno, WalkChildren(php, v, k - 1, n).last + 1).rows,
             WalkChildren(php, v, k - 1, n).rels
               + [RelRow(n, WalkChildren(php, v, k - 1, n).last + 1, PARENT_OF)]
               + Walk(php, v.children[k - 1], v.lineno, WalkChildren(php, v, k - 1, n).last + 1).rels)
  }

  /**
   * `compute_csv` returns its counter plus the number of values below the
   * root, i.e. the last id it used, and writes one row per value.
   */
  lemma {:induction false} WalkCount(php: Php, v: Value, nodeline: int, n: int)
    ensures Walk(php, v, nodeline, n).last == n + Size(v) - 1
    ensures |Walk(php, v, nodeline, n).rows| == Size(v)
    decreases v, Rank(v)
  {
    if v.Node? {
      WalkChildrenCount(php, v, |v.children|, n);
    }
  }

  lemma {:induction false} WalkChildrenCount(php: Php, v: Value, k: nat, n: int)
    requires v.Node? && k <= |v.children|
    ensures WalkChildren(php, v, k, n).last == n + ChildrenSize(v, k)
    ensures |WalkChildren(php, v, k, n).rows| == ChildrenSize(v, k)
    decreases v, k
  {
    if k > 0 {
      WalkChildrenCount(php, v, k - 1, n);
      WalkCount(php, v.children[k - 1], v.lineno, n + ChildrenSize(v, k - 1) + 1);
    }
  }

  /** The rows carry the consecutive ids n, n + 1, ... */
  lemma {:induction false} WalkIds(php: Php, v: Value, nodeline: int, n: int)
    ensures forall i :: 0 <= i < |Walk(php, v, nodeline, n).rows| ==> Walk(php, v, nodeline, n).rows[i].id == n + i
    decreases v, Rank(v)
  {
    var w := Walk(php, v, nodeline, n);
    assert w.rows[0].id == n;
    if v.Node? {
      var ch := WalkChildren(php, v, |v.children|, n);
      WalkChildrenIds(php, v, |v.children|, n);
      forall i | 1 <= i < |w.rows|
        ensures w.rows[i].id == n + i
      {
        assert w.rows[i] == ch.rows[i - 1];
      }
    }
  }

  lemma {:induction false} WalkChildrenIds(php: Php, v: Value, k: nat, n: int)
    requires v.Node? && k <= |v.children|
    ensures forall i :: 0 <= i < |WalkChildren(php, v, k, n).rows| ==> WalkChildren(php, v, k, n).rows[i].id == n + 1 + i
    decreases v, k
  {
    if k > 0 {
      var prev := WalkChildren(php, v, k - 1, n);
      WalkChildrenIds(php, v, k - 1, n);
      WalkChildrenCount(php, v, k - 1, n);
      var child := Walk(php, v.children[k - 1], v.lineno, prev.last + 1);
      WalkIds(php, v.children[k - 1], v.lineno, prev.last + 1);
      var w := WalkChildren(php, v, k, n);
      forall i | 0 <= i < |w.rows|
        ensures w.rows[i].id == n + 1 + i
      {
        if i >= |prev.rows| {
          assert w.rows[i] == child.rows[i - |prev.rows|];
        }
      }
    }
  }

  /**
   * The relationships are exactly those of the older exporter object, in
   * the same order: both write the PARENT_OF row to a child's id before
   * walking the child.
   */
  lemma {:induction false} SameRelsAsLegacy(php: Php, row: (Value, int, int) -> NodeRow, v: Value, nodeline: int, n: int)
    ensures Walk(php, v, nodeline, n).rels == LegacyExporter.ExportTree(row, v, nodeline, n).rels
    decreases v, Rank(v)
  {
    if v.Node? {
      SameChildRelsAsLegacy(php, row, v, |v.children|, n);
    }
  }

  lemma {:induction false} SameChildRelsAsLegacy(php: Php, row: (Value, int, int) -> NodeRow, v: Value, k: nat, n: int)
    requires v.Node? && k <= |v.children|
    ensures WalkChildren(php, v, k, n).rels == LegacyExporter.ExportChildren(row, v, k, n, n + 1).rels
    decreases v, k
  {
    if k > 0 {
      SameChildRelsAsLegacy(php, row, v, k - 1, n);
      WalkChildrenCount(php, v, k - 1, n);
      assert WalkChildren(php, v, k - 1, n).last + 1 == n + 1 + ChildrenSize(v, k - 1);
      SameRelsAsLegacy(php, row, v.children[k - 1], v.lineno, n + 1 + ChildrenSize(v, k - 1));
    }
  }

  /**
   * Every id but the root's ends exactly one relationship, and the ones
   * leaving the root end, in child order, at the ids the children receive.
   */
  lemma WalkShape(php: Php, v: Value, nodeline: int, n: int)
    ensures EndsExactly(Walk(php, v, nodeline, n).rels, n + 1, n + Size(v))
    ensures v.Node? ==> EdgesFrom(Walk(php, v, nodeline, n).rels, n) == Exporter.ChildRoots(v, |v.children|, n + 1)
  {
    var row := LegacyExporter.RowFor(php);
    LegacyExporter.RowForKeepsId(php);
    SameRelsAsLegacy(php, row, v, nodeline, n);
    LegacyExporter.TreeShape(row, v, nodeline, n);
  }

  // ---------------------------------------------------------------------
  // the files and the walker

  /** The node file and the relationship file, each after its header line. */
  class CsvFiles {
    const nodeHeader: string
    const relHeader: string
    var nodeRows: seq<Row>
    var relRows: seq<RelRow>

    constructor (nodeHeader: string, relHeader: string)
      ensures this.nodeHeader == nodeHeader && this.relHeader == relHeader
      ensures nodeRows == [] && relRows == []
    {
      this.nodeHeader := nodeHeader;
      this.relHeader := relHeader;
      nodeRows := [];
      relRows := [];
    }
  }

  /** `compute_csv`: appends the walk of `ast` and returns the last id used. */
  method ComputeCsv(files: CsvFiles, php: Php, ast: Value, nodecount: int, nodeline: int) returns (count: int)
    modifies files
    ensures count == Walk(php, ast, nodeline, nodecount).last
    ensures files.nodeRows == old(files.nodeRows) + Walk(php, ast, nodeline, nodecount).rows
    ensures files.relRows == old(files.relRows) + Walk(php, ast, nodeline, nodecount).rels
    decreases ast, 1
  {
    if ast.Node? {
      var nodetype := php.kindName(ast.kind);
      var line := ast.lineno;
      files.nodeRows := files.nodeRows + [Row(nodecount, nodetype, line, None)];
      count := ComputeChildren(files, php, ast, nodecount);
      AppendAssoc(old(files.nodeRows), [Row(nodecount, nodetype, line, None)],
                  WalkChildren(php, ast, |ast.children|, nodecount).rows);
    } else {
      var nodecode;
      if ast.Str? {
        nodecode := "\"" + ast.text + "\"";
      } else if ast.Null? {
        nodecode := "";
      } else if ast.Integer? {
        nodecode := IntToString(ast.number);
      } else {
        nodecode := ast.repr;
      }
      files.nodeRows := files.nodeRows + [Row(nodecount, TypeName(ast), nodeline, Some(nodecode))];
      count := nodecount;
    }
  }

  /** The loop of `compute_csv` over the children of the node with id `nodeindex`. */
  method ComputeChildren(files: CsvFiles, php: Php, ast: Value, nodeindex: int) returns (count: int)
    requires ast.Node?
    modifies files
    ensures count == WalkChildren(php, ast, |ast.children|, nodeindex).last
    ensures files.nodeRows == old(files.nodeRows) + WalkChildren(php, ast, |ast.children|, nodeindex).rows
    ensures files.relRows == old(files.relRows) + WalkChildren(php, ast, |ast.children|, nodeindex).rels
    decreases ast, 0
  {
    count := nodeindex;
    var i := 0;
    while i < |ast.children|
      invariant 0 <= i <= |ast.children|
      invariant count == WalkChildren(php, ast, i, nodeindex).last
      invariant files.nodeRows == old(files.nodeRows) + WalkChildren(php, ast, i, nodeindex).rows
      invariant files.relRows == old(files.relRows) + WalkChildren(php, ast, i, nodeindex).rels
    {
      ghost var done := WalkChildren(php, ast, i, nodeindex);
      count := count + 1;
      files.relRows := files.relRows + [RelRow(nodeindex, count, PARENT_OF)];
      ghost var edge := RelRow(nodeindex, count, PARENT_OF);
      ghost var child := Walk(php, ast.children[i], ast.lineno, count);
      count := ComputeCsv(files, php, ast.children[i], count, ast.lineno);
      assert WalkChildren(php, ast, i + 1, nodeindex)
        == Walked(child.last, done.rows + child.rows, done.rels + [edge] + child.rels);
      AppendAssoc(old(files.nodeRows), done.rows, child.rows);
      AppendAssoc(old(files.relRows), done.rels, [edge]);
      AppendAssoc(old(files.relRows), done.rels + [edge], child.rels);
      i := i + 1;
    }
  }

  /**
   * `ast_csv_export`: opens the two files with their headers and walks the
   * tree from id 0 on line 0.
   */
  method AstCsvExport(php: Php, ast: Value) returns (files: CsvFiles)
    ensures fresh(files)
    ensures files.nodeHeader == NODE_HEADER && files.relHeader == REL_HEADER
    ensures files.nodeRows == Walk(php, ast, 0, 0).rows
    ensures files.relRows == Walk(php, ast, 0, 0).rels
  {
    files := new CsvFiles(NODE_HEADER, REL_HEADER);
    var _ := ComputeCsv(files, php, ast, 0, 0);
  }

  /** A whole export numbers its rows 0 .. N - 1, N being the number of values in the tree. */
  lemma ExportIds(php: Php, ast: Value)
    ensures |Walk(php, ast, 0, 0).rows| == Size(ast)
    ensures forall i :: 0 <= i < |Walk(php, ast, 0, 0).rows| ==> Walk(php, ast, 0, 0).rows[i].id == i
    ensures EndsExactly(Walk(php, ast, 0, 0).rels, 1, Size(ast))
  {
    WalkCount(php, ast, 0, 0);
    WalkIds(php, ast, 0, 0);
    WalkShape(php, ast, 0, 0);
  }
}
