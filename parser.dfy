/**
 * The driver of src/Parser.php: `parse_file` exports one PHP file's tree
 * below a File node, and `parse_dir` walks a directory, parses every
 * readable `.php` file in it, descends into every readable sub-directory,
 * and gives a directory a Directory node only when it turns out to be
 * interesting (it holds a PHP file or an interesting sub-directory). The top
 * directory is the exception: it is always stored, and first, so that it
 * gets the counter's value on entry (0 for a fresh exporter).
 *
 * The file system is a value: a `Directory` lists its entries in the order
 * `readdir` returns them, and a file entry carries what `ast\parse_file`
 * makes of it (a tree, or a parse error).
 */
module Parser {
  import opened Ast
  import opened Text
  import opened Graph
  import opened Exporter

  // ---------------------------------------------------------------------
  // paths

  /** `build_path(...$segments)`: the segments joined by the directory separator. */
  function BuildPath(segments: seq<string>, sep: char): string
  {
    Join(segments, sep)
  }

  /** The path `parse_dir` builds for an entry of the directory at `path`. */
  function ChildPath(path: string, name: string, sep: char): string
  {
    BuildPath([path, name], sep)
  }

  /** `basename`: the last component, trailing separators ignored. */
  function Basename(path: string, sep: char): string
  {
    AfterLast(StripTrailing(path, sep), sep)
  }

  /** `SplFileInfo::getExtension`: the text after the name's last dot, or "" when there is no dot. */
  function Extension(name: string): string
  {
    if '.' in name then AfterLast(name, '.') else ""
  }

  /** `strtolower($finfo->getExtension()) === 'php'`. */
  predicate IsPhpFile(name: string)
  {
    ToLower(Extension(name)) == "php"
  }

  /** A path built from separator-free segments splits back into them. */
  lemma BuildPathSplits(segments: seq<string>, sep: char)
    requires |segments| >= 1
    requires forall i :: 0 <= i < |segments| ==> sep !in segments[i]
    ensures Split(BuildPath(segments, sep), sep) == segments
  {
    SplitJoin(segments, sep);
  }

  /**
   * The name `parse_file` gives the File node, the base name of the path
   * `parse_dir` built, is the directory entry's own name.
   */
  lemma BasenameOfChild(path: string, name: string, sep: char)
    requires |name| > 0 && sep !in name
    ensures Basename(ChildPath(path, name, sep), sep) == name
  {
    var p := ChildPath(path, name, sep);
    assert [path, name][1..] == [name];
    assert Join([name], sep) == name;
    assert p == path + [sep] + name;
    assert StripTrailing(p, sep) == p;
    AfterLastOfSuffix(path, name, sep);
  }

  /** The extension is what follows the last dot; the test ignores case. */
  lemma ExtensionAfterLastDot(stem: string, ext: string)
    requires '.' !in ext
    ensures Extension(stem + "." + ext) == ext
    ensures IsPhpFile(stem + "." + ext) <==> ToLower(ext) == "php"
  {
    assert '.' in stem + "." + ext by {
      assert (stem + "." + ext)[|stem|] == '.';
    }
    AfterLastOfSuffix(stem, ext, '.');
  }

  /** A name without a dot has no extension, so it is never taken for a PHP file. */
  lemma NoDotNoPhp(name: string)
    requires '.' !in name
    ensures Extension(name) == "" && !IsPhpFile(name)
  {
  }

  // ---------------------------------------------------------------------
  // the file system as a value

  /** What `ast\parse_file` does with a file: a tree, or a `ParseError`. */
  datatype ParseResult = Parsed(ast: Value) | ParseError(message: string)

  /** The entries of a directory, in `readdir` order ("." and ".." included). */
  datatype Directory = Directory(entries: seq<Entry>)

  /** A directory entry: a regular file, a sub-directory, or anything else. */
  datatype Entry =
    | FileEntry(name: string, readable: bool, parsed: ParseResult)
    | DirEntry(name: string, readable: bool, dir: Directory)
    | OtherEntry(name: string)

  /** The first test of the loop: a readable file with extension php (any case). */
  predicate Parsable(e: Entry)
  {
    e.FileEntry? && e.readable && IsPhpFile(e.name)
  }

  /** The second test: a readable directory other than "." and "..". */
  predicate Descend(e: Entry)
  {
    e.DirEntry? && e.readable && e.name != "." && e.name != ".."
  }

  /**
   * The directories that find themselves interesting: one that holds a PHP
   * file the walk parses, or a sub-directory the walk enters that is
   * interesting in turn.
   */
  predicate Interesting(d: Directory)
    decreases d
  {
    exists i :: 0 <= i < |d.entries| && Yields(d.entries[i])
  }

  /** An entry that puts something in `$found`: a PHP file, or a directory that is interesting. */
  predicate Yields(e: Entry)
    decreases e
  {
    Parsable(e) || (Descend(e) && Interesting(e.dir))
  }

  // ---------------------------------------------------------------------
  // what the driver writes

  /** The id a call returns and the rows it appends to the two files. */
  datatype Emitted = Emitted(id: int, nodes: seq<NodeRow>, rels: seq<RelRow>)

  /** The `$found` list of a directory so far and the rows appended meanwhile. */
  datatype Scanned = Scanned(found: seq<int>, nodes: seq<NodeRow>, rels: seq<RelRow>)

  /**
   * `parse_file` with the counter at `start`: on success, a File row with id
   * `start`, the tree (whose root therefore gets `start + 1`) and a FILE_OF
   * row from the first to the second; on a parse error nothing, and -1.
   */
  function FileOutput(format: int, row: (Value, int, int) -> NodeRow, name: string,
                      parsed: ParseResult, start: int): Emitted
  {
    match parsed
    case Parsed(ast) =>
      Emitted(start,
              [FileOrDirRow(format, FILE, name, start)] + ExportTree(row, ast, 0, start + 1).nodes,
              ExportTree(row, ast, 0, start + 1).rels + [RelRow(start, start + 1, FILE_OF)])
    case ParseError(_) => Emitted(-1, [], [])
  }

  /** The DIRECTORY_OF rows of the closing `foreach`, one per found index, in order. */
  function DirRels(dirnode: int, found: seq<int>): (r: seq<RelRow>)
    ensures |r| == |found|
    ensures forall i :: 0 <= i < |found| ==> r[i] == RelRow(dirnode, found[i], DIRECTORY_OF)
  {
    if |found| == 0 then []
    else DirRels(dirnode, found[..|found| - 1]) + [RelRow(dirnode, found[|found| - 1], DIRECTORY_OF)]
  }

  /** One entry's call added to the scan; its result is kept in `$found` when `keep`. */
  function Extend(prev: Scanned, out: Emitted, keep: bool): Scanned
  {
    Scanned(prev.found + (if keep then [out.id] else []), prev.nodes + out.nodes, prev.rels + out.rels)
  }

  /**
   * What the loop does with one entry when the counter stands at `at`:
   * `parse_file` for a PHP file, `parse_dir` (not top) for a sub-directory,
   * nothing for anything else.
   */
  function EntryOutput(format: int, row: (Value, int, int) -> NodeRow, path: string, sep: char,
                       e: Entry, at: int): Emitted
    decreases e
  {
    if Parsable(e) then FileOutput(format, row, Basename(ChildPath(path, e.name, sep), sep), e.parsed, at)
    else if Descend(e) then DirOutput(format, row, ChildPath(path, e.name, sep), sep, e.dir, false, at)
    else Emitted(-1, [], [])
  }

  /** Whether `$found` takes the entry's index: a parsed file's always, even -1; a sub-directory's unless it is -1. */
  predicate Kept(e: Entry, out: Emitted)
  {
    Parsable(e) || (Descend(e) && out.id != -1)
  }

  /**
   * The `readdir` loop over the first `k` entries of the directory at
   * `path`, with the counter at `start` before the loop.
   */
  function ScanEntries(format: int, row: (Value, int, int) -> NodeRow, path: string, sep: char,
                       dir: Directory, k: nat, start: int): Scanned
    requires k <= |dir.entries|
    decreases dir, k
  {
    if k == 0 then Scanned([], [], [])
    else
      var prev := ScanEntries(format, row, path, sep, dir, k - 1, start);
      var out := EntryOutput(format, row, path, sep, dir.entries[k - 1], start + |prev.nodes|);
      Extend(prev, out, Kept(dir.entries[k - 1], out))
  }

  /** Where the loop of `parse_dir` starts counting: after the top directory's own row. */
  function ScanStart(top: bool, start: int): int
  {
    if top then start + 1 else start
  }

  /**
   * `parse_dir` with the counter at `start`: the loop, then what the
   * directory writes about itself.
   */
  function DirOutput(format: int, row: (Value, int, int) -> NodeRow, path: string, sep: char,
                     dir: Directory, top: bool, start: int): Emitted
    decreases dir, |dir.entries| + 1
  {
    CloseDir(format, Basename(path, sep), top, start,
             ScanEntries(format, row, path, sep, dir, |dir.entries|, ScanStart(top, start)))
  }

  /**
   * The directory's own part, given what the loop wrote. The top directory
   * stored its row before the loop, so it has `start`; any other stores it
   * after the loop, and only when something was found, and is -1 otherwise.
   */
  function CloseDir(format: int, name: string, top: bool, start: int, scan: Scanned): Emitted
  {
    if top then
      Emitted(start, [FileOrDirRow(format, DIR, name, start)] + scan.nodes, scan.rels + DirRels(start, scan.found))
    else if |scan.found| == 0 then Emitted(-1, scan.nodes, scan.rels)
    else
      var id := start + |scan.nodes|;
      Emitted(id, scan.nodes + [FileOrDirRow(format, DIR, name, id)], scan.rels + DirRels(id, scan.found))
  }

  // ---------------------------------------------------------------------
  // the shape of what is written

  /** `x` is -1 (a file that did not parse) or one of the ids lo .. hi - 1. */
  predicate IdOrMissing(x: int, lo: int, hi: int)
  {
    x == -1 || lo <= x < hi
  }

  /** The rows carry the consecutive ids start, start + 1, ... */
  ghost predicate IdsFrom(nodes: seq<NodeRow>, start: int)
  {
    forall i :: 0 <= i < |nodes| ==> nodes[i].id == start + i
  }

  /** Every relationship starts at one of lo .. hi - 1 and ends there too, or at -1. */
  ghost predicate RelsWithin(rels: seq<RelRow>, lo: int, hi: int)
  {
    forall i :: 0 <= i < |rels| ==> lo <= rels[i].start < hi && IdOrMissing(rels[i].end, lo, hi)
  }

  /** A call's rows are numbered from `start`, and its result and its relationships stay among them. */
  ghost predicate WellFormed(o: Emitted, start: int)
  {
    && IdsFrom(o.nodes, start)
    && IdOrMissing(o.id, start, start + |o.nodes|)
    && RelsWithin(o.rels, start, start + |o.nodes|)
  }

  ghost predicate ScanWellFormed(s: Scanned, start: int)
  {
    && IdsFrom(s.nodes, start)
    && (forall j :: 0 <= j < |s.found| ==> IdOrMissing(s.found[j], start, start + |s.nodes|))
    && RelsWithin(s.rels, start, start + |s.nodes|)
  }

  lemma RelsWithinAppend(a: seq<RelRow>, b: seq<RelRow>, lo: int, mid: int, hi: int)
    requires lo <= mid <= hi
    requires RelsWithin(a, lo, mid) && RelsWithin(b, lo, hi)
    ensures RelsWithin(a + b, lo, hi)
  {
    forall i | 0 <= i < |a + b|
      ensures lo <= (a + b)[i].start < hi && IdOrMissing((a + b)[i].end, lo, hi)
    {
      if i < |a| {
        assert (a + b)[i] == a[i];
      } else {
        assert (a + b)[i] == b[i - |a|];
      }
    }
  }

  lemma DirRelsWithin(dirnode: int, found: seq<int>, lo: int, hi: int)
    requires lo <= dirnode < hi
    requires forall j :: 0 <= j < |found| ==> IdOrMissing(found[j], lo, hi)
    ensures RelsWithin(DirRels(dirnode, found), lo, hi)
  {
  }

  /** Adding a well-formed call to a well-formed scan keeps it well-formed. */
  lemma ExtendWellFormed(prev: Scanned, out: Emitted, keep: bool, start: int)
    requires ScanWellFormed(prev, start)
    requires WellFormed(out, start + |prev.nodes|)
    ensures ScanWellFormed(Extend(prev, out, keep), start)
  {
    var next := Extend(prev, out, keep);
    var hi := start + |next.nodes|;
    forall i | 0 <= i < |next.nodes|
      ensures next.nodes[i].id == start + i
    {
      if i >= |prev.nodes| {
        assert next.nodes[i] == out.nodes[i - |prev.nodes|];
      }
    }
    forall j | 0 <= j < |next.found|
      ensures IdOrMissing(next.found[j], start, hi)
    {
      if j < |prev.found| {
        assert next.found[j] == prev.found[j];
      }
    }
    RelsWithinAppend(prev.rels, out.rels, start, start + |prev.nodes|, hi);
  }

  /** `parse_file`'s rows: the File row, then the tree with its root right after it. */
  lemma FileWellFormed(format: int, row: (Value, int, int) -> NodeRow, name: string,
                       parsed: ParseResult, start: int)
    requires KeepsId(row)
    ensures WellFormed(FileOutput(format, row, name, parsed, start), start)
    ensures parsed.ParseError? ==> FileOutput(format, row, name, parsed, start).id == -1
                                   && FileOutput(format, row, name, parsed, start).nodes == []
                                   && FileOutput(format, row, name, parsed, start).rels == []
    ensures parsed.Parsed? ==>
              && FileOutput(format, row, name, parsed, start).id == start
              && |FileOutput(format, row, name, parsed, start).nodes| == 1 + Size(parsed.ast)
              && FileOutput(format, row, name, parsed, start).nodes[0] == FileOrDirRow(format, FILE, name, start)
              && FileOutput(format, row, name, parsed, start).nodes[1] == row(parsed.ast, 0, start + 1)
              && RelRow(start, start + 1, FILE_OF) in FileOutput(format, row, name, parsed, start).rels
  {
    if parsed.Parsed? {
      var ast := parsed.ast;
      var t := ExportTree(row, ast, 0, start + 1);
      var o := FileOutput(format, row, name, parsed, start);
      ExportTreeSize(row, ast, 0, start + 1);
      ExportTreeIds(row, ast, 0, start + 1);
      ExportTreeEdges(row, ast, 0, start + 1);
      assert t.nodes[0] == row(ast, 0, start + 1);
      forall i | 0 <= i < |o.nodes|
        ensures o.nodes[i].id == start + i
      {
        if i > 0 {
          assert o.nodes[i] == t.nodes[i - 1];
        }
      }
      forall i | 0 <= i < |o.rels|
        ensures start <= o.rels[i].start < start + |o.nodes| && IdOrMissing(o.rels[i].end, start, start + |o.nodes|)
      {
        if i < |t.rels| {
          assert o.rels[i] == t.rels[i];
          assert t.rels[i] in t.rels;
        }
      }
    }
  }

  /**
   * Whatever `parse_dir` writes is numbered consecutively from the counter
   * on entry, every index it returns or puts in `$found` is one of those
   * rows or -1, and so is every end of the relationships it writes; every
   * start is one of those rows.
   */
  lemma {:induction false} ScanWellFormedAll(format: int, row: (Value, int, int) -> NodeRow, path: string, sep: char,
                                             dir: Directory, k: nat, start: int)
    requires KeepsId(row) && k <= |dir.entries|
    ensures ScanWellFormed(ScanEntries(format, row, path, sep, dir, k, start), start)
    decreases dir, k
  {
    if k > 0 {
      var prev := ScanEntries(format, row, path, sep, dir, k - 1, start);
      ScanWellFormedAll(format, row, path, sep, dir, k - 1, start);
      var e := dir.entries[k - 1];
      var at := start + |prev.nodes|;
      var out := EntryOutput(format, row, path, sep, e, at);
      assert ScanEntries(format, row, path, sep, dir, k, start) == Extend(prev, out, Kept(e, out));
      EntryWellFormed(format, row, path, sep, e, at);
      ExtendWellFormed(prev, out, Kept(e, out), start);
    }
  }

  /** What the loop writes for one entry is numbered from the counter and refers only to itself or -1. */
  lemma {:induction false} EntryWellFormed(format: int, row: (Value, int, int) -> NodeRow, path: string, sep: char,
                                           e: Entry, at: int)
    requires KeepsId(row)
    ensures WellFormed(EntryOutput(format, row, path, sep, e, at), at)
    decreases e
  {
    if Parsable(e) {
      FileWellFormed(format, row, Basename(ChildPath(path, e.name, sep), sep), e.parsed, at);
    } else if Descend(e) {
      DirWellFormed(format, row, ChildPath(path, e.name, sep), sep, e.dir, false, at);
    }
  }

  lemma {:induction false} DirWellFormed(format: int, row: (Value, int, int) -> NodeRow, path: string, sep: char,
                                         dir: Directory, top: bool, start: int)
    requires KeepsId(row)
    ensures WellFormed(DirOutput(format, row, path, sep, dir, top, start), start)
    decreases dir, |dir.entries| + 1
  {
    ScanWellFormedAll(format, row, path, sep, dir, |dir.entries|, ScanStart(top, start));
    CloseWellFormed(format, Basename(path, sep), top, start,
                    ScanEntries(format, row, path, sep, dir, |dir.entries|, ScanStart(top, start)));
  }

  /** The directory's own row comes before or after the loop's rows, and its relationships stay among them. */
  lemma CloseWellFormed(format: int, name: string, top: bool, start: int, scan: Scanned)
    requires ScanWellFormed(scan, ScanStart(top, start))
    ensures WellFormed(CloseDir(format, name, top, start, scan), start)
  {
    var o := CloseDir(format, name, top, start, scan);
    var hi := start + |o.nodes|;
    if top {
      forall i | 0 <= i < |o.nodes|
        ensures o.nodes[i].id == start + i
      {
        if i > 0 {
          assert o.nodes[i] == scan.nodes[i - 1];
        }
      }
      DirRelsWithin(start, scan.found, start, hi);
      RelsWithinAppend(scan.rels, DirRels(start, scan.found), start, hi, hi);
    } else if |scan.found| > 0 {
      forall i | 0 <= i < |o.nodes|
        ensures o.nodes[i].id == start + i
      {
        if i < |scan.nodes| {
          assert o.nodes[i] == scan.nodes[i];
        }
      }
      DirRelsWithin(o.id, scan.found, start, hi);
      RelsWithinAppend(scan.rels, DirRels(o.id, scan.found), start, hi, hi);
    }
  }

  // ---------------------------------------------------------------------
  // which directories are stored

  /** One of the first `k` entries yields. */
  predicate SomeYield(dir: Directory, k: nat)
    requires k <= |dir.entries|
  {
    k > 0 && (SomeYield(dir, k - 1) || Yields(dir.entries[k - 1]))
  }

  /** `SomeYield` over all entries is the quantified definition of `Interesting`. */
  lemma {:induction false} SomeYieldExists(dir: Directory, k: nat)
    requires k <= |dir.entries|
    ensures SomeYield(dir, k) <==> exists i :: 0 <= i < k && Yields(dir.entries[i])
  {
    if k > 0 {
      SomeYieldExists(dir, k - 1);
      if SomeYield(dir, k) && !Yields(dir.entries[k - 1]) {
        var i :| 0 <= i < k - 1 && Yields(dir.entries[i]);
        assert 0 <= i < k && Yields(dir.entries[i]);
      }
      if exists i :: 0 <= i < k && Yields(dir.entries[i]) {
        var i :| 0 <= i < k && Yields(dir.entries[i]);
        if i < k - 1 {
          assert SomeYield(dir, k - 1);
        }
      }
    }
  }

  /**
   * After the first `k` entries `$found` is non-empty exactly when one of
   * them yields; while it is empty nothing has been written.
   */
  lemma {:induction false} ScanFinds(format: int, row: (Value, int, int) -> NodeRow, path: string, sep: char,
                                     dir: Directory, k: nat, start: int)
    requires k <= |dir.entries| && start >= 0
    ensures |ScanEntries(format, row, path, sep, dir, k, start).found| > 0 <==> SomeYield(dir, k)
    ensures |ScanEntries(format, row, path, sep, dir, k, start).found| == 0 ==>
            ScanEntries(format, row, path, sep, dir, k, start).nodes == [] &&
            ScanEntries(format, row, path, sep, dir, k, start).rels == []
    decreases dir, k
  {
    if k > 0 {
      var prev := ScanEntries(format, row, path, sep, dir, k - 1, start);
      ScanFinds(format, row, path, sep, dir, k - 1, start);
      var e := dir.entries[k - 1];
      var at := start + |prev.nodes|;
      var out := EntryOutput(format, row, path, sep, e, at);
      assert ScanEntries(format, row, path, sep, dir, k, start) == Extend(prev, out, Kept(e, out));
      if !Parsable(e) && Descend(e) {
        DirFinds(format, row, ChildPath(path, e.name, sep), sep, e.dir, at);
      }
      ExtendFinds(prev, out, Kept(e, out), Yields(e), SomeYield(dir, k - 1), SomeYield(dir, k));
    }
  }

  /** The bookkeeping of one step of `ScanFinds`, on plain values. */
  lemma ExtendFinds(prev: Scanned, out: Emitted, keep: bool, gives: bool, before: bool, after: bool)
    requires |prev.found| > 0 <==> before
    requires |prev.found| == 0 ==> prev.nodes == [] && prev.rels == []
    requires after <==> before || gives
    requires keep <==> gives
    requires !keep ==> out.nodes == [] && out.rels == []
    ensures |Extend(prev, out, keep).found| > 0 <==> after
    ensures |Extend(prev, out, keep).found| == 0 ==> Extend(prev, out, keep).nodes == [] && Extend(prev, out, keep).rels == []
  {
    if !keep {
      assert prev.nodes + out.nodes == prev.nodes && prev.rels + out.rels == prev.rels;
    }
  }

  /**
   * A directory below the top one gets a node, and `parse_dir` returns
   * something other than -1, exactly when it is interesting; when it is not,
   * nothing at all is written for it or below it.
   */
  lemma {:induction false} DirFinds(format: int, row: (Value, int, int) -> NodeRow, path: string, sep: char,
                                    dir: Directory, start: int)
    requires start >= 0
    ensures DirOutput(format, row, path, sep, dir, false, start).id != -1 <==> Interesting(dir)
    ensures DirOutput(format, row, path, sep, dir, false, start).id == -1 ==>
            DirOutput(format, row, path, sep, dir, false, start).nodes == [] &&
            DirOutput(format, row, path, sep, dir, false, start).rels == []
    decreases dir, |dir.entries| + 1
  {
    ScanFinds(format, row, path, sep, dir, |dir.entries|, start);
    SomeYieldExists(dir, |dir.entries|);
  }

  // ---------------------------------------------------------------------
  // the directory's own row and its DIRECTORY_OF relationships

  /** The relationships leaving `dirnode` in `DirRels` end at `$found`, in order. */
  lemma {:induction false} EdgesFromDirRels(dirnode: int, found: seq<int>)
    ensures EdgesFrom(DirRels(dirnode, found), dirnode) == found
    decreases |found|
  {
    if |found| > 0 {
      var init := found[..|found| - 1];
      var r := DirRels(dirnode, found);
      assert r == DirRels(dirnode, init) + [RelRow(dirnode, found[|found| - 1], DIRECTORY_OF)];
      assert r[..|r| - 1] == DirRels(dirnode, init);
      EdgesFromDirRels(dirnode, init);
      assert init + [found[|found| - 1]] == found;
    }
  }

  /**
   * A stored directory's row is the row with its id, and the relationships
   * leaving it end, in order, at the indices the loop put in `$found`; the
   * top directory takes the counter's value on entry.
   */
  lemma CloseDirNode(format: int, name: string, top: bool, start: int, scan: Scanned)
    requires ScanWellFormed(scan, ScanStart(top, start))
    ensures var o := CloseDir(format, name, top, start, scan);
      && (top ==> o.id == start)
      && (o.id != -1 ==>
            && start <= o.id < start + |o.nodes|
            && o.nodes[o.id - start] == FileOrDirRow(format, DIR, name, o.id)
            && EdgesFrom(o.rels, o.id) == scan.found)
  {
    var o := CloseDir(format, name, top, start, scan);
    if top {
      assert o.rels == scan.rels + DirRels(start, scan.found);
      ClosingEdges(scan.rels, scan.found, start, start + 1, start + 1 + |scan.nodes|);
    } else if |scan.found| > 0 {
      var id := start + |scan.nodes|;
      assert o.nodes[id - start] == FileOrDirRow(format, DIR, name, id);
      assert o.rels == scan.rels + DirRels(id, scan.found);
      ClosingEdges(scan.rels, scan.found, id, start, id);
    }
  }

  /** The loop's relationships start among lo .. hi - 1, so none leaves a `dirnode` outside them. */
  lemma ClosingEdges(rels: seq<RelRow>, found: seq<int>, dirnode: int, lo: int, hi: int)
    requires RelsWithin(rels, lo, hi)
    requires dirnode < lo || hi <= dirnode
    ensures EdgesFrom(rels + DirRels(dirnode, found), dirnode) == found
  {
    EdgesFromNone(rels, dirnode);
    EdgesFromAppend(rels, DirRels(dirnode, found), dirnode);
    EdgesFromDirRels(dirnode, found);
  }

  /** `CloseDirNode` for `parse_dir` itself. */
  lemma DirNode(format: int, row: (Value, int, int) -> NodeRow, path: string, sep: char,
                dir: Directory, top: bool, start: int)
    requires KeepsId(row)
    ensures var o := DirOutput(format, row, path, sep, dir, top, start);
      && (top ==> o.id == start)
      && (o.id != -1 ==>
            && start <= o.id < start + |o.nodes|
            && o.nodes[o.id - start] == FileOrDirRow(format, DIR, Basename(path, sep), o.id)
            && EdgesFrom(o.rels, o.id) == ScanEntries(format, row, path, sep, dir, |dir.entries|, ScanStart(top, start)).found)
  {
    var scan := ScanEntries(format, row, path, sep, dir, |dir.entries|, ScanStart(top, start));
    ScanWellFormedAll(format, row, path, sep, dir, |dir.entries|, ScanStart(top, start));
    CloseDirNode(format, Basename(path, sep), top, start, scan);
  }

  /**
   * As written, a sub-directory whose only PHP file fails to parse still
   * finds itself interesting: it gets a Directory row and a DIRECTORY_OF
   * relationship that ends at -1.
   */
  lemma FailedFileStillListed(format: int, row: (Value, int, int) -> NodeRow, path: string, sep: char,
                               name: string, message: string, start: int)
    requires IsPhpFile(name) && start >= 0
    ensures var dir := Directory([FileEntry(name, true, ParseError(message))]);
      var o := DirOutput(format, row, path, sep, dir, false, start);
      && o.id == start
      && o.nodes == [FileOrDirRow(format, DIR, Basename(path, sep), start)]
      && o.rels == [RelRow(start, -1, DIRECTORY_OF)]
  {
    var dir := Directory([FileEntry(name, true, ParseError(message))]);
    ScanFailedFile(format, row, path, sep, name, message, start);
    assert DirOutput(format, row, path, sep, dir, false, start)
        == CloseDir(format, Basename(path, sep), false, start, Scanned([-1], [], []));
  }

  /** The loop over that one entry puts -1 in `$found` and writes nothing. */
  lemma ScanFailedFile(format: int, row: (Value, int, int) -> NodeRow, path: string, sep: char,
                       name: string, message: string, start: int)
    requires IsPhpFile(name)
    ensures ScanEntries(format, row, path, sep, Directory([FileEntry(name, true, ParseError(message))]), 1, start)
         == Scanned([-1], [], [])
  {
    var e := FileEntry(name, true, ParseError(message));
    var dir := Directory([e]);
    var out := EntryOutput(format, row, path, sep, e, start);
    assert out == Emitted(-1, [], []);
    var none := ScanEntries(format, row, path, sep, dir, 0, start);
    assert ScanEntries(format, row, path, sep, dir, 1, start) == Extend(none, out, true);
  }

  /** The extension test ignores case: any name ending in ".PHP" is parsed. */
  lemma UpperCasePhpParsed(stem: string)
    ensures IsPhpFile(stem + ".PHP")
  {
    var name := stem + ['.'] + "PHP";
    assert name == stem + ".PHP";
    assert name[|stem|] == '.';
    AfterLastOfSuffix(stem, "PHP", '.');
    var u := "PHP";
    assert u[1..] == "HP" && u[1..][1..] == "P" && u[1..][1..][1..] == "";
  }

  // ---------------------------------------------------------------------
  // the driver itself

  /**
   * `parse_file`: `parsed` is what `ast\parse_file` makes of the file. On
   * success the File row, the tree and the FILE_OF row are written and the
   * File row's id is returned; on a parse error nothing is written and -1
   * is returned.
   */
  method ParseFile(exporter: CsvExporter, path: string, sep: char, parsed: ParseResult) returns (fnode: int)
    requires exporter.Valid()
    modifies exporter
    ensures exporter.Valid()
    ensures var out := FileOutput(exporter.format, exporter.row, Basename(path, sep), parsed, old(exporter.nodecount));
      && fnode == out.id
      && exporter.nodes == old(exporter.nodes) + out.nodes
      && exporter.rels == old(exporter.rels) + out.rels
      && exporter.nodecount == old(exporter.nodecount) + |out.nodes|
  {
    match parsed
    case Parsed(ast) =>
      fnode := exporter.StoreFileNode(Basename(path, sep));
      var astroot := exporter.Export(ast, 0);
      exporter.StoreRel(fnode, astroot, FILE_OF);
      ExportTreeSize(exporter.row, ast, 0, astroot);
      AppendAssoc(old(exporter.nodes), [FileOrDirRow(exporter.format, FILE, Basename(path, sep), fnode)],
                  ExportTree(exporter.row, ast, 0, astroot).nodes);
      AppendAssoc(old(exporter.rels), ExportTree(exporter.row, ast, 0, astroot).rels,
                  [RelRow(fnode, astroot, FILE_OF)]);
    case ParseError(_) =>
      fnode := -1;
  }

  /**
   * `parse_dir`: the top call stores the directory first; the loop parses
   * the PHP files and descends into the sub-directories, collecting their
   * indices in `$found`; afterwards a directory that found something is
   * stored (if it was not already) and linked to each found index.
   */
  method ParseDir(exporter: CsvExporter, path: string, sep: char, dir: Directory, top: bool) returns (dirnode: int)
    requires exporter.Valid()
    modifies exporter
    ensures exporter.Valid()
    ensures var out := DirOutput(exporter.format, exporter.row, path, sep, dir, top, old(exporter.nodecount));
      && dirnode == out.id
      && exporter.nodes == old(exporter.nodes) + out.nodes
      && exporter.rels == old(exporter.rels) + out.rels
      && exporter.nodecount == old(exporter.nodecount) + |out.nodes|
    decreases dir, 2
  {
    assert DirOutput(exporter.format, exporter.row, path, sep, dir, top, exporter.nodecount)
        == CloseDir(exporter.format, Basename(path, sep), top, exporter.nodecount,
                    ScanEntries(exporter.format, exporter.row, path, sep, dir, |dir.entries|,
                                ScanStart(top, exporter.nodecount)));
    if top {
      dirnode := ParseTopDir(exporter, path, sep, dir);
    } else {
      dirnode := ParseSubDir(exporter, path, sep, dir);
    }
  }

  /** `parse_dir` with `$top` set: the directory's row comes first, before its entries. */
  method ParseTopDir(exporter: CsvExporter, path: string, sep: char, dir: Directory) returns (dirnode: int)
    requires exporter.Valid()
    modifies exporter
    ensures exporter.Valid()
    ensures var out := CloseDir(exporter.format, Basename(path, sep), true, old(exporter.nodecount),
                                ScanEntries(exporter.format, exporter.row, path, sep, dir, |dir.entries|, old(exporter.nodecount) + 1));
      && dirnode == out.id
      && exporter.nodes == old(exporter.nodes) + out.nodes
      && exporter.rels == old(exporter.rels) + out.rels
      && exporter.nodecount == old(exporter.nodecount) + |out.nodes|
    decreases dir, 1
  {
    ghost var name, start := Basename(path, sep), exporter.nodecount;
    dirnode := exporter.StoreDirNode(Basename(path, sep));
    var found := ScanDir(exporter, path, sep, dir);
    StoreDirRels(exporter, dirnode, found);
    ghost var scan := ScanEntries(exporter.format, exporter.row, path, sep, dir, |dir.entries|, start + 1);
    AppendAssoc(old(exporter.nodes), [FileOrDirRow(exporter.format, DIR, name, start)], scan.nodes);
    AppendAssoc(old(exporter.rels), scan.rels, DirRels(dirnode, found));
  }

  /** `parse_dir` below the top: the directory's row is written after its entries, and only if `$found` is non-empty. */
  method ParseSubDir(exporter: CsvExporter, path: string, sep: char, dir: Directory) returns (dirnode: int)
    requires exporter.Valid()
    modifies exporter
    ensures exporter.Valid()
    ensures var out := CloseDir(exporter.format, Basename(path, sep), false, old(exporter.nodecount),
                                ScanEntries(exporter.format, exporter.row, path, sep, dir, |dir.entries|, old(exporter.nodecount)));
      && dirnode == out.id
      && exporter.nodes == old(exporter.nodes) + out.nodes
      && exporter.rels == old(exporter.rels) + out.rels
      && exporter.nodecount == old(exporter.nodecount) + |out.nodes|
    decreases dir, 1
  {
    ghost var name, start := Basename(path, sep), exporter.nodecount;
    ghost var scan := ScanEntries(exporter.format, exporter.row, path, sep, dir, |dir.entries|, start);
    var found := ScanDir(exporter, path, sep, dir);
    assert found == scan.found && exporter.nodecount == start + |scan.nodes|;
    if |found| > 0 {
      dirnode := exporter.StoreDirNode(Basename(path, sep));
      ghost var dirRow := FileOrDirRow(exporter.format, DIR, name, dirnode);
      StoreDirRels(exporter, dirnode, found);
      assert CloseDir(exporter.format, name, false, start, scan)
          == Emitted(dirnode, scan.nodes + [dirRow], scan.rels + DirRels(dirnode, found));
      AppendAssoc(old(exporter.nodes), scan.nodes, [dirRow]);
      AppendAssoc(old(exporter.rels), scan.rels, DirRels(dirnode, found));
    } else {
      dirnode := -1;
      assert CloseDir(exporter.format, name, false, start, scan) == Emitted(-1, scan.nodes, scan.rels);
    }
  }

  /** The `readdir` loop of `parse_dir` over the entries of the directory at `path`. */
  method ScanDir(exporter: CsvExporter, path: string, sep: char, dir: Directory) returns (found: seq<int>)
    requires exporter.Valid()
    modifies exporter
    ensures exporter.Valid()
    ensures var scan := ScanEntries(exporter.format, exporter.row, path, sep, dir, |dir.entries|, old(exporter.nodecount));
      && found == scan.found
      && exporter.nodes == old(exporter.nodes) + scan.nodes
      && exporter.rels == old(exporter.rels) + scan.rels
      && exporter.nodecount == old(exporter.nodecount) + |scan.nodes|
    decreases dir, 0
  {
    ghost var format, row, start := exporter.format, exporter.row, exporter.nodecount;
    found := [];
    ghost var scan := Scanned([], [], []);
    var i := 0;
    while i < |dir.entries|
      invariant 0 <= i <= |dir.entries|
      invariant exporter.Valid() && exporter.format == format && exporter.row == row
      invariant scan == ScanEntries(format, row, path, sep, dir, i, start)
      invariant found == scan.found
      invariant exporter.nodes == old(exporter.nodes) + scan.nodes
      invariant exporter.rels == old(exporter.rels) + scan.rels
      invariant exporter.nodecount == start + |scan.nodes|
    {
      ghost var out: Emitted, keep: bool;
      found, out, keep := ScanEntry(exporter, path, sep, dir, i, start, found);
      AppendAssoc(old(exporter.nodes), scan.nodes, out.nodes);
      AppendAssoc(old(exporter.rels), scan.rels, out.rels);
      scan := Extend(scan, out, keep);
      i := i + 1;
    }
  }

  /**
   * One iteration of the `readdir` loop: the entry's call, if any, appends
   * `out`, and its index joins `$found` when `keep`.
   */
  method ScanEntry(exporter: CsvExporter, path: string, sep: char, dir: Directory, i: nat, ghost start: int,
                   found: seq<int>)
    returns (found': seq<int>, ghost out: Emitted, ghost keep: bool)
    requires exporter.Valid() && i < |dir.entries|
    requires exporter.nodecount == start + |ScanEntries(exporter.format, exporter.row, path, sep, dir, i, start).nodes|
    modifies exporter
    ensures exporter.Valid()
    ensures ScanEntries(exporter.format, exporter.row, path, sep, dir, i + 1, start)
         == Extend(ScanEntries(exporter.format, exporter.row, path, sep, dir, i, start), out, keep)
    ensures found' == found + (if keep then [out.id] else [])
    ensures exporter.nodes == old(exporter.nodes) + out.nodes
    ensures exporter.rels == old(exporter.rels) + out.rels
    ensures exporter.nodecount == old(exporter.nodecount) + |out.nodes|
    decreases dir, 0, i
  {
    var e := dir.entries[i];
    var childpath := BuildPath([path, e.name], sep);
    ghost var at := old(exporter.nodecount);
    out := EntryOutput(exporter.format, exporter.row, path, sep, e, at);
    keep := Kept(e, out);
    if e.FileEntry? && e.readable && ToLower(Extension(e.name)) == "php" {
      var fnode := ParseFile(exporter, childpath, sep, e.parsed);
      found' := found + [fnode];
    } else if e.DirEntry? && e.readable && e.name != "." && e.name != ".." {
      var childdir := ParseDir(exporter, childpath, sep, e.dir, false);
      found' := found;
      if childdir != -1 {
        found' := found + [childdir];
      }
    } else {
      found' := found;
      assert exporter.nodes == old(exporter.nodes) + out.nodes;
      assert exporter.rels == old(exporter.rels) + out.rels;
    }
  }

  /** The closing `foreach` of `parse_dir`: one DIRECTORY_OF row per found index, in order. */
  method StoreDirRels(exporter: CsvExporter, dirnode: int, found: seq<int>)
    requires exporter.Valid()
    modifies exporter
    ensures exporter.Valid()
    ensures exporter.rels == old(exporter.rels) + DirRels(dirnode, found)
    ensures exporter.nodes == old(exporter.nodes) && exporter.nodecount == old(exporter.nodecount)
  {
    var j := 0;
    while j < |found|
      invariant 0 <= j <= |found|
      invariant exporter.Valid()
      invariant exporter.nodes == old(exporter.nodes) && exporter.nodecount == old(exporter.nodecount)
      invariant exporter.rels == old(exporter.rels) + DirRels(dirnode, found[..j])
    {
      exporter.StoreRel(dirnode, found[j], DIRECTORY_OF);
      assert found[..j + 1][..j] == found[..j];
      j := j + 1;
    }
    assert found[..j] == found;
  }
}
