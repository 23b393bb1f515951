/**
 * The table lookup at the heart of `csv_format_flags`, which both exporter
 * revisions share: an exclusive kind names the one flag value it carries; a
 * combinable kind names every table entry whose bit is set, in table order.
 * What each revision prints when nothing is named lives with that revision.
 */
module Flags {
  import opened Ast
  import opened Text

  /** `isset($flagInfo[$flags])` / `$flagInfo[$flags]`: the first entry with that key. */
  function Lookup(t: FlagTable, key: Bits): (r: Option<string>)
    ensures r.Some? ==> (key, r.value) in t
    ensures r.None? ==> forall i :: 0 <= i < |t| ==> t[i].0 != key
  {
    if |t| == 0 then None
    else if t[0].0 == key then Some(t[0].1)
    else Lookup(t[1..], key)
  }

  /** A PHP array has each key at most once. */
  predicate DistinctKeys(t: FlagTable)
  {
    forall i, j :: 0 <= i < j < |t| ==> t[i].0 != t[j].0
  }

  /** In a table with distinct keys the lookup finds the one entry for the key. */
  lemma {:induction false} LookupFinds(t: FlagTable, key: Bits, name: string)
    requires DistinctKeys(t)
    requires (key, name) in t
    ensures Lookup(t, key) == Some(name)
  {
    if t[0] != (key, name) {
      assert t[0].0 != key by {
        var j :| 0 <= j < |t| && t[j] == (key, name);
        assert j != 0;
      }
      assert (key, name) in t[1..] by {
        var j :| 0 <= j < |t| && t[j] == (key, name);
        assert t[1..][j - 1] == t[j];
      }
      LookupFinds(t[1..], key, name);
    }
  }

  /** `$flags & $flag` is truthy. */
  predicate Overlaps(flags: Bits, flag: Bits)
  {
    flags & flag != 0
  }

  /** The loop over a combinable table: names of the entries whose bit is set, in order. */
  function SetNames(t: FlagTable, flags: Bits): seq<string>
  {
    if |t| == 0 then []
    else (if Overlaps(flags, t[0].0) then [t[0].1] else []) + SetNames(t[1..], flags)
  }

  /** A name is collected if and only if some entry with that name has its bit set. */
  lemma {:induction false} SetNamesMember(t: FlagTable, flags: Bits, name: string)
    ensures name in SetNames(t, flags) <==>
      exists i :: 0 <= i < |t| && t[i].1 == name && Overlaps(flags, t[i].0)
  {
    if |t| > 0 {
      SetNamesMember(t[1..], flags, name);
      if name in SetNames(t[1..], flags) {
        var i :| 0 <= i < |t[1..]| && t[1..][i].1 == name && Overlaps(flags, t[1..][i].0);
        assert t[i + 1] == t[1..][i];
      }
      if exists i :: 0 <= i < |t| && t[i].1 == name && Overlaps(flags, t[i].0) {
        var i :| 0 <= i < |t| && t[i].1 == name && Overlaps(flags, t[i].0);
        if i > 0 {
          assert t[1..][i - 1] == t[i];
        }
      }
    }
  }

  /** Collecting respects table order: a table split in two collects part by part. */
  lemma {:induction false} SetNamesAppend(t1: FlagTable, t2: FlagTable, flags: Bits)
    ensures SetNames(t1 + t2, flags) == SetNames(t1, flags) + SetNames(t2, flags)
  {
    if |t1| == 0 {
      assert t1 + t2 == t2;
    } else {
      assert (t1 + t2)[0] == t1[0];
      assert (t1 + t2)[1..] == t1[1..] + t2;
      SetNamesAppend(t1[1..], t2, flags);
    }
  }

  /** No bit is set in 0, so nothing is collected. */
  lemma {:induction false} SetNamesOfZero(t: FlagTable)
    ensures SetNames(t, 0) == []
  {
    if |t| > 0 {
      SetNamesOfZero(t[1..]);
    }
  }

  /**
   * The names `csv_format_flags` produces for a kind and its flags, or None
   * where it falls through to its fallback. The exclusive table is consulted
   * first; the combinable one only for kinds the exclusive one lacks.
   */
  function Render(info: FlagInfo, arrayDelim: char, kind: int, flags: Bits): Option<string>
  {
    if kind in info.exclusive then Lookup(info.exclusive[kind], flags)
    else if kind in info.combinable then
      var names := SetNames(info.combinable[kind], flags);
      if |names| > 0 then Some(Join(names, arrayDelim)) else None
    else None
  }

  /** No kind has both exclusive and combinable flags. */
  predicate Disjoint(info: FlagInfo)
  {
    info.exclusive.Keys !! info.combinable.Keys
  }

  predicate NamesNonEmpty(t: FlagTable)
  {
    forall i :: 0 <= i < |t| ==> |t[i].1| > 0
  }

  /** Every table of `get_flag_info()` names each flag with non-empty text. */
  predicate AllNamesNonEmpty(info: FlagInfo)
  {
    && (forall k :: k in info.exclusive ==> NamesNonEmpty(info.exclusive[k]))
    && (forall k :: k in info.combinable ==> NamesNonEmpty(info.combinable[k]))
  }

  /**
   * An exclusive kind renders at most one label: the table's name for exactly
   * the given flag value, and that name whenever the value is in the table.
   */
  lemma ExclusiveRendersOneName(info: FlagInfo, arrayDelim: char, kind: int, flags: Bits, name: string)
    requires kind in info.exclusive && DistinctKeys(info.exclusive[kind])
    ensures Render(info, arrayDelim, kind, flags) == Some(name) <==> (flags, name) in info.exclusive[kind]
  {
    if (flags, name) in info.exclusive[kind] {
      LookupFinds(info.exclusive[kind], flags, name);
    }
  }

  /**
   * For a combinable kind of a disjoint flag info the rendered text splits
   * back, at the array delimiter, into exactly the names whose bits are set,
   * in table order, provided no name contains the delimiter.
   */
  lemma CombinableRendersSetNames(info: FlagInfo, arrayDelim: char, kind: int, flags: Bits)
    requires Disjoint(info) && kind in info.combinable
    requires forall i :: 0 <= i < |info.combinable[kind]| ==> arrayDelim !in info.combinable[kind][i].1
    ensures var names := SetNames(info.combinable[kind], flags);
      match Render(info, arrayDelim, kind, flags)
      case None => names == []
      case Some(text) => Split(text, arrayDelim) == names
  {
    var t := info.combinable[kind];
    var names := SetNames(t, flags);
    assert kind !in info.exclusive;
    forall i | 0 <= i < |names|
      ensures arrayDelim !in names[i]
    {
      SetNamesMember(t, flags, names[i]);
    }
    if |names| > 0 {
      SplitJoin(names, arrayDelim);
    }
  }

  /** With flags 0 a kind without an exclusive table renders nothing. */
  lemma ZeroFlagsRenderNothing(info: FlagInfo, arrayDelim: char, kind: int)
    requires kind !in info.exclusive
    ensures Render(info, arrayDelim, kind, 0) == None
  {
    if kind in info.combinable {
      SetNamesOfZero(info.combinable[kind]);
    }
  }

  /** Whatever is rendered is non-empty when every table name is. */
  lemma RenderedNonEmpty(info: FlagInfo, arrayDelim: char, kind: int, flags: Bits)
    requires AllNamesNonEmpty(info)
    requires Render(info, arrayDelim, kind, flags).Some?
    ensures |Render(info, arrayDelim, kind, flags).value| > 0
  {
    if kind !in info.exclusive {
      var t := info.combinable[kind];
      var names := SetNames(t, flags);
      SetNamesMember(t, flags, names[0]);
      JoinNonEmpty(names, arrayDelim);
    }
  }

  /** The modifier table of util.php, in its declaration order. */
  const MODIFIERS: FlagTable := [(256, "MODIFIER_PUBLIC"), (512, "MODIFIER_PROTECTED"),
                                 (1024, "MODIFIER_PRIVATE"), (1, "MODIFIER_STATIC"),
                                 (2, "MODIFIER_ABSTRACT"), (4, "MODIFIER_FINAL")]

  lemma {:induction false} PublicStaticNames()
    ensures SetNames(MODIFIERS, 257) == ["MODIFIER_PUBLIC", "MODIFIER_STATIC"]
  {
    var t := MODIFIERS;
    assert SetNames(t[5..], 257) == [];
    assert SetNames(t[4..], 257) == [];
    assert SetNames(t[3..], 257) == ["MODIFIER_STATIC"];
    assert SetNames(t[2..], 257) == ["MODIFIER_STATIC"];
    assert SetNames(t[1..], 257) == ["MODIFIER_STATIC"];
  }

  /**
   * A method declared `public static`: the labels come out in the table's
   * order, not in the order of the bits.
   */
  lemma PublicStaticExample(info: FlagInfo, kind: int)
    requires Disjoint(info)
    requires kind in info.combinable && info.combinable[kind] == MODIFIERS
    ensures Render(info, ';', kind, 257) == Some("MODIFIER_PUBLIC;MODIFIER_STATIC")
    ensures Render(info, ',', kind, 257) == Some("MODIFIER_PUBLIC,MODIFIER_STATIC")
  {
    assert kind !in info.exclusive;
    PublicStaticNames();
    assert Join(["MODIFIER_PUBLIC", "MODIFIER_STATIC"], ';') == "MODIFIER_PUBLIC;MODIFIER_STATIC";
    assert Join(["MODIFIER_PUBLIC", "MODIFIER_STATIC"], ',') == "MODIFIER_PUBLIC,MODIFIER_STATIC";
  }
}
