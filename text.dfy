/**
 * String helpers that the PHP code gets from its runtime: `implode`/`join`,
 * `str_replace` with a one-character search string, decimal rendering of
 * integers inside interpolated strings, and the "text after the last
 * separator" step of `basename` and `SplFileInfo::getExtension`.
 */
module Text {

  /** `implode(sep, parts)`: the parts with one separator between neighbours. */
  function Join(parts: seq<string>, sep: char): string
  {
    if |parts| == 0 then ""
    else if |parts| == 1 then parts[0]
    else parts[0] + [sep] + Join(parts[1..], sep)
  }

  /** Cuts a string at every occurrence of the separator (`explode`). */
  function Split(s: string, sep: char): (r: seq<string>)
    ensures |r| >= 1
  {
    if |s| == 0 then [""]
    else
      var rest := Split(s[1..], sep);
      if s[0] == sep then [""] + rest
      else [[s[0]] + rest[0]] + rest[1..]
  }

  lemma {:induction false} SplitWithoutSeparator(s: string, sep: char)
    requires sep !in s
    ensures Split(s, sep) == [s]
  {
    if |s| > 0 {
      assert sep !in s[1..];
      SplitWithoutSeparator(s[1..], sep);
      assert [s[0]] + s[1..] == s;
    }
  }

  lemma {:induction false} SplitAtFirstSeparator(a: string, b: string, sep: char)
    requires sep !in a
    ensures Split(a + [sep] + b, sep) == [a] + Split(b, sep)
  {
    if |a| == 0 {
      assert (a + [sep] + b)[1..] == b;
    } else {
      assert (a + [sep] + b)[1..] == a[1..] + [sep] + b;
      assert sep !in a[1..];
      SplitAtFirstSeparator(a[1..], b, sep);
      assert [a[0]] + a[1..] == a;
    }
  }

  /** Joining parts that do not contain the separator can be undone by splitting. */
  lemma {:induction false} SplitJoin(parts: seq<string>, sep: char)
    requires |parts| >= 1
    requires forall i :: 0 <= i < |parts| ==> sep !in parts[i]
    ensures Split(Join(parts, sep), sep) == parts
  {
    if |parts| == 1 {
      SplitWithoutSeparator(parts[0], sep);
    } else {
      SplitJoin(parts[1..], sep);
      SplitAtFirstSeparator(parts[0], Join(parts[1..], sep), sep);
      assert [parts[0]] + parts[1..] == parts;
    }
  }

  lemma {:induction false} JoinNonEmpty(parts: seq<string>, sep: char)
    requires |parts| >= 1 && |parts[0]| >= 1
    ensures |Join(parts, sep)| >= 1
  {
  }

  predicate IsDigit(c: char)
  {
    '0' <= c <= '9'
  }

  function DigitChar(d: nat): (c: char)
    requires d < 10
    ensures IsDigit(c)
  {
    (('0' as int) + d) as char
  }

  function DigitValue(c: char): (d: nat)
    requires IsDigit(c)
    ensures d < 10
  {
    (c as int) - ('0' as int)
  }

  /** Decimal text of a natural number, most significant digit first. */
  function NatToString(n: nat): (r: string)
    ensures |r| >= 1
    ensures forall k :: 0 <= k < |r| ==> IsDigit(r[k])
    decreases n
  {
    if n < 10 then [DigitChar(n)] else NatToString(n / 10) + [DigitChar(n % 10)]
  }

  /** What PHP prints for an integer in an interpolated string. */
  function IntToString(i: int): string
  {
    if i < 0 then "-" + NatToString(-i) else NatToString(i)
  }

  function ParseNat(s: string): nat
    requires forall k :: 0 <= k < |s| ==> IsDigit(s[k])
  {
    if |s| == 0 then 0 else ParseNat(s[..|s| - 1]) * 10 + DigitValue(s[|s| - 1])
  }

  /** Text an integer can be read back from: an optional minus sign, then digits. */
  predicate IntText(s: string)
  {
    && |s| >= 1 && (s[0] == '-' || IsDigit(s[0]))
    && forall k :: 0 < k < |s| ==> IsDigit(s[k])
  }

  function ParseInt(s: string): int
    requires IntText(s)
  {
    if s[0] == '-' then -(ParseNat(s[1..]) as int) else ParseNat(s)
  }

  lemma {:induction false} ParseNatToString(n: nat)
    ensures ParseNat(NatToString(n)) == n
    decreases n
  {
    if n >= 10 {
      var s := NatToString(n);
      assert s[..|s| - 1] == NatToString(n / 10);
      ParseNatToString(n / 10);
    }
  }

  /** The decimal text of an integer reads back as the same integer. */
  lemma ParseIntToString(i: int)
    ensures IntText(IntToString(i)) && ParseInt(IntToString(i)) == i
  {
    if i < 0 {
      assert IntToString(i)[1..] == NatToString(-i);
      ParseNatToString(-i);
    } else {
      ParseNatToString(i);
    }
  }

  /** Decimal text holds digits and at most a leading minus sign, so never a delimiter. */
  lemma {:induction false} IntToStringHasNo(i: int, c: char)
    requires c != '-' && !IsDigit(c)
    ensures c !in IntToString(i)
  {
    var s := IntToString(i);
    forall k | 0 <= k < |s|
      ensures s[k] != c
    {
      if i < 0 && k > 0 {
        assert s[k] == NatToString(-i)[k - 1];
      }
    }
  }

  /** `str_replace(c, rep, s)` for a one-character search string `c`. */
  function ReplaceChar(s: string, c: char, rep: string): string
  {
    if |s| == 0 then ""
    else (if s[0] == c then rep else [s[0]]) + ReplaceChar(s[1..], c, rep)
  }

  lemma {:induction false} ReplaceCharAppend(a: string, b: string, c: char, rep: string)
    ensures ReplaceChar(a + b, c, rep) == ReplaceChar(a, c, rep) + ReplaceChar(b, c, rep)
  {
    if |a| > 0 {
      assert (a + b)[1..] == a[1..] + b;
      ReplaceCharAppend(a[1..], b, c, rep);
    } else {
      assert a + b == b;
    }
  }

  lemma ReplaceCharSingle(x: char, c: char, rep: string)
    ensures ReplaceChar([x], c, rep) == if x == c then rep else [x]
  {
    assert [x][1..] == [];
  }

  /** Replacing a character that does not occur changes nothing. */
  lemma {:induction false} ReplaceCharAbsent(s: string, c: char, rep: string)
    requires c !in s
    ensures ReplaceChar(s, c, rep) == s
  {
    if |s| > 0 {
      assert c !in s[1..];
      ReplaceCharAbsent(s[1..], c, rep);
      assert [s[0]] + s[1..] == s;
    }
  }

  /**
   * After the replacement a character `d` is absent if the replacement text
   * does not contain it and it was either the one replaced or not there.
   */
  lemma {:induction false} ReplaceCharRemoves(s: string, c: char, rep: string, d: char)
    requires d !in rep
    requires d == c || d !in s
    ensures d !in ReplaceChar(s, c, rep)
  {
    if |s| > 0 {
      assert d != c ==> d !in s[1..];
      ReplaceCharRemoves(s[1..], c, rep, d);
    }
  }

  /** The text after the last occurrence of `sep` (all of `s` when there is none). */
  function AfterLast(s: string, sep: char): (r: string)
    ensures sep !in r
    ensures |r| <= |s|
  {
    if |s| == 0 then ""
    else if s[|s| - 1] == sep then ""
    else AfterLast(s[..|s| - 1], sep) + [s[|s| - 1]]
  }

  lemma {:induction false} AfterLastOfSuffix(a: string, b: string, sep: char)
    requires sep !in b
    ensures AfterLast(a + [sep] + b, sep) == b
  {
    var s := a + [sep] + b;
    if |b| == 0 {
      assert s[|s| - 1] == sep;
    } else {
      assert s[..|s| - 1] == a + [sep] + b[..|b| - 1];
      assert sep !in b[..|b| - 1];
      AfterLastOfSuffix(a, b[..|b| - 1], sep);
      assert b[..|b| - 1] + [b[|b| - 1]] == b;
    }
  }

  /** Drops every trailing `sep`, as `basename` does before looking for the name. */
  function StripTrailing(s: string, sep: char): (r: string)
    ensures |r| <= |s| && r == s[..|r|]
    ensures |r| == 0 || r[|r| - 1] != sep
  {
    if |s| > 0 && s[|s| - 1] == sep then StripTrailing(s[..|s| - 1], sep) else s
  }

  /** ASCII `strtolower`. */
  function ToLower(s: string): (r: string)
    ensures |r| == |s|
  {
    if |s| == 0 then ""
    else [if 'A' <= s[0] <= 'Z' then ((s[0] as int) + 32) as char else s[0]] + ToLower(s[1..])
  }
}
