/**
 * The .NET string operations the data source relies on, written out over
 * `seq<char>`: `Trim`, `Split(c).First()/.Last()`, `string.Join`,
 * `Replace`, `Contains`, `StartsWith`, integer formatting and `int.Parse`.
 */
module Strings {
  import opened Wrappers

  /**
   * The characters `string.Trim()` removes, those `char.IsWhiteSpace` accepts:
   * the control characters TAB to CR and NEL, and the Unicode space,
   * line and paragraph separators.
   */
  predicate IsWhite(c: char) {
    || c == ' ' || c == '\t' || c == '\n' || c == '\U{B}' || c == '\U{C}' || c == '\r'
    || c == '\U{85}' || c == '\U{A0}' || c == '\U{1680}'
    || ('\U{2000}' <= c <= '\U{200A}')
    || c == '\U{2028}' || c == '\U{2029}' || c == '\U{202F}' || c == '\U{205F}' || c == '\U{3000}'
  }

  /** `string.IsNullOrWhiteSpace` (null is modelled as the empty string). */
  predicate IsBlank(s: string) {
    forall i :: 0 <= i < |s| ==> IsWhite(s[i])
  }

  function TrimStart(s: string): (r: string)
    ensures |r| <= |s|
  {
    if |s| > 0 && IsWhite(s[0]) then TrimStart(s[1..]) else s
  }

  /** `TrimStart` drops the leading white space and nothing else. */
  lemma {:induction false} TrimStartSpec(s: string)
    ensures var r := TrimStart(s);
      && |r| <= |s| && r == s[|s| - |r|..]
      && (r == [] || !IsWhite(r[0]))
      && (forall i :: 0 <= i < |s| - |r| ==> IsWhite(s[i]))
    decreases |s|
  {
    if |s| > 0 && IsWhite(s[0]) {
      TrimStartSpec(s[1..]);
    }
  }

  function TrimEnd(s: string): (r: string)
    ensures |r| <= |s|
  {
    if |s| > 0 && IsWhite(s[|s| - 1]) then TrimEnd(s[..|s| - 1]) else s
  }

  /** `TrimEnd` drops the trailing white space and nothing else. */
  lemma {:induction false} TrimEndSpec(s: string)
    ensures var r := TrimEnd(s);
      && |r| <= |s| && r == s[..|r|]
      && (r == [] || !IsWhite(r[|r| - 1]))
      && (forall i :: |r| <= i < |s| ==> IsWhite(s[i]))
    decreases |s|
  {
    if |s| > 0 && IsWhite(s[|s| - 1]) {
      TrimEndSpec(s[..|s| - 1]);
    }
  }

  /** `string.Trim()`: the longest infix that starts and ends with a non-white character. */
  function Trim(s: string): string {
    TrimEnd(TrimStart(s))
  }

  /** What `Trim` removes is white space at either end; what it keeps starts and ends with a non-white character. */
  lemma TrimSpec(s: string)
    ensures var r, a := Trim(s), |s| - |TrimStart(s)|;
      && a + |r| <= |s| && r == s[a..a + |r|]
      && (forall i :: 0 <= i < a ==> IsWhite(s[i]))
      && (forall i :: a + |r| <= i < |s| ==> IsWhite(s[i]))
      && (r == [] || (!IsWhite(r[0]) && !IsWhite(r[|r| - 1])))
  {
    var t := TrimStart(s);
    var r := TrimEnd(t);
    TrimStartSpec(s);
    TrimEndSpec(t);
    TrimParts(s, t, r);
  }

  /** Trimming the end after the start leaves an infix of `s` with only white space around it. */
  lemma TrimParts(s: string, t: string, r: string)
    requires |t| <= |s| && t == s[|s| - |t|..] && (forall i :: 0 <= i < |s| - |t| ==> IsWhite(s[i]))
    requires |r| <= |t| && r == t[..|r|] && (forall i :: |r| <= i < |t| ==> IsWhite(t[i]))
    ensures var a := |s| - |t|;
      a + |r| <= |s| && r == s[a..a + |r|]
      && (forall i :: a + |r| <= i < |s| ==> IsWhite(s[i]))
  {
    var a := |s| - |t|;
    forall i | a + |r| <= i < |s|
      ensures IsWhite(s[i])
    {
      assert s[i] == t[i - a];
    }
  }

  lemma {:induction false} TrimEndAfterSolid(a: string, b: string)
    requires |a| > 0 && !IsWhite(a[|a| - 1])
    ensures TrimEnd(a + b) == a + TrimEnd(b)
    decreases |b|
  {
    if |b| > 0 && IsWhite(b[|b| - 1]) {
      assert (a + b)[..|a + b| - 1] == a + b[..|b| - 1];
      TrimEndAfterSolid(a, b[..|b| - 1]);
    } else if |b| == 0 {
      assert a + b == a;
    }
  }

  /** Trimming a string that opens with a non-white prefix ending in a non-white character keeps that prefix. */
  lemma TrimAfterSolidPrefix(a: string, b: string)
    requires |a| > 0 && !IsWhite(a[0]) && !IsWhite(a[|a| - 1])
    ensures Trim(a + b) == a + TrimEnd(b)
  {
    assert TrimStart(a + b) == a + b;
    TrimEndAfterSolid(a, b);
  }

  lemma Associate<T>(x: seq<T>, y: seq<T>, z: seq<T>)
    ensures (x + y) + z == x + (y + z)
  {
  }

  /** `string.Join(sep, parts)`. */
  function Join(sep: string, parts: seq<string>): string
  {
    if |parts| == 0 then "" else if |parts| == 1 then parts[0] else parts[0] + sep + Join(sep, parts[1..])
  }

  /** `s.Split(c)`: always at least one part; no part contains `c`. */
  function Split(s: string, c: char): (r: seq<string>)
    ensures |r| >= 1
  {
    if s == [] then [""]
    else if s[0] == c then [""] + Split(s[1..], c)
    else
      var t := Split(s[1..], c);
      [[s[0]] + t[0]] + t[1..]
  }

  /** No part of a split holds the separator; the first part starts as `s` does, unless `s` starts with it. */
  lemma {:induction false} SplitSpec(s: string, c: char)
    ensures var r := Split(s, c);
      && (forall i :: 0 <= i < |r| ==> c !in r[i])
      && (s != [] && s[0] != c ==> r[0] != [] && r[0][0] == s[0])
  {
    if s != [] {
      SplitSpec(s[1..], c);
      var t := Split(s[1..], c);
      if s[0] == c {
        SplitAtSeparator(s, c);
      } else {
        SplitAtOther(s, c);
        var r := Split(s, c);
        forall i | 0 <= i < |r|
          ensures c !in r[i]
        {
          if i == 0 {
            assert r[0] == [s[0]] + t[0];
          } else {
            assert r[i] == t[i];
          }
        }
      }
    }
  }

  lemma SplitAtSeparator(s: string, c: char)
    requires s != [] && s[0] == c
    ensures Split(s, c) == [""] + Split(s[1..], c)
  {
  }

  lemma SplitAtOther(s: string, c: char)
    requires s != [] && s[0] != c
    ensures var t := Split(s[1..], c);
      Split(s, c) == [[s[0]] + t[0]] + t[1..]
  {
  }

  /** `s.Split(c).First()`. */
  function BeforeFirst(s: string, c: char): string {
    Split(s, c)[0]
  }

  /** `s.Split(c).Last()`. */
  function AfterLast(s: string, c: char): string {
    var parts := Split(s, c);
    parts[|parts| - 1]
  }

  lemma {:induction false} SplitNoSeparator(s: string, c: char)
    requires c !in s
    ensures Split(s, c) == [s]
  {
    if s != [] {
      SplitNoSeparator(s[1..], c);
      assert [s[0]] + s[1..] == s;
    }
  }

  lemma {:induction false} SplitAround(a: string, c: char, b: string)
    ensures Split(a + [c] + b, c) == Split(a, c) + Split(b, c)
  {
    if a == [] {
      assert a + [c] + b == [c] + b;
      assert ([c] + b)[1..] == b;
    } else {
      var s := a + [c] + b;
      assert s[1..] == a[1..] + [c] + b;
      SplitAround(a[1..], c, b);
      SplitHeads(s, a, c, Split(b, c));
    }
  }

  /** `s` and `a` share their first character, and the rest of `s` splits as the rest of `a`, then `w`. */
  lemma SplitHeads(s: string, a: string, c: char, w: seq<string>)
    requires s != [] && a != [] && s[0] == a[0]
    requires Split(s[1..], c) == Split(a[1..], c) + w
    ensures Split(s, c) == Split(a, c) + w
  {
    var u, t := Split(a[1..], c), Split(s[1..], c);
    if a[0] != c {
      SplitAtOther(s, c);
      SplitAtOther(a, c);
      GlueFirst([a[0]], t, u, w);
    } else {
      SplitAtSeparator(s, c);
      SplitAtSeparator(a, c);
      Associate([""], u, w);
    }
  }

  /** Gluing `h` to the first part commutes with appending further parts. */
  lemma GlueFirst(h: string, t: seq<string>, u: seq<string>, w: seq<string>)
    requires |u| >= 1 && t == u + w
    ensures [h + t[0]] + t[1..] == ([h + u[0]] + u[1..]) + w
  {
    assert t[1..] == u[1..] + w;
    Associate([h + u[0]], u[1..], w);
  }

  /** `(a + c + b).Split(c).Last()` is `b` when `b` holds no `c`. */
  lemma AfterLastOf(a: string, c: char, b: string)
    requires c !in b
    ensures AfterLast(a + [c] + b, c) == b
  {
    SplitAround(a, c, b);
    SplitNoSeparator(b, c);
  }

  /** `(a + c + b).Split(c).First()` is `a` when `a` holds no `c`. */
  lemma BeforeFirstOf(a: string, c: char, b: string)
    requires c !in a
    ensures BeforeFirst(a + [c] + b, c) == a
  {
    SplitAround(a, c, b);
    SplitNoSeparator(a, c);
  }

  lemma BeforeFirstWhole(s: string, c: char)
    requires c !in s
    ensures BeforeFirst(s, c) == s && AfterLast(s, c) == s
  {
    SplitNoSeparator(s, c);
  }

  /** Split undoes Join when no part contains the separator. */
  lemma {:induction false} SplitJoin(parts: seq<string>, c: char)
    requires |parts| >= 1
    requires forall i :: 0 <= i < |parts| ==> c !in parts[i]
    ensures Split(Join([c], parts), c) == parts
  {
    if |parts| == 1 {
      SplitNoSeparator(parts[0], c);
    } else {
      SplitJoin(parts[1..], c);
      SplitAround(parts[0], c, Join([c], parts[1..]));
      SplitNoSeparator(parts[0], c);
      assert [parts[0]] + parts[1..] == parts;
    }
  }

  /** `s.Replace(pat, rep)`: every non-overlapping occurrence, scanning left to right. */
  function ReplaceAll(s: string, pat: string, rep: string): string
    requires |pat| > 0
    decreases |s|
  {
    if |s| < |pat| then s
    else if s[..|pat|] == pat then rep + ReplaceAll(s[|pat|..], pat, rep)
    else [s[0]] + ReplaceAll(s[1..], pat, rep)
  }

  /** Replacing a character removes every occurrence of it. */
  lemma {:induction false} ReplaceCharRemoves(s: string, c: char, rep: string)
    requires c !in rep
    ensures c !in ReplaceAll(s, [c], rep)
    decreases |s|
  {
    if |s| >= 1 {
      ReplaceCharRemoves(s[1..], c, rep);
    }
  }

  /** A string without the pattern character is left as it is. */
  lemma {:induction false} ReplaceCharAbsent(s: string, c: char, rep: string)
    requires c !in s
    ensures ReplaceAll(s, [c], rep) == s
    decreases |s|
  {
    if |s| >= 1 {
      assert s[..1] == [s[0]];
      ReplaceCharAbsent(s[1..], c, rep);
    }
  }

  lemma ReplaceCharAppend(a: string, b: string, c: char, rep: string)
    ensures ReplaceAll(a + b, [c], rep) == ReplaceAll(a, [c], rep) + ReplaceAll(b, [c], rep)
    decreases |a|
  {
    if |a| == 0 {
      assert a + b == b;
    } else {
      assert (a + b)[..1] == a[..1];
      assert (a + b)[1..] == a[1..] + b;
      ReplaceCharAppend(a[1..], b, c, rep);
    }
  }

  /** `s.Split(seps).Last()` for a set of separator characters. */
  function LastSegment(s: string, seps: set<char>): string
  {
    if s == [] || s[|s| - 1] in seps then ""
    else LastSegment(s[..|s| - 1], seps) + [s[|s| - 1]]
  }

  /** The last segment is the longest suffix free of separators. */
  lemma {:induction false} LastSegmentSpec(s: string, seps: set<char>)
    ensures var r := LastSegment(s, seps);
      && |r| <= |s| && r == s[|s| - |r|..]
      && (forall i :: 0 <= i < |r| ==> r[i] !in seps)
      && (|r| < |s| ==> s[|s| - |r| - 1] in seps)
    decreases |s|
  {
    if s != [] && s[|s| - 1] !in seps {
      LastSegmentSpec(s[..|s| - 1], seps);
    }
  }

  /** `s.StartsWith(p)` (ordinal). */
  predicate StartsWith(s: string, p: string) {
    |p| <= |s| && s[..|p|] == p
  }

  lemma PrefixOfConcat(a: string, b: string)
    ensures StartsWith(a + b, a)
    ensures a + b == a <==> b == []
  {
    assert (a + b)[..|a|] == a;
  }

  /** `s.Contains(sub)` (ordinal substring test). */
  predicate Contains(s: string, sub: string) {
    exists i | 0 <= i <= |s| - |sub| :: OccursAt(s, sub, i)
  }

  predicate OccursAt(s: string, sub: string, i: int) {
    0 <= i <= |s| - |sub| && s[i..i + |sub|] == sub
  }

  function DigitChar(d: nat): (c: char)
    requires d < 10
    ensures '0' <= c <= '9' && c as int - '0' as int == d
  {
    ('0' as int + d) as char
  }

  /** Decimal text of a natural number, no leading zeros. */
  function NatToString(n: nat): (r: string)
    ensures |r| >= 1
    ensures forall i :: 0 <= i < |r| ==> '0' <= r[i] <= '9'
  {
    if n < 10 then [DigitChar(n)] else NatToString(n / 10) + [DigitChar(n % 10)]
  }

  /** `int.ToString()`/`long.ToString()` in the invariant culture. */
  function IntToString(i: int): string {
    if i < 0 then "-" + NatToString(-i) else NatToString(i)
  }

  /** The value of a string of decimal digits. */
  function DigitsValue(s: string): nat
    requires forall i :: 0 <= i < |s| ==> '0' <= s[i] <= '9'
  {
    if s == [] then 0 else DigitsValue(s[..|s| - 1]) * 10 + (s[|s| - 1] as int - '0' as int)
  }

  lemma {:induction false} DigitsOfNat(n: nat)
    ensures DigitsValue(NatToString(n)) == n
  {
    if n >= 10 {
      var q, d := n / 10, n % 10;
      DigitsOfNat(q);
      var p := NatToString(q);
      var r := p + [DigitChar(d)];
      assert NatToString(n) == r;
      assert r[..|r| - 1] == p;
      assert r[|r| - 1] as int - '0' as int == d;
      assert DigitsValue(r) == DigitsValue(p) * 10 + d;
    }
  }

  /** Leading zeros do not change the value of a string of digits. */
  lemma {:induction false} LeadingZerosValue(k: nat, s: string)
    requires AllDigits(s)
    ensures AllDigits(seq(k, _ => '0') + s)
    ensures DigitsValue(seq(k, _ => '0') + s) == DigitsValue(s)
    decreases |s|, k
  {
    var z := seq(k, _ => '0');
    if s != [] {
      LeadingZerosValue(k, s[..|s| - 1]);
      assert (z + s)[..|z + s| - 1] == z + s[..|s| - 1];
    } else if k > 0 {
      LeadingZerosValue(k - 1, s);
      assert (z + s)[..|z + s| - 1] == seq(k - 1, _ => '0') + s;
    } else {
      assert z + s == [];
    }
  }

  /** A number below one hundred takes at most two digits. */
  lemma ShortNatToString(n: nat)
    requires n < 100
    ensures |NatToString(n)| <= 2
  {
    if n >= 10 {
      assert NatToString(n / 10) == [DigitChar(n / 10)];
    }
  }

  const IntMin: int := -0x8000_0000
  const IntMax: int := 0x7FFF_FFFF

  predicate AllDigits(s: string) {
    forall i :: 0 <= i < |s| ==> '0' <= s[i] <= '9'
  }

  /**
   * `int.Parse(s)` on an already trimmed string: an optional sign followed by at
   * least one decimal digit, within the 32-bit range; `None` is the exception.
   */
  function ParseInt32(s: string): (r: Option<int>)
    ensures r.Some? ==> IntMin <= r.value <= IntMax
  {
    var neg := |s| > 0 && s[0] == '-';
    var digits := if |s| > 0 && (s[0] == '-' || s[0] == '+') then s[1..] else s;
    if |digits| == 0 || !AllDigits(digits) then None
    else
      var d: int := DigitsValue(digits);
      var v := if neg then -d else d;
      if IntMin <= v <= IntMax then Some(v) else None
  }

  /** Parsing the text of a 32-bit integer gives the integer back. */
  lemma ParseIntToString(i: int)
    requires IntMin <= i <= IntMax
    ensures ParseInt32(IntToString(i)) == Some(i)
  {
    var m: nat := if i < 0 then -i else i;
    var n := NatToString(m);
    DigitsOfNat(m);
    assert AllDigits(n);
    if i < 0 {
      var s := "-" + n;
      assert IntToString(i) == s;
      assert s[0] == '-' && s[1..] == n;
      ParseDigits(s, n, true);
    } else {
      assert IntToString(i) == n;
      assert n[0] != '-' && n[0] != '+';
      ParseDigits(n, n, false);
    }
  }

  /** `int.Parse` on an optional `-` and a run of digits `n`. */
  lemma ParseDigits(s: string, n: string, neg: bool)
    requires n != [] && AllDigits(n)
    requires s == if neg then "-" + n else n
    requires !neg ==> n[0] != '-' && n[0] != '+'
    requires IntMin <= (if neg then 0 - DigitsValue(n) as int else DigitsValue(n) as int) <= IntMax
    ensures ParseInt32(s) == Some(if neg then 0 - DigitsValue(n) as int else DigitsValue(n) as int)
  {
    if neg {
      assert s[1..] == n;
    }
  }
}
