/**
 * The behaviour of Python's `str` that the ETL layer relies on: case mapping,
 * `strip()`, substring tests with `in`, `str(int)` / `int(str)`, and the
 * leftmost scan that `re.search` performs.
 */
module Strings {
  import opened Wrappers

  /** `str.isspace()`, which is also what `\s` matches in a `str` pattern. */
  predicate IsSpace(c: char) {
    || ('\U{0009}' <= c <= '\U{000D}')
    || ('\U{001C}' <= c <= '\U{0020}')
    || c == '\U{0085}' || c == '\U{00A0}' || c == '\U{1680}'
    || ('\U{2000}' <= c <= '\U{200A}')
    || c == '\U{2028}' || c == '\U{2029}' || c == '\U{202F}' || c == '\U{205F}' || c == '\U{3000}'
  }

  /** An ASCII decimal digit. */
  predicate IsDigit(c: char) {
    '0' <= c <= '9'
  }

  function UpperChar(c: char): char {
    if 'a' <= c <= 'z' then (c as int - 32) as char else c
  }

  function LowerChar(c: char): char {
    if 'A' <= c <= 'Z' then (c as int + 32) as char else c
  }

  /** `s.upper()` on ASCII letters; every other character is kept. */
  function Upper(s: string): (r: string)
    ensures |r| == |s|
  {
    seq(|s|, i requires 0 <= i < |s| => UpperChar(s[i]))
  }

  /** `s.lower()` on ASCII letters; every other character is kept. */
  function Lower(s: string): (r: string)
    ensures |r| == |s|
  {
    seq(|s|, i requires 0 <= i < |s| => LowerChar(s[i]))
  }

  /** `s.lstrip()`: drops the leading whitespace and nothing else. */
  function TrimStart(s: string): (r: string)
    ensures |r| <= |s| && r == s[|s| - |r|..]
    ensures r == [] || !IsSpace(r[0])
    decreases |s|
  {
    if |s| > 0 && IsSpace(s[0]) then TrimStart(s[1..]) else s
  }

  /** `s.rstrip()`: drops the trailing whitespace and nothing else. */
  function TrimEnd(s: string): (r: string)
    ensures |r| <= |s| && r == s[..|r|]
    ensures r == [] || !IsSpace(r[|r| - 1])
    decreases |s|
  {
    if |s| > 0 && IsSpace(s[|s| - 1]) then TrimEnd(s[..|s| - 1]) else s
  }

  /** What `lstrip()` drops is whitespace, all of it. */
  lemma {:induction false} TrimStartDropsSpace(s: string)
    ensures forall i :: 0 <= i < |s| - |TrimStart(s)| ==> IsSpace(s[i])
    decreases |s|
  {
    if |s| > 0 && IsSpace(s[0]) {
      TrimStartDropsSpace(s[1..]);
      forall i | 0 <= i < |s| - |TrimStart(s)| ensures IsSpace(s[i]) {
        if i > 0 {
          assert s[i] == s[1..][i - 1];
        }
      }
    }
  }

  /** What `rstrip()` drops is whitespace, all of it. */
  lemma {:induction false} TrimEndDropsSpace(s: string)
    ensures forall i :: |TrimEnd(s)| <= i < |s| ==> IsSpace(s[i])
    decreases |s|
  {
    if |s| > 0 && IsSpace(s[|s| - 1]) {
      TrimEndDropsSpace(s[..|s| - 1]);
      forall i | |TrimEnd(s)| <= i < |s| ensures IsSpace(s[i]) {
        if i < |s| - 1 {
          assert s[i] == s[..|s| - 1][i];
        }
      }
    }
  }

  /**
   * `s.strip()`: the result is a contiguous part of `s`, it neither starts
   * nor ends with whitespace, and every character it holds comes from `s`.
   */
  function Strip(s: string): (r: string)
    ensures |TrimStart(s)| <= |s| && |r| <= |TrimStart(s)|
    ensures r == s[|s| - |TrimStart(s)|..|s| - |TrimStart(s)| + |r|]
    ensures r == [] || (!IsSpace(r[0]) && !IsSpace(r[|r| - 1]))
    ensures forall c :: c in r ==> c in s
  {
    var t := TrimStart(s);
    var r := TrimEnd(t);
    SliceOfSuffix(s, |s| - |t|, t, |r|);
    InSlice(s, |s| - |t|, |s| - |t| + |r|);
    r
  }

  lemma SliceOfSuffix(s: string, a: nat, t: string, k: nat)
    requires a <= |s| && t == s[a..] && k <= |t|
    ensures t[..k] == s[a..a + k]
  {
  }

  lemma InSlice(s: string, a: nat, b: nat)
    requires a <= b <= |s|
    ensures forall c :: c in s[a..b] ==> c in s
  {
    forall c | c in s[a..b] ensures c in s {
      var i :| 0 <= i < b - a && s[a..b][i] == c;
      assert s[a + i] == c;
    }
  }

  /** Stripping a string without whitespace at either end changes nothing. */
  lemma StripUnchanged(s: string)
    requires s == [] || (!IsSpace(s[0]) && !IsSpace(s[|s| - 1]))
    ensures Strip(s) == s
  {
    assert TrimStart(s) == s;
  }

  /** Stripping twice is stripping once. */
  lemma StripIdempotent(s: string)
    ensures Strip(Strip(s)) == Strip(s)
  {
    StripUnchanged(Strip(s));
  }

  /** `s.startswith(p)`. */
  predicate StartsWith(s: string, p: string) {
    |p| <= |s| && s[..|p|] == p
  }

  /** A prefix test at position `i` is a comparison with the slice there. */
  lemma StartsWithAt(s: string, i: nat, p: string)
    requires i <= |s|
    ensures StartsWith(s[i..], p) <==> i + |p| <= |s| && s[i..i + |p|] == p
  {
    if i + |p| <= |s| {
      assert s[i..][..|p|] == s[i..i + |p|];
    }
  }

  /** The first `k` characters of a slice start where the slice does. */
  lemma PrefixOfSlice(s: string, a: nat, b: nat, k: nat)
    requires a <= b <= |s| && k <= b - a
    ensures s[a..b][..k] == s[a..a + k]
  {
  }

  /** `sub in s` for strings: `sub` occurs somewhere in `s`. */
  predicate Contains(s: string, sub: string)
    decreases |s|
  {
    StartsWith(s, sub) || (|s| > 0 && Contains(s[1..], sub))
  }

  /** An occurrence at a known position is an occurrence. */
  lemma {:induction false} ContainsAt(s: string, sub: string, i: nat)
    requires i + |sub| <= |s| && s[i..i + |sub|] == sub
    ensures Contains(s, sub)
    decreases i
  {
    if i > 0 {
      assert s[1..][i - 1..i - 1 + |sub|] == s[i..i + |sub|];
      ContainsAt(s[1..], sub, i - 1);
    }
  }

  /** An occurrence is found at some position. */
  lemma {:induction false} ContainsWitness(s: string, sub: string) returns (i: nat)
    requires Contains(s, sub)
    ensures i + |sub| <= |s| && s[i..i + |sub|] == sub
    decreases |s|
  {
    if StartsWith(s, sub) {
      i := 0;
    } else {
      var j := ContainsWitness(s[1..], sub);
      assert s[1..][j..j + |sub|] == s[j + 1..j + 1 + |sub|];
      i := j + 1;
    }
  }

  /** Every character of an occurring `sub` is a character of `s`. */
  lemma {:induction false} ContainsChars(s: string, sub: string)
    ensures Contains(s, sub) ==> forall c :: c in sub ==> c in s
    decreases |s|
  {
    if StartsWith(s, sub) {
      forall c | c in sub ensures c in s {
        var k :| 0 <= k < |sub| && sub[k] == c;
        assert s[k] == c;
      }
    }
    if |s| > 0 {
      ContainsChars(s[1..], sub);
    }
  }

  /** A string that lacks one character of `sub` cannot contain `sub`. */
  lemma Lacks(s: string, sub: string, c: char)
    requires c in sub && c !in s
    ensures !Contains(s, sub)
  {
    ContainsChars(s, sub);
  }

  /** `any(k in s for k in keys)`. */
  predicate AnyIn(keys: seq<string>, s: string) {
    exists k :: k in keys && Contains(s, k)
  }

  /**
   * The length of the longest run of characters satisfying `p` that starts at
   * `s[j]` (C's `strspn`): the position `j + k` is the first one at or after
   * `j` that fails `p`, or the end of `s`.
   */
  function Span(s: string, j: nat, p: char -> bool): (k: nat)
    requires j <= |s|
    ensures j + k <= |s|
    ensures forall q :: j <= q < j + k ==> p(s[q])
    ensures j + k == |s| || !p(s[j + k])
    decreases |s| - j
  {
    if j < |s| && p(s[j]) then 1 + Span(s, j + 1, p) else 0
  }

  /** A run that ends where `p` first fails is the span. */
  lemma {:induction false} SpanIs(s: string, j: nat, p: char -> bool, k: nat)
    requires j + k <= |s|
    requires forall q :: j <= q < j + k ==> p(s[q])
    requires j + k == |s| || !p(s[j + k])
    ensures Span(s, j, p) == k
    decreases k
  {
    if k > 0 {
      assert p(s[j]);
      SpanIs(s, j + 1, p, k - 1);
    }
  }

  /** Every run of characters satisfying `p` at `j` lies within the span. */
  lemma {:induction false} SpanCovers(s: string, j: nat, p: char -> bool, k: nat)
    requires j + k <= |s|
    requires forall q :: j <= q < j + k ==> p(s[q])
    ensures k <= Span(s, j, p)
    decreases k
  {
    if k > 0 {
      assert p(s[j]);
      SpanCovers(s, j + 1, p, k - 1);
    }
  }

  /** The run itself: the characters `s[j..j + Span(s, j, p)]`. */
  function Run(s: string, j: nat, p: char -> bool): (r: string)
    requires j <= |s|
    ensures |r| == Span(s, j, p) && r == s[j..j + |r|]
    ensures forall i :: 0 <= i < |r| ==> p(r[i])
    decreases |s| - j
  {
    if j < |s| && p(s[j]) then [s[j]] + Run(s, j + 1, p) else []
  }

  // ---------------------------------------------------------------------
  // Decimal numbers: str(n) and int(digits)
  // ---------------------------------------------------------------------

  function DigitChar(d: nat): (c: char)
    requires d < 10
    ensures IsDigit(c)
  {
    ('0' as int + d) as char
  }

  function DigitValue(c: char): (d: nat)
    requires IsDigit(c)
    ensures d < 10
  {
    c as int - '0' as int
  }

  predicate AllDigits(d: string) {
    forall i :: 0 <= i < |d| ==> IsDigit(d[i])
  }

  /** `str(n)` for a natural number: a non-empty run of digits. */
  function NatToString(n: nat): (r: string)
    ensures |r| >= 1 && AllDigits(r)
    decreases n
  {
    if n < 10 then [DigitChar(n)] else NatToString(n / 10) + [DigitChar(n % 10)]
  }

  /** `str(n)`: a minus sign for a negative number, then its digits. */
  function IntToString(n: int): (r: string)
    ensures |r| >= 1
  {
    if n < 0 then "-" + NatToString(-n) else NatToString(n)
  }

  /** `int(d)` of a run of decimal digits (leading zeros allowed). */
  function DigitsValue(d: string): nat
    requires AllDigits(d)
    decreases |d|
  {
    if d == [] then 0 else DigitsValue(d[..|d| - 1]) * 10 + DigitValue(d[|d| - 1])
  }

  /** `int(str(n)) == n`. */
  lemma {:induction false} DigitsOfNat(n: nat)
    ensures DigitsValue(NatToString(n)) == n
    decreases n
  {
    if n >= 10 {
      var d := NatToString(n);
      assert d[..|d| - 1] == NatToString(n / 10);
      DigitsOfNat(n / 10);
    }
  }

  // ---------------------------------------------------------------------
  // The scan of re.search
  // ---------------------------------------------------------------------

  /**
   * The match at the leftmost position of `[lo, hi]` where `at` matches,
   * which is how `re.search` picks among several matches.
   */
  function FirstMatch<T>(at: nat -> Option<T>, lo: nat, hi: nat): (r: Option<T>)
    ensures r.Some? ==> exists i :: lo <= i <= hi && at(i) == r && forall j :: lo <= j < i ==> at(j).None?
    ensures r.None? ==> forall i :: lo <= i <= hi ==> at(i).None?
    decreases hi + 1 - lo
  {
    if lo > hi then None
    else if at(lo).Some? then at(lo)
    else FirstMatch(at, lo + 1, hi)
  }

  /** The first position that matches decides the search. */
  lemma {:induction false} FirstMatchIs<T>(at: nat -> Option<T>, lo: nat, hi: nat, i: nat)
    requires lo <= i <= hi && at(i).Some?
    requires forall j :: lo <= j < i ==> at(j).None?
    ensures FirstMatch(at, lo, hi) == at(i)
    decreases i - lo
  {
    if lo < i {
      FirstMatchIs(at, lo + 1, hi, i);
    }
  }
}
