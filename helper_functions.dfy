/**
 * Enrichment of train records: fields derived from the public message, the
 * train code and the route, and the process-wide cache that maps a train code
 * to a train type seen in an earlier batch.
 */
module HelperFunctions {
  import opened Wrappers
  import opened Strings
  import opened Frame
  import TrainTypes

  // ---------------------------------------------------------------------
  // Delay: the pattern \(([+-]?\d+) mins late\)
  // ---------------------------------------------------------------------

  const LateSuffix: string := " mins late)"

  /**
   * `\d+ mins late\)` at position `j`. The digit run is the whole run at that
   * point, since the character after it must be the space of the suffix.
   */
  function UnsignedDelay(s: string, j: nat): Option<nat>
    requires j <= |s|
  {
    var d := Run(s, j, IsDigit);
    if |d| >= 1 && StartsWith(s[j + |d|..], LateSuffix) then Some(DigitsValue(d)) else None
  }

  /** `[+-]?\d+ mins late\)` at position `j`, with the sign applied. */
  function SignedDelay(s: string, j: nat): Option<int>
    requires j <= |s|
  {
    if j < |s| && s[j] == '-' then
      match UnsignedDelay(s, j + 1)
      case Some(n) => Some(-(n as int))
      case None => None
    else if j < |s| && s[j] == '+' then
      match UnsignedDelay(s, j + 1)
      case Some(n) => Some(n)
      case None => None
    else
      match UnsignedDelay(s, j)
      case Some(n) => Some(n)
      case None => None
  }

  /** The delay pattern tried at position `i`, which must hold the "(". */
  function DelayAt(s: string, i: nat): Option<int> {
    if i < |s| && s[i] == '(' then SignedDelay(s, i + 1) else None
  }

  /** The delay pattern at every position of `s`, as `re.search` tries it. */
  function DelaysIn(s: string): nat -> Option<int> {
    (i: nat) => DelayAt(s, i)
  }

  /** The delay pattern matches at `i` and at no earlier position: the match `re.search` returns. */
  predicate LeftmostDelay(s: string, i: nat) {
    i <= |s| && DelayAt(s, i).Some? && forall j :: 0 <= j < i ==> DelayAt(s, j).None?
  }

  /**
   * `extract_delay_from_message`: the signed number in the leftmost delay
   * annotation; 0 for a missing or empty message and for a message without
   * an annotation.
   */
  function ExtractDelay(message: Option<string>): (r: int)
    ensures message.None? || message == Some("") ==> r == 0
    ensures forall i :: message.Some? && LeftmostDelay(message.value, i) ==> r == DelayAt(message.value, i).value
    ensures message.Some? && (forall i :: 0 <= i <= |message.value| ==> DelayAt(message.value, i).None?) ==> r == 0
    ensures r != 0 ==> message.Some? && exists i :: 0 <= i <= |message.value| && DelayAt(message.value, i) == Some(r)
  {
    if message.None? || message.value == "" then 0
    else
      var s := message.value;
      LeftmostDecides(s);
      match FirstMatch(DelaysIn(s), 0, |s|)
      case Some(n) => n
      case None => 0
  }

  /** The search returns the leftmost match. */
  lemma LeftmostDecides(s: string)
    ensures forall i :: LeftmostDelay(s, i) ==> FirstMatch(DelaysIn(s), 0, |s|) == DelayAt(s, i)
  {
    forall i | LeftmostDelay(s, i) ensures FirstMatch(DelaysIn(s), 0, |s|) == DelayAt(s, i) {
      FirstMatchIs(DelaysIn(s), 0, |s|, i);
    }
  }

  /** The annotation the upstream feed writes for a delay of `n` minutes. */
  function Annotation(n: int): string {
    "(" + IntToString(n) + LateSuffix
  }

  /** A run of digits that a space follows is the digit run at that point. */
  lemma DigitRunOf(s: string, j: nat, d: string, t: string)
    requires j <= |s| && s[j..] == d + t
    requires |d| >= 1 && AllDigits(d) && |t| >= 1 && t[0] == ' '
    ensures Run(s, j, IsDigit) == d
  {
    assert s[j + |d|] == s[j..][|d|] == t[0];
    forall q | j <= q < j + |d| ensures IsDigit(s[q]) {
      assert s[q] == s[j..][q - j] == d[q - j];
    }
    SpanIs(s, j, IsDigit, |d|);
    assert s[j..j + |d|] == s[j..][..|d|] == d;
  }

  /** Digits followed by the suffix give their value. */
  lemma UnsignedDelayOf(s: string, j: nat, d: string, t: string)
    requires j <= |s| && s[j..] == d + t
    requires |d| >= 1 && AllDigits(d) && StartsWith(t, LateSuffix)
    ensures UnsignedDelay(s, j) == Some(DigitsValue(d))
  {
    assert t[0] == t[..|LateSuffix|][0] == LateSuffix[0] == ' ';
    DigitRunOf(s, j, d, t);
    assert s[j + |d|..] == s[j..][|d|..] == t;
  }

  lemma NegativeAnnotation(s: string, i: nat, m: nat, t: string)
    requires i <= |s| && s[i..] == "(" + ("-" + (NatToString(m) + t)) && StartsWith(t, LateSuffix)
    ensures DelayAt(s, i) == Some(-(m as int))
  {
    var d := NatToString(m);
    DigitsOfNat(m);
    assert s[i + 1] == s[i..][1] == '-';
    assert s[i + 2..] == s[i..][2..] == d + t;
    UnsignedDelayOf(s, i + 2, d, t);
  }

  lemma NonNegativeAnnotation(s: string, i: nat, m: nat, t: string)
    requires i <= |s| && s[i..] == "(" + (NatToString(m) + t) && StartsWith(t, LateSuffix)
    ensures DelayAt(s, i) == Some(m)
  {
    var d := NatToString(m);
    DigitsOfNat(m);
    assert s[i + 1..] == s[i..][1..] == d + t;
    assert s[i + 1] == d[0] && IsDigit(d[0]);
    UnsignedDelayOf(s, i + 1, d, t);
  }

  /** What follows the start of an annotation: the bracket, the sign, the digits, the suffix. */
  lemma AnnotationThen(n: int, post: string)
    ensures n < 0 ==> Annotation(n) + post == "(" + ("-" + (NatToString(-n) + (LateSuffix + post)))
    ensures n >= 0 ==> Annotation(n) + post == "(" + (NatToString(n) + (LateSuffix + post))
  {
  }

  lemma {:induction false} DelayAtAnnotation(pre: string, n: int, post: string)
    ensures DelayAt(pre + Annotation(n) + post, |pre|) == Some(n)
  {
    var s := pre + Annotation(n) + post;
    var t := LateSuffix + post;
    assert s[|pre|..] == Annotation(n) + post;
    AnnotationThen(n, post);
    assert t[..|LateSuffix|] == LateSuffix;
    if n < 0 {
      NegativeAnnotation(s, |pre|, -n, t);
    } else {
      NonNegativeAnnotation(s, |pre|, n, t);
    }
  }

  /**
   * The round trip of the delay field: a message whose first delay
   * annotation is the one for `n` minutes yields `n`, early (negative) or
   * late, whatever other brackets come before it.
   */
  lemma ExtractDelayOfAnnotation(pre: string, n: int, post: string)
    requires forall j :: 0 <= j < |pre| ==> DelayAt(pre + Annotation(n) + post, j).None?
    ensures ExtractDelay(Some(pre + Annotation(n) + post)) == n
  {
    var s := pre + Annotation(n) + post;
    DelayAtAnnotation(pre, n, post);
    FirstMatchIs(DelaysIn(s), 0, |s|, |pre|);
  }

  /** Text without a "(" holds no annotation, whatever follows it. */
  lemma NoBracketNoEarlierDelay(pre: string, rest: string)
    requires '(' !in pre
    ensures forall j :: 0 <= j < |pre| ==> DelayAt(pre + rest, j).None?
  {
    forall j | 0 <= j < |pre| ensures DelayAt(pre + rest, j).None? {
      assert (pre + rest)[j] == pre[j];
    }
  }

  /** Without a "(" there is no annotation, and the delay is taken as 0. */
  lemma NoParenthesisNoDelay(s: string)
    requires '(' !in s
    ensures ExtractDelay(Some(s)) == 0
  {
    forall i | 0 <= i <= |s| ensures DelayAt(s, i).None? {
      if i < |s| {
        assert s[i] in s;
      }
    }
  }

  lemma LateExample()
    ensures ExtractDelay(Some("A105 08:00 - Belfast to Dublin (5 mins late)")) == 5
  {
    assert Annotation(5) == "(5 mins late)";
    assert "A105 08:00 - Belfast to Dublin (5 mins late)" == "A105 08:00 - Belfast to Dublin " + Annotation(5) + "";
    NoBracketNoEarlierDelay("A105 08:00 - Belfast to Dublin ", Annotation(5) + "");
    ExtractDelayOfAnnotation("A105 08:00 - Belfast to Dublin ", 5, "");
  }

  lemma EarlyExample()
    ensures ExtractDelay(Some("(-3 mins late)")) == -3
  {
    assert Annotation(-3) == "(-3 mins late)";
    assert "(-3 mins late)" == "" + Annotation(-3) + "";
    ExtractDelayOfAnnotation("", -3, "");
  }

  /** A "(" that no sign or digit follows opens no annotation. */
  lemma BracketWithoutNumber(s: string, i: nat)
    requires i + 1 < |s| && s[i] == '(' && s[i + 1] != '-' && s[i + 1] != '+' && !IsDigit(s[i + 1])
    ensures DelayAt(s, i).None?
  {
    assert Run(s, i + 1, IsDigit) == [];
  }

  /** Text whose only "(" is its first character, with no number after it, holds no annotation. */
  lemma LeadingBracketNoEarlierDelay(pre: string, rest: string)
    requires |pre| >= 2 && pre[0] == '(' && pre[1] != '-' && pre[1] != '+' && !IsDigit(pre[1])
    requires '(' !in pre[1..]
    ensures forall j :: 0 <= j < |pre| ==> DelayAt(pre + rest, j).None?
  {
    var s := pre + rest;
    forall j | 0 <= j < |pre| ensures DelayAt(s, j).None? {
      assert s[j] == pre[j];
      if j == 0 {
        assert s[1] == pre[1];
        BracketWithoutNumber(s, 0);
      } else {
        assert pre[j] == pre[1..][j - 1];
      }
    }
  }

  lemma PlatformLetters(pre: string)
    requires pre == "(Platform 2) "
    ensures |pre| >= 2 && pre[0] == '(' && pre[1] == 'P' && '(' !in pre[1..]
  {
    assert pre[1..] == "Platform 2) ";
  }

  /** An earlier bracket that is no annotation does not hide the delay. */
  lemma PlatformExample()
    ensures ExtractDelay(Some("(Platform 2) (5 mins late)")) == 5
  {
    var pre := "(Platform 2) ";
    PlatformLetters(pre);
    LeadingBracketNoEarlierDelay(pre, Annotation(5) + "");
    assert "(Platform 2) (5 mins late)" == pre + Annotation(5) + "";
    ExtractDelayOfAnnotation(pre, 5, "");
  }

  lemma NoDelayExample()
    ensures ExtractDelay(Some("No delay info")) == 0
  {
    NoParenthesisNoDelay("No delay info");
  }

  // ---------------------------------------------------------------------
  // Current location: "Departed ([^n]+) next stop", then
  // "Arrived ([^n]+?)(?:\s+next stop|$)"
  // ---------------------------------------------------------------------

  /** The class `[^n]` of the capture groups: only a lower-case n is excluded. */
  predicate NotN(c: char) {
    c != 'n'
  }

  /** The capture of the Departed pattern is `k` characters long at position `i`. */
  ghost predicate DepartedMatch(s: string, i: nat, k: nat) {
    && i + 9 + k + 10 <= |s|
    && s[i..i + 9] == "Departed "
    && k >= 1
    && (forall q :: i + 9 <= q < i + 9 + k ==> s[q] != 'n')
    && s[i + 9 + k..i + 9 + k + 10] == " next stop"
  }

  /**
   * The Departed pattern tried at position `i`. The capture cannot cross an
   * 'n', and " next stop" begins with a space and an 'n', so the capture is
   * the run of non-'n' characters less its final space.
   */
  function DepartedAt(s: string, i: nat): (r: Option<string>)
    ensures r.Some? ==> 'n' !in r.value
  {
    if i <= |s| && StartsWith(s[i..], "Departed ") then
      var run := Run(s, i + 9, NotN);
      if |run| >= 2 && run[|run| - 1] == ' ' && StartsWith(s[i + 9 + |run|..], "next stop") then
        assert forall q :: 0 <= q < |run| - 1 ==> NotN(run[q]);
        Some(run[..|run| - 1])
      else None
    else None
  }

  /** " next stop" at position `a` is a space and then the words. */
  lemma NextStopAt(s: string, a: nat)
    requires a + 10 <= |s|
    ensures s[a..a + 10] == " next stop" <==> s[a] == ' ' && StartsWith(s[a + 1..], "next stop")
  {
    assert " next stop" == [' '] + "next stop";
    assert s[a..a + 10] == [s[a]] + s[a + 1..a + 10];
    StartsWithAt(s, a + 1, "next stop");
  }

  /** DepartedAt finds exactly the matches of the pattern. */
  lemma {:induction false} DepartedAtIsMatch(s: string, i: nat)
    ensures DepartedAt(s, i).Some? ==>
      (DepartedMatch(s, i, |DepartedAt(s, i).value|)
       && DepartedAt(s, i).value == s[i + 9..i + 9 + |DepartedAt(s, i).value|])
    ensures forall k: nat :: DepartedMatch(s, i, k) ==> DepartedAt(s, i) == Some(s[i + 9..i + 9 + k])
  {
    forall k: nat | DepartedMatch(s, i, k) ensures DepartedAt(s, i) == Some(s[i + 9..i + 9 + k]) {
      DepartedMatchIs(s, i, k);
    }
    if DepartedAt(s, i).Some? {
      DepartedAtIsMatchSome(s, i);
    }
  }

  lemma DepartedAtIsMatchSome(s: string, i: nat)
    requires DepartedAt(s, i).Some?
    ensures DepartedMatch(s, i, |DepartedAt(s, i).value|)
    ensures DepartedAt(s, i).value == s[i + 9..i + 9 + |DepartedAt(s, i).value|]
  {
    var j := i + 9;
    var run := Run(s, j, NotN);
    var k := |run| - 1;
    StartsWithAt(s, i, "Departed ");
    StartsWithAt(s, j + k + 1, "next stop");
    NextStopAt(s, j + k);
    PrefixOfSlice(s, j, j + |run|, k);
    assert DepartedAt(s, i).value == run[..k];
  }

  lemma DepartedMatchIs(s: string, i: nat, k: nat)
    requires DepartedMatch(s, i, k)
    ensures DepartedAt(s, i) == Some(s[i + 9..i + 9 + k])
  {
    var j := i + 9;
    StartsWithAt(s, i, "Departed ");
    NextStopAt(s, j + k);
    StartsWithAt(s, j + k + 1, "next stop");
    assert s[j + k + 1] == s[j + k + 1..j + k + 10][0];
    SpanIs(s, j, NotN, k + 1);
    var run := Run(s, j, NotN);
    PrefixOfSlice(s, j, j + k + 1, k);
    assert run[k] == s[j + k];
  }

  /**
   * `\s*next stop` at position `j`. Since 'n' is not whitespace, how many
   * whitespace characters are consumed before "next stop" is determined.
   */
  predicate SpacedNextStop(s: string, j: nat)
    requires j <= |s|
    decreases |s| - j
  {
    StartsWith(s[j..], "next stop") || (j < |s| && IsSpace(s[j]) && SpacedNextStop(s, j + 1))
  }

  /** `(?:\s+next stop|$)` at position `q`, with `$` also before a final newline. */
  predicate ArrivedTail(s: string, q: nat)
    requires q <= |s|
  {
    || (q < |s| && IsSpace(s[q]) && SpacedNextStop(s, q + 1))
    || q == |s|
    || (q + 1 == |s| && s[q] == '\n')
  }

  /** `m` whitespace characters at position `j`, then "next stop". */
  ghost predicate SpacesBefore(s: string, j: nat, m: nat) {
    j + m <= |s| && (forall x :: j <= x < j + m ==> IsSpace(s[x]))
      && StartsWith(s[j + m..], "next stop")
  }

  /** SpacedNextStop is the regex `\s*next stop`: some number of spaces, then the words. */
  lemma {:induction false} SpacedNextStopIs(s: string, j: nat)
    requires j <= |s|
    ensures SpacedNextStop(s, j) <==> exists m: nat :: SpacesBefore(s, j, m)
    decreases |s| - j
  {
    if StartsWith(s[j..], "next stop") {
      assert SpacesBefore(s, j, 0);
    } else if j < |s| && IsSpace(s[j]) {
      SpacedNextStopIs(s, j + 1);
      if SpacedNextStop(s, j + 1) {
        var m: nat :| SpacesBefore(s, j + 1, m);
        assert SpacesBefore(s, j, m + 1);
      }
      forall m: nat | SpacesBefore(s, j, m) ensures SpacesBefore(s, j + 1, m - 1) {
        assert m != 0;
      }
    } else {
      forall m: nat ensures !SpacesBefore(s, j, m) {
        if 0 < m && j + m <= |s| {
          assert (forall x :: j <= x < j + m ==> IsSpace(s[x])) ==> IsSpace(s[j]);
        }
      }
    }
  }

  /** ArrivedTail is the regex's alternative: one or more spaces then "next stop", or the end. */
  lemma ArrivedTailIsRegex(s: string, q: nat)
    requires q <= |s|
    ensures ArrivedTail(s, q) <==>
      (exists m: nat :: 1 <= m && SpacesBefore(s, q, m)) || q == |s| || (q + 1 == |s| && s[q] == '\n')
  {
    if q < |s| {
      SpacedNextStopIs(s, q + 1);
      if IsSpace(s[q]) && SpacedNextStop(s, q + 1) {
        var m: nat :| SpacesBefore(s, q + 1, m);
        assert SpacesBefore(s, q, m + 1);
      }
      forall m: nat | 1 <= m && SpacesBefore(s, q, m) ensures IsSpace(s[q]) && SpacedNextStop(s, q + 1) {
        assert SpacesBefore(s, q + 1, m - 1);
      }
    }
  }

  /** The capture of the Arrived pattern may be `k` characters long at position `i`. */
  ghost predicate ArrivedMatch(s: string, i: nat, k: nat) {
    && i + 8 + k <= |s|
    && s[i..i + 8] == "Arrived "
    && k >= 1
    && (forall q :: i + 8 <= q < i + 8 + k ==> s[q] != 'n')
    && ArrivedTail(s, i + 8 + k)
  }

  /** The first `k` characters of the non-'n' run at `j`, when the tail follows them. */
  function ArrivedCapture(s: string, j: nat, run: string, k: nat): (r: Option<string>)
    requires j + |run| <= |s|
    ensures r.Some? ==> k <= |run| && r.value == run[..k]
  {
    if k <= |run| && ArrivedTail(s, j + k) then Some(run[..k]) else None
  }

  /** The captures of every length `k` that the lazy `+?` tries, shortest first. */
  function CapturesOf(s: string, j: nat, run: string): nat -> Option<string>
    requires j + |run| <= |s|
  {
    (k: nat) => ArrivedCapture(s, j, run, k)
  }

  /**
   * The Arrived pattern tried at position `i`: the lazy capture is the
   * shortest non-empty run of non-'n' characters that the tail follows.
   */
  function ArrivedAt(s: string, i: nat): (r: Option<string>)
    ensures r.Some? ==> 'n' !in r.value
  {
    if i <= |s| && StartsWith(s[i..], "Arrived ") then
      var run := Run(s, i + 8, NotN);
      FirstMatch(CapturesOf(s, i + 8, run), 1, |run|)
    else None
  }

  /** A match of length `k` is a capture the scan tries. */
  lemma {:induction false} ArrivedMatchIsCapture(s: string, i: nat, k: nat)
    ensures ArrivedMatch(s, i, k) ==>
      && StartsWith(s[i..], "Arrived ")
      && 1 <= k <= |Run(s, i + 8, NotN)|
      && ArrivedCapture(s, i + 8, Run(s, i + 8, NotN), k) == Some(s[i + 8..i + 8 + k])
  {
    if ArrivedMatch(s, i, k) {
      var j := i + 8;
      assert s[i..][..8] == s[i..i + 8];
      assert forall q :: j <= q < j + k ==> NotN(s[q]);
      var run := Run(s, j, NotN);
      SpanCovers(s, j, NotN, k);
      assert run[..k] == s[j..j + k];
    }
  }

  /** A capture the scan finds is a match of its length. */
  lemma ArrivedCaptureIsMatch(s: string, i: nat, k: nat)
    requires i + 8 <= |s|
    ensures StartsWith(s[i..], "Arrived ") && 1 <= k && ArrivedCapture(s, i + 8, Run(s, i + 8, NotN), k).Some? ==>
      ArrivedMatch(s, i, k) && ArrivedCapture(s, i + 8, Run(s, i + 8, NotN), k) == Some(s[i + 8..i + 8 + k])
  {
    var j := i + 8;
    var run := Run(s, j, NotN);
    if StartsWith(s[i..], "Arrived ") && 1 <= k && ArrivedCapture(s, j, run, k).Some? {
      assert s[i..][..8] == s[i..i + 8];
      assert run[..k] == s[j..j + k];
      assert forall q :: j <= q < j + k ==> s[q] == run[q - j];
    }
  }

  /** What ArrivedAt finds is a match, and the capture is its text. */
  lemma {:induction false} ArrivedAtIsMatch(s: string, i: nat)
    ensures ArrivedAt(s, i).Some? ==>
      (ArrivedMatch(s, i, |ArrivedAt(s, i).value|)
       && ArrivedAt(s, i).value == s[i + 8..i + 8 + |ArrivedAt(s, i).value|])
  {
    if ArrivedAt(s, i).Some? {
      var run := Run(s, i + 8, NotN);
      var at := CapturesOf(s, i + 8, run);
      var k0 :| 1 <= k0 <= |run| && at(k0) == ArrivedAt(s, i);
      ArrivedCaptureIsMatch(s, i, k0);
    }
  }

  /** Every match is found, and the capture found is no longer than it (the lazy `+?`). */
  lemma ArrivedAtIsShortest(s: string, i: nat, k: nat)
    requires ArrivedMatch(s, i, k)
    ensures ArrivedAt(s, i).Some? && |ArrivedAt(s, i).value| <= k
  {
    ArrivedMatchIsCapture(s, i, k);
    var run := Run(s, i + 8, NotN);
    var at := CapturesOf(s, i + 8, run);
    assert at(k).Some?;
  }

  /**
   * `extract_current_location`: None for a missing or empty message; else
   * the stripped capture of the leftmost Departed match, else that of the
   * leftmost Arrived match, else None. A location never contains a
   * lower-case 'n' and is already stripped.
   */
  function ExtractLocation(message: Option<string>): (r: Option<string>)
    ensures message.None? || message == Some("") ==> r.None?
    ensures r.Some? ==> 'n' !in r.value && Strip(r.value) == r.value
  {
    if message.None? || message.value == "" then None
    else
      var departed := DepartedScan(message.value);
      var arrived := ArrivedScan(message.value);
      if departed.Some? then Some(Located(departed.value))
      else if arrived.Some? then Some(Located(arrived.value))
      else None
  }

  /** The Departed pattern at every position of `s`. */
  function DeparturesIn(s: string): nat -> Option<string> {
    (i: nat) => DepartedAt(s, i)
  }

  /** The Arrived pattern at every position of `s`. */
  function ArrivalsIn(s: string): nat -> Option<string> {
    (i: nat) => ArrivedAt(s, i)
  }

  /** `re.search` with the Departed pattern: the capture of the leftmost match. */
  function DepartedScan(s: string): (r: Option<string>)
    ensures r.Some? ==> 'n' !in r.value
  {
    FirstMatch(DeparturesIn(s), 0, |s|)
  }

  /** `re.search` with the Arrived pattern: the capture of the leftmost match. */
  function ArrivedScan(s: string): (r: Option<string>)
    ensures r.Some? ==> 'n' !in r.value
  {
    FirstMatch(ArrivalsIn(s), 0, |s|)
  }

  /** A capture as the location column holds it: stripped of whitespace. */
  function Located(x: string): (r: string)
    ensures 'n' !in x ==> 'n' !in r
    ensures Strip(r) == r
  {
    StripIdempotent(x);
    Strip(x)
  }

  /** A match of either pattern starts with its keyword. */
  lemma MatchStartsWithKeyword(s: string, i: nat)
    ensures DepartedAt(s, i).Some? ==> i + 9 <= |s| && s[i] == 'D' && s[i + 1] == 'e'
    ensures ArrivedAt(s, i).Some? ==> i + 8 <= |s| && s[i] == 'A'
  {
    if DepartedAt(s, i).Some? {
      assert s[i..][..9] == "Departed ";
      assert s[i] == s[i..][..9][0];
      assert s[i + 1] == s[i..][..9][1];
    }
    if ArrivedAt(s, i).Some? {
      assert s[i..][..8] == "Arrived ";
      assert s[i] == s[i..][..8][0];
    }
  }

  /** A string built from three parts gives each of them back as a slice. */
  lemma Parts(a: string, b: string, c: string)
    ensures (a + b + c)[..|a|] == a
    ensures (a + b + c)[|a|..|a| + |b|] == b
    ensures (a + b + c)[|a| + |b|..] == c
  {
  }

  /** "Departed X next stop…" with no 'n' in X: the pattern captures X at the start. */
  lemma DepartedAtFront(x: string, rest: string)
    requires |x| >= 1 && 'n' !in x
    ensures DepartedAt("Departed " + x + (" next stop" + rest), 0) == Some(x)
  {
    var s := "Departed " + x + (" next stop" + rest);
    var k := |x|;
    Parts("Departed ", x, " next stop" + rest);
    assert s[9 + k..][..10] == " next stop";
    assert s[9 + k..9 + k + 10] == s[9 + k..][..10];
    forall q | 9 <= q < 9 + k ensures s[q] != 'n' {
      assert s[q] == x[q - 9];
    }
    DepartedMatchIs(s, 0, k);
  }

  lemma DepartedCorkAtStart(s: string)
    requires s == "Departed Cork next stop Mallow"
    ensures DepartedAt(s, 0) == Some("Cork")
  {
    assert s == "Departed " + "Cork" + (" next stop" + " Mallow");
    DepartedAtFront("Cork", " Mallow");
  }

  /** The leftmost Departed match decides the location. */
  lemma LocationIsDeparted(s: string, i: nat, x: string)
    requires i <= |s| && DepartedAt(s, i) == Some(x)
    requires forall j :: 0 <= j < i ==> DepartedAt(s, j).None?
    ensures ExtractLocation(Some(s)) == Some(Located(x))
  {
    FirstMatchIs(DeparturesIn(s), 0, |s|, i);
    assert DepartedScan(s) == Some(x);
  }

  /** With no Departed match anywhere, the leftmost Arrived match decides it. */
  lemma LocationIsArrived(s: string, i: nat, x: string)
    requires forall j :: 0 <= j <= |s| ==> DepartedAt(s, j).None?
    requires i <= |s| && ArrivedAt(s, i) == Some(x)
    requires forall j :: 0 <= j < i ==> ArrivedAt(s, j).None?
    ensures ExtractLocation(Some(s)) == Some(Located(x))
  {
    NoDepartedScan(s);
    FirstMatchIs(ArrivalsIn(s), 0, |s|, i);
    assert ArrivedScan(s) == Some(x);
  }

  lemma NoDepartedScan(s: string)
    requires forall j :: 0 <= j <= |s| ==> DepartedAt(s, j).None?
    ensures DepartedScan(s).None?
  {
    var at := DeparturesIn(s);
    assert forall j :: 0 <= j <= |s| ==> at(j).None?;
  }

  lemma NoArrivedScan(s: string)
    requires forall j :: 0 <= j <= |s| ==> ArrivedAt(s, j).None?
    ensures ArrivedScan(s).None?
  {
    var at := ArrivalsIn(s);
    assert forall j :: 0 <= j <= |s| ==> at(j).None?;
  }

  /** With neither pattern matching anywhere, there is no location. */
  lemma LocationIsNone(s: string)
    requires forall j :: 0 <= j <= |s| ==> DepartedAt(s, j).None?
    requires forall j :: 0 <= j <= |s| ==> ArrivedAt(s, j).None?
    ensures ExtractLocation(Some(s)).None?
  {
    NoDepartedScan(s);
    NoArrivedScan(s);
  }

  lemma LocatedCork()
    ensures Located("Cork") == "Cork"
  {
    StripUnchanged("Cork");
  }

  /** Located at a departure: the station before "next stop". */
  lemma DepartedCorkExample(s: string)
    requires s == "Departed Cork next stop Mallow"
    ensures ExtractLocation(Some(s)) == Some("Cork")
  {
    DepartedCorkAtStart(s);
    LocationIsDeparted(s, 0, "Cork");
    LocatedCork();
  }

  /**
   * "Arrived X" with no 'n' and no whitespace in X: the lazy capture cannot
   * stop early, because only the end of the message can follow it.
   */
  lemma ArrivedAtEnd(x: string)
    requires |x| >= 1 && 'n' !in x
    requires forall q :: 0 <= q < |x| ==> !IsSpace(x[q])
    ensures ArrivedAt("Arrived " + x, 0) == Some(x)
  {
    var s := "Arrived " + x;
    assert s[..8] == "Arrived " && s[8..] == x;
    forall q | 8 <= q < 8 + |x| ensures s[q] != 'n' {
      assert s[q] == x[q - 8];
    }
    assert ArrivedMatch(s, 0, |x|);
    ArrivedAtIsShortest(s, 0, |x|);
    ArrivedAtIsMatch(s, 0);
    forall q | 9 <= q < |s| ensures !ArrivedTail(s, q) {
      assert s[q] == x[q - 8];
    }
    assert s[8..8 + |x|] == x;
  }

  lemma ArrivedCorkAtStart(s: string)
    requires s == "Arrived Cork"
    ensures ArrivedAt(s, 0) == Some("Cork")
  {
    assert s == "Arrived " + "Cork";
    assert forall q :: 0 <= q < 4 ==> !IsSpace("Cork"[q]);
    ArrivedAtEnd("Cork");
  }

  /** Located on arrival at the end of the message: the lazy capture runs to the end. */
  lemma ArrivedCorkExample(s: string)
    requires s == "Arrived Cork"
    ensures ExtractLocation(Some(s)) == Some("Cork")
  {
    forall j | 0 <= j <= |s| ensures DepartedAt(s, j).None? {
      MatchStartsWithKeyword(s, j);
      if j < |s| {
        assert s[j] in s;
      }
    }
    ArrivedCorkAtStart(s);
    LocationIsArrived(s, 0, "Cork");
    LocatedCork();
  }

  /**
   * An Arrived match is impossible when the character `k0` places after the
   * keyword is an 'n' and no shorter capture is followed by the tail.
   */
  lemma ArrivedBlockedByN(s: string, i: nat, k0: nat)
    requires i + 8 + k0 < |s| && s[i + 8 + k0] == 'n'
    requires forall q :: i + 9 <= q < i + 8 + k0 ==> !IsSpace(s[q])
    ensures ArrivedAt(s, i).None?
  {
    forall k: nat ensures !ArrivedMatch(s, i, k) {
      if k > k0 {
        assert s[i + 8 + k0] == 'n';
      }
    }
    ArrivedAtIsMatch(s, i);
  }

  /**
   * A Departed match needs a "D" followed by an "e"; when every other "D"
   * is followed by something else, a match can only start at `i`.
   */
  lemma DeparturesAtMost(s: string, i: nat)
    requires DepartedAt(s, i).None?
    requires forall q :: 0 <= q < |s| - 1 && q != i && s[q] == 'D' ==> s[q + 1] != 'e'
    ensures forall j :: 0 <= j <= |s| ==> DepartedAt(s, j).None?
  {
    forall j | 0 <= j <= |s| ensures DepartedAt(s, j).None? {
      MatchStartsWithKeyword(s, j);
    }
  }

  /** An Arrived match needs an "A"; when the only one is at `i`, a match can only start there. */
  lemma ArrivalsAtMost(s: string, i: nat)
    requires ArrivedAt(s, i).None?
    requires forall q :: 0 <= q < |s| && q != i ==> s[q] != 'A'
    ensures forall j :: 0 <= j <= |s| ==> ArrivedAt(s, j).None?
  {
    forall j | 0 <= j <= |s| ensures ArrivedAt(s, j).None? {
      MatchStartsWithKeyword(s, j);
    }
  }

  /**
   * "Arrived " followed by a place `[c] + w` whose third letter is an 'n':
   * the lazy capture cannot reach past it, no "D" of the message is followed
   * by an "e", and the only "A" is the first letter, so no location is found.
   */
  lemma ArrivedNoLocation(c: char, w: string)
    requires |w| > 1 && w[1] == 'n' && !IsSpace(w[0]) && w[0] != 'e'
    requires c != 'A' && 'A' !in w && 'D' !in w
    ensures ExtractLocation(Some("Arrived " + ([c] + w))).None?
  {
    var s := "Arrived " + ([c] + w);
    forall q | 0 <= q < |s| && q != 0 ensures s[q] != 'A' && (s[q] == 'D' ==> q == 8) {
      if q > 8 {
        assert s[q] == w[q - 9];
      }
    }
    assert s[0] == 'A' && s[9] == w[0] && s[10] == 'n';
    MatchStartsWithKeyword(s, 0);
    DeparturesAtMost(s, 0);
    ArrivedBlockedByN(s, 0, 2);
    ArrivalsAtMost(s, 0);
    LocationIsNone(s);
  }

  /**
   * "Departed " followed by a place `[c] + w` whose third letter is an 'n':
   * the run of non-'n' letters is its first two letters, which do not end in
   * a space, and its "D" is not followed by "e", so no location is found.
   */
  lemma DepartedNoLocation(c: char, w: string)
    requires |w| > 1 && w[1] == 'n' && c != 'n' && w[0] != 'n' && w[0] != ' ' && w[0] != 'e'
    requires c != 'A' && 'A' !in w && 'D' !in w
    ensures ExtractLocation(Some("Departed " + ([c] + w))).None?
  {
    var s := "Departed " + ([c] + w);
    forall q | 0 <= q < |s| ensures s[q] != 'A' && (s[q] == 'D' ==> q == 0 || q == 9) {
      if q > 9 {
        assert s[q] == w[q - 10];
      }
    }
    assert s[9] == c && s[10] == w[0] && s[11] == 'n';
    SpanIs(s, 9, NotN, 2);
    assert DepartedAt(s, 0).None?;
    DeparturesAtMost(s, 0);
    MatchStartsWithKeyword(s, 0);
    ArrivalsAtMost(s, 0);
    LocationIsNone(s);
  }

  /** What the two patterns look at in the rest of the Dundalk message. */
  lemma UndalkLetters(w: string)
    requires w == "undalk next stop Newry"
    ensures |w| > 1 && w[0] == 'u' && w[1] == 'n' && 'A' !in w && 'D' !in w
  {
  }

  /**
   * The docstring's own example: the 'n' of "Dundalk" ends the capture, so
   * neither pattern matches and no location is found.
   */
  lemma ArrivedDundalkHasNoLocation(s: string)
    requires s == "Arrived Dundalk next stop Newry"
    ensures ExtractLocation(Some(s)).None?
  {
    var w := "undalk next stop Newry";
    assert s == "Arrived " + (['D'] + w);
    UndalkLetters(w);
    ArrivedNoLocation('D', w);
  }

  /** "Connolly" holds an 'n' too, so the arrival at Connolly gives no location. */
  lemma ArrivedConnollyHasNoLocation(s: string)
    requires s == "Arrived Connolly"
    ensures ExtractLocation(Some(s)).None?
  {
    var w := "onnolly";
    assert s == "Arrived " + (['C'] + w);
    ArrivedNoLocation('C', w);
  }

  /** The same 'n' ends the Departed capture too: "Du" is not followed by " next stop". */
  lemma DepartedDundalkHasNoLocation(s: string)
    requires s == "Departed Dundalk next stop Newry"
    ensures ExtractLocation(Some(s)).None?
  {
    var w := "undalk next stop Newry";
    assert s == "Departed " + (['D'] + w);
    UndalkLetters(w);
    DepartedNoLocation('D', w);
  }

  // ---------------------------------------------------------------------
  // Train category
  // ---------------------------------------------------------------------

  /**
   * `get_train_category`: "N/A" for a missing or empty code, otherwise the
   * first character of the code.
   */
  function TrainCategory(code: Option<string>): (r: string)
    ensures r == "N/A" <==> code.None? || code == Some("")
    ensures r != "N/A" ==> code.Some? && |r| == 1 && r[0] == code.value[0]
  {
    if code.None? || code.value == "" then "N/A" else [code.value[0]]
  }

  // ---------------------------------------------------------------------
  // Route classification
  // ---------------------------------------------------------------------

  datatype RouteClass = IntercityRoute | DublinCommuter | RegionalRoute | UnknownRoute {
    /** The label written to the route_classification column. */
    function Name(): string {
      match this
      case IntercityRoute => "Intercity"
      case DublinCommuter => "Dublin_Commuter"
      case RegionalRoute => "Regional"
      case UnknownRoute => "Unknown"
    }
  }

  const DublinAreaKeywords: seq<string> := ["DUBLIN", "CONNOLLY", "HEUSTON", "PEARSE"]
  const RouteCities: seq<string> := ["CORK", "GALWAY", "LIMERICK", "WATERFORD", "BELFAST", "SLIGO"]

  /**
   * `classify_route`: Unknown when an end is missing; Regional when neither
   * upper-cased end names the Dublin area; Intercity when one does and
   * either end names a major city; Dublin_Commuter otherwise.
   */
  function ClassifyRoute(origin: Option<string>, destination: Option<string>): (r: RouteClass)
    ensures r == UnknownRoute <==> origin.None? || destination.None?
    ensures origin.Some? && destination.Some? ==>
      var o, d := Upper(origin.value), Upper(destination.value);
      && (r == RegionalRoute <==> !AnyIn(DublinAreaKeywords, o) && !AnyIn(DublinAreaKeywords, d))
      && (r == IntercityRoute ==> AnyIn(RouteCities, o) || AnyIn(RouteCities, d))
      && (r == DublinCommuter ==> !AnyIn(RouteCities, o) && !AnyIn(RouteCities, d))
  {
    if origin.None? || destination.None? then UnknownRoute
    else
      var o := Upper(origin.value);
      var d := Upper(destination.value);
      if AnyIn(DublinAreaKeywords, o) || AnyIn(DublinAreaKeywords, d) then
        if exists city :: city in RouteCities && (Contains(o, city) || Contains(d, city)) then IntercityRoute
        else DublinCommuter
      else RegionalRoute
  }

  /** Swapping origin and destination never changes the classification. */
  lemma ClassifyRouteSymmetric(origin: Option<string>, destination: Option<string>)
    ensures ClassifyRoute(origin, destination) == ClassifyRoute(destination, origin)
  {
    if origin.Some? && destination.Some? {
      var o, d := Upper(origin.value), Upper(destination.value);
      assert (exists city :: city in RouteCities && (Contains(o, city) || Contains(d, city)))
        <==> (exists city :: city in RouteCities && (Contains(d, city) || Contains(o, city)));
    }
  }

  /** A keyword of a shorter list is a keyword of the longer one. */
  lemma AnyInSublist(a: seq<string>, b: seq<string>, s: string)
    requires forall k :: k in a ==> k in b
    ensures AnyIn(a, s) ==> AnyIn(b, s)
  {
  }

  /**
   * The two route rule sets agree where their lists overlap: a route the
   * route train-type rule calls Enterprise touches Dublin or Connolly, so it
   * is Dublin area, and it is Intercity when BELFAST itself is named (the
   * other Belfast keyword, CENTRAL, is no major city).
   */
  lemma EnterpriseRouteClass(origin: string, destination: string)
    requires TrainTypes.TypeFromRoute(Some(origin), Some(destination)) == TrainTypes.Enterprise
    ensures ClassifyRoute(Some(origin), Some(destination)) in {IntercityRoute, DublinCommuter}
    ensures Contains(Upper(origin), "BELFAST") || Contains(Upper(destination), "BELFAST") ==>
      ClassifyRoute(Some(origin), Some(destination)) == IntercityRoute
  {
    var o, d := Upper(origin), Upper(destination);
    AnyInSublist(TrainTypes.DublinKeywords, DublinAreaKeywords, o);
    AnyInSublist(TrainTypes.DublinKeywords, DublinAreaKeywords, d);
    assert "BELFAST" in RouteCities;
  }

  /**
   * A Regional classification means no Dublin-area name at either end, so
   * the route train-type rule cannot have found Enterprise, Intercity or
   * Commuter (all of which need Dublin, Connolly or Heuston).
   */
  lemma RegionalRouteType(origin: string, destination: string)
    requires ClassifyRoute(Some(origin), Some(destination)) == RegionalRoute
    ensures TrainTypes.TypeFromRoute(Some(origin), Some(destination)) in {TrainTypes.DART, TrainTypes.Regional}
  {
    var o, d := Upper(origin), Upper(destination);
    AnyInSublist(TrainTypes.DublinKeywords, DublinAreaKeywords, o);
    AnyInSublist(TrainTypes.DublinKeywords, DublinAreaKeywords, d);
    AnyInSublist(TrainTypes.DublinTerminals, DublinAreaKeywords, o);
    AnyInSublist(TrainTypes.DublinTerminals, DublinAreaKeywords, d);
  }

  /** A route the train-type rules call Commuter touches a Dublin terminal, so it is not Regional. */
  lemma CommuterRouteIsDublinArea(origin: string, destination: string)
    requires TrainTypes.TypeFromRoute(Some(origin), Some(destination)) == TrainTypes.Commuter
    ensures ClassifyRoute(Some(origin), Some(destination)) in {IntercityRoute, DublinCommuter}
  {
    var o, d := Upper(origin), Upper(destination);
    AnyInSublist(TrainTypes.DublinTerminals, DublinAreaKeywords, o);
    AnyInSublist(TrainTypes.DublinTerminals, DublinAreaKeywords, d);
  }

  /** No keyword occurs: each keyword has a character that `s` lacks. */
  lemma NoneOf(keys: seq<string>, s: string, missing: seq<char>)
    requires |missing| == |keys|
    requires forall i :: 0 <= i < |keys| ==> missing[i] in keys[i] && missing[i] !in s
    ensures !AnyIn(keys, s)
  {
    forall i | 0 <= i < |keys| ensures !Contains(s, keys[i]) {
      Lacks(s, keys[i], missing[i]);
    }
  }

  lemma ConnollyCorkIsIntercity()
    ensures ClassifyRoute(Some("Dublin Connolly"), Some("Cork")) == IntercityRoute
  {
    assert Upper("Dublin Connolly") == "DUBLIN CONNOLLY";
    assert Upper("Cork") == "CORK";
    ContainsAt("DUBLIN CONNOLLY", "DUBLIN", 0);
    ContainsAt("CORK", "CORK", 0);
  }

  lemma ConnollyMalahideNoCity()
    ensures !AnyIn(RouteCities, "DUBLIN CONNOLLY") && !AnyIn(RouteCities, "MALAHIDE")
  {
    NoneOf(RouteCities, "DUBLIN CONNOLLY", ['K', 'G', 'R', 'W', 'F', 'G']);
    NoneOf(RouteCities, "MALAHIDE", ['K', 'G', 'R', 'W', 'F', 'G']);
  }

  lemma ConnollyMalahideIsCommuter()
    ensures ClassifyRoute(Some("Dublin Connolly"), Some("Malahide")) == DublinCommuter
  {
    assert Upper("Dublin Connolly") == "DUBLIN CONNOLLY";
    assert Upper("Malahide") == "MALAHIDE";
    ContainsAt("DUBLIN CONNOLLY", "DUBLIN", 0);
    ConnollyMalahideNoCity();
  }

  lemma CorkTraleeIsRegional()
    ensures ClassifyRoute(Some("Cork"), Some("Tralee")) == RegionalRoute
  {
    assert Upper("Cork") == "CORK";
    assert Upper("Tralee") == "TRALEE";
    NoneOf(DublinAreaKeywords, "CORK", ['D', 'N', 'H', 'P']);
    NoneOf(DublinAreaKeywords, "TRALEE", ['D', 'N', 'H', 'P']);
  }

  lemma TraleeHeustonNoCity()
    ensures !AnyIn(RouteCities, "TRALEE") && !AnyIn(RouteCities, "HEUSTON")
  {
    NoneOf(RouteCities, "TRALEE", ['K', 'G', 'I', 'W', 'B', 'G']);
    NoneOf(RouteCities, "HEUSTON", ['K', 'G', 'R', 'W', 'B', 'G']);
  }

  lemma TraleeHeustonIsCommuter()
    ensures ClassifyRoute(Some("Tralee"), Some("Heuston")) == DublinCommuter
  {
    assert Upper("Tralee") == "TRALEE";
    assert Upper("Heuston") == "HEUSTON";
    ContainsAt("HEUSTON", "HEUSTON", 0);
    assert "HEUSTON" in DublinAreaKeywords;
    TraleeHeustonNoCity();
  }

  /**
   * Tralee to Heuston: the train-type rules call it Intercity (TRALEE is a
   * major city there) while the route classification calls it
   * Dublin_Commuter (TRALEE is not among its cities).
   */
  lemma TraleeHeustonDisagree()
    ensures TrainTypes.TypeFromRoute(Some("Tralee"), Some("Heuston")) == TrainTypes.Intercity
    ensures ClassifyRoute(Some("Tralee"), Some("Heuston")) == DublinCommuter
  {
    TrainTypes.TraleeHeustonIsIntercity();
    TraleeHeustonIsCommuter();
  }

  // ---------------------------------------------------------------------
  // add_extra_fields
  // ---------------------------------------------------------------------

  /** The columns add_extra_fields may write. */
  const ExtraFieldColumns: set<string> :=
    {"delay_minutes", "current_location", "train_category", "route_classification", "enhanced_at"}

  /** The current_location cell of a message cell. */
  function LocationCell(message: Cell): Cell {
    match ExtractLocation(CellText(message))
    case None => None
    case Some(x) => Some(Text(x))
  }

  /** One row after add_extra_fields; `now` is the timestamp taken once for the batch. */
  function ExtraRow(columns: set<string>, row: Row, now: Value): (r: Row)
    ensures row.Keys == columns ==> r.Keys == ExtraColumns(columns)
    ensures forall c :: c in row && c !in ExtraFieldColumns ==> c in r && r[c] == row[c]
  {
    var message := Get(row, "PublicMessage");
    WithExtras(columns, row,
      Some(Int(ExtractDelay(CellText(message)))),
      LocationCell(message),
      Some(Text(TrainCategory(CellText(Get(row, "TrainCode"))))),
      Some(Text(ClassifyRoute(CellText(Get(row, "TrainOrigin")), CellText(Get(row, "TrainDestination"))).Name())),
      now)
  }

  /** The derived cells written into a row, each only when its source columns exist. */
  function WithExtras(columns: set<string>, row: Row, delay: Cell, location: Cell, category: Cell, route: Cell, now: Value): (r: Row)
    ensures r.Keys == row.Keys + AddedColumns(columns)
    ensures forall c :: c in row && c !in ExtraFieldColumns ==> r[c] == row[c]
    ensures "PublicMessage" in columns ==> r["delay_minutes"] == delay && r["current_location"] == location
    ensures "TrainCode" in columns ==> r["train_category"] == category
    ensures "TrainOrigin" in columns && "TrainDestination" in columns ==> r["route_classification"] == route
    ensures r["enhanced_at"] == Some(now)
  {
    var withMessage := if "PublicMessage" in columns then row["delay_minutes" := delay]["current_location" := location] else row;
    var withCategory := if "TrainCode" in columns then withMessage["train_category" := category] else withMessage;
    var withRoute :=
      if "TrainOrigin" in columns && "TrainDestination" in columns then withCategory["route_classification" := route]
      else withCategory;
    withRoute["enhanced_at" := Some(now)]
  }

  /** The columns of the batch after add_extra_fields. */
  function ExtraColumns(columns: set<string>): set<string> {
    columns + AddedColumns(columns)
  }

  /** The columns add_extra_fields writes for a batch with these columns. */
  function AddedColumns(columns: set<string>): set<string> {
    (if "PublicMessage" in columns then {"delay_minutes", "current_location"} else {})
    + (if "TrainCode" in columns then {"train_category"} else {})
    + (if "TrainOrigin" in columns && "TrainDestination" in columns then {"route_classification"} else {})
    + {"enhanced_at"}
  }

  /**
   * `add_extra_fields`: an empty batch is returned as it is; otherwise
   * every row gets an enhanced_at stamp and the derived fields whose source
   * columns the batch has, and every other cell is kept.
   */
  function AddExtraFields(t: Table, now: Value): (r: Table)
    ensures Empty(t) ==> r == t
    ensures |r.rows| == |t.rows|
    ensures !Empty(t) ==> r.columns == ExtraColumns(t.columns) && "enhanced_at" in r.columns
    ensures WellFormed(t) ==> WellFormed(r)
    ensures forall i, c :: 0 <= i < |t.rows| && c in t.rows[i] && c !in ExtraFieldColumns ==>
      c in r.rows[i] && r.rows[i][c] == t.rows[i][c]
  {
    if Empty(t) then t
    else Table(ExtraColumns(t.columns), seq(|t.rows|, i requires 0 <= i < |t.rows| => ExtraRow(t.columns, t.rows[i], now)))
  }

  /**
   * What each derived cell of a non-empty batch holds: the delay (never
   * missing) and location of the message, the category of the code, the
   * classification of the route, and the batch timestamp.
   */
  lemma ExtraFieldsOfRow(t: Table, now: Value, i: nat)
    requires !Empty(t) && i < |t.rows|
    ensures var row, r := t.rows[i], AddExtraFields(t, now).rows[i];
      && r["enhanced_at"] == Some(now)
      && ("PublicMessage" in t.columns ==>
            r["delay_minutes"] == Some(Int(ExtractDelay(CellText(Get(row, "PublicMessage")))))
            && r["current_location"] == LocationCell(Get(row, "PublicMessage")))
      && ("TrainCode" in t.columns ==>
            r["train_category"] == Some(Text(TrainCategory(CellText(Get(row, "TrainCode"))))))
      && ("TrainOrigin" in t.columns && "TrainDestination" in t.columns ==>
            r["route_classification"] ==
              Some(Text(ClassifyRoute(CellText(Get(row, "TrainOrigin")), CellText(Get(row, "TrainDestination"))).Name())))
  {
  }

  /**
   * A message cell whose first delay annotation is the one for `n` minutes
   * gives delay_minutes `n`.
   */
  lemma ExtraFieldsDelay(t: Table, now: Value, i: nat, pre: string, n: int, post: string)
    requires !Empty(t) && i < |t.rows| && "PublicMessage" in t.columns
    requires Get(t.rows[i], "PublicMessage") == Some(Text(pre + Annotation(n) + post))
    requires forall j :: 0 <= j < |pre| ==> DelayAt(pre + Annotation(n) + post, j).None?
    ensures AddExtraFields(t, now).rows[i]["delay_minutes"] == Some(Int(n))
  {
    ExtraFieldsOfRow(t, now, i);
    ExtractDelayOfAnnotation(pre, n, post);
  }

  // ---------------------------------------------------------------------
  // The train-type cache
  // ---------------------------------------------------------------------

  /** A row the cache learns from: its TrainType is neither missing nor "". */
  predicate Learnable(row: Row) {
    Get(row, "TrainType").Some? && Get(row, "TrainType").value != Text("")
  }

  /** The cache after learning `rows` in order: a later row overwrites an earlier one. */
  function LearnRows(m: map<Cell, Value>, rows: seq<Row>): map<Cell, Value>
    decreases |rows|
  {
    if rows == [] then m
    else
      var before := LearnRows(m, rows[..|rows| - 1]);
      var last := rows[|rows| - 1];
      if Learnable(last) then before[Get(last, "TrainCode") := Get(last, "TrainType").value] else before
  }

  /** `update_train_type_cache`: a batch without rows, columns, TrainCode or TrainType teaches nothing. */
  function Learn(m: map<Cell, Value>, batch: Table): map<Cell, Value> {
    if Empty(batch) || "TrainCode" !in batch.columns || "TrainType" !in batch.columns then m
    else LearnRows(m, batch.rows)
  }

  /** The cache never forgets a code. */
  lemma {:induction false} LearnRowsKeeps(m: map<Cell, Value>, rows: seq<Row>)
    ensures m.Keys <= LearnRows(m, rows).Keys
    decreases |rows|
  {
    if rows != [] {
      LearnRowsKeeps(m, rows[..|rows| - 1]);
    }
  }

  /** The cache holds no "" type, so learning keeps it clean. */
  lemma {:induction false} LearnRowsClean(m: map<Cell, Value>, rows: seq<Row>)
    requires forall k :: k in m ==> m[k] != Text("")
    ensures forall k :: k in LearnRows(m, rows) ==> LearnRows(m, rows)[k] != Text("")
    decreases |rows|
  {
    if rows != [] {
      LearnRowsClean(m, rows[..|rows| - 1]);
    }
  }

  /** The last learnable row with a code decides that code's cached type. */
  lemma {:induction false} LearnRowsLastWins(m: map<Cell, Value>, rows: seq<Row>, j: nat)
    requires j < |rows| && Learnable(rows[j])
    requires forall q :: j < q < |rows| && Learnable(rows[q]) ==> Get(rows[q], "TrainCode") != Get(rows[j], "TrainCode")
    ensures Get(rows[j], "TrainCode") in LearnRows(m, rows)
    ensures LearnRows(m, rows)[Get(rows[j], "TrainCode")] == Get(rows[j], "TrainType").value
    decreases |rows|
  {
    if j < |rows| - 1 {
      var init := rows[..|rows| - 1];
      assert forall q :: j < q < |init| ==> init[q] == rows[q];
      LearnRowsLastWins(m, init, j);
    }
  }

  /** A code no learnable row carries keeps what the cache had for it. */
  lemma {:induction false} LearnRowsUntouched(m: map<Cell, Value>, rows: seq<Row>, code: Cell)
    requires forall q :: 0 <= q < |rows| && Learnable(rows[q]) ==> Get(rows[q], "TrainCode") != code
    ensures code in LearnRows(m, rows) <==> code in m
    ensures code in m ==> LearnRows(m, rows)[code] == m[code]
    decreases |rows|
  {
    if rows != [] {
      LearnRowsUntouched(m, rows[..|rows| - 1], code);
    }
  }

  /**
   * DISCOVERED_TRAIN_TYPES: the process-wide map from train code to the
   * train type last seen for it in a batch that had one.
   */
  class TrainTypeCache {
    var types: map<Cell, Value>

    /** The cache never holds an empty type. */
    ghost predicate Valid()
      reads this
    {
      forall k :: k in types ==> types[k] != Text("")
    }

    constructor ()
      ensures Valid() && types == map[]
    {
      types := map[];
    }

    /** `update_train_type_cache`: learn every row with a type, in order. */
    method Update(batch: Table)
      requires Valid()
      modifies this
      ensures Valid()
      ensures types == Learn(old(types), batch)
    {
      if Empty(batch) || "TrainCode" !in batch.columns || "TrainType" !in batch.columns {
        return;
      }
      var i := 0;
      while i < |batch.rows|
        invariant 0 <= i <= |batch.rows|
        invariant types == LearnRows(old(types), batch.rows[..i])
        invariant Valid()
      {
        var row := batch.rows[i];
        assert batch.rows[..i + 1][..i] == batch.rows[..i];
        if Learnable(row) {
          types := types[Get(row, "TrainCode") := Get(row, "TrainType").value];
        }
        i := i + 1;
      }
      assert batch.rows[..i] == batch.rows;
    }

    /** `DISCOVERED_TRAIN_TYPES.get(code)`, as Series.map reads it. */
    function Lookup(code: Cell): (r: Cell)
      reads this
      ensures r.Some? <==> code in types
      ensures r.Some? ==> r.value == types[code]
    {
      if code in types then Some(types[code]) else None
    }

    /** One row of enrich_with_cached_train_types: a missing type is filled from the cache. */
    function EnrichRow(row: Row): Row
      reads this
    {
      var current := Get(row, "TrainType");
      row["TrainType" := if current.Some? then current else Lookup(Get(row, "TrainCode"))]
    }

    /**
     * `enrich_with_cached_train_types`: a batch without rows, columns or a
     * TrainCode column is returned as it is; otherwise a TrainType column is
     * created where absent, a present type is never overwritten (not even
     * ""), and a missing one takes the cached type of the row's code.
     */
    function Enrich(t: Table): (r: Table)
      reads this
      ensures Empty(t) || "TrainCode" !in t.columns ==> r == t
      ensures |r.rows| == |t.rows|
      ensures !Empty(t) && "TrainCode" in t.columns ==> r.columns == t.columns + {"TrainType"}
      ensures WellFormed(t) ==> WellFormed(r)
      ensures forall i :: 0 <= i < |t.rows| && Get(t.rows[i], "TrainType").Some? ==>
        Get(r.rows[i], "TrainType") == Get(t.rows[i], "TrainType")
      ensures !Empty(t) && "TrainCode" in t.columns ==>
        forall i :: 0 <= i < |t.rows| && Get(t.rows[i], "TrainType").None? ==>
          Get(r.rows[i], "TrainType") == Lookup(Get(t.rows[i], "TrainCode"))
      ensures forall i, c :: 0 <= i < |t.rows| && c in t.rows[i] && c != "TrainType" ==>
        c in r.rows[i] && r.rows[i][c] == t.rows[i][c]
    {
      if Empty(t) || "TrainCode" !in t.columns then t
      else Table(t.columns + {"TrainType"}, EnrichRows(t.rows))
    }

    function EnrichRows(rows: seq<Row>): (r: seq<Row>)
      reads this
      ensures |r| == |rows| && forall i :: 0 <= i < |rows| ==> r[i] == EnrichRow(rows[i])
    {
      if rows == [] then [] else [EnrichRow(rows[0])] + EnrichRows(rows[1..])
    }
  }

  /** Enriching twice fills nothing more than enriching once. */
  lemma EnrichIdempotent(c: TrainTypeCache, t: Table)
    ensures c.Enrich(c.Enrich(t)) == c.Enrich(t)
  {
    var once := c.Enrich(t);
    if !Empty(t) && "TrainCode" in t.columns {
      assert once.rows == c.EnrichRows(t.rows);
      assert !Empty(once);
      var twice := c.Enrich(once);
      assert twice.rows == c.EnrichRows(once.rows);
      forall i | 0 <= i < |t.rows| ensures twice.rows[i] == once.rows[i] {
        EnrichRowTwice(c, t.rows[i]);
      }
      assert twice.rows == once.rows;
    }
  }

  /** Filling one row's type a second time changes nothing. */
  lemma EnrichRowTwice(c: TrainTypeCache, row: Row)
    ensures c.EnrichRow(c.EnrichRow(row)) == c.EnrichRow(row)
  {
  }

  /**
   * After the cache learned a batch, a row of a later batch with no type
   * takes the type of the last row of the learned batch with the same code.
   */
  lemma EnrichUsesLearnedType(c: TrainTypeCache, before: map<Cell, Value>, batch: Table, j: nat, t: Table, i: nat)
    requires c.types == Learn(before, batch)
    requires !Empty(batch) && "TrainCode" in batch.columns && "TrainType" in batch.columns
    requires j < |batch.rows| && Learnable(batch.rows[j])
    requires forall q :: j < q < |batch.rows| && Learnable(batch.rows[q]) ==>
      Get(batch.rows[q], "TrainCode") != Get(batch.rows[j], "TrainCode")
    requires !Empty(t) && "TrainCode" in t.columns && i < |t.rows|
    requires Get(t.rows[i], "TrainType").None? && Get(t.rows[i], "TrainCode") == Get(batch.rows[j], "TrainCode")
    ensures Get(c.Enrich(t).rows[i], "TrainType") == Get(batch.rows[j], "TrainType")
  {
    LearnRowsLastWins(before, batch.rows, j);
  }
}
