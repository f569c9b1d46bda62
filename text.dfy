/**
  The JavaScript string operations the viewer relies on, over `string` (a
  `seq<char>`): `endsWith`, `includes`, `replace` with a string pattern,
  `split('.').pop()`, the regular-expression class `\d`, `match(/\d+/)`,
  `parseInt` of a digit run and the decimal rendering of a number in a
  template literal.
*/
module Text {
  import opened Options

  /** `\d` in a regular expression without the `u` flag: an ASCII digit. */
  predicate IsDigit(c: char) {
    '0' <= c <= '9'
  }

  predicate AllDigits(s: string) {
    forall i :: 0 <= i < |s| ==> IsDigit(s[i])
  }

  /** `s.endsWith(suffix)`: a case-sensitive suffix test. */
  predicate EndsWith(s: string, suffix: string) {
    |suffix| <= |s| && s[|s| - |suffix|..] == suffix
  }

  /** `pat` stands in `s` starting at position `i`. */
  ghost predicate OccursAt(s: string, pat: string, i: int) {
    0 <= i && i + |pat| <= |s| && s[i..i + |pat|] == pat
  }

  lemma OccursAtShift(s: string, pat: string)
    requires |s| > 0
    ensures forall j :: 1 <= j ==> (OccursAt(s, pat, j) <==> OccursAt(s[1..], pat, j - 1))
  {
    forall j | 1 <= j
      ensures OccursAt(s, pat, j) <==> OccursAt(s[1..], pat, j - 1)
    {
      if j + |pat| <= |s| {
        var a, b := s[j..j + |pat|], s[1..][j - 1..j - 1 + |pat|];
        assert |a| == |b|;
        assert forall k | 0 <= k < |a| :: a[k] == b[k];
      }
    }
  }

  /** `s.indexOf(pat)`: the first position where `pat` occurs, or `None` for -1. */
  function IndexOf(s: string, pat: string): (r: Option<nat>)
    ensures r.Some? ==> OccursAt(s, pat, r.value)
    ensures r.Some? ==> forall j :: 0 <= j < r.value ==> !OccursAt(s, pat, j)
    ensures r.None? ==> forall j :: !OccursAt(s, pat, j)
    decreases |s|
  {
    if |s| < |pat| then None
    else if pat <= s then Some(0)
    else
      assert !OccursAt(s, pat, 0) by {
        assert s[..|pat|] == s[0..0 + |pat|];
      }
      OccursAtShift(s, pat);
      match IndexOf(s[1..], pat)
      case None => None
      case Some(k) => Some(k + 1)
  }

  /** `s.includes(pat)`. */
  function Contains(s: string, pat: string): (r: bool)
    ensures r <==> exists i :: OccursAt(s, pat, i)
  {
    IndexOf(s, pat).Some?
  }

  /**
    `s.replace(pat, rep)` with a string pattern and a replacement without `$`
    (so no `$&`, `$$` or similar expansion): only the first occurrence of
    `pat` is replaced, wherever it stands; without one, `s` is returned as is.
  */
  function ReplaceFirst(s: string, pat: string, rep: string): (r: string)
    ensures (forall j :: !OccursAt(s, pat, j)) ==> r == s
    ensures forall i :: OccursAt(s, pat, i) && (forall j :: 0 <= j < i ==> !OccursAt(s, pat, j)) ==>
      r == s[..i] + rep + s[i + |pat|..]
  {
    match IndexOf(s, pat)
    case None => s
    case Some(i) => s[..i] + rep + s[i + |pat|..]
  }

  /**
    `s.split(sep).pop()`: the text after the last `sep`, or the whole of `s`
    when it holds no `sep`.
  */
  function LastSegment(s: string, sep: char): (r: string)
    ensures |r| <= |s| && r == s[|s| - |r|..]
    ensures sep !in r
    ensures |r| < |s| ==> s[|s| - |r| - 1] == sep
  {
    if s == [] then []
    else if s[|s| - 1] == sep then []
    else LastSegment(s[..|s| - 1], sep) + [s[|s| - 1]]
  }

  lemma {:induction false} LastSegmentWithout(s: string, sep: char)
    requires sep !in s
    ensures LastSegment(s, sep) == s
  {
    if s != [] {
      LastSegmentWithout(s[..|s| - 1], sep);
      assert s == s[..|s| - 1] + [s[|s| - 1]];
    }
  }

  /** What follows the last separator is the segment, whatever precedes it. */
  lemma {:induction false} LastSegmentAfter(a: string, sep: char, tail: string)
    requires sep !in tail
    ensures LastSegment(a + [sep] + tail, sep) == tail
  {
    var s := a + [sep] + tail;
    if tail != [] {
      assert s[..|s| - 1] == a + [sep] + tail[..|tail| - 1];
      LastSegmentAfter(a, sep, tail[..|tail| - 1]);
      assert tail == tail[..|tail| - 1] + [tail[|tail| - 1]];
    }
  }

  function DigitValue(c: char): (d: nat)
    requires IsDigit(c)
    ensures d < 10
  {
    (c as int) - ('0' as int)
  }

  function DigitChar(d: nat): (c: char)
    requires d < 10
    ensures IsDigit(c) && DigitValue(c) == d
  {
    (('0' as int) + d) as char
  }

  /** `parseInt` of a run of decimal digits (leading zeros are allowed). */
  function DigitsValue(s: string): nat
    requires AllDigits(s)
  {
    if s == [] then 0 else DigitsValue(s[..|s| - 1]) * 10 + DigitValue(s[|s| - 1])
  }

  /** `${n}` for a non-negative integer: its decimal digits, without leading zeros. */
  function NatToString(n: nat): (r: string)
    ensures |r| > 0 && AllDigits(r)
    ensures r[0] == '0' ==> r == "0"
  {
    if n < 10 then [DigitChar(n)] else NatToString(n / 10) + [DigitChar(n % 10)]
  }

  /** Reading back the digits a number was written as gives that number. */
  lemma {:induction false} NatToStringRoundTrip(n: nat)
    ensures DigitsValue(NatToString(n)) == n
  {
    var r := NatToString(n);
    if n < 10 {
      assert r[..|r| - 1] == [];
    } else {
      var h := NatToString(n / 10);
      assert r == h + [DigitChar(n % 10)];
      assert r[..|r| - 1] == h;
      NatToStringRoundTrip(n / 10);
    }
  }

  lemma NatToStringInjective(a: nat, b: nat)
    requires NatToString(a) == NatToString(b)
    ensures a == b
  {
    NatToStringRoundTrip(a);
    NatToStringRoundTrip(b);
  }

  /** A decimal numeral as `${n}` writes it: digits only, no leading zero unless it is "0". */
  predicate Canonical(d: string) {
    d != [] && AllDigits(d) && (d[0] == '0' ==> |d| == 1)
  }

  lemma {:induction false} DigitsValuePositive(s: string)
    requires s != [] && AllDigits(s) && s[0] != '0'
    ensures DigitsValue(s) >= 1
  {
    if |s| > 1 {
      var init := s[..|s| - 1];
      assert init[0] == s[0];
      DigitsValuePositive(init);
    }
  }

  /** Writing out the value of a canonical numeral gives the numeral back. */
  lemma {:induction false} CanonicalRoundTrip(d: string)
    requires Canonical(d)
    ensures NatToString(DigitsValue(d)) == d
  {
    var init, c := d[..|d| - 1], d[|d| - 1];
    if init == [] {
      assert d == [c];
    } else {
      assert init[0] == d[0];
      DigitsValuePositive(init);
      CanonicalRoundTrip(init);
      var n := DigitsValue(d);
      assert n == DigitsValue(init) * 10 + DigitValue(c);
      assert n / 10 == DigitsValue(init) && n % 10 == DigitValue(c);
      assert d == init + [c];
    }
  }

  /** The longest prefix of `s` made of digits. */
  function DigitPrefix(s: string): (r: string)
    ensures r <= s && AllDigits(r)
    ensures |r| < |s| ==> !IsDigit(s[|r|])
  {
    if s == [] || !IsDigit(s[0]) then [] else [s[0]] + DigitPrefix(s[1..])
  }

  /** A run of digits followed by a non-digit (or by the end) is the digit prefix. */
  lemma {:induction false} DigitPrefixOf(d: string, rest: string)
    requires AllDigits(d)
    requires rest != [] ==> !IsDigit(rest[0])
    ensures DigitPrefix(d + rest) == d
  {
    if d != [] {
      assert (d + rest)[1..] == d[1..] + rest;
      DigitPrefixOf(d[1..], rest);
    }
  }

  /** The position of the first digit of `s`, if any. */
  function FirstDigitIndex(s: string): (r: Option<nat>)
    ensures r.Some? ==> r.value < |s| && IsDigit(s[r.value])
    ensures r.Some? ==> forall j :: 0 <= j < r.value ==> !IsDigit(s[j])
    ensures r.None? ==> forall j :: 0 <= j < |s| ==> !IsDigit(s[j])
  {
    if s == [] then None
    else if IsDigit(s[0]) then Some(0)
    else match FirstDigitIndex(s[1..])
      case None => None
      case Some(k) => Some(k + 1)
  }

  /** `s.match(/\d+/)`: the first maximal run of digits, or `None` for `null`. */
  function FirstDigitRun(s: string): (r: Option<string>)
    ensures r.Some? ==> r.value != [] && AllDigits(r.value)
    ensures r.None? <==> forall j :: 0 <= j < |s| ==> !IsDigit(s[j])
  {
    match FirstDigitIndex(s)
    case None => None
    case Some(i) => Some(DigitPrefix(s[i..]))
  }

  /**
    The run `match(/\d+/)` finds stands in `s` after digit-free text and is
    not followed by a digit: it is the leftmost run, taken whole.
  */
  lemma FirstDigitRunLeftmost(s: string)
    ensures FirstDigitRun(s).Some? ==>
      (exists i :: OccursAt(s, FirstDigitRun(s).value, i) &&
                   (forall j :: 0 <= j < i ==> !IsDigit(s[j])) &&
                   (i + |FirstDigitRun(s).value| < |s| ==> !IsDigit(s[i + |FirstDigitRun(s).value|])))
  {
    if FirstDigitRun(s).Some? {
      var i := FirstDigitIndex(s).value;
      var run := DigitPrefix(s[i..]);
      assert OccursAt(s, run, i);
    }
  }
}
