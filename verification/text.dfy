/**
 * The string handling the pages rely on: decimal rendering and parsing of numbers,
 * `split`, `padStart`, `includes`, `trim`, the puzzle-page pattern `/puzzle(\d+)\.html/`
 * and lookups in the browser's string-valued storage.
 */
module Text {
  import opened Wrappers

  predicate IsDigit(c: char) { '0' <= c <= '9' }

  predicate AllDigits(s: string) {
    forall i :: 0 <= i < |s| ==> IsDigit(s[i])
  }

  function DigitValue(c: char): nat
    requires IsDigit(c)
  {
    c as int - '0' as int
  }

  function DigitChar(d: nat): (c: char)
    requires d < 10
    ensures IsDigit(c) && DigitValue(c) == d
  {
    ('0' as int + d) as char
  }

  /** Decimal rendering of a natural number, as `Number.prototype.toString()` does it. */
  function NatToString(n: nat): (s: string)
    ensures 1 <= |s| && AllDigits(s)
    ensures |s| == 1 <==> n < 10
    decreases n
  {
    if n < 10 then [DigitChar(n)] else NatToString(n / 10) + [DigitChar(n % 10)]
  }

  /** Decimal rendering of any integer, with a leading minus sign for negatives. */
  function IntToString(n: int): (s: string)
    ensures n >= 0 ==> s == NatToString(n)
    ensures n < 0 ==> s == "-" + NatToString(-n)
  {
    if n < 0 then "-" + NatToString(-n) else NatToString(n)
  }

  /** Value of a string of decimal digits; the empty string reads as 0, like `Number("")`. */
  function DigitsValue(s: string): nat
    requires AllDigits(s)
  {
    if |s| == 0 then 0 else 10 * DigitsValue(s[..|s| - 1]) + DigitValue(s[|s| - 1])
  }

  /** Reading back a rendered natural number gives the number. */
  lemma {:induction false} DigitsValueOfNatToString(n: nat)
    ensures DigitsValue(NatToString(n)) == n
    decreases n
  {
    var s := NatToString(n);
    if n >= 10 {
      assert s[..|s| - 1] == NatToString(n / 10);
      DigitsValueOfNatToString(n / 10);
    } else {
      assert s[..|s| - 1] == [];
    }
  }

  /**
   * `Number(s)` restricted to plain digit strings: `None` stands for `NaN`.
   * Signs, decimals, exponents and surrounding blanks are not accepted here.
   */
  function JsNumber(s: string): (r: Option<int>)
    ensures r.Some? <==> AllDigits(s)
    ensures r.Some? ==> r.value >= 0
  {
    if AllDigits(s) then Some(DigitsValue(s)) else None
  }

  /** `s.split(sep)` for a one-character separator. */
  function Split(s: string, sep: char): (parts: seq<string>)
    ensures |parts| >= 1
    ensures forall i :: 0 <= i < |parts| ==> sep !in parts[i]
  {
    if |s| == 0 then [""]
    else
      var rest := Split(s[1..], sep);
      if s[0] == sep then [""] + rest
      else [[s[0]] + rest[0]] + rest[1..]
  }

  lemma {:induction false} SplitSeparatorFree(a: string, t: string, sep: char)
    requires sep !in a
    ensures Split(a + t, sep) == [a + Split(t, sep)[0]] + Split(t, sep)[1..]
    decreases |a|
  {
    if |a| > 0 {
      assert (a + t)[1..] == a[1..] + t;
      assert (a + t)[0] == a[0];
      SplitSeparatorFree(a[1..], t, sep);
      assert [a[0]] + (a[1..] + Split(t, sep)[0]) == a + Split(t, sep)[0];
    } else {
      assert a + t == t;
      var p := Split(t, sep);
      assert a + p[0] == p[0];
      assert p == [p[0]] + p[1..];
    }
  }

  /** Splitting `a:b` at `:` gives back the two halves when neither contains `:`. */
  lemma SplitPair(a: string, b: string, sep: char)
    requires sep !in a && sep !in b
    ensures Split(a + [sep] + b, sep) == [a, b]
  {
    SplitSeparatorFree(b, "", sep);
    assert b + "" == b;
    assert Split(b, sep) == [b];
    var t := [sep] + b;
    assert t[1..] == b;
    assert Split(t, sep) == [""] + [b];
    assert a + [sep] + b == a + t;
    SplitSeparatorFree(a, t, sep);
    assert a + "" == a;
  }

  /** `s.padStart(2, '0')`. */
  function PadStart2(s: string): (r: string)
    ensures |s| >= 2 ==> r == s
    ensures |s| < 2 ==> |r| == 2 && r[2 - |s|..] == s && forall i :: 0 <= i < 2 - |s| ==> r[i] == '0'
  {
    if |s| >= 2 then s else if |s| == 1 then "0" + s else "00"
  }

  /** The pattern `pat` occurs in `s` at index `i`. */
  predicate StartsAt(s: string, pat: string, i: int) {
    0 <= i && i + |pat| <= |s| && s[i..i + |pat|] == pat
  }

  /** `s.includes(pat)`. */
  predicate Contains(s: string, pat: string) {
    exists i | 0 <= i <= |s| :: StartsAt(s, pat, i)
  }

  /** Lookup in a string-valued browser storage: `getItem` gives `null` for a missing key, modelled as "". */
  function Lookup(store: map<string, string>, key: string): (v: string)
    ensures key !in store ==> v == ""
    ensures key in store ==> v == store[key]
  {
    if key in store then store[key] else ""
  }

  // ---------------------------------------------------------------------------------------
  // The puzzle-page pattern /puzzle(\d+)\.html/
  // ---------------------------------------------------------------------------------------

  const PuzzlePrefix: string := "puzzle"
  const PuzzleSuffix: string := ".html"

  /** Length of the run of digits starting at `i`. */
  function DigitRun(s: string, i: nat): (k: nat)
    requires i <= |s|
    ensures i + k <= |s|
    ensures forall j :: i <= j < i + k ==> IsDigit(s[j])
    ensures i + k < |s| ==> !IsDigit(s[i + k])
    decreases |s| - i
  {
    if i < |s| && IsDigit(s[i]) then 1 + DigitRun(s, i + 1) else 0
  }

  /**
   * The pattern matches at `i`. Because `\d+` is greedy and a digit can never stand
   * where `.html` starts, the only candidate capture is the maximal run of digits.
   */
  predicate MatchesAt(s: string, i: int) {
    && StartsAt(s, PuzzlePrefix, i)
    && var k := DigitRun(s, i + |PuzzlePrefix|);
    && k >= 1
    && StartsAt(s, PuzzleSuffix, i + |PuzzlePrefix| + k)
  }

  /** The captured digits of a match at `i`. */
  function Capture(s: string, i: int): (d: string)
    requires MatchesAt(s, i)
    ensures |d| >= 1 && AllDigits(d)
    ensures StartsAt(s, PuzzlePrefix + d + PuzzleSuffix, i)
  {
    var start := i + |PuzzlePrefix|;
    var d := s[start..start + DigitRun(s, start)];
    assert s[i..i + |PuzzlePrefix + d + PuzzleSuffix|] == PuzzlePrefix + d + PuzzleSuffix by {
      assert s[i..start] == PuzzlePrefix;
      assert s[start + |d|..start + |d| + |PuzzleSuffix|] == PuzzleSuffix;
      assert s[i..i + |PuzzlePrefix + d + PuzzleSuffix|]
          == s[i..start] + s[start..start + |d|] + s[start + |d|..start + |d| + |PuzzleSuffix|];
    }
    d
  }

  function MatchFrom(s: string, i: nat): (r: Option<string>)
    requires i <= |s|
    ensures r.None? <==> forall j :: i <= j ==> !MatchesAt(s, j)
    ensures r.Some? ==> exists j :: i <= j && MatchesAt(s, j) && r.value == Capture(s, j)
                                    && forall j' :: i <= j' < j ==> !MatchesAt(s, j')
    decreases |s| - i
  {
    if MatchesAt(s, i) then Some(Capture(s, i))
    else if i == |s| then
      assert forall j :: i < j ==> !StartsAt(s, PuzzlePrefix, j);
      None
    else
      var r := MatchFrom(s, i + 1);
      assert r.Some? ==> exists j :: i <= j && MatchesAt(s, j) && r.value == Capture(s, j)
                                     && forall j' :: i <= j' < j ==> !MatchesAt(s, j');
      r
  }

  /**
   * `s.match(/puzzle(\d+)\.html/)?.[1]`: the digits of the leftmost match, or `None`
   * when the pattern does not occur.
   */
  function PuzzleNumberIn(s: string): (r: Option<string>)
    ensures r.None? <==> forall i :: 0 <= i ==> !MatchesAt(s, i)
    ensures r.Some? ==> |r.value| >= 1 && AllDigits(r.value)
    ensures r.Some? ==> exists i :: 0 <= i && MatchesAt(s, i) && r.value == Capture(s, i)
                                    && forall j :: 0 <= j < i ==> !MatchesAt(s, j)
  {
    MatchFrom(s, 0)
  }

  lemma {:induction false} DigitRunOfDigits(s: string, i: nat, d: string)
    requires i + |d| <= |s| && s[i..i + |d|] == d && AllDigits(d)
    requires i + |d| < |s| && !IsDigit(s[i + |d|])
    ensures DigitRun(s, i) == |d|
    decreases |d|
  {
    if |d| > 0 {
      assert s[i] == d[0];
      assert s[i + 1..i + 1 + |d[1..]|] == d[1..];
      DigitRunOfDigits(s, i + 1, d[1..]);
    }
  }

  /** Inside an occurrence of `w`, each stretch of `s` is the matching stretch of `w`. */
  lemma OccurrenceSlice(s: string, w: string, i: int, lo: int, hi: int)
    requires StartsAt(s, w, i) && 0 <= lo <= hi <= |w|
    ensures s[i + lo..i + hi] == w[lo..hi]
  {
    assert forall k | i + lo <= k < i + hi :: s[k] == s[i..i + |w|][k - i];
  }

  /** An occurrence of `p + d + q` is an occurrence of each part, one after the other. */
  lemma OccurrenceParts(s: string, p: string, d: string, q: string, i: int)
    requires StartsAt(s, p + d + q, i)
    ensures StartsAt(s, p, i) && StartsAt(s, d, i + |p|) && StartsAt(s, q, i + |p| + |d|)
  {
    var w := p + d + q;
    OccurrenceSlice(s, w, i, 0, |p|);
    assert w[..|p|] == p;
    OccurrenceSlice(s, w, i, |p|, |p| + |d|);
    assert w[|p|..|p| + |d|] == d;
    OccurrenceSlice(s, w, i, |p| + |d|, |w|);
    assert w[|p| + |d|..|w|] == q;
  }

  /**
   * Every occurrence of a text of the pattern's language, `puzzle` + digits + `.html`,
   * is a match at that index capturing exactly those digits.
   */
  lemma MatchesAtOccurrence(s: string, i: int, d: string)
    requires |d| >= 1 && AllDigits(d)
    requires StartsAt(s, PuzzlePrefix + d + PuzzleSuffix, i)
    ensures MatchesAt(s, i) && Capture(s, i) == d
  {
    OccurrenceParts(s, PuzzlePrefix, d, PuzzleSuffix, i);
    var start := i + |PuzzlePrefix|;
    assert s[start + |d|] == s[start + |d|..start + |d| + |PuzzleSuffix|][0] == '.';
    DigitRunOfDigits(s, start, d);
  }

  /** A match with none before it is the leftmost one, and its digits are the result. */
  lemma LeftmostMatch(s: string, i: nat)
    requires MatchesAt(s, i) && forall j :: 0 <= j < i ==> !MatchesAt(s, j)
    ensures PuzzleNumberIn(s) == Some(Capture(s, i))
  {
    var r := PuzzleNumberIn(s);
    var k :| 0 <= k && MatchesAt(s, k) && r.value == Capture(s, k) && forall j :: 0 <= j < k ==> !MatchesAt(s, j);
    assert k == i;
  }

  // ---------------------------------------------------------------------------------------
  // String.prototype.trim
  // ---------------------------------------------------------------------------------------

  /** The blanks `trim` removes that this model knows about. */
  predicate IsSpace(c: char) { c == ' ' || c == '\t' || c == '\n' || c == '\r' }

  predicate AllSpace(s: string) {
    forall i :: 0 <= i < |s| ==> IsSpace(s[i])
  }

  function LeadingSpaces(s: string): (k: nat)
    ensures k <= |s| && AllSpace(s[..k])
    ensures k < |s| ==> !IsSpace(s[k])
  {
    if |s| > 0 && IsSpace(s[0]) then
      var k := 1 + LeadingSpaces(s[1..]);
      assert s[..k] == [s[0]] + s[1..][..k - 1];
      k
    else 0
  }

  function TrailingSpaces(s: string): (k: nat)
    ensures k <= |s| && AllSpace(s[|s| - k..])
    ensures k < |s| ==> !IsSpace(s[|s| - k - 1])
  {
    if |s| > 0 && IsSpace(s[|s| - 1]) then
      var k := 1 + TrailingSpaces(s[..|s| - 1]);
      assert s[|s| - k..] == s[..|s| - 1][|s| - k..] + [s[|s| - 1]];
      k
    else 0
  }

  /** `s.trim()`: `s` without its leading and trailing blanks. */
  function Trim(s: string): (r: string)
    ensures |r| == 0 <==> AllSpace(s)
    ensures |r| > 0 ==> !IsSpace(r[0]) && !IsSpace(r[|r| - 1])
    ensures exists i :: StartsAt(s, r, i) && AllSpace(s[..i]) && AllSpace(s[i + |r|..])
  {
    var k := LeadingSpaces(s);
    if k == |s| then
      assert s[..k] == s;
      assert StartsAt(s, "", k) && AllSpace(s[k + 0..]);
      ""
    else
      var t := TrailingSpaces(s[k..]);
      TrimMiddle(s, k, t);
      s[k..|s| - t]
  }

  lemma TrimMiddle(s: string, k: nat, t: nat)
    requires k < |s| && k == LeadingSpaces(s) && t == TrailingSpaces(s[k..])
    ensures k <= |s| - t
    ensures var r := s[k..|s| - t];
      && |r| > 0 && !IsSpace(r[0]) && !IsSpace(r[|r| - 1]) && !AllSpace(s)
      && StartsAt(s, r, k) && AllSpace(s[..k]) && AllSpace(s[k + |r|..])
  {
    var u := s[k..];
    assert !IsSpace(u[0]);
    assert t < |u|;
    var r := s[k..|s| - t];
    assert u[|u| - t..] == s[k + |r|..];
    assert r[0] == s[k];
    assert r[|r| - 1] == u[|u| - t - 1];
    assert !IsSpace(s[k]);
  }
}
