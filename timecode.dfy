/**
 * Reading the SoX status line: `parse_sox_timecode`, which finds the
 * `h:mm:ss.ff` timecode that follows the percentage and precedes the
 * progress bracket, and `timecode_to_seconds`, which converts it.
 */
module Timecode {
  import opened Wrappers
  import opened Text

  /**
   * The shape of the captured group `\d{1,3}:\d{2}:\d{2}\.\d{2}`: one to
   * three hour digits, then `:mm:ss.ff`.
   */
  predicate IsTimecode(t: string) {
    10 <= |t| <= 12 &&
    var k := |t| - 9;
    AllDigits(t[..k]) && t[k] == ':' &&
    AllDigits(t[k + 1..k + 3]) && t[k + 3] == ':' &&
    AllDigits(t[k + 4..k + 6]) && t[k + 6] == '.' &&
    AllDigits(t[k + 7..])
  }

  // ---------------------------------------------------------------- reference definition

  /**
   * An occurrence of the pattern `%\s+(TIMECODE)\s+\[` at index `i` of `line`
   * with `a` whitespace characters before the timecode `t` and `b` after it.
   */
  ghost predicate OccurrenceAt(line: string, i: nat, t: string, a: nat, b: nat) {
    var p := i + 1 + a;
    var q := p + |t|;
    q + b < |line| && line[i] == '%' && 1 <= a && 1 <= b &&
    (forall k :: i < k < p ==> IsSpace(line[k])) &&
    line[p..q] == t && IsTimecode(t) &&
    (forall k :: q <= k < q + b ==> IsSpace(line[k])) &&
    line[q + b] == '['
  }

  /** The pattern matches at index `i` with `t` as its group. */
  ghost predicate MatchesAt(line: string, i: nat, t: string) {
    exists a: nat, b: nat :: OccurrenceAt(line, i, t, a, b)
  }

  // ---------------------------------------------------------------- scanner

  /** The end of the run of whitespace that starts at `i`. */
  function SkipSpaces(s: string, i: nat): (j: nat)
    requires i <= |s|
    ensures i <= j <= |s|
    ensures forall k :: i <= k < j ==> IsSpace(s[k])
    ensures j == |s| || !IsSpace(s[j])
    decreases |s| - i
  {
    if i < |s| && IsSpace(s[i]) then SkipSpaces(s, i + 1) else i
  }

  /** The end of the run of digits that starts at `i`. */
  function SkipDigits(s: string, i: nat): (j: nat)
    requires i <= |s|
    ensures i <= j <= |s|
    ensures forall k :: i <= k < j ==> IsDigit(s[k])
    ensures j == |s| || !IsDigit(s[j])
    decreases |s| - i
  {
    if i < |s| && IsDigit(s[i]) then SkipDigits(s, i + 1) else i
  }

  /** `SkipSpaces` stops exactly at the first non-whitespace character. */
  lemma {:induction false} SkipSpacesTo(s: string, i: nat, j: nat)
    requires i <= j <= |s|
    requires forall k :: i <= k < j ==> IsSpace(s[k])
    requires j == |s| || !IsSpace(s[j])
    ensures SkipSpaces(s, i) == j
    decreases j - i
  {
    if i < j {
      SkipSpacesTo(s, i + 1, j);
    }
  }

  /** `SkipDigits` stops exactly at the first non-digit character. */
  lemma {:induction false} SkipDigitsTo(s: string, i: nat, j: nat)
    requires i <= j <= |s|
    requires forall k :: i <= k < j ==> IsDigit(s[k])
    requires j == |s| || !IsDigit(s[j])
    ensures SkipDigits(s, i) == j
    decreases j - i
  {
    if i < j {
      SkipDigitsTo(s, i + 1, j);
    }
  }

  /**
   * Tries the pattern at index `i`: `%`, a whitespace run, a digit run of one
   * to three hour digits followed by `:mm:ss.ff`, a whitespace run, `[`.
   */
  function MatchAt(line: string, i: nat): Option<string>
    requires i < |line|
  {
    if line[i] != '%' then None
    else
      var p := SkipSpaces(line, i + 1);
      if p == i + 1 then None
      else
        var h := SkipDigits(line, p);
        var q := h + 9;
        if h - p < 1 || h - p > 3 || q > |line| || !IsTimecode(line[p..q]) then None
        else
          var w := SkipSpaces(line, q);
          if w == q || w == |line| || line[w] != '[' then None
          else Some(line[p..q])
  }

  /** Tries every index from `i` on, left to right, as `re.search` does. */
  function ScanFrom(line: string, i: nat): Option<string>
    requires i <= |line|
    decreases |line| - i
  {
    if i == |line| then None
    else match MatchAt(line, i)
      case Some(t) => Some(t)
      case None => ScanFrom(line, i + 1)
  }

  /** `parse_sox_timecode`: the group of the leftmost match, or None. */
  function ParseSoxTimecode(line: string): Option<string> {
    ScanFrom(line, 0)
  }

  // ---------------------------------------------------------------- scanner proofs

  /** Whatever `MatchAt` returns is an occurrence of the pattern at `i`. */
  lemma MatchAtSound(line: string, i: nat)
    requires i < |line| && MatchAt(line, i).Some?
    ensures MatchesAt(line, i, MatchAt(line, i).value)
  {
    var p := SkipSpaces(line, i + 1);
    var h := SkipDigits(line, p);
    var q := h + 9;
    var w := SkipSpaces(line, q);
    assert OccurrenceAt(line, i, line[p..q], p - i - 1, w - q);
  }

  /** Every occurrence of the pattern at `i` is found by `MatchAt`. */
  lemma MatchAtComplete(line: string, i: nat, t: string, a: nat, b: nat)
    requires OccurrenceAt(line, i, t, a, b)
    ensures MatchAt(line, i) == Some(t)
  {
    var p := i + 1 + a;
    var q := p + |t|;
    var k := |t| - 9;
    assert t[..k][0] == t[0] == line[p];
    SkipSpacesTo(line, i + 1, p);
    assert forall j :: p <= j < p + k ==> line[j] == t[..k][j - p];
    assert line[p + k] == t[k];
    SkipDigitsTo(line, p, p + k);
    SkipSpacesTo(line, q, q + b);
    MatchAtSteps(line, i, p, p + k, q + b);
  }

  /** `MatchAt` succeeds once each of its runs ends where the pattern needs it to. */
  lemma MatchAtSteps(line: string, i: nat, p: nat, h: nat, w: nat)
    requires i < |line| && line[i] == '%'
    requires i + 1 < p <= |line| && SkipSpaces(line, i + 1) == p
    requires 1 <= h - p <= 3 && SkipDigits(line, p) == h
    requires h + 9 <= |line| && IsTimecode(line[p..h + 9])
    requires h + 9 < w < |line| && SkipSpaces(line, h + 9) == w && line[w] == '['
    ensures MatchAt(line, i) == Some(line[p..h + 9])
  {
  }

  /** At any index the pattern determines its group. */
  lemma MatchAtUnique(line: string, i: nat, t: string, t': string)
    requires MatchesAt(line, i, t) && MatchesAt(line, i, t')
    ensures t == t'
  {
    var a, b :| OccurrenceAt(line, i, t, a, b);
    var a', b' :| OccurrenceAt(line, i, t', a', b');
    MatchAtComplete(line, i, t, a, b);
    MatchAtComplete(line, i, t', a', b');
  }

  /** A match can only start at a `%` of the line. */
  lemma MatchesAtPercent(line: string, k: nat, t: string)
    ensures MatchesAt(line, k, t) ==> k < |line| && line[k] == '%'
  {
    if MatchesAt(line, k, t) {
      var a, b :| OccurrenceAt(line, k, t, a, b);
    }
  }

  /** No occurrence of the pattern starts at an index in `[lo, hi)`. */
  ghost predicate NoMatchIn(line: string, lo: nat, hi: nat) {
    forall k: nat, t: string :: lo <= k < hi ==> !MatchesAt(line, k, t)
  }

  /** `t` is the group of the first occurrence at or after `lo`, which starts at `j`. */
  ghost predicate FirstMatch(line: string, lo: nat, j: nat, t: string) {
    lo <= j < |line| && MatchesAt(line, j, t) && NoMatchIn(line, lo, j)
  }

  /** When `MatchAt` finds nothing at `i`, no occurrence starts there. */
  lemma MatchAtNone(line: string, i: nat)
    requires i < |line| && MatchAt(line, i) == None
    ensures NoMatchIn(line, i, i + 1)
  {
    forall k: nat, t: string | i <= k < i + 1
      ensures !MatchesAt(line, k, t)
    {
      if MatchesAt(line, k, t) {
        var a, b :| OccurrenceAt(line, k, t, a, b);
        MatchAtComplete(line, k, t, a, b);
      }
    }
  }

  /** `ScanFrom` returns the group of the first match at or after `i`. */
  lemma {:induction false} ScanFromSpec(line: string, i: nat)
    requires i <= |line|
    ensures ScanFrom(line, i).Some? ==> exists j: nat :: FirstMatch(line, i, j, ScanFrom(line, i).value)
    ensures ScanFrom(line, i).None? ==> NoMatchIn(line, i, |line|)
    decreases |line| - i
  {
    if i < |line| {
      var r := MatchAt(line, i);
      if r.Some? {
        MatchAtSound(line, i);
        assert FirstMatch(line, i, i, r.value);
      } else {
        MatchAtNone(line, i);
        ScanFromSpec(line, i + 1);
        var s := ScanFrom(line, i + 1);
        assert ScanFrom(line, i) == s;
        if s.Some? {
          var j: nat :| FirstMatch(line, i + 1, j, s.value);
          assert FirstMatch(line, i, j, s.value);
        }
      }
    }
  }

  /**
   * `parse_sox_timecode` returns the group of the leftmost occurrence of the
   * pattern, and None exactly when there is no occurrence at all.
   */
  lemma ParseSoxTimecodeSpec(line: string)
    ensures ParseSoxTimecode(line).Some? ==>
      IsTimecode(ParseSoxTimecode(line).value) &&
      exists j: nat :: FirstMatch(line, 0, j, ParseSoxTimecode(line).value)
    ensures ParseSoxTimecode(line).None? <==> NoMatchIn(line, 0, |line|)
    ensures NoMatchIn(line, 0, |line|) ==> forall k: nat, t: string :: !MatchesAt(line, k, t)
  {
    ScanFromSpec(line, 0);
    forall k: nat, t: string
      ensures MatchesAt(line, k, t) ==> k < |line|
    {
      MatchesAtPercent(line, k, t);
    }
    if ParseSoxTimecode(line).Some? {
      var tc := ParseSoxTimecode(line).value;
      var j: nat :| FirstMatch(line, 0, j, tc);
      var a, b :| OccurrenceAt(line, j, tc, a, b);
    }
  }

  /** A status fragment `% <timecode> [` yields exactly that timecode. */
  lemma ParseWrapped(t: string)
    requires IsTimecode(t)
    ensures ParseSoxTimecode("% " + t + " [") == Some(t)
  {
    var line := "% " + t + " [";
    assert line[2..2 + |t|] == t;
    assert OccurrenceAt(line, 0, t, 1, 1);
    MatchAtComplete(line, 0, t, 1, 1);
  }

  /** A line without `%` carries no timecode. */
  lemma ParseNeedsPercent(line: string)
    requires '%' !in line
    ensures ParseSoxTimecode(line) == None
  {
    forall k: nat, t: string
      ensures MatchesAt(line, k, t) ==> '%' in line
    {
      MatchesAtPercent(line, k, t);
    }
    ParseSoxTimecodeSpec(line);
  }

  // ---------------------------------------------------------------- conversion

  /**
   * `timecode_to_seconds`: `h:m:s` split on `:` into exactly three parts,
   * `int(h) * 3600 + int(m) * 60 + float(s)`; anything else is None.
   */
  function TimecodeToSeconds(tc: string): Option<real> {
    var parts := Split(tc, ':');
    if |parts| != 3 then None
    else
      var h, m, s := ParseInt(parts[0]), ParseInt(parts[1]), ParseFloat(parts[2]);
      if h.Some? && m.Some? && s.Some? then Some(HmsSeconds(h.value, m.value, s.value))
      else None
  }

  /** `h * 3600 + m * 60 + s` with integer hours and minutes and float seconds. */
  function HmsSeconds(h: int, m: int, s: real): real {
    (h * 3600 + m * 60) as real + s
  }

  /** A text with other than exactly two colons does not convert. */
  lemma TimecodeNeedsTwoColons(tc: string)
    requires Count(tc, ':') != 2
    ensures TimecodeToSeconds(tc) == None
  {
  }

  /** The value of `h:mm:ss.ff` counted in hundredths of a second. */
  function Hundredths(h: nat, m: nat, s: nat, f: nat): nat {
    h * 360000 + m * 6000 + s * 100 + f
  }

  /** The four numeric fields of a well-formed timecode. */
  function Fields(t: string): (nat, nat, nat, nat)
    requires IsTimecode(t)
  {
    var k := |t| - 9;
    (DigitsValue(t[..k]), DigitsValue(t[k + 1..k + 3]), DigitsValue(t[k + 4..k + 6]), DigitsValue(t[k + 7..]))
  }

  /** A timecode splits on `:` into its hour digits, its minutes and `ss.ff`. */
  lemma SplitTimecode(t: string)
    requires IsTimecode(t)
    ensures var k := |t| - 9; Split(t, ':') == [t[..k], t[k + 1..k + 3], t[k + 4..]]
  {
    var k := |t| - 9;
    var hs, ms, sec := t[..k], t[k + 1..k + 3], t[k + 4..];
    CutTwice(t, k, k + 3);
    DigitsPlain(hs);
    DigitsPlain(ms);
    SecondsNoColon(t, k);
    SplitThree(hs, ms, sec, ':');
  }

  /** A text is its parts around the characters at `i` and `j`. */
  lemma CutTwice(t: string, i: nat, j: nat)
    requires i < j < |t|
    ensures t == t[..i] + [t[i]] + t[i + 1..j] + [t[j]] + t[j + 1..]
  {
    var r := t[..i] + [t[i]] + t[i + 1..j] + [t[j]] + t[j + 1..];
    assert |r| == |t|;
    forall n | 0 <= n < |t|
      ensures r[n] == t[n]
    {
      if n < i {
      } else if n == i {
      } else if n < j {
        assert r[n] == t[i + 1..j][n - i - 1];
      } else if n == j {
      } else {
        assert r[n] == t[j + 1..][n - j - 1];
      }
    }
  }

  /** The `ss.ff` part of a timecode (from `k + 4` on) holds no colon. */
  lemma SecondsNoColon(t: string, k: nat)
    requires IsTimecode(t) && k == |t| - 9
    ensures ':' !in t[k + 4..]
  {
    var sec := t[k + 4..];
    forall n | 0 <= n < |sec|
      ensures sec[n] != ':'
    {
      if n < 2 {
        assert sec[n] == t[k + 4..k + 6][n];
      } else if n > 2 {
        assert sec[n] == t[k + 7..][n - 3];
      }
    }
  }

  /** `ss.ff` with two decimals is `ss + ff / 100`. */
  lemma Hundredth(ss: string, fs: string)
    requires |fs| == 2 && AllDigits(ss) && AllDigits(fs)
    ensures DecimalValue(ss, fs) == DigitsValue(ss) as real + DigitsValue(fs) as real / 100.0
  {
    assert Pow10(|fs|) == 100 by { assert Pow10(1) == 10; }
  }

  lemma TwoDigitBound(x: string)
    requires |x| == 2 && AllDigits(x)
    ensures DigitsValue(x) < 100
  {
    DigitsValueBound(x);
    assert Pow10(2) == 100 by { assert Pow10(1) == 10; }
  }

  /** The value of a well-formed timecode: its count of hundredths over 100. */
  function TimecodeValue(t: string): real
    requires IsTimecode(t)
  {
    var (h, m, s, f) := Fields(t);
    Hundredths(h, m, s, f) as real / 100.0
  }

  /** The three fields of a timecode read as `int`, `int` and `float`. */
  lemma FieldsParse(t: string)
    requires IsTimecode(t)
    ensures var k := |t| - 9;
      ParseInt(t[..k]) == Some(DigitsValue(t[..k]) as int) &&
      ParseInt(t[k + 1..k + 3]) == Some(DigitsValue(t[k + 1..k + 3]) as int) &&
      ParseFloat(t[k + 4..]) == Some(DecimalValue(t[k + 4..k + 6], t[k + 7..]))
  {
    var k := |t| - 9;
    assert t[k + 4..] == t[k + 4..k + 6] + "." + t[k + 7..];
    ParseIntDigits(t[..k]);
    ParseIntDigits(t[k + 1..k + 3]);
    ParseFloatDecimal(t[k + 4..k + 6], t[k + 7..]);
  }

  /** Every timecode the scanner can return converts, to its value in hundredths over 100. */
  lemma TimecodeToSecondsWellFormed(t: string)
    requires IsTimecode(t)
    ensures Fields(t).1 < 100 && Fields(t).2 < 100 && Fields(t).3 < 100
    ensures TimecodeToSeconds(t) == Some(TimecodeValue(t))
  {
    var k := |t| - 9;
    var hs, ms, ss, fs := t[..k], t[k + 1..k + 3], t[k + 4..k + 6], t[k + 7..];
    var h, m, s, f := DigitsValue(hs), DigitsValue(ms), DigitsValue(ss), DigitsValue(fs);
    assert Fields(t) == (h, m, s, f);
    SplitTimecode(t);
    FieldsParse(t);
    ConvertParts(t, hs, ms, t[k + 4..]);
    TwoDigitBound(ms);
    TwoDigitBound(ss);
    TwoDigitBound(fs);
    Hundredth(ss, fs);
    HundredthsReal(h, m, s, f);
    assert TimecodeToSeconds(t).value == TimecodeValue(t);
  }

  /** `timecode_to_seconds` on a text whose three parts all parse. */
  lemma ConvertParts(tc: string, hs: string, ms: string, sec: string)
    requires Split(tc, ':') == [hs, ms, sec]
    requires ParseInt(hs).Some? && ParseInt(ms).Some? && ParseFloat(sec).Some?
    ensures TimecodeToSeconds(tc) ==
      Some(HmsSeconds(ParseInt(hs).value, ParseInt(ms).value, ParseFloat(sec).value))
  {
  }

  lemma HundredthsReal(h: nat, m: nat, s: nat, f: nat)
    ensures HmsSeconds(h, m, s as real + f as real / 100.0) == Hundredths(h, m, s, f) as real / 100.0
  {
  }

  /**
   * Within the ranges a capture reports (minutes and seconds below 60,
   * hundredths below 100) the value grows with the fields read as a
   * lexicographic tuple.
   */
  lemma HundredthsMonotone(h: nat, m: nat, s: nat, f: nat, h': nat, m': nat, s': nat, f': nat)
    requires m < 60 && s < 60 && f < 100 && m' < 60 && s' < 60 && f' < 100
    requires h < h' || (h == h' && (m < m' || (m == m' && (s < s' || (s == s' && f <= f')))))
    ensures Hundredths(h, m, s, f) <= Hundredths(h', m', s', f')
  {
    if h < h' {
      assert m * 6000 + s * 100 + f < 360000;
      assert h * 360000 + 360000 <= h' * 360000;
    } else if m < m' {
      assert s * 100 + f < 6000;
      assert m * 6000 + 6000 <= m' * 6000;
    }
  }

  /**
   * Without the range bounds the tuple order is not respected: the scanner
   * accepts `0:99:00.00`, which lies beyond `1:00:00.00`.
   */
  lemma HundredthsWideMinutes()
    ensures Hundredths(0, 99, 0, 0) > Hundredths(1, 0, 0, 0)
  {
  }

  /** Raising any single field never lowers the value. */
  lemma HundredthsFieldwise(h: nat, m: nat, s: nat, f: nat, h': nat, m': nat, s': nat, f': nat)
    requires h <= h' && m <= m' && s <= s' && f <= f'
    ensures Hundredths(h, m, s, f) <= Hundredths(h', m', s', f')
  {
  }
}
