/**
 * The subset of Python's string built-ins that the progress monitor relies on:
 * `str.strip()`, `str.split(sep)`, the `in` substring test, `int()` and
 * `float()` on ASCII decimal text, and `str()` of an integer.
 */
module Text {
  import opened Wrappers

  /** Python's `str.isspace()`, which is also what the regex class `\s` matches. */
  predicate IsSpace(c: char) {
    c == ' ' || ('\t' <= c <= '\r') || ('\U{1C}' <= c <= '\U{1F}') ||
    c == '\U{85}' || c == '\U{A0}' || c == '\U{1680}' || ('\U{2000}' <= c <= '\U{200A}') ||
    c == '\U{2028}' || c == '\U{2029}' || c == '\U{202F}' || c == '\U{205F}' || c == '\U{3000}'
  }

  /** An ASCII decimal digit (the model of the regex class `\d`). */
  predicate IsDigit(c: char) {
    '0' <= c <= '9'
  }

  predicate AllDigits(s: string) {
    forall i :: 0 <= i < |s| ==> IsDigit(s[i])
  }

  predicate NoSpace(s: string) {
    forall i :: 0 <= i < |s| ==> !IsSpace(s[i])
  }

  // ---------------------------------------------------------------- strip

  /** Drops leading whitespace. */
  function TrimStart(s: string): (r: string)
    ensures |r| <= |s|
  {
    if |s| > 0 && IsSpace(s[0]) then TrimStart(s[1..]) else s
  }

  /** What `TrimStart` keeps is a suffix not starting with whitespace; what it drops is whitespace. */
  lemma {:induction false} TrimStartSpec(s: string)
    ensures var r := TrimStart(s);
      r == s[|s| - |r|..] && (r == [] || !IsSpace(r[0])) &&
      forall i :: 0 <= i < |s| - |r| ==> IsSpace(s[i])
  {
    if |s| > 0 && IsSpace(s[0]) {
      TrimStartSpec(s[1..]);
    }
  }

  /** Drops trailing whitespace. */
  function TrimEnd(s: string): (r: string)
    ensures |r| <= |s|
  {
    if |s| > 0 && IsSpace(s[|s| - 1]) then TrimEnd(s[..|s| - 1]) else s
  }

  /** What `TrimEnd` keeps is a prefix not ending in whitespace; what it drops is whitespace. */
  lemma {:induction false} TrimEndSpec(s: string)
    ensures var r := TrimEnd(s);
      r == s[..|r|] && (r == [] || !IsSpace(r[|r| - 1])) &&
      forall i :: |r| <= i < |s| ==> IsSpace(s[i])
  {
    if |s| > 0 && IsSpace(s[|s| - 1]) {
      TrimEndSpec(s[..|s| - 1]);
    }
  }

  /** Number of whitespace characters that `strip()` removes from the front of `s`. */
  function Lead(s: string): nat {
    |s| - |TrimStart(s)|
  }

  /** Python's `s.strip()`. */
  function Strip(s: string): string {
    TrimEnd(TrimStart(s))
  }

  /**
   * `strip()` returns the infix of `s` that neither starts nor ends with
   * whitespace, everything cut away being whitespace.
   */
  lemma StripSpec(s: string)
    ensures var r := Strip(s);
      Lead(s) + |r| <= |s| && r == s[Lead(s)..Lead(s) + |r|] &&
      (forall k :: 0 <= k < Lead(s) ==> IsSpace(s[k])) &&
      (forall k :: Lead(s) + |r| <= k < |s| ==> IsSpace(s[k])) &&
      (r == [] || (!IsSpace(r[0]) && !IsSpace(r[|r| - 1])))
  {
    var t := TrimStart(s);
    TrimStartSpec(s);
    TrimEndSpec(t);
    var r := TrimEnd(t);
    var l := |s| - |t|;
    assert t == s[l..];
    assert r == t[..|r|];
    assert t[..|r|] == s[l..l + |r|];
    if r != [] {
      assert r[0] == t[0];
    }
  }

  /** A string without whitespace comes back from `strip()` unchanged. */
  lemma StripNoSpace(s: string)
    requires NoSpace(s)
    ensures Strip(s) == s
  {
    if |s| > 0 {
      assert !IsSpace(s[0]) && !IsSpace(s[|s| - 1]);
    }
  }

  /** `strip()` is idempotent. */
  lemma StripIdempotent(s: string)
    ensures Strip(Strip(s)) == Strip(s)
  {
    StripSpec(s);
    var r := Strip(s);
    if r != [] {
      assert TrimStart(r) == r;
      assert TrimEnd(r) == r;
    }
  }

  // ---------------------------------------------------------------- split / join

  /** Number of occurrences of `c` in `s`. */
  function Count(s: string, c: char): nat {
    if |s| == 0 then 0 else (if s[0] == c then 1 else 0) + Count(s[1..], c)
  }

  /** `sep.join(parts)`. */
  function Join(parts: seq<string>, sep: char): string
    requires |parts| >= 1
  {
    if |parts| == 1 then parts[0] else parts[0] + [sep] + Join(parts[1..], sep)
  }

  /**
   * Python's `s.split(sep)` for a one-character separator: one more part than
   * there are separators, and no part holds the separator.
   */
  function Split(s: string, sep: char): (parts: seq<string>)
    ensures |parts| == Count(s, sep) + 1
    ensures forall k :: 0 <= k < |parts| ==> sep !in parts[k]
  {
    if |s| == 0 then [""]
    else if s[0] == sep then [""] + Split(s[1..], sep)
    else
      var rest := Split(s[1..], sep);
      [[s[0]] + rest[0]] + rest[1..]
  }

  /** Joining the parts of `s` with the separator gives `s` back. */
  lemma {:induction false} JoinSplit(s: string, sep: char)
    ensures Join(Split(s, sep), sep) == s
  {
    if |s| > 0 {
      JoinSplit(s[1..], sep);
      var rest := Split(s[1..], sep);
      assert s == [s[0]] + s[1..];
      if s[0] != sep {
        var parts := [[s[0]] + rest[0]] + rest[1..];
        assert parts[1..] == rest[1..];
      }
    }
  }

  /** Splitting text put together with `Join` recovers the parts. */
  lemma {:induction false} SplitJoin(parts: seq<string>, sep: char)
    requires |parts| >= 1
    requires forall k :: 0 <= k < |parts| ==> sep !in parts[k]
    ensures Split(Join(parts, sep), sep) == parts
  {
    if |parts| == 1 {
      SplitNoSep(parts[0], sep);
    } else {
      SplitJoin(parts[1..], sep);
      SplitAfter(parts[0], Join(parts[1..], sep), sep);
      assert parts == [parts[0]] + parts[1..];
    }
  }

  /** Text without the separator is a single part. */
  lemma {:induction false} SplitNoSep(s: string, sep: char)
    requires sep !in s
    ensures Split(s, sep) == [s]
  {
    if |s| > 0 {
      SplitNoSep(s[1..], sep);
      assert s == [s[0]] + s[1..];
    }
  }

  /** A leading separator-free field followed by the separator becomes the first part. */
  lemma {:induction false} SplitAfter(a: string, rest: string, sep: char)
    requires sep !in a
    ensures Split(a + [sep] + rest, sep) == [a] + Split(rest, sep)
  {
    var s := a + [sep] + rest;
    if |a| == 0 {
      assert s == [sep] + rest;
      assert s[1..] == rest;
    } else {
      assert s[0] == a[0];
      assert s[1..] == a[1..] + [sep] + rest;
      SplitAfter(a[1..], rest, sep);
      assert [a[0]] + a[1..] == a;
    }
  }

  /** Three separator-free fields joined by the separator split back into those fields. */
  lemma SplitThree(a: string, b: string, c: string, sep: char)
    requires sep !in a && sep !in b && sep !in c
    ensures Split(a + [sep] + b + [sep] + c, sep) == [a, b, c]
  {
    var tail := b + [sep] + c;
    ConcatRegroup(a, [sep], b, [sep], c);
    SplitAfter(a, tail, sep);
    SplitAfter(b, c, sep);
    SplitNoSep(c, sep);
    assert [a] + ([b] + [c]) == [a, b, c];
  }

  /** Regrouping a chain of five concatenations so its last three form one part. */
  lemma ConcatRegroup(a: string, x: string, b: string, y: string, c: string)
    ensures a + x + b + y + c == a + x + (b + y + c)
  {
  }

  // ---------------------------------------------------------------- substring test

  /** Python's `p in s` for strings. */
  predicate Contains(s: string, p: string)
    decreases |s|
  {
    |p| <= |s| && (s[..|p|] == p || Contains(s[1..], p))
  }

  /** `p` occurs in `s` starting at index `i`. */
  predicate OccursAt(s: string, p: string, i: int) {
    0 <= i <= |s| - |p| && s[i..i + |p|] == p
  }

  /** A slice of the tail of `s` is the slice of `s` shifted by one. */
  lemma SliceOfTail(s: string, i: int, j: int)
    requires 1 <= i <= j <= |s|
    ensures s[1..][i - 1..j - 1] == s[i..j]
  {
    assert forall k :: 0 <= k < j - i ==> s[1..][i - 1..j - 1][k] == s[i..j][k];
  }

  /** `Contains` holds exactly when `p` occurs at some position of `s`. */
  lemma {:induction false} ContainsIff(s: string, p: string)
    ensures Contains(s, p) <==> exists i :: OccursAt(s, p, i)
    decreases |s|
  {
    if |p| <= |s| && s[..|p|] != p {
      assert OccursAt(s, p, 0) <==> false;
      ContainsIff(s[1..], p);
      forall i | 1 <= i <= |s| - |p|
        ensures OccursAt(s, p, i) <==> OccursAt(s[1..], p, i - 1)
      {
        SliceOfTail(s, i, i + |p|);
      }
      if Contains(s, p) {
        var i :| OccursAt(s[1..], p, i);
        assert OccursAt(s, p, i + 1);
      }
    } else if |p| <= |s| {
      assert OccursAt(s, p, 0);
    }
  }

  /** A string shorter than the pattern cannot contain it. */
  lemma ContainsTooShort(s: string, p: string)
    requires |s| < |p|
    ensures !Contains(s, p)
  {
  }

  /** A pattern at the very start of `s` is contained in it. */
  lemma ContainsPrefix(p: string, rest: string)
    ensures Contains(p + rest, p)
  {
    assert (p + rest)[..|p|] == p;
  }

  // ---------------------------------------------------------------- numbers

  function Pow10(n: nat): (r: nat)
    ensures r >= 1
  {
    if n == 0 then 1 else 10 * Pow10(n - 1)
  }

  /** The value of a string of decimal digits, most significant first. */
  function DigitsValue(s: string): nat
    requires AllDigits(s)
  {
    if |s| == 0 then 0 else 10 * DigitsValue(s[..|s| - 1]) + (s[|s| - 1] - '0') as nat
  }

  /** A digit string of length `n` has a value below `10^n`. */
  lemma {:induction false} DigitsValueBound(s: string)
    requires AllDigits(s)
    ensures DigitsValue(s) < Pow10(|s|)
  {
    if |s| > 0 {
      DigitsValueBound(s[..|s| - 1]);
    }
  }

  /** Leading zeros do not change the value. */
  lemma {:induction false} DigitsValueLeadingZero(d: string)
    requires AllDigits(d)
    ensures AllDigits("0" + d) && DigitsValue("0" + d) == DigitsValue(d)
  {
    if |d| > 0 {
      var z := "0" + d;
      assert z[..|z| - 1] == "0" + d[..|d| - 1];
      DigitsValueLeadingZero(d[..|d| - 1]);
    }
  }

  /** The digit character of a value below ten. */
  function DigitChar(d: nat): (c: char)
    requires d < 10
    ensures IsDigit(c) && (c - '0') as nat == d
  {
    ('0' as int + d) as char
  }

  /**
   * Python's `str(n)` for a natural number: decimal digits, no leading zero,
   * and reading the digits back gives `n`.
   */
  function NatToString(n: nat): (r: string)
    ensures |r| >= 1 && AllDigits(r)
    ensures r[0] != '0' || r == "0"
    ensures DigitsValue(r) == n
  {
    if n < 10 then [DigitChar(n)]
    else
      var r := NatToString(n / 10) + [DigitChar(n % 10)];
      assert r[..|r| - 1] == NatToString(n / 10);
      r
  }

  /** `str(n)` has at most `k` characters exactly when `n < 10^k`. */
  lemma {:induction false} NatToStringLength(n: nat, k: nat)
    requires k >= 1
    ensures |NatToString(n)| <= k <==> n < Pow10(k)
  {
    if n >= 10 {
      if k == 1 {
        assert Pow10(1) == 10;
      } else {
        NatToStringLength(n / 10, k - 1);
      }
    } else {
      assert Pow10(k) >= 10 by { Pow10Grows(k); }
    }
  }

  lemma {:induction false} Pow10Grows(k: nat)
    requires k >= 1
    ensures Pow10(k) >= 10
  {
    if k > 1 {
      Pow10Grows(k - 1);
    }
  }

  /**
   * Python's `str(x)` for an integer: the decimal digits of `x` without a
   * leading zero, after a `-` when `x` is negative.
   */
  function IntToString(x: int): (r: string)
    ensures x >= 0 ==> |r| >= 1 && AllDigits(r) && DigitsValue(r) == x && (r[0] != '0' || r == "0")
    ensures x < 0 ==> |r| >= 2 && r[0] == '-' && AllDigits(r[1..]) && DigitsValue(r[1..]) == -x && r[1] != '0'
  {
    if x < 0 then
      var digits := NatToString(-x);
      assert digits != "0" by { assert DigitsValue("0") == 0; }
      assert ("-" + digits)[1..] == digits;
      "-" + digits
    else NatToString(x)
  }

  /** Python's `f"{x:>{w}}"`: `s` padded on the left with spaces to width `w`. */
  function RightAlign(s: string, w: nat): (r: string)
    ensures |r| == if |s| < w then w else |s|
    ensures r[|r| - |s|..] == s
    ensures forall i :: 0 <= i < |r| - |s| ==> r[i] == ' '
  {
    if |s| < w then Spaces(w - |s|) + s else s
  }

  /** `strip()` removes left padding of blanks from text that has no whitespace. */
  lemma StripPadded(pad: string, num: string)
    requires forall k :: 0 <= k < |pad| ==> pad[k] == ' '
    requires |num| >= 1 && NoSpace(num)
    ensures Strip(pad + num) == num
  {
    StripSpec(pad + num);
    if |pad| > 0 {
      assert (pad + num)[1..] == pad[1..] + num;
      StripPadded(pad[1..], num);
      assert TrimStart(pad + num) == TrimStart(pad[1..] + num);
    } else {
      assert pad + num == num;
      StripNoSpace(num);
    }
  }

  /** A number below `10^w`, right-aligned in `w` columns, fills them and reads back. */
  lemma RightAlignedNumber(n: nat, w: nat)
    requires 1 <= w && n < Pow10(w)
    ensures |RightAlign(NatToString(n), w)| == w
    ensures ParseInt(RightAlign(NatToString(n), w)) == Some(n as int)
  {
    NatToStringLength(n, w);
    ParseIntRightAligned(NatToString(n), w);
  }

  /** `int()` reads a right-aligned number back: the alignment only adds blanks `strip()` removes. */
  lemma ParseIntRightAligned(digits: string, w: nat)
    requires |digits| >= 1 && AllDigits(digits)
    ensures ParseInt(RightAlign(digits, w)) == Some(DigitsValue(digits) as int)
  {
    DigitsPlain(digits);
    ParseIntDigits(digits);
    if |digits| < w {
      StripPadded(Spaces(w - |digits|), digits);
    }
  }

  function Spaces(n: nat): (r: string)
    ensures |r| == n && forall i :: 0 <= i < n ==> r[i] == ' '
  {
    seq(n, _ => ' ')
  }

  /**
   * Python's `int(s)` restricted to ASCII decimal text: surrounding whitespace
   * is ignored, what remains must be one or more digits.
   */
  function ParseInt(s: string): (r: Option<int>)
  {
    var t := Strip(s);
    if |t| >= 1 && AllDigits(t) then Some(DigitsValue(t) as int) else None
  }

  /** Digits contain no separator and no whitespace. */
  lemma DigitsPlain(x: string)
    requires AllDigits(x)
    ensures ':' !in x && '.' !in x && NoSpace(x)
  {
    assert forall j :: 0 <= j < |x| ==> x[j] != ':' && x[j] != '.';
  }

  /** `int` reads back a digit string as its value. */
  lemma ParseIntDigits(x: string)
    requires |x| >= 1 && AllDigits(x)
    ensures ParseInt(x) == Some(DigitsValue(x) as int)
  {
    DigitsPlain(x);
    StripNoSpace(x);
  }

  /**
   * Python's `float(s)` restricted to ASCII decimal text: surrounding
   * whitespace is ignored, what remains is `digits`, `digits.digits`,
   * `digits.` or `.digits`, with at least one digit.
   */
  function ParseFloat(s: string): (r: Option<real>)
  {
    var parts := Split(Strip(s), '.');
    if |parts| == 1 && |parts[0]| >= 1 && AllDigits(parts[0]) then
      Some(DigitsValue(parts[0]) as real)
    else if |parts| == 2 && |parts[0]| + |parts[1]| >= 1 && AllDigits(parts[0]) && AllDigits(parts[1]) then
      Some(DecimalValue(parts[0], parts[1]))
    else
      None
  }

  /** The value of `ip.fp` written in decimal. */
  function DecimalValue(ip: string, fp: string): real
    requires AllDigits(ip) && AllDigits(fp)
  {
    DigitsValue(ip) as real + DigitsValue(fp) as real / Pow10(|fp|) as real
  }

  /** `float` reads back a digit string as its value. */
  lemma ParseFloatDigits(d: string)
    requires |d| >= 1 && AllDigits(d)
    ensures ParseFloat(d) == Some(DigitsValue(d) as real)
  {
    assert NoSpace(d);
    StripNoSpace(d);
    assert '.' !in d;
    SplitNoSep(d, '.');
  }

  /** `float` reads `ip.fp` as its decimal value. */
  lemma ParseFloatDecimal(ip: string, fp: string)
    requires AllDigits(ip) && AllDigits(fp) && |ip| + |fp| >= 1
    ensures ParseFloat(ip + "." + fp) == Some(DecimalValue(ip, fp))
  {
    var s := ip + "." + fp;
    assert NoSpace(s) by {
      forall i | 0 <= i < |s|
        ensures !IsSpace(s[i])
      {
        if i < |ip| {
          assert s[i] == ip[i];
        } else if i > |ip| {
          assert s[i] == fp[i - |ip| - 1];
        }
      }
    }
    StripNoSpace(s);
    assert '.' !in ip && '.' !in fp;
    SplitAfter(ip, fp, '.');
    SplitNoSep(fp, '.');
    assert Split(s, '.') == [ip, fp];
  }
}
