/**
 * `format_hms` and the `int()` truncation that precedes it: a count of
 * seconds shown as `HH:MM:SS`.
 */
module Clock {
  import opened Wrappers
  import opened Text
  import Timecode

  /** Python's `int(x)` for a float: truncation toward zero. */
  function Trunc(x: real): (n: int)
    ensures x >= 0.0 ==> 0 <= n && n as real <= x < n as real + 1.0
    ensures x < 0.0 ==> n <= 0 && n as real - 1.0 < x <= n as real
  {
    if x >= 0.0 then x.Floor else -((-x).Floor)
  }

  /** Python's `f"{x:02}"`: at least two characters, zero-padded after any sign. */
  function Pad2(x: int): (r: string)
  {
    if x < 0 then "-" + NatToString(-x)
    else if x < 10 then "0" + NatToString(x)
    else NatToString(x)
  }

  /** `format_hms` on `int(seconds)`: hours, minutes and seconds, each through `Pad2`, joined by `:`. */
  function FormatHms(n: int): string {
    var h := n / 3600;
    var m := (n % 3600) / 60;
    var s := n % 60;
    Pad2(h) + ":" + Pad2(m) + ":" + Pad2(s)
  }

  /** `format_hms` applied to a float: `int()` first. */
  function FormatHmsReal(seconds: real): string {
    FormatHms(Trunc(seconds))
  }

  /**
   * The fields `format_hms` prints recombine to `n`: minutes and seconds lie
   * in `[0, 60)`, and for `n >= 0` so do the hours lie in `[0, n]`. Python's
   * `//` and `%` against the positive divisors 3600 and 60 agree with Dafny's.
   */
  lemma {:induction false} HmsFields(n: int)
    ensures var h, m, s := n / 3600, (n % 3600) / 60, n % 60;
      h * 3600 + m * 60 + s == n && 0 <= m < 60 && 0 <= s < 60 &&
      (n >= 0 ==> 0 <= h <= n) && (n < 0 ==> h < 0)
  {
    var r := n % 3600;
    assert n == (n / 3600) * 3600 + r;
    assert r == (r / 60) * 60 + r % 60;
    assert n % 60 == r % 60 by {
      assert n == (n / 3600 * 60) * 60 + r;
    }
  }

  /** `Pad2` of a non-negative value: digits only, at least two of them, reading back as the value. */
  lemma Pad2Digits(x: nat)
    ensures AllDigits(Pad2(x)) && |Pad2(x)| >= 2 && DigitsValue(Pad2(x)) == x
    ensures x < 100 ==> |Pad2(x)| == 2
  {
    if x < 10 {
      DigitsValueLeadingZero(NatToString(x));
    } else {
      NatToStringLength(x, 1);
      if x < 100 {
        NatToStringLength(x, 2);
        assert Pow10(2) == 100 by { assert Pow10(1) == 10; }
      }
    }
  }

  /**
   * For `0 <= n < 360000` (under 100 hours) the text is exactly `HH:MM:SS`,
   * eight characters; from 100 hours on the hour field widens.
   */
  lemma FormatHmsLength(n: int)
    requires n >= 0
    ensures n < 360000 ==> |FormatHms(n)| == 8
    ensures n >= 360000 ==> |FormatHms(n)| > 8
    ensures FormatHms(n)[2] == ':' || n >= 360000
  {
    HmsFields(n);
    var h, m, s := n / 3600, (n % 3600) / 60, n % 60;
    Pad2Digits(h);
    Pad2Digits(m);
    Pad2Digits(s);
    if n >= 360000 {
      assert h >= 100;
      NatToStringLength(h, 2);
      assert Pow10(2) == 100 by { assert Pow10(1) == 10; }
    }
  }

  /** A negative count shows a leading minus sign on the hour field. */
  lemma FormatHmsNegative(n: int)
    requires n < 0
    ensures FormatHms(n)[0] == '-'
  {
    HmsFields(n);
  }

  /** Three padded fields joined by `:` read back under `timecode_to_seconds`. */
  lemma ReadHmsFields(h: nat, m: nat, s: nat)
    ensures Timecode.TimecodeToSeconds(Pad2(h) + ":" + Pad2(m) + ":" + Pad2(s)) ==
      Some(Timecode.HmsSeconds(h, m, s as real))
  {
    var hs, ms, ss := Pad2(h), Pad2(m), Pad2(s);
    var x := hs + ":" + ms + ":" + ss;
    Pad2Digits(h);
    Pad2Digits(m);
    Pad2Digits(s);
    DigitsPlain(hs);
    DigitsPlain(ms);
    DigitsPlain(ss);
    SplitThree(hs, ms, ss, ':');
    ParseIntDigits(hs);
    ParseIntDigits(ms);
    ParseFloatDigits(ss);
    Timecode.ConvertParts(x, hs, ms, ss);
  }

  /**
   * Round trip: for `n >= 0`, reading the `HH:MM:SS` text back with
   * `timecode_to_seconds` gives `n` again.
   */
  lemma FormatHmsRoundTrip(n: int)
    requires n >= 0
    ensures Timecode.TimecodeToSeconds(FormatHms(n)) == Some(n as real)
  {
    HmsFields(n);
    var h, m, s := n / 3600, (n % 3600) / 60, n % 60;
    ReadHmsFields(h, m, s);
    SumAsReal(h, m, s, n);
  }

  lemma SumAsReal(h: int, m: int, s: int, n: int)
    requires h * 3600 + m * 60 + s == n
    ensures Timecode.HmsSeconds(h, m, s as real) == n as real
  {
  }
}
