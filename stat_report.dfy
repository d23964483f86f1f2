/**
 * Where the expected capture length comes from: `extract_duration_from_stat`
 * reads the `Length (seconds):` line of a `sox ... stat` report, the
 * correction applied to it before monitoring, and the size-based estimate
 * shown while the report is produced.
 */
module StatReport {
  import opened Wrappers
  import opened Text

  /** The marker `extract_duration_from_stat` looks for. */
  const LengthMarker: string := "Length (seconds):"

  /** The value in a report line: field `[1]` of the stripped line split on `:`, through `float()`. */
  function LengthField(line: string): Option<real> {
    var parts := Split(Strip(line), ':');
    if |parts| >= 2 then ParseFloat(parts[1]) else None
  }

  /** The search loop: the first line holding the marker decides, by its field. */
  function FirstLength(lines: seq<string>): Option<real> {
    if |lines| == 0 then None
    else if Contains(lines[0], LengthMarker) then LengthField(lines[0])
    else FirstLength(lines[1..])
  }

  /**
   * `extract_duration_from_stat`. The report is given as its lines, or as
   * None when the file could not be opened or read; every failure, like a
   * missing marker or an unparseable field, yields None.
   */
  function ExtractDurationFromStat(report: Option<seq<string>>): Option<real> {
    match report
    case None => None
    case Some(lines) => FirstLength(lines)
  }

  /** Index of the first line holding the marker, if any (the reference the search is checked against). */
  ghost predicate FirstMarkerAt(lines: seq<string>, i: int) {
    0 <= i < |lines| && Contains(lines[i], LengthMarker) &&
    forall j :: 0 <= j < i ==> !Contains(lines[j], LengthMarker)
  }

  /**
   * The result is the field of the first line holding the marker, and None
   * when no line holds it.
   */
  lemma {:induction false} FirstLengthSpec(lines: seq<string>)
    ensures forall i :: FirstMarkerAt(lines, i) ==> FirstLength(lines) == LengthField(lines[i])
    ensures (forall i :: 0 <= i < |lines| ==> !Contains(lines[i], LengthMarker)) ==> FirstLength(lines) == None
  {
    if |lines| > 0 {
      FirstLengthSpec(lines[1..]);
      forall i | FirstMarkerAt(lines, i)
        ensures FirstLength(lines) == LengthField(lines[i])
      {
        if i > 0 {
          assert FirstMarkerAt(lines[1..], i - 1);
        }
      }
      if forall i :: 0 <= i < |lines| ==> !Contains(lines[i], LengthMarker) {
        assert forall i :: 0 <= i < |lines| - 1 ==> lines[1..][i] == lines[i + 1];
      }
    }
  }

  /** Lines after the first marker line do not affect the result. */
  lemma {:induction false} FirstLengthIgnoresLater(lines: seq<string>, later: seq<string>)
    requires exists i :: 0 <= i < |lines| && Contains(lines[i], LengthMarker)
    ensures FirstLength(lines + later) == FirstLength(lines)
  {
    if !Contains(lines[0], LengthMarker) {
      assert (lines + later)[1..] == lines[1..] + later;
      var i :| 0 <= i < |lines| && Contains(lines[i], LengthMarker);
      assert lines[1..][i - 1] == lines[i];
      FirstLengthIgnoresLater(lines[1..], later);
    } else {
      assert (lines + later)[0] == lines[0];
    }
  }

  /** A report that could not be read gives no duration. */
  lemma MissingReport()
    ensures ExtractDurationFromStat(None) == None
  {
  }

  /**
   * A report line `Length (seconds):   ip.fp`, after any lines without the
   * marker, yields the decimal value `ip.fp`.
   */
  lemma ReportLengthLine(before: seq<string>, pad: string, ip: string, fp: string, after: seq<string>)
    requires forall i :: 0 <= i < |before| ==> !Contains(before[i], LengthMarker)
    requires |pad| >= 1 && forall k :: 0 <= k < |pad| ==> pad[k] == ' '
    requires AllDigits(ip) && AllDigits(fp) && |ip| + |fp| >= 1
    ensures ExtractDurationFromStat(Some(before + [LengthMarker + pad + ip + "." + fp] + after)) ==
      Some(DecimalValue(ip, fp))
  {
    var line := LengthMarker + pad + ip + "." + fp;
    var lines := before + [line] + after;
    ContainsPrefix(LengthMarker, pad + ip + "." + fp);
    assert line == LengthMarker + (pad + ip + "." + fp);
    assert FirstMarkerAt(lines, |before|) by {
      assert forall j :: 0 <= j < |before| ==> lines[j] == before[j];
    }
    FirstLengthSpec(lines);
    LengthLineField(pad, ip, fp);
  }

  /** The field of a marker line followed by padding and a decimal number. */
  lemma LengthLineField(pad: string, ip: string, fp: string)
    requires |pad| >= 1 && forall k :: 0 <= k < |pad| ==> pad[k] == ' '
    requires AllDigits(ip) && AllDigits(fp) && |ip| + |fp| >= 1
    ensures LengthField(LengthMarker + pad + ip + "." + fp) == Some(DecimalValue(ip, fp))
  {
    var rest := pad + ip + "." + fp;
    NoColonPadded(pad, ip, fp);
    MarkerLineSplit(rest);
    assert LengthMarker + pad + ip + "." + fp == LengthMarker + rest;
    PaddedNumber(pad, ip, fp);
  }

  /** A marker line splits on `:` into the marker's text and what follows it. */
  lemma MarkerLineSplit(rest: string)
    requires ':' !in rest && |rest| >= 1 && !IsSpace(rest[|rest| - 1])
    ensures LengthField(LengthMarker + rest) == ParseFloat(rest)
  {
    var head := "Length (seconds)";
    var line := LengthMarker + rest;
    assert line == head + [':'] + rest;
    assert ':' !in head;
    StripEndsPlain(line);
    SplitAfter(head, rest, ':');
    SplitNoSep(rest, ':');
  }

  /** Padding and a decimal number hold no `:`, and the text ends in a non-space. */
  lemma NoColonPadded(pad: string, ip: string, fp: string)
    requires forall k :: 0 <= k < |pad| ==> pad[k] == ' '
    requires AllDigits(ip) && AllDigits(fp) && |ip| + |fp| >= 1
    ensures var rest := pad + ip + "." + fp;
      ':' !in rest && |rest| >= 1 && !IsSpace(rest[|rest| - 1])
  {
    var rest := pad + ip + "." + fp;
    forall k | 0 <= k < |rest|
      ensures rest[k] != ':'
    {
      if k < |pad| {
        assert rest[k] == pad[k];
      } else if k < |pad| + |ip| {
        assert rest[k] == ip[k - |pad|];
      } else if k > |pad| + |ip| {
        assert rest[k] == fp[k - |pad| - |ip| - 1];
      }
    }
    if |fp| > 0 {
      assert rest[|rest| - 1] == fp[|fp| - 1];
    }
  }

  /** `float()` of a space-padded decimal number. */
  lemma PaddedNumber(pad: string, ip: string, fp: string)
    requires forall k :: 0 <= k < |pad| ==> pad[k] == ' '
    requires AllDigits(ip) && AllDigits(fp) && |ip| + |fp| >= 1
    ensures ParseFloat(pad + ip + "." + fp) == Some(DecimalValue(ip, fp))
  {
    var num := ip + "." + fp;
    assert pad + ip + "." + fp == pad + num;
    ParseFloatDecimal(ip, fp);
    NoSpaceDecimal(ip, fp);
    StripNoSpace(num);
    StripPadded(pad, num);
  }

  lemma NoSpaceDecimal(ip: string, fp: string)
    requires AllDigits(ip) && AllDigits(fp)
    ensures NoSpace(ip + "." + fp)
  {
    var num := ip + "." + fp;
    forall k | 0 <= k < |num|
      ensures !IsSpace(num[k])
    {
      if k < |ip| {
        assert num[k] == ip[k];
      } else if k > |ip| {
        assert num[k] == fp[k - |ip| - 1];
      }
    }
  }

  /** A line whose first and last characters are not whitespace is left alone by `strip()`. */
  lemma StripEndsPlain(line: string)
    requires |line| >= 2 && !IsSpace(line[0]) && !IsSpace(line[|line| - 1])
    ensures Strip(line) == line
  {
  }

  /**
   * The correction `main` applies to the report's length before monitoring:
   * divided by 1000 and multiplied by 1.6, together a division by 625.
   */
  function CorrectedDuration(duration: real): (r: real)
    ensures r * 625.0 == duration
  {
    (duration / 1000.0) * 1.6
  }

  /** The correction keeps order and sign. */
  lemma CorrectedDurationMonotone(d: real, d': real)
    requires d <= d'
    ensures CorrectedDuration(d) <= CorrectedDuration(d')
    ensures d > 0.0 ==> CorrectedDuration(d) > 0.0
  {
  }

  /** The throughput `generate_stat` assumes unless told otherwise, in MiB per second. */
  const DefaultSpeedMBps: real := 258.0

  /**
   * The size-based estimate of `generate_stat`: the file size in MiB over the
   * assumed throughput in MiB per second.
   */
  function EstimatedStatDuration(sizeBytes: nat, speedMBps: real): (r: real)
    requires speedMBps != 0.0
    ensures r * speedMBps * 1048576.0 == sizeBytes as real
  {
    sizeBytes as real / (1024.0 * 1024.0) / speedMBps
  }

  /** At the default throughput a 2580 MiB input is projected to take ten seconds. */
  lemma EstimatedStatDurationExample()
    ensures EstimatedStatDuration(2580 * 1048576, DefaultSpeedMBps) == 10.0
  {
  }
}
