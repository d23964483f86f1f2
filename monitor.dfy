/**
 * The per-line loop of `monitor_sox_progress` without its clock and its
 * printing: every stripped status line is logged, the last clipping report is
 * kept, and each line carrying a timecode yields a new progress frame (the
 * corrected elapsed time, the clamped percentage and the 40-cell bar).
 */
module Monitor {
  import opened Wrappers
  import opened Text
  import opened Timecode
  import opened Clock

  /** Number of cells in the progress bar. */
  const BarWidth: int := 40

  /** The substring that marks SoX's clipping report. */
  const ClipMarker: string := "Clipped samples:"

  /** The final message when no clipping report was seen. */
  const NoClipping: string := "No clipping detected."

  /**
   * The numbers the loop computes from one line that carries a timecode; the
   * texts it prints are rendered from them by `PercentText`, `ElapsedText`
   * and `Bar`.
   */
  datatype Frame = Frame(
    corrected: real,  // corrected_elapsed
    percent: real,    // percent
    filled: int,      // filled
    empty: int)       // empty

  /** Python's `min(a, b)` on floats. */
  function Min(a: real, b: real): real {
    if b < a then b else a
  }

  /** Python's `c * n` for a one-character string: empty when `n <= 0`. */
  function Repeat(c: char, n: int): (r: string)
    ensures |r| == (if n > 0 then n else 0)
    ensures forall i :: 0 <= i < |r| ==> r[i] == c
  {
    if n <= 0 then [] else seq(n, _ => c)
  }

  /** `f"{int(percent * 100):3d}%"`. */
  function PercentText(percent: real): string {
    RightAlign(IntToString(Trunc(percent * 100.0)), 3) + "%"
  }

  /** `min(corrected_elapsed / expected_duration, 1.0)`. */
  function Percent(expected: real, corrected: real): real
    requires expected != 0.0
  {
    Min(corrected / expected, 1.0)
  }

  /** The number of `#` cells: `int(percent * 40)`. */
  function Filled(percent: real): int {
    Trunc(percent * BarWidth as real)
  }

  /** `bar`: `"[" + "#" * filled + percent_str + " " * empty + "]"`. */
  function Bar(f: Frame): string {
    Cells(f.filled, PercentText(f.percent), f.empty)
  }

  /** `text` between `filled` cells of `#` and `empty` blanks, in brackets. */
  function Cells(filled: int, text: string, empty: int): string {
    "[" + Repeat('#', filled) + text + Repeat(' ', empty) + "]"
  }

  /** `elapsed_str`: the corrected elapsed time as `H:MM:SS`. */
  function ElapsedText(f: Frame): string {
    FormatHmsReal(f.corrected)
  }

  /** The frame the loop body computes from the parsed timecode seconds `elapsed`. */
  function ProgressFrame(expected: real, elapsed: real): Frame
    requires expected != 0.0
  {
    var corrected := elapsed / 1000.0;
    var percent := Percent(expected, corrected);
    var filled := Filled(percent);
    Frame(corrected, percent, filled, BarWidth - filled)
  }

  /**
   * The effect of one stripped line on the progress state: a new frame when
   * it carries a timecode that converts, None (state unchanged) otherwise.
   */
  function LineFrame(expected: real, line: string): Option<Frame>
    requires expected != 0.0
  {
    var tc := ParseSoxTimecode(line);
    if tc.Some? && tc.value != "" then
      var elapsed := TimecodeToSeconds(tc.value);
      if elapsed.Some? then Some(ProgressFrame(expected, elapsed.value)) else None
    else None
  }

  /** The effect of each line on the progress state, in order. */
  function LineFrames(expected: real, lines: seq<string>): seq<Option<Frame>>
    requires expected != 0.0
  {
    seq(|lines|, i requires 0 <= i < |lines| => LineFrame(expected, lines[i]))
  }

  /** The last present entry: the value that survives a run of overwrites. */
  function LastSome<T>(xs: seq<Option<T>>): Option<T> {
    if |xs| == 0 then None
    else if xs[|xs| - 1].Some? then xs[|xs| - 1]
    else LastSome(xs[..|xs| - 1])
  }

  /** The frame of the last line that produced one. */
  function LastFrame(expected: real, lines: seq<string>): Option<Frame>
    requires expected != 0.0
  {
    LastSome(LineFrames(expected, lines))
  }

  /** The effect of one stripped line on `clipped_samples`: the line itself when it holds the marker. */
  function LineClip(line: string): Option<string> {
    if Contains(line, ClipMarker) then Some(line) else None
  }

  /** The effect of each line on `clipped_samples`, in order. */
  function LineClips(lines: seq<string>): seq<Option<string>> {
    seq(|lines|, i requires 0 <= i < |lines| => LineClip(lines[i]))
  }

  /** The last line holding the clipping marker. */
  function LastClipped(lines: seq<string>): Option<string> {
    LastSome(LineClips(lines))
  }

  /** The final `[INFO]` message: the clipping line if one is set and non-empty, else the default. */
  function Summary(clipped: Option<string>): string {
    if clipped.Some? && clipped.value != "" then clipped.value else NoClipping
  }

  /**
   * `monitor_sox_progress` over the whole input: returns the session log
   * `full_output`, the retained clipping line, the progress state after the
   * last line, and the final clipping summary.
   */
  method MonitorSoxProgress(expected: real, input: seq<string>)
    returns (fullOutput: seq<string>, clipped: Option<string>, progress: Option<Frame>, summary: string)
    requires expected != 0.0
    ensures |fullOutput| == |input|
    ensures forall i :: 0 <= i < |input| ==> fullOutput[i] == Strip(input[i])
    ensures clipped == LastClipped(fullOutput)
    ensures progress == LastFrame(expected, fullOutput)
    ensures clipped.Some? ==> summary == clipped.value && Contains(summary, ClipMarker)
    ensures clipped.None? ==> summary == NoClipping
  {
    fullOutput, clipped, progress := [], None, None;
    var k := 0;
    while k < |input|
      invariant 0 <= k <= |input|
      invariant |fullOutput| == k
      invariant forall i :: 0 <= i < k ==> fullOutput[i] == Strip(input[i])
      invariant clipped == LastClipped(fullOutput)
      invariant progress == LastFrame(expected, fullOutput)
    {
      var line := Strip(input[k]);
      ghost var before := fullOutput;
      fullOutput := fullOutput + [line];
      LineFramesSnoc(expected, before, line);
      LastClippedSnoc(before, line);
      var frame := LineFrame(expected, line);
      if frame.Some? {
        progress := frame;
      }
      if Contains(line, ClipMarker) {
        clipped := Some(line);
      }
      k := k + 1;
    }
    SummaryCases(fullOutput);
    summary := if clipped.Some? && clipped.value != "" then clipped.value else NoClipping;
    assert summary == Summary(clipped);
  }

  // ---------------------------------------------------------------- properties

  /** Entry `i` is present and no later entry is. */
  ghost predicate LastSomeAt<T>(xs: seq<Option<T>>, i: int) {
    0 <= i < |xs| && xs[i].Some? && forall j :: i < j < |xs| ==> xs[j].None?
  }

  /**
   * `LastClipped` is a line holding the marker with no such line after it,
   * and None exactly when no line holds the marker.
   */
  lemma LastClippedSpec(lines: seq<string>)
    ensures LastClipped(lines).Some? ==> exists i ::
      LastSomeAt(LineClips(lines), i) && lines[i] == LastClipped(lines).value && Contains(lines[i], ClipMarker)
    ensures LastClipped(lines).None? <==> forall i :: 0 <= i < |lines| ==> !Contains(lines[i], ClipMarker)
  {
    var cs := LineClips(lines);
    LastSomeSpec(cs);
    assert forall i :: 0 <= i < |lines| ==> (cs[i].None? <==> !Contains(lines[i], ClipMarker));
  }

  /** A clipping report replaces every earlier one: the last line holding the marker wins. */
  lemma LastClippedAt(lines: seq<string>, i: int)
    requires 0 <= i < |lines| && Contains(lines[i], ClipMarker)
    requires forall j :: i < j < |lines| ==> !Contains(lines[j], ClipMarker)
    ensures LastClipped(lines) == Some(lines[i])
  {
    var cs := LineClips(lines);
    assert LastSomeAt(cs, i);
    LastSomeAtSpec(cs, i);
  }

  /** The final summary is always either the retained clipping line or the default message. */
  lemma SummaryCases(lines: seq<string>)
    ensures LastClipped(lines).Some? ==>
      Summary(LastClipped(lines)) == LastClipped(lines).value && Contains(LastClipped(lines).value, ClipMarker)
    ensures LastClipped(lines).None? ==> Summary(LastClipped(lines)) == NoClipping
  {
    LastClippedSpec(lines);
    if LastClipped(lines).Some? {
      ContainsIff(LastClipped(lines).value, ClipMarker);
    }
  }

  /** `LastSome` is the last present entry, and None exactly when none is present. */
  lemma {:induction false} LastSomeSpec<T>(xs: seq<Option<T>>)
    ensures LastSome(xs).Some? ==> exists i :: LastSomeAt(xs, i) && xs[i] == LastSome(xs)
    ensures LastSome(xs).None? <==> forall i :: 0 <= i < |xs| ==> xs[i].None?
  {
    if |xs| > 0 {
      var init := xs[..|xs| - 1];
      LastSomeSpec(init);
      assert forall i :: 0 <= i < |init| ==> init[i] == xs[i];
    }
  }

  /** A present entry with nothing present after it is what `LastSome` returns. */
  lemma {:induction false} LastSomeAtSpec<T>(xs: seq<Option<T>>, i: int)
    requires LastSomeAt(xs, i)
    ensures LastSome(xs) == xs[i]
  {
    if i < |xs| - 1 {
      var init := xs[..|xs| - 1];
      assert LastSomeAt(init, i);
      LastSomeAtSpec(init, i);
    }
  }

  /** One more line appends its effect; the last frame is its frame if it has one. */
  lemma LineFramesSnoc(expected: real, lines: seq<string>, line: string)
    requires expected != 0.0
    ensures LineFrames(expected, lines + [line]) == LineFrames(expected, lines) + [LineFrame(expected, line)]
    ensures LastFrame(expected, lines + [line]) ==
      if LineFrame(expected, line).Some? then LineFrame(expected, line) else LastFrame(expected, lines)
  {
    assert LineFrames(expected, lines + [line]) == LineFrames(expected, lines) + [LineFrame(expected, line)];
    LastSomeSnoc(LineFrames(expected, lines), LineFrame(expected, line));
  }

  /** One more line replaces the clipping line exactly when it holds the marker. */
  lemma LastClippedSnoc(lines: seq<string>, line: string)
    ensures LastClipped(lines + [line]) ==
      if Contains(line, ClipMarker) then Some(line) else LastClipped(lines)
  {
    assert LineClips(lines + [line]) == LineClips(lines) + [LineClip(line)];
    LastSomeSnoc(LineClips(lines), LineClip(line));
  }

  /** Appending an entry: a present one overwrites, an absent one keeps the old value. */
  lemma LastSomeSnoc<T>(xs: seq<Option<T>>, x: Option<T>)
    ensures LastSome(xs + [x]) == if x.Some? then x else LastSome(xs)
  {
    assert (xs + [x])[..|xs|] == xs;
  }

  /**
   * `LastFrame` is the frame of the last line that produced one (the entry
   * `i` of `LineFrames` present with none present after it), and None exactly
   * when no line did.
   */
  lemma LastFrameSpec(expected: real, lines: seq<string>)
    requires expected != 0.0
    ensures var fs := LineFrames(expected, lines);
      |fs| == |lines| && forall i :: 0 <= i < |lines| ==> fs[i] == LineFrame(expected, lines[i])
    ensures LastFrame(expected, lines).Some? ==> exists i ::
      LastSomeAt(LineFrames(expected, lines), i) && LineFrames(expected, lines)[i] == LastFrame(expected, lines)
    ensures LastFrame(expected, lines).None? <==> forall i :: 0 <= i < |lines| ==> LineFrames(expected, lines)[i].None?
  {
    LastSomeSpec(LineFrames(expected, lines));
  }

  /**
   * A line changes the progress state exactly when it carries a timecode:
   * every timecode the scanner returns converts, to its value.
   */
  lemma LineFrameIffTimecode(expected: real, line: string)
    requires expected != 0.0
    ensures LineFrame(expected, line).Some? <==> ParseSoxTimecode(line).Some?
    ensures ParseSoxTimecode(line).Some? ==>
      IsTimecode(ParseSoxTimecode(line).value) &&
      LineFrame(expected, line) == Some(ProgressFrame(expected, TimecodeValue(ParseSoxTimecode(line).value)))
  {
    ParseSoxTimecodeSpec(line);
    if ParseSoxTimecode(line).Some? {
      TimecodeToSecondsWellFormed(ParseSoxTimecode(line).value);
    }
  }

  /**
   * The elapsed text reads back, through the timecode conversion, as the
   * corrected elapsed time truncated to whole seconds.
   */
  lemma ElapsedTextRoundTrip(f: Frame)
    requires f.corrected >= 0.0
    ensures TimecodeToSeconds(ElapsedText(f)) == Some(Trunc(f.corrected) as real)
    ensures Trunc(f.corrected) as real <= f.corrected < Trunc(f.corrected) as real + 1.0
  {
    FormatHmsRoundTrip(Trunc(f.corrected));
  }

  /**
   * For a positive expected duration and a non-negative timecode the frame
   * has the corrected time, a percentage clamped from above at 1, and a bar
   * split into `filled + empty == 40` cells.
   */
  lemma FrameShape(expected: real, elapsed: real)
    requires expected > 0.0 && elapsed >= 0.0
    ensures var f := ProgressFrame(expected, elapsed);
      f.corrected * 1000.0 == elapsed &&
      f.percent == Min(f.corrected / expected, 1.0) &&
      0.0 <= f.percent <= 1.0 &&
      (f.percent == 1.0 <==> f.corrected >= expected) &&
      0 <= f.filled <= BarWidth && f.filled + f.empty == BarWidth &&
      f.filled as real <= f.percent * 40.0 < f.filled as real + 1.0
  {
    var c := elapsed / 1000.0;
    PercentBounds(expected, c);
    FilledBounds(Percent(expected, c));
  }

  /** The percentage is the ratio clamped from above at 1; it reaches 1 exactly when the time is up. */
  lemma PercentBounds(expected: real, corrected: real)
    requires expected > 0.0 && corrected >= 0.0
    ensures 0.0 <= Percent(expected, corrected) <= 1.0
    ensures Percent(expected, corrected) == 1.0 <==> corrected >= expected
    ensures corrected < expected ==> Percent(expected, corrected) * expected == corrected
  {
    assert corrected / expected >= 0.0;
    assert corrected >= expected ==> corrected / expected >= 1.0;
    assert corrected < expected ==> corrected / expected < 1.0;
  }

  /** A percentage in [0, 1] fills between 0 and 40 cells, `int(percent * 40)` of them. */
  lemma FilledBounds(percent: real)
    requires 0.0 <= percent <= 1.0
    ensures 0 <= Filled(percent) <= BarWidth
    ensures Filled(percent) as real <= percent * 40.0 < Filled(percent) as real + 1.0
  {
  }

  /** The percentage text is `int(percent * 100)` right-aligned in three columns, then `%`. */
  lemma PercentTextShape(percent: real)
    requires 0.0 <= percent <= 1.0
    ensures var p := Trunc(percent * 100.0);
      0 <= p <= 100 && |PercentText(percent)| == 4 && PercentText(percent)[3] == '%' &&
      ParseInt(PercentText(percent)[..3]) == Some(p)
  {
    var p := Trunc(percent * 100.0);
    assert 0 <= p <= 100;
    var col := RightAlign(NatToString(p), 3);
    assert col == RightAlign(IntToString(p), 3);
    assert Pow10(3) == 1000 by { assert Pow10(2) == 100 by { assert Pow10(1) == 10; } }
    RightAlignedNumber(p, 3);
    assert PercentText(percent) == col + "%";
    assert PercentText(percent)[..3] == col;
  }

  /**
   * The bar is `[`, then `filled` cells of `#`, then the percentage text, then
   * `empty` spaces, then `]`: 46 characters in all.
   */
  lemma BarShape(expected: real, elapsed: real)
    requires expected > 0.0 && elapsed >= 0.0
    ensures var f := ProgressFrame(expected, elapsed);
      0 <= f.filled <= BarWidth && BarLayout(Bar(f), f.filled, PercentText(f.percent))
  {
    FrameShape(expected, elapsed);
    FrameBar(ProgressFrame(expected, elapsed));
  }

  /**
   * The layout of a 46-character bar: `[`, then `filled` cells of `#`, then
   * `text`, then blank cells up to the closing `]` at index 45.
   */
  predicate BarLayout(bar: string, filled: int, text: string)
    requires 0 <= filled <= BarWidth
  {
    |bar| == 46 && bar[0] == '[' && bar[45] == ']' &&
    (forall i :: 1 <= i <= filled ==> bar[i] == '#') &&
    bar[filled + 1..filled + 5] == text &&
    (forall i :: filled + 5 <= i < 45 ==> bar[i] == ' ')
  }

  /** The bar of any frame with cells that add up to 40 and a percentage in [0, 1]. */
  lemma FrameBar(f: Frame)
    requires 0 <= f.filled <= BarWidth && f.empty == BarWidth - f.filled && 0.0 <= f.percent <= 1.0
    ensures BarLayout(Bar(f), f.filled, PercentText(f.percent))
  {
    var text := PercentText(f.percent);
    assert |text| == 4 by { PercentTextShape(f.percent); }
    CellsLayout(f.filled, text, f.empty);
  }

  /** The layout of 40 cells around a 4-character text. */
  lemma CellsLayout(filled: int, text: string, empty: int)
    requires 0 <= filled <= BarWidth && empty == BarWidth - filled && |text| == 4
    ensures BarLayout(Cells(filled, text, empty), filled, text)
  {
    var bar := Cells(filled, text, empty);
    var hashes, spaces := Repeat('#', filled), Repeat(' ', empty);
    forall i | 1 <= i <= filled
      ensures bar[i] == '#'
    {
      assert bar[i] == hashes[i - 1];
    }
    forall i | filled + 5 <= i < 45
      ensures bar[i] == ' '
    {
      assert bar[i] == spaces[i - filled - 5];
    }
  }

  /** More elapsed time never moves the percentage or the bar backwards. */
  lemma FrameMonotone(expected: real, elapsed: real, elapsed': real)
    requires expected > 0.0 && 0.0 <= elapsed <= elapsed'
    ensures ProgressFrame(expected, elapsed).percent <= ProgressFrame(expected, elapsed').percent
    ensures ProgressFrame(expected, elapsed).filled <= ProgressFrame(expected, elapsed').filled
  {
    var c, c' := elapsed / 1000.0, elapsed' / 1000.0;
    PercentMonotone(expected, c, c');
    PercentBounds(expected, c);
    FilledMonotone(Percent(expected, c), Percent(expected, c'));
  }

  lemma PercentMonotone(expected: real, c: real, c': real)
    requires expected > 0.0 && c <= c'
    ensures Percent(expected, c) <= Percent(expected, c')
  {
    assert c / expected <= c' / expected;
  }

  lemma FilledMonotone(p: real, p': real)
    requires 0.0 <= p <= p'
    ensures Filled(p) <= Filled(p')
  {
    assert p * 40.0 <= p' * 40.0;
  }

  /**
   * A session of three status lines: a line with a frame, a line without
   * one, another line with a frame. The third line's frame is the one that
   * remains, and lines shorter than the marker report no clipping.
   */
  lemma ThreeLineSession(expected: real, a: string, b: string, c: string)
    requires expected != 0.0
    requires LineFrame(expected, a).Some? && LineFrame(expected, b).None? && LineFrame(expected, c).Some?
    requires |a| < |ClipMarker| && |b| < |ClipMarker| && |c| < |ClipMarker|
    ensures LineFrames(expected, [a, b, c]) == [LineFrame(expected, a), None, LineFrame(expected, c)]
    ensures LastFrame(expected, [a, b, c]) == LineFrame(expected, c)
    ensures Summary(LastClipped([a, b, c])) == NoClipping
  {
    assert [a, b, c] == [a, b] + [c];
    LineFramesSnoc(expected, [a, b], c);
    SessionNoClipping(a, b, c);
  }

  /** The line `% <t> [` yields the frame of the value of the timecode `t`. */
  lemma WrappedLineFrame(expected: real, t: string)
    requires expected != 0.0 && IsTimecode(t)
    ensures LineFrame(expected, "% " + t + " [") == Some(ProgressFrame(expected, TimecodeValue(t)))
  {
    ParseWrapped(t);
    TimecodeToSecondsWellFormed(t);
  }

  /**
   * The numbers of that session for the timecodes `0:00:05.00` and
   * `0:00:10.00` and an expected duration of 10 seconds: 0.0005 and 0.001
   * complete, no `#` cell filled.
   */
  lemma SessionNumbers()
    ensures IsTimecode("0:00:05.00") && TimecodeValue("0:00:05.00") == 5.0
    ensures IsTimecode("0:00:10.00") && TimecodeValue("0:00:10.00") == 10.0
    ensures ProgressFrame(10.0, 5.0) == Frame(0.005, 0.0005, 0, 40)
    ensures ProgressFrame(10.0, 10.0) == Frame(0.01, 0.001, 0, 40)
  {
    assert DigitsValue("0") == 0;
    assert DigitsValue("00") == 0;
    assert DigitsValue("05") == 5 by { assert "05"[..1] == "0"; }
    assert DigitsValue("10") == 10 by { assert "10"[..1] == "1"; }
    assert "0:00:05.00"[..1] == "0" && "0:00:05.00"[2..4] == "00";
    assert "0:00:05.00"[5..7] == "05" && "0:00:05.00"[8..] == "00";
    assert "0:00:10.00"[..1] == "0" && "0:00:10.00"[2..4] == "00";
    assert "0:00:10.00"[5..7] == "10" && "0:00:10.00"[8..] == "00";
  }

  /** Three lines shorter than the clipping marker never report clipping. */
  lemma SessionNoClipping(a: string, b: string, c: string)
    requires |a| < |ClipMarker| && |b| < |ClipMarker| && |c| < |ClipMarker|
    ensures Summary(LastClipped([a, b, c])) == NoClipping
  {
    ContainsTooShort(a, ClipMarker);
    ContainsTooShort(b, ClipMarker);
    ContainsTooShort(c, ClipMarker);
    LastClippedSpec([a, b, c]);
  }
}
