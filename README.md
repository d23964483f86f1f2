# SoX capture progress, modelled in Dafny

This project models the progress logic of `compression/progress_lds.py`, a
helper that watches a SoX conversion of an LDS capture. SoX's status output
arrives one line at a time. The helper picks the timecode out of each line,
turns it into seconds and then into a percentage of the expected capture
length, draws a 40-cell bar, and keeps the last clipping report. The
expected length is read from the `Length (seconds):` line of a `sox ... stat`
report and corrected by `(duration / 1000) * 1.6`.

Modules:

- `Wrappers`: the `Option` type.
- `Text`: the subset of Python's string builtins the program relies on.
  - `str.strip()` with Python's whitespace set.
  - `str.split()` on one character, and the `in` substring test.
  - `int()` and `float()` on ASCII digit strings.
  - Decimal rendering and `:3d` right alignment.
- `Timecode`: `parse_sox_timecode` as a position-by-position scanner over the
  line, checked against a declarative "leftmost occurrence" reference
  definition. Also `timecode_to_seconds` and the hundredths view of a
  timecode.
- `Clock`: `int()` truncation and `format_hms`.
- `StatReport`: `extract_duration_from_stat` over the report's lines, the
  duration correction of `main`, and the size projection of `generate_stat`.
- `Monitor`: the loop of `monitor_sox_progress` as a method over the input
  lines. It also covers the per-line progress frame, the bar, and the final
  clipping summary.

Python floats are modelled as Dafny `real`. Integers are unbounded, as in
Python.

Behaviours of the code that the model keeps:

- The code only clamps the percentage from above, with
  `min(corrected / expected, 1.0)`. It has no guard for an expected length of
  zero or below:
  - an expected length of zero raises a division error on the first
    timecode line that converts, so the model requires `expected != 0.0`;
  - a negative expected length gives a negative percentage, which the model
    keeps.
- The percentage text comes right after the `#` cells, followed by the
  blank cells.
- A missing or unreadable report and a report without the marker both give
  `None`. The code does not tell them apart.

## Model

| member | source | states |
|---|---|---|
| Text.Strip | compression/progress_lds.py:49 | `str.strip()`: `TrimEnd` after `TrimStart`. No contract of its own; stated by `Text.StripSpec`, `Text.StripIdempotent` and `Text.StripNoSpace`. |
| Text.Contains | compression/progress_lds.py:31 | The substring test `p in s`. No contract of its own; stated by `Text.ContainsIff`. |
| Text.IntToString | compression/progress_lds.py:63 | `str()` of an integer. For x >= 0 the result is a non-empty digit string whose value is x and which has no leading zero unless it is `0`. For x < 0 it is `-` followed by such a digit string, not starting with `0`, whose value is -x. |
| Text.ParseInt | compression/progress_lds.py:16 | `int()` on (padded) ASCII digits, None on anything else. No contract of its own; stated by `Text.ParseIntDigits` and `Text.ParseIntRightAligned`. |
| Text.ParseFloat | compression/progress_lds.py:16 | `float()` on (padded) ASCII decimals, None on anything else. No contract of its own; stated by `Text.ParseFloatDigits` and `Text.ParseFloatDecimal`. |
| Text.StripSpec | compression/progress_lds.py:49 | `strip()` returns the contiguous middle of the line. Everything cut off before and after it is whitespace, and the result neither starts nor ends with whitespace. |
| Text.StripIdempotent | compression/progress_lds.py:49 | Stripping an already stripped line changes nothing. |
| Text.StripNoSpace | compression/progress_lds.py:49 | A line without whitespace is left unchanged. |
| Text.TrimStartSpec | compression/progress_lds.py:49 | The leading part `strip()` removes is whitespace, and what remains does not start with whitespace. |
| Text.TrimEndSpec | compression/progress_lds.py:49 | The trailing part `strip()` removes is whitespace, and what remains does not end with whitespace. |
| Text.Split | compression/progress_lds.py:15 | `split(sep)` gives one more part than there are separators, and no part contains the separator. |
| Text.JoinSplit | compression/progress_lds.py:15 | Joining the parts of a split with the separator gives back the original text. |
| Text.SplitJoin | compression/progress_lds.py:15 | Splitting a join of separator-free parts gives back the parts. |
| Text.SplitNoSep | compression/progress_lds.py:32 | A text without the separator splits into itself alone. |
| Text.SplitAfter | compression/progress_lds.py:32 | A separator-free prefix followed by the separator becomes the first part, and splitting continues after it. |
| Text.SplitThree | compression/progress_lds.py:15 | Three separator-free texts joined by the separator split back into exactly those three parts. |
| Text.ContainsIff | compression/progress_lds.py:31 | The substring test holds exactly when the pattern occurs at some index. |
| Text.ContainsPrefix | compression/progress_lds.py:31 | A text that starts with the pattern contains it. |
| Text.NatToString | compression/progress_lds.py:25 | Decimal rendering is a non-empty digit string without a leading zero, and its value is the number. |
| Text.NatToStringLength | compression/progress_lds.py:63 | The rendering fits in k columns exactly when the number is below 10^k. |
| Text.DigitsValueBound | compression/progress_lds.py:16 | A string of n digits has a value below 10^n. |
| Text.DigitsValueLeadingZero | compression/progress_lds.py:16 | Leading zeros do not change the value of a digit string. |
| Text.RightAlign | compression/progress_lds.py:63 | Right alignment to width w pads with blanks on the left up to w and keeps the text as its suffix. |
| Text.ParseIntRightAligned | compression/progress_lds.py:63 | `int()` reads a right-aligned number back as its value. |
| Text.ParseIntDigits | compression/progress_lds.py:16 | `int()` of a digit string is its decimal value. |
| Text.ParseFloatDigits | compression/progress_lds.py:16 | `float()` of a digit string without a point is its decimal value. |
| Text.ParseFloatDecimal | compression/progress_lds.py:16 | `float()` of `ip.fp` is `ip + fp / 10^len(fp)`. |
| Timecode.MatchAt | compression/progress_lds.py:10 | The pattern tried at one index: `%`, a whitespace run, one to three hour digits and `:mm:ss.ff`, a whitespace run, `[`. No contract of its own; stated by `Timecode.MatchAtSound`, `Timecode.MatchAtComplete` and `Timecode.MatchAtNone`. |
| Timecode.ScanFrom | compression/progress_lds.py:10-11 | `re.search`: every index from i on, left to right. No contract of its own; stated by `Timecode.ScanFromSpec`. |
| Timecode.ParseSoxTimecode | compression/progress_lds.py:9-11 | `parse_sox_timecode`: the group of the leftmost match, or None. No contract of its own; stated by `Timecode.ParseSoxTimecodeSpec`. |
| Timecode.TimecodeToSeconds | compression/progress_lds.py:13-18 | `timecode_to_seconds`: exactly three `:` parts through `int`, `int` and `float`, else None. No contract of its own; stated by `Timecode.TimecodeToSecondsWellFormed`, `Timecode.TimecodeNeedsTwoColons` and `Clock.FormatHmsRoundTrip`. |
| Timecode.HmsSeconds | compression/progress_lds.py:16 | `h * 3600 + m * 60 + s`. No contract of its own; stated by `Timecode.HundredthsReal`. |
| Timecode.SkipSpaces | compression/progress_lds.py:10 | The `\s+` step stops at the first non-whitespace character and crosses only whitespace. |
| Timecode.SkipDigits | compression/progress_lds.py:10 | The digit-run step stops at the first non-digit and crosses only digits. |
| Timecode.MatchAtSound | compression/progress_lds.py:10-11 | A timecode the scanner accepts at position i is a real occurrence: `%`, whitespace, `D{1,3}:DD:DD.DD`, whitespace, `[`. |
| Timecode.MatchAtComplete | compression/progress_lds.py:10-11 | Every occurrence starting at i is found by the scanner at i, with that timecode. |
| Timecode.MatchAtUnique | compression/progress_lds.py:10 | At most one timecode can occur at a given position. |
| Timecode.MatchAtNone | compression/progress_lds.py:10-11 | When the scanner rejects position i, no occurrence starts there. |
| Timecode.ScanFromSpec | compression/progress_lds.py:10-11 | Scanning from i returns the group of the leftmost occurrence at or after i, or None when there is none. |
| Timecode.ParseSoxTimecodeSpec | compression/progress_lds.py:9-11 | The result is a well-formed timecode and the group of the leftmost occurrence in the line. The result is None exactly when the line holds no occurrence. |
| Timecode.ParseWrapped | compression/progress_lds.py:9-11 | `% <t> [` yields `t` for every well-formed timecode `t`. |
| Timecode.ParseNeedsPercent | compression/progress_lds.py:10 | A line without `%` yields None. |
| Timecode.TimecodeNeedsTwoColons | compression/progress_lds.py:14-18 | A text with other than exactly two colons converts to None. |
| Timecode.SplitTimecode | compression/progress_lds.py:15 | A well-formed timecode splits on `:` into its hour, minute and `ss.ff` fields. |
| Timecode.FieldsParse | compression/progress_lds.py:15-16 | Each of the three fields parses, as `int()` or `float()`, to its digit value. |
| Timecode.ConvertParts | compression/progress_lds.py:15-16 | Helper for `Timecode.TimecodeToSecondsWellFormed`: when the three parts parse, the result is `h*3600 + m*60 + s`. |
| Timecode.TimecodeToSecondsWellFormed | compression/progress_lds.py:13-18 | A well-formed timecode `h:mm:ss.ff` converts to (h*360000 + mm*6000 + ss*100 + ff) / 100 seconds, with mm, ss and ff below 100. |
| Timecode.HundredthsReal | compression/progress_lds.py:16 | The seconds formula and the hundredths view agree. |
| Timecode.HundredthsMonotone | compression/progress_lds.py:16 | With minutes and seconds below 60, the value is monotone in the tuple (h, mm, ss, ff) ordered lexicographically. |
| Timecode.HundredthsWideMinutes | compression/progress_lds.py:10 | The scanner allows minute fields up to 99. `0:99:00.00` is then worth more than `1:00:00.00`, so the lexicographic order needs minutes below 60. |
| Timecode.HundredthsFieldwise | compression/progress_lds.py:16 | The value is monotone in each field. |
| Clock.Pad2 | compression/progress_lds.py:25 | `f"{x:02}"`. No contract of its own; stated by `Clock.Pad2Digits`. |
| Clock.FormatHms | compression/progress_lds.py:22-25 | `format_hms` after `int()`: hours, minutes and seconds through `:02`, joined by `:`. No contract of its own; stated by `Clock.HmsFields`, `Clock.FormatHmsLength`, `Clock.FormatHmsNegative` and `Clock.FormatHmsRoundTrip`. |
| Clock.FormatHmsReal | compression/progress_lds.py:20-25 | `format_hms` on a float: `Clock.Trunc` first. No contract of its own; stated through `Clock.FormatHms` and by `Monitor.ElapsedTextRoundTrip`. |
| Clock.Trunc | compression/progress_lds.py:21 | `int()` on a float truncates toward zero. |
| Clock.HmsFields | compression/progress_lds.py:22-24 | h*3600 + m*60 + s equals n, with 0 <= m < 60 and 0 <= s < 60. For n >= 0 the hours lie between 0 and n, and for n < 0 they are negative. |
| Clock.Pad2Digits | compression/progress_lds.py:25 | `:02` renders a natural number as at least two digits with that value, and exactly two below 100. |
| Clock.FormatHmsLength | compression/progress_lds.py:20-25 | For n >= 0 the output has length 8 below 360000 seconds and widens beyond that. |
| Clock.FormatHmsNegative | compression/progress_lds.py:20-25 | A negative input renders with a leading `-`. |
| Clock.ReadHmsFields | compression/progress_lds.py:13-25 | Three padded fields joined by `:` convert back to `h*3600 + m*60 + s`. |
| Clock.FormatHmsRoundTrip | compression/progress_lds.py:13-25 | For n >= 0, `timecode_to_seconds(format_hms(n))` is n. |
| StatReport.LengthField | compression/progress_lds.py:32 | Field `[1]` of the stripped line split on `:`, through `float()`. No contract of its own; stated by `StatReport.LengthLineField` and `StatReport.MarkerLineSplit`. |
| StatReport.FirstLength | compression/progress_lds.py:30-32 | The search loop: the first line holding the marker decides. No contract of its own; stated by `StatReport.FirstLengthSpec` and `StatReport.FirstLengthIgnoresLater`. |
| StatReport.ExtractDurationFromStat | compression/progress_lds.py:27-35 | `extract_duration_from_stat` on the report's lines, or None when it cannot be read. No contract of its own; stated by `StatReport.FirstLengthSpec`, `StatReport.MissingReport` and `StatReport.ReportLengthLine`. |
| StatReport.FirstLengthSpec | compression/progress_lds.py:27-35 | The result is the field of the first line holding `Length (seconds):`, or None when no line holds it. |
| StatReport.FirstLengthIgnoresLater | compression/progress_lds.py:30-32 | Once a marker line exists, lines appended after it do not change the result. |
| StatReport.MissingReport | compression/progress_lds.py:28-35 | Helper, one unfolding of `StatReport.ExtractDurationFromStat`: an unreadable report gives None. |
| StatReport.ReportLengthLine | compression/progress_lds.py:27-35 | For a report whose first marker line is `Length (seconds):` + blanks + `ip.fp`, the result is `ip + fp / 10^len(fp)`. |
| StatReport.LengthLineField | compression/progress_lds.py:32 | On such a line, field `[1]` of the stripped line parses to that number. |
| StatReport.MarkerLineSplit | compression/progress_lds.py:32 | On a marker line followed by colon-free text ending in a non-blank, field `[1]` is that text. |
| StatReport.PaddedNumber | compression/progress_lds.py:32 | `float()` ignores the blanks before a decimal number. |
| StatReport.CorrectedDuration | compression/progress_lds.py:146 | The corrected duration times 625 is the report's length. |
| StatReport.CorrectedDurationMonotone | compression/progress_lds.py:146 | The correction keeps order, and keeps a positive length positive. |
| StatReport.EstimatedStatDuration | compression/progress_lds.py:99-100 | The estimate times the speed times 2^20 gives back the file size in bytes. |
| StatReport.EstimatedStatDurationExample | compression/progress_lds.py:96-100 | At the default 258 MiB/s, 2580 MiB are projected to take 10 seconds. |
| Monitor.Min | compression/progress_lds.py:57 | `min` on floats. No contract of its own; stated by `Monitor.PercentBounds`. |
| Monitor.Percent | compression/progress_lds.py:57 | `min(corrected / expected, 1.0)`. No contract of its own; stated by `Monitor.PercentBounds` and `Monitor.PercentMonotone`. |
| Monitor.Filled | compression/progress_lds.py:61 | `int(percent * 40)`. No contract of its own; stated by `Monitor.FilledBounds` and `Monitor.FilledMonotone`. |
| Monitor.PercentText | compression/progress_lds.py:63 | `percent_str`. No contract of its own; stated by `Monitor.PercentTextShape`. |
| Monitor.ElapsedText | compression/progress_lds.py:64 | `elapsed_str`. No contract of its own; stated by `Monitor.ElapsedTextRoundTrip`. |
| Monitor.Cells | compression/progress_lds.py:66 | The bar around a given text. No contract of its own; stated by `Monitor.CellsLayout`. |
| Monitor.Bar | compression/progress_lds.py:66 | `bar`. No contract of its own; stated by `Monitor.FrameBar` and `Monitor.BarShape`. |
| Monitor.ProgressFrame | compression/progress_lds.py:56-62 | The numbers computed from one converted timecode: corrected time, percentage, filled and empty cells. No contract of its own; stated by `Monitor.FrameShape` and `Monitor.FrameMonotone`. |
| Monitor.LineFrame | compression/progress_lds.py:52-66 | The effect of one stripped line on the progress state: a frame when its timecode is found and converts, else None. No contract of its own; stated by `Monitor.LineFrameIffTimecode` and `Monitor.WrappedLineFrame`. |
| Monitor.LastFrame | compression/progress_lds.py:48-66 | The frame of the last line that produced one. No contract of its own; stated by `Monitor.LastFrameSpec`. |
| Monitor.LastClipped | compression/progress_lds.py:74-75 | The last line holding `Clipped samples:`. No contract of its own; stated by `Monitor.LastClippedSpec` and `Monitor.LastClippedAt`. |
| Monitor.Summary | compression/progress_lds.py:82-85 | The final message: the kept line when it is non-empty, else "No clipping detected.". No contract of its own; stated by `Monitor.SummaryCases`. |
| Monitor.Repeat | compression/progress_lds.py:66 | `c * n` has n copies of c, and none when n <= 0. |
| Monitor.MonitorSoxProgress | compression/progress_lds.py:48-85 | After the loop: `full_output` is the stripped input lines in order; `clipped_samples` is the last of them holding `Clipped samples:`; the progress state is the frame of the last line that had one; the summary is the clipping line when one was kept and "No clipping detected." otherwise. The loop invariants keep all of this for every prefix of the input. |
| Monitor.LastClippedSpec | compression/progress_lds.py:74-75 | The kept clipping line holds the marker and no later line does. It is None exactly when no line holds the marker. |
| Monitor.LastClippedAt | compression/progress_lds.py:74-75 | The last line holding the marker is the one kept, whatever came before it. |
| Monitor.LastClippedSnoc | compression/progress_lds.py:74-75 | One more line replaces the kept line exactly when it holds the marker. |
| Monitor.SummaryCases | compression/progress_lds.py:82-85 | The summary is either the kept clipping line, which holds the marker, or "No clipping detected.". |
| Monitor.LastSomeSpec | compression/progress_lds.py:52-75 | An overwritten variable ends with the last value written, and stays None when nothing was written. |
| Monitor.LastSomeAtSpec | compression/progress_lds.py:52-75 | The last value written is what the variable holds at the end. |
| Monitor.LastSomeSnoc | compression/progress_lds.py:52-75 | Helper for `Monitor.LastSomeSpec`: one more step overwrites the variable when it writes a value and leaves it unchanged otherwise. |
| Monitor.LineFramesSnoc | compression/progress_lds.py:52-66 | Helper for the loop and `Monitor.LastFrameSpec`: a line without a timecode, or whose timecode does not convert, leaves the progress state unchanged. A line with one replaces it. |
| Monitor.LastFrameSpec | compression/progress_lds.py:52-66 | The final progress state is the frame of the last line that produced one, and None exactly when no line did. |
| Monitor.LineFrameIffTimecode | compression/progress_lds.py:52-57 | A line produces a frame exactly when the scanner finds a timecode in it. The frame is computed from that timecode's value, because every timecode the scanner returns converts. |
| Monitor.FrameShape | compression/progress_lds.py:56-62 | With expected > 0 and elapsed >= 0: corrected = elapsed / 1000 and percent = min(corrected / expected, 1) lies in [0, 1]. Percent reaches 1 exactly when corrected >= expected. filled = int(percent * 40) lies in [0, 40], and filled + empty = 40. |
| Monitor.PercentBounds | compression/progress_lds.py:57 | The percentage lies in [0, 1] and is 1 exactly when the time is up. Below that it is corrected / expected. |
| Monitor.PercentTextShape | compression/progress_lds.py:63 | For percent in [0, 1], `percent_str` has 4 characters and ends in `%`, and its first three read back as `int(percent * 100)`. |
| Monitor.BarShape | compression/progress_lds.py:61-66 | The bar has 46 characters: `[`, then `filled` cells of `#`, then `percent_str`, then `empty` blanks, then `]` (the predicate `Monitor.BarLayout`). |
| Monitor.FrameBar | compression/progress_lds.py:66 | The same layout holds for any frame whose cells add up to 40 and whose percentage is in [0, 1]. |
| Monitor.CellsLayout | compression/progress_lds.py:66 | The same layout holds for a 4-character text between `filled` and `40 - filled` cells. |
| Monitor.ElapsedTextRoundTrip | compression/progress_lds.py:64 | `elapsed_str` converts back to the corrected elapsed time truncated to whole seconds. |
| Monitor.FrameMonotone | compression/progress_lds.py:56-61 | A later timecode never lowers the percentage or the number of filled cells. |
| Monitor.ThreeLineSession | compression/progress_lds.py:48-85 | In a session of a frame line, a line without a frame and another frame line, the last frame is the one kept. Lines shorter than the marker report no clipping. |
| Monitor.WrappedLineFrame | compression/progress_lds.py:52-57 | `% <t> [` produces the frame of the value of `t`. |
| Monitor.SessionNumbers | compression/progress_lds.py:56-62 | With 10 s expected, `0:00:05.00` and `0:00:10.00` give 0.0005 and 0.001 complete, with no cell filled. |
| Monitor.SessionNoClipping | compression/progress_lds.py:74-85 | Lines shorter than `Clipped samples:` leave the summary at "No clipping detected.". |

## Left out

- Terminal I/O: reading `sys.stdin`, every `print` with its `\r` overwrite, the "Capture length" header (:46) and the final full-bar line (:77-80). The input is a sequence of lines, and the printed texts are modelled only as `Monitor.Bar`, `Monitor.PercentText` and `Monitor.ElapsedText`.
- The clock: `time.time()`, the wall time and the ETA (:41, :58-59, :77). They depend on the clock, so they are not modelled.
- Files: opening and reading the stat report (:28-30) is replaced by an optional sequence of lines, where absent means the file could not be read. Writing the session log (:87-93) is modelled as the returned `full_output`. The error messages are not modelled.
- `generate_stat` (:96-119): the file size query, the shell `sox` process, the `tqdm` bar and the polling loop are process plumbing. Only the projection of :99-100 is modelled. Line 113 assigns the `min` of two formatted strings to a numeric progress counter, which the model does not reproduce.
- `main` (:121-155): argument parsing, `sys.exit` and file-name mangling. Only the correction of :146 is modelled.
- Floating point: reals stand in for floats, so rounding is not modelled. For example, `int(0.29 * 100)` is 28 in Python but 29 in reals.
- Text.ParseInt: models `int()` only on optional surrounding whitespace and ASCII digits. Signs, `_` separators and non-ASCII digits are rejected, where Python accepts them.
- Text.ParseFloat: models `float()` only on optional surrounding whitespace, ASCII digits and at most one point. Signs, exponents, `inf`, `nan` and `_` are rejected, where Python accepts them. The timecode path only ever passes digit strings from the scanner.
- Timecode.ParseSoxTimecode: `\d` is taken as the ASCII digits, whereas Python's `re` also accepts other Unicode decimal digits.
- Monitor.MonitorSoxProgress: requires `expected != 0.0`, because the division at :57 fails at zero. The code divides only when a timecode line converts (:53-57), so a zero-length session in which no line converts finishes normally (header at :46, summary at :82-85, log at :87-93); the requirement leaves that session out of the model too. The bar lemmas assume `expected > 0.0`, which holds when the report's length is positive; `main` does not check it (:140-148), and a report of `0.000000` seconds gives an expected length of zero.
