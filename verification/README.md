# countdown-cli, modelled in Dafny

countdown-cli is a terminal countdown timer. Its argument is a duration such
as `5m`, `45s` or `2m30s`. It switches the terminal to the alternate screen
and hides the cursor. Then, once per second, from the duration down to 0, it
paints the remaining time as MM:SS in large block glyphs, centred in the
terminal. On every way out it shows the cursor again and leaves the
alternate screen, including when Ctrl+C arrives during a sleep.

The model follows `src/countdown/__main__.py` part by part:

- `decimal.dfy` (module `Decimal`) holds ASCII decimal spelling and reading.
  `Digits` is `str(n)`, `ZeroPadded2` is `f"{n:02d}"` and `ValueOf` is
  `int(s)`. Reading a spelling back gives the number, and the padded form
  is shown to be `str(n)` with a leading '0' when that is one digit.
- `duration.dfy` (module `DurationParser`) models the `DURATION_RE` pattern
  as an explicit matcher (`Match`) and `duration` as `Duration`. Rejection is
  a `Result` error carrying the text, standing for the `ValueError`. The
  grammar is written out as `Spell`. The lemmas show:
  - the matcher accepts exactly the spellings of the grammar, each allowed
    one final newline, because `$` matches before a final newline;
  - the value is minutes * 60 + seconds, with no carry;
  - the groups are determined by the text.
- `glyphs.dfy` (module `Glyphs`) holds:
  - the `CHARS` table;
  - the MM:SS text (`Clock`);
  - the five glyph rows as a function (`Row`, `Banner`);
  - `get_number_lines` as the imperative `GetNumberLines`. It fills a
    five-element array with nested loops, as the source does (`FillRows`
    over the characters, `AppendGlyph` over the rows), and is proved
    equal to `Banner`.

  The lemmas prove that the table is total on digits and ':'. They also give
  the row widths (31 columns below 100 minutes), show that MM:SS reads back
  as the same number of seconds (`ReadClock` is the inverse), and show that the glyphs are drawn only
  with '█' and space.
- `screen.dfy` (module `Screen`) models `print_full_screen` as a pure
  function of the terminal width and height and the lines (`FullScreen`).
  An empty list of lines is the error `max()` raises. `ScreenRows` gives the
  layout of the painted text:
  - `(height - lines - 2) // 2` blank rows;
  - every line behind a margin of `(width - widest) // 2` spaces;
  - the final newline of `print`.

  Negative slack pads nothing, as Python's `"\n" * k` does for k < 0.
- `countdown.dfy` (module `Countdown`) models `main`. `RunCountdown` is the
  loop. It records what the program does as a trace of `Write` and `Sleep`
  events and is proved equal to `CountdownSession`. The terminal size each
  paint sees and the sleep at which a keyboard interrupt arrives are
  inputs. `Command` adds the conversion of the argument by `duration`.
- `session.dfy` (module `SessionFacts`) proves what the code and its tests
  promise about every session:
  - the set-up write comes first;
  - the frames for duration, duration - 1, … come in order, each followed by
    one second of sleep;
  - the restoring write is last and appears nowhere else;
  - seconds slept and screens cleared both equal the number of frames;
  - standard output starts with `ESC[?1049h ESC[?25l` and ends with
    `ESC[?25h ESC[?1049l`.

  It also gives every frame's row layout.

The escape sequences are:

- `ESC[H` is CUP (ECMA-48 section 8.3.21) and `ESC[J` is ED (ECMA-48 section 8.3.39).
- `ESC[?1049h` / `ESC[?1049l` are xterm's alternate screen buffer private mode.
- `ESC[?25l` / `ESC[?25h` are DEC private mode 25, cursor visibility.

Two behaviours of the code are worth stating:

- The empty argument is accepted and gives 0 seconds, because both groups
  of the pattern are optional. The command's help text
  (src/countdown/__main__.py:64) says DURATION is a number followed by m or
  s; the model follows the code, not that sentence.
- A duration of N paints N + 1 frames and calls sleep N + 1 times, once
  after the final `00:00` frame as well, as tests/test_main.py:362 and
  tests/test_main.py:458 pin.

## Model

| member | source | states |
|---|---|---|
| Decimal.ValueOf | src/countdown/__main__.py:55 | `int(s)` on ASCII digits: a k-digit text denotes a value below 10^k; `DigitsValue` and `ZeroPadded2Value` show it inverts the spellings |
| Decimal.Digits | src/countdown/__main__.py:118 | `str(n)`: all digits, one exactly below 10, at most two below 100, at least three from 100; read back by `DigitsValue` |
| Decimal.DigitsValue | src/countdown/__main__.py:118 | reading back the decimal spelling of n gives n |
| Decimal.ZeroPadded2 | src/countdown/__main__.py:118 | `{:02d}` is all digits, exactly two of them below 100, and otherwise the plain spelling |
| Decimal.ZeroPadded2Pads | src/countdown/__main__.py:118 | the padded spelling is `str(n)` with one '0' in front exactly when that is a single digit |
| Decimal.ZeroPadded2Value | src/countdown/__main__.py:118 | reading back the zero-padded spelling gives n |
| Decimal.ZeroPadded2Is | src/countdown/__main__.py:118 | any two-digit text whose value is n is the padded spelling of n |
| DurationParser.MatchUnit | src/countdown/__main__.py:20-27 | a match of `\d{1,2}` plus unit captures 1-2 digits and splits the text into digits, unit, rest |
| DurationParser.MatchOptional | src/countdown/__main__.py:20-27 | the optional group; characterised by `MatchOptionalSound` and `MatchOptionalSpelled` |
| DurationParser.MatchOptionalSound | src/countdown/__main__.py:20-27 | what an optional group takes is a valid group plus its unit, and the rest is the text after it |
| DurationParser.MatchOptionalSpelled | src/countdown/__main__.py:20-27 | on a spelled group and any rest, the optional group takes exactly that group; an absent group takes nothing when the rest does not start with digits and the unit |
| DurationParser.GroupValue | src/countdown/__main__.py:55 | `int(group or 0)`: an absent group counts 0, a present one at most 99 |
| DurationParser.Match | src/countdown/__main__.py:17-31 | a successful match returns well-formed groups that spell the whole text, or the text less one final newline |
| DurationParser.MatchComplete | src/countdown/__main__.py:17-31 | every spelling of the grammar, with or without a final newline, is matched with exactly its own groups |
| DurationParser.SpellInjective | src/countdown/__main__.py:17-31 | the grammar is unambiguous: equal spellings have equal groups |
| DurationParser.Duration | src/countdown/__main__.py:49-55 | a rejection carries the text; accepted values are at most 99*60+99 |
| DurationParser.DurationAcceptsExactly | src/countdown/__main__.py:49-55 | `duration` succeeds if and only if the text spells the grammar, optionally with one final newline |
| DurationParser.DurationOfSpelling | src/countdown/__main__.py:54-55 | on the grammar the result is minutes*60 + seconds, absent parts counting 0, no carry |
| DurationParser.DurationOfSpellingNewline | src/countdown/__main__.py:28 | with the one final newline `$` allows, the value is still minutes*60 + seconds |
| DurationParser.DurationSecondsExamples | tests/test_main.py:50-55 | "10s" is 10 and "60s" is 60 |
| DurationParser.DurationCommandExamples | tests/test_main.py:303-480 | "3s" and "5m", arguments the command tests pass, are 3 and 300 |
| DurationParser.DurationMinutesExamples | tests/test_main.py:58-63 | "1m" and "10m" are 60 and 600 |
| DurationParser.DurationLongExamples | tests/test_main.py:66-67 | "25m" is 1500 and "15m", the argument of the interrupted command test, is 900 |
| DurationParser.DurationMixedExamples | tests/test_main.py:70-71 | "3m30s" is 210 |
| DurationParser.DurationMixedShortExample | tests/test_main.py:74-75 | "2m8s" is 128 |
| DurationParser.DurationTrailingNewline | src/countdown/__main__.py:28 | `$` accepts one final newline and no more |
| DurationParser.DurationExtremes | src/countdown/__main__.py:17-31 | the empty text gives 0 and "99m99s" gives 6039 |
| DurationParser.DurationRejects | tests/test_main.py:45-47 | "10" (no unit), "100s" (three digits) and "1s2m" (wrong order) are rejected |
| Glyphs.GlyphTableShape | src/countdown/__main__.py:33-45 | the table (`Glyphs.CHARS`, a constant) has exactly the ten digits and ':', five rows each, six columns per digit row and two per ':' row |
| Glyphs.GlyphsAreBlockArt | src/countdown/__main__.py:33-45 | every glyph row uses only '█' and space |
| Glyphs.Clock | src/countdown/__main__.py:117-118 | MM:SS has ':' third from the end and is five characters exactly below 100 minutes |
| Glyphs.ClockRenderable | src/countdown/__main__.py:119-120 | every character of MM:SS has a glyph, so no table lookup fails |
| Glyphs.Row | src/countdown/__main__.py:119-122 | row i of the rendering of a text; characterised by `RowStep`, `RowLength`, `RowOfFive` and `RowIsBlockArt` |
| Glyphs.Banner | src/countdown/__main__.py:114-123 | the five rows for n seconds, which `GetNumberLines` is proved to return; characterised by `BannerShape` and `BannerExample` |
| Glyphs.GlyphRows | src/countdown/__main__.py:120 | splitting any glyph gives exactly five rows |
| Glyphs.RowStep | src/countdown/__main__.py:119-122 | rendering one more character appends its glyph row and a space to each row |
| Glyphs.AppendGlyph | src/countdown/__main__.py:121-122 | the inner loop appends row i of the glyph and a space to line i, for every line |
| Glyphs.FillRows | src/countdown/__main__.py:119-122 | the outer loop leaves line i equal to row i of the rendering of the whole text |
| Glyphs.GetNumberLines | src/countdown/__main__.py:114-123 | the five lines returned are the five rows of `Banner`, the rendering of MM:SS |
| Glyphs.RowLength | src/countdown/__main__.py:119-122 | each row is as wide as the glyphs plus one space per character |
| Glyphs.WidthOfDigits | src/countdown/__main__.py:119-122 | a digit takes seven columns |
| Glyphs.BannerShape | src/countdown/__main__.py:114-123 | five rows, each 7*len(MM:SS)-4 wide, 31 below 100 minutes |
| Glyphs.ReadClock | src/countdown/__main__.py:117-118 | a reference inverse of the MM:SS format, not code of the program; tied to `Clock` by `ClockReadsBack` |
| Glyphs.ClockReadsBack | src/countdown/__main__.py:117-118 | reading the shown text back (minutes*60 + two-digit seconds below 60) gives n |
| Glyphs.ClockParsesAsDuration | src/countdown/__main__.py:49-55 | below 100 minutes, the shown MM:SS typed as "MMmSSs" parses back to n |
| Glyphs.ClockDigits | src/countdown/__main__.py:117-118 | below 100 minutes, MM:SS is the four decimal digits of n/600, n/60%10, n%60/10, n%10 around ':' |
| Glyphs.ClockExamplesShort | tests/test_main.py:78-105 | 0, 10 and 60 seconds show "00:00", "00:10" and "01:00" |
| Glyphs.ClockExamplesMinutes | tests/test_main.py:108-165 | 2700 and 540 seconds show "45:00" and "09:00" |
| Glyphs.ClockExamplesMixed | tests/test_main.py:123-150 | 1024 and 486 seconds show "17:04" and "08:06" |
| Glyphs.ClockExampleLate | tests/test_main.py:168-180 | 2118 seconds show "35:18" |
| Glyphs.BannerExample | tests/test_main.py:78-90 | the second glyph row for 10 seconds is the one the renderer test pins, with its trailing space |
| Glyphs.RowOfFive | src/countdown/__main__.py:119-122 | a row of five characters is their five glyph rows, each followed by a space |
| Glyphs.RowIsBlockArt | src/countdown/__main__.py:119-122 | every rendered row uses only '█' and space |
| Glyphs.BannerIsBlockArt | src/countdown/__main__.py:114-123 | every row of every frame uses only '█' and space, so none breaks a line |
| Screen.Repeat | src/countdown/__main__.py:109-110 | `c * k` has k copies of c, none when k <= 0 |
| Screen.MaxLen | src/countdown/__main__.py:107 | the maximum is at least every line's length and is some line's length |
| Screen.HalfSlack | src/countdown/__main__.py:107-110 | `(total - used) // 2` halves the slack, rounding down, and is 0 when the content does not fit |
| Screen.Indented | src/countdown/__main__.py:110 | every line gets the same margin, the one that centres the widest line |
| Screen.FullScreen | src/countdown/__main__.py:104-111 | it fails exactly for no lines; otherwise the text starts with the clear sequence |
| Screen.Split | src/countdown/__main__.py:110 | a reference inverse of the `"\n".join` (the program never splits); tied to `Join` by `SplitJoin` and `JoinSplit` |
| Screen.Join | src/countdown/__main__.py:110 | `"\n".join(lines)`; characterised by `SplitJoin` and `JoinSplit` |
| Screen.SplitJoin | src/countdown/__main__.py:110 | joining newline-free lines and splitting again gives the lines back |
| Screen.JoinSplit | src/countdown/__main__.py:110 | splitting and joining again gives the text back |
| Screen.ScreenRows | src/countdown/__main__.py:104-111 | the rows after the clear sequence are `(H-len-2)//2` blank rows, the lines behind the common centring margin, then the empty rest after the final newline |
| Screen.ScreenExamples | tests/test_main.py:193-237 | "hello world" on 40x10 and on 80x24 is painted with 3 and 10 blank rows and 14 and 34 spaces |
| Countdown.FramesPainted | src/countdown/__main__.py:75-81 | between 1 and duration+1 frames: all of them without an interrupt, k when the k-th sleep is interrupted |
| Countdown.ScreensStep | src/countdown/__main__.py:76-78 | painting the next frame extends the screens painted so far by that frame |
| Countdown.TicksStep | src/countdown/__main__.py:76-79 | painting one more screen adds its write and one second of sleep to the trace |
| Countdown.Frame | src/countdown/__main__.py:77-78 | the text one paint writes for n seconds at a terminal size; characterised by `FrameClears` and `FrameLayout` |
| Countdown.Screens | src/countdown/__main__.py:73-79 | the screens the loop paints, for duration, duration-1, …; characterised by `ScreensStep` and `ScreensClear` |
| Countdown.Ticks | src/countdown/__main__.py:76-79 | each painted screen followed by one second of sleep; characterised by `TicksStep`, `TicksShape` and `TicksCounts` |
| Countdown.Session | src/countdown/__main__.py:73-83 | the set-up write, the ticks, the restoring write; characterised by `SessionShape`, `SessionRestoresOnce`, `SessionCounts` and `SessionStdout` |
| Countdown.CountdownSession | src/countdown/__main__.py:73-83 | the session for a duration, sizes and interrupt; characterised by `CountdownOrder`, `CountdownRestoresOnce`, `CountdownCounts` and `CountdownStdout` |
| Countdown.RenderAndPaint | src/countdown/__main__.py:77-78 | the text painted is the frame for n seconds at the current size |
| Countdown.TickStep | src/countdown/__main__.py:76-79 | adding the frame for n to the painted screens gives the screens of one more pass, and the trace follows |
| Countdown.Tick | src/countdown/__main__.py:76-79 | one loop pass extends the painted screens and the trace by one frame and its sleep |
| Countdown.RunCountdown | src/countdown/__main__.py:73-83 | the trace of the loop with its enter and leave writes is the session for the duration, sizes and interrupt |
| Countdown.Command | src/countdown/__main__.py:58-83 | a rejected argument runs nothing and reports the text; an accepted one runs the session for its value |
| SessionFacts.TicksShape | src/countdown/__main__.py:76-79 | the loop part alternates each screen's write with one second of sleep |
| SessionFacts.FrameClears | src/countdown/__main__.py:111 | every frame starts with the clear sequence |
| SessionFacts.TicksCounts | src/countdown/__main__.py:76-79 | the loop part sleeps one second and clears the screen once per screen |
| SessionFacts.SessionShape | src/countdown/__main__.py:73-83 | set-up write, then screen, sleep, screen, sleep …, then the restoring write |
| SessionFacts.SessionRestoresOnce | src/countdown/__main__.py:80-83 | the restoring write is last and occurs nowhere else |
| SessionFacts.SessionCounts | src/countdown/__main__.py:76-79 | seconds slept and screen clears each equal the number of screens |
| SessionFacts.SessionStdout | tests/test_main.py:462-496 | standard output starts with the set-up and ends with the restoring text |
| SessionFacts.ScreensClear | src/countdown/__main__.py:76-78 | every screen of a countdown clears the terminal first |
| SessionFacts.CountdownOrder | src/countdown/__main__.py:73-83 | set-up write first; then the frames for duration, duration-1, … in order, each followed by one second of sleep; restoring write last |
| SessionFacts.CountdownRestoresOnce | src/countdown/__main__.py:80-83 | whether or not interrupted, the restoring write is last and occurs nowhere else |
| SessionFacts.CountdownCounts | src/countdown/__main__.py:76-79 | seconds slept and screen clears both equal the number of frames painted |
| SessionFacts.CountdownStdout | tests/test_main.py:462-496 | standard output starts with the set-up text and ends with the restoring text |
| SessionFacts.BannerMaxLen | src/countdown/__main__.py:107 | the widest glyph row is 7*len(MM:SS)-4 columns |
| SessionFacts.BannerNoNewline | src/countdown/__main__.py:110 | no glyph row contains a newline |
| SessionFacts.FrameLayout | src/countdown/__main__.py:104-123 | a frame's rows are the vertical pad, the five glyph rows behind the centring margin, and the empty rest |
| SessionFacts.CountdownExamples | tests/test_main.py:303-496 | 3 seconds sleeps 4 times; 10 minutes clears 601 times; 15 minutes interrupted at the 4th sleep paints 4 frames and restores last |

## Left out

- `enable_ansi_escape_codes` (Windows console mode through `ctypes`) is a foreign call; the model assumes a terminal that understands the escape sequences.
- The `click` plumbing is not modelled: `--version`, `--help`, usage text and exit status. A rejected argument is only the `Err` that `Command` returns.
- Real terminal I/O and time are inputs or events, not effects. `shutil.get_terminal_size` is the `size` function of the frame index. `time.sleep(1)` is a `Sleep(1)` event, not a delay. Flushing is not modelled.
- Only a KeyboardInterrupt raised by the k-th call of sleep is modelled. An interrupt during rendering or printing, and other exceptions such as SystemExit, are left out; the test at tests/test_main.py:365-447 uses SystemExit.
- DurationParser.Match: `\d` and `int()` are restricted to ASCII digits. Python's `re` and `int` also accept other Unicode decimal digits.
- Glyphs.CHARS is stored as five rows per character. The source stores each glyph as one string that `splitlines()` splits into the same five rows.
- SessionFacts.Repaints counts writes that start with the clear sequence. The test counts occurrences of the clear sequence in standard output, which is the same number only because no other write contains it; that is not proved.
- The line count of an interrupted session's output, asserted at tests/test_main.py:495, is not proved. `FrameLayout` gives the rows of each frame, but the count over the whole output is not derived.
- tests/conftest.py is not part of this model.
