/** The countdown session of `main`: switch the terminal to the alternate
    screen with the cursor hidden, paint one frame per second from the
    duration down to 0, and restore the terminal on every way out. Standard
    output and the sleeps are recorded as a trace of events; the terminal size
    and the moment a keyboard interrupt arrives are inputs. */
module Countdown {
  import opened Base
  import opened Glyphs
  import opened Screen
  import opened DurationParser

  /** xterm private mode 1049 (alternate screen buffer) and DEC private mode
      25 (cursor visible), set (`h`) and reset (`l`). */
  const ENABLE_ALT_BUFFER: string := "\U{1B}[?1049h"
  const DISABLE_ALT_BUFFER: string := "\U{1B}[?1049l"
  const HIDE_CURSOR: string := "\U{1B}[?25l"
  const SHOW_CURSOR: string := "\U{1B}[?25h"

  datatype TerminalSize = TerminalSize(columns: nat, lines: nat)

  /** What the outside world sees: text written to standard output, and calls of `time.sleep`. */
  datatype Event = Write(text: string) | Sleep(seconds: nat)

  /** The repaint for n seconds left on a terminal of the given size. */
  function Frame(size: TerminalSize, n: nat): string {
    FullScreen(size.columns, size.lines, Banner(n)).value
  }

  /** How many frames a session paints. `interrupt == Some(k)` means the k-th
      call of sleep (counting from 1) raises KeyboardInterrupt; with no
      interrupt, or one after the last sleep, all duration + 1 frames are painted. */
  function FramesPainted(duration: nat, interrupt: Option<nat>): (count: nat)
    ensures 1 <= count <= duration + 1
    ensures interrupt.None? ==> count == duration + 1
    ensures interrupt.Some? && 1 <= interrupt.value <= duration + 1 ==> count == interrupt.value
  {
    match interrupt
    case Some(k) => if 1 <= k <= duration + 1 then k else duration + 1
    case None => duration + 1
  }

  /** The screens the first `count` iterations paint: the k-th (from 0) shows
      duration - k seconds left, laid out for the k-th size the terminal reports. */
  function Screens(duration: nat, size: nat -> TerminalSize, count: nat): seq<string>
    requires count <= duration + 1
  {
    seq(count, k requires 0 <= k < count => Frame(size(k), duration - k))
  }

  /** Painting the next screen extends the screens painted so far by one. */
  lemma ScreensStep(duration: nat, size: nat -> TerminalSize, k: nat)
    requires k <= duration
    ensures Screens(duration, size, k + 1) == Screens(duration, size, k) + [Frame(size(k), duration - k)]
  {
    var longer, shorter := Screens(duration, size, k + 1), Screens(duration, size, k);
    assert longer[..k] == shorter;
    assert longer[k] == Frame(size(k), duration - k);
    assert longer == longer[..k] + [longer[k]];
  }

  /** Each painted screen is followed by one second of sleep. */
  function Ticks(screens: seq<string>): seq<Event> {
    if screens == [] then []
    else Ticks(screens[..|screens| - 1]) + [Write(screens[|screens| - 1]), Sleep(1)]
  }

  /** Painting one more screen extends the trace by that screen and its sleep. */
  lemma TicksStep(opening: seq<Event>, screens: seq<string>, screen: string)
    ensures opening + Ticks(screens + [screen]) == (opening + Ticks(screens)) + [Write(screen), Sleep(1)]
  {
    assert (screens + [screen])[..|screens|] == screens;
  }

  /** Everything a session writes and sleeps, in order, given the screens it painted. */
  function Session(screens: seq<string>): seq<Event> {
    [Write(ENABLE_ALT_BUFFER + HIDE_CURSOR)] + Ticks(screens) + [Write(SHOW_CURSOR + DISABLE_ALT_BUFFER)]
  }

  /** The session `main` runs for a duration, a terminal and an interrupt. */
  function CountdownSession(duration: nat, size: nat -> TerminalSize, interrupt: Option<nat>): seq<Event> {
    Session(Screens(duration, size, FramesPainted(duration, interrupt)))
  }

  /** One iteration's output: `print_full_screen(get_number_lines(n))` with the terminal at `size`. */
  method RenderAndPaint(size: TerminalSize, n: nat) returns (screen: string)
    ensures screen == Frame(size, n)
  {
    var lines := GetNumberLines(n);
    var painted := FullScreen(size.columns, size.lines, lines);
    screen := painted.value;
  }

  /** One pass of the loop body for n = duration - k: render and paint the
      frame, then sleep one second. */
  method Tick(duration: nat, size: nat -> TerminalSize, k: nat, trace: seq<Event>, ghost painted: seq<string>)
    returns (trace': seq<Event>, ghost painted': seq<string>)
    requires k <= duration
    requires painted == Screens(duration, size, k)
    requires trace == [Write(ENABLE_ALT_BUFFER + HIDE_CURSOR)] + Ticks(painted)
    ensures painted' == Screens(duration, size, k + 1)
    ensures trace' == [Write(ENABLE_ALT_BUFFER + HIDE_CURSOR)] + Ticks(painted')
  {
    var screen := RenderAndPaint(size(k), duration - k);
    TickStep(duration, size, k, trace, painted, screen);
    trace' := trace + [Write(screen), Sleep(1)];
    painted' := painted + [screen];
  }

  /** The bookkeeping of one pass: the painted screen joins the screens and the trace. */
  lemma TickStep(duration: nat, size: nat -> TerminalSize, k: nat, trace: seq<Event>, painted: seq<string>, screen: string)
    requires k <= duration
    requires painted == Screens(duration, size, k)
    requires trace == [Write(ENABLE_ALT_BUFFER + HIDE_CURSOR)] + Ticks(painted)
    requires screen == Frame(size(k), duration - k)
    ensures painted + [screen] == Screens(duration, size, k + 1)
    ensures trace + [Write(screen), Sleep(1)] == [Write(ENABLE_ALT_BUFFER + HIDE_CURSOR)] + Ticks(painted + [screen])
  {
    TicksStep([Write(ENABLE_ALT_BUFFER + HIDE_CURSOR)], painted, screen);
    ScreensStep(duration, size, k);
  }

  /** `main` after the duration is parsed: the enter sequence, then for n from
      the duration down to 0 render, paint and sleep; a KeyboardInterrupt from
      a sleep ends the loop and is swallowed, and the leave sequence is written
      on the way out in every case. */
  method RunCountdown(duration: nat, size: nat -> TerminalSize, interrupt: Option<nat>)
    returns (trace: seq<Event>)
    ensures trace == CountdownSession(duration, size, interrupt)
  {
    trace := [Write(ENABLE_ALT_BUFFER + HIDE_CURSOR)];
    var slept := 0;
    var interrupted := false;
    ghost var painted: seq<string> := [];
    while slept <= duration && !interrupted
      invariant slept <= FramesPainted(duration, interrupt)
      invariant interrupted <==> slept >= 1 && interrupt == Some(slept)
      invariant painted == Screens(duration, size, slept)
      invariant trace == [Write(ENABLE_ALT_BUFFER + HIDE_CURSOR)] + Ticks(painted)
      decreases duration + 1 - slept
    {
      trace, painted := Tick(duration, size, slept, trace, painted);
      slept := slept + 1;
      interrupted := interrupt == Some(slept);
    }
    assert slept == FramesPainted(duration, interrupt);
    trace := trace + [Write(SHOW_CURSOR + DISABLE_ALT_BUFFER)];
  }

  /** The command as a whole: the argument is converted by `duration` before
      `main` runs; an argument it rejects is a usage error and nothing is
      written to the terminal, otherwise the countdown session runs. */
  method Command(argument: string, size: nat -> TerminalSize, interrupt: Option<nat>)
    returns (r: Result<seq<Event>, DurationError>)
    ensures r.Err? <==> Duration(argument).Err?
    ensures r.Err? ==> r.error == InvalidDuration(argument)
    ensures r.Ok? ==> r.value == CountdownSession(Duration(argument).value, size, interrupt)
  {
    var parsed := Duration(argument);
    if parsed.Err? {
      return Err(parsed.error);
    }
    var trace := RunCountdown(parsed.value, size, interrupt);
    return Ok(trace);
  }
}
