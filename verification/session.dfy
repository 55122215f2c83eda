/** What every countdown session does, read off its event trace: the
    terminal set-up comes first and its undoing last on every way out, one
    repaint per second of sleep, frames counting down one second at a time,
    and each frame centred on the terminal. */
module SessionFacts {
  import opened Base
  import opened Glyphs
  import opened Screen
  import opened Countdown

  /** The text written on entry and on the way out. */
  const ENTER: string := ENABLE_ALT_BUFFER + HIDE_CURSOR
  const LEAVE: string := SHOW_CURSOR + DISABLE_ALT_BUFFER

  /** Seconds passed to sleep over a trace. */
  function SecondsSlept(trace: seq<Event>): nat {
    if trace == [] then 0
    else SecondsSlept(trace[..|trace| - 1])
         + (match trace[|trace| - 1] case Sleep(s) => s case Write(_) => 0)
  }

  predicate StartsWithClear(text: string) {
    |text| >= |CLEAR| && text[..|CLEAR|] == CLEAR
  }

  /** Writes that start by clearing the screen. */
  function Repaints(trace: seq<Event>): nat {
    if trace == [] then 0
    else Repaints(trace[..|trace| - 1])
         + (match trace[|trace| - 1]
            case Write(text) => if StartsWithClear(text) then 1 else 0
            case Sleep(_) => 0)
  }

  /** Everything written to standard output, in order. */
  function Stdout(trace: seq<Event>): string {
    if trace == [] then ""
    else Stdout(trace[..|trace| - 1])
         + (match trace[|trace| - 1] case Write(text) => text case Sleep(_) => "")
  }

  lemma {:induction false} SecondsSleptAppend(a: seq<Event>, b: seq<Event>)
    ensures SecondsSlept(a + b) == SecondsSlept(a) + SecondsSlept(b)
    decreases |b|
  {
    if b != [] {
      assert (a + b)[..|a + b| - 1] == a + b[..|b| - 1];
      SecondsSleptAppend(a, b[..|b| - 1]);
    } else {
      assert a + b == a;
    }
  }

  lemma {:induction false} RepaintsAppend(a: seq<Event>, b: seq<Event>)
    ensures Repaints(a + b) == Repaints(a) + Repaints(b)
    decreases |b|
  {
    if b != [] {
      assert (a + b)[..|a + b| - 1] == a + b[..|b| - 1];
      RepaintsAppend(a, b[..|b| - 1]);
    } else {
      assert a + b == a;
    }
  }

  lemma {:induction false} StdoutAppend(a: seq<Event>, b: seq<Event>)
    ensures Stdout(a + b) == Stdout(a) + Stdout(b)
    decreases |b|
  {
    if b != [] {
      assert (a + b)[..|a + b| - 1] == a + b[..|b| - 1];
      StdoutAppend(a, b[..|b| - 1]);
    } else {
      assert a + b == a;
    }
  }

  /** The loop part of a trace alternates a write of each screen with one
      second of sleep. */
  lemma {:induction false} TicksShape(screens: seq<string>)
    ensures |Ticks(screens)| == 2 * |screens|
    ensures forall i :: 0 <= i < |Ticks(screens)| ==>
      Ticks(screens)[i] == if i % 2 == 0 then Write(screens[i / 2]) else Sleep(1)
  {
    if screens != [] {
      var init := screens[..|screens| - 1];
      TicksShape(init);
      assert Ticks(screens) == Ticks(init) + [Write(screens[|init|]), Sleep(1)];
      forall i | 0 <= i < |Ticks(screens)|
        ensures Ticks(screens)[i] == if i % 2 == 0 then Write(screens[i / 2]) else Sleep(1)
      {
        if i < 2 * |init| {
          assert Ticks(screens)[i] == Ticks(init)[i];
          assert screens[i / 2] == init[i / 2];
        } else if i == 2 * |init| {
          assert i / 2 == |init| && i % 2 == 0;
        } else {
          assert i % 2 == 1;
        }
      }
    }
  }

  /** Every frame is a full-screen repaint. */
  lemma FrameClears(size: TerminalSize, n: nat)
    ensures StartsWithClear(Frame(size, n))
  {
    BannerShape(n);
  }

  /** Each loop trace of `count` screens sleeps `count` seconds and repaints `count` times. */
  lemma {:induction false} TicksCounts(screens: seq<string>)
    requires forall k :: 0 <= k < |screens| ==> StartsWithClear(screens[k])
    ensures SecondsSlept(Ticks(screens)) == |screens|
    ensures Repaints(Ticks(screens)) == |screens|
  {
    if screens != [] {
      var init := screens[..|screens| - 1];
      var last := screens[|screens| - 1];
      assert forall k :: 0 <= k < |init| ==> init[k] == screens[k];
      TicksCounts(init);
      SecondsSleptAppend(Ticks(init), [Write(last), Sleep(1)]);
      RepaintsAppend(Ticks(init), [Write(last), Sleep(1)]);
      var tick := [Write(last), Sleep(1)];
      assert Ticks(screens) == Ticks(init) + tick;
      assert tick[..1] == [Write(last)] && [Write(last)][..0] == [];
      assert SecondsSlept([Write(last)]) == 0 && Repaints([Write(last)]) == 1;
      assert SecondsSlept(tick) == 1 && Repaints(tick) == 1;
    }
  }

  /** A session, event by event: the set-up write, then each screen followed
      by one second of sleep, then the restoring write. */
  lemma SessionShape(screens: seq<string>)
    ensures var s := Session(screens);
      |s| == 2 * |screens| + 2
      && s[0] == Write(ENTER)
      && s[|s| - 1] == Write(LEAVE)
      && forall i :: 1 <= i <= 2 * |screens| ==>
           s[i] == if i % 2 == 1 then Write(screens[(i - 1) / 2]) else Sleep(1)
  {
    var s := Session(screens);
    TicksShape(screens);
    forall i | 1 <= i <= 2 * |screens|
      ensures s[i] == if i % 2 == 1 then Write(screens[(i - 1) / 2]) else Sleep(1)
    {
      assert s[i] == Ticks(screens)[i - 1];
    }
  }

  /** When every screen is a full-screen repaint, the terminal is restored
      exactly once, as the very last thing written. */
  lemma SessionRestoresOnce(screens: seq<string>)
    requires forall k :: 0 <= k < |screens| ==> StartsWithClear(screens[k])
    ensures var s := Session(screens);
      s[|s| - 1] == Write(LEAVE)
      && forall i :: 0 <= i < |s| - 1 ==> s[i] != Write(LEAVE)
  {
    var s := Session(screens);
    SessionShape(screens);
    forall i | 0 <= i < |s| - 1
      ensures s[i] != Write(LEAVE)
    {
      if i == 0 {
        assert ENTER[5] != LEAVE[5];
      } else if i % 2 == 1 {
        var screen := screens[(i - 1) / 2];
        assert StartsWithClear(screen);
        assert screen[2] == CLEAR[2];
      }
    }
  }

  /** One second of sleep and one repaint per screen. */
  lemma SessionCounts(screens: seq<string>)
    requires forall k :: 0 <= k < |screens| ==> StartsWithClear(screens[k])
    ensures SecondsSlept(Session(screens)) == |screens|
    ensures Repaints(Session(screens)) == |screens|
  {
    var ticks := Ticks(screens);
    TicksCounts(screens);
    var enter, leave := [Write(ENTER)], [Write(LEAVE)];
    SecondsSleptAppend(enter + ticks, leave);
    SecondsSleptAppend(enter, ticks);
    RepaintsAppend(enter + ticks, leave);
    RepaintsAppend(enter, ticks);
    assert enter[..0] == [] && leave[..0] == [];
    assert !StartsWithClear(ENTER) by { assert ENTER[2] != CLEAR[2]; }
    assert !StartsWithClear(LEAVE) by { assert LEAVE[2] != CLEAR[2]; }
  }

  /** Standard output starts by entering the alternate screen with the
      cursor hidden and ends by showing the cursor and leaving it. */
  lemma SessionStdout(screens: seq<string>)
    ensures var out := Stdout(Session(screens));
      |out| >= |ENTER| + |LEAVE|
      && out[..|ENTER|] == ENTER
      && out[|out| - |LEAVE|..] == LEAVE
  {
    var ticks := Ticks(screens);
    var enter, leave := [Write(ENTER)], [Write(LEAVE)];
    StdoutAppend(enter + ticks, leave);
    StdoutAppend(enter, ticks);
    assert enter[..0] == [] && leave[..0] == [];
    var out := Stdout(Session(screens));
    assert out == ENTER + Stdout(ticks) + LEAVE;
  }

  /** Every screen of a countdown is a full-screen repaint. */
  lemma ScreensClear(duration: nat, size: nat -> TerminalSize, count: nat)
    requires count <= duration + 1
    ensures forall k :: 0 <= k < count ==> StartsWithClear(Screens(duration, size, count)[k])
  {
    forall k | 0 <= k < count
      ensures StartsWithClear(Screens(duration, size, count)[k])
    {
      FrameClears(size(k), duration - k);
    }
  }

  /** Event i of a session, for i between the set-up and the restoring write. */
  lemma SessionAt(screens: seq<string>, i: nat)
    requires 1 <= i <= 2 * |screens|
    ensures |Session(screens)| == 2 * |screens| + 2
    ensures Session(screens)[i] == if i % 2 == 1 then Write(screens[(i - 1) / 2]) else Sleep(1)
  {
    SessionShape(screens);
  }

  lemma CountdownAt(duration: nat, size: nat -> TerminalSize, interrupt: Option<nat>, i: nat)
    requires 1 <= i <= 2 * FramesPainted(duration, interrupt)
    ensures |CountdownSession(duration, size, interrupt)| == 2 * FramesPainted(duration, interrupt) + 2
    ensures CountdownSession(duration, size, interrupt)[i]
         == if i % 2 == 1 then Write(Frame(size((i - 1) / 2), duration - (i - 1) / 2)) else Sleep(1)
  {
    SessionAt(Screens(duration, size, FramesPainted(duration, interrupt)), i);
  }

  /** The whole of `main` after parsing, event by event: the set-up write,
      then for k = 0 .. FramesPainted - 1 the frame for duration - k seconds
      at the k-th size and one second of sleep, then the restoring write. */
  lemma CountdownOrder(duration: nat, size: nat -> TerminalSize, interrupt: Option<nat>)
    ensures var frames := FramesPainted(duration, interrupt);
      var s := CountdownSession(duration, size, interrupt);
      |s| == 2 * frames + 2
      && s[0] == Write(ENTER)
      && s[|s| - 1] == Write(LEAVE)
      && forall i :: 1 <= i <= 2 * frames ==>
           s[i] == if i % 2 == 1 then Write(Frame(size((i - 1) / 2), duration - (i - 1) / 2))
                   else Sleep(1)
  {
    var frames := FramesPainted(duration, interrupt);
    SessionShape(Screens(duration, size, frames));
    forall i | 1 <= i <= 2 * frames
      ensures CountdownSession(duration, size, interrupt)[i]
           == if i % 2 == 1 then Write(Frame(size((i - 1) / 2), duration - (i - 1) / 2)) else Sleep(1)
    {
      CountdownAt(duration, size, interrupt, i);
    }
  }

  /** The terminal is restored on every way out of `main`, interrupted or
      not, exactly once and as the very last thing written. */
  lemma CountdownRestoresOnce(duration: nat, size: nat -> TerminalSize, interrupt: Option<nat>)
    ensures var s := CountdownSession(duration, size, interrupt);
      s[|s| - 1] == Write(LEAVE)
      && forall i :: 0 <= i < |s| - 1 ==> s[i] != Write(LEAVE)
  {
    var frames := FramesPainted(duration, interrupt);
    ScreensClear(duration, size, frames);
    SessionRestoresOnce(Screens(duration, size, frames));
  }

  /** `main` sleeps one second per frame and clears the screen once per
      frame: duration + 1 of each when the countdown runs out, k of each when
      the k-th sleep is interrupted. */
  lemma CountdownCounts(duration: nat, size: nat -> TerminalSize, interrupt: Option<nat>)
    ensures var s := CountdownSession(duration, size, interrupt);
      SecondsSlept(s) == FramesPainted(duration, interrupt)
      && Repaints(s) == FramesPainted(duration, interrupt)
  {
    var frames := FramesPainted(duration, interrupt);
    ScreensClear(duration, size, frames);
    SessionCounts(Screens(duration, size, frames));
  }

  /** The output of `main` starts with the set-up text and ends with the
      restoring text, whether or not it was interrupted. */
  lemma CountdownStdout(duration: nat, size: nat -> TerminalSize, interrupt: Option<nat>)
    ensures var out := Stdout(CountdownSession(duration, size, interrupt));
      |out| >= |ENTER| + |LEAVE| && out[..|ENTER|] == ENTER && out[|out| - |LEAVE|..] == LEAVE
  {
    SessionStdout(Screens(duration, size, FramesPainted(duration, interrupt)));
  }

  /** The widest glyph row sets the margin: every row has the same width. */
  lemma BannerMaxLen(n: nat)
    ensures Banner(n) != [] && MaxLen(Banner(n)) == 7 * |Clock(n)| - 4
  {
    var lines := Banner(n);
    BannerShape(n);
    var j :| 0 <= j < |lines| && |lines[j]| == MaxLen(lines);
  }

  /** No glyph row breaks a line. */
  lemma BannerNoNewline(n: nat)
    ensures forall j :: 0 <= j < |Banner(n)| ==> NoNewline(Banner(n)[j])
  {
    BannerIsBlockArt(n);
  }

  /** The rows a frame shows: the blank rows that centre the five glyph rows
      vertically, then the glyph rows, each behind the margin that centres
      them horizontally, then the empty rest after the final newline. */
  lemma FrameLayout(size: TerminalSize, n: nat)
    ensures Split(Frame(size, n)[|CLEAR|..])
         == seq(HalfSlack(size.lines, ROWS + 2), _ => "") + Indented(size.columns, Banner(n)) + [""]
    ensures forall i :: 0 <= i < ROWS ==>
      Indented(size.columns, Banner(n))[i]
      == Repeat(' ', HalfSlack(size.columns, 7 * |Clock(n)| - 4)) + Banner(n)[i]
  {
    BannerShape(n);
    BannerMaxLen(n);
    BannerNoNewline(n);
    ScreenRows(size.columns, size.lines, Banner(n));
  }

  /** The sessions the tests pin: "3s" sleeps four times, "10m" repaints 601
      times, and "15m" with the fourth sleep interrupted paints four frames
      and still restores the terminal last. */
  lemma CountdownExamples(size: nat -> TerminalSize)
    ensures SecondsSlept(CountdownSession(3, size, None)) == 4
    ensures Repaints(CountdownSession(600, size, None)) == 601
    ensures var s := CountdownSession(900, size, Some(4));
      |s| == 10 && Repaints(s) == 4 && s[9] == Write(LEAVE)
  {
    CountdownCounts(3, size, None);
    CountdownCounts(600, size, None);
    CountdownCounts(900, size, Some(4));
    CountdownRestoresOnce(900, size, Some(4));
    SessionShape(Screens(900, size, 4));
  }
}
