/** The block-glyph table and the renderer that turns a count of seconds
    into five text rows showing MM:SS. */
module Glyphs {
  import opened Base
  import opened Decimal
  import opened DurationParser

  /** Each character's five rows; every row of a digit is six columns wide,
      every row of ':' two. */
  const CHARS: map<char, seq<string>> := map[
    '0' := ["██████", "██  ██", "██  ██", "██  ██", "██████"],
    '1' := ["   ██ ", "  ███ ", "   ██ ", "   ██ ", "   ██ "],
    '2' := ["██████", "    ██", "██████", "██    ", "██████"],
    '3' := ["██████", "    ██", " █████", "    ██", "██████"],
    '4' := ["██  ██", "██  ██", "██████", "    ██", "    ██"],
    '5' := ["██████", "██    ", "██████", "    ██", "██████"],
    '6' := ["██████", "██    ", "██████", "██  ██", "██████"],
    '7' := ["██████", "    ██", "   ██ ", "  ██  ", "  ██  "],
    '8' := [" ████ ", "██  ██", " ████ ", "██  ██", " ████ "],
    '9' := ["██████", "██  ██", "██████", "    ██", " █████"],
    ':' := ["  ", "██", "  ", "██", "  "]
  ]

  const ROWS := 5

  function GlyphWidth(c: char): nat {
    if c == ':' then 2 else 6
  }

  /** The table holds the ten digits and ':' and nothing else; every glyph
      has five rows of one width. */
  lemma GlyphTableShape()
    ensures forall c :: c in CHARS <==> IsGlyphChar(c)
    ensures forall c :: c in CHARS ==> |CHARS[c]| == ROWS
    ensures forall c, i :: c in CHARS && 0 <= i < |CHARS[c]| ==> |CHARS[c][i]| == GlyphWidth(c)
  {
  }

  /** Every glyph has five rows. */
  lemma GlyphRows(c: char)
    requires c in CHARS
    ensures |CHARS[c]| == ROWS
  {
    GlyphTableShape();
  }

  /** Text drawn only with the full block and the space. */
  predicate BlockArt(s: string) {
    forall k :: 0 <= k < |s| ==> s[k] == '█' || s[k] == ' '
  }

  /** Every glyph row is drawn only with the full block and the space. */
  lemma GlyphsAreBlockArt()
    ensures forall c, i :: c in CHARS && 0 <= i < |CHARS[c]| ==> BlockArt(CHARS[c][i])
  {
  }

  predicate IsGlyphChar(c: char) {
    IsDigit(c) || c == ':'
  }

  predicate Renderable(t: string) {
    forall j :: 0 <= j < |t| ==> t[j] in CHARS
  }

  /** `f"{minutes:02d}:{seconds:02d}"` with `minutes, seconds = divmod(n, 60)`:
      always renderable, five characters while the minutes fit in two digits. */
  function Clock(n: nat): (t: string)
    ensures forall j :: 0 <= j < |t| ==> IsGlyphChar(t[j])
    ensures |t| >= 5 && t[|t| - 3] == ':'
    ensures |t| == 5 <==> n < 6000
  {
    var t := ZeroPadded2(n / 60) + ":" + ZeroPadded2(n % 60);
    assert forall j :: 0 <= j < |t| && j != |t| - 3 ==> IsDigit(t[j]);
    t
  }

  /** Every character of the MM:SS text has a glyph: no lookup in the table can fail. */
  lemma ClockRenderable(n: nat)
    ensures Renderable(Clock(n))
  {
    GlyphTableShape();
    var t := Clock(n);
    assert forall j :: 0 <= j < |t| && j != |t| - 3 ==> IsDigit(t[j]);
  }

  /** Row i of the rendering of t: row i of each character's glyph followed by one space. */
  function Row(t: string, i: nat): string
    requires Renderable(t) && i < ROWS
    decreases |t|
  {
    if t == [] then ""
    else
      GlyphTableShape();
      Row(t[..|t| - 1], i) + CHARS[t[|t| - 1]][i] + " "
  }

  /** The frame for n seconds: the five rows of Clock(n). */
  function Banner(n: nat): seq<string> {
    ClockRenderable(n);
    seq(ROWS, i requires 0 <= i < ROWS => Row(Clock(n), i))
  }

  /** Rendering one more character appends its glyph row and a space to every row. */
  lemma RowStep(t: string, j: nat, r: nat)
    requires Renderable(t) && j < |t| && r < ROWS
    ensures Row(t[..j + 1], r) == Row(t[..j], r) + CHARS[t[j]][r] + " "
  {
    assert t[..j + 1][..j] == t[..j];
  }

  /** The inner loop of `get_number_lines`: row i of the glyph, and a space,
      appended to row i of the lines so far. */
  method AppendGlyph(rows: array<string>, charLines: seq<string>)
    requires rows.Length == |charLines|
    modifies rows
    ensures forall r :: 0 <= r < rows.Length ==> rows[r] == old(rows[r]) + charLines[r] + " "
  {
    for i := 0 to |charLines|
      invariant forall r :: 0 <= r < i ==> rows[r] == old(rows[r]) + charLines[r] + " "
      invariant forall r :: i <= r < rows.Length ==> rows[r] == old(rows[r])
    {
      rows[i] := rows[i] + charLines[i] + " ";
    }
  }

  /** The loop of `get_number_lines`: character by character of t, every row
      gets the glyph's row and one space appended. */
  method FillRows(rows: array<string>, t: string)
    requires rows.Length == ROWS && Renderable(t)
    requires forall r :: 0 <= r < ROWS ==> rows[r] == ""
    modifies rows
    ensures forall r :: 0 <= r < ROWS ==> rows[r] == Row(t, r)
  {
    for j := 0 to |t|
      invariant forall r :: 0 <= r < ROWS ==> rows[r] == Row(t[..j], r)
    {
      var charLines := CHARS[t[j]];
      GlyphRows(t[j]);
      AppendGlyph(rows, charLines);
      forall r | 0 <= r < ROWS
        ensures rows[r] == Row(t[..j + 1], r)
      {
        RowStep(t, j, r);
      }
    }
    assert t[..|t|] == t;
  }

  /** `get_number_lines(seconds)`: the five rows of the MM:SS text of `divmod(seconds, 60)`. */
  method GetNumberLines(seconds: nat) returns (lines: seq<string>)
    ensures lines == Banner(seconds)
  {
    var rows := new string[ROWS](_ => "");
    var minutes, secs := seconds / 60, seconds % 60;
    var time := ZeroPadded2(minutes) + ":" + ZeroPadded2(secs);
    assert time == Clock(seconds);
    ClockRenderable(seconds);
    FillRows(rows, time);
    lines := rows[..];
  }

  /** The number of columns the rendering of t takes: each glyph's width plus its space. */
  function Width(t: string): nat {
    if t == [] then 0 else Width(t[..|t| - 1]) + GlyphWidth(t[|t| - 1]) + 1
  }

  lemma {:induction false} RowLength(t: string, i: nat)
    requires Renderable(t) && i < ROWS
    ensures |Row(t, i)| == Width(t)
    decreases |t|
  {
    if t != [] {
      GlyphTableShape();
      RowLength(t[..|t| - 1], i);
    }
  }

  lemma {:induction false} WidthAppend(a: string, b: string)
    ensures Width(a + b) == Width(a) + Width(b)
    decreases |b|
  {
    if b == [] {
      assert a + b == a;
    } else {
      assert (a + b)[..|a + b| - 1] == a + b[..|b| - 1];
      WidthAppend(a, b[..|b| - 1]);
    }
  }

  lemma {:induction false} WidthOfDigits(s: string)
    requires AllDigits(s)
    ensures Width(s) == 7 * |s|
    decreases |s|
  {
    if s != [] {
      WidthOfDigits(s[..|s| - 1]);
    }
  }

  /** Every frame has five rows of one width: 31 columns while the minutes fit
      in two digits, seven more per extra minute digit. */
  lemma BannerShape(n: nat)
    ensures |Banner(n)| == ROWS
    ensures forall i :: 0 <= i < ROWS ==> |Banner(n)[i]| == 7 * |Clock(n)| - 4
    ensures n < 6000 ==> forall i :: 0 <= i < ROWS ==> |Banner(n)[i]| == 31
  {
    var mm, ss := ZeroPadded2(n / 60), ZeroPadded2(n % 60);
    assert Clock(n) == mm + ":" + ss;
    ClockRenderable(n);
    WidthAppend(mm + ":", ss);
    WidthAppend(mm, ":");
    assert Width(":") == 3 by {
      assert ":"[..0] == "";
    }
    WidthOfDigits(mm);
    WidthOfDigits(ss);
    forall i | 0 <= i < ROWS
      ensures |Banner(n)[i]| == 7 * |Clock(n)| - 4
    {
      RowLength(Clock(n), i);
    }
  }

  /** Reads an MM:SS text back: at least two digits of minutes, ':', and two
      digits of seconds below 60; anything else is None. */
  function ReadClock(t: string): (r: Option<nat>)
    ensures r.Some? ==> |t| >= 5 && t[|t| - 3] == ':'
  {
    if |t| >= 5 && t[|t| - 3] == ':' && AllDigits(t[..|t| - 3]) && AllDigits(t[|t| - 2..])
       && ValueOf(t[|t| - 2..]) < 60
    then Some(ValueOf(t[..|t| - 3]) * 60 + ValueOf(t[|t| - 2..]))
    else None
  }

  /** The shown text reads back as n. */
  lemma ClockReadsBack(n: nat)
    ensures ReadClock(Clock(n)) == Some(n)
  {
    var mm, ss := ZeroPadded2(n / 60), ZeroPadded2(n % 60);
    var t := Clock(n);
    assert t == mm + ":" + ss;
    assert t[..|t| - 3] == mm;
    assert t[|t| - 2..] == ss;
    ZeroPadded2Value(n / 60);
    ZeroPadded2Value(n % 60);
  }

  /** Below 100 minutes, the shown MM:SS typed back as "MMmSSs" is a valid
      duration argument for the same number of seconds. */
  lemma ClockParsesAsDuration(n: nat)
    requires n < 6000
    ensures var t := Clock(n);
      Duration(t[..2] + "m" + t[3..] + "s") == Ok(n)
  {
    var t := Clock(n);
    ClockReadsBack(n);
    assert t[..|t| - 3] == t[..2] && t[|t| - 2..] == t[3..];
    var g := Groups(Some(t[..2]), Some(t[3..]));
    assert Spell(g) == t[..2] + "m" + t[3..] + "s";
    DurationOfSpelling(g);
  }

  /** Below 100 minutes the text is exactly the two minute digits, ':' and the
      two second digits. */
  lemma ClockDigits(n: nat)
    requires n < 6000
    ensures Clock(n) == [DigitChar(n / 600), DigitChar(n / 60 % 10), ':',
                         DigitChar(n % 60 / 10), DigitChar(n % 10)]
  {
    assert n / 60 / 10 == n / 600 && n % 60 % 10 == n % 10;
  }

  /** The MM:SS texts shown for 0, 10 and 60 seconds. */
  lemma ClockExamplesShort()
    ensures Clock(0) == "00:00" && Clock(10) == "00:10" && Clock(60) == "01:00"
  {
    ClockDigits(0);
    ClockDigits(10);
    ClockDigits(60);
  }

  /** The MM:SS texts the renderer tests pin for whole minutes. */
  lemma ClockExamplesMinutes()
    ensures Clock(2700) == "45:00" && Clock(540) == "09:00"
  {
    ClockDigits(2700);
    ClockDigits(540);
  }

  /** The MM:SS texts the renderer tests pin for minutes and seconds. */
  lemma ClockExamplesMixed()
    ensures Clock(1024) == "17:04" && Clock(486) == "08:06"
  {
    assert Clock(1024) == "17:04" by {
      ClockDigits(1024);
      assert DigitChar(1) == '1' && DigitChar(7) == '7' && DigitChar(0) == '0' && DigitChar(4) == '4';
    }
    assert Clock(486) == "08:06" by {
      ClockDigits(486);
      assert DigitChar(0) == '0' && DigitChar(8) == '8' && DigitChar(6) == '6';
    }
  }

  /** The MM:SS text the renderer tests pin for 2118 seconds. */
  lemma ClockExampleLate()
    ensures Clock(2118) == "35:18"
  {
    ClockDigits(2118);
  }

  /** Row i of a five-character text: row i of each of its glyphs, each followed by one space. */
  lemma {:induction false} RowOfFive(t: string, i: nat)
    requires |t| == 5 && Renderable(t) && i < ROWS
    ensures Row(t, i) == CHARS[t[0]][i] + " " + CHARS[t[1]][i] + " " + CHARS[t[2]][i] + " "
                         + CHARS[t[3]][i] + " " + CHARS[t[4]][i] + " "
  {
    assert t[..1][..0] == [] && t[..2][..1] == t[..1] && t[..3][..2] == t[..2];
    assert t[..4][..3] == t[..3] && t[..4] == t[..|t| - 1];
    assert Row(t[..1], i) == CHARS[t[0]][i] + " ";
    assert Row(t[..2], i) == Row(t[..1], i) + CHARS[t[1]][i] + " ";
    assert Row(t[..3], i) == Row(t[..2], i) + CHARS[t[2]][i] + " ";
    assert Row(t[..4], i) == Row(t[..3], i) + CHARS[t[3]][i] + " ";
  }

  /** The second glyph row of the frame for 10 seconds, as the renderer test
      pins it (which strips the trailing space). */
  lemma BannerExample()
    ensures Banner(10)[1] == "██  ██ ██  ██ ██   ███  ██  ██ "
  {
    var t := Clock(10);
    ClockExamplesShort();
    ClockRenderable(10);
    assert Banner(10)[1] == Row(t, 1);
    RowOfFive(t, 1);
    assert t[0] == '0' && t[1] == '0' && t[2] == ':' && t[3] == '1' && t[4] == '0';
  }

  lemma {:induction false} RowIsBlockArt(t: string, i: nat)
    requires Renderable(t) && i < ROWS
    ensures BlockArt(Row(t, i))
    decreases |t|
  {
    if t != [] {
      RowIsBlockArt(t[..|t| - 1], i);
      GlyphTableShape();
      GlyphsAreBlockArt();
    }
  }

  /** Every row of every frame is block art: the frame holds no line breaks
      or other characters of its own. */
  lemma BannerIsBlockArt(n: nat)
    ensures forall i :: 0 <= i < |Banner(n)| ==> BlockArt(Banner(n)[i])
  {
    ClockRenderable(n);
    forall i | 0 <= i < ROWS
      ensures BlockArt(Banner(n)[i])
    {
      RowIsBlockArt(Clock(n), i);
    }
  }
}
