/** The full-screen repaint: the text `print_full_screen` writes for given
    lines on a terminal of a given size, with the size passed in. */
module Screen {
  import opened Base

  /** ECMA-48 CUP with no parameters (cursor to the home position, section
      8.3.21) followed by ED with no parameters (erase from the cursor to the
      end of the page, section 8.3.39). */
  const CLEAR: string := "\U{1B}[H\U{1B}[J"

  /** `max()` of an empty sequence raises ValueError. */
  datatype ScreenError = EmptyLines

  /** Python's `c * k` for a one-character string: k copies, none when k <= 0. */
  function Repeat(c: char, k: int): (r: string)
    ensures |r| == if k <= 0 then 0 else k
    ensures forall j :: 0 <= j < |r| ==> r[j] == c
    decreases k
  {
    if k <= 0 then [] else [c] + Repeat(c, k - 1)
  }

  /** `max(len(line) for line in lines)` */
  function MaxLen(lines: seq<string>): (m: nat)
    requires lines != []
    ensures forall j :: 0 <= j < |lines| ==> |lines[j]| <= m
    ensures exists j :: 0 <= j < |lines| && |lines[j]| == m
  {
    if |lines| == 1 then |lines[0]|
    else
      var rest := MaxLen(lines[1..]);
      assert forall j :: 1 <= j < |lines| ==> lines[j] == lines[1..][j - 1];
      if |lines[0]| >= rest then |lines[0]| else rest
  }

  /** `"\n".join(lines)` */
  function Join(lines: seq<string>): string {
    if lines == [] then ""
    else if |lines| == 1 then lines[0]
    else lines[0] + "\n" + Join(lines[1..])
  }

  /** The number of pad characters before content of size `used` in a space of
      size `total`: `(total - used) // 2`, where a negative count pads nothing.
      (For the positive divisor 2, Dafny's division rounds down as Python's `//` does.) */
  function HalfSlack(total: int, used: int): (p: nat)
    ensures used <= total ==> 2 * p <= total - used <= 2 * p + 1
    ensures used >= total ==> p == 0
  {
    if (total - used) / 2 <= 0 then 0 else (total - used) / 2
  }

  /** The same left margin in front of every line: the margin that centres the widest one. */
  function Indented(width: int, lines: seq<string>): (r: seq<string>)
    requires lines != []
    ensures |r| == |lines|
    ensures forall j :: 0 <= j < |lines| ==> r[j] == Repeat(' ', HalfSlack(width, MaxLen(lines))) + lines[j]
  {
    var pad := Repeat(' ', (width - MaxLen(lines)) / 2);
    seq(|lines|, j requires 0 <= j < |lines| => pad + lines[j])
  }

  /** `print_full_screen(lines)` on a terminal of `width` columns and `height`
      rows: the clear sequence, the vertical pad, the indented lines joined by
      newlines, and the newline `print` adds; an error for no lines. */
  function FullScreen(width: nat, height: nat, lines: seq<string>): (r: Result<string, ScreenError>)
    ensures r.Err? <==> lines == []
    ensures r.Ok? ==> |r.value| >= |CLEAR| && r.value[..|CLEAR|] == CLEAR
  {
    if lines == [] then Err(EmptyLines)
    else
      var verticalPad := Repeat('\n', (height - (|lines| + 2)) / 2);
      Ok(CLEAR + verticalPad + Join(Indented(width, lines)) + "\n")
  }

  /** Python's `s.split("\n")`: the pieces between newlines, one more than there are newlines. */
  function Split(s: string): (r: seq<string>)
    ensures |r| >= 1
  {
    if s == [] then [""]
    else if s[0] == '\n' then [""] + Split(s[1..])
    else
      var rest := Split(s[1..]);
      [[s[0]] + rest[0]] + rest[1..]
  }

  predicate NoNewline(s: string) {
    forall k :: 0 <= k < |s| ==> s[k] != '\n'
  }

  lemma {:induction false} SplitNoNewline(s: string)
    requires NoNewline(s)
    ensures Split(s) == [s]
  {
    if s != [] {
      SplitNoNewline(s[1..]);
      assert [s[0]] + s[1..] == s;
    }
  }

  /** Splitting at one newline splits the two sides independently. */
  lemma {:induction false} SplitAtNewline(a: string, b: string)
    ensures Split(a + "\n" + b) == Split(a) + Split(b)
  {
    if a == [] {
      assert a + "\n" + b == "\n" + b;
      assert ("\n" + b)[1..] == b;
    } else {
      assert (a + "\n" + b)[1..] == a[1..] + "\n" + b;
      SplitAtNewline(a[1..], b);
    }
  }

  /** Joining lines that hold no newline and splitting again gives the lines back. */
  lemma {:induction false} SplitJoin(lines: seq<string>)
    requires lines != []
    requires forall j :: 0 <= j < |lines| ==> NoNewline(lines[j])
    ensures Split(Join(lines)) == lines
  {
    if |lines| == 1 {
      SplitNoNewline(lines[0]);
    } else {
      SplitJoin(lines[1..]);
      SplitAtNewline(lines[0], Join(lines[1..]));
      SplitNoNewline(lines[0]);
    }
  }

  /** Joining the pieces of a split gives the text back. */
  lemma {:induction false} JoinSplit(s: string)
    ensures Join(Split(s)) == s
  {
    if s != [] {
      JoinSplit(s[1..]);
      var rest := Split(s[1..]);
      assert [s[0]] + s[1..] == s;
      if s[0] == '\n' {
        var r := [""] + rest;
        assert r[1..] == rest;
        assert Join(r) == "" + "\n" + Join(rest);
      } else if |rest| == 1 {
        var r := [[s[0]] + rest[0]];
        assert Join(r) == [s[0]] + Join(rest);
      } else {
        var r := [[s[0]] + rest[0]] + rest[1..];
        assert r[1..] == rest[1..];
        assert Join(rest) == rest[0] + "\n" + Join(rest[1..]);
        assert Join(r) == [s[0]] + rest[0] + "\n" + Join(rest[1..]);
      }
    }
  }

  lemma {:induction false} SplitBlankLines(k: nat, s: string)
    ensures Split(Repeat('\n', k) + s) == seq(k, _ => "") + Split(s)
    decreases k
  {
    if k > 0 {
      assert Repeat('\n', k) + s == "\n" + (Repeat('\n', k - 1) + s);
      SplitBlankLines(k - 1, s);
      assert ("\n" + (Repeat('\n', k - 1) + s))[1..] == Repeat('\n', k - 1) + s;
      assert seq(k, _ => "") == [""] + seq(k - 1, _ => "");
    } else {
      assert Repeat('\n', k) + s == s;
    }
  }

  /** The text after the clear sequence: the vertical pad, the indented lines, the final newline. */
  lemma AfterClear(width: nat, height: nat, lines: seq<string>)
    requires lines != []
    ensures FullScreen(width, height, lines).Ok?
    ensures FullScreen(width, height, lines).value[|CLEAR|..]
         == Repeat('\n', HalfSlack(height, |lines| + 2)) + Join(Indented(width, lines)) + "\n"
  {
    assert Repeat('\n', (height - (|lines| + 2)) / 2) == Repeat('\n', HalfSlack(height, |lines| + 2));
  }

  /** Splitting k newlines, newline-free lines joined by newlines, and a final
      newline gives k empty rows, the lines, and an empty rest. */
  lemma {:induction false} SplitPadded(k: nat, text: seq<string>)
    requires text != []
    requires forall j :: 0 <= j < |text| ==> NoNewline(text[j])
    ensures Split(Repeat('\n', k) + Join(text) + "\n") == seq(k, _ => "") + text + [""]
  {
    assert Repeat('\n', k) + Join(text) + "\n" == Repeat('\n', k) + (Join(text) + "\n" + "");
    SplitBlankLines(k, Join(text) + "\n" + "");
    SplitAtNewline(Join(text), "");
    SplitJoin(text);
  }

  /** The rows the repaint shows, read as the text after the clear sequence
      split at newlines: first the blank rows that centre the block vertically,
      then every line behind the common left margin of `Indented`, then the
      empty rest after the final newline. A terminal smaller than the content
      gets no padding, and every line is still there. */
  lemma ScreenRows(width: nat, height: nat, lines: seq<string>)
    requires lines != []
    requires forall j :: 0 <= j < |lines| ==> NoNewline(lines[j])
    ensures FullScreen(width, height, lines).Ok?
    ensures Split(FullScreen(width, height, lines).value[|CLEAR|..])
         == seq(HalfSlack(height, |lines| + 2), _ => "") + Indented(width, lines) + [""]
  {
    var text := Indented(width, lines);
    forall j | 0 <= j < |text|
      ensures NoNewline(text[j])
    {
      assert text[j] == Repeat(' ', HalfSlack(width, MaxLen(lines))) + lines[j];
    }
    AfterClear(width, height, lines);
    SplitPadded(HalfSlack(height, |lines| + 2), text);
  }

  /** The repaints the tests pin: one line on 40x10 and on 80x24. */
  lemma ScreenExamples()
    ensures FullScreen(40, 10, ["hello world"]) == Ok(CLEAR + "\n\n\n" + "              hello world" + "\n")
    ensures FullScreen(80, 24, ["hello world"])
         == Ok(CLEAR + Repeat('\n', 10) + Repeat(' ', 34) + "hello world" + "\n")
  {
    var lines := ["hello world"];
    assert MaxLen(lines) == 11;
    var small := Indented(40, lines);
    assert small == [Repeat(' ', 14) + "hello world"];
    assert Join(small) == small[0];
    assert Repeat('\n', 3) == "\n\n\n";
    assert Repeat(' ', 14) + "hello world" == "              hello world";
    var large := Indented(80, lines);
    assert large == [Repeat(' ', 34) + "hello world"];
    assert Join(large) == large[0];
    var v := Repeat('\n', (24 - (|lines| + 2)) / 2);
    assert v == Repeat('\n', 10);
    assert CLEAR + v + Join(large) + "\n" == CLEAR + v + Repeat(' ', 34) + "hello world" + "\n";
  }
}
