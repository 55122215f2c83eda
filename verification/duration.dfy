/** The duration argument: text of the form `<1-2 digits>m` (optional)
    followed by `<1-2 digits>s` (optional), anchored at both ends, read as
    minutes * 60 + seconds with no carry between the two parts. */
module DurationParser {
  import opened Base
  import opened Decimal

  /** The two capture groups of the duration pattern; an absent group is None. */
  datatype Groups = Groups(minutes: Option<string>, seconds: Option<string>)

  /** A present group holds one or two ASCII digits. */
  predicate ValidGroup(g: Option<string>) {
    g.Some? ==> 1 <= |g.value| <= 2 && AllDigits(g.value)
  }

  predicate WellFormed(g: Groups) {
    ValidGroup(g.minutes) && ValidGroup(g.seconds)
  }

  function Part(g: Option<string>, unit: char): string {
    if g.Some? then g.value + [unit] else ""
  }

  /** The grammar: the text that consists of exactly these groups, each followed by its unit. */
  function Spell(g: Groups): string {
    Part(g.minutes, 'm') + Part(g.seconds, 's')
  }

  /** `int(group or 0)` */
  function GroupValue(g: Option<string>): (v: nat)
    requires ValidGroup(g)
    ensures v <= 99
  {
    if g.Some? then ValueOf(g.value) else 0
  }

  /** The sub-pattern `( \d{1,2} ) unit` at the start of s: the digits it
      captures and the text after the unit. */
  function MatchUnit(s: string, unit: char): (r: Option<(string, string)>)
    ensures r.Some? ==> 1 <= |r.value.0| <= 2 && AllDigits(r.value.0)
    ensures r.Some? ==> s == r.value.0 + [unit] + r.value.1
  {
    if |s| >= 3 && IsDigit(s[0]) && IsDigit(s[1]) && s[2] == unit then
      Some((s[..2], s[3..]))
    else if |s| >= 2 && IsDigit(s[0]) && s[1] == unit then
      Some((s[..1], s[2..]))
    else
      None
  }

  /** The optional group `(?: ( \d{1,2} ) unit )?`: its capture and what follows it. */
  function MatchOptional(s: string, unit: char): (Option<string>, string) {
    match MatchUnit(s, unit)
    case Some((digits, rest)) => (Some(digits), rest)
    case None => (None, s)
  }

  /** A legal end for `$` without MULTILINE: the end of the text, or a
      single newline that ends it. */
  predicate AtEnd(tail: string) {
    tail == [] || tail == "\n"
  }

  /** Whatever the optional group takes is a valid group followed by its unit,
      and the rest is the text after it. */
  lemma MatchOptionalSound(s: string, unit: char)
    ensures ValidGroup(MatchOptional(s, unit).0)
    ensures s == Part(MatchOptional(s, unit).0, unit) + MatchOptional(s, unit).1
  {
    if MatchOptional(s, unit).0.None? {
      assert Part(None, unit) + s == s;
    }
  }

  /** The anchored match of the duration pattern. Whatever it accepts is
      spelled by the groups it returns, perhaps followed by one final newline. */
  function Match(s: string): (r: Option<Groups>)
    ensures r.Some? ==> WellFormed(r.value)
    ensures r.Some? ==> s == Spell(r.value) || s == Spell(r.value) + "\n"
  {
    var (minutes, rest) := MatchOptional(s, 'm');
    var (seconds, tail) := MatchOptional(rest, 's');
    if AtEnd(tail) then
      assert s == Spell(Groups(minutes, seconds)) + tail;
      assert tail == [] ==> s == Spell(Groups(minutes, seconds));
      Some(Groups(minutes, seconds))
    else None
  }

  lemma MatchUnitSpelled(d: string, unit: char, rest: string)
    requires 1 <= |d| <= 2 && AllDigits(d) && !IsDigit(unit)
    ensures MatchUnit(d + [unit] + rest, unit) == Some((d, rest))
  {
    var s := d + [unit] + rest;
    if |d| == 2 {
      assert s[..2] == d && s[3..] == rest;
    } else {
      assert s[..1] == d && s[2..] == rest;
    }
  }

  lemma MatchOptionalSpelled(g: Option<string>, unit: char, rest: string)
    requires ValidGroup(g) && !IsDigit(unit)
    requires g.None? ==> MatchUnit(rest, unit).None?
    ensures MatchOptional(Part(g, unit) + rest, unit) == (g, rest)
  {
    if g.Some? {
      MatchUnitSpelled(g.value, unit, rest);
    } else {
      assert Part(g, unit) + rest == rest;
    }
  }

  /** Every text of the grammar, with or without one final newline, is
      matched with exactly its own groups. */
  lemma {:induction false} MatchComplete(g: Groups, tail: string)
    requires WellFormed(g) && AtEnd(tail)
    ensures Match(Spell(g) + tail) == Some(g)
  {
    var s := Spell(g) + tail;
    var secs := Part(g.seconds, 's') + tail;
    assert s == Part(g.minutes, 'm') + secs;
    if g.seconds.Some? {
      assert secs[|g.seconds.value|] == 's';
    } else {
      assert secs == tail;
    }
    MatchOptionalSpelled(g.minutes, 'm', secs);
    MatchOptionalSpelled(g.seconds, 's', tail);
  }

  /** The groups are determined by the text: the grammar is unambiguous. */
  lemma {:induction false} SpellInjective(g1: Groups, g2: Groups)
    requires WellFormed(g1) && WellFormed(g2)
    requires Spell(g1) == Spell(g2)
    ensures g1 == g2
  {
    MatchComplete(g1, []);
    MatchComplete(g2, []);
    assert Spell(g1) + [] == Spell(g1) && Spell(g2) + [] == Spell(g2);
  }

  datatype DurationError = InvalidDuration(text: string)

  /** `duration(string)`: total seconds, or the ValueError for text the pattern rejects. */
  function Duration(s: string): (r: Result<nat, DurationError>)
    ensures r.Err? ==> r.error == InvalidDuration(s)
    ensures r.Ok? ==> r.value <= 99 * 60 + 99
  {
    match Match(s)
    case None => Err(InvalidDuration(s))
    case Some(g) => Ok(GroupValue(g.minutes) * 60 + GroupValue(g.seconds))
  }

  /** Duration succeeds exactly on the texts of the grammar, each allowed one final newline. */
  lemma DurationAcceptsExactly(s: string)
    ensures Duration(s).Ok? <==> exists g :: WellFormed(g) && (s == Spell(g) || s == Spell(g) + "\n")
  {
    if exists g :: WellFormed(g) && (s == Spell(g) || s == Spell(g) + "\n") {
      var g :| WellFormed(g) && (s == Spell(g) || s == Spell(g) + "\n");
      if s == Spell(g) {
        MatchComplete(g, []);
        assert Spell(g) + [] == Spell(g);
      } else {
        MatchComplete(g, "\n");
      }
    }
  }

  /** On a text of the grammar, Duration is minutes * 60 + seconds, each part
      defaulting to 0 and neither normalised. */
  lemma DurationOfSpelling(g: Groups)
    requires WellFormed(g)
    ensures Duration(Spell(g)) == Ok(GroupValue(g.minutes) * 60 + GroupValue(g.seconds))
  {
    MatchComplete(g, []);
    assert Spell(g) + [] == Spell(g);
  }

  /** With the one final newline that `$` allows, the value is the same. */
  lemma DurationOfSpellingNewline(g: Groups)
    requires WellFormed(g)
    ensures Duration(Spell(g) + "\n") == Ok(GroupValue(g.minutes) * 60 + GroupValue(g.seconds))
  {
    MatchComplete(g, "\n");
  }

  /** The tested values with seconds only: no carry, so "60s" is 60. */
  lemma DurationSecondsExamples()
    ensures Duration("10s") == Ok(10) && Duration("60s") == Ok(60)
  {
    assert Duration("10s") == Ok(10) by {
      var g := Groups(None, Some("10"));
      assert Spell(g) == "10s";
      assert ValueOf("10") == 10;
      DurationOfSpelling(g);
    }
    assert Duration("60s") == Ok(60) by {
      var g := Groups(None, Some("60"));
      assert Spell(g) == "60s";
      assert ValueOf("60") == 60;
      DurationOfSpelling(g);
    }
  }

  /** Arguments the command-line tests pass: "3s" and "5m". */
  lemma DurationCommandExamples()
    ensures Duration("3s") == Ok(3) && Duration("5m") == Ok(300)
  {
    assert Duration("3s") == Ok(3) by {
      var g := Groups(None, Some("3"));
      assert Spell(g) == "3s";
      DurationOfSpelling(g);
    }
    assert Duration("5m") == Ok(300) by {
      var g := Groups(Some("5"), None);
      assert Spell(g) == "5m";
      DurationOfSpelling(g);
    }
  }

  /** Whole minutes: "1m" and "10m". */
  lemma DurationMinutesExamples()
    ensures Duration("1m") == Ok(60) && Duration("10m") == Ok(600)
  {
    assert Duration("1m") == Ok(60) by {
      var g := Groups(Some("1"), None);
      assert Spell(g) == "1m";
      DurationOfSpelling(g);
    }
    assert Duration("10m") == Ok(600) by {
      var g := Groups(Some("10"), None);
      assert Spell(g) == "10m";
      assert ValueOf("10") == 10;
      DurationOfSpelling(g);
    }
  }

  /** Longer runs the command-line tests pass: "15m" and "25m". */
  lemma DurationLongExamples()
    ensures Duration("15m") == Ok(900) && Duration("25m") == Ok(1500)
  {
    assert Duration("15m") == Ok(900) by {
      var g := Groups(Some("15"), None);
      assert Spell(g) == "15m";
      assert ValueOf("15") == 15;
      DurationOfSpelling(g);
    }
    assert Duration("25m") == Ok(1500) by {
      var g := Groups(Some("25"), None);
      assert Spell(g) == "25m";
      assert ValueOf("25") == 25;
      DurationOfSpelling(g);
    }
  }

  /** The tested value with both parts: "3m30s". */
  lemma DurationMixedExamples()
    ensures Duration("3m30s") == Ok(210)
  {
    var g := Groups(Some("3"), Some("30"));
    assert Spell(g) == "3m30s";
    assert ValueOf("3") == 3 && ValueOf("30") == 30;
    DurationOfSpelling(g);
  }

  /** The tested value with both parts and one-digit groups: "2m8s". */
  lemma DurationMixedShortExample()
    ensures Duration("2m8s") == Ok(128)
  {
    var g := Groups(Some("2"), Some("8"));
    assert Spell(g) == "2m8s";
    assert ValueOf("2") == 2 && ValueOf("8") == 8;
    DurationOfSpelling(g);
  }

  /** `$` also matches just before a final newline, so one trailing newline is accepted. */
  lemma DurationTrailingNewline()
    ensures Duration("5m\n") == Ok(300)
    ensures Duration("5m\n\n") == Err(InvalidDuration("5m\n\n"))
  {
    var g := Groups(Some("5"), None);
    assert Spell(g) == "5m";
    DurationOfSpellingNewline(g);
    assert Spell(g) + "\n" == "5m\n";
  }

  /** The extremes of the range: the empty text (both groups absent) gives 0
      and "99m99s" gives 6039. */
  lemma DurationExtremes()
    ensures Duration("") == Ok(0)
    ensures Duration("99m99s") == Ok(99 * 60 + 99)
  {
    var g := Groups(Some("99"), Some("99"));
    assert Spell(g) == "99m99s";
    assert ValueOf("99") == 99;
    DurationOfSpelling(g);
    assert Spell(Groups(None, None)) == "";
    DurationOfSpelling(Groups(None, None));
  }

  /** A number without a unit, three digits, and the units in the wrong order are rejected. */
  lemma DurationRejects()
    ensures Duration("10") == Err(InvalidDuration("10"))
    ensures Duration("100s") == Err(InvalidDuration("100s"))
    ensures Duration("1s2m") == Err(InvalidDuration("1s2m"))
  {
  }
}
