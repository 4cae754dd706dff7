/**
 * The machine as written never reads a time zone: when the seconds end in a
 * sign, the zone field keeps the seconds' text in front of the sign, so the
 * offset it finally decodes is never an integer.
 */
module ZoneFinding {
  import opened Wrappers
  import opened PGError
  import opened Numerals
  import opened PGTypes
  import opened ParsingHelpers
  import opened TimestampParser
  import opened TimestampFormatter
  import opened RoundTrip

  /** Some character after the first is not a digit, so no leading sign makes `s` an integer. */
  predicate InnerNonDigit(s: string) {
    exists k :: 0 < k < |s| && !IsDigit(s[k])
  }

  lemma InnerNonDigitNotInteger(s: string)
    requires InnerNonDigit(s)
    ensures ParseInt(s).Failure? && NumberAccumulator(s).MakeZone().Failure?
  {
    var k :| 0 < k < |s| && !IsDigit(s[k]);
  }

  /**
   * What the machine as written keeps true: no zone in the partial time, no
   * field waiting for a zone, every field holding at least one character,
   * and a zone field holding a non-digit after its first character.
   */
  predicate Zoneless(state: ParseState) {
    && HasTime(state)
    && state.partial.time.value.timeZone.None?
    && (state.ExpectingField? ==> state.field != TimeZone)
    && (state.ParsingField? ==> |state.accumulated.digits| >= 1)
    && (state.ParsingField? && state.field == TimeZone ==> InnerNonDigit(state.accumulated.digits))
  }

  lemma ZonelessInitial(style: Style)
    ensures Zoneless(InitialParseState(style))
  {
  }

  /** The zone field as written: an extended zone accumulator, or the seconds with the sign appended. */
  lemma ZoneFieldEntered(style: Style, c: char, field: NumericField, acc: NumberAccumulator, ts: PGTimestamp)
    requires ts.time.Some? && |acc.digits| >= 1
    requires field == TimeZone ==> InnerNonDigit(acc.digits)
    requires var r := ContinueParsing(style, c, ParsingField(field, acc, ts));
      r.Success? && r.value.ParsingField? && r.value.field == TimeZone
    ensures InnerNonDigit(ContinueParsing(style, c, ParsingField(field, acc, ts)).value.accumulated.digits)
  {
    var d := ContinueParsing(style, c, ParsingField(field, acc, ts)).value.accumulated.digits;
    DigitPatternIsDigits(c);
    SignPatternIsSign(c);
    if field == TimeZone {
      var k :| 0 < k < |acc.digits| && !IsDigit(acc.digits[k]);
      assert d == acc.digits || d == acc.digits + [c];
      assert d[k] == acc.digits[k];
    } else {
      assert field == Second && (c == '+' || c == '-');
      assert d == acc.digits + [c];
      assert !IsDigit(d[|acc.digits|]);
    }
  }

  /** One transition as written keeps the invariant. */
  lemma {:induction false} ZonelessStep(style: Style, c: char, state: ParseState)
    requires Zoneless(state)
    ensures ContinueParsing(style, c, state).Success? ==> Zoneless(ContinueParsing(style, c, state).value)
  {
    var r := ContinueParsing(style, c, state);
    match state
    case ParsingField(field, acc, ts) =>
      DigitPatternIsDigits(c);
      if field == TimeZone && c == ' ' && IncludeDate(style) {
        InnerNonDigitNotInteger(acc.digits);
      }
      if r.Success? && r.value.ParsingField? && r.value.field == TimeZone {
        ZoneFieldEntered(style, c, field, acc, ts);
      }
    case _ =>
  }

  /** The end of the input as written yields no zone. */
  lemma ZonelessFinish(style: Style, state: ParseState)
    requires Zoneless(state)
    ensures FinishParsing(style, state).Success? ==> FinishParsing(style, state).value.time.value.timeZone.None?
  {
    if state.ParsingField? && state.field == TimeZone {
      InnerNonDigitNotInteger(state.accumulated.digits);
    }
  }

  /** Every step of the machine `step` keeps the invariant. */
  ghost predicate KeepsZoneless(step: Transition)
    requires KeepsTime(step)
  {
    forall c: char, state: ParseState :: Zoneless(state) && step(c, state).Success? ==> Zoneless(step(c, state).value)
  }

  lemma AsWrittenKeepsZoneless(style: Style)
    ensures KeepsZoneless(Machine(AsWritten, style))
  {
    forall c: char, state: ParseState | Zoneless(state)
      ensures Machine(AsWritten, style)(c, state).Success? ==> Zoneless(Machine(AsWritten, style)(c, state).value)
    {
      ZonelessStep(style, c, state);
    }
  }

  /** A run of a machine that keeps the invariant at every step keeps it. */
  lemma {:induction false} ZonelessRun(step: Transition, s: string, i: nat, j: nat, state: ParseState)
    requires KeepsTime(step) && KeepsZoneless(step)
    requires i <= j <= |s| && Zoneless(state)
    ensures RunWith(step, s, i, j, state).Success? ==> Zoneless(RunWith(step, s, i, j, state).value)
    decreases j - i
  {
    if i < j {
      RunFirst(step, s, i, j, state);
      if step(s[i], state).Success? {
        ZonelessRun(step, s, i + 1, j, step(s[i], state).value);
      }
    }
  }

  /** As written, no text whatever reads as a timestamp with a time zone. */
  lemma ZonedTextNeverParses(style: Style, text: string)
    ensures var r := TimestampOf(AsWritten, style, text);
      r.Success? ==> r.value.time.Some? && r.value.time.value.timeZone.None?
  {
    if !(IncludeDate(style) && (text == "infinity" || text == "-infinity")) {
      var init := InitialParseState(style);
      ZonelessInitial(style);
      AsWrittenKeepsZoneless(style);
      ZonelessRun(Machine(AsWritten, style), text, 0, |text|, init);
      var run := Run(AsWritten, style, text, 0, |text|, init);
      if run.Success? {
        ZonelessFinish(style, run.value);
      }
    }
  }

  /**
   * A timestamp whose written time carries a zone reads back, zone included,
   * with the corrected machine, and never with the machine as written.
   */
  lemma ZonedTimestampRoundTrip(style: Style, ts: PGTimestamp)
    requires IncludeTime(style) && (!IncludeDate(style) || ts.date.Date?)
    requires Representable(Corrected, style, ts) && ts.time.value.timeZone.Some?
    ensures CanFormat(style, ts) && Format(style, ts).Some?
    ensures TimestampOf(Corrected, style, Format(style, ts).value) == Success(Expected(style, ts))
    ensures TimestampOf(AsWritten, style, Format(style, ts).value) != Success(Expected(style, ts))
  {
    FormatThenParse(Corrected, style, ts);
    ZonedTextNeverParses(style, Format(style, ts).value);
  }

  lemma PadTwelve()
    ensures Pad(12, 2) == "12"
  {
    assert DigitChar(1) == '1' && DigitChar(2) == '2';
    assert Digits(1) == "1";
    assert Digits(12) == Digits(1) + [DigitChar(2)];
    assert Zeros(0) == "";
  }

  lemma PadSingle(d: nat)
    requires d < 10
    ensures Pad(d, 2) == ['0', DigitChar(d)]
  {
    assert Digits(d) == [DigitChar(d)];
    assert Zeros(1) == Zeros(0) + "0";
  }

  /** Noon, five hours east of UTC, in the time style. */
  const NoonPlusFive: PGTimestamp := PGTimestamp(DefaultDate, Some(PGTime(12, 0, Decimal(0, 0), Some(Zone(5, 0)))))

  /** Solver helper: the literal pieces of the example text. */
  lemma NoonLiterals()
    ensures "12" + ":" + "00" + ":" + "00" == "12:00:00"
    ensures "+" + "05" + "00" == "+0500"
    ensures "12:00:00" + "+0500" == "12:00:00+0500"
  {
  }

  lemma TwelveText()
    ensures FormatInt(12, 2) == "12"
  {
    PadTwelve();
  }

  lemma ZeroPad()
    ensures Pad(0, 2) == "00"
  {
    PadSingle(0);
    assert DigitChar(0) == '0';
  }

  lemma ZeroTexts()
    ensures FormatInt(0, 2) == "00" && FormatDecimal(Decimal(0, 0), 2) == "00"
  {
    ZeroPad();
    PointedWhole(Pad(0, 2));
  }

  lemma NoonClock()
    ensures ClockText(PGTime(12, 0, Decimal(0, 0), None)) == "12:00:00"
  {
    TwelveText();
    ZeroTexts();
    NoonLiterals();
  }

  lemma FiveHoursEast()
    ensures ZoneText(Zone(5, 0)) == "+0500"
  {
    assert Pad(5, 2) == "05" by {
      PadSingle(5);
      assert DigitChar(5) == '5';
    }
    ZeroPad();
    NoonLiterals();
  }

  lemma NoonPlusFiveText()
    ensures Format(TimeStyle, NoonPlusFive) == Some("12:00:00+0500")
  {
    var time := PGTime(12, 0, Decimal(0, 0), Some(Zone(5, 0)));
    assert ClockText(time) == ClockText(time.(timeZone := None));
    NoonClock();
    FiveHoursEast();
    NoonLiterals();
  }

  /** `12:00:00+0500`: written by the formatter, refused by the parser as written, read back when corrected. */
  lemma NoonPlusFiveExample()
    ensures Format(TimeStyle, NoonPlusFive) == Some("12:00:00+0500")
    ensures TimestampOf(Corrected, TimeStyle, "12:00:00+0500") == Success(NoonPlusFive)
    ensures TimestampOf(AsWritten, TimeStyle, "12:00:00+0500") != Success(NoonPlusFive)
  {
    NoonPlusFiveText();
    ZonedTimestampRoundTrip(TimeStyle, NoonPlusFive);
  }
}
