/**
 * The character-driven state machine that reads date, time and timestamp
 * text (`PGTimestampFormatter.Parser` in
 * Sources/CorePostgreSQL/PGTimestampFormatter.swift), and the driver that
 * feeds it a string one character at a time.
 */
module TimestampParser {
  import opened Wrappers
  import opened PGError
  import opened Numerals
  import opened PGTypes
  import opened ParsingHelpers

  /** Which parts of a timestamp the text holds. */
  datatype Style = TimestampStyle | DateStyle | TimeStyle

  predicate IncludeDate(style: Style) {
    style != TimeStyle
  }

  predicate IncludeTime(style: Style) {
    style != DateStyle
  }

  /** Every style reads at least one part, and only the timestamp style reads both. */
  lemma StyleParts(style: Style)
    ensures IncludeDate(style) || IncludeTime(style)
    ensures IncludeDate(style) && IncludeTime(style) <==> style == TimestampStyle
    ensures !IncludeTime(style) <==> style == DateStyle
    ensures !IncludeDate(style) <==> style == TimeStyle
  {
  }

  datatype NumericField = Year | Month | Day | Hour | Minute | Second | TimeZone

  /** Where in the grammar the parse is, with the timestamp built so far. */
  datatype ParseState =
    | ExpectingField(field: NumericField, partial: PGTimestamp)
    | ParsingField(field: NumericField, accumulated: NumberAccumulator, partial: PGTimestamp)
    | ExpectingEraB(partial: PGTimestamp)
    | ExpectingEraC(partial: PGTimestamp)
    | ParsedBC(partial: PGTimestamp)

  /**
   * The partial timestamp holds a time. The transitions that commit a time
   * field force-unwrap it, so this is what they demand of their state.
   */
  predicate HasTime(state: ParseState) {
    state.partial.time.Some?
  }

  /** `PGConversionError.invalidDate`: a failure with the index, the whole text and the state it happened in. */
  datatype ParseError = InvalidDate(underlying: ConversionError, at: nat, text: string, during: ParseState)

  function InitialParseState(style: Style): (state: ParseState)
    ensures HasTime(state) && state.partial == DefaultTimestamp
    ensures state.ExpectingField?
    ensures state.field == Year <==> IncludeDate(style)
    ensures state.field == Hour <==> !IncludeDate(style)
  {
    if IncludeDate(style) then ExpectingField(Year, DefaultTimestamp)
    else ExpectingField(Hour, DefaultTimestamp)
  }

  function WithHour(ts: PGTimestamp, hour: int): PGTimestamp
    requires ts.time.Some?
  {
    ts.(time := Some(ts.time.value.(hour := hour)))
  }

  function WithMinute(ts: PGTimestamp, minute: int): PGTimestamp
    requires ts.time.Some?
  {
    ts.(time := Some(ts.time.value.(minute := minute)))
  }

  function WithSecond(ts: PGTimestamp, second: Decimal): PGTimestamp
    requires ts.time.Some?
  {
    ts.(time := Some(ts.time.value.(second := second)))
  }

  function WithZone(ts: PGTimestamp, zone: Zone): PGTimestamp
    requires ts.time.Some?
  {
    ts.(time := Some(ts.time.value.(timeZone := Some(zone))))
  }

  /** `continueParsing(_:in:)`: the next state after one character. */
  function ContinueParsing(style: Style, c: char, state: ParseState): (r: Result<ParseState, ConversionError>)
    requires HasTime(state)
    ensures r.Success? ==> HasTime(r.value)
  {
    match state
    case ExpectingField(field, ts) =>
      if DigitPattern.Matches(c) then Success(ParsingField(field, EmptyAccumulator.Adding(c), ts))
      else Failure(UnexpectedCharacter(c))
    case ParsingField(field, accumulator, ts) =>
      if DigitPattern.Matches(c) then
        Success(ParsingField(field, accumulator.Adding(c), ts))
      else if field == Year && c == '-' then
        (var year :- accumulator.MakeInt();
         Success(ExpectingField(Month, ts.(date := SetYear(ts.date, year)))))
      else if field == Month && c == '-' then
        (var month :- accumulator.MakeInt();
         Success(ExpectingField(Day, ts.(date := SetMonth(ts.date, month)))))
      else if field == Day && c == ' ' then
        (var day :- accumulator.MakeInt();
         var ts' := ts.(date := SetDay(ts.date, day));
         if IncludeTime(style) then Success(ExpectingField(Hour, ts')) else Success(ExpectingEraB(ts')))
      else if field == Hour && c == ':' then
        (var hour :- accumulator.MakeInt();
         Success(ExpectingField(Minute, WithHour(ts, hour))))
      else if field == Minute && c == ':' then
        (var minute :- accumulator.MakeInt();
         Success(ExpectingField(Second, WithMinute(ts, minute))))
      else if field == Second && c == '.' then
        Success(ParsingField(Second, accumulator.Adding(c), ts))
      else if field == Second && SignPattern.Matches(c) then
        (var second :- accumulator.MakeDecimal();
         Success(ParsingField(TimeZone, accumulator.Adding(c), WithSecond(ts, second))))
      else if field == Second && c == ' ' && IncludeDate(style) then
        (var second :- accumulator.MakeDecimal();
         Success(ExpectingEraB(WithSecond(ts, second))))
      else if field == TimeZone && c == ':' then
        Success(state)
      else if field == TimeZone && c == ' ' && IncludeDate(style) then
        (var zone :- accumulator.MakeZone();
         Success(ExpectingEraB(WithZone(ts, zone))))
      else
        Failure(UnexpectedCharacter(c))
    case ExpectingEraB(ts) =>
      if c == 'B' then Success(ExpectingEraC(ts)) else Failure(UnexpectedCharacter(c))
    case ExpectingEraC(ts) =>
      if c == 'C' then Success(ParsedBC(ts.(date := SetEra(ts.date, BC)))) else Failure(UnexpectedCharacter(c))
    case ParsedBC(_) =>
      Failure(UnexpectedCharacter(c))
  }

  /**
   * The transition with the time-zone field started from a fresh accumulator
   * holding only the sign, rather than from the seconds text followed by the
   * sign. Every other transition is `ContinueParsing`'s.
   */
  function ContinueParsingCorrected(style: Style, c: char, state: ParseState): (r: Result<ParseState, ConversionError>)
    requires HasTime(state)
    ensures r.Success? ==> HasTime(r.value)
    ensures state.ParsingField? && state.field == Second && (c == '+' || c == '-') ==>
      match state.accumulated.MakeDecimal()
      case Success(second) => r == Success(ParsingField(TimeZone, AccumulatorOf(c), WithSecond(state.partial, second)))
      case Failure(e) => r == Failure(e)
    ensures !(state.ParsingField? && state.field == Second && (c == '+' || c == '-')) ==>
      r == ContinueParsing(style, c, state)
  {
    SignPatternIsSign(c);
    if state.ParsingField? && state.field == Second && SignPattern.Matches(c) then
      var second :- state.accumulated.MakeDecimal();
      Success(ParsingField(TimeZone, AccumulatorOf(c), WithSecond(state.partial, second)))
    else
      ContinueParsing(style, c, state)
  }

  /** The machine as the source has it, or with the time-zone accumulator corrected. */
  datatype Revision = AsWritten | Corrected

  function Step(revision: Revision, style: Style, c: char, state: ParseState): (r: Result<ParseState, ConversionError>)
    requires HasTime(state)
    ensures r.Success? ==> HasTime(r.value)
  {
    match revision
    case AsWritten => ContinueParsing(style, c, state)
    case Corrected => ContinueParsingCorrected(style, c, state)
  }

  /** `finishParsing(in:)`: the timestamp at the end of the input, if the state may end there. */
  function FinishParsing(style: Style, state: ParseState): (r: Result<PGTimestamp, ConversionError>)
    requires HasTime(state)
    ensures r.Success? ==> r.value.time.Some?
  {
    if state.ParsingField? && state.field == Day && !IncludeTime(style) then
      var day :- state.accumulated.MakeInt();
      Success(state.partial.(date := SetDay(state.partial.date, day)))
    else if state.ParsingField? && state.field == Second then
      var second :- state.accumulated.MakeDecimal();
      Success(WithSecond(state.partial, second))
    else if state.ParsingField? && state.field == TimeZone then
      var zone :- state.accumulated.MakeZone();
      Success(WithZone(state.partial, zone))
    else if state.ParsedBC? then
      Success(state.partial)
    else
      Failure(EarlyTermination)
  }

  /** `wrapError(_:at:in:during:)` */
  function WrapError(error: ConversionError, at: nat, text: string, during: ParseState): ParseError {
    InvalidDate(error, at, text, during)
  }

  /** Where a run of the machine stopped: the error, the index of the refused character, and the state before it. */
  datatype Halt = Halt(error: ConversionError, at: nat, during: ParseState)

  /** A transition function: one character in one state gives the next state or an error. */
  type Transition = (char, ParseState) --> Result<ParseState, ConversionError>

  /** The transition is defined on every state holding a time and leads to such states only. */
  ghost predicate KeepsTime(step: Transition) {
    forall c: char, state: ParseState :: HasTime(state) ==>
      step.requires(c, state) && (step(c, state).Success? ==> HasTime(step(c, state).value))
  }

  /** The machine's transition function in a revision and a style. */
  function Machine(revision: Revision, style: Style): (step: Transition)
    ensures KeepsTime(step)
    ensures forall c: char, state: ParseState :: HasTime(state) ==> step(c, state) == Step(revision, style, c, state)
  {
    (c: char, state: ParseState) requires HasTime(state) => Step(revision, style, c, state)
  }

  /** Feeds the characters `s[i..j]` to the machine `step`, from `state`, until one is refused. */
  function RunWith(step: Transition, s: string, i: nat, j: nat, state: ParseState): (r: Result<ParseState, Halt>)
    requires KeepsTime(step) && i <= j <= |s| && HasTime(state)
    ensures r.Success? ==> HasTime(r.value)
    ensures r.Failure? ==> i <= r.error.at < j && HasTime(r.error.during)
    decreases j - i
  {
    if i == j then Success(state)
    else
      match step(s[i], state)
      case Failure(e) => Failure(Halt(e, i, state))
      case Success(next) => RunWith(step, s, i + 1, j, next)
  }

  /** The parser's machine run over `s[i..j]`. */
  function Run(revision: Revision, style: Style, s: string, i: nat, j: nat, state: ParseState): (r: Result<ParseState, Halt>)
    requires i <= j <= |s| && HasTime(state)
  {
    RunWith(Machine(revision, style), s, i, j, state)
  }

  /** The first character of a non-empty run. */
  lemma RunFirst(step: Transition, s: string, i: nat, j: nat, state: ParseState)
    requires KeepsTime(step) && i < j <= |s| && HasTime(state)
    ensures step(s[i], state).Failure? ==>
      RunWith(step, s, i, j, state) == Failure(Halt(step(s[i], state).error, i, state))
    ensures step(s[i], state).Success? ==>
      RunWith(step, s, i, j, state) == RunWith(step, s, i + 1, j, step(s[i], state).value)
  {
  }

  /** What the driver returns for `text`: the machine run over it, then the end-of-input check. */
  function ParseResult(revision: Revision, style: Style, text: string): (r: Result<PGTimestamp, ParseError>)
    ensures r.Success? ==> r.value.time.Some?
    ensures r.Failure? ==> r.error.at <= |text| && r.error.text == text && HasTime(r.error.during)
  {
    match Run(revision, style, text, 0, |text|, InitialParseState(style))
    case Failure(h) => Failure(WrapError(h.error, h.at, text, h.during))
    case Success(state) =>
      match FinishParsing(style, state)
      case Failure(e) => Failure(WrapError(e, |text|, text, state))
      case Success(ts) => Success(ts)
  }

  lemma ParseResultHalts(revision: Revision, style: Style, text: string, h: Halt)
    requires Run(revision, style, text, 0, |text|, InitialParseState(style)) == Failure(h)
    ensures ParseResult(revision, style, text) == Failure(WrapError(h.error, h.at, text, h.during))
  {
  }

  /**
   * The driver's loop: feed each character of `text` in order to `step`,
   * stopping at the first one it refuses, with that character's index and
   * the state before it.
   */
  method Drive(step: Transition, text: string, init: ParseState) returns (r: Result<ParseState, Halt>)
    requires KeepsTime(step) && HasTime(init)
    ensures r == RunWith(step, text, 0, |text|, init)
  {
    var state := init;
    var i := 0;
    while i < |text|
      invariant 0 <= i <= |text|
      invariant HasTime(state)
      invariant RunWith(step, text, 0, |text|, init) == RunWith(step, text, i, |text|, state)
    {
      var next := step(text[i], state);
      RunFirst(step, text, i, |text|, state);
      if next.Failure? {
        return Failure(Halt(next.error, i, state));
      }
      state := next.value;
      i := i + 1;
    }
    return Success(state);
  }

  /**
   * The driver: run the machine over the text, wrap a refused character with
   * its index and the state before it, and finish at the end of the text.
   */
  method Parse(revision: Revision, style: Style, text: string) returns (r: Result<PGTimestamp, ParseError>)
    ensures r == ParseResult(revision, style, text)
  {
    var run := Drive(Machine(revision, style), text, InitialParseState(style));
    if run.Failure? {
      return Failure(WrapError(run.error.error, run.error.at, text, run.error.during));
    }
    var finished := FinishParsing(style, run.value);
    if finished.Failure? {
      return Failure(WrapError(finished.error, |text|, text, run.value));
    }
    return Success(finished.value);
  }

  /**
   * The (state, character) pairs the transition function has a case for,
   * written out as a table independent of `ContinueParsing`.
   */
  predicate Listed(style: Style, c: char, state: ParseState) {
    match state
    case ExpectingField(_, _) => IsDigit(c)
    case ParsingField(field, _, _) =>
      || IsDigit(c)
      || (field == Year && c == '-')
      || (field == Month && c == '-')
      || (field == Day && c == ' ')
      || (field == Hour && c == ':')
      || (field == Minute && c == ':')
      || (field == Second && (c == '.' || c == '+' || c == '-' || (c == ' ' && IncludeDate(style))))
      || (field == TimeZone && (c == ':' || (c == ' ' && IncludeDate(style))))
    case ExpectingEraB(_) => c == 'B'
    case ExpectingEraC(_) => c == 'C'
    case ParsedBC(_) => false
  }

  /** The errors a field conversion can raise. */
  predicate ConversionFailure(e: ConversionError) {
    e.InvalidNumber? || e.InvalidTimeZoneOffset?
  }

  /**
   * A character is refused as unexpected exactly when the pair has no case;
   * a listed pair either succeeds or fails in the conversion of its field.
   */
  lemma UnexpectedIffUnlisted(style: Style, c: char, state: ParseState)
    requires HasTime(state)
    ensures ContinueParsing(style, c, state) == Failure(UnexpectedCharacter(c)) <==> !Listed(style, c, state)
    ensures ContinueParsing(style, c, state).Failure? && Listed(style, c, state) ==>
      ConversionFailure(ContinueParsing(style, c, state).error)
  {
    DigitPatternIsDigits(c);
    if state.ParsingField? {
      FieldUnexpectedIffUnlisted(style, c, state.field, state.accumulated, state.partial);
    }
  }

  lemma FieldUnexpectedIffUnlisted(style: Style, c: char, field: NumericField, acc: NumberAccumulator, ts: PGTimestamp)
    requires ts.time.Some?
    ensures ContinueParsing(style, c, ParsingField(field, acc, ts)) == Failure(UnexpectedCharacter(c)) <==>
      !Listed(style, c, ParsingField(field, acc, ts))
    ensures ContinueParsing(style, c, ParsingField(field, acc, ts)).Failure? && Listed(style, c, ParsingField(field, acc, ts)) ==>
      ConversionFailure(ContinueParsing(style, c, ParsingField(field, acc, ts)).error)
  {
    DigitPatternIsDigits(c);
    SignPatternIsSign(c);
    if !IsDigit(c) {
      match field
      case Year | Month | Day | Hour | Minute =>
        IntegerFieldUnexpected(style, c, field, acc, ts);
      case Second =>
        SecondUnexpected(style, c, acc, ts);
      case TimeZone =>
        ZoneUnexpected(style, c, acc, ts);
    }
  }

  /** The fields read as integers: only their separator is listed, and it fails only in the conversion. */
  lemma IntegerFieldUnexpected(style: Style, c: char, field: NumericField, acc: NumberAccumulator, ts: PGTimestamp)
    requires ts.time.Some? && !IsDigit(c) && field != Second && field != TimeZone
    ensures ContinueParsing(style, c, ParsingField(field, acc, ts)) == Failure(UnexpectedCharacter(c)) <==>
      !Listed(style, c, ParsingField(field, acc, ts))
    ensures ContinueParsing(style, c, ParsingField(field, acc, ts)).Failure? && Listed(style, c, ParsingField(field, acc, ts)) ==>
      ContinueParsing(style, c, ParsingField(field, acc, ts)).error.InvalidNumber?
  {
    DigitPatternIsDigits(c);
    assert ParseInt(acc.digits).Failure? ==> acc.MakeInt().error.InvalidNumber?;
  }

  lemma SecondUnexpected(style: Style, c: char, acc: NumberAccumulator, ts: PGTimestamp)
    requires ts.time.Some? && !IsDigit(c)
    ensures ContinueParsing(style, c, ParsingField(Second, acc, ts)) == Failure(UnexpectedCharacter(c)) <==>
      !Listed(style, c, ParsingField(Second, acc, ts))
    ensures ContinueParsing(style, c, ParsingField(Second, acc, ts)).Failure? && Listed(style, c, ParsingField(Second, acc, ts)) ==>
      ContinueParsing(style, c, ParsingField(Second, acc, ts)).error.InvalidNumber?
  {
    DigitPatternIsDigits(c);
    SignPatternIsSign(c);
    assert ParseDecimal(acc.digits).Failure? ==> acc.MakeDecimal().error.InvalidNumber?;
  }

  lemma ZoneUnexpected(style: Style, c: char, acc: NumberAccumulator, ts: PGTimestamp)
    requires ts.time.Some? && !IsDigit(c)
    ensures ContinueParsing(style, c, ParsingField(TimeZone, acc, ts)) == Failure(UnexpectedCharacter(c)) <==>
      !Listed(style, c, ParsingField(TimeZone, acc, ts))
    ensures ContinueParsing(style, c, ParsingField(TimeZone, acc, ts)).Failure? && Listed(style, c, ParsingField(TimeZone, acc, ts)) ==>
      ConversionFailure(ContinueParsing(style, c, ParsingField(TimeZone, acc, ts)).error)
  {
    DigitPatternIsDigits(c);
    SignPatternIsSign(c);
    assert acc.MakeZone().Failure? ==> ConversionFailure(acc.MakeZone().error);
  }

  /** A digit starts a field with a one-character accumulator, or extends the field being read. */
  lemma DigitTransition(style: Style, c: char, state: ParseState)
    requires HasTime(state) && IsDigit(c)
    ensures state.ExpectingField? ==>
      ContinueParsing(style, c, state) == Success(ParsingField(state.field, AccumulatorOf(c), state.partial))
    ensures state.ParsingField? ==>
      ContinueParsing(style, c, state) == Success(ParsingField(state.field, state.accumulated.Adding(c), state.partial))
    ensures !state.ExpectingField? && !state.ParsingField? ==>
      ContinueParsing(style, c, state) == Failure(UnexpectedCharacter(c))
  {
    DigitPatternIsDigits(c);
  }

  /** `c` is the separator that ends `field` and the next field after it. */
  predicate Separates(field: NumericField, c: char, next: NumericField) {
    || (field == Year && c == '-' && next == Month)
    || (field == Month && c == '-' && next == Day)
    || (field == Hour && c == ':' && next == Minute)
    || (field == Minute && c == ':' && next == Second)
  }

  /** The timestamp with `field` set to `value`, for the fields committed by a separator. */
  function Commit(ts: PGTimestamp, field: NumericField, value: int): (r: PGTimestamp)
    requires ts.time.Some?
    ensures r.time.Some?
  {
    match field
    case Year => ts.(date := SetYear(ts.date, value))
    case Month => ts.(date := SetMonth(ts.date, value))
    case Day => ts.(date := SetDay(ts.date, value))
    case Hour => WithHour(ts, value)
    case Minute => WithMinute(ts, value)
    case _ => ts
  }

  /**
   * '-' after the year or month and ':' after the hour or minute commit the
   * number read so far and expect the next field; a number that does not
   * convert is the error.
   */
  lemma SeparatorCommits(style: Style, c: char, field: NumericField, next: NumericField, acc: NumberAccumulator, ts: PGTimestamp)
    requires ts.time.Some? && Separates(field, c, next)
    ensures acc.MakeInt().Failure? ==>
      ContinueParsing(style, c, ParsingField(field, acc, ts)) == Failure(InvalidNumber(acc.digits))
    ensures acc.MakeInt().Success? ==>
      ContinueParsing(style, c, ParsingField(field, acc, ts)) == Success(ExpectingField(next, Commit(ts, field, acc.MakeInt().value)))
  {
    assert !IsDigit(c);
    DigitPatternIsDigits(c);
  }

  /**
   * A space after the day commits it, then expects the hour when the text
   * holds a time and the era otherwise.
   */
  lemma DaySpace(style: Style, acc: NumberAccumulator, ts: PGTimestamp)
    requires ts.time.Some?
    ensures acc.MakeInt().Failure? ==>
      ContinueParsing(style, ' ', ParsingField(Day, acc, ts)) == Failure(InvalidNumber(acc.digits))
    ensures acc.MakeInt().Success? && IncludeTime(style) ==>
      ContinueParsing(style, ' ', ParsingField(Day, acc, ts)) == Success(ExpectingField(Hour, Commit(ts, Day, acc.MakeInt().value)))
    ensures acc.MakeInt().Success? && !IncludeTime(style) ==>
      ContinueParsing(style, ' ', ParsingField(Day, acc, ts)) == Success(ExpectingEraB(Commit(ts, Day, acc.MakeInt().value)))
  {
    DigitPatternIsDigits(' ');
  }

  /**
   * Inside the seconds, '.' is kept in the accumulator, and a sign commits the
   * seconds and starts the time-zone field on the same accumulator, so the
   * zone text begins with the seconds text.
   */
  lemma SecondsPunctuation(style: Style, c: char, acc: NumberAccumulator, ts: PGTimestamp)
    requires ts.time.Some? && (c == '.' || c == '+' || c == '-')
    ensures c == '.' ==>
      ContinueParsing(style, c, ParsingField(Second, acc, ts)) == Success(ParsingField(Second, acc.Adding('.'), ts))
    ensures c != '.' && acc.MakeDecimal().Failure? ==>
      ContinueParsing(style, c, ParsingField(Second, acc, ts)) == Failure(InvalidNumber(acc.digits))
    ensures c != '.' && acc.MakeDecimal().Success? ==>
      ContinueParsing(style, c, ParsingField(Second, acc, ts)) ==
        Success(ParsingField(TimeZone, NumberAccumulator(acc.digits + [c]), WithSecond(ts, acc.MakeDecimal().value)))
  {
    DigitPatternIsDigits(c);
    SignPatternIsSign(c);
  }

  /**
   * In a style with a date, a space after the seconds or after the zone
   * commits that field and expects the era; a field that does not convert is
   * the error.
   */
  lemma TimeSpace(style: Style, acc: NumberAccumulator, ts: PGTimestamp)
    requires ts.time.Some? && IncludeDate(style)
    ensures acc.MakeDecimal().Success? ==>
      ContinueParsing(style, ' ', ParsingField(Second, acc, ts)) == Success(ExpectingEraB(WithSecond(ts, acc.MakeDecimal().value)))
    ensures acc.MakeDecimal().Failure? ==>
      ContinueParsing(style, ' ', ParsingField(Second, acc, ts)) == Failure(acc.MakeDecimal().error)
    ensures acc.MakeZone().Success? ==>
      ContinueParsing(style, ' ', ParsingField(TimeZone, acc, ts)) == Success(ExpectingEraB(WithZone(ts, acc.MakeZone().value)))
    ensures acc.MakeZone().Failure? ==>
      ContinueParsing(style, ' ', ParsingField(TimeZone, acc, ts)) == Failure(acc.MakeZone().error)
  {
    DigitPatternIsDigits(' ');
    SignPatternIsSign(' ');
  }

  /** A ':' inside the time zone is skipped. */
  lemma ZoneColonSkipped(style: Style, acc: NumberAccumulator, ts: PGTimestamp)
    requires ts.time.Some?
    ensures ContinueParsing(style, ':', ParsingField(TimeZone, acc, ts)) == Success(ParsingField(TimeZone, acc, ts))
  {
    DigitPatternIsDigits(':');
  }

  /**
   * The era suffix: 'B' then 'C' set the era to BC, and nothing may follow.
   */
  lemma EraTransitions(style: Style, c: char, ts: PGTimestamp)
    requires ts.time.Some?
    ensures ContinueParsing(style, c, ExpectingEraB(ts)).Success? <==> c == 'B'
    ensures ContinueParsing(style, c, ExpectingEraC(ts)).Success? <==> c == 'C'
    ensures c == 'C' ==> ContinueParsing(style, c, ExpectingEraC(ts)) == Success(ParsedBC(ts.(date := SetEra(ts.date, BC))))
    ensures ContinueParsing(style, c, ParsedBC(ts)) == Failure(UnexpectedCharacter(c))
  {
  }

  /** At the end of a date-only text the day is committed, or its conversion error is the result. */
  lemma DayEnds(acc: NumberAccumulator, ts: PGTimestamp)
    requires ts.time.Some?
    ensures acc.MakeInt().Success? ==>
      FinishParsing(DateStyle, ParsingField(Day, acc, ts)) == Success(Commit(ts, Day, acc.MakeInt().value))
    ensures acc.MakeInt().Failure? ==>
      FinishParsing(DateStyle, ParsingField(Day, acc, ts)) == Failure(acc.MakeInt().error)
  {
  }

  /** The states in which the input may end. */
  predicate AcceptingAtEnd(style: Style, state: ParseState) {
    || (state.ParsingField? && state.field == Day && !IncludeTime(style))
    || (state.ParsingField? && state.field == Second)
    || (state.ParsingField? && state.field == TimeZone)
    || state.ParsedBC?
  }

  /**
   * The end of the input is early exactly in the states that cannot end; in
   * the others the pending field is converted and committed.
   */
  lemma FinishAccepts(style: Style, state: ParseState)
    requires HasTime(state)
    ensures FinishParsing(style, state) == Failure(EarlyTermination) <==> !AcceptingAtEnd(style, state)
    ensures state.ParsedBC? ==> FinishParsing(style, state) == Success(state.partial)
    ensures state.ParsingField? && state.field == Second ==>
      FinishParsing(style, state) == (match state.accumulated.MakeDecimal()
        case Success(second) => Success(WithSecond(state.partial, second))
        case Failure(e) => Failure(e))
    ensures state.ParsingField? && state.field == TimeZone ==>
      FinishParsing(style, state) == (match state.accumulated.MakeZone()
        case Success(zone) => Success(WithZone(state.partial, zone))
        case Failure(e) => Failure(e))
  {
    if state.ParsingField? {
      var acc := state.accumulated;
      assert acc.MakeInt().Failure? ==> acc.MakeInt().error.InvalidNumber?;
      assert acc.MakeDecimal().Failure? ==> acc.MakeDecimal().error.InvalidNumber?;
      assert acc.MakeZone().Failure? ==> ConversionFailure(acc.MakeZone().error);
    }
  }

  /** Running over `s[i..k]` is running over `s[i..j]`, then over `s[j..k]` from where the first part left the machine. */
  lemma {:induction false} RunSplit(step: Transition, s: string, i: nat, j: nat, k: nat, state: ParseState)
    requires KeepsTime(step) && i <= j <= k <= |s| && HasTime(state)
    ensures RunWith(step, s, i, j, state).Failure? ==>
      RunWith(step, s, i, k, state) == RunWith(step, s, i, j, state)
    ensures RunWith(step, s, i, j, state).Success? ==>
      RunWith(step, s, i, k, state) == RunWith(step, s, j, k, RunWith(step, s, i, j, state).value)
    decreases j - i
  {
    if i < j {
      RunFirst(step, s, i, j, state);
      RunFirst(step, s, i, k, state);
      var next := step(s[i], state);
      if next.Success? {
        RunSplit(step, s, i + 1, j, k, next.value);
      }
    }
  }

  /**
   * Where a run stops: the characters before the index take the machine to
   * the state it reports, and the character at the index is refused with the
   * error it reports.
   */
  lemma RunHalts(step: Transition, s: string, i: nat, j: nat, state: ParseState)
    requires KeepsTime(step) && i <= j <= |s| && HasTime(state) && RunWith(step, s, i, j, state).Failure?
    ensures var h := RunWith(step, s, i, j, state).error;
      && RunWith(step, s, i, h.at, state) == Success(h.during)
      && step(s[h.at], h.during) == Failure(h.error)
  {
    var h := RunWith(step, s, i, j, state).error;
    RunHaltsAt(step, s, i, h.at, j, state);
    RunSplit(step, s, i, h.at, j, state);
    RunFirst(step, s, h.at, j, h.during);
  }

  lemma {:induction false} RunHaltsAt(step: Transition, s: string, i: nat, m: nat, j: nat, state: ParseState)
    requires KeepsTime(step) && i <= m < j <= |s| && HasTime(state)
    requires RunWith(step, s, i, j, state).Failure? && RunWith(step, s, i, j, state).error.at == m
    ensures RunWith(step, s, i, m, state).Success?
    decreases m - i
  {
    if i < m {
      RunFirst(step, s, i, j, state);
      RunFirst(step, s, i, m, state);
      var next := step(s[i], state);
      if next.Success? {
        RunHaltsAt(step, s, i + 1, m, j, next.value);
      }
    }
  }
}
