/**
 * What reading gives back from what writing produced: the text written for a
 * timestamp, read in the same style, yields the parts of the timestamp that
 * style writes, and the defaults for the rest. Also what the machine as
 * written does with a time zone.
 */
module RoundTrip {
  import opened Wrappers
  import opened PGError
  import opened Numerals
  import opened PGTypes
  import opened ParsingHelpers
  import opened TimestampParser
  import opened TimestampFormatter

  /** The machine `step` reads all of `w`, from `source`, and stops in `target`. */
  ghost predicate Reaches(step: Transition, w: string, source: ParseState, target: ParseState)
    requires KeepsTime(step) && HasTime(source)
  {
    RunWith(step, w, 0, |w|, source) == Success(target)
  }

  /** A run depends only on the characters it reads, not on where they sit. */
  lemma {:induction false} RunAgree(step: Transition, s: string, i: nat, j: nat, t: string, p: nat, state: ParseState)
    requires KeepsTime(step) && i <= j <= |s| && p + (j - i) <= |t| && HasTime(state)
    requires s[i..j] == t[p..p + (j - i)]
    ensures RunWith(step, s, i, j, state).Success? <==> RunWith(step, t, p, p + (j - i), state).Success?
    ensures RunWith(step, s, i, j, state).Success? ==>
      RunWith(step, s, i, j, state).value == RunWith(step, t, p, p + (j - i), state).value
    decreases j - i
  {
    if i < j {
      assert s[i] == s[i..j][0] == t[p..p + (j - i)][0] == t[p];
      RunFirst(step, s, i, j, state);
      RunFirst(step, t, p, p + (j - i), state);
      var next := step(s[i], state);
      if next.Success? {
        assert s[i + 1..j] == s[i..j][1..] == t[p..p + (j - i)][1..] == t[p + 1..p + (j - i)];
        RunAgree(step, s, i + 1, j, t, p + 1, next.value);
      }
    }
  }

  lemma ReachesThen(step: Transition, a: string, b: string, s0: ParseState, s1: ParseState, s2: ParseState)
    requires KeepsTime(step) && HasTime(s0) && HasTime(s1)
    requires Reaches(step, a, s0, s1) && Reaches(step, b, s1, s2)
    ensures Reaches(step, a + b, s0, s2)
  {
    var ab := a + b;
    assert ab[0..|a|] == a == a[0..|a|];
    RunAgree(step, ab, 0, |a|, a, 0, s0);
    assert ab[|a|..|ab|] == b == b[0..|b|];
    RunAgree(step, ab, |a|, |ab|, b, 0, s1);
    RunSplit(step, ab, 0, |a|, |ab|, s0);
  }

  lemma ReachesStep(step: Transition, c: char, source: ParseState, target: ParseState)
    requires KeepsTime(step) && HasTime(source) && step(c, source) == Success(target)
    ensures Reaches(step, [c], source, target)
  {
    RunFirst(step, [c], 0, 1, source);
  }

  /** Away from a sign ending the seconds, both revisions take the same step. */
  lemma StepUnsigned(revision: Revision, style: Style, c: char, state: ParseState)
    requires HasTime(state)
    requires (c != '+' && c != '-') || !(state.ParsingField? && state.field == Second)
    ensures Machine(revision, style)(c, state) == ContinueParsing(style, c, state)
  {
  }

  /** Digits, and '.' inside the seconds, only extend the accumulator. */
  lemma {:induction false} ReachesAccumulating(revision: Revision, style: Style, w: string, field: NumericField, acc: NumberAccumulator, ts: PGTimestamp)
    requires ts.time.Some?
    requires forall k :: 0 <= k < |w| ==> IsDigit(w[k]) || (field == Second && w[k] == '.')
    ensures Reaches(Machine(revision, style), w, ParsingField(field, acc, ts), ParsingField(field, NumberAccumulator(acc.digits + w), ts))
    decreases |w|
  {
    if w == [] {
      assert acc.digits + w == acc.digits;
    } else {
      var front := w[..|w| - 1];
      var c := w[|w| - 1];
      assert front + [c] == w;
      ReachesAccumulating(revision, style, front, field, acc, ts);
      var middle := ParsingField(field, NumberAccumulator(acc.digits + front), ts);
      var last := ParsingField(field, NumberAccumulator(acc.digits + w), ts);
      StepUnsigned(revision, style, c, middle);
      if IsDigit(c) {
        DigitTransition(style, c, middle);
      } else {
        SecondsPunctuation(style, c, NumberAccumulator(acc.digits + front), ts);
      }
      assert acc.digits + front + [c] == acc.digits + w;
      ReachesStep(Machine(revision, style), c, middle, last);
      ReachesThen(Machine(revision, style), front, [c], ParsingField(field, acc, ts), middle, last);
    }
  }

  /** A field read from its first character: the accumulator holds exactly the text read. */
  lemma ReachesField(revision: Revision, style: Style, w: string, field: NumericField, ts: PGTimestamp)
    requires ts.time.Some? && |w| >= 1 && IsDigit(w[0])
    requires forall k :: 0 <= k < |w| ==> IsDigit(w[k]) || (field == Second && w[k] == '.')
    ensures Reaches(Machine(revision, style), w, ExpectingField(field, ts), ParsingField(field, NumberAccumulator(w), ts))
  {
    var first := ParsingField(field, AccumulatorOf(w[0]), ts);
    StepUnsigned(revision, style, w[0], ExpectingField(field, ts));
    DigitTransition(style, w[0], ExpectingField(field, ts));
    ReachesStep(Machine(revision, style), w[0], ExpectingField(field, ts), first);
    ReachesAccumulating(revision, style, w[1..], field, AccumulatorOf(w[0]), ts);
    assert [w[0]] + w[1..] == w;
    ReachesThen(Machine(revision, style), [w[0]], w[1..], ExpectingField(field, ts), first, ParsingField(field, NumberAccumulator(w), ts));
  }

  /**
   * The zones that survive being written and read back: minutes below an
   * hour, at most twelve hours, no minutes without hours, and both parts of
   * one sign.
   */
  predicate DecodableZone(zone: Zone) {
    && Abs(zone.minutes) < 60
    && Abs(zone.hours) * 100 + Abs(zone.minutes) <= 1200
    && (zone.minutes != 0 ==> zone.hours != 0)
    && (zone.hours < 0 ==> zone.minutes <= 0)
    && (zone.hours > 0 ==> zone.minutes >= 0)
  }

  /** Every zone the decoder produces is one that writing and reading preserve. */
  lemma ZoneFromCodeDecodable(code: int)
    requires ZoneFromCode(code).Success?
    ensures DecodableZone(ZoneFromCode(code).value)
  {
  }

  /** The sign a zone's text starts with. */
  function ZoneSign(zone: Zone): char {
    if zone.hours < 0 then '-' else '+'
  }

  /** The four digits after the sign. */
  function ZoneDigits(zone: Zone): string {
    Pad(Abs(zone.hours), 2) + Pad(Abs(zone.minutes), 2)
  }

  /** A zone's text is its sign followed by the two padded magnitudes. */
  lemma ZoneTextSplit(zone: Zone)
    ensures ZoneText(zone) == [ZoneSign(zone)] + ZoneDigits(zone)
  {
    Associate([ZoneSign(zone)], Pad(Abs(zone.hours), 2), Pad(Abs(zone.minutes), 2));
  }

  /** Two two-digit padded numbers side by side read as `high * 100 + low`. */
  lemma PairValue(high: nat, low: nat)
    requires low < 100
    ensures AllDigits(Pad(high, 2) + Pad(low, 2)) && |Pad(high, 2) + Pad(low, 2)| >= 1
    ensures DigitsValue(Pad(high, 2) + Pad(low, 2)) == high * 100 + low
  {
    PadWidth(low, 2);
    DigitsValueAppend(Pad(high, 2), Pad(low, 2));
    assert Pow10(2) == 100;
  }

  lemma DivMod100(high: nat, low: nat)
    requires low < 100
    ensures (high * 100 + low) / 100 == high && (high * 100 + low) % 100 == low
  {
  }

  /** The decoder maps the code a decodable zone is written as back to the zone. */
  lemma ZoneFromCodeInverse(zone: Zone)
    requires DecodableZone(zone)
    ensures ZoneFromCode(Signed(zone.hours < 0, Abs(zone.hours) * 100 + Abs(zone.minutes))) == Success(zone)
  {
    var magnitude := Abs(zone.hours) * 100 + Abs(zone.minutes);
    var code := Signed(zone.hours < 0, magnitude);
    assert Abs(code) == magnitude;
    if zone.hours != 0 {
      DivMod100(Abs(zone.hours), Abs(zone.minutes));
      var r := ZoneFromCode(code);
      assert r.Success? && Abs(r.value.hours) == Abs(zone.hours) && Abs(r.value.minutes) == Abs(zone.minutes);
    }
  }

  /** `make() -> PGTime.Zone` reads back the text the formatter writes for a decodable zone. */
  lemma ZoneTextDecodes(zone: Zone)
    requires DecodableZone(zone)
    ensures NumberAccumulator(ZoneText(zone)).MakeZone() == Success(zone)
  {
    ZoneTextSplit(zone);
    PairValue(Abs(zone.hours), Abs(zone.minutes));
    ParseIntSigned(zone.hours < 0, ZoneDigits(zone));
    ZoneFromCodeInverse(zone);
  }

  /**
   * Outside the decodable zones the text does not read back: five minutes
   * east is written "+0005", whose code 5 is read as a `±hh` offset.
   */
  lemma ZeroHourZoneMisread()
    ensures ZoneText(Zone(0, 5)) == "+" + ZoneDigits(Zone(0, 5))
    ensures NumberAccumulator(ZoneText(Zone(0, 5))).MakeZone() == Success(Zone(5, 0))
  {
    ZoneTextSplit(Zone(0, 5));
    PairValue(0, 5);
    ParseIntSigned(false, ZoneDigits(Zone(0, 5)));
  }

  /** In the corrected machine a sign after the seconds commits them and starts the zone with the sign alone. */
  lemma ZoneSignStep(style: Style, c: char, acc: NumberAccumulator, ts: PGTimestamp)
    requires ts.time.Some? && (c == '+' || c == '-') && acc.MakeDecimal().Success?
    ensures Machine(Corrected, style)(c, ParsingField(Second, acc, ts)) ==
      Success(ParsingField(TimeZone, AccumulatorOf(c), WithSecond(ts, acc.MakeDecimal().value)))
  {
    SignPatternIsSign(c);
  }

  /** The four digits of a zone extend the zone field that holds its sign. */
  lemma ReachesZoneDigits(style: Style, zone: Zone, ts: PGTimestamp)
    requires ts.time.Some? && DecodableZone(zone)
    ensures Reaches(Machine(Corrected, style), ZoneDigits(zone), ParsingField(TimeZone, AccumulatorOf(ZoneSign(zone)), ts),
      ParsingField(TimeZone, NumberAccumulator(ZoneText(zone)), ts))
  {
    PairValue(Abs(zone.hours), Abs(zone.minutes));
    ZoneTextSplit(zone);
    ReachesAccumulating(Corrected, style, ZoneDigits(zone), TimeZone, AccumulatorOf(ZoneSign(zone)), ts);
  }

  /** The zone text ends the seconds and is collected by the corrected machine, sign first. */
  lemma ReachesZone(style: Style, zone: Zone, acc: NumberAccumulator, ts: PGTimestamp)
    requires ts.time.Some? && DecodableZone(zone) && acc.MakeDecimal().Success?
    ensures Reaches(Machine(Corrected, style), ZoneText(zone), ParsingField(Second, acc, ts),
      ParsingField(TimeZone, NumberAccumulator(ZoneText(zone)), WithSecond(ts, acc.MakeDecimal().value)))
  {
    ZoneSignStep(style, ZoneSign(zone), acc, ts);
    ReachesStep(Machine(Corrected, style), ZoneSign(zone), ParsingField(Second, acc, ts),
      ParsingField(TimeZone, AccumulatorOf(ZoneSign(zone)), WithSecond(ts, acc.MakeDecimal().value)));
    ReachesZoneDigits(style, zone, WithSecond(ts, acc.MakeDecimal().value));
    ZoneTextSplit(zone);
    ReachesThen(Machine(Corrected, style), [ZoneSign(zone)], ZoneDigits(zone), ParsingField(Second, acc, ts),
      ParsingField(TimeZone, AccumulatorOf(ZoneSign(zone)), WithSecond(ts, acc.MakeDecimal().value)),
      ParsingField(TimeZone, NumberAccumulator(ZoneText(zone)), WithSecond(ts, acc.MakeDecimal().value)));
  }

  /** A non-negative field followed by its separator: the field is committed and the next one expected. */
  lemma ReachesSeparatedField(revision: Revision, style: Style, v: int, width: nat, field: NumericField, c: char, next: NumericField, ts: PGTimestamp)
    requires ts.time.Some? && 0 <= v <= Int64Max && Separates(field, c, next)
    ensures Reaches(Machine(revision, style), FormatInt(v, width) + [c], ExpectingField(field, ts), ExpectingField(next, Commit(ts, field, v)))
  {
    var w := FormatInt(v, width);
    var reading := ParsingField(field, NumberAccumulator(w), ts);
    ReachesField(revision, style, w, field, ts);
    ParseIntFormatInt(v, width);
    SeparatorCommits(style, c, field, next, NumberAccumulator(w), ts);
    StepUnsigned(revision, style, c, reading);
    ReachesStep(Machine(revision, style), c, reading, ExpectingField(next, Commit(ts, field, v)));
    ReachesThen(Machine(revision, style), w, [c], ExpectingField(field, ts), reading, ExpectingField(next, Commit(ts, field, v)));
  }

  /** The text of a non-negative number is digits only, at least one. */
  lemma NaturalText(v: int, width: nat)
    requires v >= 0
    ensures var w := FormatInt(v, width);
      && |w| >= 1 && IsDigit(w[0]) && forall k :: 0 <= k < |w| ==> IsDigit(w[k])
  {
  }

  lemma DateTextSplit(year: int, month: int, day: int)
    ensures DateText(year, month, day) == (FormatInt(year, 4) + "-") + (FormatInt(month, 2) + "-") + FormatInt(day, 2)
  {
    Associate(FormatInt(year, 4) + "-", FormatInt(month, 2), "-");
  }

  lemma ClockTextSplit(time: PGTime)
    ensures ClockText(time) == (FormatInt(time.hour, 2) + ":") + (FormatInt(time.minute, 2) + ":") + FormatDecimal(time.second, 2)
  {
    Associate(FormatInt(time.hour, 2) + ":", FormatInt(time.minute, 2), ":");
  }

  /** The date with the year and month read and the day still to be read. */
  function DatePartial(year: int, month: int): PGTimestamp {
    PGTimestamp(Date(AD, year, month, 1), Some(DefaultTime))
  }

  /** Two separated fields in a row. */
  lemma ReachesTwoFields(revision: Revision, style: Style, u: int, uWidth: nat, v: int, vWidth: nat,
                         first: NumericField, c: char, second: NumericField, third: NumericField, ts: PGTimestamp)
    requires ts.time.Some? && 0 <= u <= Int64Max && 0 <= v <= Int64Max
    requires Separates(first, c, second) && Separates(second, c, third)
    ensures Reaches(Machine(revision, style), (FormatInt(u, uWidth) + [c]) + (FormatInt(v, vWidth) + [c]),
      ExpectingField(first, ts), ExpectingField(third, Commit(Commit(ts, first, u), second, v)))
  {
    var middle := Commit(ts, first, u);
    ReachesSeparatedField(revision, style, u, uWidth, first, c, second, ts);
    ReachesSeparatedField(revision, style, v, vWidth, second, c, third, middle);
    ReachesThen(Machine(revision, style), FormatInt(u, uWidth) + [c], FormatInt(v, vWidth) + [c],
      ExpectingField(first, ts), ExpectingField(second, middle), ExpectingField(third, Commit(middle, second, v)));
  }

  /** Solver helper: committing year and month to the default timestamp is the partial date. */
  lemma CommitDate(year: int, month: int)
    ensures Commit(Commit(DefaultTimestamp, Year, year), Month, month) == DatePartial(year, month)
  {
  }

  /** The state after `YYYY-MM-DD`: the day field holding the day's text. */
  function DayState(year: int, month: int, day: int): (state: ParseState)
    ensures HasTime(state)
  {
    ParsingField(Day, NumberAccumulator(FormatInt(day, 2)), DatePartial(year, month))
  }

  lemma InitialDate(style: Style)
    requires IncludeDate(style)
    ensures InitialParseState(style) == ExpectingField(Year, DefaultTimestamp)
  {
  }

  /** `YYYY-MM-DD` takes the machine to the day field holding the day's text. */
  lemma ReachesDate(revision: Revision, style: Style, year: int, month: int, day: int)
    requires IncludeDate(style)
    requires 0 <= year <= Int64Max && 0 <= month <= Int64Max && 0 <= day <= Int64Max
    ensures Reaches(Machine(revision, style), DateText(year, month, day), InitialParseState(style), DayState(year, month, day))
  {
    DateTextSplit(year, month, day);
    CommitDate(year, month);
    InitialDate(style);
    ReachesTwoFields(revision, style, year, 4, month, 2, Year, '-', Month, Day, DefaultTimestamp);
    NaturalText(day, 2);
    ReachesField(revision, style, FormatInt(day, 2), Day, DatePartial(year, month));
    ReachesThen(Machine(revision, style), (FormatInt(year, 4) + "-") + (FormatInt(month, 2) + "-"), FormatInt(day, 2),
      ExpectingField(Year, DefaultTimestamp), ExpectingField(Day, DatePartial(year, month)), DayState(year, month, day));
  }

  /** The fields of a time that its text brings back. */
  predicate ClockFields(time: PGTime) {
    0 <= time.hour <= Int64Max && 0 <= time.minute <= Int64Max && time.second.mantissa >= 0
  }

  /** The seconds' text reads back as the seconds. */
  lemma SecondsText(second: Decimal)
    requires second.mantissa >= 0
    ensures var w := FormatDecimal(second, 2);
      && |w| >= 1 && IsDigit(w[0]) && (forall k :: 0 <= k < |w| ==> IsDigit(w[k]) || w[k] == '.')
      && NumberAccumulator(w).MakeDecimal() == Success(second)
  {
    DecimalTextShape(second.mantissa, second.scale, 2);
    ParseDecimalFormatDecimal(second, 2);
  }

  /** The state after `HH:MM:SS`: the seconds field holding the seconds' text. */
  function ClockState(time: PGTime, ts: PGTimestamp): (state: ParseState)
    requires ts.time.Some?
    ensures HasTime(state)
  {
    ParsingField(Second, NumberAccumulator(FormatDecimal(time.second, 2)), WithMinute(WithHour(ts, time.hour), time.minute))
  }

  lemma ReachesSeconds(revision: Revision, style: Style, second: Decimal, ts: PGTimestamp)
    requires ts.time.Some? && second.mantissa >= 0
    ensures Reaches(Machine(revision, style), FormatDecimal(second, 2), ExpectingField(Second, ts),
      ParsingField(Second, NumberAccumulator(FormatDecimal(second, 2)), ts))
  {
    SecondsText(second);
    ReachesField(revision, style, FormatDecimal(second, 2), Second, ts);
  }

  /** Solver helper: committing hour and minute is `WithMinute(WithHour(...))`. */
  lemma CommitClock(ts: PGTimestamp, hour: int, minute: int)
    requires ts.time.Some?
    ensures Commit(Commit(ts, Hour, hour), Minute, minute) == WithMinute(WithHour(ts, hour), minute)
  {
  }

  lemma ReachesClock(revision: Revision, style: Style, time: PGTime, ts: PGTimestamp)
    requires ts.time.Some? && ClockFields(time)
    ensures Reaches(Machine(revision, style), ClockText(time), ExpectingField(Hour, ts), ClockState(time, ts))
  {
    ClockTextSplit(time);
    CommitClock(ts, time.hour, time.minute);
    ReachesTwoFields(revision, style, time.hour, 2, time.minute, 2, Hour, ':', Minute, Second, ts);
    ReachesSeconds(revision, style, time.second, WithMinute(WithHour(ts, time.hour), time.minute));
    ReachesThen(Machine(revision, style), (FormatInt(time.hour, 2) + ":") + (FormatInt(time.minute, 2) + ":"), FormatDecimal(time.second, 2),
      ExpectingField(Hour, ts), ExpectingField(Second, WithMinute(WithHour(ts, time.hour), time.minute)), ClockState(time, ts));
  }

  /** A time whose text reads back as itself: fields the clock text brings back, and a zone only when it can be read. */
  predicate TimeRepresentable(revision: Revision, time: PGTime) {
    ClockFields(time) && (time.timeZone.Some? ==> revision == Corrected && DecodableZone(time.timeZone.value))
  }

  /** The state after a time's text: the seconds field, or the zone field when there is a zone. */
  function TimeState(time: PGTime, ts: PGTimestamp): (state: ParseState)
    requires ts.time.Some?
    ensures HasTime(state)
  {
    match time.timeZone
    case None => ClockState(time, ts)
    case Some(zone) =>
      ParsingField(TimeZone, NumberAccumulator(ZoneText(zone)), WithSecond(WithMinute(WithHour(ts, time.hour), time.minute), time.second))
  }

  lemma ReachesTime(revision: Revision, style: Style, time: PGTime, ts: PGTimestamp)
    requires ts.time.Some? && TimeRepresentable(revision, time)
    ensures Reaches(Machine(revision, style), TimeText(time), ExpectingField(Hour, ts), TimeState(time, ts))
  {
    ReachesClock(revision, style, time, ts);
    if time.timeZone.Some? {
      var zone := time.timeZone.value;
      SecondsText(time.second);
      ReachesZone(style, zone, NumberAccumulator(FormatDecimal(time.second, 2)), WithMinute(WithHour(ts, time.hour), time.minute));
      ReachesThen(Machine(Corrected, style), ClockText(time), ZoneText(zone), ExpectingField(Hour, ts), ClockState(time, ts), TimeState(time, ts));
    }
  }

  /** At the end of a time's text the pending field is committed, and the time read is the time written. */
  lemma TimeStateFinishes(style: Style, time: PGTime, ts: PGTimestamp)
    requires ts.time == Some(DefaultTime) && TimeRepresentable(Corrected, time)
    ensures FinishParsing(style, TimeState(time, ts)) == Success(ts.(time := Some(time)))
  {
    SecondsText(time.second);
    FinishAccepts(style, TimeState(time, ts));
    if time.timeZone.Some? {
      ZoneTextDecodes(time.timeZone.value);
    }
  }

  /** A space after a time's text commits the pending field and expects the era. */
  lemma TimeStateSpace(revision: Revision, style: Style, time: PGTime, ts: PGTimestamp)
    requires IncludeDate(style) && ts.time == Some(DefaultTime) && TimeRepresentable(Corrected, time)
    ensures Machine(revision, style)(' ', TimeState(time, ts)) == Success(ExpectingEraB(ts.(time := Some(time))))
  {
    StepUnsigned(revision, style, ' ', TimeState(time, ts));
    if time.timeZone.Some? {
      ZoneSpace(style, time, ts);
    } else {
      ClockSpace(style, time, ts);
    }
  }

  /** Setting every field of the default time gives the time itself. */
  lemma ClockFilled(time: PGTime, ts: PGTimestamp)
    requires ts.time == Some(DefaultTime) && time.timeZone.None?
    ensures WithSecond(WithMinute(WithHour(ts, time.hour), time.minute), time.second) == ts.(time := Some(time))
  {
  }

  lemma ZoneFilled(time: PGTime, ts: PGTimestamp)
    requires ts.time == Some(DefaultTime) && time.timeZone.Some?
    ensures WithZone(WithSecond(WithMinute(WithHour(ts, time.hour), time.minute), time.second), time.timeZone.value)
      == ts.(time := Some(time))
  {
  }

  lemma ClockSpace(style: Style, time: PGTime, ts: PGTimestamp)
    requires IncludeDate(style) && ts.time == Some(DefaultTime) && TimeRepresentable(Corrected, time) && time.timeZone.None?
    ensures ContinueParsing(style, ' ', ClockState(time, ts)) == Success(ExpectingEraB(ts.(time := Some(time))))
  {
    SecondsText(time.second);
    TimeSpace(style, NumberAccumulator(FormatDecimal(time.second, 2)), WithMinute(WithHour(ts, time.hour), time.minute));
    ClockFilled(time, ts);
  }

  lemma ZoneSpace(style: Style, time: PGTime, ts: PGTimestamp)
    requires IncludeDate(style) && ts.time == Some(DefaultTime) && TimeRepresentable(Corrected, time) && time.timeZone.Some?
    ensures ContinueParsing(style, ' ', TimeState(time, ts)) == Success(ExpectingEraB(ts.(time := Some(time))))
  {
    ZoneTextDecodes(time.timeZone.value);
    TimeSpace(style, NumberAccumulator(ZoneText(time.timeZone.value)), WithSecond(WithMinute(WithHour(ts, time.hour), time.minute), time.second));
    ZoneFilled(time, ts);
  }

  /** ` BC` after a state whose space leads to the era. */
  lemma ReachesEraSuffix(revision: Revision, style: Style, source: ParseState, ts: PGTimestamp)
    requires HasTime(source) && ts.time.Some? && Machine(revision, style)(' ', source) == Success(ExpectingEraB(ts))
    ensures Reaches(Machine(revision, style), " BC", source, ParsedBC(ts.(date := SetEra(ts.date, BC))))
  {
    var step := Machine(revision, style);
    var done := ParsedBC(ts.(date := SetEra(ts.date, BC)));
    EraTransitions(style, 'B', ts);
    EraTransitions(style, 'C', ts);
    ReachesStep(step, ' ', source, ExpectingEraB(ts));
    ReachesStep(step, 'B', ExpectingEraB(ts), ExpectingEraC(ts));
    ReachesStep(step, 'C', ExpectingEraC(ts), done);
    ReachesThen(step, ['B'], ['C'], ExpectingEraB(ts), ExpectingEraC(ts), done);
    assert ['B'] + ['C'] == "BC";
    ReachesThen(step, [' '], "BC", source, ExpectingEraB(ts), done);
    assert [' '] + "BC" == " BC";
  }

  /** The parser's result once the text has been read and the end accepted. */
  lemma ParseResultOfReach(revision: Revision, style: Style, text: string, state: ParseState, result: PGTimestamp)
    requires HasTime(state) && Reaches(Machine(revision, style), text, InitialParseState(style), state)
    requires FinishParsing(style, state) == Success(result)
    ensures ParseResult(revision, style, text) == Success(result)
  {
  }

  /** A text that leaves the machine with its era parsed reads as the timestamp collected. */
  lemma ParseResultOfBC(revision: Revision, style: Style, text: string, ts: PGTimestamp)
    requires ts.time.Some? && Reaches(Machine(revision, style), text, InitialParseState(style), ParsedBC(ts))
    ensures ParseResult(revision, style, text) == Success(ts)
  {
    ParseResultOfReach(revision, style, text, ParsedBC(ts), ts);
  }

  /** The date that a full `YYYY-MM-DD` commits, before any era. */
  function DateRead(year: int, month: int, day: int): PGTimestamp {
    PGTimestamp(Date(AD, year, month, day), Some(DefaultTime))
  }

  /** Solver helper: committing the day completes the date state. */
  lemma CommitDay(year: int, month: int, day: int)
    ensures Commit(DatePartial(year, month), Day, day) == DateRead(year, month, day)
  {
  }

  /** A space after the day commits it: to the hour when the style has a time, to the era otherwise. */
  lemma DayEndSpace(revision: Revision, style: Style, year: int, month: int, day: int)
    requires 0 <= day <= Int64Max
    ensures Machine(revision, style)(' ', DayState(year, month, day)) ==
      Success(if IncludeTime(style) then ExpectingField(Hour, DateRead(year, month, day)) else ExpectingEraB(DateRead(year, month, day)))
  {
    ParseIntFormatInt(day, 2);
    CommitDay(year, month, day);
    DaySpace(style, NumberAccumulator(FormatInt(day, 2)), DatePartial(year, month));
    StepUnsigned(revision, style, ' ', DayState(year, month, day));
  }

  /** A text followed by the era marker when the era is BC, as the formatter writes it. */
  function WithEra(text: string, era: Era): string {
    if era == BC then text + " BC" else text
  }

  lemma DateReadBC(year: int, month: int, day: int)
    ensures DateRead(year, month, day).(date := SetEra(DateRead(year, month, day).date, BC))
      == PGTimestamp(Date(BC, year, month, day), Some(DefaultTime))
  {
  }

  /** ` BC` after the day, in the date style. */
  lemma DayEraSuffix(revision: Revision, year: int, month: int, day: int)
    requires 0 <= day <= Int64Max
    ensures Reaches(Machine(revision, DateStyle), " BC", DayState(year, month, day),
      ParsedBC(PGTimestamp(Date(BC, year, month, day), Some(DefaultTime))))
  {
    DayEndSpace(revision, DateStyle, year, month, day);
    DateReadBC(year, month, day);
    ReachesEraSuffix(revision, DateStyle, DayState(year, month, day), DateRead(year, month, day));
  }

  /** `YYYY-MM-DD BC` takes the date machine to the parsed era. */
  lemma ReachesDateBC(revision: Revision, year: int, month: int, day: int)
    requires 0 <= year <= Int64Max && 0 <= month <= Int64Max && 0 <= day <= Int64Max
    ensures Reaches(Machine(revision, DateStyle), DateText(year, month, day) + " BC", InitialParseState(DateStyle),
      ParsedBC(PGTimestamp(Date(BC, year, month, day), Some(DefaultTime))))
  {
    ReachesDate(revision, DateStyle, year, month, day);
    DayEraSuffix(revision, year, month, day);
    ReachesThen(Machine(revision, DateStyle), DateText(year, month, day), " BC", InitialParseState(DateStyle),
      DayState(year, month, day), ParsedBC(PGTimestamp(Date(BC, year, month, day), Some(DefaultTime))));
  }

  /** At the end of a date-only text the pending day is committed. */
  lemma DayFinishes(year: int, month: int, day: int)
    requires 0 <= day <= Int64Max
    ensures FinishParsing(DateStyle, DayState(year, month, day)) == Success(DateRead(year, month, day))
  {
    ParseIntFormatInt(day, 2);
    DayEnds(NumberAccumulator(FormatInt(day, 2)), DatePartial(year, month));
    CommitDay(year, month, day);
  }

  /** `YYYY-MM-DD` alone: the day is committed when the text ends. */
  lemma DateStyleAD(revision: Revision, year: int, month: int, day: int)
    requires 0 <= year <= Int64Max && 0 <= month <= Int64Max && 0 <= day <= Int64Max
    ensures ParseResult(revision, DateStyle, DateText(year, month, day)) == Success(DateRead(year, month, day))
  {
    ReachesDate(revision, DateStyle, year, month, day);
    DayFinishes(year, month, day);
    ParseResultOfReach(revision, DateStyle, DateText(year, month, day), DayState(year, month, day), DateRead(year, month, day));
  }

  /** `YYYY-MM-DD BC` alone. */
  lemma DateStyleBC(revision: Revision, year: int, month: int, day: int)
    requires 0 <= year <= Int64Max && 0 <= month <= Int64Max && 0 <= day <= Int64Max
    ensures ParseResult(revision, DateStyle, DateText(year, month, day) + " BC")
      == Success(PGTimestamp(Date(BC, year, month, day), Some(DefaultTime)))
  {
    ReachesDateBC(revision, year, month, day);
    ParseResultOfBC(revision, DateStyle, DateText(year, month, day) + " BC", PGTimestamp(Date(BC, year, month, day), Some(DefaultTime)));
  }

  /** The date style reads back the date it writes, era included, with the default time. */
  lemma DateStyleRoundTrip(revision: Revision, era: Era, year: int, month: int, day: int)
    requires 0 <= year <= Int64Max && 0 <= month <= Int64Max && 0 <= day <= Int64Max
    ensures ParseResult(revision, DateStyle, WithEra(DateText(year, month, day), era))
      == Success(PGTimestamp(Date(era, year, month, day), Some(DefaultTime)))
  {
    if era == AD {
      DateStyleAD(revision, year, month, day);
    } else {
      DateStyleBC(revision, year, month, day);
    }
  }

  /** `YYYY-MM-DD ` takes the timestamp machine to the hour. */
  lemma ReachesDateSpace(revision: Revision, year: int, month: int, day: int)
    requires 0 <= year <= Int64Max && 0 <= month <= Int64Max && 0 <= day <= Int64Max
    ensures Reaches(Machine(revision, TimestampStyle), DateText(year, month, day) + " ", InitialParseState(TimestampStyle),
      ExpectingField(Hour, DateRead(year, month, day)))
  {
    ReachesDate(revision, TimestampStyle, year, month, day);
    DayEndSpace(revision, TimestampStyle, year, month, day);
    ReachesStep(Machine(revision, TimestampStyle), ' ', DayState(year, month, day), ExpectingField(Hour, DateRead(year, month, day)));
    ReachesThen(Machine(revision, TimestampStyle), DateText(year, month, day), " ", InitialParseState(TimestampStyle),
      DayState(year, month, day), ExpectingField(Hour, DateRead(year, month, day)));
  }

  /** `YYYY-MM-DD HH:MM:SS...` takes the timestamp machine to the end of the time. */
  lemma ReachesDateTime(revision: Revision, year: int, month: int, day: int, time: PGTime)
    requires 0 <= year <= Int64Max && 0 <= month <= Int64Max && 0 <= day <= Int64Max
    requires TimeRepresentable(revision, time)
    ensures Reaches(Machine(revision, TimestampStyle), DateText(year, month, day) + (" " + TimeText(time)),
      InitialParseState(TimestampStyle), TimeState(time, DateRead(year, month, day)))
  {
    ReachesDateSpace(revision, year, month, day);
    ReachesTime(revision, TimestampStyle, time, DateRead(year, month, day));
    ReachesThen(Machine(revision, TimestampStyle), DateText(year, month, day) + " ", TimeText(time), InitialParseState(TimestampStyle),
      ExpectingField(Hour, DateRead(year, month, day)), TimeState(time, DateRead(year, month, day)));
    Associate(DateText(year, month, day), " ", TimeText(time));
  }

  lemma TimeReadBC(year: int, month: int, day: int, time: PGTime)
    ensures DateRead(year, month, day).(time := Some(time)).(date := SetEra(DateRead(year, month, day).(time := Some(time)).date, BC))
      == PGTimestamp(Date(BC, year, month, day), Some(time))
  {
  }

  /** ` BC` after a time's text, in the timestamp style. */
  lemma TimeEraSuffix(revision: Revision, year: int, month: int, day: int, time: PGTime)
    requires TimeRepresentable(revision, time)
    ensures Reaches(Machine(revision, TimestampStyle), " BC", TimeState(time, DateRead(year, month, day)),
      ParsedBC(PGTimestamp(Date(BC, year, month, day), Some(time))))
  {
    TimeStateSpace(revision, TimestampStyle, time, DateRead(year, month, day));
    TimeReadBC(year, month, day, time);
    ReachesEraSuffix(revision, TimestampStyle, TimeState(time, DateRead(year, month, day)), DateRead(year, month, day).(time := Some(time)));
  }

  /** A date and time followed by ` BC` take the timestamp machine to the parsed era. */
  lemma ReachesDateTimeBC(revision: Revision, year: int, month: int, day: int, time: PGTime)
    requires 0 <= year <= Int64Max && 0 <= month <= Int64Max && 0 <= day <= Int64Max
    requires TimeRepresentable(revision, time)
    ensures Reaches(Machine(revision, TimestampStyle), DateText(year, month, day) + (" " + TimeText(time)) + " BC",
      InitialParseState(TimestampStyle), ParsedBC(PGTimestamp(Date(BC, year, month, day), Some(time))))
  {
    ReachesDateTime(revision, year, month, day, time);
    TimeEraSuffix(revision, year, month, day, time);
    ReachesThen(Machine(revision, TimestampStyle), DateText(year, month, day) + (" " + TimeText(time)), " BC",
      InitialParseState(TimestampStyle), TimeState(time, DateRead(year, month, day)), ParsedBC(PGTimestamp(Date(BC, year, month, day), Some(time))));
  }

  /** A date and time without an era: the time is committed when the text ends. */
  lemma TimestampStyleAD(revision: Revision, year: int, month: int, day: int, time: PGTime)
    requires 0 <= year <= Int64Max && 0 <= month <= Int64Max && 0 <= day <= Int64Max
    requires TimeRepresentable(revision, time)
    ensures ParseResult(revision, TimestampStyle, DateText(year, month, day) + (" " + TimeText(time)))
      == Success(PGTimestamp(Date(AD, year, month, day), Some(time)))
  {
    ReachesDateTime(revision, year, month, day, time);
    TimeStateFinishes(TimestampStyle, time, DateRead(year, month, day));
    ParseResultOfReach(revision, TimestampStyle, DateText(year, month, day) + (" " + TimeText(time)),
      TimeState(time, DateRead(year, month, day)), DateRead(year, month, day).(time := Some(time)));
  }

  /** A date and time followed by ` BC`. */
  lemma TimestampStyleBC(revision: Revision, year: int, month: int, day: int, time: PGTime)
    requires 0 <= year <= Int64Max && 0 <= month <= Int64Max && 0 <= day <= Int64Max
    requires TimeRepresentable(revision, time)
    ensures ParseResult(revision, TimestampStyle, DateText(year, month, day) + (" " + TimeText(time)) + " BC")
      == Success(PGTimestamp(Date(BC, year, month, day), Some(time)))
  {
    ReachesDateTimeBC(revision, year, month, day, time);
    ParseResultOfBC(revision, TimestampStyle, DateText(year, month, day) + (" " + TimeText(time)) + " BC",
      PGTimestamp(Date(BC, year, month, day), Some(time)));
  }

  /** The timestamp style reads back the date, the time and the era it writes. */
  lemma TimestampStyleRoundTrip(revision: Revision, era: Era, year: int, month: int, day: int, time: PGTime)
    requires 0 <= year <= Int64Max && 0 <= month <= Int64Max && 0 <= day <= Int64Max
    requires TimeRepresentable(revision, time)
    ensures ParseResult(revision, TimestampStyle, WithEra(DateText(year, month, day) + (" " + TimeText(time)), era))
      == Success(PGTimestamp(Date(era, year, month, day), Some(time)))
  {
    if era == AD {
      TimestampStyleAD(revision, year, month, day, time);
    } else {
      TimestampStyleBC(revision, year, month, day, time);
    }
  }

  /** The time style reads back the time it writes, on the default date. */
  lemma TimeStyleRoundTrip(revision: Revision, time: PGTime)
    requires TimeRepresentable(revision, time)
    ensures ParseResult(revision, TimeStyle, TimeText(time)) == Success(PGTimestamp(DefaultDate, Some(time)))
  {
    ReachesTime(revision, TimeStyle, time, DefaultTimestamp);
    TimeStateFinishes(TimeStyle, time, DefaultTimestamp);
    ParseResultOfReach(revision, TimeStyle, TimeText(time), TimeState(time, DefaultTimestamp), DefaultTimestamp.(time := Some(time)));
  }

  /** Solver helper: appending the empty text changes nothing. */
  lemma NoSuffix(a: string)
    ensures a + "" == a
  {
  }

  /** Solver helper: concatenation is associative. */
  lemma Associate(a: string, b: string, c: string)
    ensures (a + b) + c == a + (b + c)
  {
  }

  /** A written calendar date begins with a digit, so it is never one of the sentinel words. */
  lemma DateTextNotSentinel(year: int, month: int, day: int, rest: string)
    requires year >= 0
    ensures var text := DateText(year, month, day) + rest;
      text != "infinity" && text != "-infinity"
  {
    NaturalText(year, 4);
    var text := DateText(year, month, day) + rest;
    assert text[0] == FormatInt(year, 4)[0];
    assert "infinity"[0] == 'i' && "-infinity"[0] == '-';
  }

  /** The timestamp that reading back a formatted one gives: what the style writes, defaults for the rest. */
  function Expected(style: Style, ts: PGTimestamp): PGTimestamp {
    if !IncludeDate(style) then PGTimestamp(DefaultDate, ts.time)
    else match ts.date
      case DistantPast => DistantPastTimestamp
      case DistantFuture => DistantFutureTimestamp
      case Date(_, _, _, _) => if IncludeTime(style) then ts else PGTimestamp(ts.date, Some(DefaultTime))
  }

  /**
   * The timestamps whose text the parser can read: the written date fields
   * fit in an `Int`, and a written time has fields the parser reads back.
   */
  predicate Representable(revision: Revision, style: Style, ts: PGTimestamp) {
    && (IncludeDate(style) && ts.date.Date? ==>
          0 <= ts.date.year <= Int64Max && 0 <= ts.date.month <= Int64Max && 0 <= ts.date.day <= Int64Max)
    && (IncludeTime(style) && (!IncludeDate(style) || ts.date.Date?) ==>
          ts.time.Some? && TimeRepresentable(revision, ts.time.value))
  }

  /** A written calendar date, whatever follows it and whatever its era, is not a sentinel word. */
  lemma WithEraNotSentinel(year: int, month: int, day: int, rest: string, era: Era)
    requires year >= 0
    ensures var text := WithEra(DateText(year, month, day) + rest, era);
      text != "infinity" && text != "-infinity"
  {
    if era == BC {
      Associate(DateText(year, month, day), rest, " BC");
      DateTextNotSentinel(year, month, day, rest + " BC");
    } else {
      DateTextNotSentinel(year, month, day, rest);
    }
  }

  /** What the timestamp style writes for a calendar date. */
  lemma TimestampFormatText(ts: PGTimestamp)
    requires ts.date.Date? && ts.time.Some?
    ensures Format(TimestampStyle, ts) ==
      Some(WithEra(DateText(ts.date.year, ts.date.month, ts.date.day) + (" " + TimeText(ts.time.value)), ts.date.era))
  {
    assert IncludeDate(TimestampStyle) && IncludeTime(TimestampStyle);
  }

  /** What the date style writes for a calendar date. */
  lemma DateFormatText(ts: PGTimestamp)
    requires ts.date.Date?
    ensures Format(DateStyle, ts) == Some(WithEra(DateText(ts.date.year, ts.date.month, ts.date.day) + "", ts.date.era))
  {
    NoSuffix(DateText(ts.date.year, ts.date.month, ts.date.day));
  }

  /** A calendar date written with its time reads back whole. */
  lemma FormatThenParseTimestamp(revision: Revision, ts: PGTimestamp)
    requires ts.date.Date? && Representable(revision, TimestampStyle, ts)
    ensures CanFormat(TimestampStyle, ts) && Format(TimestampStyle, ts).Some?
    ensures TimestampOf(revision, TimestampStyle, Format(TimestampStyle, ts).value) == Success(ts)
  {
    match ts.date
    case Date(era, year, month, day) =>
      TimestampFormatText(ts);
      WithEraNotSentinel(year, month, day, " " + TimeText(ts.time.value), era);
      TimestampStyleRoundTrip(revision, era, year, month, day, ts.time.value);
  }

  /** A calendar date written alone reads back with the default time. */
  lemma FormatThenParseDate(revision: Revision, ts: PGTimestamp)
    requires ts.date.Date? && Representable(revision, DateStyle, ts)
    ensures CanFormat(DateStyle, ts) && Format(DateStyle, ts).Some?
    ensures TimestampOf(revision, DateStyle, Format(DateStyle, ts).value) == Success(PGTimestamp(ts.date, Some(DefaultTime)))
  {
    match ts.date
    case Date(era, year, month, day) =>
      DateFormatText(ts);
      WithEraNotSentinel(year, month, day, "", era);
      NoSuffix(DateText(year, month, day));
      DateStyleRoundTrip(revision, era, year, month, day);
  }

  /**
   * Formatting then parsing with the same style gives back everything the
   * style writes: the date with its era, the time with its zone, or the
   * sentinel; the fields the style leaves out come back as defaults.
   */
  lemma FormatThenParse(revision: Revision, style: Style, ts: PGTimestamp)
    requires Representable(revision, style, ts)
    ensures CanFormat(style, ts) && Format(style, ts).Some?
    ensures TimestampOf(revision, style, Format(style, ts).value) == Success(Expected(style, ts))
  {
    if !IncludeDate(style) {
      TimeStyleRoundTrip(revision, ts.time.value);
    } else if ts.date.Date? {
      if IncludeTime(style) {
        assert style == TimestampStyle;
        FormatThenParseTimestamp(revision, ts);
      } else {
        assert style == DateStyle;
        FormatThenParseDate(revision, ts);
      }
    }
  }

  /** Without a date the sentinel words are not special: the first letter is refused. */
  lemma TimeStyleRefusesSentinels(revision: Revision, text: string)
    requires text == "infinity" || text == "-infinity"
    ensures TimestampOf(revision, TimeStyle, text) ==
      Failure(InvalidDate(UnexpectedCharacter(text[0]), 0, text, ExpectingField(Hour, DefaultTimestamp)))
  {
    var init := InitialParseState(TimeStyle);
    var step := Machine(revision, TimeStyle);
    DigitPatternIsDigits(text[0]);
    StepUnsigned(revision, TimeStyle, text[0], init);
    assert step(text[0], init) == Failure(UnexpectedCharacter(text[0]));
    RunFirst(step, text, 0, |text|, init);
    ParseResultHalts(revision, TimeStyle, text, Halt(UnexpectedCharacter(text[0]), 0, init));
  }
}
