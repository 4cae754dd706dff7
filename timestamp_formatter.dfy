/**
 * `PGTimestampFormatter`: reading a timestamp from text (the sentinels, then
 * the state machine) and writing one as text
 * (Sources/CorePostgreSQL/PGTimestampFormatter.swift).
 */
module TimestampFormatter {
  import opened Wrappers
  import opened PGError
  import opened Numerals
  import opened PGTypes
  import opened ParsingHelpers
  import opened TimestampParser

  /** `timestamp(from:)`: the sentinel words when the text holds a date, the state machine otherwise. */
  function TimestampOf(revision: Revision, style: Style, text: string): (r: Result<PGTimestamp, ParseError>)
    ensures IncludeDate(style) && text == "infinity" ==> r == Success(DistantFutureTimestamp)
    ensures IncludeDate(style) && text == "-infinity" ==> r == Success(DistantPastTimestamp)
    ensures !IncludeDate(style) || (text != "infinity" && text != "-infinity") ==> r == ParseResult(revision, style, text)
  {
    if IncludeDate(style) && text == "infinity" then Success(DistantFutureTimestamp)
    else if IncludeDate(style) && text == "-infinity" then Success(DistantPastTimestamp)
    else ParseResult(revision, style, text)
  }

  /** `±HHMM`: '-' exactly when the hours are negative, then both magnitudes padded to two digits. */
  function ZoneText(zone: Zone): (s: string)
    ensures |s| >= 5 && (s[0] == '-' <==> zone.hours < 0) && (s[0] == '+' <==> zone.hours >= 0)
  {
    var sign := if zone.hours < 0 then "-" else "+";
    sign + Pad(Abs(zone.hours), 2) + Pad(Abs(zone.minutes), 2)
  }

  /** `HH:MM:SS` with the seconds' fraction, if any. */
  function ClockText(time: PGTime): string {
    FormatInt(time.hour, 2) + ":" + FormatInt(time.minute, 2) + ":" + FormatDecimal(time.second, 2)
  }

  /** `string(from: PGTime)`: the clock, then the zone when there is one. */
  function TimeText(time: PGTime): string {
    match time.timeZone
    case None => ClockText(time)
    case Some(zone) => ClockText(time) + ZoneText(zone)
  }

  /**
   * A written time starts with its clock; without a zone that is all of it,
   * and with one the rest is the zone, signed '-' exactly for negative hours.
   */
  lemma TimeTextParts(time: PGTime)
    ensures var s := TimeText(time);
      && |ClockText(time)| <= |s| && s[..|ClockText(time)|] == ClockText(time)
      && (time.timeZone.None? ==> s == ClockText(time))
      && (time.timeZone.Some? ==>
            && s[|ClockText(time)|..] == ZoneText(time.timeZone.value)
            && (s[|ClockText(time)|] == '-' <==> time.timeZone.value.hours < 0))
  {
    match time.timeZone
    case None =>
    case Some(zone) =>
      var clock := ClockText(time);
      assert (clock + ZoneText(zone))[..|clock|] == clock;
      assert (clock + ZoneText(zone))[|clock|..] == ZoneText(zone);
  }

  /** `YYYY-MM-DD`, the year padded to four digits. */
  function DateText(year: int, month: int, day: int): string {
    FormatInt(year, 4) + "-" + FormatInt(month, 2) + "-" + FormatInt(day, 2)
  }

  /**
   * The timestamps `string(from:)` can write without trapping: a calendar
   * date written with its time needs the time to be present.
   */
  predicate CanFormat(style: Style, ts: PGTimestamp) {
    IncludeDate(style) && IncludeTime(style) && ts.date.Date? ==> ts.time.Some?
  }

  /** `string(from: PGTimestamp)` */
  function Format(style: Style, ts: PGTimestamp): (r: Option<string>)
    requires CanFormat(style, ts)
    ensures r.None? <==> !IncludeDate(style) && ts.time.None?
    ensures IncludeDate(style) && ts.date == DistantPast ==> r == Some("-infinity")
    ensures IncludeDate(style) && ts.date == DistantFuture ==> r == Some("infinity")
  {
    if !IncludeDate(style) then
      match ts.time
      case None => None
      case Some(time) => Some(TimeText(time))
    else
      match ts.date
      case DistantPast => Some("-infinity")
      case DistantFuture => Some("infinity")
      case Date(era, year, month, day) =>
        var timePart := if IncludeTime(style) then " " + TimeText(ts.time.value) else "";
        var datePart := DateText(year, month, day);
        match era
        case AD => Some(datePart + timePart)
        case BC => Some(datePart + timePart + " BC")
  }

  /** The text ends with the era marker " BC". */
  predicate EndsWithBC(s: string) {
    |s| >= 3 && s[|s| - 3..] == " BC"
  }

  /**
   * What `string(from:)` writes for a calendar date: the date, then a space
   * and the time when the style has one, then " BC" exactly for that era.
   */
  predicate CalendarText(style: Style, ts: PGTimestamp, text: string)
    requires ts.date.Date? && (IncludeTime(style) ==> ts.time.Some?)
  {
    var date := DateText(ts.date.year, ts.date.month, ts.date.day);
    var time := if IncludeTime(style) then " " + TimeText(ts.time.value) else "";
    && |text| == |date| + |time| + (if ts.date.era == BC then 3 else 0)
    && text[..|date|] == date
    && text[|date|..|date| + |time|] == time
    && (ts.date.era == BC <==> EndsWithBC(text))
  }

  lemma ClockTextEndsInDigit(time: PGTime)
    ensures EndsInDigit(ClockText(time))
  {
    FormatDecimalEndsInDigit(time.second, 2);
    EndsInDigitAfter(FormatInt(time.hour, 2) + ":" + FormatInt(time.minute, 2) + ":", FormatDecimal(time.second, 2));
  }

  lemma ZoneTextEndsInDigit(zone: Zone)
    ensures EndsInDigit(ZoneText(zone))
  {
    var sign := if zone.hours < 0 then "-" else "+";
    PadLength(Abs(zone.minutes), 2);
    EndsInDigitAfter(sign + Pad(Abs(zone.hours), 2), Pad(Abs(zone.minutes), 2));
  }

  /** A written time ends with a digit of the seconds or of the zone. */
  lemma TimeTextEndsInDigit(time: PGTime)
    ensures EndsInDigit(TimeText(time))
  {
    match time.timeZone
    case None => ClockTextEndsInDigit(time);
    case Some(zone) =>
      ZoneTextEndsInDigit(zone);
      EndsInDigitAfter(ClockText(time), ZoneText(zone));
  }

  /** A written date ends with a digit of the day. */
  lemma DateTextEndsInDigit(year: int, month: int, day: int)
    ensures EndsInDigit(DateText(year, month, day))
  {
    FormatIntEndsInDigit(day, 2);
    EndsInDigitAfter(FormatInt(year, 4) + "-" + FormatInt(month, 2) + "-", FormatInt(day, 2));
  }

  /** The date and the time part, before any era marker, end with a digit. */
  lemma DateTimeEndsInDigit(date: string, time: string)
    requires EndsInDigit(date) && (time == "" || EndsInDigit(time))
    ensures EndsInDigit(date + time)
  {
    if time == "" {
      assert date + time == date;
    } else {
      EndsInDigitAfter(date, time);
    }
  }

  /** A date and a time part ending in a digit, then the era marker when `bc`: each piece is where it was put, and the marker is there iff `bc`. */
  lemma EraSuffix(date: string, time: string, bc: bool)
    requires EndsInDigit(date + time)
    ensures var text := date + time + (if bc then " BC" else "");
      && |text| == |date| + |time| + (if bc then 3 else 0)
      && text[..|date|] == date
      && text[|date|..|date| + |time|] == time
      && (bc <==> EndsWithBC(text))
  {
    var text := date + time + (if bc then " BC" else "");
    assert text[..|date + time|] == date + time;
    assert (date + time)[..|date|] == date;
    assert (date + time)[|date|..] == time;
    if !bc {
      assert text == date + time;
      assert !IsDigit('C');
    }
  }

  /** What `Format` writes for a calendar date, in pieces. */
  lemma FormatCalendarPieces(style: Style, ts: PGTimestamp)
    requires CanFormat(style, ts) && IncludeDate(style) && ts.date.Date?
    ensures Format(style, ts) == Some(DateText(ts.date.year, ts.date.month, ts.date.day)
      + (if IncludeTime(style) then " " + TimeText(ts.time.value) else "")
      + (if ts.date.era == BC then " BC" else ""))
  {
    var date := DateText(ts.date.year, ts.date.month, ts.date.day);
    var time := if IncludeTime(style) then " " + TimeText(ts.time.value) else "";
    assert date + time + "" == date + time;
  }

  /** `string(from:)` on a calendar date writes the date, the time and the era marker, and nothing else. */
  lemma FormatCalendar(style: Style, ts: PGTimestamp)
    requires CanFormat(style, ts) && IncludeDate(style) && ts.date.Date?
    ensures Format(style, ts).Some? && CalendarText(style, ts, Format(style, ts).value)
  {
    var date := DateText(ts.date.year, ts.date.month, ts.date.day);
    var time := if IncludeTime(style) then " " + TimeText(ts.time.value) else "";
    DateTextEndsInDigit(ts.date.year, ts.date.month, ts.date.day);
    if IncludeTime(style) {
      TimeTextEndsInDigit(ts.time.value);
      EndsInDigitAfter(" ", TimeText(ts.time.value));
    }
    DateTimeEndsInDigit(date, time);
    FormatCalendarPieces(style, ts);
    EraSuffix(date, time, ts.date.era == BC);
  }

  /** A formatter with a fixed style, the one it is created with. */
  class PGTimestampFormatter {
    var style: Style

    constructor(style: Style)
      ensures this.style == style
    {
      this.style := style;
    }

    /** `timestamp(from:)`, reading with the corrected machine (see `ContinueParsingCorrected`). */
    method TimestampFrom(text: string) returns (r: Result<PGTimestamp, ParseError>)
      ensures r == TimestampOf(Corrected, style, text)
    {
      if IncludeDate(style) && text == "infinity" {
        return Success(DistantFutureTimestamp);
      }
      if IncludeDate(style) && text == "-infinity" {
        return Success(DistantPastTimestamp);
      }
      r := Parse(Corrected, style, text);
    }

    /**
     * `string(from:)`: nothing only for a missing time in the time style, the
     * sentinel words for the sentinel dates, the time alone in the time
     * style, and otherwise the date, time and era of `CalendarText`.
     */
    method StringFrom(ts: PGTimestamp) returns (r: Option<string>)
      requires CanFormat(style, ts)
      ensures r.None? <==> !IncludeDate(style) && ts.time.None?
      ensures IncludeDate(style) && ts.date == DistantPast ==> r == Some("-infinity")
      ensures IncludeDate(style) && ts.date == DistantFuture ==> r == Some("infinity")
      ensures !IncludeDate(style) && ts.time.Some? ==> r == Some(TimeText(ts.time.value))
      ensures IncludeDate(style) && ts.date.Date? ==> r.Some? && CalendarText(style, ts, r.value)
    {
      r := Format(style, ts);
      if IncludeDate(style) && ts.date.Date? {
        FormatCalendar(style, ts);
      }
    }
  }
}
