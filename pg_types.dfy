/**
 * The temporal values of the codec (Sources/CorePostgreSQL/PGTimestamp.swift).
 * `PGDate` and `PGTime` are defined elsewhere in SQLKit; their shapes here
 * follow how the parser and the formatter use them.
 */
module PGTypes {
  import opened Wrappers
  import opened Numerals

  datatype Era = AD | BC

  /** A signed offset from UTC; both parts carry the offset's sign. */
  datatype Zone = Zone(hours: int, minutes: int)

  datatype PGTime = PGTime(hour: int, minute: int, second: Decimal, timeZone: Option<Zone>)

  datatype PGDate =
    | DistantPast
    | DistantFuture
    | Date(era: Era, year: int, month: int, day: int)

  datatype PGTimestamp = PGTimestamp(date: PGDate, time: Option<PGTime>)

  /** `PGDate()`: the date a parse starts from; every field of it is overwritten by a full parse except the era. */
  const DefaultDate: PGDate := Date(AD, 1, 1, 1)

  /** `PGTime()`: midnight, without a time zone. */
  const DefaultTime: PGTime := PGTime(0, 0, Decimal(0, 0), None)

  /** `PGTimestamp()` */
  const DefaultTimestamp: PGTimestamp := PGTimestamp(DefaultDate, Some(DefaultTime))

  /** `PGTimestamp.distantPast` and `PGTimestamp.distantFuture`: a sentinel date with the default time. */
  const DistantPastTimestamp: PGTimestamp := PGTimestamp(DistantPast, Some(DefaultTime))
  const DistantFutureTimestamp: PGTimestamp := PGTimestamp(DistantFuture, Some(DefaultTime))

  /*
   * The date setters `setYear`, `setMonth`, `setDay` and `setEra` are defined
   * elsewhere in SQLKit. Their call sites have no `try`, so they do not throw;
   * whether they trap or clamp on an out-of-range value is not known here.
   * They are modelled as unchecked replacement of one field of a calendar
   * date, leaving a sentinel as it is.
   */

  function SetYear(d: PGDate, year: int): PGDate {
    if d.Date? then d.(year := year) else d
  }

  function SetMonth(d: PGDate, month: int): PGDate {
    if d.Date? then d.(month := month) else d
  }

  function SetDay(d: PGDate, day: int): PGDate {
    if d.Date? then d.(day := day) else d
  }

  function SetEra(d: PGDate, era: Era): PGDate {
    if d.Date? then d.(era := era) else d
  }
}
