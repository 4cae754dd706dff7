# PostgreSQL date/time text codec — a Dafny model

This project models the date, time and timestamp text codec of SQLKit's
`CorePostgreSQL` module in Dafny:

- the digit accumulator and its conversions to an integer, an exact decimal
  and a time-zone offset (`ParsingHelpers.swift`);
- the character-driven state machine that reads `YYYY-MM-DD HH:MM:SS[.fff][±HH[MM]][ BC]`
  in the timestamp, date and time styles, with the `infinity` / `-infinity`
  sentinels;
- the formatter that writes such values back as text;
- `PGTimestampFormatter` as a class holding its style.

Modules, one per file:

| file | module | models |
|---|---|---|
| `wrappers.dfy` | `Wrappers` | `Option` and `Result` (`throws`) |
| `pg_error.dfy` | `PGError` | the conversion errors |
| `numerals.dfy` | `Numerals` | decimal text for `Int`, `Decimal` and the padding helper `f` |
| `pg_types.dfy` | `PGTypes` | `PGDate`, `PGTime`, `PGTimestamp`, zones and sentinels |
| `parsing_helpers.dfy` | `ParsingHelpers` | `AnyOf`, `NumberAccumulator`, zone decoding |
| `timestamp_parser.dfy` | `TimestampParser` | `Parser`: states, transitions, end of input, error wrapping, the driver loop |
| `timestamp_formatter.dfy` | `TimestampFormatter` | `timestamp(from:)`, `string(from:)`, the formatter class |
| `round_trip.dfy` | `RoundTrip` | formatting then parsing gives the value back |
| `zone_finding.dfy` | `ZoneFinding` | the time-zone accumulator defect, below |

The transition function exists in two revisions (`TimestampParser.Revision`):

- `AsWritten` is `continueParsing` as the source has it, over Dafny characters (see Left out for what that changes).
- `Corrected` differs in one case only: after the seconds, the time-zone field starts from a fresh accumulator holding the sign (see Findings).

The lemmas about the parser are stated for both revisions wherever they hold for both. The formatter class reads with the corrected machine.

The generic `StringParser` driver is defined elsewhere in SQLKit. It is modelled here as the left-to-right loop that `Parser` is written for:

- `TimestampParser.Drive` feeds each character to the transition function.
- It stops at the first character refused, keeping that character's index and the state before it.
- `TimestampParser.Parse` then wraps the error, or finishes the parse at the end of the input.

Both methods are proved equal to the functions `RunWith` and `ParseResult`. The run lemmas relate those functions to single steps.

Where the code's own declarations disagree, the model follows the call sites:

- `unexpectedCharacter` and `earlyTermination` carry what their throw sites pass: the character only, and nothing. The state is attached once, by the `invalidDate` wrapper with four values, as the parser calls it. `Error.swift` declares different arities.
- `PGTimestamp.time` is optional. The parser force-unwraps it and the formatter maps over it, although `PGTimestamp.swift` declares it non-optional.

## Model

| member | source | states |
|---|---|---|
| ParsingHelpers.AnyOfList | Sources/CorePostgreSQL/ParsingHelpers.swift:11-21 | the pattern built from candidates c1..cn matches x exactly when x is one of them |
| ParsingHelpers.DigitPatternIsDigits | Sources/CorePostgreSQL/ParsingHelpers.swift:24 | `NumberAccumulator.digits` matches a character iff it is one of '0'..'9' |
| ParsingHelpers.SignPatternIsSign | Sources/CorePostgreSQL/PGTimestampFormatter.swift:119 | the pattern `AnyOf("+", "-")` matches exactly '+' and '-' |
| ParsingHelpers.NumberAccumulator.Adding | Sources/CorePostgreSQL/ParsingHelpers.swift:39-47 | appending keeps every earlier character, puts exactly `c` last, grows the buffer by one and leaves it non-empty |
| ParsingHelpers.AccumulatorOf | Sources/CorePostgreSQL/ParsingHelpers.swift:34-37 | `init(c)` holds the one-character buffer `c` |
| ParsingHelpers.NumberAccumulator.MakeZone | Sources/CorePostgreSQL/ParsingHelpers.swift:57-58 | text that is not an integer fails with `invalidNumber(text)`; an integer is decoded as an offset code |
| ParsingHelpers.ZoneFromCode | Sources/CorePostgreSQL/ParsingHelpers.swift:60-71 | a magnitude up to 12 gives (code, 0); 100..1200 with minutes below 60 gives parts whose magnitudes are the code's hundreds and remainder, both with the code's sign, and hours*100+minutes == code; it succeeds iff one of those holds, and otherwise fails with `invalidTimeZoneOffset(code)` carrying the code unchanged |
| Numerals.ParseInt | Sources/CorePostgreSQL/ParsingHelpers.swift:49-51 | a failure is `invalidNumber` of the text; a success is a 64-bit value read from a non-empty text whose characters after the first are digits |
| Numerals.ParseIntSigned | Sources/CorePostgreSQL/ParsingHelpers.swift:49-51 | a sign followed by digits reads as the signed value of the digits |
| Numerals.ParseDecimal | Sources/CorePostgreSQL/ParsingHelpers.swift:53-55 | a failure is `invalidNumber` of the text |
| Numerals.Pad | Sources/CorePostgreSQL/PGTimestampFormatter.swift:223 | the padded text is all digits, has the value `n`, and is as long as the width or the digits of `n`, whichever is longer |
| Numerals.PadWidth | Sources/CorePostgreSQL/PGTimestampFormatter.swift:223 | a value below 10^width is written in exactly `width` characters |
| Numerals.ParseIntFormatInt | Sources/CorePostgreSQL/PGTimestampFormatter.swift:196 | every 64-bit integer written by `f` reads back as itself |
| Numerals.DecimalTextShape | Sources/CorePostgreSQL/PGTimestampFormatter.swift:196 | written seconds start with a digit and hold only digits and the point |
| Numerals.ParseDecimalFormatDecimal | Sources/CorePostgreSQL/PGTimestampFormatter.swift:196 | every decimal written by `f` reads back as itself, sign and scale included |
| TimestampParser.InitialParseState | Sources/CorePostgreSQL/PGTimestampFormatter.swift:70-77 | the parse starts expecting the year when the date is included and the hour otherwise, on the default timestamp |
| TimestampParser.ContinueParsing | Sources/CorePostgreSQL/PGTimestampFormatter.swift:79-146 | every transition keeps a time in the partial timestamp, so the force-unwraps at lines 108, 112, 120, 125 and 133 never trap |
| TimestampParser.ContinueParsingCorrected | Sources/CorePostgreSQL/PGTimestampFormatter.swift:119-122 | a sign after the seconds commits the seconds read so far (or fails with their conversion error) and starts the zone field with the sign alone; every other transition is the source's; a success always holds a time |
| TimestampParser.DigitTransition | Sources/CorePostgreSQL/PGTimestampFormatter.swift:81-88 | a digit starts a field with a one-digit accumulator or only appends to the field being read; anywhere else it is unexpected |
| TimestampParser.SeparatorCommits | Sources/CorePostgreSQL/PGTimestampFormatter.swift:90-113 | '-' after year and month and ':' after hour and minute commit the number into that field and expect the next field; a number that does not convert is the error |
| TimestampParser.DaySpace | Sources/CorePostgreSQL/PGTimestampFormatter.swift:98-105 | a space after the day commits it, then expects the hour when time is included and the era otherwise |
| TimestampParser.SecondsPunctuation | Sources/CorePostgreSQL/PGTimestampFormatter.swift:115-122 | '.' is appended to the seconds; a sign commits the seconds and continues the zone on the same accumulator with the sign appended |
| TimestampParser.TimeSpace | Sources/CorePostgreSQL/PGTimestampFormatter.swift:124-134 | with a date, a space after the seconds or the zone commits that field and expects the era, or fails with its conversion error |
| TimestampParser.ZoneColonSkipped | Sources/CorePostgreSQL/PGTimestampFormatter.swift:128-130 | ':' inside the zone leaves the state unchanged |
| TimestampParser.EraTransitions | Sources/CorePostgreSQL/PGTimestampFormatter.swift:136-144 | `expectingEraB` accepts only 'B', `expectingEraC` only 'C' (setting era BC), `parsedBC` nothing |
| TimestampParser.UnexpectedIffUnlisted | Sources/CorePostgreSQL/PGTimestampFormatter.swift:79-146 | a character fails as `unexpectedCharacter` exactly when its (state, character) pair is not in an independent table of the listed cases; a listed pair fails only in a field conversion |
| TimestampParser.FieldUnexpectedIffUnlisted | Sources/CorePostgreSQL/PGTimestampFormatter.swift:86-134 | the same, inside a field |
| TimestampParser.IntegerFieldUnexpected | Sources/CorePostgreSQL/PGTimestampFormatter.swift:90-113 | the same, for the integer fields, whose conversion error is `invalidNumber` |
| TimestampParser.SecondUnexpected | Sources/CorePostgreSQL/PGTimestampFormatter.swift:115-126 | the same, for the seconds |
| TimestampParser.ZoneUnexpected | Sources/CorePostgreSQL/PGTimestampFormatter.swift:128-134 | the same, for the zone |
| TimestampParser.FinishParsing | Sources/CorePostgreSQL/PGTimestampFormatter.swift:148-167 | an accepted end of input yields a timestamp with a time |
| TimestampParser.FinishAccepts | Sources/CorePostgreSQL/PGTimestampFormatter.swift:148-167 | the end of input fails with `earlyTermination` exactly outside the day (date only), seconds, zone and BC states; in those it commits the pending field or returns the timestamp |
| TimestampParser.DayEnds | Sources/CorePostgreSQL/PGTimestampFormatter.swift:150-152 | at the end of a date-only text the day is committed, or its conversion error is the result |
| TimestampParser.RunWith | Sources/CorePostgreSQL/PGTimestampFormatter.swift:190 | a run that stops reports an index inside the text read and a state holding a time |
| TimestampParser.RunSplit | Sources/CorePostgreSQL/PGTimestampFormatter.swift:190 | reading a text is reading a prefix, then the rest from where the prefix left the machine |
| TimestampParser.RunHalts | Sources/CorePostgreSQL/PGTimestampFormatter.swift:170-172 | where a run stops, the characters before the index lead to the reported state and the character at the index is refused with the reported error |
| TimestampParser.ParseResult | Sources/CorePostgreSQL/PGTimestampFormatter.swift:170-172 | a failure is `wrapError`'s `invalidDate`, carrying the underlying error, an index within the text, the whole text, and the state the machine was in; a success holds a time |
| TimestampParser.Drive | Sources/CorePostgreSQL/PGTimestampFormatter.swift:190 | the loop returns what the transition function gives when run over the whole text |
| TimestampParser.Parse | Sources/CorePostgreSQL/PGTimestampFormatter.swift:190 | the driver returns the run wrapped at its stopping index, or finished at the end of the text |
| TimestampFormatter.TimestampOf | Sources/CorePostgreSQL/PGTimestampFormatter.swift:178-191 | with a date, "infinity" and "-infinity" are the sentinels; any other text, and every text in the time style, goes to the machine |
| TimestampFormatter.ZoneText | Sources/CorePostgreSQL/PGTimestampFormatter.swift:202-206 | the zone text starts with '-' iff the hours are negative, and with '+' otherwise |
| TimestampFormatter.Format | Sources/CorePostgreSQL/PGTimestampFormatter.swift:209-232 | the result is nil exactly in the time style without a time; with a date the sentinels are written as "-infinity" and "infinity" |
| TimestampFormatter.PGTimestampFormatter.constructor | Sources/CorePostgreSQL/PGTimestampFormatter.swift:20-23 | the formatter keeps the style it is given |
| TimestampFormatter.PGTimestampFormatter.TimestampFrom | Sources/CorePostgreSQL/PGTimestampFormatter.swift:178-191 | reading is the sentinel check followed by the corrected machine |
| TimestampFormatter.PGTimestampFormatter.StringFrom | Sources/CorePostgreSQL/PGTimestampFormatter.swift:209-232 | nil exactly in the time style without a time; "-infinity" and "infinity" for the sentinel dates with a date; the time text alone in the time style; for a calendar date, the date, then a space and the time when the style has one, then " BC" exactly when the era is BC, and nothing else |
| TimestampFormatter.FormatCalendar | Sources/CorePostgreSQL/PGTimestampFormatter.swift:221-229 | a written calendar date is the date text, the time part, and " BC" exactly for era BC, each at its place |
| TimestampFormatter.TimeTextEndsInDigit | Sources/CorePostgreSQL/PGTimestampFormatter.swift:195-207 | a written time ends with a digit of the seconds or of the zone, so it never looks like an era marker |
| RoundTrip.ReachesAccumulating | Sources/CorePostgreSQL/PGTimestampFormatter.swift:86-117 | digits, and '.' inside the seconds, only extend the accumulator |
| RoundTrip.ZoneFromCodeDecodable | Sources/CorePostgreSQL/ParsingHelpers.swift:60-71 | every zone the decoder produces is one that writing then reading preserves |
| RoundTrip.ZoneFromCodeInverse | Sources/CorePostgreSQL/ParsingHelpers.swift:65-67 | the decoder maps the code of such a zone back to the zone |
| RoundTrip.ZeroHourZoneMisread | Sources/CorePostgreSQL/PGTimestampFormatter.swift:202-206 | the zone (0, 5) is written "+0005" and that text decodes to (5, 0), so zones outside `DecodableZone` do not read back |
| RoundTrip.ZoneTextDecodes | Sources/CorePostgreSQL/ParsingHelpers.swift:57-72 | the accumulator holding the text written for such a zone decodes to the zone |
| RoundTrip.DateStyleRoundTrip | Sources/CorePostgreSQL/PGTimestampFormatter.swift:221-229 | the date style reads back the date it writes, era included, with the default time |
| RoundTrip.TimestampStyleRoundTrip | Sources/CorePostgreSQL/PGTimestampFormatter.swift:221-229 | the timestamp style reads back the date, time and era it writes |
| TimestampParser.StyleParts | Sources/CorePostgreSQL/PGTimestampFormatter.swift:175-176 | every style includes a date or a time; both exactly in the timestamp style; no time exactly in the date style; no date exactly in the time style |
| TimestampFormatter.TimeTextParts | Sources/CorePostgreSQL/PGTimestampFormatter.swift:195-207 | the clock text comes first; without a zone it is the whole text; with a zone the rest is the zone text, which starts with '-' exactly when the zone's hours are negative (its inverse is `RoundTrip.TimeStyleRoundTrip`) |
| RoundTrip.TimeStyleRoundTrip | Sources/CorePostgreSQL/PGTimestampFormatter.swift:195-207 | the time style reads back the time it writes, on the default date |
| RoundTrip.DateTextNotSentinel | Sources/CorePostgreSQL/PGTimestampFormatter.swift:179-188 | a written calendar date is never taken for a sentinel |
| RoundTrip.FormatThenParse | Sources/CorePostgreSQL/PGTimestampFormatter.swift:178-232 | for every representable timestamp, formatting succeeds and parsing the text in the same style gives back what the style writes: the sentinel, or the date with its era, the time with its zone, and defaults for the rest |
| RoundTrip.TimeStyleRefusesSentinels | Sources/CorePostgreSQL/PGTimestampFormatter.swift:178-191 | in the time style "infinity" and "-infinity" fail at index 0 on their first character |
| ZoneFinding.InnerNonDigitNotInteger | Sources/CorePostgreSQL/ParsingHelpers.swift:57-58 | an accumulator with a non-digit after its first character reads as neither an integer nor a zone |
| ZoneFinding.ZonelessStep | Sources/CorePostgreSQL/PGTimestampFormatter.swift:119-122 | as written, every transition keeps the time zone absent and any zone accumulator holding a non-digit after its first character |
| ZoneFinding.AsWrittenKeepsZoneless | Sources/CorePostgreSQL/PGTimestampFormatter.swift:79-146 | the same, for the machine as written |
| ZoneFinding.ZonelessFinish | Sources/CorePostgreSQL/PGTimestampFormatter.swift:158-159 | from such a state, no accepted end of input yields a zone |
| ZoneFinding.ZonelessRun | Sources/CorePostgreSQL/PGTimestampFormatter.swift:190 | a run of a machine that keeps this invariant at each step keeps it |
| ZoneFinding.ZonedTextNeverParses | Sources/CorePostgreSQL/PGTimestampFormatter.swift:119-122 | as written, no text reads as a timestamp with a time zone |
| ZoneFinding.ZonedTimestampRoundTrip | Sources/CorePostgreSQL/PGTimestampFormatter.swift:119-122 | a zoned timestamp that is written reads back with the corrected machine and never with the machine as written |
| ZoneFinding.NoonPlusFiveExample | Sources/CorePostgreSQL/PGTimestampFormatter.swift:119-122 | "12:00:00+0500" is what the formatter writes for noon at +05:00; the corrected machine reads it back and the machine as written does not |

## Left out

- The interval parser. It is defined elsewhere in SQLKit; its three error cases, `invalidInterval`, `redundantQuantity` and `unitlessQuantity`, are declared next to the codec's (Error.swift:25-27). Its grammar is not modelled, and those cases are not in `PGError`.
- The `Formatter` plumbing: `getObjectValue`, `init(coder:)`, `objectValue(for:)` and `string(for:)`. These are Objective-C bridging.
- The Foundation conversions between `PGTimestamp`, `DateComponents` and `Date`. They depend on the system calendar.
- The error cases the core never raises: `unexpectedDateCharacter`, `nonexistentDate`, `invalidInterval`, `redundantQuantity` and `unitlessQuantity`.
- `Int(textualRawPGValue:)`, `Decimal(textualRawPGValue:)` and the padding helper `f` are defined elsewhere in SQLKit. `Numerals` models each by a definition with a stated contract:
  - an optional sign and ASCII digits, within 64 bits;
  - an exact mantissa and scale;
  - left zero-padding after a '-'.
- `PGDate`, `PGTime` and `PGDate`'s setters are defined elsewhere in SQLKit. `PGDate()` is taken to be 0001-01-01 AD.
- `PGDate`'s setters are an assumption of the model. Their call sites have no `try`, so they do not throw, but whether they trap or clamp on an out-of-range value is not known. They are modelled as unchecked replacement of one field. So the model accepts calendar-invalid dates: "2024-13-01" parses, in the date style, to month 13, and `RoundTrip.FormatThenParse` covers such dates. Both hold for the model, not necessarily for the real `PGDate`.
- Characters and positions. Swift's `Character` is an extended grapheme cluster and `String.Index` is opaque; the model reads Unicode scalars (`char`) and reports a position as a count of them. Which texts are accepted is the same, since every accepted character is ASCII. The diagnostics for non-ASCII input can differ. For "2024-01-1\u{301}", the source refuses the one character "1\u{301}" at the position of the '1', and the model accepts '1' and then refuses '\u{301}' at the next position.
- `NumberAccumulator` is a value type. `addDigit` (in place) and `adding` (on a copy) are therefore one function, `Adding`, which returns the extended value. The `make()` conversions are functions of the buffer, so they cannot change it.
- `NumberAccumulator.IsEmpty` has no separate contract. It is the buffer's emptiness, and `Adding` ensures the result is non-empty.
- `abs(Int.min)` traps in Swift. The model's `Abs` is mathematical, so the model rejects the offset code −2^63 with `invalidTimeZoneOffset` where the source would trap.
- RoundTrip.FormatThenParse: requires `Representable`, so it says nothing about the values for which the round trip does not hold:
  - a negative year, month, day, hour, minute or second, which `f` writes with a '-' that the parser refuses;
  - a date field, an hour or a minute above 2^63−1, which the parser's `Int` conversion refuses;
  - a zone outside `DecodableZone`: (0, 5) is written as "+0005" and decodes to (5, 0) (`RoundTrip.ZeroHourZoneMisread`), and (0, 30) is written as "+0030", which fails to decode;
  - any zone in the machine as written (see Findings).
- RoundTrip.ZoneTextDecodes: holds only for `DecodableZone`, for the reason just given.
- Numerals.ParseDecimal: its contract states only the failure case; its success is tied to the formatter by `ParseDecimalFormatDecimal`.
- TimestampParser.ContinueParsing: its own contract states only that a time is kept. The behaviour is stated case by case in the transition lemmas listed in the table.

## Findings

| source | as written | input that shows it | evidently intended | confidence | as-written member | corrected member |
|---|---|---|---|---|---|---|
| Sources/CorePostgreSQL/PGTimestampFormatter.swift:119-122 | on a sign after the seconds, the seconds are committed and the sign is appended to the seconds' own accumulator, so the zone field reads e.g. "00+0500", which is never an integer; in no style does any text read back with a zone | "12:00:00+0500" in the time style, which the formatter writes for noon at +05:00 | the zone field starts from a fresh accumulator holding only the sign, so that "+0500" decodes to (5, 0) | not executed | ZoneFinding.NoonPlusFiveExample | TimestampParser.ContinueParsingCorrected |

`ZoneFinding.ZonedTextNeverParses` proves the as-written half for all inputs: no text whatever parses to a timestamp with a zone. `ContinueParsingCorrected` is the other half. `RoundTrip.FormatThenParse` and `ZoneFinding.ZonedTimestampRoundTrip` prove that with it, every written timestamp with a decodable zone reads back. `PGTimestampFormatter.TimestampFrom` uses the corrected machine.
