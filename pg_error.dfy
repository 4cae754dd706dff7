/**
 * The conversion errors raised while decoding temporal text
 * (Sources/CorePostgreSQL/Error.swift). The cases carry what their throw
 * sites pass: `unexpectedCharacter` only the character and `earlyTermination`
 * nothing. The state in which a failure happened is attached once, by the
 * wrapper `TimestampParser.ParseError`.
 */
module PGError {

  datatype ConversionError =
    | InvalidNumber(text: string)
    | UnexpectedCharacter(character: char)
    | InvalidTimeZoneOffset(code: int)
    | EarlyTermination
}
