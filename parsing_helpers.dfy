/**
 * Character classes and the digit accumulator of the temporal parser
 * (Sources/CorePostgreSQL/ParsingHelpers.swift).
 */
module ParsingHelpers {
  import opened Wrappers
  import opened PGError
  import opened Numerals
  import opened PGTypes

  /** `AnyOf`: a pattern that matches any one of a fixed set of candidates (the `~=` operator). */
  datatype AnyOf<T(==)> = AnyOf(candidates: set<T>) {

    predicate Matches(candidate: T) {
      candidate in candidates
    }
  }

  /** `AnyOf(c1, ..., cn)`: the pattern built from a list of candidates. */
  function AnyOfList<T(==, !new)>(cs: seq<T>): (p: AnyOf<T>)
    ensures forall x :: p.Matches(x) <==> x in cs
  {
    AnyOf(set x | x in cs)
  }

  /** `NumberAccumulator.digits`: the ten decimal digit characters. */
  const DigitPattern: AnyOf<char> := AnyOfList("0123456789")

  /** The sign characters that end the seconds field. */
  const SignPattern: AnyOf<char> := AnyOfList("+-")

  lemma DigitPatternIsDigits(c: char)
    ensures DigitPattern.Matches(c) <==> IsDigit(c)
  {
    if IsDigit(c) {
      var k := c as int - '0' as int;
      assert 0 <= k < 10;
      assert "0123456789"[k] == c by {
        assert k == 0 || k == 1 || k == 2 || k == 3 || k == 4 || k == 5 || k == 6 || k == 7 || k == 8 || k == 9;
      }
    }
  }

  lemma SignPatternIsSign(c: char)
    ensures SignPattern.Matches(c) <==> c == '+' || c == '-'
  {
    assert c in "+-" <==> c == '+' || c == '-';
  }

  /**
   * The characters of one numeric field, collected one at a time. The
   * accumulator is a value: `addDigit` (in place) and `adding` (on a copy) are
   * both `Adding` here, which returns the extended value and leaves the
   * original as it was.
   */
  datatype NumberAccumulator = NumberAccumulator(digits: string) {

    predicate IsEmpty() {
      |digits| == 0
    }

    function Adding(c: char): (r: NumberAccumulator)
      ensures |r.digits| == |digits| + 1
      ensures r.digits[..|digits|] == digits && r.digits[|digits|] == c
      ensures !r.IsEmpty()
    {
      NumberAccumulator(digits + [c])
    }

    /** `make() -> Int` */
    function MakeInt(): Result<int, ConversionError> {
      ParseInt(digits)
    }

    /** `make() -> Decimal` */
    function MakeDecimal(): Result<Decimal, ConversionError> {
      ParseDecimal(digits)
    }

    /** `make() -> PGTime.Zone`: the collected text read as an integer offset code. */
    function MakeZone(): (r: Result<Zone, ConversionError>)
      ensures ParseInt(digits).Failure? ==> r == Failure(InvalidNumber(digits))
      ensures ParseInt(digits).Success? ==> r == ZoneFromCode(ParseInt(digits).value)
    {
      var code :- MakeInt();
      ZoneFromCode(code)
    }
  }

  /** `NumberAccumulator()` */
  const EmptyAccumulator: NumberAccumulator := NumberAccumulator("")

  /** `NumberAccumulator(char)` */
  function AccumulatorOf(c: char): (r: NumberAccumulator)
    ensures r.digits == [c]
  {
    EmptyAccumulator.Adding(c)
  }

  function Abs(n: int): nat {
    if n < 0 then -n else n
  }

  /** Swift's `/`, which truncates toward zero. */
  function TruncatingDiv(a: int, b: int): int
    requires b > 0
  {
    if a < 0 then -((-a) / b) else a / b
  }

  /** Swift's `%`, whose result takes the sign of the dividend. */
  function TruncatingRem(a: int, b: int): int
    requires b > 0
  {
    if a < 0 then -((-a) % b) else a % b
  }

  /** The offset codes the decoder accepts: `±hh` up to 12, or `±hhmm` from 100 to 1200 with minutes below 60. */
  predicate AcceptedOffsetCode(code: int) {
    Abs(code) <= 12 || (100 <= Abs(code) <= 1200 && Abs(code) % 100 < 60)
  }

  /** The body of `make() -> PGTime.Zone` once the code is read. */
  function ZoneFromCode(code: int): (r: Result<Zone, ConversionError>)
    ensures Abs(code) <= 12 ==> r == Success(Zone(code, 0))
    ensures 100 <= Abs(code) <= 1200 && Abs(code) % 100 < 60 ==>
      && r.Success?
      && r.value.hours * 100 + r.value.minutes == code
      && Abs(r.value.hours) == Abs(code) / 100
      && Abs(r.value.minutes) == Abs(code) % 100
      && (code < 0 ==> r.value.hours < 0 && r.value.minutes <= 0)
      && (code > 0 ==> r.value.hours > 0 && r.value.minutes >= 0)
    ensures r.Success? <==> AcceptedOffsetCode(code)
    ensures r.Failure? ==> r.error == InvalidTimeZoneOffset(code)
  {
    var magnitude := Abs(code);
    if magnitude <= 12 then
      Success(Zone(code, 0))
    else if 100 <= magnitude <= 1200 && magnitude % 100 < 60 then
      Success(Zone(TruncatingDiv(code, 100), TruncatingRem(code, 100)))
    else
      Failure(InvalidTimeZoneOffset(code))
  }
}
