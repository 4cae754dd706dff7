/**
 * Decimal text for numbers: the reading done by `Int(textualRawPGValue:)` and
 * `Decimal(textualRawPGValue:)`, and the zero-padding helper `f` used by the
 * formatter. Those three helpers are defined elsewhere in SQLKit; this
 * module models each by a definition with a stated contract:
 *  - an `Int` is an optional sign followed by one or more ASCII digits whose
 *    value fits a 64-bit signed integer;
 *  - a `Decimal` is an exact mantissa and scale (value = mantissa / 10^scale),
 *    read from an optional sign, digits, and at most one '.' among them;
 *  - `f(n, digits: w)` writes |n| in decimal, zero-padded on the left to `w`
 *    characters, after a '-' when n is negative.
 */
module Numerals {
  import opened Wrappers
  import opened PGError

  const Int64Min: int := -0x8000_0000_0000_0000
  const Int64Max: int := 0x7FFF_FFFF_FFFF_FFFF

  predicate IsDigit(c: char) {
    '0' <= c <= '9'
  }

  predicate AllDigits(s: string) {
    forall i :: 0 <= i < |s| ==> IsDigit(s[i])
  }

  function DigitValue(c: char): (d: nat)
    requires IsDigit(c)
    ensures d < 10
  {
    c as int - '0' as int
  }

  function DigitChar(d: nat): (c: char)
    requires d < 10
    ensures IsDigit(c) && DigitValue(c) == d
  {
    ('0' as int + d) as char
  }

  function Pow10(k: nat): (p: nat)
    ensures p >= 1
  {
    if k == 0 then 1 else 10 * Pow10(k - 1)
  }

  /** The value of a string of digits, most significant digit first. */
  function DigitsValue(s: string): (v: nat)
    requires AllDigits(s)
    ensures v < Pow10(|s|)
  {
    if s == [] then 0
    else
      var front := DigitsValue(s[..|s| - 1]);
      assert front * 10 <= (Pow10(|s| - 1) - 1) * 10;
      front * 10 + DigitValue(s[|s| - 1])
  }

  lemma ShiftDigit(x: int, p: int, y: int, d: int)
    ensures (x * p + y) * 10 + d == x * (10 * p) + (y * 10 + d)
  {
  }

  lemma ConcatDigits(a: string, b: string)
    requires AllDigits(a) && AllDigits(b)
    ensures AllDigits(a + b)
  {
    var ab := a + b;
    forall i | 0 <= i < |ab|
      ensures IsDigit(ab[i])
    {
      if i < |a| {
        assert ab[i] == a[i];
      } else {
        assert ab[i] == b[i - |a|];
      }
    }
  }

  /** The last digit of a non-empty digit string, split off. */
  lemma LastDigit(s: string)
    requires AllDigits(s) && |s| >= 1
    ensures AllDigits(s[..|s| - 1])
    ensures DigitsValue(s) == DigitsValue(s[..|s| - 1]) * 10 + DigitValue(s[|s| - 1])
  {
  }

  lemma {:induction false} DigitsValueAppend(a: string, b: string)
    requires AllDigits(a) && AllDigits(b)
    ensures AllDigits(a + b)
    ensures DigitsValue(a + b) == DigitsValue(a) * Pow10(|b|) + DigitsValue(b)
  {
    ConcatDigits(a, b);
    if b == [] {
      assert a + b == a;
    } else {
      var b' := b[..|b| - 1];
      var d := DigitValue(b[|b| - 1]);
      var ab := a + b;
      assert ab[..|ab| - 1] == a + b';
      assert ab[|ab| - 1] == b[|b| - 1];
      LastDigit(b);
      DigitsValueAppend(a, b');
      LastDigit(ab);
      assert DigitsValue(ab) == DigitsValue(a + b') * 10 + d;
      assert Pow10(|b|) == 10 * Pow10(|b'|);
      ShiftDigit(DigitsValue(a), Pow10(|b'|), DigitsValue(b'), d);
    }
  }

  /** The shortest decimal text of `n`. */
  function Digits(n: nat): (s: string)
    ensures AllDigits(s) && |s| >= 1
    ensures DigitsValue(s) == n
    decreases n
  {
    if n < 10 then [DigitChar(n)]
    else
      var s := Digits(n / 10) + [DigitChar(n % 10)];
      assert s[..|s| - 1] == Digits(n / 10);
      s
  }

  lemma {:induction false} DigitsLength(n: nat, k: nat)
    requires 1 <= k && n < Pow10(k)
    ensures |Digits(n)| <= k
  {
    if n >= 10 {
      assert k >= 2;
      DigitsLength(n / 10, k - 1);
    }
  }

  function Zeros(k: nat): (s: string)
    ensures |s| == k && AllDigits(s) && DigitsValue(s) == 0
  {
    if k == 0 then ""
    else
      var s := Zeros(k - 1) + "0";
      assert s[..|s| - 1] == Zeros(k - 1);
      s
  }

  /** The padding helper `f` on a non-negative value: `n` zero-padded to `width` characters. */
  function Pad(n: nat, width: nat): (s: string)
    ensures AllDigits(s) && DigitsValue(s) == n
    ensures |s| == if |Digits(n)| < width then width else |Digits(n)|
  {
    var ds := Digits(n);
    var z := Zeros(if |ds| < width then width - |ds| else 0);
    DigitsValueAppend(z, ds);
    z + ds
  }

  lemma PadWidth(n: nat, width: nat)
    requires 1 <= width && n < Pow10(width)
    ensures |Pad(n, width)| == width
  {
    DigitsLength(n, width);
  }

  /** The padding helper `f` on a signed integer. */
  function FormatInt(n: int, width: nat): string {
    if n < 0 then "-" + Pad(-n, width) else Pad(n, width)
  }

  /** Splits an optional leading sign off `text`: (negative?, rest). */
  function SplitSign(text: string): (bool, string) {
    if |text| > 0 && (text[0] == '+' || text[0] == '-') then (text[0] == '-', text[1..])
    else (false, text)
  }

  lemma UnsignedText(s: string)
    requires |s| > 0 && (IsDigit(s[0]) || s[0] == '.')
    ensures SplitSign(s) == (false, s)
  {
  }

  lemma SignedText(body: string)
    ensures SplitSign("-" + body) == (true, body)
  {
    assert ("-" + body)[1..] == body;
  }

  lemma PlusSignedText(body: string)
    ensures SplitSign("+" + body) == (false, body)
  {
    assert ("+" + body)[1..] == body;
  }

  function Signed(negative: bool, magnitude: nat): int {
    if negative then -(magnitude as int) else magnitude
  }

  /** `Int(textualRawPGValue:)`: a 64-bit signed integer, or `invalidNumber(text)`. */
  function ParseInt(text: string): (r: Result<int, ConversionError>)
    ensures r.Failure? ==> r.error == InvalidNumber(text)
    ensures r.Success? ==> Int64Min <= r.value <= Int64Max
    ensures r.Success? ==> |text| >= 1 && forall i :: 0 < i < |text| ==> IsDigit(text[i])
  {
    var (negative, body) := SplitSign(text);
    if |body| == 0 || !AllDigits(body) then Failure(InvalidNumber(text))
    else
      var v := Signed(negative, DigitsValue(body));
      if Int64Min <= v <= Int64Max then Success(v) else Failure(InvalidNumber(text))
  }

  lemma ParseIntFormatInt(n: int, width: nat)
    requires Int64Min <= n <= Int64Max
    ensures ParseInt(FormatInt(n, width)) == Success(n)
  {
    if n < 0 {
      SignedText(Pad(-n, width));
    } else {
      UnsignedText(Pad(n, width));
    }
  }

  /** A sign followed by digits reads as the signed value of the digits. */
  lemma ParseIntSigned(negative: bool, body: string)
    requires AllDigits(body) && |body| >= 1 && DigitsValue(body) <= Int64Max
    ensures ParseInt((if negative then "-" else "+") + body) == Success(Signed(negative, DigitsValue(body)))
  {
    if negative {
      SignedText(body);
    } else {
      PlusSignedText(body);
    }
  }

  /** Index of the first '.' in `s`, or |s| when there is none. */
  function PointIndex(s: string): (k: nat)
    ensures k <= |s|
    ensures k < |s| ==> s[k] == '.'
    ensures forall i :: 0 <= i < k ==> s[i] != '.'
  {
    if s == [] || s[0] == '.' then 0 else 1 + PointIndex(s[1..])
  }

  /** An exact decimal number: `mantissa` / 10^`scale`. */
  datatype Decimal = Decimal(mantissa: int, scale: nat)

  /** The value of the digits `whole` followed by the digits `fraction`, ignoring the point. */
  function PointedValue(whole: string, fraction: string): nat
    requires AllDigits(whole) && AllDigits(fraction)
  {
    DigitsValue(whole) * Pow10(|fraction|) + DigitsValue(fraction)
  }

  /** The unsigned part of a decimal: digits with at most one '.', as (magnitude, scale). */
  function DecimalBody(body: string): Option<(nat, nat)> {
    var k := PointIndex(body);
    var whole := body[..k];
    var fraction := if k < |body| then body[k + 1..] else "";
    if AllDigits(whole) && AllDigits(fraction) && |whole| + |fraction| > 0 then
      Some((PointedValue(whole, fraction), |fraction|))
    else
      None
  }

  /** `Decimal(textualRawPGValue:)`: an exact decimal, or `invalidNumber(text)`. */
  function ParseDecimal(text: string): (r: Result<Decimal, ConversionError>)
    ensures r.Failure? ==> r.error == InvalidNumber(text)
  {
    var (negative, body) := SplitSign(text);
    match DecimalBody(body)
    case Some((magnitude, scale)) => Success(Decimal(Signed(negative, magnitude), scale))
    case None => Failure(InvalidNumber(text))
  }

  /**
   * The digits of `magnitude` with a '.' before the last `scale` of them,
   * zero-padded so that at least `width` digits precede the point.
   */
  function DecimalText(magnitude: nat, scale: nat, width: nat): string {
    Pointed(Pad(magnitude, scale + width), scale)
  }

  /** `ds` with a '.' before its last `scale` characters (none when `scale` is 0). */
  function Pointed(ds: string, scale: nat): string
    requires |ds| >= scale
  {
    var k := |ds| - scale;
    ds[..k] + (if scale == 0 then "" else "." + ds[k..])
  }

  /** The absolute value of the mantissa. */
  function Magnitude(d: Decimal): nat {
    if d.mantissa < 0 then -d.mantissa else d.mantissa
  }

  /** With no fractional digits no point is written. */
  lemma PointedWhole(ds: string)
    ensures Pointed(ds, 0) == ds
  {
    assert ds[..|ds|] == ds;
  }

  /** The padding helper `f` on a decimal: a '-' for a negative one, then its magnitude. */
  function FormatDecimal(d: Decimal, width: nat): string {
    if d.mantissa < 0 then "-" + DecimalText(Magnitude(d), d.scale, width)
    else DecimalText(Magnitude(d), d.scale, width)
  }

  /** The text is non-empty and its last character is a digit. */
  predicate EndsInDigit(s: string) {
    |s| >= 1 && IsDigit(s[|s| - 1])
  }

  /** A text ending in a digit still does after anything is put in front of it. */
  lemma EndsInDigitAfter(front: string, s: string)
    requires EndsInDigit(s)
    ensures EndsInDigit(front + s)
  {
    assert (front + s)[|front + s| - 1] == s[|s| - 1];
  }

  /** `f` with a width of at least one always writes a digit last. */
  lemma FormatIntEndsInDigit(n: int, width: nat)
    requires width >= 1
    ensures EndsInDigit(FormatInt(n, width))
  {
    var ds := if n < 0 then Pad(-n, width) else Pad(n, width);
    PadLength(if n < 0 then -n else n, width);
    assert EndsInDigit(ds);
    if n < 0 {
      EndsInDigitAfter("-", ds);
    }
  }

  lemma PointedEndsInDigit(ds: string, scale: nat)
    requires |ds| >= scale + 1 && AllDigits(ds)
    ensures EndsInDigit(Pointed(ds, scale))
  {
    var k := |ds| - scale;
    if scale == 0 {
      PointedWhole(ds);
    } else {
      assert ds[k..][|ds[k..]| - 1] == ds[|ds| - 1];
      EndsInDigitAfter(ds[..k] + ".", ds[k..]);
      assert ds[..k] + ("." + ds[k..]) == ds[..k] + "." + ds[k..];
    }
  }

  /** `f` on a decimal with a width of at least one always writes a digit last. */
  lemma FormatDecimalEndsInDigit(d: Decimal, width: nat)
    requires width >= 1
    ensures EndsInDigit(FormatDecimal(d, width))
  {
    PadLength(Magnitude(d), d.scale + width);
    PointedEndsInDigit(Pad(Magnitude(d), d.scale + width), d.scale);
    if d.mantissa < 0 {
      EndsInDigitAfter("-", DecimalText(Magnitude(d), d.scale, width));
    }
  }

  lemma {:induction false} PointIndexAfterDigits(whole: string, tail: string)
    requires AllDigits(whole)
    requires tail == [] || tail[0] == '.'
    ensures PointIndex(whole + tail) == |whole|
  {
    if whole == [] {
      assert whole + tail == tail;
    } else {
      assert (whole + tail)[0] == whole[0];
      assert (whole + tail)[1..] == whole[1..] + tail;
      PointIndexAfterDigits(whole[1..], tail);
    }
  }

  lemma DecimalBodyOf(whole: string, fraction: string)
    requires AllDigits(whole) && AllDigits(fraction) && |whole| + |fraction| > 0
    ensures DecimalBody(whole + (if |fraction| == 0 then "" else "." + fraction))
      == Some((PointedValue(whole, fraction), |fraction|))
  {
    var tail := if |fraction| == 0 then "" else "." + fraction;
    var body := whole + tail;
    PointIndexAfterDigits(whole, tail);
    assert body[..|whole|] == whole;
    if |fraction| > 0 {
      assert body[|whole| + 1..] == fraction;
    }
  }

  /** Cutting digits in two keeps their value, the point aside. */
  lemma SliceDigits(ds: string, k: nat)
    requires AllDigits(ds) && k <= |ds|
    ensures AllDigits(ds[..k]) && AllDigits(ds[k..])
  {
    assert forall i :: 0 <= i < k ==> ds[..k][i] == ds[i];
    assert forall i :: 0 <= i < |ds| - k ==> ds[k..][i] == ds[k + i];
  }

  lemma SliceJoin(ds: string, k: nat)
    requires k <= |ds|
    ensures ds[..k] + ds[k..] == ds
  {
  }

  lemma SliceValue(ds: string, k: nat)
    requires AllDigits(ds) && k <= |ds|
    ensures AllDigits(ds[..k]) && AllDigits(ds[k..])
    ensures DigitsValue(ds) == DigitsValue(ds[..k]) * Pow10(|ds[k..]|) + DigitsValue(ds[k..])
  {
    SliceDigits(ds, k);
    SliceJoin(ds, k);
    DigitsValueAppend(ds[..k], ds[k..]);
  }

  lemma SplitValue(ds: string, k: nat)
    requires AllDigits(ds) && k <= |ds|
    ensures AllDigits(ds[..k]) && AllDigits(ds[k..]) && PointedValue(ds[..k], ds[k..]) == DigitsValue(ds)
  {
    SliceValue(ds, k);
  }

  /** Digits with a point before the last `scale` of them read as their value at that scale. */
  lemma DecimalOfDigits(ds: string, scale: nat)
    requires AllDigits(ds) && |ds| >= 1 && |ds| >= scale
    ensures DecimalBody(Pointed(ds, scale)) == Some((DigitsValue(ds), scale))
  {
    var k := |ds| - scale;
    var whole, fraction := ds[..k], ds[k..];
    SplitValue(ds, k);
    assert |fraction| == scale;
    DecimalBodyOf(whole, fraction);
  }

  lemma PadLength(n: nat, width: nat)
    ensures |Pad(n, width)| >= 1 && |Pad(n, width)| >= width
  {
  }

  lemma DecimalTextBody(magnitude: nat, scale: nat, width: nat)
    ensures DecimalBody(DecimalText(magnitude, scale, width)) == Some((magnitude, scale))
  {
    PadLength(magnitude, scale + width);
    DecimalOfDigits(Pad(magnitude, scale + width), scale);
  }

  lemma DecimalTextUnsigned(magnitude: nat, scale: nat, width: nat)
    ensures SplitSign(DecimalText(magnitude, scale, width)) == (false, DecimalText(magnitude, scale, width))
  {
    var ds := Pad(magnitude, scale + width);
    var k := |ds| - scale;
    var body := DecimalText(magnitude, scale, width);
    if k > 0 {
      assert body[0] == ds[0];
    } else {
      assert body[0] == '.';
    }
    UnsignedText(body);
  }

  /** Decimal text written with at least one integer digit starts with a digit and holds only digits and the point. */
  lemma DecimalTextShape(magnitude: nat, scale: nat, width: nat)
    requires width >= 1
    ensures var s := DecimalText(magnitude, scale, width);
      && |s| >= 1 && IsDigit(s[0])
      && forall i :: 0 <= i < |s| ==> IsDigit(s[i]) || s[i] == '.'
  {
    var ds := Pad(magnitude, scale + width);
    var k := |ds| - scale;
    var s := DecimalText(magnitude, scale, width);
    assert s[0] == ds[0];
    forall i | 0 <= i < |s|
      ensures IsDigit(s[i]) || s[i] == '.'
    {
      if i < k {
        assert s[i] == ds[i];
      } else if i > k {
        assert s[i] == ds[i - 1];
      }
    }
  }

  lemma DecimalTextParts(magnitude: nat, scale: nat, width: nat)
    ensures DecimalBody(DecimalText(magnitude, scale, width)) == Some((magnitude, scale))
    ensures SplitSign(DecimalText(magnitude, scale, width)) == (false, DecimalText(magnitude, scale, width))
  {
    DecimalTextBody(magnitude, scale, width);
    DecimalTextUnsigned(magnitude, scale, width);
  }

  lemma ParseDecimalOfParts(text: string, negative: bool, body: string, magnitude: nat, scale: nat)
    requires SplitSign(text) == (negative, body)
    requires DecimalBody(body) == Some((magnitude, scale))
    ensures ParseDecimal(text) == Success(Decimal(Signed(negative, magnitude), scale))
  {
  }

  lemma ParseNegativeDecimal(magnitude: nat, scale: nat, body: string)
    requires DecimalBody(body) == Some((magnitude, scale))
    ensures ParseDecimal("-" + body) == Success(Decimal(Signed(true, magnitude), scale))
  {
    SignedText(body);
  }

  lemma ParseDecimalNegative(d: Decimal, width: nat)
    requires d.mantissa < 0
    ensures ParseDecimal(FormatDecimal(d, width)) == Success(d)
  {
    DecimalTextBody(Magnitude(d), d.scale, width);
    ParseNegativeDecimal(Magnitude(d), d.scale, DecimalText(Magnitude(d), d.scale, width));
  }

  lemma ParseDecimalNonNegative(d: Decimal, width: nat)
    requires d.mantissa >= 0
    ensures ParseDecimal(FormatDecimal(d, width)) == Success(d)
  {
    DecimalTextParts(Magnitude(d), d.scale, width);
    ParseDecimalOfParts(FormatDecimal(d, width), false, DecimalText(Magnitude(d), d.scale, width), Magnitude(d), d.scale);
  }

  lemma ParseDecimalFormatDecimal(d: Decimal, width: nat)
    ensures ParseDecimal(FormatDecimal(d, width)) == Success(d)
  {
    if d.mantissa < 0 {
      ParseDecimalNegative(d, width);
    } else {
      ParseDecimalNonNegative(d, width);
    }
  }
}
