/**
 * Fixed-point DECIMAL: a 128-bit integer counting units of 10^-12. The
 * bounds the arithmetic checks against (`s_minDecimalValue`,
 * `s_maxDecimalValue`, `s_minInt64AsDecimal`, `s_maxInt64AsDecimal`) are
 * defined outside value.h, so they are a parameter here. The ttmath
 * division is modelled as truncating toward zero.
 */
module DecimalArith {
  import opened Ints
  import opened Values

  /** `kMaxScaleFactor`, 10^12. */
  const SCALE: nat := 1_000_000_000_000

  /** `kMaxWholeDivisor` and `kMaxWholeFactor`. */
  const MAX_WHOLE_DIVISOR: nat := 100_000_000
  const MAX_WHOLE_FACTOR: nat := 1_000_000_000_000_000_000

  /** The decimal value range and the decimal images of the int64 range. */
  datatype DecimalBounds = DecimalBounds(minValue: int, maxValue: int, minInt64: int, maxInt64: int)

  /**
   * The value range is a non-empty 128-bit interval; the int64 window lies
   * within [INT64_MIN * 10^12, INT64_MAX * 10^12].
   */
  predicate ValidBounds(b: DecimalBounds) {
    IsTTInt(b.minValue) && IsTTInt(b.maxValue) && b.minValue < b.maxValue &&
    INT64_MIN * SCALE <= b.minInt64 <= b.maxInt64 <= INT64_MAX * SCALE
  }

  /** The shared bound check of the four operations: the TTInt conversion and both comparisons. */
  function Checked(b: DecimalBounds, n: int): (r: Result<Value>)
    requires ValidBounds(b)
  {
    if !IsTTInt(n) || n > b.maxValue || n < b.minValue then Err(Fault(DecimalOverflow))
    else Ok(DecimalValue(n))
  }

  lemma CheckedSpec(b: DecimalBounds, n: int)
    requires ValidBounds(b)
    ensures Checked(b, n).Err? <==> n < b.minValue || n > b.maxValue
    ensures Checked(b, n).Ok? ==> Checked(b, n).value.payload == Scalar(n) && Checked(b, n).value.kind == Decimal
    ensures Checked(b, n).Ok? && b.minValue > TTINT_MIN ==> !IsNull(Checked(b, n).value)
  {}

  /** `opAddDecimals`. */
  function OpAddDecimals(b: DecimalBounds, lhs: int, rhs: int): (r: Result<Value>)
    requires ValidBounds(b) && IsTTInt(lhs) && IsTTInt(rhs)
  {
    Checked(b, lhs + rhs)
  }

  /** `opSubtractDecimals`. */
  function OpSubtractDecimals(b: DecimalBounds, lhs: int, rhs: int): (r: Result<Value>)
    requires ValidBounds(b) && IsTTInt(lhs) && IsTTInt(rhs)
  {
    Checked(b, lhs - rhs)
  }

  /** `opMultiplyDecimals`: the 256-bit product, scaled back down by 10^12. */
  function OpMultiplyDecimals(b: DecimalBounds, lhs: int, rhs: int): (r: Result<Value>)
    requires ValidBounds(b) && IsTTInt(lhs) && IsTTInt(rhs)
  {
    Checked(b, TDiv(lhs * rhs, SCALE))
  }

  /** `opDivideDecimals`: the dividend scaled up by 10^12, then divided; a zero divisor throws. */
  function OpDivideDecimals(b: DecimalBounds, lhs: int, rhs: int): (r: Result<Value>)
    requires ValidBounds(b) && IsTTInt(lhs) && IsTTInt(rhs)
  {
    if rhs == 0 then Err(Fault(DivideByZero)) else Checked(b, TDiv(lhs * SCALE, rhs))
  }

  lemma MulAbs(x: int, y: int)
    ensures Abs(x * y) == Abs(x) * Abs(y)
  {}

  lemma MulBound(x: nat, y: nat, xMax: nat, yMax: nat)
    requires x <= xMax && y <= yMax
    ensures x * y <= xMax * yMax
  {
    assert x * y <= xMax * y;
    assert xMax * y <= xMax * yMax;
  }

  /**
   * The intermediate products of multiply and divide fit the 256-bit TTLInt,
   * so its carry flag never fires and mathematical products are exact.
   */
  lemma IntermediatesFitTTLInt(lhs: int, rhs: int)
    requires IsTTInt(lhs) && IsTTInt(rhs)
    ensures IsTTLInt(lhs * rhs) && IsTTLInt(lhs * SCALE)
  {
    var p := 0x8000_0000_0000_0000_0000_0000_0000_0000;
    MulAbs(lhs, rhs);
    MulBound(Abs(lhs), Abs(rhs), p, p);
    MulAbs(lhs, SCALE);
    MulBound(Abs(lhs), SCALE, p, p);
  }

  /**
   * Each operation fails exactly when its exact result leaves
   * [s_minDecimalValue, s_maxDecimalValue] (divide also on a zero divisor),
   * so there is no wrap-around; otherwise it returns that result.
   */
  lemma DecimalOpsSpec(b: DecimalBounds, lhs: int, rhs: int)
    requires ValidBounds(b) && IsTTInt(lhs) && IsTTInt(rhs)
    ensures OpAddDecimals(b, lhs, rhs).Err? <==> lhs + rhs < b.minValue || lhs + rhs > b.maxValue
    ensures OpAddDecimals(b, lhs, rhs).Ok? ==> OpAddDecimals(b, lhs, rhs).value == DecimalValue(lhs + rhs)
    ensures OpSubtractDecimals(b, lhs, rhs).Err? <==> lhs - rhs < b.minValue || lhs - rhs > b.maxValue
    ensures OpSubtractDecimals(b, lhs, rhs).Ok? ==> OpSubtractDecimals(b, lhs, rhs).value == DecimalValue(lhs - rhs)
    ensures var q := TDiv(lhs * rhs, SCALE);
      (OpMultiplyDecimals(b, lhs, rhs).Err? <==> q < b.minValue || q > b.maxValue) &&
      (OpMultiplyDecimals(b, lhs, rhs).Ok? ==> OpMultiplyDecimals(b, lhs, rhs).value == DecimalValue(q))
    ensures OpDivideDecimals(b, lhs, rhs).Err? <==>
      rhs == 0 || TDiv(lhs * SCALE, rhs) < b.minValue || TDiv(lhs * SCALE, rhs) > b.maxValue
  {
    CheckedSpec(b, lhs + rhs);
    CheckedSpec(b, lhs - rhs);
    CheckedSpec(b, TDiv(lhs * rhs, SCALE));
    if rhs != 0 {
      CheckedSpec(b, TDiv(lhs * SCALE, rhs));
    }
  }

  /**
   * What multiply and divide compute, as fixed-point: the product with 12
   * fractional digits, truncated toward zero, and the quotient to 12
   * fractional digits, truncated toward zero.
   */
  lemma MultiplyDivideRounding(b: DecimalBounds, lhs: int, rhs: int)
    requires ValidBounds(b) && IsTTInt(lhs) && IsTTInt(rhs)
    ensures OpMultiplyDecimals(b, lhs, rhs).Ok? ==>
      var q := OpMultiplyDecimals(b, lhs, rhs).value.payload.n;
      Abs(lhs * rhs - q * SCALE) < SCALE && (lhs * rhs >= 0 ==> q * SCALE <= lhs * rhs) &&
      (lhs * rhs <= 0 ==> q * SCALE >= lhs * rhs)
    ensures OpDivideDecimals(b, lhs, rhs).Ok? ==>
      var q := OpDivideDecimals(b, lhs, rhs).value.payload.n;
      Abs(lhs * SCALE - q * rhs) < Abs(rhs) &&
      (lhs * SCALE >= 0 ==> lhs * SCALE - q * rhs >= 0) && (lhs * SCALE <= 0 ==> lhs * SCALE - q * rhs <= 0)
  {
    DecimalOpsSpec(b, lhs, rhs);
    TDivSpec(lhs * rhs, SCALE);
    if rhs != 0 {
      TDivSpec(lhs * SCALE, rhs);
    }
  }

  /** Subtracting what was added gives the original operand back. */
  lemma AddThenSubtract(b: DecimalBounds, lhs: int, rhs: int)
    requires ValidBounds(b) && IsTTInt(lhs) && IsTTInt(rhs) && b.minValue <= lhs <= b.maxValue
    requires OpAddDecimals(b, lhs, rhs).Ok?
    ensures OpSubtractDecimals(b, OpAddDecimals(b, lhs, rhs).value.payload.n, rhs) == Ok(DecimalValue(lhs))
  {
    CheckedSpec(b, lhs + rhs);
    CheckedSpec(b, lhs);
  }

  lemma ScaledIntFits(n: int)
    requires IsInt64(n)
    ensures IsTTInt(n * SCALE)
  {
    MulAbs(n, SCALE);
    MulBound(Abs(n), SCALE, 0x8000_0000_0000_0000, 0x100_0000_0000);
  }

  /** `createDecimalFromInt`: an int64 enters DECIMAL as n * 10^12, without a bound check. */
  function CreateDecimalFromInt(n: int): (v: Value)
    requires IsInt64(n)
    ensures v.kind == Decimal && WellTyped(v) && !IsNull(v)
  {
    ScaledIntFits(n);
    DecimalValue(n * SCALE)
  }

  /** `narrowDecimalToBigInt`: the whole part, after checking the int64 window. */
  function NarrowDecimalToBigInt(b: DecimalBounds, scaled: int): (r: Result<int>)
    requires ValidBounds(b)
  {
    if scaled > b.maxInt64 || scaled < b.minInt64 then Err(RangeError(scaled))
    else Ok(TDiv(scaled, SCALE))
  }

  /** `getFractionalPart`: the remainder by 10^12, with the sign of the value. */
  function GetFractionalPart(scaled: int): int {
    TRem(scaled, SCALE)
  }

  /**
   * Narrowing fails exactly outside the int64 window, recording overflow
   * for a positive value and underflow for a negative one; its result is an
   * int64, and whole and fractional part recombine to the decimal.
   */
  lemma NarrowDecimalSpec(b: DecimalBounds, scaled: int)
    requires ValidBounds(b)
    ensures NarrowDecimalToBigInt(b, scaled).Err? <==> scaled < b.minInt64 || scaled > b.maxInt64
    ensures NarrowDecimalToBigInt(b, scaled).Err? ==> NarrowDecimalToBigInt(b, scaled).error == RangeError(scaled)
    ensures NarrowDecimalToBigInt(b, scaled).Ok? ==>
      var w := NarrowDecimalToBigInt(b, scaled).value;
      var f := GetFractionalPart(scaled);
      IsInt64(w) && scaled == w * SCALE + f && Abs(f) < SCALE &&
      (scaled >= 0 ==> f >= 0) && (scaled <= 0 ==> f <= 0)
  {
    TDivSpec(scaled, SCALE);
    if b.minInt64 <= scaled <= b.maxInt64 {
      WholePartFits(scaled);
    }
  }

  lemma WholePartFits(scaled: int)
    requires INT64_MIN * SCALE <= scaled <= INT64_MAX * SCALE
    ensures IsInt64(TDiv(scaled, SCALE))
  {
    TDivSpec(scaled, SCALE);
  }

  /** An int64 inside the window survives the trip into DECIMAL and back. */
  lemma IntDecimalRoundTrip(b: DecimalBounds, n: int)
    requires ValidBounds(b) && IsInt64(n) && b.minInt64 <= n * SCALE <= b.maxInt64
    ensures NarrowDecimalToBigInt(b, CreateDecimalFromInt(n).payload.n) == Ok(n)
    ensures GetFractionalPart(CreateDecimalFromInt(n).payload.n) == 0
  {
    TDivSpec(n * SCALE, SCALE);
  }

  /** `oversizeWholeDecimal`: the whole part has 27 or more digits. */
  predicate OversizeWholeDecimal(ii: int) {
    MAX_WHOLE_FACTOR <= TDiv(ii, MAX_WHOLE_DIVISOR)
  }

  /** The test is `ii >= 10^26`: by truncating division it never fires for a negative value. */
  lemma OversizeWholeDecimalSpec(ii: int)
    ensures OversizeWholeDecimal(ii) <==> ii >= MAX_WHOLE_FACTOR * MAX_WHOLE_DIVISOR
  {
    TDivSpec(ii, MAX_WHOLE_DIVISOR);
  }
}
