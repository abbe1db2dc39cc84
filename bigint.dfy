/**
 * Checked 64-bit integer arithmetic, by the meaning of the overflow tests of
 * `opAddBigInts`, `opSubtractBigInts` and `opMultiplyBigInts`, the zero
 * check of `opDivideBigInts`, `op_increment`, `op_decrement`, `isZero`, and
 * the implicit integer reads `castAsBigIntAndGetValue` and
 * `castAsIntegerAndGetValue`.
 */
module BigIntArith {
  import opened Ints
  import opened Values

  // ---------------------------------------------------------------------
  // The operations, on mathematical integers.
  // ---------------------------------------------------------------------

  /** `getBigIntValue`. */
  function BigIntValue(n: int): (v: Value)
    requires IsInt64(n)
    ensures Canonical(v) && v.kind == BigInt
  {
    IntegralValue(BigInt, n)
  }

  /** `opAddBigInts`: the sum, or an exception when it does not fit int64. */
  function OpAddBigInts(lhs: int, rhs: int): (r: Result<Value>)
    requires IsInt64(lhs) && IsInt64(rhs)
  {
    if !IsInt64(lhs + rhs) then Err(Fault(AddOverflow)) else Ok(BigIntValue(lhs + rhs))
  }

  /** `opSubtractBigInts`: the difference, or an exception when it does not fit int64. */
  function OpSubtractBigInts(lhs: int, rhs: int): (r: Result<Value>)
    requires IsInt64(lhs) && IsInt64(rhs)
  {
    if !IsInt64(lhs - rhs) then Err(Fault(SubtractOverflow)) else Ok(BigIntValue(lhs - rhs))
  }

  /**
   * Add and subtract fail exactly outside [-2^63, 2^63 - 1]; a result that
   * lands on INT64_NULL comes back as SQL NULL.
   */
  lemma AddSubtractSpec(lhs: int, rhs: int)
    requires IsInt64(lhs) && IsInt64(rhs)
    ensures OpAddBigInts(lhs, rhs).Err? <==> lhs + rhs < INT64_MIN || lhs + rhs > INT64_MAX
    ensures OpAddBigInts(lhs, rhs).Ok? ==>
      OpAddBigInts(lhs, rhs).value.payload == Scalar(lhs + rhs) &&
      (IsNull(OpAddBigInts(lhs, rhs).value) <==> lhs + rhs == INT64_NULL)
    ensures OpSubtractBigInts(lhs, rhs).Err? <==> lhs - rhs < INT64_MIN || lhs - rhs > INT64_MAX
    ensures OpSubtractBigInts(lhs, rhs).Ok? ==>
      OpSubtractBigInts(lhs, rhs).value.payload == Scalar(lhs - rhs) &&
      (IsNull(OpSubtractBigInts(lhs, rhs).value) <==> lhs - rhs == INT64_NULL)
  {}

  /** Subtracting what was added gives the original operand back. */
  lemma AddThenSubtract(lhs: int, rhs: int)
    requires IsInt64(lhs) && IsInt64(rhs) && OpAddBigInts(lhs, rhs).Ok?
    ensures OpSubtractBigInts(OpAddBigInts(lhs, rhs).value.payload.n, rhs) == Ok(BigIntValue(lhs))
  {}

  /** The CERT test of `opMultiplyBigInts`, with C++ truncating division. */
  predicate CertMultiplyOverflows(lhs: int, rhs: int)
    requires IsInt64(lhs) && IsInt64(rhs)
  {
    if lhs > 0 then
      if rhs > 0 then lhs > TDiv(INT64_MAX, rhs) else rhs < TDiv(INT64_MIN, lhs)
    else
      if rhs > 0 then lhs < TDiv(INT64_MIN, rhs) else lhs != 0 && rhs < TDiv(INT64_MAX, lhs)
  }

  /** `opMultiplyBigInts`: overflow by the CERT test, or a product equal to INT64_NULL, throws. */
  function OpMultiplyBigInts(lhs: int, rhs: int): (r: Result<Value>)
    requires IsInt64(lhs) && IsInt64(rhs)
  {
    if CertMultiplyOverflows(lhs, rhs) || lhs * rhs == INT64_NULL then Err(Fault(MultiplyOverflow))
    else
      CertMultiplySpec(lhs, rhs);
      Ok(BigIntValue(lhs * rhs))
  }

  /** For a positive divisor, exceeding the quotient is exceeding the bound after multiplying. */
  lemma AboveQuotient(a: int, b: int, bound: nat)
    requires b > 0
    ensures a > bound / b <==> a * b > bound
  {
    var q := bound / b;
    assert bound == q * b + bound % b;
    if a > q {
      assert a >= q + 1;
      MulMono(q + 1, a, b);
    } else {
      MulMono(a, q, b);
    }
  }

  lemma MulMono(x: int, y: int, b: int)
    requires b > 0 && x <= y
    ensures x * b <= y * b
  {}

  /** The CERT division test fires exactly when the product leaves [-2^63, 2^63 - 1]. */
  lemma CertMultiplySpec(lhs: int, rhs: int)
    requires IsInt64(lhs) && IsInt64(rhs)
    ensures CertMultiplyOverflows(lhs, rhs) <==> lhs * rhs < INT64_MIN || lhs * rhs > INT64_MAX
  {
    if lhs > 0 && rhs > 0 {
      AboveQuotient(lhs, rhs, INT64_MAX);
    } else if lhs > 0 {
      CertMultiplyMixedSigns(lhs, rhs);
    } else if rhs > 0 {
      CertMultiplyMixedSigns(rhs, lhs);
      assert lhs * rhs == rhs * lhs;
    } else if lhs != 0 {
      CertMultiplyNegatives(lhs, rhs);
    } else {
      assert lhs * rhs == 0;
    }
  }

  /** The positive-times-non-positive case: compare against INT64_MIN divided by the positive factor. */
  lemma CertMultiplyMixedSigns(p: int, q: int)
    requires IsInt64(p) && IsInt64(q) && p > 0 && q <= 0
    ensures q < TDiv(INT64_MIN, p) <==> p * q < INT64_MIN
  {
    var big := 0x8000_0000_0000_0000;
    assert TDiv(INT64_MIN, p) == -(big / p);
    AboveQuotient(-q, p, big);
    assert (-q) * p == -(p * q);
  }

  /** The case of two negative factors: compare against INT64_MAX divided by the left one. */
  lemma CertMultiplyNegatives(lhs: int, rhs: int)
    requires IsInt64(lhs) && IsInt64(rhs) && lhs < 0 && rhs <= 0
    ensures rhs < TDiv(INT64_MAX, lhs) <==> lhs * rhs > INT64_MAX
  {
    assert TDiv(INT64_MAX, lhs) == -(INT64_MAX / -lhs);
    AboveQuotient(-rhs, -lhs, INT64_MAX);
    assert (-rhs) * (-lhs) == lhs * rhs;
  }

  /** Multiplication throws exactly when the product leaves (INT64_MIN, INT64_MAX]. */
  lemma MultiplySpec(lhs: int, rhs: int)
    requires IsInt64(lhs) && IsInt64(rhs)
    ensures OpMultiplyBigInts(lhs, rhs).Err? <==> lhs * rhs <= INT64_MIN || lhs * rhs > INT64_MAX
    ensures OpMultiplyBigInts(lhs, rhs).Ok? ==>
      OpMultiplyBigInts(lhs, rhs).value.payload == Scalar(lhs * rhs) && !IsNull(OpMultiplyBigInts(lhs, rhs).value)
  {
    CertMultiplySpec(lhs, rhs);
  }

  /**
   * `opDivideBigInts`: throws on a zero divisor, otherwise C++ truncating
   * division. The INT64_MIN / -1 case, undefined in C++, is excluded: the
   * smallest int64 is the NULL and never reaches this operation.
   */
  function OpDivideBigInts(lhs: int, rhs: int): (r: Result<Value>)
    requires IsInt64(lhs) && IsInt64(rhs) && !(lhs == INT64_MIN && rhs == -1)
  {
    if rhs == 0 then Err(Fault(DivideByZero))
    else
      DivideStaysInRange(lhs, rhs);
      Ok(BigIntValue(TDiv(lhs, rhs)))
  }

  lemma DivideStaysInRange(lhs: int, rhs: int)
    requires IsInt64(lhs) && IsInt64(rhs) && rhs != 0 && !(lhs == INT64_MIN && rhs == -1)
    ensures IsInt64(TDiv(lhs, rhs))
    ensures lhs != INT64_MIN ==> TDiv(lhs, rhs) != INT64_NULL
  {
    TDivShrinks(lhs, rhs);
    if lhs == INT64_MIN && rhs != 1 {
      assert Abs(rhs) >= 2;
      HalveAtLeast(Abs(lhs), Abs(rhs));
    }
  }

  lemma HalveAtLeast(a: nat, b: nat)
    requires b >= 2
    ensures a / b <= a / 2
  {
    var q := a / b;
    assert q * b <= a;
    assert q * 2 <= q * b;
  }

  /**
   * Division fails only on a zero divisor, its quotient and remainder obey
   * the C++ rules, and for a non-NULL dividend the quotient is never NULL.
   */
  lemma DivideSpec(lhs: int, rhs: int)
    requires IsInt64(lhs) && IsInt64(rhs) && !(lhs == INT64_MIN && rhs == -1)
    ensures OpDivideBigInts(lhs, rhs).Err? <==> rhs == 0
    ensures OpDivideBigInts(lhs, rhs).Ok? ==>
      var q := OpDivideBigInts(lhs, rhs).value.payload.n;
      lhs == q * rhs + (lhs - q * rhs) && Abs(lhs - q * rhs) < Abs(rhs) &&
      (lhs >= 0 ==> lhs - q * rhs >= 0) && (lhs <= 0 ==> lhs - q * rhs <= 0)
    ensures OpDivideBigInts(lhs, rhs).Ok? && lhs != INT64_NULL ==> !IsNull(OpDivideBigInts(lhs, rhs).value)
  {
    if rhs != 0 {
      TDivSpec(lhs, rhs);
      DivideStaysInRange(lhs, rhs);
    }
  }

  /** `op_increment` on a non-double Value; the result is never tagged NULL. */
  function OpIncrement(v: Value): (r: Result<Value>)
    requires WellTyped(v) && v.kind != Double
  {
    if IsIntegral(v.kind) then
      if v.payload.n == MaxOf(v.kind) then Err(Fault(IncrementOverflow))
      else Ok(Value(v.kind, Scalar(v.payload.n + 1), false))
    else Err(Fault(NotIncrementable))
  }

  /**
   * `op_decrement` on a non-double Value. The guard compares with
   * `PELOTON_INTn_MIN`, one above the NULL sentinel `INTn_NULL`, so the
   * sentinel itself is decremented. TINYINT and SMALLINT compute in `int` and
   * cast back, which wraps the sentinel to the maximum; INTEGER, BIGINT and
   * TIMESTAMP subtract in their own width, undefined in C++ for the sentinel,
   * and are modelled with the same two's-complement wrap.
   */
  function OpDecrement(v: Value): (r: Result<Value>)
    requires WellTyped(v) && v.kind != Double
  {
    if IsIntegral(v.kind) then
      if v.payload.n == PelotonMinOf(v.kind) then Err(Fault(DecrementOverflow))
      else
        var m := v.payload.n - 1;
        Ok(Value(v.kind, Scalar(if m < SentinelOf(v.kind) then MaxOf(v.kind) else m), false))
    else Err(Fault(NotDecrementable))
  }

  /**
   * On non-NULL integral values increment and decrement fail exactly at the
   * top and bottom of the non-NULL range and are inverse to each other.
   */
  lemma IncrementDecrementInverse(v: Value)
    requires Canonical(v) && IsIntegral(v.kind) && !IsNull(v)
    ensures OpIncrement(v).Err? <==> v.payload.n == MaxOf(v.kind)
    ensures OpDecrement(v).Err? <==> v.payload.n == PelotonMinOf(v.kind)
    ensures OpIncrement(v).Ok? ==>
      OpIncrement(v).value.payload == Scalar(v.payload.n + 1) && OpDecrement(OpIncrement(v).value) == Ok(v)
    ensures OpDecrement(v).Ok? ==>
      OpDecrement(v).value.payload == Scalar(v.payload.n - 1) && OpIncrement(OpDecrement(v).value) == Ok(v)
  {}

  /** Decrementing a NULL integral value gives the kind's maximum, not NULL. */
  lemma DecrementOfNullWraps(k: Kind)
    requires IsIntegral(k)
    ensures OpDecrement(GetNullValue(k).value) == Ok(Value(k, Scalar(MaxOf(k)), false))
  {}

  /** `isZero`: integral kinds and decimals compare their value with 0; other kinds throw. */
  function IsZero(v: Value): (r: Result<bool>)
    requires WellTyped(v)
    ensures r.Err? <==> !(IsIntegral(v.kind) || v.kind.Decimal?)
    ensures r.Ok? ==> (r.value <==> v.payload == Scalar(0))
  {
    if IsIntegral(v.kind) || v.kind.Decimal? then Ok(v.payload.n == 0) else Err(Fault(NotNumeric))
  }

  /** `castAsBigIntAndGetValue`: the value of an integral kind as int64; anything else is a type mismatch. */
  function CastAsBigIntAndGetValue(v: Value): (r: Result<int>)
    requires WellTyped(v)
    ensures r.Ok? ==> IsInt64(r.value)
  {
    if IsIntegral(v.kind) then Ok(v.payload.n) else Err(TypeMismatch(v.kind, BigInt))
  }

  /**
   * `castAsIntegerAndGetValue`: NULL kind gives INT32_NULL, the narrow kinds
   * their value, BIGINT a range-checked value; TIMESTAMP and all others are
   * a type mismatch.
   */
  function CastAsIntegerAndGetValue(v: Value): (r: Result<int>)
    requires WellTyped(v)
    ensures r.Ok? ==> IsInt32(r.value)
  {
    match v.kind
    case Null => Ok(INT32_NULL)
    case TinyInt | SmallInt | Integer => Ok(v.payload.n)
    case BigInt =>
      if v.payload.n > INT32_MAX || v.payload.n < PELOTON_INT32_MIN then Err(RangeError(v.payload.n))
      else Ok(v.payload.n)
    case _ => Err(TypeMismatch(v.kind, Integer))
  }

  /**
   * Widening to int64 never fails and keeps the value; reading an int32 out
   * of a BIGINT is the narrowing check of `narrowToInteger`.
   */
  lemma ImplicitCastSpec(v: Value)
    requires WellTyped(v)
    ensures CastAsBigIntAndGetValue(v).Ok? <==> IsIntegral(v.kind)
    ensures IsIntegral(v.kind) ==> CastAsBigIntAndGetValue(v).value == v.payload.n
    ensures v.kind.BigInt? ==> CastAsIntegerAndGetValue(v) == Narrow(Integer, v.payload.n)
    ensures v.kind.TinyInt? || v.kind.SmallInt? || v.kind.Integer? ==> CastAsIntegerAndGetValue(v) == Ok(v.payload.n)
    ensures v.kind.Timestamp? ==> CastAsIntegerAndGetValue(v) == Err(TypeMismatch(Timestamp, Integer))
  {}
}
