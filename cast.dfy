/**
 * Explicit casts (`castAs` and the `castAs*` family), operand promotion
 * (`promoteForOp`) and the arithmetic dispatch of `op_add`, `op_subtract`,
 * `op_multiply` and `op_divide`, on the non-double paths.
 */
module Cast {
  import opened Ints
  import opened Values
  import opened BigIntArith
  import opened DecimalArith

  /** `Value retval(k)` with its integer field set to `n`: never tagged NULL. */
  function Untagged(k: Kind, n: int): (v: Value)
    requires IsIntegral(k) && InRangeOf(k, n)
    ensures WellTyped(v) && v.kind == k && v.payload == Scalar(n) && !v.nullTag
  {
    Value(k, Scalar(n), false)
  }

  /** A narrowing to a 32-bit or smaller kind, as `narrowTo*` stores it into a fresh receiver. */
  function NarrowInto(target: Kind, n: int): (r: Result<Value>)
    requires target.TinyInt? || target.SmallInt? || target.Integer?
  {
    NarrowSpec(target, n);
    match Narrow(target, n)
    case Ok(m) => Ok(Untagged(target, m))
    case Err(e) => Err(e)
  }

  /** The whole part of a decimal, narrowed on to `target`, as the decimal branches of the narrow casts do. */
  function NarrowDecimalInto(b: DecimalBounds, target: Kind, scaled: int): (r: Result<Value>)
    requires ValidBounds(b) && (target.TinyInt? || target.SmallInt? || target.Integer?)
  {
    match NarrowDecimalToBigInt(b, scaled)
    case Ok(whole) => NarrowInto(target, whole)
    case Err(e) => Err(e)
  }

  /** The kinds whose text `getNumberFromString` or `parseTimestampString` would parse. */
  predicate ParsedFromText(v: Value) { v.kind.Varchar? }

  /** `castAsTinyInt`. */
  function CastAsTinyInt(b: DecimalBounds, v: Value): (r: Result<Value>)
    requires ValidBounds(b) && WellTyped(v) && !v.kind.Double? && !ParsedFromText(v)
  {
    match v.kind
    case TinyInt => Ok(Untagged(TinyInt, v.payload.n))
    case SmallInt | Integer | BigInt | Timestamp => NarrowInto(TinyInt, v.payload.n)
    case Decimal => NarrowDecimalInto(b, TinyInt, v.payload.n)
    case _ => Err(TypeMismatch(v.kind, TinyInt))
  }

  /** `castAsSmallInt`. */
  function CastAsSmallInt(b: DecimalBounds, v: Value): (r: Result<Value>)
    requires ValidBounds(b) && WellTyped(v) && !v.kind.Double? && !ParsedFromText(v)
  {
    match v.kind
    case TinyInt | SmallInt => Ok(Untagged(SmallInt, v.payload.n))
    case Integer | BigInt | Timestamp => NarrowInto(SmallInt, v.payload.n)
    case Decimal => NarrowDecimalInto(b, SmallInt, v.payload.n)
    case _ => Err(TypeMismatch(v.kind, SmallInt))
  }

  /** `castAsInteger`: an INTEGER source is returned as it is. */
  function CastAsInteger(b: DecimalBounds, v: Value): (r: Result<Value>)
    requires ValidBounds(b) && WellTyped(v) && !v.kind.Double? && !ParsedFromText(v)
  {
    match v.kind
    case TinyInt | SmallInt => Ok(Untagged(Integer, v.payload.n))
    case Integer => Ok(v)
    case BigInt | Timestamp => NarrowInto(Integer, v.payload.n)
    case Decimal => NarrowDecimalInto(b, Integer, v.payload.n)
    case _ => Err(TypeMismatch(v.kind, Integer))
  }

  /** The decimal branch of `castAsBigInt` and `castAsTimestamp`. */
  function DecimalWholeInto(b: DecimalBounds, target: Kind, scaled: int): (r: Result<Value>)
    requires ValidBounds(b) && (target.BigInt? || target.Timestamp?)
  {
    NarrowDecimalSpec(b, scaled);
    match NarrowDecimalToBigInt(b, scaled)
    case Ok(whole) => Ok(Untagged(target, whole))
    case Err(e) => Err(e)
  }

  /** `castAsBigInt`: a BIGINT source is returned as it is; an ADDRESS gives its 64 bits. */
  function CastAsBigInt(b: DecimalBounds, v: Value): (r: Result<Value>)
    requires ValidBounds(b) && WellTyped(v) && !v.kind.Double? && !ParsedFromText(v)
  {
    match v.kind
    case TinyInt | SmallInt | Integer | Timestamp | Address => Ok(Untagged(BigInt, v.payload.n))
    case BigInt => Ok(v)
    case Decimal => DecimalWholeInto(b, BigInt, v.payload.n)
    case _ => Err(TypeMismatch(v.kind, BigInt))
  }

  /** `castAsTimestamp`: like `castAsBigInt`, except that an ADDRESS is not accepted. */
  function CastAsTimestamp(b: DecimalBounds, v: Value): (r: Result<Value>)
    requires ValidBounds(b) && WellTyped(v) && !v.kind.Double? && !ParsedFromText(v)
  {
    match v.kind
    case TinyInt | SmallInt | Integer | BigInt | Timestamp => Ok(Untagged(Timestamp, v.payload.n))
    case Decimal => DecimalWholeInto(b, Timestamp, v.payload.n)
    case _ => Err(TypeMismatch(v.kind, Timestamp))
  }

  /** The kinds `castAsString` formats as text (numbers, decimals, timestamps, doubles). */
  predicate FormattedAsText(k: Kind) {
    IsIntegral(k) || k.Decimal? || k.Double?
  }

  /** `castAsString` on an object: the same bytes, reinterpreted as VARCHAR. */
  function CastAsString(v: Value): (r: Result<Value>)
    requires WellTyped(v) && !FormattedAsText(v.kind)
  {
    if IsObject(v.kind) then Ok(Value(Varchar, v.payload, v.nullTag))
    else Err(TypeMismatch(v.kind, Varchar))
  }

  /** `castAsBinary`: only VARBINARY is accepted. */
  function CastAsBinary(v: Value): (r: Result<Value>)
    requires WellTyped(v)
  {
    if v.kind.Varbinary? then Ok(Value(Varbinary, v.payload, v.nullTag))
    else Err(TypeMismatch(v.kind, Varbinary))
  }

  /** `castAsDecimal`: NULL stays NULL; the four integer kinds enter as n * 10^12. */
  function CastAsDecimal(v: Value): (r: Result<Value>)
    requires WellTyped(v) && !v.kind.Double? && !ParsedFromText(v)
    ensures r.Ok? ==> r.value.kind == Decimal && WellTyped(r.value)
  {
    if IsNull(v) then GetNullValue(Decimal)
    else match v.kind
      case TinyInt | SmallInt | Integer | BigInt => Ok(CreateDecimalFromInt(v.payload.n))
      case Decimal => Ok(v)
      case _ => Err(TypeMismatch(v.kind, Decimal))
  }

  /** The paths of `castAs` this model covers: no doubles, no parsing of text, no formatting as text. */
  predicate CastModelled(v: Value, target: Kind) {
    v.kind == target || IsNull(v) ||
    (!target.Double? && !v.kind.Double? &&
     (ParsedFromText(v) ==> !(IsIntegral(target) || target.Decimal?)) &&
     (target.Varchar? ==> !FormattedAsText(v.kind)))
  }

  /**
   * `castAs`: the value itself when the kind already matches, the target's
   * NULL for a NULL source, otherwise the cast for the target kind.
   */
  function CastAs(b: DecimalBounds, v: Value, target: Kind): (r: Result<Value>)
    requires ValidBounds(b) && WellTyped(v) && CastModelled(v, target)
  {
    if v.kind == target then Ok(v)
    else if IsNull(v) then GetNullValue(target)
    else match target
      case TinyInt => CastAsTinyInt(b, v)
      case SmallInt => CastAsSmallInt(b, v)
      case Integer => CastAsInteger(b, v)
      case BigInt => CastAsBigInt(b, v)
      case Timestamp => CastAsTimestamp(b, v)
      case Varchar => CastAsString(v)
      case Varbinary => CastAsBinary(v)
      case Decimal => CastAsDecimal(v)
      case _ => Err(Fault(NotCastable))
  }

  /** A cast to the value's own kind is the identity; a NULL casts to the target's NULL. */
  lemma CastIdentityAndNull(b: DecimalBounds, v: Value, target: Kind)
    requires ValidBounds(b) && WellTyped(v)
    ensures CastAs(b, v, v.kind) == Ok(v)
    ensures IsNull(v) && v.kind != target ==> CastAs(b, v, target) == GetNullValue(target)
    ensures IsNull(v) && v.kind != target && !target.Address? && !target.Array? ==>
      CastAs(b, v, target).Ok? && IsNull(CastAs(b, v, target).value) && CastAs(b, v, target).value.kind == target
  {}

  /**
   * Between integral kinds, a cast of a non-NULL value fails exactly when
   * the value is outside the target's non-NULL range (so widening never
   * fails); it then reports overflow or underflow by the value's sign.
   * Otherwise the result carries the same number and is not NULL.
   */
  lemma IntegralCastSpec(b: DecimalBounds, v: Value, target: Kind)
    requires ValidBounds(b) && Canonical(v) && IsIntegral(v.kind) && !IsNull(v) && IsIntegral(target)
    ensures CastAs(b, v, target).Ok? <==> PelotonMinOf(target) <= v.payload.n <= MaxOf(target)
    ensures CastAs(b, v, target).Ok? ==>
      var w := CastAs(b, v, target).value;
      w.kind == target && w.payload == Scalar(v.payload.n) && Canonical(w) && !IsNull(w)
    ensures CastAs(b, v, target).Err? ==> CastAs(b, v, target).error == RangeError(v.payload.n)
  {
    if target.TinyInt? || target.SmallInt? || target.Integer? {
      NarrowSpec(target, v.payload.n);
    }
  }

  /** Widening: every non-NULL integral value fits BIGINT and TIMESTAMP, and a TINYINT fits SMALLINT. */
  lemma WideningNeverFails(b: DecimalBounds, v: Value)
    requires ValidBounds(b) && Canonical(v) && IsIntegral(v.kind) && !IsNull(v)
    ensures CastAs(b, v, BigInt).Ok? && CastAs(b, v, Timestamp).Ok?
    ensures v.kind.TinyInt? ==> CastAs(b, v, SmallInt).Ok? && CastAs(b, v, Integer).Ok?
    ensures v.kind.SmallInt? ==> CastAs(b, v, Integer).Ok?
  {
    IntegralCastSpec(b, v, BigInt);
    IntegralCastSpec(b, v, Timestamp);
    IntegralCastSpec(b, v, SmallInt);
    IntegralCastSpec(b, v, Integer);
  }

  /**
   * A non-NULL decimal casts to an integral kind exactly when it lies in the
   * int64 window and its whole part fits the target; the result is the
   * whole part, truncated toward zero.
   */
  lemma DecimalToIntegralSpec(b: DecimalBounds, v: Value, target: Kind)
    requires ValidBounds(b) && WellTyped(v) && v.kind.Decimal? && !IsNull(v) && IsIntegral(target)
    ensures var whole := TDiv(v.payload.n, SCALE);
      (CastAs(b, v, target).Ok? <==>
        b.minInt64 <= v.payload.n <= b.maxInt64 && (target.BigInt? || target.Timestamp? || PelotonMinOf(target) <= whole <= MaxOf(target))) &&
      (CastAs(b, v, target).Ok? ==> CastAs(b, v, target).value == Untagged(target, whole))
  {
    NarrowDecimalSpec(b, v.payload.n);
    if target.TinyInt? || target.SmallInt? || target.Integer? {
      if NarrowDecimalToBigInt(b, v.payload.n).Ok? {
        NarrowSpec(target, TDiv(v.payload.n, SCALE));
      }
    }
  }

  /** An integer value that fits the int64 window comes back unchanged from DECIMAL. */
  lemma DecimalRoundTrip(b: DecimalBounds, v: Value)
    requires ValidBounds(b) && Canonical(v) && !IsNull(v)
    requires v.kind.TinyInt? || v.kind.SmallInt? || v.kind.Integer? || v.kind.BigInt?
    requires b.minInt64 <= v.payload.n * SCALE <= b.maxInt64
    ensures CastAs(b, v, Decimal) == Ok(CreateDecimalFromInt(v.payload.n))
    ensures CastAs(b, CastAs(b, v, Decimal).value, v.kind) == Ok(Untagged(v.kind, v.payload.n))
  {
    var d := CreateDecimalFromInt(v.payload.n);
    IntDecimalRoundTrip(b, v.payload.n);
    DecimalToIntegralSpec(b, d, v.kind);
  }

  /**
   * VARBINARY reads as VARCHAR with the same bytes, but VARCHAR never
   * converts to VARBINARY.
   */
  lemma ObjectCastSpec(b: DecimalBounds, v: Value)
    requires ValidBounds(b) && WellTyped(v) && IsObject(v.kind) && !IsNull(v)
    ensures v.kind.Varbinary? ==> CastAs(b, v, Varchar) == Ok(Value(Varchar, v.payload, false))
    ensures v.kind.Varchar? ==> CastAs(b, v, Varbinary) == Err(TypeMismatch(Varchar, Varbinary))
  {}

  // ---------------------------------------------------------------------
  // Promotion and the arithmetic operators.
  // ---------------------------------------------------------------------

  /**
   * `s_intPromotionTable`, `s_decimalPromotionTable` and
   * `s_doublePromotionTable`, indexed by the right operand's kind. Their
   * contents are defined outside value.h.
   */
  datatype PromotionTables = PromotionTables(
    intPromotion: Kind -> Kind, decimalPromotion: Kind -> Kind, doublePromotion: Kind -> Kind)

  /** `promoteForOp`: the left operand's kind chooses the table, the right one the entry. */
  function PromoteForOp(t: PromotionTables, vta: Kind, vtb: Kind): (rt: Kind)
    ensures !(IsIntegral(vta) || vta.Decimal? || vta.Double?) ==> rt == Invalid
    ensures IsIntegral(vta) ==> rt == t.intPromotion(vtb)
    ensures vta.Decimal? ==> rt == t.decimalPromotion(vtb)
    ensures vta.Double? ==> rt == t.doublePromotion(vtb)
  {
    match vta
    case TinyInt | SmallInt | Integer | BigInt | Timestamp => t.intPromotion(vtb)
    case Decimal => t.decimalPromotion(vtb)
    case Double => t.doublePromotion(vtb)
    case _ => Invalid
  }

  datatype ArithOp = Add | Subtract | Multiply | Divide

  /**
   * The paths this model covers: the promoted kind is not DOUBLE, and a
   * decimal operation sees no operand that `castAsDecimal` would parse or
   * convert from a double.
   */
  predicate ArithModelled(t: PromotionTables, lhs: Value, rhs: Value) {
    var vt := PromoteForOp(t, lhs.kind, rhs.kind);
    !vt.Double? &&
    (vt.Decimal? ==> !lhs.kind.Double? && !rhs.kind.Double? && !ParsedFromText(lhs) && !ParsedFromText(rhs))
  }

  /** The int64 operation named by `op`. */
  function BigIntOp(op: ArithOp, l: int, r: int): (res: Result<Value>)
    requires IsInt64(l) && IsInt64(r) && l != INT64_MIN
  {
    match op
    case Add => OpAddBigInts(l, r)
    case Subtract => OpSubtractBigInts(l, r)
    case Multiply => OpMultiplyBigInts(l, r)
    case Divide => OpDivideBigInts(l, r)
  }

  /** The decimal operation named by `op`. */
  function DecimalOp(b: DecimalBounds, op: ArithOp, l: int, r: int): (res: Result<Value>)
    requires ValidBounds(b) && IsTTInt(l) && IsTTInt(r)
  {
    match op
    case Add => OpAddDecimals(b, l, r)
    case Subtract => OpSubtractDecimals(b, l, r)
    case Multiply => OpMultiplyDecimals(b, l, r)
    case Divide => OpDivideDecimals(b, l, r)
  }

  /** `op_subtract` reports a failed promotion as a type mismatch, the other three as a plain exception. */
  function PromotionError(op: ArithOp, lhs: Value, rhs: Value): Error {
    if op.Subtract? then TypeMismatch(lhs.kind, rhs.kind) else Fault(PromotionFailed)
  }

  /**
   * `op_add`, `op_subtract`, `op_multiply`, `op_divide`: promote, return the
   * promoted kind's NULL if either side is NULL, then compute in int64 or in
   * DECIMAL. The left operand's conversion is taken to fail first.
   */
  function Arith(b: DecimalBounds, t: PromotionTables, op: ArithOp, lhs: Value, rhs: Value): (r: Result<Value>)
    requires ValidBounds(b) && Canonical(lhs) && Canonical(rhs) && ArithModelled(t, lhs, rhs)
  {
    var vt := PromoteForOp(t, lhs.kind, rhs.kind);
    if IsNull(lhs) || IsNull(rhs) then GetNullValue(vt)
    else if IsIntegral(vt) then
      match (CastAsBigIntAndGetValue(lhs), CastAsBigIntAndGetValue(rhs))
      case (Err(e), _) => Err(e)
      case (_, Err(e)) => Err(e)
      case (Ok(l), Ok(r)) => BigIntOp(op, l, r)
    else if vt.Decimal? then
      match (CastAsDecimal(lhs), CastAsDecimal(rhs))
      case (Err(e), _) => Err(e)
      case (_, Err(e)) => Err(e)
      case (Ok(l), Ok(r)) => DecimalOp(b, op, l.payload.n, r.payload.n)
    else Err(PromotionError(op, lhs, rhs))
  }

  /** A NULL operand gives a NULL of the promoted kind; a non-numeric left operand never promotes. */
  lemma ArithNullAndPromotion(b: DecimalBounds, t: PromotionTables, op: ArithOp, lhs: Value, rhs: Value)
    requires ValidBounds(b) && Canonical(lhs) && Canonical(rhs) && ArithModelled(t, lhs, rhs)
    ensures var vt := PromoteForOp(t, lhs.kind, rhs.kind);
      (IsNull(lhs) || IsNull(rhs)) && !vt.Address? && !vt.Array? ==>
        Arith(b, t, op, lhs, rhs).Ok? && IsNull(Arith(b, t, op, lhs, rhs).value) &&
        Arith(b, t, op, lhs, rhs).value.kind == vt
    ensures !IsNull(lhs) && !IsNull(rhs) && !(IsIntegral(lhs.kind) || lhs.kind.Decimal? || lhs.kind.Double?) ==>
      Arith(b, t, op, lhs, rhs) == Err(PromotionError(op, lhs, rhs))
  {}

  /**
   * Two non-NULL integer operands promoted to an integer kind meet in the
   * checked int64 operations; an integer operand promoted to DECIMAL enters
   * scaled by 10^12.
   */
  lemma ArithDispatch(b: DecimalBounds, t: PromotionTables, op: ArithOp, lhs: Value, rhs: Value)
    requires ValidBounds(b) && Canonical(lhs) && Canonical(rhs) && ArithModelled(t, lhs, rhs)
    requires !IsNull(lhs) && !IsNull(rhs)
    ensures IsIntegral(lhs.kind) && IsIntegral(rhs.kind) && IsIntegral(PromoteForOp(t, lhs.kind, rhs.kind)) ==>
      Arith(b, t, op, lhs, rhs) == BigIntOp(op, lhs.payload.n, rhs.payload.n)
    ensures ((lhs.kind.TinyInt? || lhs.kind.SmallInt? || lhs.kind.Integer? || lhs.kind.BigInt?) &&
             rhs.kind.Decimal? && PromoteForOp(t, lhs.kind, rhs.kind).Decimal?) ==>
      IsTTInt(lhs.payload.n * SCALE) && Arith(b, t, op, lhs, rhs) == DecimalOp(b, op, lhs.payload.n * SCALE, rhs.payload.n)
  {}
}
