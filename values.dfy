/**
 * The engine's scalar Value: a kind tag, the payload the 16-byte data area
 * holds for that kind, and the null tag byte. Integer kinds use the lowest
 * value of their width as SQL NULL; decimals are NULL exactly when they hold
 * the smallest 128-bit value; every other kind relies on the null tag.
 */
module Values {
  import opened Ints

  datatype Kind =
    | Invalid | Null
    | TinyInt | SmallInt | Integer | BigInt | Timestamp
    | Double | Varchar | Varbinary | Decimal | Boolean | Address | Array

  /** The five kinds held as a native two's-complement integer. */
  predicate IsIntegral(k: Kind) {
    k.TinyInt? || k.SmallInt? || k.Integer? || k.BigInt? || k.Timestamp?
  }

  /** The variable-length kinds, whose data area refers to a length-prefixed object. */
  predicate IsObject(k: Kind) {
    k.Varchar? || k.Varbinary?
  }

  /**
   * What the data area holds: an integer (integral kinds, the 128-bit scaled
   * decimal, the boolean byte), the bytes of a non-null object, or nothing the
   * model looks at (NULL objects, doubles, addresses, arrays).
   */
  datatype Payload = Scalar(n: int) | Bytes(b: seq<byte>) | NoData

  datatype Value = Value(kind: Kind, payload: Payload, nullTag: bool)

  /** Why a plain `Exception` was thrown. */
  datatype Reason =
    | NegativeObjectLength
    | AddOverflow | SubtractOverflow | MultiplyOverflow | DivideByZero
    | IncrementOverflow | DecrementOverflow
    | DecimalOverflow
    | NotIncrementable | NotDecrementable | NotNumeric | NotComparable | NotCastable
    | PromotionFailed | UnsupportedType
    | LikeOperandNotVarchar

  /** The exception classes the Value operations throw. */
  datatype Error =
    | TypeMismatch(from: Kind, to: Kind)
    | OutOfRange(overflow: bool, underflow: bool)
    | ObjectSize
    | IncompatibleType(kind: Kind)
    | Fault(reason: Reason)

  datatype Result<T> = Ok(value: T) | Err(error: Error)

  datatype Option<T> = None | Some(value: T)

  /** The largest value of an integral kind. */
  function MaxOf(k: Kind): int
    requires IsIntegral(k)
  {
    match k
    case TinyInt => INT8_MAX
    case SmallInt => INT16_MAX
    case Integer => INT32_MAX
    case _ => INT64_MAX
  }

  /** The value an integral kind reserves as SQL NULL. */
  function SentinelOf(k: Kind): int
    requires IsIntegral(k)
  {
    match k
    case TinyInt => INT8_NULL
    case SmallInt => INT16_NULL
    case Integer => INT32_NULL
    case _ => INT64_NULL
  }

  /** The smallest non-null value of an integral kind. */
  function PelotonMinOf(k: Kind): int
    requires IsIntegral(k)
  {
    SentinelOf(k) + 1
  }

  /** The C++ range of the native integer behind an integral kind. */
  predicate InRangeOf(k: Kind, n: int)
    requires IsIntegral(k)
  {
    SentinelOf(k) <= n <= MaxOf(k)
  }

  /** The shapes a live Value of each kind can take. */
  predicate WellTyped(v: Value) {
    match v.kind
    case TinyInt | SmallInt | Integer | BigInt | Timestamp =>
      v.payload.Scalar? && InRangeOf(v.kind, v.payload.n)
    case Decimal =>
      v.payload.Scalar? && IsTTInt(v.payload.n) && !v.nullTag
    case Boolean =>
      v.payload.Scalar? && (v.payload.n == 0 || v.payload.n == 1 || v.payload.n == INT8_NULL)
    case Varchar | Varbinary =>
      (v.payload.Bytes? && !v.nullTag && |v.payload.b| <= INT32_MAX) || (v.payload.NoData? && v.nullTag)
    case Address => v.payload.Scalar? && IsInt64(v.payload.n)
    case Null => v.payload.NoData? && v.nullTag
    case _ => v.payload.NoData?
  }

  /** Integral values whose null tag agrees with their sentinel, as every factory produces. */
  predicate Canonical(v: Value) {
    WellTyped(v) && (IsIntegral(v.kind) ==> v.nullTag == (v.payload.n == SentinelOf(v.kind)))
  }

  /** `isNull`: a decimal is NULL when it holds TTInt's minimum, anything else when it is tagged. */
  predicate IsNull(v: Value) {
    if v.kind.Decimal? then v.payload == Scalar(TTINT_MIN) else v.nullTag
  }

  /** The Value a fresh `Value(type)` holds: a zeroed data area and no null tag. */
  function Blank(k: Kind): Value {
    Value(k, if IsIntegral(k) || k.Decimal? || k.Boolean? || k.Address? then Scalar(0) else NoData, false)
  }

  /**
   * `getTinyIntValue` .. `getTimestampValue`: an integral Value holding `n`,
   * tagged NULL when `n` is the kind's sentinel.
   */
  function IntegralValue(k: Kind, n: int): (v: Value)
    requires IsIntegral(k) && InRangeOf(k, n)
    ensures Canonical(v) && v.kind == k && v.payload == Scalar(n)
    ensures IsNull(v) <==> n == SentinelOf(k)
  {
    Value(k, Scalar(n), n == SentinelOf(k))
  }

  /** `getDecimalValue`: never tagged; NULL only through the minimum. */
  function DecimalValue(n: int): (v: Value)
    requires IsTTInt(n)
    ensures WellTyped(v) && v.kind == Decimal && v.payload == Scalar(n)
    ensures IsNull(v) <==> n == TTINT_MIN
  {
    Value(Decimal, Scalar(n), false)
  }

  /** `getBooleanValue`, `getTrue` and `getFalse`: the boolean byte 1 or 0, never NULL. */
  function BooleanValue(b: bool): (v: Value)
    ensures WellTyped(v) && v.kind == Boolean && !IsNull(v)
  {
    Value(Boolean, Scalar(if b then 1 else 0), false)
  }

  /** `isBooleanNULL`: the first data byte, read as int8, is INT8_NULL. */
  predicate IsBooleanNull(v: Value)
    requires v.kind.Boolean? && v.payload.Scalar?
  {
    v.payload.n == INT8_NULL
  }

  /** `isTrue`: false for a boolean NULL, otherwise the stored bool. */
  predicate IsTrue(v: Value)
    requires v.kind.Boolean? && v.payload.Scalar?
  {
    if IsBooleanNull(v) then false else v.payload.n != 0
  }

  /** `isFalse`: false for a boolean NULL, otherwise the negated stored bool. */
  predicate IsFalse(v: Value)
    requires v.kind.Boolean? && v.payload.Scalar?
  {
    if IsBooleanNull(v) then false else v.payload.n == 0
  }

  /** A boolean is exactly one of true, false or NULL, and a factory boolean reads back as its bool. */
  lemma BooleanTrichotomy(v: Value)
    requires v.kind.Boolean? && v.payload.Scalar?
    ensures !(IsTrue(v) && IsFalse(v))
    ensures !IsTrue(v) && !IsFalse(v) <==> IsBooleanNull(v)
    ensures forall b: bool :: IsTrue(BooleanValue(b)) == b && IsFalse(BooleanValue(b)) == !b
  {}

  /**
   * `setNull` applied to `v`: the Value it leaves behind, or the exception for
   * kinds without a NULL representation. The NULL and INVALID kinds only get
   * the tag.
   */
  function NullOf(v: Value): (r: Result<Value>)
    ensures r.Ok? ==> r.value.kind == v.kind && IsNull(r.value)
    ensures r.Err? <==> v.kind.Address? || v.kind.Array?
  {
    match v.kind
    case Boolean => Ok(Value(Boolean, Scalar(INT8_NULL), true))
    case Null | Invalid => Ok(v.(nullTag := true))
    case Double | Varchar | Varbinary => Ok(Value(v.kind, NoData, true))
    case TinyInt | SmallInt | Integer | BigInt | Timestamp => Ok(Value(v.kind, Scalar(SentinelOf(v.kind)), true))
    case Decimal => Ok(Value(Decimal, Scalar(TTINT_MIN), false))
    case Address | Array => Err(Fault(UnsupportedType))
  }

  /** `getNullValue(type)`: a fresh Value of that kind set to NULL; it is canonical. */
  function GetNullValue(k: Kind): (r: Result<Value>)
    ensures r.Ok? ==> r.value.kind == k && IsNull(r.value) && Canonical(r.value)
    ensures r.Err? <==> k.Address? || k.Array?
  {
    NullOf(Blank(k))
  }

  /**
   * The NULL a factory builds from the sentinel is the NULL `setNull`
   * builds, and conversely every other in-range integer builds a non-NULL.
   */
  lemma SentinelFactoryIsNull(k: Kind, n: int)
    requires IsIntegral(k) && InRangeOf(k, n)
    ensures IntegralValue(k, n) == GetNullValue(k).value <==> n == SentinelOf(k)
  {}

  /** The fixed-width NULL of each kind is the only NULL the factories can build. */
  lemma NullIsUnique(v: Value, w: Value)
    requires Canonical(v) && Canonical(w) && v.kind == w.kind && IsIntegral(v.kind)
    requires IsNull(v) && IsNull(w)
    ensures v == w
  {}

  /** `getTupleStorageSize`: the bytes a column of kind `k` takes in a row. */
  function TupleStorageSize(k: Kind): (r: Result<nat>)
    ensures r.Err? <==> !(IsIntegral(k) || IsObject(k) || k.Double? || k.Decimal? || k.Boolean?)
    ensures r.Ok? ==> 1 <= r.value <= 16
  {
    match k
    case BigInt | Timestamp => Ok(8)
    case TinyInt => Ok(1)
    case SmallInt => Ok(2)
    case Integer => Ok(4)
    case Double => Ok(8)
    case Varchar | Varbinary => Ok(8)
    case Decimal => Ok(16)
    case Boolean => Ok(1)
    case _ => Err(Fault(UnsupportedType))
  }

  /**
   * The slot size of each integral kind is exactly the width of its C++
   * range: `n` fits the kind iff it fits `size` bytes of two's complement.
   */
  lemma StorageSizeMatchesRange(k: Kind, n: int)
    requires IsIntegral(k)
    ensures TupleStorageSize(k).Ok?
    ensures InRangeOf(k, n) <==> -(Pow256(TupleStorageSize(k).value) as int) <= 2 * n < Pow256(TupleStorageSize(k).value)
  {
    var size := TupleStorageSize(k).value;
    assert Pow256(1) == 0x100;
    assert Pow256(2) == 0x1_0000;
    assert Pow256(4) == 0x1_0000_0000 by {
      assert Pow256(3) == 0x100_0000;
    }
    if size == 8 {
      assert Pow256(8) == 0x1_0000_0000_0000_0000 by {
        assert Pow256(4) == 0x1_0000_0000 by { assert Pow256(3) == 0x100_0000; }
        assert Pow256(6) == 0x1_0000_0000_0000;
      }
    }
  }

  /** The out-of-range exception of a narrowing cast and the flags it records. */
  function RangeError(value: int): (e: Error)
    ensures e.OutOfRange? && e.overflow == (value > 0) && e.underflow == (value < 0)
  {
    OutOfRange(value > 0, value < 0)
  }

  /** The range check of `narrowToInteger`, `narrowToSmallInt` and `narrowToTinyInt`. */
  function Narrow(target: Kind, value: int): (r: Result<int>)
    requires target.TinyInt? || target.SmallInt? || target.Integer?
  {
    if value > MaxOf(target) || value < PelotonMinOf(target) then Err(RangeError(value)) else Ok(value)
  }

  /**
   * A narrowing succeeds exactly on the non-null range of the target and
   * keeps the value; a failure records overflow for a value above the range
   * and underflow for one below it, never both.
   */
  lemma NarrowSpec(target: Kind, value: int)
    requires target.TinyInt? || target.SmallInt? || target.Integer?
    ensures Narrow(target, value).Ok? <==> PelotonMinOf(target) <= value <= MaxOf(target)
    ensures Narrow(target, value).Ok? ==> Narrow(target, value).value == value && InRangeOf(target, value)
    ensures Narrow(target, value).Err? ==>
      Narrow(target, value).error.overflow == (value > MaxOf(target)) &&
      Narrow(target, value).error.underflow == (value < PelotonMinOf(target)) &&
      Narrow(target, value).error.overflow != Narrow(target, value).error.underflow
  {}

  /** A Value being built in place, as the casts and `getNullValue` do with a local `Value retval(type)`. */
  class Cell {
    var v: Value

    constructor (k: Kind)
      ensures v == Blank(k)
    {
      v := Blank(k);
    }

    /** `setNull`: tags the receiver NULL and stores the kind's NULL payload. */
    method SetNull() returns (r: Result<()>)
      modifies this
      ensures NullOf(old(v)).Ok? ==> r.Ok? && v == NullOf(old(v)).value
      ensures NullOf(old(v)).Err? ==> r == Err(NullOf(old(v)).error) && v == old(v).(nullTag := true)
    {
      v := v.(nullTag := true);
      match v.kind {
        case Boolean =>
          v := v.(payload := Scalar(INT8_NULL));
        case Null | Invalid =>
          return Ok(());
        case TinyInt | SmallInt | Integer | BigInt | Timestamp =>
          v := v.(payload := Scalar(SentinelOf(v.kind)));
        case Double | Varchar | Varbinary =>
          v := v.(payload := NoData);
        case Decimal =>
          v := v.(payload := Scalar(TTINT_MIN), nullTag := false);
        case _ =>
          return Err(Fault(UnsupportedType));
      }
      r := Ok(());
    }

    /**
     * `narrowToInteger` / `narrowToSmallInt` / `narrowToTinyInt`: stores
     * `value` when it fits the receiver's kind and leaves it unchanged otherwise.
     */
    method NarrowTo(value: int) returns (r: Result<()>)
      requires v.kind.TinyInt? || v.kind.SmallInt? || v.kind.Integer?
      modifies this
      ensures Narrow(old(v).kind, value).Ok? ==> r.Ok? && v == old(v).(payload := Scalar(value))
      ensures Narrow(old(v).kind, value).Err? ==> r == Err(Narrow(old(v).kind, value).error) && v == old(v)
    {
      if value > MaxOf(v.kind) || value < PelotonMinOf(v.kind) {
        return Err(RangeError(value));
      }
      v := v.(payload := Scalar(value));
      r := Ok(());
    }
  }

  /** `getNullValue` is `Value(type).setNull()` on a fresh receiver. */
  method GetNullValueInPlace(k: Kind) returns (r: Result<Value>)
    ensures r == GetNullValue(k)
  {
    var cell := new Cell(k);
    var done := cell.SetNull();
    if done.Err? {
      return Err(done.error);
    }
    r := Ok(cell.v);
  }
}
