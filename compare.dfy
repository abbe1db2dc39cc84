/**
 * Three-way comparison of Values (`compare`, `compareNull`,
 * `compare_withoutNull` and the per-kind `compare*` members), the relational
 * operators built on it, and `op_max` / `op_min`, on the non-double paths.
 */
module Compare {
  import opened Ints
  import opened Values
  import opened BigIntArith
  import opened DecimalArith

  /** VALUE_COMPARE_LESSTHAN, VALUE_COMPARE_EQUAL, VALUE_COMPARE_GREATERTHAN. */
  datatype Ordering = Less | Equal | Greater

  function Flip(o: Ordering): Ordering {
    match o
    case Less => Greater
    case Equal => Equal
    case Greater => Less
  }

  /** `compareValue<T>`. */
  function CompareValue(l: int, r: int): (o: Ordering)
    ensures o == Equal <==> l == r
    ensures o == Less <==> l < r
  {
    if l == r then Equal else if l > r then Greater else Less
  }

  /** `strncmp(a, b, n)` on unsigned bytes: stops at the first difference or at a NUL both share. */
  function Strncmp(a: seq<byte>, b: seq<byte>, n: nat): Ordering
    requires n <= |a| && n <= |b|
  {
    if n == 0 then Equal
    else if a[0] != b[0] then CompareValue(a[0], b[0])
    else if a[0] == 0 then Equal
    else Strncmp(a[1..], b[1..], n - 1)
  }

  /** `memcmp(a, b, n)` on unsigned bytes. */
  function Memcmp(a: seq<byte>, b: seq<byte>, n: nat): Ordering
    requires n <= |a| && n <= |b|
  {
    if n == 0 then Equal
    else if a[0] != b[0] then CompareValue(a[0], b[0])
    else Memcmp(a[1..], b[1..], n - 1)
  }

  function Min(x: nat, y: nat): nat { if x < y then x else y }

  /** The shared tail of `compareStringValue` and `compareBinaryValue`: a tie on the common prefix goes to the longer. */
  function ByLength(prefix: Ordering, leftLength: nat, rightLength: nat): Ordering {
    if prefix == Equal && leftLength != rightLength then CompareValue(leftLength, rightLength)
    else prefix
  }

  /** `compareStringValue`: a VARCHAR accepts a VARCHAR or VARBINARY right side. */
  function CompareStringValue(lhs: Value, rhs: Value): (r: Result<Ordering>)
    requires lhs.kind.Varchar? && WellTyped(lhs) && WellTyped(rhs) && !IsNull(lhs) && !IsNull(rhs)
  {
    if !IsObject(rhs.kind) then Err(TypeMismatch(rhs.kind, lhs.kind))
    else
      var a := lhs.payload.b;
      var b := rhs.payload.b;
      Ok(ByLength(Strncmp(a, b, Min(|a|, |b|)), |a|, |b|))
  }

  /** `compareBinaryValue`: a VARBINARY accepts only a VARBINARY right side. */
  function CompareBinaryValue(lhs: Value, rhs: Value): (r: Result<Ordering>)
    requires lhs.kind.Varbinary? && WellTyped(lhs) && WellTyped(rhs) && !IsNull(lhs) && !IsNull(rhs)
  {
    if !rhs.kind.Varbinary? then Err(TypeMismatch(rhs.kind, lhs.kind))
    else
      var a := lhs.payload.b;
      var b := rhs.payload.b;
      Ok(ByLength(Memcmp(a, b, Min(|a|, |b|)), |a|, |b|))
  }

  /** `compareDecimalValue`: an integer right side is scaled by 10^12 first. */
  function CompareDecimalValue(lhs: Value, rhs: Value): (r: Result<Ordering>)
    requires lhs.kind.Decimal? && WellTyped(lhs) && WellTyped(rhs) && !rhs.kind.Double?
  {
    if rhs.kind.Decimal? then Ok(CompareValue(lhs.payload.n, rhs.payload.n))
    else if IsIntegral(rhs.kind) then Ok(CompareValue(lhs.payload.n, rhs.payload.n * SCALE))
    else Err(TypeMismatch(rhs.kind, lhs.kind))
  }

  /**
   * `compareTinyInt`, `compareSmallInt`, `compareInteger`, `compareBigInt`
   * and `compareTimestamp`: against a decimal the left side is scaled by
   * 10^12; anything else is read with `castAsBigIntAndGetValue`.
   */
  function CompareIntegral(lhs: Value, rhs: Value): (r: Result<Ordering>)
    requires IsIntegral(lhs.kind) && WellTyped(lhs) && WellTyped(rhs) && !rhs.kind.Double?
  {
    if rhs.kind.Decimal? then Ok(CompareValue(lhs.payload.n * SCALE, rhs.payload.n))
    else match CastAsBigIntAndGetValue(rhs)
      case Ok(n) => Ok(CompareValue(lhs.payload.n, n))
      case Err(e) => Err(e)
  }

  /** `compareNull`: None stands for VALUE_COMPARE_INVALID, "neither side is NULL". */
  function CompareNull(lhs: Value, rhs: Value): (o: Option<Ordering>)
    ensures o.None? <==> !IsNull(lhs) && !IsNull(rhs)
  {
    if IsNull(lhs) then Some(if IsNull(rhs) then Equal else Less)
    else if IsNull(rhs) then Some(Greater)
    else None
  }

  /** No double on either side: those comparisons are floating point. */
  predicate NoDoubles(lhs: Value, rhs: Value) {
    WellTyped(lhs) && WellTyped(rhs) && !lhs.kind.Double? && !rhs.kind.Double?
  }

  /** `compare_withoutNull`: dispatch on the left side's kind. */
  function CompareWithoutNull(lhs: Value, rhs: Value): (r: Result<Ordering>)
    requires NoDoubles(lhs, rhs) && !IsNull(lhs) && !IsNull(rhs)
  {
    match lhs.kind
    case Varchar => CompareStringValue(lhs, rhs)
    case TinyInt | SmallInt | Integer | BigInt | Timestamp => CompareIntegral(lhs, rhs)
    case Varbinary => CompareBinaryValue(lhs, rhs)
    case Decimal => CompareDecimalValue(lhs, rhs)
    case _ => Err(Fault(NotComparable))
  }

  /** `compare`: NULLs first, then `compare_withoutNull`. */
  function CompareValues(lhs: Value, rhs: Value): (r: Result<Ordering>)
    requires NoDoubles(lhs, rhs)
  {
    match CompareNull(lhs, rhs)
    case Some(o) => Ok(o)
    case None => CompareWithoutNull(lhs, rhs)
  }

  /** NULL equals NULL and sorts below every non-NULL value, whatever the kinds. */
  lemma NullsSortFirst(lhs: Value, rhs: Value)
    requires NoDoubles(lhs, rhs)
    ensures IsNull(lhs) && IsNull(rhs) ==> CompareValues(lhs, rhs) == Ok(Equal)
    ensures IsNull(lhs) && !IsNull(rhs) ==> CompareValues(lhs, rhs) == Ok(Less)
    ensures !IsNull(lhs) && IsNull(rhs) ==> CompareValues(lhs, rhs) == Ok(Greater)
  {}

  /** Lexicographic order of byte strings, as a reference: a proper prefix, or a smaller byte at the first difference. */
  ghost predicate LexLess(a: seq<byte>, b: seq<byte>) {
    exists k :: 0 <= k <= |a| && k <= |b| && a[..k] == b[..k] &&
      ((k == |a| && k < |b|) || (k < |a| && k < |b| && a[k] < b[k]))
  }

  lemma {:induction false} MemcmpSpec(a: seq<byte>, b: seq<byte>, n: nat)
    requires n <= |a| && n <= |b|
    ensures Memcmp(a, b, n) == Equal <==> a[..n] == b[..n]
    ensures Memcmp(a, b, n) == Less <==>
      exists k :: 0 <= k < n && a[..k] == b[..k] && a[k] < b[k]
  {
    if n > 0 {
      if a[0] != b[0] {
        assert a[..n][0] != b[..n][0];
        if a[0] < b[0] {
          assert a[..0] == b[..0];
        }
      } else {
        MemcmpSpec(a[1..], b[1..], n - 1);
        assert a[..n] == [a[0]] + a[1..][..n - 1];
        assert b[..n] == [b[0]] + b[1..][..n - 1];
        if Memcmp(a, b, n) == Less {
          var k :| 0 <= k < n - 1 && a[1..][..k] == b[1..][..k] && a[1..][k] < b[1..][k];
          assert a[..k + 1] == [a[0]] + a[1..][..k];
          assert b[..k + 1] == [b[0]] + b[1..][..k];
        }
        forall k | 0 <= k < n && a[..k] == b[..k] && a[k] < b[k]
          ensures Memcmp(a, b, n) == Less
        {
          assert k > 0;
          assert a[1..][..k - 1] == a[..k][1..];
          assert b[1..][..k - 1] == b[..k][1..];
        }
      }
    }
  }

  /**
   * Two non-NULL VARBINARY values compare by unsigned bytes, shorter first on
   * a tie: Equal exactly for equal contents, Less exactly for the
   * lexicographically smaller one.
   */
  lemma BinaryOrder(lhs: Value, rhs: Value)
    requires lhs.kind.Varbinary? && rhs.kind.Varbinary? && WellTyped(lhs) && WellTyped(rhs)
    requires !IsNull(lhs) && !IsNull(rhs)
    ensures CompareValues(lhs, rhs) == Ok(Equal) <==> lhs.payload.b == rhs.payload.b
    ensures CompareValues(lhs, rhs) == Ok(Less) <==> LexLess(lhs.payload.b, rhs.payload.b)
  {
    var a := lhs.payload.b;
    var b := rhs.payload.b;
    var m := Min(|a|, |b|);
    MemcmpSpec(a, b, m);
    if CompareValues(lhs, rhs) == Ok(Less) {
      if Memcmp(a, b, m) == Less {
        var k :| 0 <= k < m && a[..k] == b[..k] && a[k] < b[k];
        assert LexLess(a, b);
      } else {
        assert a[..m] == b[..m] && m == |a|;
        assert LexLess(a, b);
      }
    }
    if LexLess(a, b) {
      var k :| 0 <= k <= |a| && k <= |b| && a[..k] == b[..k] &&
        ((k == |a| && k < |b|) || (k < |a| && k < |b| && a[k] < b[k]));
      if k < m {
        assert Memcmp(a, b, m) == Less;
      } else {
        assert a[..m] == b[..m];
      }
    }
    if a == b {
      assert a[..m] == b[..m];
    }
    if CompareValues(lhs, rhs) == Ok(Equal) {
      assert a == a[..m] && b == b[..m];
    }
  }

  /** `strncmp` agrees with `memcmp` as long as no NUL occurs in the first n bytes. */
  lemma {:induction false} StrncmpWithoutNul(a: seq<byte>, b: seq<byte>, n: nat)
    requires n <= |a| && n <= |b|
    requires forall i :: 0 <= i < n ==> a[i] != 0
    ensures Strncmp(a, b, n) == Memcmp(a, b, n)
  {
    if n > 0 && a[0] == b[0] {
      StrncmpWithoutNul(a[1..], b[1..], n - 1);
    }
  }

  /** VARCHAR values without a NUL byte compare exactly like VARBINARY ones. */
  lemma StringOrderWithoutNul(lhs: Value, rhs: Value)
    requires lhs.kind.Varchar? && IsObject(rhs.kind) && WellTyped(lhs) && WellTyped(rhs)
    requires !IsNull(lhs) && !IsNull(rhs)
    requires forall i :: 0 <= i < |lhs.payload.b| ==> lhs.payload.b[i] != 0
    ensures CompareValues(lhs, rhs) == Ok(Equal) <==> lhs.payload.b == rhs.payload.b
    ensures CompareValues(lhs, rhs) == Ok(Less) <==> LexLess(lhs.payload.b, rhs.payload.b)
  {
    var a := lhs.payload.b;
    var b := rhs.payload.b;
    StrncmpWithoutNul(a, b, Min(|a|, |b|));
    BinaryOrder(Value(Varbinary, lhs.payload, false), Value(Varbinary, rhs.payload, false));
  }

  /** `strncmp` stops at a NUL both strings share: nothing after it is compared. */
  lemma {:induction false} StrncmpStopsAtNul(a: seq<byte>, b: seq<byte>, n: nat, k: nat)
    requires n <= |a| && n <= |b| && k < n
    requires a[..k + 1] == b[..k + 1] && a[k] == 0
    ensures Strncmp(a, b, n) == Equal
    decreases k
  {
    assert a[0] == a[..k + 1][0] && b[0] == b[..k + 1][0];
    if k > 0 && a[0] != 0 {
      assert a[1..][..k] == a[..k + 1][1..] && b[1..][..k] == b[..k + 1][1..];
      StrncmpStopsAtNul(a[1..], b[1..], n - 1, k - 1);
    }
  }

  /**
   * Two VARCHARs that agree up to and including a NUL byte inside the
   * shorter one compare by length alone: EQUAL when their lengths are equal,
   * however their bytes after the NUL differ.
   */
  lemma StringCompareStopsAtNul(lhs: Value, rhs: Value, k: nat)
    requires lhs.kind.Varchar? && rhs.kind.Varchar? && WellTyped(lhs) && WellTyped(rhs)
    requires !IsNull(lhs) && !IsNull(rhs)
    requires k < |lhs.payload.b| && k < |rhs.payload.b|
    requires lhs.payload.b[..k + 1] == rhs.payload.b[..k + 1] && lhs.payload.b[k] == 0
    ensures CompareValues(lhs, rhs) == Ok(CompareValue(|lhs.payload.b|, |rhs.payload.b|))
    ensures |lhs.payload.b| == |rhs.payload.b| ==> CompareValues(lhs, rhs) == Ok(Equal)
  {
    var a := lhs.payload.b;
    var b := rhs.payload.b;
    StrncmpStopsAtNul(a, b, Min(|a|, |b|), k);
  }

  /** A VARCHAR accepts a VARBINARY right side, but not the other way round. */
  lemma MixedObjectComparison(lhs: Value, rhs: Value)
    requires lhs.kind.Varchar? && rhs.kind.Varbinary? && WellTyped(lhs) && WellTyped(rhs)
    requires !IsNull(lhs) && !IsNull(rhs)
    ensures CompareValues(lhs, rhs).Ok?
    ensures CompareValues(rhs, lhs) == Err(TypeMismatch(Varchar, Varbinary))
  {}

  /** An integer kind meets a decimal at the integer's value times 10^12, from either side. */
  lemma IntegerMeetsDecimal(i: Value, d: Value)
    requires IsIntegral(i.kind) && d.kind.Decimal? && WellTyped(i) && WellTyped(d)
    requires !IsNull(i) && !IsNull(d)
    ensures CompareValues(i, d) == Ok(CompareValue(i.payload.n * SCALE, d.payload.n))
    ensures CompareValues(d, i) == Ok(CompareValue(d.payload.n, i.payload.n * SCALE))
  {}

  lemma {:induction false} StrncmpAntisymmetric(a: seq<byte>, b: seq<byte>, n: nat)
    requires n <= |a| && n <= |b|
    ensures Strncmp(b, a, n) == Flip(Strncmp(a, b, n))
  {
    if n > 0 && a[0] == b[0] && a[0] != 0 {
      StrncmpAntisymmetric(a[1..], b[1..], n - 1);
    }
  }

  lemma {:induction false} MemcmpAntisymmetric(a: seq<byte>, b: seq<byte>, n: nat)
    requires n <= |a| && n <= |b|
    ensures Memcmp(b, a, n) == Flip(Memcmp(a, b, n))
  {
    if n > 0 && a[0] == b[0] {
      MemcmpAntisymmetric(a[1..], b[1..], n - 1);
    }
  }

  /** Whenever both directions compare, they give opposite answers. */
  lemma CompareAntisymmetric(lhs: Value, rhs: Value)
    requires NoDoubles(lhs, rhs)
    requires CompareValues(lhs, rhs).Ok? && CompareValues(rhs, lhs).Ok?
    ensures CompareValues(rhs, lhs).value == Flip(CompareValues(lhs, rhs).value)
  {
    if !IsNull(lhs) && !IsNull(rhs) && IsObject(lhs.kind) && IsObject(rhs.kind) {
      var a := lhs.payload.b;
      var b := rhs.payload.b;
      StrncmpAntisymmetric(a, b, Min(|a|, |b|));
      MemcmpAntisymmetric(a, b, Min(|a|, |b|));
    }
  }

  lemma {:induction false} StrncmpReflexive(a: seq<byte>, n: nat)
    requires n <= |a|
    ensures Strncmp(a, a, n) == Equal
  {
    if n > 0 && a[0] != 0 {
      StrncmpReflexive(a[1..], n - 1);
    }
  }

  lemma {:induction false} MemcmpReflexive(a: seq<byte>, n: nat)
    requires n <= |a|
    ensures Memcmp(a, a, n) == Equal
  {
    if n > 0 {
      MemcmpReflexive(a[1..], n - 1);
    }
  }

  /** Exactly NULLs, integers, decimals and objects compare with themselves, and then they are equal. */
  lemma CompareReflexive(v: Value)
    requires NoDoubles(v, v)
    ensures CompareValues(v, v).Ok? <==> IsNull(v) || IsIntegral(v.kind) || IsObject(v.kind) || v.kind.Decimal?
    ensures CompareValues(v, v).Ok? ==> CompareValues(v, v) == Ok(Equal)
  {
    if !IsNull(v) && IsObject(v.kind) {
      StrncmpReflexive(v.payload.b, |v.payload.b|);
      MemcmpReflexive(v.payload.b, |v.payload.b|);
    }
  }

  // ---------------------------------------------------------------------
  // The relational operators and op_max / op_min.
  // ---------------------------------------------------------------------

  /** `op_equals`, `op_notEquals`, `op_lessThan`, `op_lessThanOrEqual`, `op_greaterThan`, `op_greaterThanOrEqual`. */
  datatype Relation = Eq | Ne | Lt | Le | Gt | Ge

  predicate Holds(rel: Relation, o: Ordering) {
    match rel
    case Eq => o == Equal
    case Ne => o != Equal
    case Lt => o == Less
    case Le => o != Greater
    case Gt => o == Greater
    case Ge => o != Less
  }

  /** The relation with its operands swapped. */
  function Converse(rel: Relation): Relation {
    match rel
    case Eq => Eq
    case Ne => Ne
    case Lt => Gt
    case Le => Ge
    case Gt => Lt
    case Ge => Le
  }

  /** `op_*`: `getTrue()` or `getFalse()` from `compare`. */
  function OpRelation(rel: Relation, lhs: Value, rhs: Value): (r: Result<Value>)
    requires NoDoubles(lhs, rhs)
    ensures r.Ok? ==> r.value.kind == Boolean && r.value.payload.Scalar? && !IsNull(r.value) && !IsBooleanNull(r.value)
  {
    match CompareValues(lhs, rhs)
    case Ok(o) => Ok(BooleanValue(Holds(rel, o)))
    case Err(e) => Err(e)
  }

  /** `op_*_withoutNull`: the same from `compare_withoutNull`. */
  function OpRelationWithoutNull(rel: Relation, lhs: Value, rhs: Value): (r: Result<Value>)
    requires NoDoubles(lhs, rhs) && !IsNull(lhs) && !IsNull(rhs)
  {
    match CompareWithoutNull(lhs, rhs)
    case Ok(o) => Ok(BooleanValue(Holds(rel, o)))
    case Err(e) => Err(e)
  }

  /**
   * The operators give a two-valued boolean, agree with their
   * `_withoutNull` forms on non-NULL operands, and swapping the operands of
   * a comparable pair turns each relation into its converse.
   */
  lemma RelationSpec(rel: Relation, lhs: Value, rhs: Value)
    requires NoDoubles(lhs, rhs)
    ensures OpRelation(rel, lhs, rhs).Ok? ==>
      (IsTrue(OpRelation(rel, lhs, rhs).value) <==> Holds(rel, CompareValues(lhs, rhs).value))
    ensures !IsNull(lhs) && !IsNull(rhs) ==> OpRelation(rel, lhs, rhs) == OpRelationWithoutNull(rel, lhs, rhs)
    ensures OpRelation(rel, lhs, rhs).Ok? && OpRelation(Converse(rel), rhs, lhs).Ok? ==>
      OpRelation(rel, lhs, rhs) == OpRelation(Converse(rel), rhs, lhs)
  {
    if CompareValues(lhs, rhs).Ok? && CompareValues(rhs, lhs).Ok? {
      CompareAntisymmetric(lhs, rhs);
    }
  }

  /** `op_max`: the left side if it compares greater, otherwise the right side. */
  function OpMax(lhs: Value, rhs: Value): (r: Result<Value>)
    requires NoDoubles(lhs, rhs)
  {
    match CompareValues(lhs, rhs)
    case Ok(o) => Ok(if o == Greater then lhs else rhs)
    case Err(e) => Err(e)
  }

  /** `op_min`: the left side if it compares less, otherwise the right side. */
  function OpMin(lhs: Value, rhs: Value): (r: Result<Value>)
    requires NoDoubles(lhs, rhs)
  {
    match CompareValues(lhs, rhs)
    case Ok(o) => Ok(if o == Less then lhs else rhs)
    case Err(e) => Err(e)
  }

  /**
   * Max and min pick one operand each and fail together; when the pair is
   * comparable both ways, no operand compares above the max or below the
   * min, and unequal operands are split between the two.
   */
  lemma MaxMinSpec(lhs: Value, rhs: Value)
    requires NoDoubles(lhs, rhs)
    ensures OpMax(lhs, rhs).Ok? <==> OpMin(lhs, rhs).Ok?
    ensures OpMax(lhs, rhs).Ok? ==> OpMax(lhs, rhs).value == lhs || OpMax(lhs, rhs).value == rhs
    ensures OpMin(lhs, rhs).Ok? ==> OpMin(lhs, rhs).value == lhs || OpMin(lhs, rhs).value == rhs
    ensures CompareValues(lhs, rhs).Ok? && CompareValues(rhs, lhs).Ok? ==>
      CompareValues(OpMax(lhs, rhs).value, lhs) != Ok(Less) && CompareValues(OpMax(lhs, rhs).value, rhs) != Ok(Less) &&
      CompareValues(OpMin(lhs, rhs).value, lhs) != Ok(Greater) && CompareValues(OpMin(lhs, rhs).value, rhs) != Ok(Greater)
    ensures CompareValues(lhs, rhs).Ok? && CompareValues(lhs, rhs).value != Equal ==>
      {OpMax(lhs, rhs).value, OpMin(lhs, rhs).value} == {lhs, rhs}
  {
    if CompareValues(lhs, rhs).Ok? && CompareValues(rhs, lhs).Ok? {
      CompareAntisymmetric(lhs, rhs);
      CompareReflexive(lhs);
      CompareReflexive(rhs);
    }
  }
}
