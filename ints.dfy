/**
 * Fixed-width integer vocabulary shared by the Value model: the C++ integer
 * ranges, the engine's SQL NULL sentinels (the lowest value of each signed
 * width), C++ truncating division, and the
 * little-endian byte layout a row slot uses for native integers.
 */
module Ints {

  type byte = b: int | 0 <= b < 256

  // Ranges of the C++ fixed-width types.
  const INT8_MAX: int := 0x7F
  const INT16_MAX: int := 0x7FFF
  const INT32_MAX: int := 0x7FFF_FFFF
  const INT64_MAX: int := 0x7FFF_FFFF_FFFF_FFFF
  const INT64_MIN: int := -0x8000_0000_0000_0000

  // The lowest value of each width is reserved as the SQL NULL of that width,
  // so the smallest storable non-null value is one above it.
  const INT8_NULL: int := -0x80
  const INT16_NULL: int := -0x8000
  const INT32_NULL: int := -0x8000_0000
  const INT64_NULL: int := -0x8000_0000_0000_0000
  const PELOTON_INT8_MIN: int := -0x7F
  const PELOTON_INT16_MIN: int := -0x7FFF
  const PELOTON_INT32_MIN: int := -0x7FFF_FFFF
  const PELOTON_INT64_MIN: int := -0x7FFF_FFFF_FFFF_FFFF

  /** The object length that stands for a NULL variable-length object. */
  const OBJECTLENGTH_NULL: int := -1

  // ttmath::Int<2> (TTInt, 128 bits) and ttmath::Int<4> (TTLInt, 256 bits).
  const TTINT_MIN: int := -0x8000_0000_0000_0000_0000_0000_0000_0000
  const TTINT_MAX: int := 0x7FFF_FFFF_FFFF_FFFF_FFFF_FFFF_FFFF_FFFF
  const TTLINT_MIN: int := -0x8000_0000_0000_0000_0000_0000_0000_0000_0000_0000_0000_0000_0000_0000_0000_0000
  const TTLINT_MAX: int := 0x7FFF_FFFF_FFFF_FFFF_FFFF_FFFF_FFFF_FFFF_FFFF_FFFF_FFFF_FFFF_FFFF_FFFF_FFFF_FFFF

  predicate IsInt8(n: int) { INT8_NULL <= n <= INT8_MAX }
  predicate IsInt16(n: int) { INT16_NULL <= n <= INT16_MAX }
  predicate IsInt32(n: int) { INT32_NULL <= n <= INT32_MAX }
  predicate IsInt64(n: int) { INT64_MIN <= n <= INT64_MAX }
  predicate IsTTInt(n: int) { TTINT_MIN <= n <= TTINT_MAX }
  predicate IsTTLInt(n: int) { TTLINT_MIN <= n <= TTLINT_MAX }

  function Abs(n: int): nat { if n < 0 then -n else n }

  /**
   * C++ integer division: the quotient is truncated toward zero
   * (Dafny's own `/` is Euclidean).
   */
  function TDiv(a: int, b: int): int
    requires b != 0
  {
    if a >= 0 then (if b > 0 then a / b else -(a / -b))
    else (if b > 0 then -((-a) / b) else (-a) / (-b))
  }

  /** C++ remainder, paired with TDiv so that a == TDiv(a, b) * b + TRem(a, b). */
  function TRem(a: int, b: int): int
    requires b != 0
  {
    a - TDiv(a, b) * b
  }

  /**
   * The characterisation of truncating division in the C++ standard: the
   * remainder is smaller than the divisor in magnitude and never has the
   * opposite sign of the dividend.
   */
  lemma TDivSpec(a: int, b: int)
    requires b != 0
    ensures a == TDiv(a, b) * b + TRem(a, b)
    ensures Abs(TRem(a, b)) < Abs(b)
    ensures a >= 0 ==> TRem(a, b) >= 0
    ensures a <= 0 ==> TRem(a, b) <= 0
  {
    if a >= 0 {
      EuclidRem(a, Abs(b));
    } else {
      EuclidRem(-a, Abs(b));
    }
  }

  lemma EuclidRem(a: nat, b: nat)
    requires b > 0
    ensures 0 <= a - (a / b) * b < b
  {}

  /** The quotient is never larger in magnitude than the dividend. */
  lemma TDivShrinks(a: int, b: int)
    requires b != 0
    ensures Abs(TDiv(a, b)) <= Abs(a)
  {
    DivShrinks(Abs(a), Abs(b));
  }

  lemma DivShrinks(a: nat, b: nat)
    requires b > 0
    ensures a / b <= a
  {
    var q := a / b;
    assert q * b <= a;
    MulGrows(q, b);
  }

  lemma MulGrows(q: nat, b: nat)
    requires b > 0
    ensures q <= q * b
  {}

  function Pow256(k: nat): (r: nat)
    ensures r >= 1
  {
    if k == 0 then 1 else 256 * Pow256(k - 1)
  }

  /** The `k` least significant bytes of `n`, least significant first (x86 native order). */
  function ToLE(n: nat, k: nat): (s: seq<byte>)
    ensures |s| == k
  {
    if k == 0 then [] else [n % 256] + ToLE(n / 256, k - 1)
  }

  /** The unsigned number held by a little-endian byte sequence. */
  function FromLE(s: seq<byte>): (n: nat)
    ensures n < Pow256(|s|)
  {
    if |s| == 0 then 0 else s[0] + 256 * FromLE(s[1..])
  }

  lemma {:induction false} FromToLE(n: nat, k: nat)
    requires n < Pow256(k)
    ensures FromLE(ToLE(n, k)) == n
  {
    if k > 0 {
      var s := ToLE(n, k);
      assert s[1..] == ToLE(n / 256, k - 1);
      FromToLE(n / 256, k - 1);
    }
  }

  lemma {:induction false} ToFromLE(s: seq<byte>)
    ensures ToLE(FromLE(s), |s|) == s
  {
    if |s| > 0 {
      var n := FromLE(s);
      assert n % 256 == s[0] && n / 256 == FromLE(s[1..]);
      ToFromLE(s[1..]);
    }
  }

  /** Signed `k`-byte two's-complement encoding of `n`. */
  function ToSignedLE(n: int, k: nat): (s: seq<byte>)
    requires k > 0
    requires -(Pow256(k) as int) <= 2 * n < Pow256(k)
    ensures |s| == k
  {
    ToLE(if n < 0 then Pow256(k) + n else n, k)
  }

  /** The signed number held by a `k`-byte two's-complement sequence. */
  function FromSignedLE(s: seq<byte>): (n: int)
    requires |s| > 0
    ensures -(Pow256(|s|) as int) <= 2 * n < Pow256(|s|)
  {
    var u := FromLE(s);
    if 2 * u >= Pow256(|s|) then u - Pow256(|s|) else u
  }

  lemma SignedRoundTrip(n: int, k: nat)
    requires k > 0
    requires -(Pow256(k) as int) <= 2 * n < Pow256(k)
    ensures FromSignedLE(ToSignedLE(n, k)) == n
  {
    FromToLE(if n < 0 then Pow256(k) + n else n, k);
  }

  lemma SignedRoundTripBytes(s: seq<byte>)
    requires |s| > 0
    ensures ToSignedLE(FromSignedLE(s), |s|) == s
  {
    ToFromLE(s);
  }
}
