/**
 * The bit-level overflow tests of `opAddBigInts` and `opSubtractBigInts`
 * (CERT INT32-CPP), on 64-bit two's-complement words.
 */
module CertBits {
  /** `1L << 63`. */
  const SIGN: bv64 := 0x8000_0000_0000_0000

  /** A word is negative as an int64 when its top bit is set (`x < 0`). */
  predicate Neg(a: bv64) { a & SIGN != 0 }

  /**
   * The add test fires exactly on two's-complement signed overflow: both
   * operands have the same sign and the wrapped sum has the other one.
   * (`opAddBigInts` throws when its expression is non-negative.)
   */
  lemma CertAddDetectsSignOverflow(l: bv64, r: bv64)
    ensures !Neg((l ^ r) | (((l ^ (!(l ^ r) & SIGN)) + r) ^ r)) <==> (Neg(l) == Neg(r) && Neg(l + r) != Neg(l))
  {}

  /**
   * The subtract test, case by case: it never fires for operands of the
   * same sign, and for operands of different signs it fires exactly when
   * the wrapped difference does not have the sign of the minuend.
   * (`opSubtractBigInts` throws when its expression is negative.)
   */
  lemma CertSubSameSigns(l: bv64, r: bv64)
    requires Neg(l) == Neg(r)
    ensures !Neg((l ^ r) & (((l ^ ((l ^ r) & SIGN)) - r) ^ r))
  {}

  lemma CertSubNegativeMinuend(l: bv64, r: bv64)
    requires Neg(l) && !Neg(r)
    ensures Neg((l ^ r) & (((l ^ ((l ^ r) & SIGN)) - r) ^ r)) <==> !Neg(l - r)
  {
    if Neg(l - r) {
      CertSubNegativeMinuendInRange(l, r);
    } else {
      CertSubNegativeMinuendWraps(l, r);
    }
  }

  lemma CertSubNegativeSubtrahend(l: bv64, r: bv64)
    requires !Neg(l) && Neg(r)
    ensures Neg((l ^ r) & (((l ^ ((l ^ r) & SIGN)) - r) ^ r)) <==> Neg(l - r)
  {
    if Neg(l - r) {
      CertSubNegativeSubtrahendWraps(l, r);
    } else {
      CertSubNegativeSubtrahendInRange(l, r);
    }
  }

  /** The four sign cases of the two lemmas above, one per solver query. */
  lemma CertSubNegativeMinuendInRange(l: bv64, r: bv64)
    requires Neg(l) && !Neg(r) && Neg(l - r)
    ensures !Neg((l ^ r) & (((l ^ ((l ^ r) & SIGN)) - r) ^ r))
  {}

  lemma CertSubNegativeMinuendWraps(l: bv64, r: bv64)
    requires Neg(l) && !Neg(r) && !Neg(l - r)
    ensures Neg((l ^ r) & (((l ^ ((l ^ r) & SIGN)) - r) ^ r))
  {}

  lemma CertSubNegativeSubtrahendInRange(l: bv64, r: bv64)
    requires !Neg(l) && Neg(r) && !Neg(l - r)
    ensures !Neg((l ^ r) & (((l ^ ((l ^ r) & SIGN)) - r) ^ r))
  {}

  lemma CertSubNegativeSubtrahendWraps(l: bv64, r: bv64)
    requires !Neg(l) && Neg(r) && Neg(l - r)
    ensures Neg((l ^ r) & (((l ^ ((l ^ r) & SIGN)) - r) ^ r))
  {}
}
