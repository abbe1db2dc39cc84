/**
 * The length prefix of a variable-length object (VARCHAR/VARBINARY bytes
 * stored in a row slot or a pooled buffer). Lengths up to 63 take a single
 * byte; longer lengths take four big-endian bytes with bit 7 (continuation)
 * set. Bit 6 of the first byte is the NULL flag.
 */
module ObjectLength {
  import opened Ints
  import opened Values

  const SHORT_OBJECT_LENGTHLENGTH: nat := 1
  const LONG_OBJECT_LENGTHLENGTH: nat := 4
  const OBJECT_NULL_BIT: byte := 0x40
  const OBJECT_CONTINUATION_BIT: byte := 0x80
  const OBJECT_MAX_LENGTH_SHORT_LENGTH: int := 63

  // Single-bit operations on a byte, written arithmetically.

  /** `b | 0x80`. */
  function SetContinuation(b: byte): (r: byte)
    ensures r >= 0x80 && r % 0x80 == b % 0x80
  {
    if b >= 0x80 then b else b + 0x80
  }

  /** `(b & 0x80) != 0`. */
  predicate HasContinuation(b: byte) { b >= 0x80 }

  /** `(b & 0x40) != 0`. */
  predicate HasNullBit(b: byte) { (b / 0x40) % 2 == 1 }

  /** `b & ~(OBJECT_NULL_BIT | OBJECT_CONTINUATION_BIT)`: the low six bits. */
  function LengthBits(b: byte): (r: byte)
    ensures r < 0x40
  {
    b % 0x40
  }

  /** `htonl(n)`: the four bytes of a 32-bit two's-complement integer, most significant first. */
  function BigEndian32(n: int): (s: seq<byte>)
    requires IsInt32(n)
    ensures |s| == 4
  {
    var u := if n < 0 then n + 0x1_0000_0000 else n;
    [u / 0x100_0000, (u / 0x1_0000) % 0x100, (u / 0x100) % 0x100, u % 0x100]
  }

  /** `getAppropriateObjectLengthLength`: the size of the prefix for `length`. */
  function AppropriateLengthLength(length: int): (n: nat)
    ensures n == SHORT_OBJECT_LENGTHLENGTH || n == LONG_OBJECT_LENGTHLENGTH
  {
    if length <= OBJECT_MAX_LENGTH_SHORT_LENGTH then SHORT_OBJECT_LENGTHLENGTH else LONG_OBJECT_LENGTHLENGTH
  }

  /**
   * The prefix `setObjectLengthToLocation` leaves for a length of at least -1.
   * There is no `else` between the -1 case and the short case, so -1 ends up
   * as the low byte of its big-endian form, 0xFF.
   */
  function EncodePrefix(length: int): (s: seq<byte>)
    requires OBJECTLENGTH_NULL <= length <= INT32_MAX
    ensures |s| == AppropriateLengthLength(length)
  {
    var be := BigEndian32(length);
    if length <= OBJECT_MAX_LENGTH_SHORT_LENGTH then [be[3]]
    else [SetContinuation(be[0]), be[1], be[2], be[3]]
  }

  /**
   * `setObjectLengthToLocation`: writes the prefix for `length` at the start
   * of `location`, or throws for a length below -1 without writing anything.
   */
  method SetObjectLengthToLocation(length: int, location: array<byte>) returns (r: Result<()>)
    requires IsInt32(length)
    requires location.Length >= AppropriateLengthLength(length)
    modifies location
    ensures length < OBJECTLENGTH_NULL ==> r == Err(Fault(NegativeObjectLength)) && location[..] == old(location[..])
    ensures length >= OBJECTLENGTH_NULL ==>
      r.Ok? &&
      location[..AppropriateLengthLength(length)] == EncodePrefix(length) &&
      location[AppropriateLengthLength(length)..] == old(location[AppropriateLengthLength(length)..])
  {
    var beNumber := BigEndian32(length);
    if length < OBJECTLENGTH_NULL {
      return Err(Fault(NegativeObjectLength));
    } else if length == OBJECTLENGTH_NULL {
      location[0] := OBJECT_NULL_BIT;
    }
    if length <= OBJECT_MAX_LENGTH_SHORT_LENGTH {
      location[0] := beNumber[3];
    } else {
      location[0] := beNumber[0];
      location[0] := SetContinuation(location[0]);
      location[1] := beNumber[1];
      location[2] := beNumber[2];
      location[3] := beNumber[3];
    }
    r := Ok(());
  }

  /** The number of bytes the length decoder reads from a prefix starting with `first`. */
  function PrefixSize(first: byte): nat {
    if HasContinuation(first) then LONG_OBJECT_LENGTHLENGTH else SHORT_OBJECT_LENGTHLENGTH
  }

  /**
   * The length decoder of the out-of-line branch of `initFromTupleStorage`:
   * with the continuation bit set, four big-endian bytes with the two flag
   * bits of the first one masked off; otherwise the low six bits of the byte.
   */
  function DecodeLength(data: seq<byte>): (length: int)
    requires |data| >= 1 && |data| >= PrefixSize(data[0])
    ensures 0 <= length < 0x4000_0000
  {
    if HasContinuation(data[0]) then
      LengthBits(data[0]) as int * 0x100_0000 + data[1] as int * 0x1_0000 + data[2] as int * 0x100 + data[3] as int
    else
      LengthBits(data[0])
  }

  /** A short prefix is the length itself; a long one is the big-endian length with bit 7 set. */
  lemma EncodePrefixShape(length: int)
    requires 0 <= length <= INT32_MAX
    ensures length <= 63 ==> EncodePrefix(length) == [length]
    ensures length > 63 ==>
      var e := EncodePrefix(length);
      HasContinuation(e[0]) && (e[0] as int - 0x80) * 0x100_0000 + e[1] as int * 0x1_0000 + e[2] as int * 0x100 + e[3] as int == length
  {
    if length > 63 {
      Digits(length);
    }
  }

  /** The four big-endian digits of a non-negative 32-bit number recombine to it. */
  lemma Digits(u: int)
    requires 0 <= u <= INT32_MAX
    ensures var be := BigEndian32(u);
      be[0] as int * 0x100_0000 + be[1] as int * 0x1_0000 + be[2] as int * 0x100 + be[3] as int == u
    ensures BigEndian32(u)[0] < 0x80
  {
    var q1 := u / 0x100;
    var q2 := q1 / 0x100;
    var q3 := q2 / 0x100;
    assert u == q1 * 0x100 + u % 0x100;
    assert q1 == q2 * 0x100 + q1 % 0x100;
    assert q2 == q3 * 0x100 + q2 % 0x100;
    assert q2 == u / 0x1_0000;
    assert q3 == u / 0x100_0000;
  }

  /** Decoding a prefix written for any length below 2^30 gives that length back. */
  lemma PrefixRoundTrip(length: int)
    requires 0 <= length < 0x4000_0000
    ensures |EncodePrefix(length)| == PrefixSize(EncodePrefix(length)[0])
    ensures DecodeLength(EncodePrefix(length)) == length
  {
    if length > 63 {
      Digits(length);
    }
  }

  /**
   * A length of 2^30 or more sets bit 6 of the first byte, so the prefix
   * looks NULL-flagged and the decoder drops that bit: the round trip holds
   * exactly below 2^30.
   */
  lemma LongLengthsLoseBit30(length: int)
    requires 0x4000_0000 <= length <= INT32_MAX
    ensures HasNullBit(EncodePrefix(length)[0])
    ensures DecodeLength(EncodePrefix(length)) == length - 0x4000_0000
  {
    Digits(length);
  }

  /** The NULL length -1 leaves 0xFF, which still carries the NULL bit. */
  lemma NullLengthPrefix()
    ensures EncodePrefix(OBJECTLENGTH_NULL) == [0xFF]
    ensures HasNullBit(EncodePrefix(OBJECTLENGTH_NULL)[0])
  {}

  /** No prefix of a non-negative length below 2^30 carries the NULL bit. */
  lemma NoNullBitBelow2To30(length: int)
    requires 0 <= length < 0x4000_0000
    ensures !HasNullBit(EncodePrefix(length)[0])
  {
    if length > 63 {
      Digits(length);
    }
  }
}
