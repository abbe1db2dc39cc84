/**
 * Reading a Value out of a row slot and writing one into it. Fixed-width
 * kinds occupy their native little-endian two's-complement bytes; a DECIMAL
 * its 16 bytes; an inlined VARCHAR/VARBINARY a one-byte length prefix
 * followed by its bytes; an out-of-line one a reference to a pooled buffer
 * that holds the length prefix followed by the bytes.
 */
module TupleStorage {
  import opened Ints
  import opened Values
  import opened ObjectLength
  import opened Varchar

  /** The bytes of the `Varlen*` an out-of-line object's slot holds (`getTupleStorageSize` of an object). */
  const REFERENCE_SIZE: nat := 8

  /** The kinds whose slot holds the value itself as a two's-complement integer. */
  predicate IsFixed(k: Kind) { IsIntegral(k) || k.Decimal? }

  /** The slot width of a fixed kind. */
  function FixedSize(k: Kind): (n: nat)
    requires IsFixed(k)
    ensures TupleStorageSize(k) == Ok(n) && n > 0
  {
    match k
    case TinyInt => 1
    case SmallInt => 2
    case Integer => 4
    case Decimal => 16
    case _ => 8
  }

  /** The range of a fixed kind is exactly what its slot width holds. */
  lemma FixedRange(k: Kind, n: int)
    requires IsFixed(k)
    ensures (if k.Decimal? then IsTTInt(n) else InRangeOf(k, n)) <==>
      -(Pow256(FixedSize(k)) as int) <= 2 * n < Pow256(FixedSize(k))
  {
    if k.Decimal? {
      assert Pow256(16) == 0x1_0000_0000_0000_0000_0000_0000_0000_0000 by {
        assert Pow256(4) == 0x1_0000_0000 by { assert Pow256(2) == 0x1_0000; }
        assert Pow256(8) == 0x1_0000_0000_0000_0000 by {
          assert Pow256(6) == 0x1_0000_0000_0000;
        }
        assert Pow256(12) == 0x1_0000_0000_0000_0000_0000_0000 by {
          assert Pow256(10) == 0x1_0000_0000_0000_0000_0000;
        }
      }
    } else {
      StorageSizeMatchesRange(k, n);
    }
  }

  /** The contents of the pooled buffer an out-of-line object refers to: prefix, then bytes. */
  function ObjectBuffer(b: seq<byte>): (s: seq<byte>)
    requires |b| <= INT32_MAX
    ensures |s| == AppropriateLengthLength(|b|) + |b|
  {
    EncodePrefix(|b|) + b
  }

  /**
   * `initFromTupleStorage(storage, type, isInlined)`. For an out-of-line
   * object, `sref` is the buffer the slot refers to, or None for a NULL
   * reference.
   */
  function InitFromTupleStorage(storage: seq<byte>, kind: Kind, isInlined: bool, sref: Option<seq<byte>>): (r: Result<Value>)
    requires kind != Double
    requires IsFixed(kind) ==> |storage| >= FixedSize(kind)
    requires IsObject(kind) && isInlined ==>
      |storage| >= 1 && (HasNullBit(storage[0]) || (storage[0] < 0x80 && |storage| >= 1 + storage[0]))
    requires IsObject(kind) && !isInlined && sref.Some? ==>
      var d := sref.value;
      |d| >= 1 && |d| >= PrefixSize(d[0]) &&
      |d| >= AppropriateLengthLength(DecodeLength(d)) + DecodeLength(d)
    ensures r.Ok? ==> r.value.kind == kind && Canonical(r.value)
    ensures r.Err? <==> !(IsFixed(kind) || IsObject(kind))
  {
    if IsIntegral(kind) then
      var n := FromSignedLE(storage[..FixedSize(kind)]);
      FixedRange(kind, n);
      Ok(IntegralValue(kind, n))
    else if kind.Decimal? then
      var n := FromSignedLE(storage[..16]);
      FixedRange(kind, n);
      Ok(DecimalValue(n))
    else if IsObject(kind) then
      if isInlined then
        if HasNullBit(storage[0]) then Ok(Value(kind, NoData, true))
        else Ok(Value(kind, Bytes(storage[1..1 + storage[0]]), false))
      else if sref.None? then Ok(Value(kind, NoData, true))
      else
        var length := DecodeLength(sref.value);
        var at := AppropriateLengthLength(length);
        Ok(Value(kind, Bytes(sref.value[at..at + length]), false))
    else Err(Fault(UnsupportedType))
  }

  /** Where `serializeToTupleStorage` left the object: in the slot itself, or in a buffer the slot refers to. */
  datatype Stored = InRow | OutOfLine(sref: Option<seq<byte>>)

  /** The slot image `inlineCopyObject` leaves: the object (or the NULL prefix) zero-padded to maxLength + 1 bytes. */
  function InlineImage(v: Value, maxLength: nat): (s: seq<byte>)
    requires IsObject(v.kind) && WellTyped(v)
  {
    Padded(if IsNull(v) then [OBJECT_NULL_BIT] else ObjectBuffer(v.payload.b), maxLength + 1)
  }

  /** `image` followed by zeros up to `n` bytes. */
  function Padded(image: seq<byte>, n: nat): (s: seq<byte>)
    ensures |s| == if |image| < n then n else |image|
  {
    if |image| < n then image + Zeros(n - |image|) else image
  }

  function Zeros(n: nat): (s: seq<byte>)
    ensures |s| == n && forall i :: 0 <= i < n ==> s[i] == 0
  {
    seq(n, _ => 0)
  }

  /**
   * `inlineCopyObject`: a NULL writes the NULL prefix; anything else is first
   * checked against the column and then copied with its prefix. The first
   * maxLength + 1 bytes are always cleared first.
   */
  method InlineCopyObject(v: Value, storage: array<byte>, maxLength: int, isInBytes: bool) returns (r: Result<()>)
    requires IsObject(v.kind) && WellTyped(v)
    requires 0 <= maxLength <= INT32_MAX && storage.Length >= maxLength + 1
    requires !IsNull(v) ==> storage.Length >= |ObjectBuffer(v.payload.b)|
    modifies storage
    ensures !IsNull(v) && TooNarrow(v.kind, v.payload.b, maxLength, isInBytes).Err? ==>
      r == TooNarrow(v.kind, v.payload.b, maxLength, isInBytes) && storage[..] == old(storage[..])
    ensures IsNull(v) || TooNarrow(v.kind, v.payload.b, maxLength, isInBytes).Ok? ==>
      r.Ok? &&
      storage[..] == InlineImage(v, maxLength) + old(storage[..])[|InlineImage(v, maxLength)|..]
  {
    if IsNull(v) {
      FillSlot([OBJECT_NULL_BIT], storage, maxLength + 1);
      return Ok(());
    }
    var check := CheckTooNarrowVarcharAndVarbinary(v.kind, v.payload.b, maxLength, isInBytes);
    if check.Err? {
      return check;
    }
    FillSlot(ObjectBuffer(v.payload.b), storage, maxLength + 1);
    r := Ok(());
  }

  /** Clears the first `n` bytes of the slot and copies `image` over them. */
  method FillSlot(image: seq<byte>, storage: array<byte>, n: nat)
    requires n <= storage.Length && |image| <= storage.Length
    modifies storage
    ensures storage[..] == Padded(image, n) + old(storage[..])[|Padded(image, n)|..]
  {
    Clear(storage, n);
    CopyInto(image, storage);
    Splice(image, n, old(storage[..]));
  }

  /** `memcpy(storage, source, |source|)`. */
  method CopyInto(source: seq<byte>, storage: array<byte>)
    requires |source| <= storage.Length
    modifies storage
    ensures storage[..] == source + old(storage[|source|..])
  {
    var i := 0;
    while i < |source|
      invariant 0 <= i <= |source|
      invariant storage[..i] == source[..i]
      invariant storage[i..] == old(storage[i..])
    {
      storage[i] := source[i];
      i := i + 1;
    }
    assert storage[..] == storage[..i] + storage[i..];
  }

  /** Copying `source` over the first `n` bytes of `whole` after they were cleared. */
  lemma Splice(source: seq<byte>, n: nat, whole: seq<byte>)
    requires n <= |whole| && |source| <= |whole|
    ensures source + (Zeros(n) + whole[n..])[|source|..] == Padded(source, n) + whole[|Padded(source, n)|..]
  {
    var cleared := Zeros(n) + whole[n..];
    if |source| < n {
      assert cleared[|source|..] == Zeros(n - |source|) + whole[n..];
    } else {
      assert cleared[|source|..] == whole[|source|..];
    }
  }

  /** `memset(storage, 0, n)`. */
  method Clear(storage: array<byte>, n: nat)
    requires n <= storage.Length
    modifies storage
    ensures storage[..] == Zeros(n) + old(storage[n..])
  {
    var i := 0;
    while i < n
      invariant 0 <= i <= n
      invariant storage[..] == Zeros(i) + old(storage[i..])
    {
      storage[i] := 0;
      i := i + 1;
      assert storage[..] == Zeros(i) + old(storage[i..]);
    }
  }

  /** The bytes `serializeToTupleStorage` writes for a fixed-width or decimal Value. */
  function FixedImage(v: Value): (s: seq<byte>)
    requires IsFixed(v.kind) && WellTyped(v)
    ensures |s| == FixedSize(v.kind)
  {
    FixedRange(v.kind, v.payload.n);
    ToSignedLE(v.payload.n, FixedSize(v.kind))
  }

  /**
   * `serializeToTupleStorage`: writes a fixed-width Value natively, copies an
   * inlined object into the slot, and for an out-of-line object checks the
   * column, then writes the 8 bytes of its `Varlen` reference, `reference`,
   * into the slot and hands over the pooled buffer it refers to. BOOLEAN and
   * the other kinds are rejected.
   */
  method SerializeToTupleStorage(v: Value, storage: array<byte>, isInlined: bool, maxLength: int, isInBytes: bool,
                                 reference: seq<byte>)
    returns (r: Result<Stored>)
    requires WellTyped(v) && v.kind != Double
    requires IsFixed(v.kind) ==> storage.Length >= FixedSize(v.kind)
    requires IsObject(v.kind) ==> 0 <= maxLength <= INT32_MAX
    requires IsObject(v.kind) && isInlined ==>
      storage.Length >= maxLength + 1 && (!IsNull(v) ==> storage.Length >= |ObjectBuffer(v.payload.b)|)
    requires IsObject(v.kind) && !isInlined ==> |reference| == REFERENCE_SIZE && storage.Length >= REFERENCE_SIZE
    modifies storage
    ensures !(IsFixed(v.kind) || IsObject(v.kind)) ==> r == Err(Fault(UnsupportedType)) && storage[..] == old(storage[..])
    ensures IsFixed(v.kind) ==>
      r == Ok(InRow) && storage[..] == FixedImage(v) + old(storage[..])[FixedSize(v.kind)..]
    ensures IsObject(v.kind) && !IsNull(v) && TooNarrow(v.kind, v.payload.b, maxLength, isInBytes).Err? ==>
      r == Err(TooNarrow(v.kind, v.payload.b, maxLength, isInBytes).error) && storage[..] == old(storage[..])
    ensures IsObject(v.kind) && (IsNull(v) || TooNarrow(v.kind, v.payload.b, maxLength, isInBytes).Ok?) ==>
      if isInlined then
        r == Ok(InRow) && storage[..] == InlineImage(v, maxLength) + old(storage[..])[|InlineImage(v, maxLength)|..]
      else
        r == Ok(OutOfLine(if IsNull(v) then None else Some(ObjectBuffer(v.payload.b)))) &&
        storage[..] == reference + old(storage[..])[REFERENCE_SIZE..]
  {
    if IsFixed(v.kind) {
      WriteFixed(v, storage);
      return Ok(InRow);
    }
    if IsObject(v.kind) {
      r := SerializeObject(v, storage, isInlined, maxLength, isInBytes, reference);
      return;
    }
    r := Err(Fault(UnsupportedType));
  }

  /** The native store of a fixed-width Value: its bytes at the start of the slot. */
  method WriteFixed(v: Value, storage: array<byte>)
    requires IsFixed(v.kind) && WellTyped(v) && storage.Length >= FixedSize(v.kind)
    modifies storage
    ensures storage[..] == FixedImage(v) + old(storage[..])[FixedSize(v.kind)..]
  {
    var image := FixedImage(v);
    var i := 0;
    while i < |image|
      invariant 0 <= i <= |image|
      invariant storage[..i] == image[..i]
      invariant storage[i..] == old(storage[..])[i..]
    {
      storage[i] := image[i];
      i := i + 1;
    }
    assert storage[..] == storage[..i] + storage[i..];
  }

  /** The VARCHAR/VARBINARY branch of `serializeToTupleStorage`. */
  method SerializeObject(v: Value, storage: array<byte>, isInlined: bool, maxLength: int, isInBytes: bool,
                         reference: seq<byte>)
    returns (r: Result<Stored>)
    requires IsObject(v.kind) && WellTyped(v) && 0 <= maxLength <= INT32_MAX
    requires isInlined ==>
      storage.Length >= maxLength + 1 && (!IsNull(v) ==> storage.Length >= |ObjectBuffer(v.payload.b)|)
    requires !isInlined ==> |reference| == REFERENCE_SIZE && storage.Length >= REFERENCE_SIZE
    modifies storage
    ensures !IsNull(v) && TooNarrow(v.kind, v.payload.b, maxLength, isInBytes).Err? ==>
      r == Err(TooNarrow(v.kind, v.payload.b, maxLength, isInBytes).error) && storage[..] == old(storage[..])
    ensures IsNull(v) || TooNarrow(v.kind, v.payload.b, maxLength, isInBytes).Ok? ==>
      if isInlined then
        r == Ok(InRow) && storage[..] == InlineImage(v, maxLength) + old(storage[..])[|InlineImage(v, maxLength)|..]
      else
        r == Ok(OutOfLine(if IsNull(v) then None else Some(ObjectBuffer(v.payload.b)))) &&
        storage[..] == reference + old(storage[..])[REFERENCE_SIZE..]
  {
    if isInlined {
      var copied := InlineCopyObject(v, storage, maxLength, isInBytes);
      if copied.Err? {
        return Err(copied.error);
      }
      return Ok(InRow);
    }
    if !IsNull(v) {
      var check := CheckTooNarrowVarcharAndVarbinary(v.kind, v.payload.b, maxLength, isInBytes);
      if check.Err? {
        return Err(check.error);
      }
    }
    // The reference is copied even for a NULL object.
    CopyInto(reference, storage);
    r := Ok(OutOfLine(if IsNull(v) then None else Some(ObjectBuffer(v.payload.b))));
  }

  /** A fixed-width or decimal Value read back from the bytes written for it is the same Value. */
  lemma FixedRoundTrip(v: Value, rest: seq<byte>)
    requires IsFixed(v.kind) && Canonical(v)
    ensures InitFromTupleStorage(FixedImage(v) + rest, v.kind, false, None) == Ok(v)
  {
    var s := FixedImage(v) + rest;
    assert s[..FixedSize(v.kind)] == FixedImage(v);
    FixedRange(v.kind, v.payload.n);
    SignedRoundTrip(v.payload.n, FixedSize(v.kind));
  }

  /** Conversely, any slot bytes read as a fixed-width Value are written back unchanged. */
  lemma FixedBytesRoundTrip(storage: seq<byte>, kind: Kind)
    requires IsFixed(kind) && |storage| >= FixedSize(kind)
    ensures InitFromTupleStorage(storage, kind, false, None).Ok?
    ensures FixedImage(InitFromTupleStorage(storage, kind, false, None).value) == storage[..FixedSize(kind)]
  {
    SignedRoundTripBytes(storage[..FixedSize(kind)]);
  }

  /**
   * An inlined object read back from the slot `inlineCopyObject` filled is
   * the same Value; an inlined object always has a one-byte prefix.
   */
  lemma InlineRoundTrip(v: Value, maxLength: nat, rest: seq<byte>)
    requires IsObject(v.kind) && WellTyped(v)
    requires !IsNull(v) ==> |v.payload.b| <= 63
    ensures var s := InlineImage(v, maxLength) + rest;
      InitFromTupleStorage(s, v.kind, true, None) == Ok(v)
  {
    var s := InlineImage(v, maxLength) + rest;
    if !IsNull(v) {
      var b := v.payload.b;
      EncodePrefixShape(|b|);
      assert s[0] == |b|;
      assert s[1..1 + |b|] == b;
    }
  }

  /** An out-of-line object read back through the buffer it was handed is the same Value. */
  lemma OutOfLineRoundTrip(v: Value)
    requires IsObject(v.kind) && WellTyped(v)
    requires !IsNull(v) ==> |v.payload.b| < 0x4000_0000
    ensures IsNull(v) ==> InitFromTupleStorage([], v.kind, false, None) == Ok(v)
    ensures !IsNull(v) ==>
      var d := ObjectBuffer(v.payload.b);
      |d| >= 1 && |d| >= PrefixSize(d[0]) && DecodeLength(d) == |v.payload.b| &&
      InitFromTupleStorage([], v.kind, false, Some(d)) == Ok(v)
  {
    if !IsNull(v) {
      BufferRoundTrip(v.kind, v.payload.b);
    }
  }

  lemma BufferRoundTrip(kind: Kind, b: seq<byte>)
    requires IsObject(kind) && |b| < 0x4000_0000
    ensures var d := ObjectBuffer(b);
      |d| >= 1 && |d| >= PrefixSize(d[0]) && DecodeLength(d) == |b|
    ensures InitFromTupleStorage([], kind, false, Some(ObjectBuffer(b))) == Ok(Value(kind, Bytes(b), false))
  {
    ObjectBufferDecodes(b);
  }

  /** The pooled buffer of `b` decodes to the length of `b`, followed by `b` itself. */
  lemma ObjectBufferDecodes(b: seq<byte>)
    requires |b| < 0x4000_0000
    ensures var d := ObjectBuffer(b);
      |d| >= 1 && |d| >= PrefixSize(d[0]) && DecodeLength(d) == |b| &&
      d[AppropriateLengthLength(|b|)..AppropriateLengthLength(|b|) + |b|] == b
  {
    PrefixRoundTrip(|b|);
    DecodeReadsPrefix(EncodePrefix(|b|), b);
  }

  /** The decoder looks at nothing past the prefix. */
  lemma DecodeReadsPrefix(p: seq<byte>, tail: seq<byte>)
    requires |p| >= 1 && |p| >= PrefixSize(p[0])
    ensures DecodeLength(p + tail) == DecodeLength(p)
  {
    var d := p + tail;
    assert d[0] == p[0];
    if HasContinuation(p[0]) {
      assert d[1] == p[1] && d[2] == p[2] && d[3] == p[3];
    }
  }
}
