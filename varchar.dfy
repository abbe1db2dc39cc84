/**
 * UTF-8 character counting over the bytes of a VARCHAR, and the column
 * capacity check applied before an object is stored. A byte starts a
 * character unless it is a continuation byte `10xxxxxx`.
 */
module Varchar {
  import opened Ints
  import opened Values

  /** `(b & 0xc0) == 0x80`. */
  predicate IsContinuation(b: byte) { b / 0x40 == 2 }

  /** The number of bytes of `s` that are not continuation bytes. */
  function CharCount(s: seq<byte>): (n: nat)
    ensures n <= |s|
  {
    if |s| == 0 then 0 else (if IsContinuation(s[0]) then 0 else 1) + CharCount(s[1..])
  }

  /** Counting distributes over concatenation. */
  lemma {:induction false} CharCountAppend(s: seq<byte>, t: seq<byte>)
    ensures CharCount(s + t) == CharCount(s) + CharCount(t)
  {
    if |s| > 0 {
      assert (s + t)[1..] == s[1..] + t;
      CharCountAppend(s[1..], t);
    } else {
      assert s + t == t;
    }
  }

  lemma CharCountSnoc(s: seq<byte>, b: byte)
    ensures CharCount(s + [b]) == CharCount(s) + (if IsContinuation(b) then 0 else 1)
  {
    CharCountAppend(s, [b]);
  }

  /** `getCharLength`: counts the character-starting bytes among the first `length`, back to front. */
  method GetCharLength(valueChars: seq<byte>, length: nat) returns (j: int)
    requires length <= |valueChars|
    ensures j == CharCount(valueChars[..length])
  {
    j := 0;
    var i := length;
    while i > 0
      invariant 0 <= i <= length
      invariant j == CharCount(valueChars[i..length])
    {
      i := i - 1;
      assert valueChars[i..length][1..] == valueChars[i + 1..length];
      if !IsContinuation(valueChars[i]) {
        j := j + 1;
      }
    }
    assert valueChars[0..length] == valueChars[..length];
  }

  /**
   * `getIthCharIndex`: -1 for a non-positive `ith`; otherwise the byte index
   * at which the `ith` character starts, or `length` when there are fewer
   * than `ith` characters.
   */
  method GetIthCharIndex(valueChars: seq<byte>, length: nat, ith: int) returns (i: int)
    requires length <= |valueChars|
    ensures ith <= 0 ==> i == -1
    ensures ith > 0 ==> 0 <= i <= length
    ensures ith > 0 && i < length ==> !IsContinuation(valueChars[i]) && CharCount(valueChars[..i]) == ith - 1
    ensures ith > 0 ==> (i == length <==> CharCount(valueChars[..length]) < ith)
  {
    if ith <= 0 {
      return -1;
    }
    i := 0;
    var j := 0;
    while i < length
      invariant 0 <= i <= length
      invariant j == CharCount(valueChars[..i]) && j < ith
    {
      if !IsContinuation(valueChars[i]) {
        j := j + 1;
        if j == ith {
          CharCountSnoc(valueChars[..i], valueChars[i]);
          assert valueChars[..i + 1] == valueChars[..i] + [valueChars[i]];
          CharCountMonotone(valueChars[..length], i + 1);
          assert valueChars[..length][..i + 1] == valueChars[..i + 1];
          break;
        }
      }
      CharCountSnoc(valueChars[..i], valueChars[i]);
      assert valueChars[..i + 1] == valueChars[..i] + [valueChars[i]];
      i := i + 1;
    }
  }

  /** A prefix never has more characters than the whole. */
  lemma CharCountMonotone(s: seq<byte>, k: nat)
    requires k <= |s|
    ensures CharCount(s[..k]) <= CharCount(s)
  {
    assert s == s[..k] + s[k..];
    CharCountAppend(s[..k], s[k..]);
  }

  /**
   * `validVarcharSize`: whether `length` bytes hold at most `maxLength`
   * characters, decided by looking for enough continuation bytes from the
   * end. `length - maxLength` is computed in size_t and truncated to int32.
   */
  method ValidVarcharSize(valueChars: seq<byte>, length: nat, maxLength: int) returns (ok: bool)
    requires length <= |valueChars| && length <= INT32_MAX && IsInt32(maxLength)
    ensures length - maxLength <= INT32_MAX ==> (ok <==> CharCount(valueChars[..length]) <= maxLength)
    ensures length - maxLength > INT32_MAX ==> ok
  {
    var diff := length - maxLength;
    var minContinuationBytes := if diff > INT32_MAX then diff - 0x1_0000_0000 else diff;
    if minContinuationBytes <= 0 {
      return true;
    }
    var i := length;
    while i > 0
      invariant 0 <= i <= length
      invariant minContinuationBytes > 0
      invariant minContinuationBytes == diff - ((length - i) - CharCount(valueChars[i..length]))
    {
      i := i - 1;
      assert valueChars[i..length][1..] == valueChars[i + 1..length];
      if IsContinuation(valueChars[i]) {
        minContinuationBytes := minContinuationBytes - 1;
        if minContinuationBytes == 0 {
          CharCountMonotoneBack(valueChars[..length], i);
          assert valueChars[..length][i..] == valueChars[i..length];
          return true;
        }
      }
    }
    assert valueChars[0..length] == valueChars[..length];
    return false;
  }

  /** The continuation bytes of a suffix never exceed those of the whole. */
  lemma CharCountMonotoneBack(s: seq<byte>, k: nat)
    requires k <= |s|
    ensures (|s| - k) - CharCount(s[k..]) <= |s| - CharCount(s)
  {
    assert s == s[..k] + s[k..];
    CharCountAppend(s[..k], s[k..]);
  }

  /**
   * The capacity rule of `checkTooNarrowVarcharAndVarbinary` for a non-null
   * object of kind `kind` holding `bytes`.
   */
  function TooNarrow(kind: Kind, bytes: seq<byte>, maxLength: int, isInBytes: bool): (r: Result<()>)
  {
    if maxLength == 0 then Err(ObjectSize)
    else if kind.Varbinary? then (if |bytes| > maxLength then Err(ObjectSize) else Ok(()))
    else if kind.Varchar? then
      if isInBytes then (if |bytes| > maxLength then Err(ObjectSize) else Ok(()))
      else if |bytes| - maxLength > INT32_MAX || CharCount(bytes) <= maxLength then Ok(())
      else Err(ObjectSize)
    else Err(IncompatibleType(kind))
  }

  /**
   * maxLength 0 is always rejected; VARBINARY and byte-mode VARCHAR are
   * rejected exactly when the byte length exceeds maxLength; character-mode
   * VARCHAR exactly when it has more than maxLength characters; any other
   * kind is an incompatible type.
   */
  lemma TooNarrowSpec(kind: Kind, bytes: seq<byte>, maxLength: int, isInBytes: bool)
    requires 0 <= maxLength && |bytes| <= INT32_MAX
    ensures maxLength == 0 ==> TooNarrow(kind, bytes, maxLength, isInBytes) == Err(ObjectSize)
    ensures maxLength > 0 && (kind.Varbinary? || (kind.Varchar? && isInBytes)) ==>
      (TooNarrow(kind, bytes, maxLength, isInBytes).Err? <==> |bytes| > maxLength)
    ensures maxLength > 0 && kind.Varchar? && !isInBytes ==>
      (TooNarrow(kind, bytes, maxLength, isInBytes).Err? <==> CharCount(bytes) > maxLength)
    ensures TooNarrow(kind, bytes, maxLength, isInBytes).Err? && maxLength > 0 && IsObject(kind) ==>
      TooNarrow(kind, bytes, maxLength, isInBytes).error == ObjectSize
    ensures maxLength > 0 && !IsObject(kind) ==> TooNarrow(kind, bytes, maxLength, isInBytes) == Err(IncompatibleType(kind))
  {}

  /** Whatever fits in bytes also fits in characters: byte mode is the stricter check. */
  lemma ByteModeIsStricter(bytes: seq<byte>, maxLength: int)
    requires maxLength > 0
    ensures TooNarrow(Varchar, bytes, maxLength, true).Ok? ==> TooNarrow(Varchar, bytes, maxLength, false).Ok?
  {}

  /** `checkTooNarrowVarcharAndVarbinary`, calling `validVarcharSize` for character-mode VARCHAR. */
  method CheckTooNarrowVarcharAndVarbinary(kind: Kind, bytes: seq<byte>, maxLength: int, isInBytes: bool)
    returns (r: Result<()>)
    requires |bytes| <= INT32_MAX && IsInt32(maxLength)
    ensures r == TooNarrow(kind, bytes, maxLength, isInBytes)
  {
    if maxLength == 0 {
      return Err(ObjectSize);
    }
    if kind.Varbinary? {
      if |bytes| > maxLength {
        return Err(ObjectSize);
      }
    } else if kind.Varchar? {
      if isInBytes {
        if |bytes| > maxLength {
          return Err(ObjectSize);
        }
      } else {
        var valid := ValidVarcharSize(bytes, |bytes|, maxLength);
        assert bytes[..|bytes|] == bytes;
        if !valid {
          return Err(ObjectSize);
        }
      }
    } else {
      return Err(IncompatibleType(kind));
    }
    r := Ok(());
  }
}
