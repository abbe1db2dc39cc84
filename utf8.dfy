/**
 * `Value::UTF8Iterator`: a cursor over a VARCHAR's bytes that moves one
 * code point at a time and never reads past the end of the buffer.
 */
module Utf8 {
  import opened Ints

  /** A decoded code point and the number of bytes the decoder moved over. */
  datatype Decoded = Decoded(codePoint: nat, length: nat)

  /** How many bytes a lead byte announces; 0 for a byte that cannot lead a sequence. */
  function SequenceLength(lead: byte): nat {
    if lead < 0x80 then 1
    else if 0xC0 <= lead < 0xE0 then 2
    else if 0xE0 <= lead < 0xF0 then 3
    else if 0xF0 <= lead < 0xF8 then 4
    else 0
  }

  /**
   * The unchecked UTF-8 decoder applied to the six-byte scratch window:
   * the announced number of bytes, or one byte for an invalid lead.
   */
  function Next(w: seq<byte>): (d: Decoded)
    requires |w| == 6
    ensures 1 <= d.length <= 4
    ensures w[0] < 0x80 ==> d == Decoded(w[0], 1)
  {
    var lead := w[0] as nat;
    match SequenceLength(w[0])
    case 2 => Decoded((lead * 0x40) % 0x800 + w[1] % 0x40, 2)
    case 3 => Decoded((lead * 0x1000) % 0x1_0000 + (w[1] as int * 0x40) % 0x1000 + w[2] % 0x40, 3)
    case 4 =>
      Decoded((lead * 0x4_0000) % 0x20_0000 + (w[1] as int * 0x1000) % 0x4_0000 + (w[2] as int * 0x40) % 0x1000 + w[3] % 0x40, 4)
    case _ => Decoded(lead, 1)
  }

  /** A byte of the text, or 0 past its end, where the zeroed scratch buffer shows through. */
  function ByteAt(s: seq<byte>, i: nat): byte {
    if i < |s| then s[i] else 0
  }

  /** The scratch buffer `extractCodePoint` fills: up to six bytes from `c`, zero-padded. */
  function Window(s: seq<byte>, c: nat): (w: seq<byte>)
    ensures |w| == 6
  {
    [ByteAt(s, c), ByteAt(s, c + 1), ByteAt(s, c + 2), ByteAt(s, c + 3), ByteAt(s, c + 4), ByteAt(s, c + 5)]
  }

  function Step(s: seq<byte>, c: nat): (d: Decoded)
    ensures d.length >= 1
  {
    Next(Window(s, c))
  }

  /** The code points of `s` from byte `c` on: what a cursor at `c` reads until it is at the end. */
  function CodePoints(s: seq<byte>, c: nat): seq<nat>
    decreases if c < |s| then |s| - c else 0
  {
    if c >= |s| then [] else [Step(s, c).codePoint] + CodePoints(s, c + Step(s, c).length)
  }

  /** Where a cursor at `c` stands after `skipCodePoints(k)`. */
  function Skip(s: seq<byte>, c: nat, k: int): nat
    decreases if k > 0 then k else 0
  {
    if k <= 0 || c >= |s| then c else Skip(s, c + Step(s, c).length, k - 1)
  }

  /** Text of 7-bit bytes decodes to those bytes, one code point each. */
  lemma {:induction false} AsciiCodePoints(s: seq<byte>, c: nat)
    requires c <= |s|
    requires forall i :: c <= i < |s| ==> s[i] < 0x80
    ensures |CodePoints(s, c)| == |s| - c
    ensures forall i :: 0 <= i < |s| - c ==> CodePoints(s, c)[i] == s[c + i]
    decreases |s| - c
  {
    if c < |s| {
      assert Window(s, c)[0] == s[c];
      AsciiCodePoints(s, c + 1);
    }
  }

  /** Skipping k code points drops exactly the first k of them, or all when there are fewer. */
  lemma {:induction false} SkipDropsCodePoints(s: seq<byte>, c: nat, k: nat)
    ensures k <= |CodePoints(s, c)| ==> CodePoints(s, Skip(s, c, k)) == CodePoints(s, c)[k..]
    ensures k >= |CodePoints(s, c)| ==> Skip(s, c, k) >= |s|
    decreases k
  {
    if k > 0 && c < |s| {
      SkipDropsCodePoints(s, c + Step(s, c).length, k - 1);
    }
  }

  class UTF8Iterator {
    const text: seq<byte>
    var cursor: nat

    /** `UTF8Iterator(start, end)` over a whole buffer. */
    constructor (text: seq<byte>)
      ensures this.text == text && cursor == 0
    {
      this.text := text;
      cursor := 0;
    }

    /** `UTF8Iterator(other, start)`: the same buffer end, a new cursor. */
    constructor At(other: UTF8Iterator, start: nat)
      requires start <= |other.text|
      ensures text == other.text && cursor == start
    {
      text := other.text;
      cursor := start;
    }

    /** `atEnd`: the cursor may have moved beyond the end over a truncated sequence. */
    predicate AtEnd()
      reads this
    {
      cursor >= |text|
    }

    /** `extractCodePoint`: copy at most six bytes to a zeroed buffer, decode, advance. */
    method ExtractCodePoint() returns (cp: nat)
      requires cursor < |text|
      modifies this
      ensures cp == Step(text, old(cursor)).codePoint
      ensures cursor == old(cursor) + Step(text, old(cursor)).length
      ensures CodePoints(text, old(cursor)) == [cp] + CodePoints(text, cursor)
    {
      var start := cursor;
      var buffer := new byte[6](_ => 0);
      var n := if |text| - start < 6 then |text| - start else 6;
      var i := 0;
      while i < n
        invariant 0 <= i <= n && cursor == start
        invariant forall j :: 0 <= j < 6 ==> buffer[j] == if j < i then text[start + j] else 0
      {
        buffer[i] := text[start + i];
        i := i + 1;
      }
      assert buffer[..] == Window(text, start);
      var d := Next(buffer[..]);
      cursor := cursor + d.length;
      cp := d.codePoint;
    }

    /** `skipCodePoints`: move over up to `skips` code points; the end when the text ran out. */
    method SkipCodePoints(skips: int) returns (p: nat)
      modifies this
      ensures cursor == Skip(text, old(cursor), skips)
      ensures p == if cursor >= |text| then |text| else cursor
    {
      var k := skips;
      while k > 0 && !AtEnd()
        invariant Skip(text, cursor, k) == Skip(text, old(cursor), skips)
        decreases if k > 0 then k else 0
      {
        var _ := ExtractCodePoint();
        k := k - 1;
      }
      if AtEnd() {
        return |text|;
      }
      return cursor;
    }
  }
}
