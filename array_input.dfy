/** The source built over a byte array (`DecoderInput.from(ByteArray)`): a cursor
    into the bytes, plus the sixteen-bit buffer of `AbstractDecoderInput` that lets
    bits and whole bytes be read in any mix. Bits are read most significant first.
    Positions below are bit offsets into the byte sequence. */
module ArrayInput {
  import opened Jvm
  import opened BitArith
  import opened DecoderInput

  /** The bit at bit offset `p`, most significant bit of each byte first. */
  function BitAt(inner: seq<UByte>, p: int): int
    requires 0 <= p < 8 * |inner|
  {
    Bit(inner[p / 8], 7 - p % 8)
  }

  /** The eight bits starting at bit offset `p`, as an unsigned byte: the low
      `8 - p % 8` bits of one byte followed by the high `p % 8` bits of the next. */
  function ByteAt(inner: seq<UByte>, p: int): int
    requires 0 <= p && p + 8 <= 8 * |inner|
  {
    if p % 8 == 0 then inner[p / 8] else Straddle(inner[p / 8], inner[p / 8 + 1], p % 8)
  }

  /** The buffer holds the `bitLeft` unread low bits of the last byte taken from the
      source, at the top of its sixteen bits, and nothing else. Only the low sixteen
      bits of the JVM `Int` buffer are kept: the higher ones are never read. */
  ghost predicate BufferHolds(inner: seq<UByte>, index: int, bitLeft: int, buffer: int)
  {
    && 0 <= index <= |inner|
    && 0 <= bitLeft <= 7
    && (bitLeft > 0 ==> index > 0)
    && buffer == (if bitLeft == 0 then 0 else Pending(inner[index - 1], bitLeft))
  }

  lemma PositionSplit(index: int, k: int)
    requires index >= 1 && 1 <= k <= 8
    ensures (8 * index - k) / 8 == index - 1 && (8 * index - k) % 8 == 8 - k
  {
  }

  /** `DecoderInput.from(ByteArray)`: the bytes and the read cursor `index` of the
      array source, and the bit buffer of `AbstractDecoderInput`. */
  class ByteArrayInput {
    const inner: seq<UByte>
    var index: int
    var buffer: int
    var bitLeft: int

    ghost predicate Valid()
      reads this
    {
      BufferHolds(inner, index, bitLeft, buffer)
    }

    /** The bit offset of the next bit to be read. */
    ghost function Position(): int
      reads this
    {
      8 * index - bitLeft
    }

    /** The number of whole bytes `read()` can still return. */
    ghost function Available(): int
      reads this
    {
      |inner| - index
    }

    constructor(inner: seq<UByte>)
      ensures Valid() && this.inner == inner && Position() == 0 && bitLeft == 0
    {
      this.inner := inner;
      index := 0;
      buffer := 0;
      bitLeft := 0;
    }

    /** The raw source (`readByte` of the array source): the next unsigned byte and
        the cursor moves on, or -1 at the end; the cursor never passes the size. */
    method ReadByte() returns (r: int)
      requires 0 <= index <= |inner|
      modifies this`index
      ensures old(index) < |inner| ==> r == inner[old(index)] && index == old(index) + 1
      ensures old(index) == |inner| ==> r == -1 && index == old(index)
      ensures 0 <= index <= |inner|
    {
      if index < |inner| {
        r := inner[index];
        index := index + 1;
      } else {
        r := -1;
      }
    }

    /** `refillBuffer`: places the next source byte right below the `bitLeft` pending
        bits. The pending bits sit above bit `16 - bitLeft` and the new byte below it,
        so the source's `or` adds the two. */
    method RefillBuffer() returns (ok: bool)
      requires 0 <= index <= |inner| && 0 <= bitLeft <= 7
      modifies this`index, this`buffer, this`bitLeft
      ensures ok <==> old(index) < |inner|
      ensures ok ==>
        && index == old(index) + 1 && bitLeft == old(bitLeft) + 8
        && buffer == old(buffer) + Shl(inner[old(index)], 8 - old(bitLeft))
      ensures !ok ==> index == old(index) && bitLeft == old(bitLeft) && buffer == old(buffer)
    {
      var nextByte := ReadByte();
      if nextByte == -1 {
        return false;
      }
      buffer := buffer + Shl(nextByte, 16 - bitLeft - 8);
      bitLeft := bitLeft + 8;
      return true;
    }

    /** `readBit`: the next bit, most significant first, or -1 once every bit is
        read. */
    method ReadBit() returns (r: int)
      requires Valid()
      modifies this`index, this`buffer, this`bitLeft
      ensures Valid()
      ensures old(Position()) < 8 * |inner| ==>
        r == BitAt(inner, old(Position())) && Position() == old(Position()) + 1
      ensures old(Position()) == 8 * |inner| ==> r == -1 && index == old(index) && bitLeft == old(bitLeft)
    {
      if bitLeft == 0 {
        var ok := RefillBuffer();
        if !ok {
          return -1;
        }
      }
      PositionSplit(index, bitLeft);
      BitStep(inner[index - 1], bitLeft);
      // (buffer ushr 15) and 1, then buffer shl 1, on the low sixteen bits
      r := (buffer / 32768) % 2;
      buffer := (buffer * 2) % 65536;
      bitLeft := bitLeft - 1;
    }

    /** `read()`: the next eight bits as an unsigned byte, taken straight from the
        source when no bit is pending and through the buffer otherwise, or -1 when
        fewer than eight bits are left. The pending bit count is unchanged. */
    method Read() returns (r: int)
      requires Valid()
      modifies this`index, this`buffer, this`bitLeft
      ensures Valid()
      ensures old(index) < |inner| ==>
        && r == ByteAt(inner, old(Position())) && 0 <= r < 256
        && index == old(index) + 1 && bitLeft == old(bitLeft)
      ensures old(index) == |inner| ==> r == -1 && index == old(index) && bitLeft == old(bitLeft)
    {
      if bitLeft == 0 {
        r := ReadByte();
        return;
      }
      ghost var k, p := bitLeft, Position();
      var ok := RefillBuffer();
      if !ok {
        return -1;
      }
      ghost var b, c := inner[index - 2], inner[index - 1];
      PositionSplit(index - 1, k);
      ByteStep(b, c, k);
      assert ByteAt(inner, p) == Straddle(b, c, 8 - k);
      // ((buffer and 0xFF00) ushr 8) and 0xFF, then buffer shl 8, on the low sixteen bits
      r := buffer / 256;
      buffer := (buffer * 256) % 65536;
      bitLeft := bitLeft - 8;
    }

    /** `skip(n)` of the array source, corrected: the cursor moves directly only when
        no bit is pending, by the count clamped to what is left; otherwise the default
        skip keeps the buffer in step. `SkipAsWritten` is the override as written. */
    method Skip(n: Int64) returns (skipped: Int64)
      requires Valid()
      modifies this`index, this`buffer, this`bitLeft
      ensures Valid()
      ensures skipped == (if n <= 0 then 0 else Min(n, old(Available())))
      ensures index == old(index) + skipped && bitLeft == old(bitLeft)
    {
      if bitLeft != 0 {
        // the default skip: one `read()` per byte
        skipped := 0;
        while skipped < n
          invariant 0 <= skipped && (skipped == 0 || skipped <= n)
          invariant Valid() && index == old(index) + skipped && bitLeft == old(bitLeft)
        {
          var b := Read();
          if b == -1 {
            break;
          }
          skipped := skipped + 1;
        }
        return;
      }
      var oldIndex := index;
      index := if n <= 0 then index else Min(index + n, |inner|);
      skipped := index - oldIndex;
    }
  }

  /** `skip(n)` of the array source as written: `index = min(index + n.toInt(),
      inner.size)` in `Int` arithmetic; returns the new cursor and the count. Neither
      the pending bits nor the sign of `n` is looked at. */
  function SkipAsWritten(index: Int32, size: Int32, n: Int64): (r: (Int32, Int64))
    ensures r.0 <= size
    ensures r.1 == r.0 - index
  {
    var newIndex := Min(Wrap32(index + LongToInt(n)), size);
    (newIndex, newIndex - index)
  }

  /** A negative count moves the cursor backwards (to -1 from 0, where the next read
      fails), and a count of 2^32 skips nothing; the default skip returns 0 and 10
      for these. */
  lemma SkipAsWrittenCounterexamples()
    ensures SkipAsWritten(0, 10, -1) == (-1, -1)
    ensures SkipAsWritten(0, 10, 0x1_0000_0000) == (0, 0)
  {
  }

  /** After one `readBit` on `[0xFF, 0, 0]`, seven bits of the first byte are pending.
      The override moves the cursor past the second byte but keeps those bits, so the
      buffer no longer holds the bits at the cursor. */
  lemma SkipAsWrittenKeepsStaleBits()
    ensures BufferHolds([0xFF, 0, 0], 1, 7, Pending(0xFF, 7))
    ensures SkipAsWritten(1, 3, 1) == (2, 1)
    ensures !BufferHolds([0xFF, 0, 0], 2, 7, Pending(0xFF, 7))
  {
  }

  /** In that state the next `read()` refills from the third byte and yields 0xFE
      (seven stale ones and a zero), where the eight bits at the cursor (offset 9)
      are all zero. */
  lemma SkipAsWrittenReadsStaleByte()
    ensures (Pending(0xFF, 7) + Shl(0, 1)) / 256 == 0xFE
    ensures ByteAt([0xFF, 0, 0], 8 * 2 - 7) == 0
  {
  }
}
