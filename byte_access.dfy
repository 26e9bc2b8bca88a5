/** Bit and byte extraction from the JVM integer types (`ByteAccess.kt` in the
    `utils` module). Kotlin's `Byte`, `Short`, `Int` and `Long` are the bit-vectors
    `bv8`, `bv16`, `bv32` and `bv64`, so two's-complement wrap-around is built in
    (an `Int` index is a `bv32`, and `index < n` is `index < n` on it);
    `toInt()`/`toLong()` sign-extend, `toByte()` keeps the low eight bits, and
    the shift operators use only the low five bits (six for `Long`) of their
    shift amount. */
module ByteAccess {

  /** `java.nio.ByteOrder`. */
  datatype ByteOrder = BigEndian | LittleEndian

  /** `Byte.toInt()`: sign extension. */
  function ByteToInt(b: bv8): (r: bv32)
    ensures r & 0xFF == b as bv32
    ensures (r & 0x8000_0000 != 0) <==> (b & 0x80 != 0)
  {
    ((b as bv32) ^ 0x80) - 0x80
  }

  /** `Short.toInt()`: sign extension. */
  function ShortToInt(s: bv16): bv32
  {
    ((s as bv32) ^ 0x8000) - 0x8000
  }

  /** `Int.toByte()`: the low eight bits. */
  function IntToByte(x: bv32): (r: bv8)
    ensures r as bv32 == x & 0xFF
  {
    (x & 0xFF) as bv8
  }

  /** `Long.toByte()`: the low eight bits. */
  function LongToByte(x: bv64): (r: bv8)
    ensures r as bv64 == x & 0xFF
  {
    (x & 0xFF) as bv8
  }

  /** `x ushr n` on an `Int`. */
  function Ushr32(x: bv32, n: bv32): (r: bv32)
    ensures n & 31 == 0 ==> r == x
  {
    x >> (n & 31)
  }

  /** `x ushr n` on a `Long`. */
  function Ushr64(x: bv64, n: bv32): (r: bv64)
    ensures n & 63 == 0 ==> r == x
  {
    x >> (n & 63)
  }

  /** `x shr n` on an `Int`: the arithmetic shift, which copies the sign bit. */
  function Shr32(x: bv32, n: bv32): (r: bv32)
    ensures x & 0x8000_0000 == 0 ==> r == x >> (n & 31)
  {
    if x & 0x8000_0000 == 0 then x >> (n & 31) else !(!x >> (n & 31))
  }

  /** The `k`-th byte of a `Short` counted from the least significant end. */
  function ByteOfShort(x: bv16, k: bv32): bv8
    requires k < 2
  {
    ((x >> (8 * k as bv16)) & 0xFF) as bv8
  }

  /** The `k`-th byte of an `Int` counted from the least significant end. */
  function ByteOfInt(x: bv32, k: bv32): bv8
    requires k < 4
  {
    ((x >> (8 * k)) & 0xFF) as bv8
  }

  /** The `k`-th byte of a `Long` counted from the least significant end. */
  function ByteOfLong(x: bv64, k: bv32): bv8
    requires k < 8
  {
    ((x >> (8 * k as bv64)) & 0xFF) as bv8
  }

  /** `Byte.bit(index)`: `toInt() ushr index and 0x1`. Indices 0 to 7 select a bit of
      the byte from the least significant one. */
  function ByteBit(b: bv8, index: bv32): (r: int)
    ensures r == 0 || r == 1
    ensures index < 8 ==> (r == 1 <==> b & (1 << index) != 0)
  {
    (Ushr32(ByteToInt(b), index) & 1) as int
  }

  /** `Short.byte(index, endianness)`. */
  function ShortByte(x: bv16, index: bv32, order: ByteOrder): (r: bv8)
    ensures index < 2 ==>
      r == ByteOfShort(x, if order == BigEndian then index else 1 - index)
  {
    if order == BigEndian then IntToByte(Ushr32(ShortToInt(x), index << 3))
    else IntToByte(Ushr32(ShortToInt(x), (2 - 1 - index) << 3))
  }

  /** `Int.byte(index, endianness)`. */
  function IntByte(x: bv32, index: bv32, order: ByteOrder): (r: bv8)
    ensures index < 4 ==>
      r == ByteOfInt(x, if order == BigEndian then index else 3 - index)
  {
    if order == BigEndian then IntToByte(Ushr32(x, index << 3))
    else IntToByte(Ushr32(x, (4 - 1 - index) << 3))
  }

  /** `Long.byte(index, endianness)`. */
  function LongByte(x: bv64, index: bv32, order: ByteOrder): (r: bv8)
    ensures index < 8 ==>
      r == ByteOfLong(x, if order == BigEndian then index else 7 - index)
  {
    if order == BigEndian then LongToByte(Ushr64(x, index << 3))
    else LongToByte(Ushr64(x, (8 - 1 - index) << 3))
  }

  /** Big-endian index 0 is the least significant byte: the four bytes put back
      together give the `Int` again. */
  lemma IntBytesRecompose(x: bv32)
    ensures x == (IntByte(x, 3, BigEndian) as bv32 << 24) | (IntByte(x, 2, BigEndian) as bv32 << 16)
               | (IntByte(x, 1, BigEndian) as bv32 << 8) | IntByte(x, 0, BigEndian) as bv32
  {
  }

  /** An `Int` is determined by its four bytes. */
  lemma IntEqualByBytes(x: bv32, y: bv32)
    requires ByteOfInt(x, 0) == ByteOfInt(y, 0) && ByteOfInt(x, 1) == ByteOfInt(y, 1)
    requires ByteOfInt(x, 2) == ByteOfInt(y, 2) && ByteOfInt(x, 3) == ByteOfInt(y, 3)
    ensures x == y
  {
  }

  /** A `Short` is determined by its two bytes. */
  lemma ShortEqualByBytes(x: bv16, y: bv16)
    requires ByteOfShort(x, 0) == ByteOfShort(y, 0) && ByteOfShort(x, 1) == ByteOfShort(y, 1)
    ensures x == y
  {
  }

  /** A `Long` is determined by its eight bytes. */
  lemma LongEqualByBytes(x: bv64, y: bv64)
    requires ByteOfLong(x, 0) == ByteOfLong(y, 0) && ByteOfLong(x, 1) == ByteOfLong(y, 1)
    requires ByteOfLong(x, 2) == ByteOfLong(y, 2) && ByteOfLong(x, 3) == ByteOfLong(y, 3)
    requires ByteOfLong(x, 4) == ByteOfLong(y, 4) && ByteOfLong(x, 5) == ByteOfLong(y, 5)
    requires ByteOfLong(x, 6) == ByteOfLong(y, 6) && ByteOfLong(x, 7) == ByteOfLong(y, 7)
    ensures x == y
  {
  }

  /** Little-endian extraction is big-endian extraction from the other end. */
  lemma IntByteLittleMirrorsBig(x: bv32, index: bv32)
    requires index < 4
    ensures IntByte(x, index, LittleEndian) == IntByte(x, 3 - index, BigEndian)
  {
  }

  lemma ShortByteLittleMirrorsBig(x: bv16, index: bv32)
    requires index < 2
    ensures ShortByte(x, index, LittleEndian) == ShortByte(x, 1 - index, BigEndian)
  {
  }

  lemma LongByteLittleMirrorsBig(x: bv64, index: bv32)
    requires index < 8
    ensures LongByte(x, index, LittleEndian) == LongByte(x, 7 - index, BigEndian)
  {
  }

  /** The bits of a value as the documentation of `bit` promises them: index `i`
      selects bit `i % 8` of the byte that `byte(i / 8, endianness)` returns. */
  function IntendedBit(b: bv8, i: bv32): (r: int)
    requires i < 8
    ensures r == 0 || r == 1
  {
    if b & (1 << i as bv8) == 0 then 0 else 1
  }

  /** `Int.bit(index, endianness)` as written. The little-endian branch computes the
      in-byte position as `(index - (index >> 3)) / 8` instead of `(index & 7)`. */
  function IntBitAsWritten(x: bv32, index: bv32, order: ByteOrder): (r: int)
    ensures r == 0 || r == 1
  {
    if order == BigEndian then (Ushr32(x, index) & 1) as int
    else
      var byteIndex := Shr32(index, 3);
      var bitIndex := Shr32(index - byteIndex, 3);
      (Ushr32(x, ((4 - 1 - byteIndex) << 3) + bitIndex) & 1) as int
  }

  /** `Int.bit` with the in-byte position computed as `(index & 7)`. */
  function IntBit(x: bv32, index: bv32, order: ByteOrder): (r: int)
    requires index < 32
    ensures r == IntendedBit(IntByte(x, (index >> 3), order), (index & 7))
  {
    if order == BigEndian then (Ushr32(x, index) & 1) as int
    else (Ushr32(x, ((4 - 1 - (index >> 3)) << 3) + (index & 7)) & 1) as int
  }

  /** `Int.bit(3, LITTLE_ENDIAN)` of `0x0800_0000` should be bit 3 of the first
      little-endian byte `0x08`, which is 1; as written it reads bit 24, which is 0. */
  lemma IntBitLittleCounterexample()
    ensures IntBitAsWritten(0x0800_0000, 3, LittleEndian) == 0
    ensures IntBit(0x0800_0000, 3, LittleEndian) == 1
  {
  }

  /** `Short.bit(index, endianness)` as written. The little-endian branch computes
      the byte index as `index shl 3` (that is, `index << 3`) and subtracts it with
      `Int` wrap-around. */
  function ShortBitAsWritten(x: bv16, index: bv32, order: ByteOrder): (r: int)
    ensures r == 0 || r == 1
  {
    if order == BigEndian then (Ushr32(ShortToInt(x), index) & 1) as int
    else
      var byteIndex := index << 3;
      var bitIndex := Shr32(index - byteIndex, 3);
      (Ushr32(ShortToInt(x), ((2 - 1 - byteIndex) << 3) + bitIndex) & 1) as int
  }

  /** `Short.bit` with the byte index `(index >> 3)` and in-byte position `(index & 7)`. */
  function ShortBit(x: bv16, index: bv32, order: ByteOrder): (r: int)
    requires index < 16
    ensures r == IntendedBit(ShortByte(x, (index >> 3), order), (index & 7))
  {
    if order == BigEndian then (Ushr32(ShortToInt(x), index) & 1) as int
    else (Ushr32(ShortToInt(x), ((2 - 1 - (index >> 3)) << 3) + (index & 7)) & 1) as int
  }

  /** `Short.bit(1, LITTLE_ENDIAN)` of `0x0200` should be bit 1 of the first
      little-endian byte `0x02`, which is 1; as written it reads bit 7, which is 0. */
  lemma ShortBitLittleCounterexample()
    ensures ShortBitAsWritten(0x0200, 1, LittleEndian) == 0
    ensures ShortBit(0x0200, 1, LittleEndian) == 1
  {
  }

  /** `Long.bit(index, endianness)` as written; same in-byte position defect as
      `Int.bit`. */
  function LongBitAsWritten(x: bv64, index: bv32, order: ByteOrder): (r: int)
    ensures r == 0 || r == 1
  {
    if order == BigEndian then (Ushr64(x, index) & 1) as int
    else
      var byteIndex := Shr32(index, 3);
      var bitIndex := Shr32(index - byteIndex, 3);
      (Ushr64(x, ((8 - 1 - byteIndex) << 3) + bitIndex) & 1) as int
  }

  /** `Long.bit` with the in-byte position computed as `(index & 7)`. */
  function LongBit(x: bv64, index: bv32, order: ByteOrder): (r: int)
    requires index < 64
    ensures r == IntendedBit(LongByte(x, (index >> 3), order), (index & 7))
  {
    if order == BigEndian then (Ushr64(x, index) & 1) as int
    else (Ushr64(x, ((8 - 1 - (index >> 3)) << 3) + (index & 7)) & 1) as int
  }

  /** `Long.bit(3, LITTLE_ENDIAN)` of `0x0800_0000_0000_0000` should be bit 3 of the
      first little-endian byte `0x08`, which is 1; as written it reads bit 56, which is 0. */
  lemma LongBitLittleCounterexample()
    ensures LongBitAsWritten(0x0800_0000_0000_0000, 3, LittleEndian) == 0
    ensures LongBit(0x0800_0000_0000_0000, 3, LittleEndian) == 1
  {
  }

  /** On big-endian order the written and the intended definitions agree. */
  lemma BitBigEndianAgrees(x: bv32, index: bv32)
    requires index < 32
    ensures IntBitAsWritten(x, index, BigEndian) == IntBit(x, index, BigEndian)
  {
  }
}
