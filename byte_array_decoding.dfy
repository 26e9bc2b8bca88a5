/** Reading JVM primitive values out of a byte array (`ByteArrayDecoding.kt`).
    A `ByteArray` is a sequence of `bv8`; each reader checks its `start` argument
    and throws `IllegalArgumentException` when the bytes it needs are not all in
    the array. */
module ByteArrayDecoding {
  import opened Wrappers
  import opened Jvm
  import opened ByteAccess
  import opened Sequences

  /** A JVM byte array: its size is an `Int`. */
  type ByteArray = s: seq<bv8> | |s| <= INT_MAX

  /** `Int` to `Short` by truncation (`toShort()`). */
  function IntToShort(x: bv32): bv16 {
    (x & 0xFFFF) as bv16
  }

  /** The two bytes of a `Short` in the order a writer using `byte(1)`, `byte(0)`
      emits them. */
  function ShortBytes(x: bv16, order: ByteOrder): seq<bv8> {
    [ShortByte(x, 1, order), ShortByte(x, 0, order)]
  }

  /** The four bytes of an `Int` in the order `byte(3)`, ..., `byte(0)`: most
      significant first for big-endian, least significant first for little-endian. */
  function IntBytes(x: bv32, order: ByteOrder): seq<bv8> {
    [IntByte(x, 3, order), IntByte(x, 2, order), IntByte(x, 1, order), IntByte(x, 0, order)]
  }

  /** The eight bytes of a `Long` in the order `byte(7)`, ..., `byte(0)`. */
  function LongBytes(x: bv64, order: ByteOrder): seq<bv8> {
    [LongByte(x, 7, order), LongByte(x, 6, order), LongByte(x, 5, order), LongByte(x, 4, order),
     LongByte(x, 3, order), LongByte(x, 2, order), LongByte(x, 1, order), LongByte(x, 0, order)]
  }

  /** The range check `width` bytes from `start` need: all of them inside the array. */
  predicate InBounds(size: nat, start: int, width: nat) {
    0 <= start && start + width <= size
  }

  /** `readByte(start)`: the byte at `start`. */
  function ReadByte(bytes: ByteArray, start: Int32): (r: Result<bv8>)
    ensures r.Ok? <==> InBounds(|bytes|, start, 1)
    ensures r.Ok? ==> r.value == bytes[start]
    ensures r.Err? ==> r.error == IllegalArgument
  {
    if 0 <= start < |bytes| then Ok(bytes[start]) else Err(IllegalArgument)
  }

  /** The big-endian formula of `readShort`: `(b0.toInt() shl 8) or (b1.toInt() and 0xFF)`,
      truncated to a `Short`. The little-endian branch is the same formula with the
      two bytes exchanged. */
  function AssembleShort(w: seq<bv8>): (v: bv16)
    requires |w| == 2
    ensures ByteOfShort(v, 0) == w[1] && ByteOfShort(v, 1) == w[0]
  {
    IntToShort((ByteToInt(w[0]) << 8) | (ByteToInt(w[1]) & 0xFF))
  }

  /** The big-endian formula of `readInt`; the little-endian branch applies it to the
      four bytes in reverse order. */
  function AssembleInt(w: seq<bv8>): (v: bv32)
    requires |w| == 4
    ensures ByteOfInt(v, 0) == w[3] && ByteOfInt(v, 1) == w[2]
    ensures ByteOfInt(v, 2) == w[1] && ByteOfInt(v, 3) == w[0]
  {
    (ByteToInt(w[0]) << 24) | ((ByteToInt(w[1]) & 0xFF) << 16)
      | ((ByteToInt(w[2]) & 0xFF) << 8) | (ByteToInt(w[3]) & 0xFF)
  }

  /** `Byte.toLong()`: sign extension. */
  function ByteToLong(b: bv8): bv64 {
    ((b as bv64) ^ 0x80) - 0x80
  }

  /** The big-endian formula of `readLong`; the little-endian branch applies it to
      the eight bytes in reverse order. */
  function AssembleLong(w: seq<bv8>): (v: bv64)
    requires |w| == 8
    ensures ByteOfLong(v, 0) == w[7] && ByteOfLong(v, 1) == w[6]
    ensures ByteOfLong(v, 2) == w[5] && ByteOfLong(v, 3) == w[4]
    ensures ByteOfLong(v, 4) == w[3] && ByteOfLong(v, 5) == w[2]
    ensures ByteOfLong(v, 6) == w[1] && ByteOfLong(v, 7) == w[0]
  {
    (ByteToLong(w[0]) << 56) | ((ByteToLong(w[1]) & 0xFF) << 48)
      | ((ByteToLong(w[2]) & 0xFF) << 40) | ((ByteToLong(w[3]) & 0xFF) << 32)
      | ((ByteToLong(w[4]) & 0xFF) << 24) | ((ByteToLong(w[5]) & 0xFF) << 16)
      | ((ByteToLong(w[6]) & 0xFF) << 8) | (ByteToLong(w[7]) & 0xFF)
  }

  /** `readShort(endianness, start)`. The guard `start + 1 < size` is evaluated
      without `Int` overflow here; `ReadGuardAsWritten` models the overflowing one. */
  function ReadShort(bytes: ByteArray, order: ByteOrder, start: Int32): (r: Result<bv16>)
    ensures r.Ok? <==> InBounds(|bytes|, start, 2)
    ensures r.Ok? ==> ShortBytes(r.value, order) == bytes[start..start + 2]
    ensures r.Err? ==> r.error == IllegalArgument
  {
    if !(start + 1 < |bytes| && start >= 0) then Err(IllegalArgument)
    else
      var w := bytes[start..start + 2];
      Ok(AssembleShort(if order == BigEndian then w else Reverse(w)))
  }

  /** `readInt(endianness, start)`. */
  function ReadInt(bytes: ByteArray, order: ByteOrder, start: Int32): (r: Result<bv32>)
    ensures r.Ok? <==> InBounds(|bytes|, start, 4)
    ensures r.Ok? ==> IntBytes(r.value, order) == bytes[start..start + 4]
    ensures r.Err? ==> r.error == IllegalArgument
  {
    if !(start + 3 < |bytes| && start >= 0) then Err(IllegalArgument)
    else
      var w := bytes[start..start + 4];
      Ok(AssembleInt(if order == BigEndian then w else Reverse(w)))
  }

  /** `readLong(endianness, start)`. */
  function ReadLong(bytes: ByteArray, order: ByteOrder, start: Int32): (r: Result<bv64>)
    ensures r.Ok? <==> InBounds(|bytes|, start, 8)
    ensures r.Ok? ==> LongBytes(r.value, order) == bytes[start..start + 8]
    ensures r.Err? ==> r.error == IllegalArgument
  {
    if !(start + 7 < |bytes| && start >= 0) then Err(IllegalArgument)
    else
      var w := bytes[start..start + 8];
      if order == BigEndian then
        AssembledLongBytesBig(w);
        Ok(AssembleLong(w))
      else
        var s := Reverse(w);
        assert s == [w[7], w[6], w[5], w[4], w[3], w[2], w[1], w[0]];
        AssembledLongBytesLittle(w, s);
        Ok(AssembleLong(s))
  }

  /** The extracted bytes of a `Long` listed through `ByteOfLong`. */
  lemma LongBytesByOrder(v: bv64, order: ByteOrder)
    ensures LongBytes(v, order) == if order == BigEndian
      then [ByteOfLong(v, 7), ByteOfLong(v, 6), ByteOfLong(v, 5), ByteOfLong(v, 4),
            ByteOfLong(v, 3), ByteOfLong(v, 2), ByteOfLong(v, 1), ByteOfLong(v, 0)]
      else [ByteOfLong(v, 0), ByteOfLong(v, 1), ByteOfLong(v, 2), ByteOfLong(v, 3),
            ByteOfLong(v, 4), ByteOfLong(v, 5), ByteOfLong(v, 6), ByteOfLong(v, 7)]
  {
  }

  /** The bytes of the assembled `Long`, as the extractor of the same order numbers
      them, are the window it was assembled from. */
  lemma AssembledLongBytesBig(w: seq<bv8>)
    requires |w| == 8
    ensures LongBytes(AssembleLong(w), BigEndian) == w
  {
    assert w == [w[0], w[1], w[2], w[3], w[4], w[5], w[6], w[7]];
    LongBytesByOrder(AssembleLong(w), BigEndian);
  }

  lemma AssembledLongBytesLittle(w: seq<bv8>, s: seq<bv8>)
    requires |w| == 8 && s == [w[7], w[6], w[5], w[4], w[3], w[2], w[1], w[0]]
    ensures LongBytes(AssembleLong(s), LittleEndian) == w
  {
    assert w == [w[0], w[1], w[2], w[3], w[4], w[5], w[6], w[7]];
    LongBytesByOrder(AssembleLong(s), LittleEndian);
  }

  /** `readBoolean(start)`: true exactly when the byte is not zero. */
  function ReadBoolean(bytes: ByteArray, start: Int32): (r: Result<bool>)
    ensures r.Ok? <==> InBounds(|bytes|, start, 1)
    ensures r.Ok? ==> (r.value <==> bytes[start] != 0)
    ensures r.Err? ==> r.error == IllegalArgument
  {
    if 0 <= start < |bytes| then Ok(bytes[start] != 0) else Err(IllegalArgument)
  }

  /** `readString(charset, length, start)`, up to the charset decoding: the bytes
      handed to the `String` constructor. The guard `start + length <= size` is
      evaluated without `Int` overflow, as documented; `ReadStringAsWritten` models
      the overflowing one. */
  function ReadString(bytes: ByteArray, length: Int32, start: Int32): (r: Result<seq<bv8>>)
    ensures r.Ok? <==> 0 <= length && InBounds(|bytes|, start, length)
    ensures r.Ok? ==> |r.value| == length && r.value == bytes[start..start + length]
    ensures r.Err? ==> r.error == IllegalArgument
  {
    if start < 0 then Err(IllegalArgument)
    else if length < 0 then Err(IllegalArgument)
    else if !(start + length <= |bytes|) then Err(IllegalArgument)
    else Ok(bytes[start..start + length])
  }

  /** `readString` as written: the last guard adds `start + length` as an `Int`,
      which wraps, so a sum past `Int.MAX_VALUE` passes it and the range check of
      the `String` constructor throws `StringIndexOutOfBoundsException` instead. */
  function ReadStringAsWritten(bytes: ByteArray, length: Int32, start: Int32): (r: Result<seq<bv8>>)
    ensures start + length <= INT_MAX ==> r == ReadString(bytes, length, start)
    ensures r == Err(IndexOutOfBounds) <==> 0 <= start && 0 <= length && start + length > INT_MAX
  {
    if start < 0 then Err(IllegalArgument)
    else if length < 0 then Err(IllegalArgument)
    else if !(Wrap32(start + length) <= |bytes|) then Err(IllegalArgument)
    else if start + length > |bytes| then Err(IndexOutOfBounds)
    else Ok(bytes[start..start + length])
  }

  /** On five bytes, `start = 1` and `length = Int.MAX_VALUE` pass the written guard
      and fail in the `String` constructor; the documented check rejects them. */
  lemma ReadStringGuardOverflow()
    ensures ReadStringAsWritten([0, 0, 0, 0, 0], INT_MAX, 1) == Err(IndexOutOfBounds)
    ensures ReadString([0, 0, 0, 0, 0], INT_MAX, 1) == Err(IllegalArgument)
  {
  }

  /** Reading back what the extractors of the same byte order produce gives the
      value again. */
  lemma ShortRoundTrip(x: bv16, order: ByteOrder)
    ensures ReadShort(ShortBytes(x, order), order, 0) == Ok(x)
  {
    var w := ShortBytes(x, order);
    assert w[0..2] == w;
    var v := ReadShort(w, order, 0).value;
    assert ShortByte(v, 0, order) == ShortByte(x, 0, order) && ShortByte(v, 1, order) == ShortByte(x, 1, order);
    ShortEqualByBytes(v, x);
  }

  lemma IntRoundTrip(x: bv32, order: ByteOrder)
    ensures ReadInt(IntBytes(x, order), order, 0) == Ok(x)
  {
    var w := IntBytes(x, order);
    assert w[0..4] == w;
    var v := ReadInt(w, order, 0).value;
    assert IntByte(v, 0, order) == IntByte(x, 0, order) && IntByte(v, 1, order) == IntByte(x, 1, order);
    assert IntByte(v, 2, order) == IntByte(x, 2, order) && IntByte(v, 3, order) == IntByte(x, 3, order);
    IntEqualByBytes(v, x);
  }

  lemma LongRoundTrip(x: bv64, order: ByteOrder)
    ensures ReadLong(LongBytes(x, order), order, 0) == Ok(x)
  {
    var w := LongBytes(x, order);
    assert w[0..8] == w;
    var v := ReadLong(w, order, 0).value;
    assert LongByte(v, 0, order) == LongByte(x, 0, order) && LongByte(v, 1, order) == LongByte(x, 1, order);
    assert LongByte(v, 2, order) == LongByte(x, 2, order) && LongByte(v, 3, order) == LongByte(x, 3, order);
    assert LongByte(v, 4, order) == LongByte(x, 4, order) && LongByte(v, 5, order) == LongByte(x, 5, order);
    assert LongByte(v, 6, order) == LongByte(x, 6, order) && LongByte(v, 7, order) == LongByte(x, 7, order);
    LongEqualByBytes(v, x);
  }

  /** The little-endian readers read the same window in reverse order. */
  lemma IntLittleIsReversedBig(bytes: ByteArray, start: Int32)
    requires InBounds(|bytes|, start, 4)
    ensures ReadInt(bytes, LittleEndian, start)
         == ReadInt([bytes[start + 3], bytes[start + 2], bytes[start + 1], bytes[start]], BigEndian, 0)
  {
    var s := [bytes[start + 3], bytes[start + 2], bytes[start + 1], bytes[start]];
    assert Reverse(bytes[start..start + 4]) == s;
    assert s[0..4] == s;
  }

  lemma LongLittleIsReversedBig(bytes: ByteArray, start: Int32)
    requires InBounds(|bytes|, start, 8)
    ensures ReadLong(bytes, LittleEndian, start) == ReadLong(Reverse(bytes[start..start + 8]), BigEndian, 0)
  {
    var s := Reverse(bytes[start..start + 8]);
    assert s[0..8] == s;
  }

  /** The guard of `readShort`, `readInt` and `readLong` as written: `start + width - 1`
      is an `Int` addition and wraps around. */
  predicate ReadGuardAsWritten(size: nat, start: Int32, width: nat)
    requires 1 <= width <= 8
  {
    Wrap32(start + width - 1) < size && start >= 0
  }

  /** Near `Int.MAX_VALUE` the written guard accepts a start index with no bytes
      after it, so the array access that follows throws
      `ArrayIndexOutOfBoundsException` instead of the documented
      `IllegalArgumentException`. */
  lemma ReadGuardOverflow()
    ensures ReadGuardAsWritten(0, INT_MAX, 2)
    ensures !InBounds(0, INT_MAX, 2)
  {
  }

  /** Without overflow the written guard is exactly the bounds check. */
  lemma ReadGuardAgreesWithoutOverflow(size: nat, start: Int32, width: nat)
    requires 1 <= width <= 8 && start + width - 1 <= INT_MAX
    ensures ReadGuardAsWritten(size, start, width) <==> InBounds(size, start, width)
  {
  }
}
