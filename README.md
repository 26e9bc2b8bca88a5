# Sprinkler core, modelled in Dafny

This project models the stateful and algorithmic core of Sprinkler, a set of
Kotlin libraries, and proves properties of the model. It covers four parts.

- **Bytes and bits** (`utils`). `ByteAccess.kt` extracts bits and bytes from
  `Byte`, `Short`, `Int` and `Long` in a given `ByteOrder`. `ByteArrayDecoding.kt`
  reads those types back from a `ByteArray` and checks the start index. Kotlin's
  integer types are the bit-vectors `bv8` to `bv64`, and `Int` and `Long`
  wrap-around is written out in `jvm.dfy`.
- **Binary transcoders** (`binary-transcoders`, `binary-serializers`):
  - the byte source `DecoderInput`: its default methods, `nullInput()`, and the
    source built over a byte array with its sixteen-bit read buffer;
  - the byte and bit sink `EncoderOutput` built over an `OutputStream`, with the
    interface's default methods and `nullOutput()`;
  - the `Decoder.State` algebra;
  - the resumable decoders: constant arity, marker-ended reduction, marker-ended
    item, prefixed-size item and prefixed-arity reduction;
  - the container layouts of `EncoderUtils`.

  A nested decoder is modelled by the states it returns on its successive
  calls. A byte source is a sequence with a cursor, and an output is the growing
  sequence of bytes (or bits) it has received.
- **Small utilities.** These are `String.interpolate` and the `NameResolver`
  factories, the `Box` variants, `CloseableScope`, and the read-only collection
  factories of `ReadOnlyUtils.kt`.
- **Internationalisation** (`i18n`):
  - `ContentImpl`: flattening nested maps and lists into dotted keys under a
    duplicate-key policy, the run-once guard, and the key order;
  - `TranslationProcessor`: the actual key `key_context_ordinal_plural`, variable
    lookup, and the search through a locale's specialization reductions;
  - `TranslatorImpl`: `tn`/`t` with fallback keys, fallback locale and the
    missing-key policy, `section`, `toMap`, `withNewCurrentLocale` and `asRoot`;
  - the parser and integer evaluator of the builtin plural-rule grammar;
  - the builder's default locale specialization reduction and its check of
    interpolation delimiters.

Where the code mutates an object in place (the input buffer, the output's pending
byte, the decoders' counters, boxes, scopes, the content builder), the model is
a class whose methods are proved against specification functions. Pure code
(byte extraction, state algebra, plural rules, reductions) is modelled as
functions with lemmas. Exceptions become values of a `Result` type.

## Model

| member | source | states |
|---|---|---|
| ByteAccess.ByteToInt | utils/src/main/kotlin/com/kamelia/sprinkler/util/ByteAccess.kt:15 | sign extension keeps the low eight bits and copies bit 7 into the sign bit |
| ByteAccess.IntToByte | utils/src/main/kotlin/com/kamelia/sprinkler/util/ByteAccess.kt:59-63 | `toByte()` keeps exactly the low eight bits |
| ByteAccess.LongToByte | utils/src/main/kotlin/com/kamelia/sprinkler/util/ByteAccess.kt:92-96 | `toByte()` on a Long keeps exactly the low eight bits |
| ByteAccess.Ushr32 | utils/src/main/kotlin/com/kamelia/sprinkler/util/ByteAccess.kt:59-63 | the JVM masks an Int shift amount to five bits, so a multiple of 32 leaves the value unchanged |
| ByteAccess.Ushr64 | utils/src/main/kotlin/com/kamelia/sprinkler/util/ByteAccess.kt:92-96 | a Long shift amount is masked to six bits, so a multiple of 64 leaves the value unchanged |
| ByteAccess.Shr32 | utils/src/main/kotlin/com/kamelia/sprinkler/util/ByteAccess.kt:75-81 | on a non-negative Int, the arithmetic shift equals the logical shift by the masked amount |
| ByteAccess.ByteBit | utils/src/main/kotlin/com/kamelia/sprinkler/util/ByteAccess.kt:15 | `bit` is always 0 or 1; for an index below 8 it is 1 exactly when that bit of the byte is set |
| ByteAccess.ShortByte | utils/src/main/kotlin/com/kamelia/sprinkler/util/ByteAccess.kt:26-30 | big-endian index i is byte i counted from the least significant end; little-endian index i is byte 1-i |
| ByteAccess.IntByte | utils/src/main/kotlin/com/kamelia/sprinkler/util/ByteAccess.kt:59-63 | big-endian index i is byte i from the least significant end; little-endian index i is byte 3-i |
| ByteAccess.LongByte | utils/src/main/kotlin/com/kamelia/sprinkler/util/ByteAccess.kt:92-96 | big-endian index i is byte i from the least significant end; little-endian index i is byte 7-i |
| ByteAccess.IntBytesRecompose | utils/src/main/kotlin/com/kamelia/sprinkler/util/ByteAccess.kt:59-63 | shifting the four big-endian bytes back into place rebuilds the Int |
| ByteAccess.IntEqualByBytes | utils/src/main/kotlin/com/kamelia/sprinkler/util/ByteAccess.kt:59-63 | two Ints with the same four bytes are equal |
| ByteAccess.ShortEqualByBytes | utils/src/main/kotlin/com/kamelia/sprinkler/util/ByteAccess.kt:26-30 | two Shorts with the same two bytes are equal |
| ByteAccess.LongEqualByBytes | utils/src/main/kotlin/com/kamelia/sprinkler/util/ByteAccess.kt:92-96 | two Longs with the same eight bytes are equal |
| ByteAccess.IntByteLittleMirrorsBig | utils/src/main/kotlin/com/kamelia/sprinkler/util/ByteAccess.kt:59-63 | `byte(i, LITTLE)` equals `byte(3-i, BIG)` for every index 0..3 |
| ByteAccess.ShortByteLittleMirrorsBig | utils/src/main/kotlin/com/kamelia/sprinkler/util/ByteAccess.kt:26-30 | `byte(i, LITTLE)` equals `byte(1-i, BIG)` for a Short |
| ByteAccess.LongByteLittleMirrorsBig | utils/src/main/kotlin/com/kamelia/sprinkler/util/ByteAccess.kt:92-96 | `byte(i, LITTLE)` equals `byte(7-i, BIG)` for a Long |
| ByteAccess.IntendedBit | utils/src/main/kotlin/com/kamelia/sprinkler/util/ByteAccess.kt:15 | the documented bit of a byte is 0 or 1 |
| ByteAccess.IntBitAsWritten | utils/src/main/kotlin/com/kamelia/sprinkler/util/ByteAccess.kt:75-81 | `Int.bit` as written is always 0 or 1 |
| ByteAccess.IntBit | utils/src/main/kotlin/com/kamelia/sprinkler/util/ByteAccess.kt:75-81 | corrected `Int.bit`: bit `index % 8` of the byte `index / 8` taken in the given order |
| ByteAccess.IntBitLittleCounterexample | utils/src/main/kotlin/com/kamelia/sprinkler/util/ByteAccess.kt:75-81 | for 0x08000000, index 3, little-endian, the written code gives 0 where the intended bit is 1 |
| ByteAccess.ShortBitAsWritten | utils/src/main/kotlin/com/kamelia/sprinkler/util/ByteAccess.kt:42-48 | `Short.bit` as written is always 0 or 1 |
| ByteAccess.ShortBit | utils/src/main/kotlin/com/kamelia/sprinkler/util/ByteAccess.kt:42-48 | corrected `Short.bit`: bit `index % 8` of the byte `index / 8` taken in the given order |
| ByteAccess.ShortBitLittleCounterexample | utils/src/main/kotlin/com/kamelia/sprinkler/util/ByteAccess.kt:42-48 | for 0x0200, index 1, little-endian, the written code gives 0 where the intended bit is 1 |
| ByteAccess.LongBitAsWritten | utils/src/main/kotlin/com/kamelia/sprinkler/util/ByteAccess.kt:108-114 | `Long.bit` as written is always 0 or 1 |
| ByteAccess.LongBit | utils/src/main/kotlin/com/kamelia/sprinkler/util/ByteAccess.kt:108-114 | corrected `Long.bit`: bit `index % 8` of the byte `index / 8` taken in the given order |
| ByteAccess.LongBitLittleCounterexample | utils/src/main/kotlin/com/kamelia/sprinkler/util/ByteAccess.kt:108-114 | for 0x0800000000000000, index 3, little-endian, the written code gives 0 where the intended bit is 1 |
| ByteAccess.BitBigEndianAgrees | utils/src/main/kotlin/com/kamelia/sprinkler/util/ByteAccess.kt:75-81 | on big-endian order, the written and the corrected `Int.bit` agree for every index below 32 |
| ByteArrayDecoding.ReadByte | utils/src/main/kotlin/com/kamelia/sprinkler/util/ByteArrayDecoding.kt:17-20 | succeeds exactly when `0 <= start < size` and returns that byte; otherwise IllegalArgumentException |
| Sequences.Reverse | utils/src/main/kotlin/com/kamelia/sprinkler/util/ByteArrayDecoding.kt:53-62 | the window read backwards, element by element |
| ByteArrayDecoding.AssembleShort | utils/src/main/kotlin/com/kamelia/sprinkler/util/ByteArrayDecoding.kt:33-40 | `(b0 shl 8) or (b1 and 0xFF)` has b0 as its high byte and b1 as its low byte |
| ByteArrayDecoding.AssembleInt | utils/src/main/kotlin/com/kamelia/sprinkler/util/ByteArrayDecoding.kt:53-62 | the big-endian formula puts w[0] in the most significant byte and w[3] in the least |
| ByteArrayDecoding.AssembleLong | utils/src/main/kotlin/com/kamelia/sprinkler/util/ByteArrayDecoding.kt:75-88 | the big-endian formula puts w[0] in the most significant byte and w[7] in the least |
| ByteArrayDecoding.ReadShort | utils/src/main/kotlin/com/kamelia/sprinkler/util/ByteArrayDecoding.kt:33-40 | succeeds exactly when both bytes are inside the array; the value's bytes in the given order are the window; otherwise IllegalArgumentException |
| ByteArrayDecoding.ReadInt | utils/src/main/kotlin/com/kamelia/sprinkler/util/ByteArrayDecoding.kt:53-62 | succeeds exactly when four bytes from start are inside the array; the value's bytes in the given order are the window |
| ByteArrayDecoding.ReadLong | utils/src/main/kotlin/com/kamelia/sprinkler/util/ByteArrayDecoding.kt:75-88 | succeeds exactly when eight bytes from start are inside the array; the value's bytes in the given order are the window |
| ByteArrayDecoding.LongBytesByOrder | utils/src/main/kotlin/com/kamelia/sprinkler/util/ByteArrayDecoding.kt:75-88 | the byte list of a Long is most significant first for BIG and least significant first for LITTLE |
| ByteArrayDecoding.AssembledLongBytesBig | utils/src/main/kotlin/com/kamelia/sprinkler/util/ByteArrayDecoding.kt:75-88 | the bytes of the big-endian assembly are the eight input bytes |
| ByteArrayDecoding.AssembledLongBytesLittle | utils/src/main/kotlin/com/kamelia/sprinkler/util/ByteArrayDecoding.kt:75-88 | assembling the reversed window gives a Long whose little-endian bytes are the window |
| ByteArrayDecoding.ReadBoolean | utils/src/main/kotlin/com/kamelia/sprinkler/util/ByteArrayDecoding.kt:133-136 | in bounds exactly when `0 <= start < size`; true exactly when the byte is not zero |
| ByteArrayDecoding.ReadString | utils/src/main/kotlin/com/kamelia/sprinkler/util/ByteArrayDecoding.kt:149-156 | the documented `readString` check, with `start + length` not wrapped: `IllegalArgumentException` for a negative start or length or `start + length > size`, otherwise exactly the bytes of the window |
| ByteArrayDecoding.ShortRoundTrip | utils/src/main/kotlin/com/kamelia/sprinkler/util/ByteArrayDecoding.kt:33-40 | reading a Short back from its own two bytes in the same order gives the Short |
| ByteArrayDecoding.IntRoundTrip | utils/src/main/kotlin/com/kamelia/sprinkler/util/ByteArrayDecoding.kt:53-62 | reading an Int back from its four bytes in the same order gives the Int |
| ByteArrayDecoding.LongRoundTrip | utils/src/main/kotlin/com/kamelia/sprinkler/util/ByteArrayDecoding.kt:75-88 | reading a Long back from its eight bytes in the same order gives the Long |
| ByteArrayDecoding.IntLittleIsReversedBig | utils/src/main/kotlin/com/kamelia/sprinkler/util/ByteArrayDecoding.kt:53-62 | the little-endian Int is the big-endian read of the reversed window |
| ByteArrayDecoding.LongLittleIsReversedBig | utils/src/main/kotlin/com/kamelia/sprinkler/util/ByteArrayDecoding.kt:75-88 | the little-endian Long is the big-endian read of the reversed window |
| ByteArrayDecoding.ReadGuardOverflow | utils/src/main/kotlin/com/kamelia/sprinkler/util/ByteArrayDecoding.kt:33-34 | with start = Int.MAX_VALUE and an empty array, the written guard `start + 1 < size` passes although no byte is in bounds |
| ByteArrayDecoding.ReadGuardAgreesWithoutOverflow | utils/src/main/kotlin/com/kamelia/sprinkler/util/ByteArrayDecoding.kt:54 | when `start + width - 1` does not overflow, the written guard is exactly the bounds check |
| ByteArrayDecoding.ReadStringAsWritten | utils/src/main/kotlin/com/kamelia/sprinkler/util/ByteArrayDecoding.kt:149-156 | `readString` as written: whenever `start + length` fits in an `Int` it agrees with the documented check, and it ends in `IndexOutOfBoundsException` exactly when a non-negative start and length sum past `Int.MAX_VALUE` |
| ByteArrayDecoding.ReadStringGuardOverflow | utils/src/main/kotlin/com/kamelia/sprinkler/util/ByteArrayDecoding.kt:152-155 | on five bytes with `start = 1` and `length = Int.MAX_VALUE`, the written guard passes and the `String` constructor fails, where the documented check throws `IllegalArgumentException` |
| DecoderInput.CollectTakesPrefix | binary-transcoders/src/main/kotlin/com/kamelia/sprinkler/transcoder/binary/decoder/core/DecoderInput.kt:176-195 | `read(collection, length)` adds at most `length` bytes; they are the next bytes of the source, in order, appended to the collection |
| DecoderInput.CollectStops | binary-transcoders/src/main/kotlin/com/kamelia/sprinkler/transcoder/binary/decoder/core/DecoderInput.kt:176-195 | reading stops before the budget only at the end of the source, or at a byte that a set-like collection already holds |
| DecoderInput.ByteCollection.Add | binary-transcoders/src/main/kotlin/com/kamelia/sprinkler/transcoder/binary/decoder/core/DecoderInput.kt:176-195 | `add` reports false exactly for a duplicate in a set-like collection, and appends the byte otherwise |
| DecoderInput.ByteSource.Read | binary-transcoders/src/main/kotlin/com/kamelia/sprinkler/transcoder/binary/decoder/core/DecoderInput.kt:53 | `read()` returns the next byte and advances, or -1 at the end without moving |
| DecoderInput.ByteSource.ReadInto | binary-transcoders/src/main/kotlin/com/kamelia/sprinkler/transcoder/binary/decoder/core/DecoderInput.kt:116-133 | IndexOutOfBounds unless `0 <= start`, `0 <= length`, `start + length <= size`; 0 for a zero length; -1 at the end; otherwise k in 1..length bytes stored in `bytes[start..start+k)` in order, the rest of the array untouched |
| DecoderInput.ByteSource.ReadFrom | binary-transcoders/src/main/kotlin/com/kamelia/sprinkler/transcoder/binary/decoder/core/DecoderInput.kt:149 | `read(bytes, start)` is `read(bytes, start, size - start)` with the subtraction in Int arithmetic |
| DecoderInput.ByteSource.ReadAll | binary-transcoders/src/main/kotlin/com/kamelia/sprinkler/transcoder/binary/decoder/core/DecoderInput.kt:162 | `read(bytes)` is `read(bytes, 0, size)` |
| DecoderInput.ByteSource.ReadIntoCollection | binary-transcoders/src/main/kotlin/com/kamelia/sprinkler/transcoder/binary/decoder/core/DecoderInput.kt:176-195 | 0 for a zero length and -1 at the end, with nothing added; otherwise the collection gains the next bytes as `Collect` describes and the cursor moves past every byte consumed |
| DecoderInput.ByteSource.ReadAllIntoCollection | binary-transcoders/src/main/kotlin/com/kamelia/sprinkler/transcoder/binary/decoder/core/DecoderInput.kt:208 | `read(collection)` is `read(collection, Int.MAX_VALUE)` |
| DecoderInput.ByteSource.Skip | binary-transcoders/src/main/kotlin/com/kamelia/sprinkler/transcoder/binary/decoder/core/DecoderInput.kt:217-224 | the default `skip(n)` returns 0 for `n <= 0` and otherwise `min(n, bytes left)`, moving the cursor by that count |
| DecoderInput.NullReadInto | binary-transcoders/src/main/kotlin/com/kamelia/sprinkler/transcoder/binary/decoder/core/DecoderInput.kt:242-245 | `nullInput().read(bytes, start, length)` checks the range (IndexOutOfBounds) and otherwise returns -1 |
| ArrayInput.PositionSplit | binary-transcoders/src/main/kotlin/com/kamelia/sprinkler/transcoder/binary/decoder/core/DecoderInput.kt:404-414 | a bit offset k bits before byte boundary `index` lies in byte `index - 1` at bit `8 - k` |
| ArrayInput.ByteArrayInput.constructor | binary-transcoders/src/main/kotlin/com/kamelia/sprinkler/transcoder/binary/decoder/core/DecoderInput.kt:338-347 | `from(ByteArray)` starts at bit offset 0 with no pending bits |
| ArrayInput.ByteArrayInput.ReadByte | binary-transcoders/src/main/kotlin/com/kamelia/sprinkler/transcoder/binary/decoder/core/DecoderInput.kt:343-347 | the array source returns the next byte as 0..255 and advances, or -1 without moving; the index never exceeds the size |
| ArrayInput.ByteArrayInput.RefillBuffer | binary-transcoders/src/main/kotlin/com/kamelia/sprinkler/transcoder/binary/decoder/core/DecoderInput.kt:430-437 | on success the next byte is placed right below the pending bits and `bitLeft` grows by 8; at the end nothing changes and false is returned |
| ArrayInput.ByteArrayInput.ReadBit | binary-transcoders/src/main/kotlin/com/kamelia/sprinkler/transcoder/binary/decoder/core/DecoderInput.kt:408-414 | returns the bit at the current bit offset, most significant first, and advances by one bit; -1 once every bit is read; `bitLeft` stays in 0..15 |
| ArrayInput.ByteArrayInput.Read | binary-transcoders/src/main/kotlin/com/kamelia/sprinkler/transcoder/binary/decoder/core/DecoderInput.kt:416-428 | returns the eight bits at the current bit offset as 0..255, whether or not bits are pending, and keeps the pending count; -1 when no whole byte is left |
| ArrayInput.ByteArrayInput.Skip | binary-transcoders/src/main/kotlin/com/kamelia/sprinkler/transcoder/binary/decoder/core/DecoderInput.kt:349-353 | corrected `skip(n)`: 0 for `n <= 0`, otherwise `min(n, bytes left)`; the pending bits stay in step with the cursor |
| ArrayInput.SkipAsWritten | binary-transcoders/src/main/kotlin/com/kamelia/sprinkler/transcoder/binary/decoder/core/DecoderInput.kt:349-353 | the override as written never moves the cursor past the size and returns the cursor's displacement |
| ArrayInput.SkipAsWrittenCounterexamples | binary-transcoders/src/main/kotlin/com/kamelia/sprinkler/transcoder/binary/decoder/core/DecoderInput.kt:349-353 | as written, `skip(-1)` at 0 moves the cursor to -1 and `skip(2^32)` skips nothing |
| ArrayInput.SkipAsWrittenKeepsStaleBits | binary-transcoders/src/main/kotlin/com/kamelia/sprinkler/transcoder/binary/decoder/core/DecoderInput.kt:349-353 | after one `readBit` on [0xFF, 0, 0], the override moves the cursor but keeps seven stale pending bits |
| ArrayInput.SkipAsWrittenReadsStaleByte | binary-transcoders/src/main/kotlin/com/kamelia/sprinkler/transcoder/binary/decoder/core/DecoderInput.kt:416-428 | in that state the next `read()` yields 0xFE where the bits at the cursor are all zero |
| EncoderOutput.SetBitAt | binary-transcoders/src/main/kotlin/com/kamelia/sprinkler/transcoder/binary/encoder/core/EncoderOutput.kt:149 | setting bit k (counted from the most significant) of the current byte changes no other bit |
| EncoderOutput.PackBit | binary-transcoders/src/main/kotlin/com/kamelia/sprinkler/transcoder/binary/encoder/core/EncoderOutput.kt:148-152 | bit j of the packed current byte is the j-th bit written since the last emitted byte, or clear past it |
| EncoderOutput.PackPush | binary-transcoders/src/main/kotlin/com/kamelia/sprinkler/transcoder/binary/encoder/core/EncoderOutput.kt:148-150 | writing one more bit ORs it in at position `7 - currentBitIndex` |
| EncoderOutput.PackPadded | binary-transcoders/src/main/kotlin/com/kamelia/sprinkler/transcoder/binary/encoder/core/EncoderOutput.kt:154-159 | the byte emitted for k pending bits is those bits followed by `8 - k` zero bits |
| EncoderOutput.FlattenAt | binary-transcoders/src/main/kotlin/com/kamelia/sprinkler/transcoder/binary/encoder/core/EncoderOutput.kt:148-152 | bit j of emitted byte i is stream bit `8 * i + j`: bytes are packed most significant bit first |
| EncoderOutput.FlattenAppend | binary-transcoders/src/main/kotlin/com/kamelia/sprinkler/transcoder/binary/encoder/core/EncoderOutput.kt:92-99 | the bits of concatenated bytes are the concatenated bits |
| EncoderOutput.StreamOutput.constructor | binary-transcoders/src/main/kotlin/com/kamelia/sprinkler/transcoder/binary/encoder/core/EncoderOutput.kt:143-146 | a new stream output has emitted nothing and has no pending bit |
| EncoderOutput.StreamOutput.Flush | binary-transcoders/src/main/kotlin/com/kamelia/sprinkler/transcoder/binary/encoder/core/EncoderOutput.kt:154-159 | with no pending bit nothing is emitted; otherwise the pending byte, zero padded, is emitted once; the pending count returns to 0 |
| EncoderOutput.StreamOutput.Accumulate | binary-transcoders/src/main/kotlin/com/kamelia/sprinkler/transcoder/binary/encoder/core/EncoderOutput.kt:148-150 | the bit is ORed into the current byte and the pending count grows by one, with nothing emitted |
| EncoderOutput.StreamOutput.TryFlush | binary-transcoders/src/main/kotlin/com/kamelia/sprinkler/transcoder/binary/encoder/core/EncoderOutput.kt:169-173 | a byte is emitted exactly when eight bits are pending, and the pending count then returns to 0 |
| EncoderOutput.StreamOutput.WriteBit | binary-transcoders/src/main/kotlin/com/kamelia/sprinkler/transcoder/binary/encoder/core/EncoderOutput.kt:148-152 | corrected `writeBit`: the stream gains exactly the low bit of the argument; the pending count stays below 8 and no partial byte is emitted |
| EncoderOutput.StreamOutput.Write | binary-transcoders/src/main/kotlin/com/kamelia/sprinkler/transcoder/binary/encoder/core/EncoderOutput.kt:161-167 | `write(byte)` appends the byte's eight bits to the stream, emits exactly one byte, and passes the byte straight through when aligned |
| EncoderOutput.StreamOutput.WriteBitwise | binary-transcoders/src/main/kotlin/com/kamelia/sprinkler/transcoder/binary/encoder/core/EncoderOutput.kt:77-81 | the default `write(byte)` appends the byte's eight bits, most significant first, keeping the pending count |
| EncoderOutput.StreamOutput.WriteBits | binary-transcoders/src/main/kotlin/com/kamelia/sprinkler/transcoder/binary/encoder/core/EncoderOutput.kt:35-40 | IndexOutOfBounds unless `0 <= start`, `0 <= length`, `start + length <= 8`; otherwise the stream gains bits `start..start+length` of the byte |
| EncoderOutput.StreamOutput.WriteBytes | binary-transcoders/src/main/kotlin/com/kamelia/sprinkler/transcoder/binary/encoder/core/EncoderOutput.kt:92-99 | IndexOutOfBounds for a range outside the array; otherwise the stream gains the bits of `bytes[start..start+length)` in order |
| EncoderOutput.StreamOutput.WriteRange | binary-transcoders/src/main/kotlin/com/kamelia/sprinkler/transcoder/binary/encoder/core/EncoderOutput.kt:94-98 | the loop writing each byte of the range appends their bits in order |
| EncoderOutput.StreamOutput.WriteBytesAsWritten | binary-transcoders/src/main/kotlin/com/kamelia/sprinkler/transcoder/binary/encoder/core/EncoderOutput.kt:175-178 | as written, the array goes straight to the stream, so its bits land before the pending bits |
| EncoderOutput.StreamOutput.WriteBitsArray | binary-transcoders/src/main/kotlin/com/kamelia/sprinkler/transcoder/binary/encoder/core/EncoderOutput.kt:48-66 | corrected `writeBits(bytes, start, length)`: IndexOutOfBounds outside `8 * size` bits, otherwise exactly bits `start..start+length` of the array |
| EncoderOutput.StreamOutput.WritePhases | binary-transcoders/src/main/kotlin/com/kamelia/sprinkler/transcoder/binary/encoder/core/EncoderOutput.kt:50-65 | the prefix, whole-byte and suffix phases together write the requested bit range |
| EncoderOutput.StreamOutput.WritePrefix | binary-transcoders/src/main/kotlin/com/kamelia/sprinkler/transcoder/binary/encoder/core/EncoderOutput.kt:52-55 | the first phase writes the bits of the byte holding bit `start` |
| EncoderOutput.StreamOutput.WriteSuffix | binary-transcoders/src/main/kotlin/com/kamelia/sprinkler/transcoder/binary/encoder/core/EncoderOutput.kt:62-65 | the last phase writes the leading bits of the byte after the whole bytes |
| EncoderOutput.Split | binary-transcoders/src/main/kotlin/com/kamelia/sprinkler/transcoder/binary/encoder/core/EncoderOutput.kt:50-64 | the prefix offset, prefix bits, whole bytes and suffix bits add up to the start and the length of the range |
| EncoderOutput.RangeSplit | binary-transcoders/src/main/kotlin/com/kamelia/sprinkler/transcoder/binary/encoder/core/EncoderOutput.kt:48-66 | the three phases stay inside the array and cover exactly the requested bits of the flattened array |
| EncoderOutput.WriteBytesAsWrittenReorders | binary-transcoders/src/main/kotlin/com/kamelia/sprinkler/transcoder/binary/encoder/core/EncoderOutput.kt:175-178 | after `writeBit(1)`, writing [0x01] as written gives the bits of 0x01 then the 1, where the aligned order gives 0x80 0x80 |
| EncoderOutput.WriteBitsArrayAsWritten | binary-transcoders/src/main/kotlin/com/kamelia/sprinkler/transcoder/binary/encoder/core/EncoderOutput.kt:48-66 | as written, the range is checked against the `Int` product `size * 8`, which wraps on large arrays: the method raises IndexOutOfBounds for every range that check rejects, and completes only on ranges within the wrapped size that also end before the last bit |
| EncoderOutput.WriteBitsArrayAsWrittenWholeByte | binary-transcoders/src/main/kotlin/com/kamelia/sprinkler/transcoder/binary/encoder/core/EncoderOutput.kt:48-66 | all eight bits of [0x01] come out as the byte twice, then an IndexOutOfBounds |
| EncoderOutput.WriteBitsArrayAsWrittenOverlong | binary-transcoders/src/main/kotlin/com/kamelia/sprinkler/transcoder/binary/encoder/core/EncoderOutput.kt:48-66 | bits 2..22 of three bytes come out as 28 bits instead of 20 |
| EncoderOutput.WriteBitsArrayAsWrittenWideArray | binary-transcoders/src/main/kotlin/com/kamelia/sprinkler/transcoder/binary/encoder/core/EncoderOutput.kt:49 | on 2^28 bytes the wrapped size is `Int.MIN_VALUE` and bits 0..8 are refused; on 2^29 + 1 bytes it is 8 and bits 16..24 are refused, though both ranges lie in the array |
| EncoderOutput.NullWriteBytesAsWritten | binary-transcoders/src/main/kotlin/com/kamelia/sprinkler/transcoder/binary/encoder/core/EncoderOutput.kt:132 | `nullOutput().write(bytes, start, length)` as written always returns normally |
| EncoderOutput.NullWriteBytes | binary-transcoders/src/main/kotlin/com/kamelia/sprinkler/transcoder/binary/encoder/core/EncoderOutput.kt:132 | corrected: IndexOutOfBounds exactly when the range is outside the array, as for every other output |
| EncoderOutput.NullWriteBytesCounterexample | binary-transcoders/src/main/kotlin/com/kamelia/sprinkler/transcoder/binary/encoder/core/EncoderOutput.kt:132 | `write(bytes, -1, 5)` on a four-byte array is accepted as written and rejected when corrected |
| EncoderOutputWord.WriteBitAsWrittenKeeps | binary-transcoders/src/main/kotlin/com/kamelia/sprinkler/transcoder/binary/encoder/core/EncoderOutput.kt:149 | `writeBit` as written never clears a bit already set |
| EncoderOutputWord.WriteBitAsWrittenOnBit | binary-transcoders/src/main/kotlin/com/kamelia/sprinkler/transcoder/binary/encoder/core/EncoderOutput.kt:149 | for an argument of 0 or 1, `writeBit` as written sets exactly the bit the corrected one sets |
| EncoderOutputWord.WriteBitAsWrittenCounterexample | binary-transcoders/src/main/kotlin/com/kamelia/sprinkler/transcoder/binary/encoder/core/EncoderOutput.kt:148-152 | `writeBit(2)` after one zero bit sets the first bit (0x80), where the low bit of 2 is 0 |
| DecoderState.MapEmptyState | binary-transcoders/src/main/kotlin/com/kamelia/sprinkler/transcoder/binary/decoder/core/Decoder.kt:197-201 | `mapEmptyState` throws IllegalStateException exactly on Done; Processing and Error are retyped unchanged |
| DecoderState.MapStatePassesThrough | binary-transcoders/src/main/kotlin/com/kamelia/sprinkler/transcoder/binary/decoder/core/Decoder.kt:174-177 | `mapState` applies the block only to Done; Processing and Error pass through unchanged |
| DecoderState.MapStateMonadLaws | binary-transcoders/src/main/kotlin/com/kamelia/sprinkler/transcoder/binary/decoder/core/Decoder.kt:174-177 | `mapState` with Done is the identity, `Done(v).mapState(f)` is `f(v)`, and two `mapState` calls compose |
| DecoderState.MapResultFunctor | binary-transcoders/src/main/kotlin/com/kamelia/sprinkler/transcoder/binary/decoder/core/Decoder.kt:187 | `mapResult(f)` turns `Done(v)` into `Done(f(v))`, keeps the other states, and preserves identity and composition |
| DecoderState.IsDoneNegatesIsNotDone | binary-transcoders/src/main/kotlin/com/kamelia/sprinkler/transcoder/binary/decoder/core/Decoder.kt:206-211 | `isDone` is always the negation of `isNotDone`, and holds exactly where `mapEmptyState` throws |
| DecoderState.ReadersAgree | binary-transcoders/src/main/kotlin/com/kamelia/sprinkler/transcoder/binary/decoder/core/Decoder.kt:220-270 | `get` succeeds exactly when `getOrNull` is not null, and then all readers return the value; otherwise `getOrElse` gives the default and `getOrThrow` the factory's exception; `get` on Processing is MissingBytes and on Error is that error |
| ElementDecoder.Leading | binary-transcoders/src/main/kotlin/com/kamelia/sprinkler/transcoder/binary/decoder/core/Decoder.kt:60 | the values of the leading Done states of a nested decoder's script, stopping at the first state that is not Done |
| ElementDecoder.ScriptedDecoder.Decode | binary-transcoders/src/main/kotlin/com/kamelia/sprinkler/transcoder/binary/decoder/core/Decoder.kt:60 | each `decode` call returns the next state of the nested decoder's script (Processing once it is used up) |
| ElementDecoder.ScriptedDecoder.Reset | binary-transcoders/src/main/kotlin/com/kamelia/sprinkler/transcoder/binary/decoder/core/Decoder.kt:100 | `reset` is recorded and leaves the remaining script alone |
| ConstantArityReduction.ArityRunSpec | binary-transcoders/src/main/kotlin/com/kamelia/sprinkler/transcoder/binary/decoder/core/ConstantArityReductionDecoder.kt:55-71 | one call is Done exactly when the nested decoder delivers the missing `arity - collected` elements, with all elements in order; otherwise the nested decoder's first non-Done state is returned and the elements so far are kept |
| ConstantArityReduction.ArityRunDoneSize | binary-transcoders/src/main/kotlin/com/kamelia/sprinkler/transcoder/binary/decoder/core/ConstantArityReductionDecoder.kt:58-70 | a Done value holds exactly `arity` elements |
| ConstantArityReduction.ArityRunResumes | binary-transcoders/src/main/kotlin/com/kamelia/sprinkler/transcoder/binary/decoder/core/ConstantArityReductionDecoder.kt:65 | splitting the nested decoder's Done states over several calls gives the same result as one call: decoding resumes where it stopped |
| ConstantArityReduction.ConstantArityDecoder.constructor | binary-transcoders/src/main/kotlin/com/kamelia/sprinkler/transcoder/binary/decoder/core/ConstantArityReductionDecoder.kt:51-53 | a new decoder has no collection and index 0 |
| ConstantArityReduction.ConstantArityDecoder.Decode | binary-transcoders/src/main/kotlin/com/kamelia/sprinkler/transcoder/binary/decoder/core/ConstantArityReductionDecoder.kt:55-71 | `decode` returns what `ArityRun` describes; after Done the index is 0 and the collection null, otherwise the collection holds the elements so far and the index counts them |
| ConstantArityReduction.ConstantArityDecoder.Reset | binary-transcoders/src/main/kotlin/com/kamelia/sprinkler/transcoder/binary/decoder/core/ConstantArityReductionDecoder.kt:73-81 | `reset` clears the collection and the index and resets the nested decoder |
| ConstantArityReduction.Create | binary-transcoders/src/main/kotlin/com/kamelia/sprinkler/transcoder/binary/decoder/core/ConstantArityReductionDecoder.kt:51-53 | construction fails with IllegalArgumentException exactly for a negative arity |
| MarkerEndedReduction.Before | binary-transcoders/src/main/kotlin/com/kamelia/sprinkler/transcoder/binary/decoder/core/MarkerEndedReductionDecoder.kt:67-81 | the leading Done values that do not stop; the element after them, if Done, stops |
| MarkerEndedReduction.MarkerRunSpec | binary-transcoders/src/main/kotlin/com/kamelia/sprinkler/transcoder/binary/decoder/core/MarkerEndedReductionDecoder.kt:64-86 | elements accumulate in order until `shouldStop`; the call is then Done, with the stopping element included exactly when `keepLast`; a non-Done nested state is returned and the elements so far are kept |
| MarkerEndedReduction.MarkerRunResumes | binary-transcoders/src/main/kotlin/com/kamelia/sprinkler/transcoder/binary/decoder/core/MarkerEndedReductionDecoder.kt:83 | splitting the nested decoder's states over several calls gives the same result as one call |
| MarkerEndedReduction.MarkerEndedDecoder.constructor | binary-transcoders/src/main/kotlin/com/kamelia/sprinkler/transcoder/binary/decoder/core/MarkerEndedReductionDecoder.kt:64 | a new decoder has no collection and index 0 |
| MarkerEndedReduction.MarkerEndedDecoder.Decode | binary-transcoders/src/main/kotlin/com/kamelia/sprinkler/transcoder/binary/decoder/core/MarkerEndedReductionDecoder.kt:64-86 | `decode` returns what `MarkerRun` describes; Done clears the collection and the index, otherwise the elements so far are kept |
| MarkerEndedReduction.MarkerEndedDecoder.Reset | binary-transcoders/src/main/kotlin/com/kamelia/sprinkler/transcoder/binary/decoder/core/MarkerEndedReductionDecoder.kt:88-96 | `reset` clears the collection and the index and resets the nested decoder |
| MarkerEndedItem.SlideKeepsBytes | binary-transcoders/src/main/kotlin/com/kamelia/sprinkler/transcoder/binary/decoder/core/MarkerEndedItemDecoder.kt:37-45 | moving the window's first byte to the accumulator and appending the next input byte keeps every byte seen, in order |
| MarkerEndedItem.ScanSpec | binary-transcoders/src/main/kotlin/com/kamelia/sprinkler/transcoder/binary/decoder/core/MarkerEndedItemDecoder.kt:37-48 | the sliding loop is Done at the first occurrence of the marker at or after the window, with the bytes before it as the value and the bytes after it left unread; without one it reads everything and keeps every byte |
| MarkerEndedItem.ScanStep | binary-transcoders/src/main/kotlin/com/kamelia/sprinkler/transcoder/binary/decoder/core/MarkerEndedItemDecoder.kt:37-45 | one slide past a position where the marker does not start changes neither the bytes seen nor the first occurrence still to find |
| MarkerEndedItem.ItemRunSpec | binary-transcoders/src/main/kotlin/com/kamelia/sprinkler/transcoder/binary/decoder/core/MarkerEndedItemDecoder.kt:29-48 | a call that cannot fill the window returns Processing and keeps every byte; otherwise it ends as the sliding loop does |
| MarkerEndedItem.FillKeepsBytes | binary-transcoders/src/main/kotlin/com/kamelia/sprinkler/transcoder/binary/decoder/core/MarkerEndedItemDecoder.kt:32 | filling the window from the input keeps the bytes seen, in order |
| MarkerEndedItem.WindowFill | binary-transcoders/src/main/kotlin/com/kamelia/sprinkler/transcoder/binary/decoder/core/MarkerEndedItemDecoder.kt:32 | the window takes as many next input bytes as it lacks, or all that are left |
| MarkerEndedItem.FirstValue | binary-transcoders/src/main/kotlin/com/kamelia/sprinkler/transcoder/binary/decoder/core/MarkerEndedItemDecoder.kt:29-48 | from a fresh decoder a call is Done exactly when the marker occurs in the input, and the value is the bytes before its first occurrence |
| MarkerEndedItem.MarkerEndedItemDecoder.constructor | binary-transcoders/src/main/kotlin/com/kamelia/sprinkler/transcoder/binary/decoder/core/MarkerEndedItemDecoder.kt:23-27 | the marker is kept as an immutable copy; no accumulator and no window yet |
| MarkerEndedItem.MarkerEndedItemDecoder.Decode | binary-transcoders/src/main/kotlin/com/kamelia/sprinkler/transcoder/binary/decoder/core/MarkerEndedItemDecoder.kt:29-49 | `decode` returns what `ItemRun` describes, leaves exactly the unread bytes in the input, and after Done has reset the accumulator, the window and the index |
| MarkerEndedItem.MarkerEndedItemDecoder.FillWindow | binary-transcoders/src/main/kotlin/com/kamelia/sprinkler/transcoder/binary/decoder/core/MarkerEndedItemDecoder.kt:32 | `input.read(buffer, marker size - buffer size)` moves that many next bytes, or all that are left, into the window |
| MarkerEndedItem.MarkerEndedItemDecoder.SlideToMarker | binary-transcoders/src/main/kotlin/com/kamelia/sprinkler/transcoder/binary/decoder/core/MarkerEndedItemDecoder.kt:37-48 | the loop returns what `Scan` describes |
| MarkerEndedItem.MarkerEndedItemDecoder.BufferIsEndMarker | binary-transcoders/src/main/kotlin/com/kamelia/sprinkler/transcoder/binary/decoder/core/MarkerEndedItemDecoder.kt:61-67 | true exactly when the full window equals the marker |
| MarkerEndedItem.MarkerEndedItemDecoder.AddToArray | binary-transcoders/src/main/kotlin/com/kamelia/sprinkler/transcoder/binary/decoder/core/MarkerEndedItemDecoder.kt:69-78 | the byte is appended to the content; the accumulator is allocated with the marker's size, doubled when full, and kept otherwise, so the index never exceeds its capacity |
| MarkerEndedItem.MarkerEndedItemDecoder.Reset | binary-transcoders/src/main/kotlin/com/kamelia/sprinkler/transcoder/binary/decoder/core/MarkerEndedItemDecoder.kt:51-59 | `reset` sets the index to 0 and drops the window and the accumulator |
| MarkerEndedItem.Create | binary-transcoders/src/main/kotlin/com/kamelia/sprinkler/transcoder/binary/decoder/core/MarkerEndedItemDecoder.kt:23-25 | construction fails with IllegalArgumentException exactly for an empty marker |
| PrefixedSizeItem.FillSpec | binary-serializers/src/main/kotlin/com/kamelia/sprinkler/codec/binary/decoder/core/PrefixedSizeItemDecoder.kt:56-71 | a call consumes at most the missing bytes and is Done exactly when the input holds all of them, with the value the accumulated bytes followed by the next input bytes, n in all; otherwise everything is accumulated and Processing returned |
| PrefixedSizeItem.FillResumes | binary-serializers/src/main/kotlin/com/kamelia/sprinkler/codec/binary/decoder/core/PrefixedSizeItemDecoder.kt:56-71 | after a call that ran out of input, the next call ends as one call over all the input would |
| PrefixedSizeItem.SizedRunSize | binary-serializers/src/main/kotlin/com/kamelia/sprinkler/codec/binary/decoder/core/PrefixedSizeItemDecoder.kt:25-46 | the size is decoded only while `bytesToRead` is -1 and is the decoded `Long` under `toInt()`; a negative size gives Error without consuming input; a size state that is not Done is passed on |
| PrefixedSizeItem.SizedRunBounds | binary-serializers/src/main/kotlin/com/kamelia/sprinkler/codec/binary/decoder/core/PrefixedSizeItemDecoder.kt:57-66 | `bytesToRead` never drops below -1 and the bytes accumulated stay below it; Done holds exactly the decoded size's number of bytes and soft-resets the size field |
| PrefixedSizeItem.ReadCount | binary-serializers/src/main/kotlin/com/kamelia/sprinkler/codec/binary/decoder/core/PrefixedSizeItemDecoder.kt:59 | the count `read` returns: 0 for a zero length, -1 on an exhausted input, otherwise 1..length bytes |
| PrefixedSizeItem.ContentIndex | binary-serializers/src/main/kotlin/com/kamelia/sprinkler/codec/binary/decoder/core/PrefixedSizeItemDecoder.kt:58-60 | corrected index update: it grows by the bytes read and never passes `bytesToRead` |
| PrefixedSizeItem.AsWrittenIndexGoesBack | binary-serializers/src/main/kotlin/com/kamelia/sprinkler/codec/binary/decoder/core/PrefixedSizeItemDecoder.kt:59 | as written, a call on an exhausted input adds the -1 end marker to the index: from 0 with 2 bytes to read the index becomes -1, and the next read fails its range check |
| PrefixedSizeItem.PrefixedSizeItemDecoder.constructor | binary-serializers/src/main/kotlin/com/kamelia/sprinkler/codec/binary/decoder/core/PrefixedSizeItemDecoder.kt:16-23 | a new decoder has no array, index 0 and `bytesToRead` -1 |
| PrefixedSizeItem.PrefixedSizeItemDecoder.Decode | binary-serializers/src/main/kotlin/com/kamelia/sprinkler/codec/binary/decoder/core/PrefixedSizeItemDecoder.kt:25-54 | `decode` returns what `SizedRun` describes, with the size taken through `toInt()`, and consumes that many input bytes; the array is replaced only when none exists or it is smaller than the new size |
| PrefixedSizeItem.WideSizeTruncated | binary-serializers/src/main/kotlin/com/kamelia/sprinkler/codec/binary/decoder/core/PrefixedSizeItemDecoder.kt:37-42 | example: a decoded size of 2^32 + 3 becomes 3 under `toInt()` and reads three bytes; 2^32 - 1 becomes -1 and is refused with Error |
| PrefixedSizeItem.PrefixedSizeItemDecoder.DecodeContent | binary-serializers/src/main/kotlin/com/kamelia/sprinkler/codec/binary/decoder/core/PrefixedSizeItemDecoder.kt:56-71 | `decodeContent` returns what `Fill` describes and keeps the array |
| PrefixedSizeItem.PrefixedSizeItemDecoder.Reset | binary-serializers/src/main/kotlin/com/kamelia/sprinkler/codec/binary/decoder/core/PrefixedSizeItemDecoder.kt:73-76 | `reset` soft-resets and drops the array |
| PrefixedSizeItem.PrefixedSizeItemDecoder.SoftReset | binary-serializers/src/main/kotlin/com/kamelia/sprinkler/codec/binary/decoder/core/PrefixedSizeItemDecoder.kt:78-81 | `softReset` sets the index to 0 and `bytesToRead` to -1 and keeps the array |
| PrefixedArityReduction.PrefixedRunSize | binary-serializers/src/main/kotlin/com/kamelia/sprinkler/binary/decoder/core/PrefixedArityReductionDecoder.kt:56-69 | the size is decoded once, with -1 as sentinel; a negative size gives Error and resets the decoder and both nested decoders |
| PrefixedArityReduction.PrefixedRunElements | binary-serializers/src/main/kotlin/com/kamelia/sprinkler/binary/decoder/core/PrefixedArityReductionDecoder.kt:72-85 | once the size n is known the call collects like a constant-arity decoder; Done holds exactly n elements and returns the fields to their initial values |
| PrefixedArityReduction.PrefixedArityDecoder.constructor | binary-serializers/src/main/kotlin/com/kamelia/sprinkler/binary/decoder/core/PrefixedArityReductionDecoder.kt:45-53 | a new decoder has no collection, size -1 and index 0 |
| PrefixedArityReduction.PrefixedArityDecoder.Decode | binary-serializers/src/main/kotlin/com/kamelia/sprinkler/binary/decoder/core/PrefixedArityReductionDecoder.kt:55-86 | `decode` returns what `PrefixedRun` describes, with the decoded size taken through `toInt()`; both nested decoders are reset exactly when that size is negative |
| PrefixedArityReduction.WideSizeTruncated | binary-serializers/src/main/kotlin/com/kamelia/sprinkler/binary/decoder/core/PrefixedArityReductionDecoder.kt:59-64 | example: a decoded size of 2^32 becomes 0 under `toInt()` and gives an empty collection, and 2^32 - 1 becomes -1 and is refused with `IllegalStateException` |
| PrefixedArityReduction.PrefixedArityDecoder.CollectElements | binary-serializers/src/main/kotlin/com/kamelia/sprinkler/binary/decoder/core/PrefixedArityReductionDecoder.kt:72-80 | the element loop returns what `ArityRun` describes for the decoded size |
| PrefixedArityReduction.PrefixedArityDecoder.Reset | binary-serializers/src/main/kotlin/com/kamelia/sprinkler/binary/decoder/core/PrefixedArityReductionDecoder.kt:88-94 | `reset` clears the collection, the size and the index and resets both nested decoders |
| EncoderUtils.Output.Encode | binary-transcoders/src/main/kotlin/com/kamelia/sprinkler/transcoder/binary/encoder/EncoderUtils.kt:27-28 | encoding appends exactly the encoder's bytes for the value to the output |
| EncoderUtils.FlatAppend | binary-transcoders/src/main/kotlin/com/kamelia/sprinkler/transcoder/binary/encoder/EncoderUtils.kt:39-43 | encoding two runs of elements one after the other writes the encoding of their concatenation |
| EncoderUtils.FlatAt | binary-transcoders/src/main/kotlin/com/kamelia/sprinkler/transcoder/binary/encoder/EncoderUtils.kt:39-43 | element i is written after the elements before it and before those after it |
| EncoderUtils.FlatFixedWidth | binary-transcoders/src/main/kotlin/com/kamelia/sprinkler/transcoder/binary/encoder/EncoderUtils.kt:56-60 | with a fixed-width element encoder, n elements take n times that width |
| EncoderUtils.MappedInputFlat | binary-transcoders/src/main/kotlin/com/kamelia/sprinkler/transcoder/binary/encoder/EncoderUtils.kt:27-28 | a container of values encoded element by element with `encoder.withMappedInput(mapper)` gives the same bytes as the original encoder on the mapped values, in the same order |
| EncoderUtils.LayoutsKeepOrder | binary-transcoders/src/main/kotlin/com/kamelia/sprinkler/transcoder/binary/encoder/EncoderUtils.kt:39-60 | `toIterable` writes the elements in order then the end marker; `toCollection` writes the size then the elements in order |
| EncoderUtils.EmptyLayouts | binary-transcoders/src/main/kotlin/com/kamelia/sprinkler/transcoder/binary/encoder/EncoderUtils.kt:39-60 | an empty container writes only the end marker, or only the size 0 |
| EncoderUtils.EncodeEach | binary-transcoders/src/main/kotlin/com/kamelia/sprinkler/transcoder/binary/encoder/EncoderUtils.kt:41 | the `forEach` loop appends the encodings of the elements in order |
| EncoderUtils.EncodeWithMarker | binary-transcoders/src/main/kotlin/com/kamelia/sprinkler/transcoder/binary/encoder/EncoderUtils.kt:39-43 | `toIterable(endMarker)` and `toArray(endMarker)` append the elements then the end marker |
| EncoderUtils.EncodeWithSize | binary-transcoders/src/main/kotlin/com/kamelia/sprinkler/transcoder/binary/encoder/EncoderUtils.kt:56-60 | `toCollection(sizeEncoder)` and `toArray(sizeEncoder)` append the size then the elements |
| EncoderUtils.EncodeEntries | binary-transcoders/src/main/kotlin/com/kamelia/sprinkler/transcoder/binary/encoder/EncoderUtils.kt:104-111 | the entries loop writes each key then its value, entry by entry |
| EncoderUtils.EncodeEntriesWithSize | binary-transcoders/src/main/kotlin/com/kamelia/sprinkler/transcoder/binary/encoder/EncoderUtils.kt:104-111 | `toMap(valueEncoder, sizeEncoder)` writes the size, then key and value for each entry |
| EncoderUtils.EncodeEntriesWithMarker | binary-transcoders/src/main/kotlin/com/kamelia/sprinkler/transcoder/binary/encoder/EncoderUtils.kt:123-131 | `toMap(valueEncoder, endMarker)` writes key and value for each entry, then the marker pair |
| EncoderUtils.OptionalFlagFirst | binary-transcoders/src/main/kotlin/com/kamelia/sprinkler/transcoder/binary/encoder/EncoderUtils.kt:173-181 | the flag comes first and a present value follows it; with two distinct flags of one width, the flag alone tells null from a value |
| EncoderUtils.EncodeOptional | binary-transcoders/src/main/kotlin/com/kamelia/sprinkler/transcoder/binary/encoder/EncoderUtils.kt:173-181 | `toOptional` writes only a false flag for null, and a true flag then the value otherwise |
| Interpolations.Escaped | utils/src/main/kotlin/com/kamelia/sprinkler/util/Interpolations.kt:154-163 | exactly the letters `b t n r f` are replaced, each by a control character; every other character, quotes and backslash included, stands for itself |
| Interpolations.Interpolate | utils/src/main/kotlin/com/kamelia/sprinkler/util/Interpolations.kt:6-46 | the one-pass scan with a state and a name buffer returns exactly the interpolation defined by the recursive reading of the string (copy, escape, placeholder) |
| Interpolations.PlainCopied | utils/src/main/kotlin/com/kamelia/sprinkler/util/Interpolations.kt:13-18 | text without `{` or `\` is copied unchanged in front of the interpolation of what follows |
| Interpolations.EscapeApplied | utils/src/main/kotlin/com/kamelia/sprinkler/util/Interpolations.kt:16-25 | `\c` emits the escaped form of `c` and scanning resumes in the default state |
| Interpolations.NameCollected | utils/src/main/kotlin/com/kamelia/sprinkler/util/Interpolations.kt:27-39 | inside braces, characters other than `\`, `{`, `}` only extend the variable name |
| Interpolations.PlaceholderResolved | utils/src/main/kotlin/com/kamelia/sprinkler/util/Interpolations.kt:31-37 | `{name}` emits the resolver's value for `name` and scanning resumes; an exception of the resolver is the result of the whole interpolation |
| Interpolations.NestedBraceFails | utils/src/main/kotlin/com/kamelia/sprinkler/util/Interpolations.kt:29-30 | a `\` or `{` inside braces throws `IllegalStateException` |
| Interpolations.UnterminatedDropped | utils/src/main/kotlin/com/kamelia/sprinkler/util/Interpolations.kt:11-45 | a brace left open at the end of the string, and a trailing backslash, emit nothing and do not throw |
| Interpolations.NoBracesNoResolver | utils/src/main/kotlin/com/kamelia/sprinkler/util/Interpolations.kt:15-33 | a string without `{` interpolates the same under any two resolvers |
| Interpolations.ToIntOrNull | utils/src/main/kotlin/com/kamelia/sprinkler/util/Interpolations.kt:97 | a parsed index comes from an optional sign and a non-empty run of decimal digits, and has their value with the sign applied (a `+` keeps it) |
| Interpolations.ToIntOrNullAccepts | utils/src/main/kotlin/com/kamelia/sprinkler/util/Interpolations.kt:97 | `toIntOrNull` gives a value exactly when the text is an optional sign followed by at least one digit and the signed value lies within `Int`; it is `toLong()` narrowed to the `Int` range |
| Interpolations.ToIntOrNullRoundTrip | utils/src/main/kotlin/com/kamelia/sprinkler/util/Interpolations.kt:97 | the decimal text of every `Int` parses back to it, negatives included, and a value past `Int.MAX_VALUE` does not parse |
| Interpolations.IndexValue | utils/src/main/kotlin/com/kamelia/sprinkler/util/Interpolations.kt:95-102 | the vararg resolver succeeds exactly when the name parses to an index in bounds, returns that argument, and otherwise throws `IllegalArgumentException` |
| Interpolations.IndexResolverFindsArgument | utils/src/main/kotlin/com/kamelia/sprinkler/util/Interpolations.kt:95-102 | `{i}` resolves to the `i`-th argument, and an index past the last one throws `IllegalArgumentException` |
| Interpolations.IndexResolverRejectsName | utils/src/main/kotlin/com/kamelia/sprinkler/util/Interpolations.kt:97 | a name that is not digits after an optional sign throws `IllegalArgumentException` |
| Interpolations.IndexResolverSignedNames | utils/src/main/kotlin/com/kamelia/sprinkler/util/Interpolations.kt:97 | example: `{+1}` and `{01}` name the second argument, `{-0}` the first, and `{-1}` throws `IllegalArgumentException` |
| Interpolations.MapValue | utils/src/main/kotlin/com/kamelia/sprinkler/util/Interpolations.kt:122-125 | a mapped name gives its value, an unmapped one the fallback, and the resolver throws `IllegalArgumentException` exactly when the name is unmapped and there is no fallback |
| Interpolations.FallbackNeverThrows | utils/src/main/kotlin/com/kamelia/sprinkler/util/Interpolations.kt:122-125 | with a fallback, an interpolation over a map fails only with the `IllegalStateException` of a misplaced `\` or `{` |
| Interpolations.FallbackPlaceholder | utils/src/main/kotlin/com/kamelia/sprinkler/util/Interpolations.kt:27-41 | inside braces with a fallback, the only failure left is `IllegalStateException` |
| Interpolations.InterpolateArgs | utils/src/main/kotlin/com/kamelia/sprinkler/util/Interpolations.kt:48 | `interpolate(vararg args)` is the interpolation under the index resolver |
| Interpolations.InterpolateMap | utils/src/main/kotlin/com/kamelia/sprinkler/util/Interpolations.kt:50-51 | `interpolate(map, fallback)` is the interpolation under the map resolver, and with a fallback it can only throw `IllegalStateException` |
| Interpolations.InterpolatePairs | utils/src/main/kotlin/com/kamelia/sprinkler/util/Interpolations.kt:53-54 | `interpolate(vararg pairs, fallback)` is the interpolation under the map built from the pairs, the last pair winning for a repeated name |
| Box.ValueOf | util/src/main/kotlin/com/kamelia/sprinkler/util/Box.kt:146-151 | reading a box succeeds exactly when it is filled and then gives its content; an unfilled box throws `IllegalStateException` |
| Box.SingleWriteFirstWins | util/src/main/kotlin/com/kamelia/sprinkler/util/Box.kt:153-158 | on an empty single-write box the first of any sequence of fills wins and is the only one that returns `true`; a filled box keeps its value and rejects every fill |
| Box.RewritableLastWins | util/src/main/kotlin/com/kamelia/sprinkler/util/Box.kt:186-190 | on a rewritable box the last of a sequence of fills is the content; no fill leaves the content unchanged |
| Box.SingleWriteBox.constructor | util/src/main/kotlin/com/kamelia/sprinkler/util/Box.kt:139-143 | `singleWrite()` starts unfilled |
| Box.SingleWriteBox.Value | util/src/main/kotlin/com/kamelia/sprinkler/util/Box.kt:146-151 | `value` gives the content of a filled box and throws `IllegalStateException` on an unfilled one |
| Box.SingleWriteBox.Fill | util/src/main/kotlin/com/kamelia/sprinkler/util/Box.kt:153-158 | `fill` returns `true` exactly when the box was unfilled, leaves the box filled, and never replaces a stored value |
| Box.RewritableBox.constructor | util/src/main/kotlin/com/kamelia/sprinkler/util/Box.kt:164-167 | `rewritable()` starts unfilled |
| Box.RewritableBox.WithInitial | util/src/main/kotlin/com/kamelia/sprinkler/util/Box.kt:169-172 | `rewritable(initial)` starts filled with `initial` |
| Box.RewritableBox.Value | util/src/main/kotlin/com/kamelia/sprinkler/util/Box.kt:179-184 | `value` gives the content of a filled box and throws `IllegalStateException` on an unfilled one |
| Box.RewritableBox.Fill | util/src/main/kotlin/com/kamelia/sprinkler/util/Box.kt:186-190 | `fill` always stores the new value and returns `true` |
| Box.FixedBox.Value | util/src/main/kotlin/com/kamelia/sprinkler/util/Box.kt:129-137 | the prefilled box always gives its value and the empty box always throws `IllegalStateException` |
| CloseableScope.CloseOrder | utils/src/main/kotlin/com/kamelia/sprinkler/util/CloseableScope.kt:37-39 | the `k`-th `close()` call goes to the `k`-th closeable counted back from the last one registered |
| CloseableScope.AccumulateKeepsAll | utils/src/main/kotlin/com/kamelia/sprinkler/util/CloseableScope.kt:36-46 | no exception is lost: with an initial exception every close failure is suppressed under it in order; without one the first failure is thrown with the later ones suppressed under it |
| CloseableScope.NothingThrown | utils/src/main/kotlin/com/kamelia/sprinkler/util/CloseableScope.kt:48 | `closeAll` throws nothing exactly when there is no initial exception and no closeable fails to close |
| CloseableScope.FailuresEmpty | utils/src/main/kotlin/com/kamelia/sprinkler/util/CloseableScope.kt:38-46 | the closes produce no exception exactly when no closeable's `close()` throws |
| CloseableScope.Scope.constructor | utils/src/main/kotlin/com/kamelia/sprinkler/util/CloseableScope.kt:14 | a new scope has nothing registered and nothing closed |
| CloseableScope.Scope.Using | utils/src/main/kotlin/com/kamelia/sprinkler/util/CloseableScope.kt:23 | `using` appends the closeable to the registered ones, closes nothing, and returns the closeable itself |
| CloseableScope.Scope.UsingAll | utils/src/main/kotlin/com/kamelia/sprinkler/util/CloseableScope.kt:81 | registering the initial closeables one by one appends them all, in order |
| CloseableScope.Scope.CloseAll | utils/src/main/kotlin/com/kamelia/sprinkler/util/CloseableScope.kt:35-49 | every registered closeable is closed once, last registered first, even after a failure, and the exception thrown is the initial one, else the first failure, with the later failures suppressed in order |
| CloseableScope.ScopeOutcomeSpec | utils/src/main/kotlin/com/kamelia/sprinkler/util/CloseableScope.kt:77-89 | the block's exception is thrown with every close failure suppressed under it; without one the first close failure is thrown with the rest suppressed; without any, the block's result is returned |
| CloseableScope.RunScope | utils/src/main/kotlin/com/kamelia/sprinkler/util/CloseableScope.kt:77-89 | `closeableScope` closes the initial closeables and those the block registered, in reverse order of registration, whether the block returns or throws, and ends as `ScopeOutcomeSpec` describes |
| ReadOnly.AsReadOnly | collection/src/main/kotlin/com/kamelia/miskl/collection/readonly/ReadOnlyUtils.kt:22-25 | an `as*` factory returns a read-only receiver itself and otherwise a fresh read-only view over the receiver's own storage |
| ReadOnly.AsReadOnlyTwice | collection/src/main/kotlin/com/kamelia/miskl/collection/readonly/ReadOnlyUtils.kt:93-96 | wrapping a view again returns that same view, still over the receiver's storage |
| ReadOnly.ArrayAsReadOnlyList | collection/src/main/kotlin/com/kamelia/miskl/collection/readonly/ReadOnlyUtils.kt:114-122 | `Array.asReadOnlyList` and `readOnlyListOf` give a fresh read-only view over the array's own storage |
| ReadOnly.ToReadOnly | collection/src/main/kotlin/com/kamelia/miskl/collection/readonly/ReadOnlyUtils.kt:84 | a `to*` factory gives a fresh read-only collection over a fresh copy with the same content |
| ReadOnly.ToReadOnlySet | collection/src/main/kotlin/com/kamelia/miskl/collection/readonly/ReadOnlyUtils.kt:135 | `toReadOnlySet` gives a fresh read-only set holding exactly the elements of the source |
| ReadOnly.PairsToReadOnlyMap | collection/src/main/kotlin/com/kamelia/miskl/collection/readonly/ReadOnlyUtils.kt:179 | the map built from pairs maps each key to the value of its last pair, in a fresh read-only map |
| ReadOnly.Add | collection/src/test/java/com/kamelia/sprinkler/collection/readonly/JavaListTest.java:17 | `add` on a read-only collection throws `UnsupportedOperationException` and leaves the content as it was; on a mutable list it appends the element |
| ReadOnly.ViewAndCopy | collection/src/main/kotlin/com/kamelia/miskl/collection/readonly/ReadOnlyUtils.kt:84-96 | an element added to the receiver afterwards shows through an `asReadOnlyList` view but not through an earlier `toReadOnlyList` copy |
| Sequences.SplitJoin | i18n/src/main/kotlin/com/kamelia/sprinkler/i18n/pluralization/BuiltinPluralRule.kt:222 | `split(delimiter)` loses nothing: joining the pieces back with the delimiter gives the string |
| Sequences.SplitPiecesFree | i18n/src/main/kotlin/com/kamelia/sprinkler/i18n/pluralization/BuiltinPluralRule.kt:222 | no piece of a split contains the delimiter |
| Sequences.PairsLastWins | utils/src/main/kotlin/com/kamelia/sprinkler/util/Interpolations.kt:54 | `toMap()` on pairs maps a key to the value of its last pair |
| BuiltinPluralRule.PluralNamed | i18n/src/main/kotlin/com/kamelia/sprinkler/i18n/pluralization/BuiltinPluralRule.kt:226 | `Plural.valueOf(name.uppercase())` fails only with `IllegalArgumentException` |
| BuiltinPluralRule.PluralNameRoundTrip | i18n/src/main/kotlin/com/kamelia/sprinkler/i18n/pluralization/BuiltinPluralRule.kt:226 | every category's lower-case name, and its upper-case form, parses back to that category |
| BuiltinPluralRule.ParseConversion | i18n/src/main/kotlin/com/kamelia/sprinkler/i18n/pluralization/BuiltinPluralRule.kt:305-310 | an unknown variable letter fails with `AssertionError` |
| BuiltinPluralRule.ConversionRoundTrip | i18n/src/main/kotlin/com/kamelia/sprinkler/i18n/pluralization/BuiltinPluralRule.kt:305-310 | each variable letter parses back to its variable, and a part fails exactly when its upper-case form is none of `N E I F V` |
| BuiltinPluralRule.ParseAllSpec | i18n/src/main/kotlin/com/kamelia/sprinkler/i18n/pluralization/BuiltinPluralRule.kt:243-258 | mapping a parser over the pieces succeeds exactly when every piece parses, giving their results in order, and otherwise fails with a failing piece's exception |
| BuiltinPluralRule.ParseSimpleEquality | i18n/src/main/kotlin/com/kamelia/sprinkler/i18n/pluralization/BuiltinPluralRule.kt:265-293 | `l=r` parses to an equality between variable `l` and the single value `r`, or fails with `AssertionError` when `l` is no variable |
| BuiltinPluralRule.ParseSimpleDifference | i18n/src/main/kotlin/com/kamelia/sprinkler/i18n/pluralization/BuiltinPluralRule.kt:265-293 | `l!=r` parses to the negated comparison between variable `l` and the single value `r`, or fails with `AssertionError` |
| BuiltinPluralRule.Wrapped | i18n/src/main/kotlin/com/kamelia/sprinkler/i18n/pluralization/BuiltinPluralRule.kt:194-196 | the catch wraps every `Exception` in `IllegalArgumentException`, while an `AssertionError`, not being an `Exception`, passes through unchanged |
| BuiltinPluralRule.LoadedProvider | i18n/src/main/kotlin/com/kamelia/sprinkler/i18n/pluralization/BuiltinPluralRule.kt:188-197 | loading the rules fails only with `IllegalArgumentException` or `AssertionError` |
| BuiltinPluralRule.LoadedProviderSpec | i18n/src/main/kotlin/com/kamelia/sprinkler/i18n/pluralization/BuiltinPluralRule.kt:188-197 | a provider is built exactly when the text has a `;` and both rules parse, and holds those two rules; without `;` the text is refused with `IllegalArgumentException`; a failing rule's exception is wrapped, cardinal first |
| BuiltinPluralRule.SpecialRules | i18n/src/main/kotlin/com/kamelia/sprinkler/i18n/pluralization/BuiltinPluralRule.kt:199-219 | the empty rule throws `UnsupportedOperationException` whatever the count, and `*` gives `OTHER` for every count |
| BuiltinPluralRule.Convert | i18n/src/main/kotlin/com/kamelia/sprinkler/i18n/pluralization/BuiltinPluralRule.kt:311-328 | on an integer count, `n` and `i` are the count and `e`, `f`, `v` are zero |
| BuiltinPluralRule.EvalLeftModulo | i18n/src/main/kotlin/com/kamelia/sprinkler/i18n/pluralization/BuiltinPluralRule.kt:294-299 | `%` is `Long`'s truncating remainder: a zero modulo throws `ArithmeticException`, and otherwise the result has the variable's sign is smaller than the modulo in absolute value, and differs from the variable by a multiple of the modulo, which fixes it (`-13 % 10` is `-3`) |
| BuiltinPluralRule.EvalRightAny | i18n/src/main/kotlin/com/kamelia/sprinkler/i18n/pluralization/BuiltinPluralRule.kt:340-359 | an enumeration matches exactly when one of its values or inclusive ranges matches |
| BuiltinPluralRule.DifferentNegates | i18n/src/main/kotlin/com/kamelia/sprinkler/i18n/pluralization/BuiltinPluralRule.kt:265-283 | `!=` is the negation of `=` on the same sides, and the two fail alike |
| BuiltinPluralRule.EvalAndAll | i18n/src/main/kotlin/com/kamelia/sprinkler/i18n/pluralization/BuiltinPluralRule.kt:255-263 | when no comparison throws, `&&` holds exactly when every comparison holds |
| BuiltinPluralRule.EvalOrAny | i18n/src/main/kotlin/com/kamelia/sprinkler/i18n/pluralization/BuiltinPluralRule.kt:242-253 | when no conjunction throws, `||` holds exactly when some conjunction holds |
| BuiltinPluralRule.FirstMatchWins | i18n/src/main/kotlin/com/kamelia/sprinkler/i18n/pluralization/BuiltinPluralRule.kt:230-236 | the first `//` part whose condition holds gives the category, whatever the later parts do |
| BuiltinPluralRule.NoMatchIsOther | i18n/src/main/kotlin/com/kamelia/sprinkler/i18n/pluralization/BuiltinPluralRule.kt:230-236 | when no part's condition holds the category is `OTHER` |
| BuiltinPluralRule.ParseAndPair | i18n/src/main/kotlin/com/kamelia/sprinkler/i18n/pluralization/BuiltinPluralRule.kt:254-257 | a conjunction that splits at `&&` into two comparisons parses into both comparisons, in order |
| BuiltinPluralRule.ParseRulePartOf | i18n/src/main/kotlin/com/kamelia/sprinkler/i18n/pluralization/BuiltinPluralRule.kt:224-226 | a part `name:condition` whose condition and category name both parse gives the pair of the two |
| BuiltinPluralRule.EnglishComparisonsParse | i18n/src/main/kotlin/com/kamelia/sprinkler/i18n/pluralization/BuiltinPluralRule.kt:265-293 | example: `i=1` and `v=0` parse to the equalities of `i` with 1 and of `v` with 0 |
| BuiltinPluralRule.EnglishAndParses | i18n/src/main/kotlin/com/kamelia/sprinkler/i18n/pluralization/BuiltinPluralRule.kt:254-262 | example: `i=1&&v=0` parses into its two comparisons, in order |
| BuiltinPluralRule.EnglishConditionParses | i18n/src/main/kotlin/com/kamelia/sprinkler/i18n/pluralization/BuiltinPluralRule.kt:242-244 | example: `i=1&&v=0`, which has no `||`, is a condition of one conjunction |
| BuiltinPluralRule.EnglishPartParses | i18n/src/main/kotlin/com/kamelia/sprinkler/i18n/pluralization/BuiltinPluralRule.kt:224-226 | example: `one:i=1&&v=0` parses to the category `one` under the condition `i = 1 and v = 0` |
| BuiltinPluralRule.EnglishRuleParses | i18n/src/main/kotlin/com/kamelia/sprinkler/i18n/pluralization/BuiltinPluralRule.kt:221-227 | example: the English cardinal rule text `one:i=1&&v=0` parses into that one part |
| BuiltinPluralRule.EnglishRuleCounts | i18n/src/main/kotlin/com/kamelia/sprinkler/i18n/pluralization/BuiltinPluralRule.kt:228-236 | example: the parsed English rule gives `one` for 1 and `other` for 0 and 2 |
| BuiltinPluralRule.EnglishCardinalCounts | i18n/src/main/kotlin/com/kamelia/sprinkler/i18n/pluralization/BuiltinPluralRule.kt:199-236 | example: the rule parsed from the text `one:i=1&&v=0` gives `one` for 1 and `other` for 0 and 2 |
| TranslatorBuilder.ReduceSpec | i18n/src/main/kotlin/com/kamelia/sprinkler/i18n/impl/TranslatorBuilder.kt:857-866 | the default reduction gives `null` exactly for a language alone; otherwise it clears the first set component among extensions, variant, country and script, keeps the rest, and lowers the specificity by one |
| TranslatorBuilder.ReductionsReachLanguage | i18n/src/main/kotlin/com/kamelia/sprinkler/i18n/impl/TranslatorBuilder.kt:813-832 | reducing again and again visits one locale per set component plus one, each the reduction of the one before, all with the same language, and ends at the language alone |
| TranslatorBuilder.EnglishExample | i18n/src/test/kotlin/com/kamelia/sprinkler/i18n/impl/TranslatorBuilderTest.kt:267-277 | example: `en-US` reduces to `en`, and `en` to `null` |
| TranslatorBuilder.AsWrittenAllowsBackslash | i18n/src/main/kotlin/com/kamelia/sprinkler/i18n/impl/TranslatorBuilder.kt:801-803 | the class built by joining the forbidden characters unescaped excludes `(`, `)` and `:` but not the backslash, which escapes the `(` |
| TranslatorBuilder.EscapedBodyMembers | i18n/src/main/kotlin/com/kamelia/sprinkler/i18n/impl/TranslatorBuilder.kt:801-803 | a class body with every character escaped excludes exactly those characters |
| TranslatorBuilder.AsWrittenAcceptsBackslashDelimiter | i18n/src/main/kotlin/com/kamelia/sprinkler/i18n/impl/TranslatorBuilder.kt:799-811 | as written, the start delimiter `\{` is accepted although it holds a backslash |
| TranslatorBuilder.InterpolationDelimiter | i18n/src/main/kotlin/com/kamelia/sprinkler/i18n/impl/TranslatorBuilder.kt:790-811 | `interpolationDelimiter` accepts a pair exactly when neither delimiter holds one of `\ ( ) :`, keeps both delimiters, and otherwise throws `IllegalStateException` |
| TranslationProcessor.ContextOf | i18n/src/main/kotlin/com/kamelia/sprinkler/i18n/TranslationProcessor.kt:81 | the context is the value of the first context argument, and there is none exactly when no argument is a context |
| TranslationProcessor.OrdinalOf | i18n/src/main/kotlin/com/kamelia/sprinkler/i18n/TranslationProcessor.kt:83 | the ordinal flag is the flag of the first ordinal argument, and `false` when there is none |
| TranslationProcessor.FirstOrdinalDecides | i18n/src/main/kotlin/com/kamelia/sprinkler/i18n/TranslationProcessor.kt:81-86 | example: of two ordinal arguments the first decides, and of two contexts the first is taken |
| TranslationProcessor.CountOf | i18n/src/main/kotlin/com/kamelia/sprinkler/i18n/TranslationProcessor.kt:86 | the count is the value of the first count argument, and there is none exactly when no argument is a count |
| TranslationProcessor.CountPlural | i18n/src/main/kotlin/com/kamelia/sprinkler/i18n/TranslationProcessor.kt:85-104 | no count gives no category; a number or a scientific count asks the ordinal or the cardinal rule as the flag says; any other count is an `AssertionError` |
| TranslationProcessor.BuildKey | i18n/src/main/kotlin/com/kamelia/sprinkler/i18n/TranslationProcessor.kt:57-79 | the builder returns exactly the actual key: the key alone without arguments, else the key, then `_context`, then `_ordinal` for an ordinal count and `_` plus the lower-case category |
| TranslationProcessor.ActualKeyShape | i18n/src/main/kotlin/com/kamelia/sprinkler/i18n/TranslationProcessor.kt:58-66 | without arguments the key is kept; the key is always a prefix of the built key; with neither context nor count nothing is added; a context comes right after the key |
| TranslationProcessor.ActualKeyPlural | i18n/src/main/kotlin/com/kamelia/sprinkler/i18n/TranslationProcessor.kt:68-76 | an ordinal count appends `_ordinal` and `_` plus the category of the ordinal rule after the context suffix; a count that is no number is an `AssertionError` |
| TranslationProcessor.ActualKeyDistinguishes | i18n/src/main/kotlin/com/kamelia/sprinkler/i18n/TranslationProcessor.kt:62-76 | for one key, different contexts give different keys, and different categories give different keys |
| TranslationProcessor.FindVariable | i18n/src/main/kotlin/com/kamelia/sprinkler/i18n/TranslationProcessor.kt:106-113 | `variable(name)` returns the first variable argument with that name, and `null` exactly when there is none |
| TranslationProcessor.Translate | i18n/src/main/kotlin/com/kamelia/sprinkler/i18n/TranslationProcessor.kt:29-55 | the loop returns exactly the recursive search: the first locale of the chain that has translations is asked with the key built under its own rules, a missing key moves on to the next reduction, and the end of the chain gives `null` |
| TranslationProcessor.TranslateSearchesReductions | i18n/src/main/kotlin/com/kamelia/sprinkler/i18n/TranslationProcessor.kt:31-44 | `translate` searches exactly the locales of the reduction chain, in order, from the given locale down to its language |
| TranslationProcessor.SearchAllFinds | i18n/src/main/kotlin/com/kamelia/sprinkler/i18n/TranslationProcessor.kt:43-50 | a value found comes from one locale of the chain and every locale before it lacks the key; when every locale lacks it the result is `null` |
| TranslationProcessor.LocaleFirst | i18n/src/main/kotlin/com/kamelia/sprinkler/i18n/TranslationProcessor.kt:41-50 | a locale holding the key answers from its own translations before any reduction is tried |
| TranslationProcessor.MissingGoesToReduction | i18n/src/main/kotlin/com/kamelia/sprinkler/i18n/TranslationProcessor.kt:38-50 | a locale without translations or without the key passes the search on to its reduction, and a language alone then gives `null` |
| TranslatorImplementation.Join | i18n/src/main/kotlin/com/kamelia/sprinkler/i18n/impl/TranslatorImpl.kt:31 | at the root the key is used as it is; under a prefix the key is the prefix, a dot, then the key |
| TranslatorImplementation.StripRootSpec | i18n/src/main/kotlin/com/kamelia/sprinkler/i18n/impl/TranslatorImpl.kt:85-94 | under a prefix, a locale's map holds `k` exactly when the translations hold `prefix.k`, with the same value; keys that only start with the prefix's characters are not kept |
| TranslatorImplementation.Translator.constructor | i18n/src/main/kotlin/com/kamelia/sprinkler/i18n/impl/TranslatorImpl.kt:12-18 | a translator holds its prefix, current locale and data |
| TranslatorImplementation.Translator.Tn | i18n/src/main/kotlin/com/kamelia/sprinkler/i18n/impl/TranslatorImpl.kt:23-40 | an invalid key is an `IllegalArgumentException`; a value found in the locale under the prefixed key or a fallback key is returned; without a fallback locale, or with one equal to the locale, nothing else is tried |
| TranslatorImplementation.Translator.T | i18n/src/main/kotlin/com/kamelia/sprinkler/i18n/impl/TranslatorImpl.kt:42-70 | an exception of `tn` passes through; when nothing is found in a locale without translations, `RETURN_KEY` returns the key and `THROW_EXCEPTION` throws `IllegalArgumentException` |
| TranslatorImplementation.Translator.Section | i18n/src/main/kotlin/com/kamelia/sprinkler/i18n/impl/TranslatorImpl.kt:72-76 | an invalid key is an `IllegalArgumentException`; otherwise a new translator rooted at the prefixed key, with the same locale and data |
| TranslatorImplementation.Translator.ToMap | i18n/src/main/kotlin/com/kamelia/sprinkler/i18n/impl/TranslatorImpl.kt:78-96 | `toMap()` has an entry for every locale with translations and no other |
| TranslatorImplementation.Translator.WithNewCurrentLocale | i18n/src/main/kotlin/com/kamelia/sprinkler/i18n/impl/TranslatorImpl.kt:98-103 | the same translator when the locale is already current, else a new one with that locale, the same prefix and data |
| TranslatorImplementation.Translator.AsRoot | i18n/src/main/kotlin/com/kamelia/sprinkler/i18n/impl/TranslatorImpl.kt:105-109 | the same translator at the root, else a new one without prefix, with the same locale and data |
| TranslatorImplementation.FirstTranslatedIsFirst | i18n/src/main/kotlin/com/kamelia/sprinkler/i18n/impl/TranslatorImpl.kt:114-129 | the key and then the fallback keys are tried in order: the value found is that of the first key with a translation, and when none has one the result is `null` |
| TranslatorImplementation.FallbackLocale | i18n/src/main/kotlin/com/kamelia/sprinkler/i18n/impl/TranslatorImpl.kt:33-39 | the fallback locale is consulted only when the locale itself gives nothing, and a fallback locale equal to the locale changes nothing |
| TranslatorImplementation.TReturnsFound | i18n/src/main/kotlin/com/kamelia/sprinkler/i18n/impl/TranslatorImpl.kt:49-50 | a value `tn` finds is what `t` returns |
| TranslatorImplementation.MissingKeyPolicy | i18n/src/main/kotlin/com/kamelia/sprinkler/i18n/impl/TranslatorImpl.kt:51-69 | when nothing is found and the locale has translations, `RETURN_KEY` returns the key built with the arguments, without the prefix, and `THROW_EXCEPTION` throws `IllegalArgumentException` |
| TranslatorImplementation.ToMapSpec | i18n/src/main/kotlin/com/kamelia/sprinkler/i18n/impl/TranslatorImpl.kt:78-96 | at the root `toMap()` gives the translations as they are; under a prefix each locale's map is the entries under the prefix, with the prefix and its dot removed |
| TranslatorImplementation.NestedSections | i18n/src/main/kotlin/com/kamelia/sprinkler/i18n/impl/TranslatorImpl.kt:72-76 | a section of a section of the root is rooted at the two keys joined by a dot, and its `tn` looks keys up under that root |
| Content.AddValue | i18n/src/main/kotlin/com/kamelia/sprinkler/i18n/impl/ContentImpl.kt:456-489 | a text without the value syntax is an `IllegalArgumentException`; under `FAIL` a present key is an `IllegalStateException`, and the value is added exactly when the key is new; `KEEP_FIRST` never changes a present value; `KEEP_LAST` always stores the new one; no other key changes |
| Content.WalkKeys | i18n/src/main/kotlin/com/kamelia/sprinkler/i18n/impl/ContentImpl.kt:428-452 | a flattening that ends without error adds exactly the leaf keys of the queue: `parent.child` for map entries and `parent.index` for list elements, at any depth |
| Content.WalkKeepsValues | i18n/src/main/kotlin/com/kamelia/sprinkler/i18n/impl/ContentImpl.kt:474-488 | under `FAIL` and `KEEP_FIRST` flattening never changes a value already present |
| Content.WalkFailDisjoint | i18n/src/main/kotlin/com/kamelia/sprinkler/i18n/impl/ContentImpl.kt:476-483 | under `FAIL` a flattening that ends without error met none of the keys already present |
| Content.WalkFailSplitDisjoint | i18n/src/main/kotlin/com/kamelia/sprinkler/i18n/impl/ContentImpl.kt:476-483 | under `FAIL` a flattening of two queues that ends without error never meets a leaf key twice, so the leaf keys of the two queues are disjoint |
| Content.WalkEntries | i18n/src/main/kotlin/com/kamelia/sprinkler/i18n/impl/ContentImpl.kt:428-452 | under `FAIL` a flattening that ends without error stores, for each leaf in the queue, the leaf's text under its `parent.child` or `parent.index` key, and keeps every earlier entry |
| Content.FlatteningExamples | i18n/src/main/kotlin/com/kamelia/sprinkler/i18n/impl/ContentImpl.kt:434-443 | example: a map holding one text under `b` puts it under `a.b`; a list of two texts puts them under `a.0` and `a.1`; in both cases the stored text is the leaf's own |
| Content.AddEntriesKeys | i18n/src/main/kotlin/com/kamelia/sprinkler/i18n/impl/ContentImpl.kt:149-175 | adding a map ends without error only when every top-level key is a valid `String` key and every value is of a supported type, and it then adds exactly the leaf keys of all the entries |
| Content.AddEntriesTexts | i18n/src/main/kotlin/com/kamelia/sprinkler/i18n/impl/ContentImpl.kt:149-175 | under `FAIL` adding a map that ends without error gives the old translations plus the text of every leaf of the map under its flattened key |
| Content.AddToMapSpec | i18n/src/main/kotlin/com/kamelia/sprinkler/i18n/impl/ContentImpl.kt:418-420 | an empty map changes nothing, not even the set of locales; otherwise only the locale's own map changes, created empty when absent, and without error it gains exactly the leaf keys of the entries; under `FAIL` the new locale map is the old one plus each leaf's text under its flattened key |
| Content.ContentBuilder.constructor | i18n/src/main/kotlin/com/kamelia/sprinkler/i18n/impl/ContentImpl.kt:35-42 | a new builder has not run, holds no content, and uses `FAIL` for duplicate keys |
| Content.ContentBuilder.File | i18n/src/main/kotlin/com/kamelia/sprinkler/i18n/impl/ContentImpl.kt:95-96 | `file` is rejected with `IllegalStateException` exactly when the builder has run |
| Content.ContentBuilder.Resource | i18n/src/main/kotlin/com/kamelia/sprinkler/i18n/impl/ContentImpl.kt:110-114 | `resource` is rejected with `IllegalStateException` once the builder has run, and otherwise with `IllegalArgumentException` exactly when the path contains `..` |
| Content.ContentBuilder.Map | i18n/src/main/kotlin/com/kamelia/sprinkler/i18n/impl/ContentImpl.kt:137-140 | `map` is rejected with `IllegalStateException` once the builder has run and then changes nothing; otherwise its effect and outcome are those of `addToMap` |
| Content.ContentBuilder.Run | i18n/src/main/kotlin/com/kamelia/sprinkler/i18n/impl/ContentImpl.kt:142-145 | `run` marks the builder as run and returns the content gathered so far |
| Content.ContentBuilder.AddEntriesTo | i18n/src/main/kotlin/com/kamelia/sprinkler/i18n/impl/ContentImpl.kt:418-454 | the loop over the entries of a map gives the outcome and the content that `AddToMap` specifies, stopping at the first invalid entry |
| Content.ContentBuilder.Flatten | i18n/src/main/kotlin/com/kamelia/sprinkler/i18n/impl/ContentImpl.kt:428-452 | the `ArrayDeque` loop over one top-level entry leaves the locale's map as the recursive walk does, and only that map changes |
| Content.ContentBuilder.PushChildren | i18n/src/main/kotlin/com/kamelia/sprinkler/i18n/impl/ContentImpl.kt:434-443 | a map pushes `key.subKey` for each entry and a list `key.index` for each element, in order, after checking each; the first invalid key or value is an `IllegalStateException` |
| Content.ContentBuilder.AddLeaf | i18n/src/main/kotlin/com/kamelia/sprinkler/i18n/impl/ContentImpl.kt:456-489 | adding a leaf changes the locale's map as `AddValue` says, and nothing when it fails |
| Content.RunThenMap | i18n/src/main/kotlin/com/kamelia/sprinkler/i18n/impl/ContentImpl.kt:137-145 | once the builder has run, `map` is rejected with `IllegalStateException` and the content returned by `run` stays as it was |
| KeyComparator.KeyCompareAsWritten | i18n/src/main/kotlin/com/kamelia/sprinkler/i18n/impl/ContentImpl.kt:266-293 | the two-iterator loop returns the first non-zero character comparison, else `1` when the first key is longer, `-1` when the second is, and `0` otherwise |
| KeyComparator.AsWrittenNotReflexive | i18n/src/main/kotlin/com/kamelia/sprinkler/i18n/impl/ContentImpl.kt:267-272 | as written, a key containing a `.` compares below itself |
| KeyComparator.AsWrittenDottedKey | i18n/src/main/kotlin/com/kamelia/sprinkler/i18n/impl/ContentImpl.kt:266-293 | as written, `compare("a.b", "a.b")` is `-1` |
| KeyComparator.CharCompare | i18n/src/main/kotlin/com/kamelia/sprinkler/i18n/impl/ContentImpl.kt:267-272 | the corrected character comparison is zero exactly for equal characters, and its sign follows an order that puts `.` below every other character |
| KeyComparator.KeyCompare | i18n/src/main/kotlin/com/kamelia/sprinkler/i18n/impl/ContentImpl.kt:274-292 | the corrected comparator's loop returns the key order that `Compare` defines |
| KeyComparator.CompareZeroIffEqual | i18n/src/test/kotlin/com/kamelia/sprinkler/i18n/impl/TranslatorBuilderTest.kt:203-207 | two keys compare equal exactly when they are the same key |
| KeyComparator.CompareAntisymmetric | i18n/src/main/kotlin/com/kamelia/sprinkler/i18n/impl/ContentImpl.kt:274-292 | swapping the keys swaps the sign of the comparison |
| KeyComparator.CompareTransitive | i18n/src/main/kotlin/com/kamelia/sprinkler/i18n/impl/ContentImpl.kt:274-292 | the key order is transitive |
| KeyComparator.DotSortsFirst | i18n/src/main/kotlin/com/kamelia/sprinkler/i18n/impl/ContentImpl.kt:267-270 | at the first position where two keys differ, a `.` makes its key the smaller |
| KeyComparator.PrefixSortsFirst | i18n/src/main/kotlin/com/kamelia/sprinkler/i18n/impl/ContentImpl.kt:285-291 | a proper prefix sorts before the key it starts |
| KeyComparator.AgreesWithoutDot | i18n/src/main/kotlin/com/kamelia/sprinkler/i18n/impl/ContentImpl.kt:267-272 | when the first key contains no `.` the comparator as written and the corrected one agree |
| Jvm.Wrap32 | binary-transcoders/src/main/kotlin/com/kamelia/sprinkler/transcoder/binary/decoder/core/DecoderInput.kt:351 | an `Int` addition gives the mathematical sum reduced modulo 2^32, and the sum itself when it fits |
| Jvm.LongToInt | binary-transcoders/src/main/kotlin/com/kamelia/sprinkler/transcoder/binary/decoder/core/DecoderInput.kt:351 | `Long.toInt()` keeps the value modulo 2^32, and the value itself when it fits in an `Int` |
| Jvm.TruncRem | i18n/src/main/kotlin/com/kamelia/sprinkler/i18n/pluralization/BuiltinPluralRule.kt:145 | `Long`'s `%` truncates toward zero: the remainder has the dividend's sign, is smaller than the divisor in absolute value, and differs from the dividend by a multiple of the divisor, which together fix it |
| Jvm.CheckFromIndexSize | binary-transcoders/src/main/kotlin/com/kamelia/sprinkler/transcoder/binary/encoder/core/EncoderOutput.kt:93 | `Objects.checkFromIndexSize` accepts exactly the ranges with non-negative start and length that end within the size, and otherwise throws `IndexOutOfBoundsException` |
| Jvm.DecimalRoundTrip | i18n/src/main/kotlin/com/kamelia/sprinkler/i18n/impl/ContentImpl.kt:442 | the decimal text of a list index reads back as that index, so different indices give different keys |
| Jvm.ParseLong | i18n/src/main/kotlin/com/kamelia/sprinkler/i18n/pluralization/BuiltinPluralRule.kt:353-354 | `toLong()` fails only with `NumberFormatException`, succeeds only on an optional sign followed by digits, and gives their value with the sign applied (a `+` keeps it) |
| Jvm.SignedDigits | i18n/src/main/kotlin/com/kamelia/sprinkler/i18n/pluralization/BuiltinPluralRule.kt:353-354 | the signed decimal text shared by `toLong()` and `toIntOrNull()`: a value exactly for an optional sign followed by at least one digit, the digits' value with the sign applied |
| Jvm.ParseLongAccepts | i18n/src/main/kotlin/com/kamelia/sprinkler/i18n/pluralization/BuiltinPluralRule.kt:353-354 | `toLong()` succeeds exactly when the text is an optional sign followed by at least one digit and the signed value lies within `Long` |
| Jvm.ParseLongRoundTrip | i18n/src/main/kotlin/com/kamelia/sprinkler/i18n/pluralization/BuiltinPluralRule.kt:353-354 | the decimal text of every value within `Long`, bare, with `+` or with `-`, reads back as that value |

## Left out

- File, resource, jar and URL loading in `ContentImpl` (`file`, `resource`, `loadPath`, `walkJar`) is filesystem and class-loader I/O. `Content.ContentBuilder.File` and `Content.ContentBuilder.Resource` model only the guards that run before the I/O.
- `DecoderInput.from(InputStream)`, `DecoderInput.from(ByteBuffer)` and the overloads `decode(InputStream)` and `decode(ByteBuffer)` are I/O adapters. Only the array source and `nullInput()` are modelled.
- `ByteArrayDecoding.ReadString`: the charset decoding of `readString` is left out, because it is a foreign `String` constructor. The model returns the byte window that would be decoded, after the documented bounds checks. The as-written guard that wraps is `ByteArrayDecoding.ReadStringAsWritten`, listed under Findings.
- `Float.byte`, `Float.bit`, `Double.byte`, `Double.bit`, `readFloat` and `readDouble` are left out. They delegate to `toRawBits()` and `fromBits`, which are floating point.
- `BuiltinPluralRule.Upper`: uppercasing and digit parsing cover ASCII only. Kotlin's `uppercase()` and `toInt()` also accept other Unicode letters and digits.
- `BuiltinPluralRule.EvalRule` evaluates rules on integer counts (`ILong`) only. `IDouble`, `ISci` and the operands they give (`i`, `v`, `w`, `f`, `t`, `e` on fractional input) are floating point.
- `BuiltinPluralRule.LoadedProvider`: loading the rule files (`loadRule`, the CSV of rules, the provider cache) is resource I/O, so the rule text is a parameter.
- `BuiltinPluralRule.Wrapped`: `catch (e: Exception)` does not catch an `AssertionError`, so an unknown conversion letter escapes unwrapped rather than as an `IllegalArgumentException`. The model follows the code here.
- Regex checks (`keyRegex`, the value format, the interpolation pattern) use `java.util.regex`. Key and value validity are the predicates `isKey` and `isValue`, which are parameters of the translator data and the content rules.
- `TranslationProcessor.Translate` returns the value it finds before variable interpolation and formatting. `VariableFormatter` and number and date formatting are left out.
- The entry order of `LinkedHashMap` and `TreeMap` is not modelled. `Content` keeps translations in a `map`, and the key order is proved separately in `KeyComparator`.
- `TranslatorImpl.kt` in this revision passes a map of options to `TranslationProcessor.translate`, while `TranslationProcessor.kt` takes argument lists. The model uses the argument lists of `TranslationProcessor.kt` on both sides.
- The messages of `keyNotFound` and of the other exceptions, and every `toString`, are left out. The model keeps the exception class only.
- `Decoder.State.ifDone` and `ifError` only run a callback and return the receiver, so they are left out.
- The iterators of the read-only views are left out, because their classes are not part of this model.
- Composed decoders and encoders (`DecodingScope`, `EncodingScope`, `ComposedDecoder`, `ComposedEncoder` and the composer steps) are left out. Decoders nested inside the modelled ones are scripted decoders, given by the states they return.
- The `ContentImpl` locale map is a value, so aliasing between the builder's map and a map it handed out is not modelled.
- `CloseableScope.usingSelf` is `using(this)` and is covered by `CloseableScope.Scope.Using`.
- TranslatorBuilder.ReductionsReachLanguage: proved for well-formed BCP 47 locales only. `Locale.Builder().setLocale(locale)` throws `IllformedLocaleException` on a locale that is not well-formed, and `Locale` rewrites a few legacy locales (Norwegian `no_NO_NY` becomes `nn_NO`), which changes the language. Neither is modelled, because the model's locale is the five components it keeps.
- TranslatorBuilder.ReduceSpec: states the reduction of a well-formed BCP 47 locale only. The `IllformedLocaleException` of `Locale.Builder` and the legacy rewriting of `no_NO_NY` are not modelled.
- TranslatorBuilder.Reduce: only the builder's default locale specialization reduction, on well-formed BCP 47 locales. A user-supplied reduction is a closure that is not part of this model.
- CloseableScope.Scope.CloseAll: exceptions are values, so their identity is not modelled. When a `close()` rethrows the very instance already being thrown, `addSuppressed` throws `IllegalArgumentException` on self-suppression, and the remaining closeables are not closed. The model suppresses it and goes on closing.
- CloseableScope.ScopeOutcomeSpec: follows `CloseableScope.Scope.CloseAll`, so the self-suppression failure is not modelled.
- CloseableScope.RunScope: follows `CloseableScope.Scope.CloseAll`, so the self-suppression failure is not modelled.
- Jvm.ParseLong: accepts ASCII digits only. Kotlin's `toLong()` also accepts the decimal digits of other Unicode scripts, which the model refuses.
- Jvm.SignedDigits: ASCII digits only, for the same reason; `Jvm.ParseLongAccepts` and `Interpolations.ToIntOrNullAccepts` state acceptance over ASCII digits.
- Interpolations.ToIntOrNull: accepts ASCII digits only. Kotlin's `toIntOrNull` also accepts the decimal digits of other Unicode scripts (Arabic-Indic digits, for example), which the model refuses.
- PrefixedArityReduction.PrefixedArityDecoder.constructor: requires the size decoder and the element decoder to be distinct objects. One decoder passed as both, which the source allows, is not modelled.
- PrefixedArityReduction.PrefixedArityDecoder.Decode: the size decoder yields a `Long`, converted with `toInt()`. A `Number` that is a `Double` or `Float`, whose `toInt()` rounds toward zero and saturates, is floating point and is left out. `Int`, `Short` and `Byte` sizes are the `Long`s of the same value.
- PrefixedSizeItem.PrefixedSizeItemDecoder.Decode: the size decoder yields a `Long`, converted with `toInt()`. A `Number` that is a `Double` or `Float` is floating point and is left out, as for `PrefixedArityReduction.PrefixedArityDecoder.Decode`.
- TranslatorBuilder.InterpolationDelimiter: the checks that `VariableDelimiter.create(start, end)` makes on its own before the forbidden-character checks are not modelled, because `VariableDelimiter` is not part of this model. The model starts from the two delimiters as given.
- TranslatorBuilder.InterpolationDelimiterAsWritten: follows `TranslatorBuilder.InterpolationDelimiter`, so `VariableDelimiter.create`'s own checks are not modelled.
- Content.WalkEntries: the stored texts are stated under `FAIL` only. Under `KEEP_FIRST` and `KEEP_LAST` the text kept for a repeated key depends on the breadth-first order of the queue; only the keys (`Content.WalkKeys`) and, for `KEEP_FIRST`, the earlier values (`Content.WalkKeepsValues`) are stated.
- Content.AddEntriesTexts: follows `Content.WalkEntries`, so the texts are stated under `FAIL` only.
- `DecoderInput.readBits(bytes, start, length)`, with `nullInput()`'s override, and the `EncoderOutput` overloads `writeBits(bytes, start)` and `writeBits(bytes)` are not modelled. They share the wrapping `bytes.size * 8` bound shown for `writeBits(bytes, start, length)`.
- `Utils.kt` and the `Locale` helpers are not part of this model.

## Findings

| source | as written | input that shows it | evidently intended | confidence | as-written member | corrected member |
|---|---|---|---|---|---|---|
| utils/src/main/kotlin/com/kamelia/sprinkler/util/ByteAccess.kt:42-48 | `Short.bit` little-endian computes the byte index as `index shl 3` | `0x0200.toShort().bit(1, LITTLE_ENDIAN)` gives 0 | bit `index % 8` of `byte(index / 8, LITTLE_ENDIAN)`, which is 1 | not executed | ByteAccess.ShortBitLittleCounterexample | ByteAccess.ShortBit |
| utils/src/main/kotlin/com/kamelia/sprinkler/util/ByteAccess.kt:75-81 | `Int.bit` little-endian computes the in-byte position as `(index - (index shr 3)) shr 3` | `0x08000000.bit(3, LITTLE_ENDIAN)` gives 0 | in-byte position `index and 7`, which gives 1 | not executed | ByteAccess.IntBitLittleCounterexample | ByteAccess.IntBit |
| utils/src/main/kotlin/com/kamelia/sprinkler/util/ByteAccess.kt:108-114 | `Long.bit` little-endian has the same in-byte position as `Int.bit` | `0x0800000000000000L.bit(3, LITTLE_ENDIAN)` gives 0 | in-byte position `index and 7`, which gives 1 | not executed | ByteAccess.LongBitLittleCounterexample | ByteAccess.LongBit |
| utils/src/main/kotlin/com/kamelia/sprinkler/util/ByteArrayDecoding.kt:33-34 | the guard `start + 1 < size` is an `Int` addition that wraps | `ByteArray(0).readShort(start = Int.MAX_VALUE)` passes the guard | `IllegalArgumentException` for every start without the bytes after it | not executed | ByteArrayDecoding.ReadGuardOverflow | ByteArrayDecoding.ReadShort |
| utils/src/main/kotlin/com/kamelia/sprinkler/util/ByteArrayDecoding.kt:152-155 | the guard `start + length <= size` of `readString` is an `Int` addition that wraps | `ByteArray(5).readString(length = Int.MAX_VALUE, start = 1)` passes the guard and throws `StringIndexOutOfBoundsException` | `IllegalArgumentException` whenever `start + length` exceeds the size, as documented | not executed | ByteArrayDecoding.ReadStringGuardOverflow | ByteArrayDecoding.ReadString |
| binary-transcoders/src/main/kotlin/com/kamelia/sprinkler/transcoder/binary/decoder/core/DecoderInput.kt:349-353 | the array input's `skip(n)` moves the cursor but keeps the pending bits of the read buffer | after `readBit()` on [0xFF, 0, 0], `skip(1)` then `read()` gives 0xFE | the bytes after the skipped ones | not executed | ArrayInput.SkipAsWrittenReadsStaleByte | ArrayInput.ByteArrayInput.Skip |
| binary-transcoders/src/main/kotlin/com/kamelia/sprinkler/transcoder/binary/encoder/core/EncoderOutput.kt:148-152 | `writeBit(bit)` ors `bit shl index` without masking the argument to its low bit | `writeBit(0)` then `writeBit(2)` sets the first bit | only the low bit of the argument is written | not executed | EncoderOutputWord.WriteBitAsWrittenCounterexample | EncoderOutput.StreamOutput.WriteBit |
| binary-transcoders/src/main/kotlin/com/kamelia/sprinkler/transcoder/binary/encoder/core/EncoderOutput.kt:175-178 | `write(bytes, start, length)` sends the bytes straight to the stream, ahead of the pending bits | `writeBit(1)` then `write([0x01])` puts 0x01 before the pending bit | the bytes come after the bits already written | not executed | EncoderOutput.WriteBytesAsWrittenReorders | EncoderOutput.StreamOutput.WriteBytes |
| binary-transcoders/src/main/kotlin/com/kamelia/sprinkler/transcoder/binary/encoder/core/EncoderOutput.kt:48-66 | `writeBits(bytes, start, length)` counts the first byte again among the whole bytes and reads the byte at `(start + length) / 8` even past the array | bits 0..8 of [0x01] write the byte twice, then throw `IndexOutOfBoundsException` | exactly the bits `start..start+length` | not executed | EncoderOutput.WriteBitsArrayAsWrittenWholeByte | EncoderOutput.StreamOutput.WriteBitsArray |
| binary-transcoders/src/main/kotlin/com/kamelia/sprinkler/transcoder/binary/encoder/core/EncoderOutput.kt:49 | the range check of `writeBits(bytes, start, length)` uses the `Int` product `byteArray.size * 8`, which wraps from 2^28 bytes on | on an array of 2^28 bytes, `writeBits(bytes, 0, 8)` throws `IndexOutOfBoundsException`; on 2^29 + 1 bytes, `writeBits(bytes, 16, 8)` throws as well | the range is checked against the array's real bit count, so both calls write their eight bits | not executed | EncoderOutput.WriteBitsArrayAsWrittenWideArray | EncoderOutput.StreamOutput.WriteBitsArray |
| binary-transcoders/src/main/kotlin/com/kamelia/sprinkler/transcoder/binary/encoder/core/EncoderOutput.kt:132 | `nullOutput().write(bytes, start, length)` skips the range check | `write(ByteArray(4), -1, 5)` returns normally | `IndexOutOfBoundsException`, as for every other output | not executed | EncoderOutput.NullWriteBytesCounterexample | EncoderOutput.NullWriteBytes |
| binary-serializers/src/main/kotlin/com/kamelia/sprinkler/codec/binary/decoder/core/PrefixedSizeItemDecoder.kt:59 | the byte count that `read` returns is added to the index even when it is the -1 end marker | exhausted input with 2 bytes to read takes the index from 0 to -1 | the index grows only by the bytes read | not executed | PrefixedSizeItem.AsWrittenIndexGoesBack | PrefixedSizeItem.ContentIndex |
| i18n/src/main/kotlin/com/kamelia/sprinkler/i18n/impl/ContentImpl.kt:267-272 | a `.` on the left compares as smaller even when the right character is also `.` | `compare("a.b", "a.b")` is -1 | 0 for equal keys, so that the comparator is a total order | not executed | KeyComparator.AsWrittenDottedKey | KeyComparator.CompareZeroIffEqual |
| i18n/src/main/kotlin/com/kamelia/sprinkler/i18n/impl/TranslatorBuilder.kt:801-803 | the forbidden characters are joined into `[^\():]` without escaping, so the backslash escapes `(` | the start delimiter `\{` is accepted | `IllegalStateException` for a delimiter holding any of `\ ( ) :` | not executed | TranslatorBuilder.AsWrittenAcceptsBackslashDelimiter | TranslatorBuilder.InterpolationDelimiter |
