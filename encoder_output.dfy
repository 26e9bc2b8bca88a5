/** The byte and bit sink of the binary encoders (`EncoderOutput`): the output built
    over an `OutputStream`, which packs bits most significant first into a pending
    byte, and the interface's default methods that write bytes and bit ranges
    through it. The meaning of the sink is the sequence of bits written so far:
    the bytes the stream received, then the pending bits. */
module EncoderOutput {
  import opened Wrappers
  import opened Jvm
  import Sequences

  /** The mask of bit `j` of a byte, counting from the most significant (j = 0):
      `1 shl (7 - j)`. */
  function Mask(j: int): bv8
    requires 0 <= j < 8
  {
    match j
    case 0 => 0x80 case 1 => 0x40 case 2 => 0x20 case 3 => 0x10
    case 4 => 0x08 case 5 => 0x04 case 6 => 0x02 case 7 => 0x01
  }

  /** Bit `j` of a byte, counting from the most significant (j = 0). */
  function BitOf(b: bv8, j: int): bool
    requires 0 <= j < 8
  {
    b & Mask(j) != 0
  }

  /** The eight bits of a byte, most significant first. */
  function ByteBits(b: bv8): seq<bool>
  {
    seq(8, j requires 0 <= j < 8 => BitOf(b, j))
  }

  function Zeros(n: nat): seq<bool>
  {
    seq(n, _ => false)
  }

  /** `byte or (1 shl (7 - k))` when `x` is set, the byte itself otherwise: how
      `writeBit` records bit `k` of the pending byte. */
  function SetBit(b: bv8, k: int, x: bool): bv8
    requires 0 <= k < 8
  {
    b | (if x then Mask(k) else 0)
  }

  /** Up to eight bits packed into a byte from the most significant end, the rest
      clear: the byte that writing these bits one by one builds. */
  function Pack(bits: seq<bool>): bv8
    requires |bits| <= 8
  {
    if bits == [] then 0 else SetBit(Pack(bits[..|bits| - 1]), |bits| - 1, bits[|bits| - 1])
  }

  /** Setting bit `k` of a byte changes bit `j` only when `k == j`. */
  lemma {:induction false} SetBitAt(a: bv8, k: int, x: bool, j: int)
    requires 0 <= k < 8 && 0 <= j < 8
    ensures BitOf(SetBit(a, k, x), j) == (BitOf(a, j) || (x && k == j))
  {
    if x {
      match k
      case 0 => case 1 => case 2 => case 3 =>
      case 4 => case 5 => case 6 => case 7 =>
    }
  }

  /** Bit `j` of a packed byte is the `j`-th bit packed, or clear past the end. */
  lemma {:induction false} PackBit(bits: seq<bool>, j: int)
    requires |bits| <= 8 && 0 <= j < 8
    ensures BitOf(Pack(bits), j) == (j < |bits| && bits[j])
    decreases |bits|
  {
    if bits != [] {
      var init := bits[..|bits| - 1];
      PackBit(init, j);
      SetBitAt(Pack(init), |bits| - 1, bits[|bits| - 1], j);
    }
  }

  /** Packing one more bit sets it in the packed byte. */
  lemma {:induction false} PackPush(p: seq<bool>, x: bool, k: int)
    requires |p| < 8 && k == |p|
    ensures Pack(p + [x]) == SetBit(Pack(p), k, x)
  {
    assert (p + [x])[..|p|] == p;
  }

  /** Reading back the eight bits of a packed byte gives the bits packed, then
      zeros: packing loses nothing. */
  lemma {:induction false} PackPadded(p: seq<bool>)
    requires |p| <= 8
    ensures ByteBits(Pack(p)) == p + Zeros(8 - |p|)
  {
    forall j | 0 <= j < 8
      ensures ByteBits(Pack(p))[j] == (p + Zeros(8 - |p|))[j]
    {
      PackBit(p, j);
    }
  }

  /** The bits of a sequence of bytes, each byte most significant bit first. */
  function Flatten(bytes: seq<bv8>): (r: seq<bool>)
    ensures |r| == 8 * |bytes|
  {
    if bytes == [] then [] else Flatten(bytes[..|bytes| - 1]) + ByteBits(bytes[|bytes| - 1])
  }

  /** Bit `j` of byte `i` sits at offset `8 * i + j`. */
  lemma {:induction false} FlattenAt(bytes: seq<bv8>, i: int, j: int)
    requires 0 <= i < |bytes| && 0 <= j < 8
    ensures Flatten(bytes)[8 * i + j] == BitOf(bytes[i], j)
    decreases |bytes|
  {
    var init := bytes[..|bytes| - 1];
    if i < |bytes| - 1 {
      FlattenAt(init, i, j);
      assert Flatten(bytes)[8 * i + j] == Flatten(init)[8 * i + j];
    }
  }

  /** Flattening one more byte appends its eight bits. */
  lemma {:induction false} FlattenPush(s: seq<bv8>, b: bv8)
    ensures Flatten(s + [b]) == Flatten(s) + ByteBits(b)
  {
    assert (s + [b])[..|s|] == s;
  }

  /** A slice grows by one element at its end. */
  lemma {:induction false} SlicePush<T>(s: seq<T>, i: int, j: int)
    requires 0 <= i <= j < |s|
    ensures s[i..j + 1] == s[i..j] + [s[j]]
  {
    forall k | 0 <= k < j + 1 - i
      ensures s[i..j + 1][k] == (s[i..j] + [s[j]])[k]
    {
    }
  }

  /** Flattening distributes over concatenation. */
  lemma {:induction false} FlattenAppend(s: seq<bv8>, t: seq<bv8>)
    ensures Flatten(s + t) == Flatten(s) + Flatten(t)
    decreases |t|
  {
    if t == [] {
      assert s + t == s;
    } else {
      var init := t[..|t| - 1];
      FlattenAppend(s, init);
      assert (s + t)[..|s + t| - 1] == s + init;
    }
  }

  /** `EncoderOutput.from(OutputStream)`: the bytes the stream has received, the
      pending byte and the number of bits in it. */
  class StreamOutput {
    var output: seq<bv8>
    var currentByte: bv8
    var currentBitIndex: int
    /** The bits written since the last byte was emitted, oldest first. */
    ghost var pending: seq<bool>

    /** Between calls fewer than eight bits are pending, packed in `currentByte`. */
    ghost predicate Valid()
      reads this
    {
      0 <= currentBitIndex < 8 && |pending| == currentBitIndex && currentByte == Pack(pending)
    }

    /** Every bit written so far: the bytes emitted, then the pending bits. */
    ghost function Bits(): seq<bool>
      reads this
    {
      Flatten(output) + pending
    }

    constructor()
      ensures Valid() && output == [] && Bits() == []
    {
      output := [];
      currentByte := 0;
      currentBitIndex := 0;
      pending := [];
    }

    /** `flush()`: emits the pending byte, padded with zero bits, and clears it;
        nothing when no bit is pending. Also reached from `writeBit` with eight
        bits pending, which is why eight is admitted on entry. */
    method Flush()
      requires 0 <= currentBitIndex <= 8 && |pending| == currentBitIndex
      requires currentByte == Pack(pending)
      modifies this
      ensures Valid() && currentBitIndex == 0
      ensures old(currentBitIndex) == 0 ==> output == old(output)
      ensures old(currentBitIndex) != 0 ==> output == old(output) + [old(currentByte)]
      ensures Bits() == old(Bits()) + Zeros(if old(currentBitIndex) == 0 then 0 else 8 - old(currentBitIndex))
    {
      if currentBitIndex == 0 {
        return;
      }
      FlattenAppend(output, [currentByte]);
      PackPadded(pending);
      output := output + [currentByte];
      currentByte := 0;
      currentBitIndex := 0;
      pending := [];
    }

    /** The first two statements of `writeBit`: the bit, already reduced to a
        boolean, is or-ed into `currentByte` at position `7 - currentBitIndex`
        and the index advances, possibly to eight. */
    method Accumulate(x: bool)
      requires Valid()
      modifies this
      ensures currentBitIndex == old(currentBitIndex) + 1 && pending == old(pending) + [x]
      ensures currentByte == Pack(pending) && output == old(output)
    {
      PackPush(pending, x, currentBitIndex);
      currentByte := SetBit(currentByte, currentBitIndex, x);
      pending := pending + [x];
      currentBitIndex := currentBitIndex + 1;
    }

    /** `tryFlush()`: emits the pending byte once it holds eight bits. */
    method TryFlush()
      requires 0 < currentBitIndex <= 8 && |pending| == currentBitIndex
      requires currentByte == Pack(pending)
      modifies this
      ensures Valid() && Bits() == old(Bits())
      ensures old(currentBitIndex) < 8 ==> output == old(output) && currentBitIndex == old(currentBitIndex)
      ensures old(currentBitIndex) == 8 ==> output == old(output) + [old(currentByte)] && currentBitIndex == 0
    {
      if currentBitIndex == 8 {
        Flush();
        assert Zeros(0) == [];
      }
    }

    /** `writeBit(bit)`, corrected to keep only the low bit of `bit` (see
        `WriteBitAsWritten`): the bit joins the pending byte, which is emitted as
        soon as it holds eight bits, and not before. */
    method WriteBit(bit: Int32)
      requires Valid()
      modifies this
      ensures Valid()
      ensures Bits() == old(Bits()) + [bit % 2 == 1]
      ensures currentBitIndex == if old(currentBitIndex) == 7 then 0 else old(currentBitIndex) + 1
      ensures old(currentBitIndex) < 7 ==> output == old(output)
    {
      Accumulate(bit % 2 == 1);
      TryFlush();
    }

    /** `write(byte)`: straight to the stream when no bit is pending, otherwise
        through the interface's default. Either way the byte's bits follow those
        already written and exactly one byte is emitted. */
    method Write(byte: bv8)
      requires Valid()
      modifies this
      ensures Valid()
      ensures Bits() == old(Bits()) + ByteBits(byte)
      ensures currentBitIndex == old(currentBitIndex)
      ensures |output| == |old(output)| + 1
      ensures old(currentBitIndex) == 0 ==> output == old(output) + [byte]
    {
      if currentBitIndex == 0 {
        FlattenAppend(output, [byte]);
        output := output + [byte];
        return;
      }
      WriteBitwise(byte);
    }

    /** The interface's default `write(byte)`: the eight bits of `byte`, most
        significant first, through `writeBit`. */
    method WriteBitwise(byte: bv8)
      requires Valid()
      modifies this
      ensures Valid()
      ensures Bits() == old(Bits()) + ByteBits(byte)
      ensures currentBitIndex == old(currentBitIndex)
      ensures |output| == |old(output)| + 1
    {
      var bits := ByteBits(byte);
      var i := 0;
      while i < 8
        invariant 0 <= i <= 8 && Valid()
        invariant Bits() == old(Bits()) + bits[..i]
        invariant currentBitIndex ==
          if old(currentBitIndex) + i < 8 then old(currentBitIndex) + i else old(currentBitIndex) + i - 8
      {
        WriteBit(if bits[i] then 1 else 0);
        AppendStep(old(Bits()), bits, i);
        i := i + 1;
      }
    }

    /** `writeBits(byte, start, length)`: the `length` bits of `byte` from offset
        `start`, counted from the most significant bit, after checking that the
        range lies in the byte. Only the low eight bits of the argument are read. */
    method WriteBits(byte: bv8, start: Int32, length: Int32) returns (r: Result<()>)
      requires Valid()
      modifies this
      ensures Valid()
      ensures r.Ok? <==> 0 <= start && 0 <= length && start + length <= 8
      ensures r.Ok? ==> Bits() == old(Bits()) + ByteBits(byte)[start..start + length]
      ensures r.Err? ==> r.error == IndexOutOfBounds && Bits() == old(Bits()) && output == old(output)
    {
      r := CheckFromIndexSize(start, length, 8);
      if r.Err? {
        return;
      }
      var bits := ByteBits(byte)[start..start + length];
      var i := 0;
      while i < length
        invariant 0 <= i <= length && Valid()
        invariant Bits() == old(Bits()) + bits[..i]
      {
        WriteBit(if bits[i] then 1 else 0);
        AppendStep(old(Bits()), bits, i);
        i := i + 1;
      }
      assert bits[..length] == bits;
    }

    /** `write(bytes, start, length)` as the interface defines it, which is how the
        stream output is meant to behave (see `WriteBytesAsWritten`): after the
        range check, the bytes one by one through `write(byte)`. */
    method WriteBytes(bytes: seq<bv8>, start: Int32, length: Int32) returns (r: Result<()>)
      requires Valid()
      modifies this
      ensures Valid()
      ensures r.Ok? <==> 0 <= start && 0 <= length && start + length <= |bytes|
      ensures r.Ok? ==> Bits() == old(Bits()) + Flatten(bytes[start..start + length])
      ensures r.Err? ==> r.error == IndexOutOfBounds && Bits() == old(Bits()) && output == old(output)
    {
      r := CheckFromIndexSize(start, length, |bytes|);
      if r.Err? {
        return;
      }
      WriteRange(bytes, start, start + length);
    }

    /** The loop of `write(bytes, start, length)`: `write(byte)` for each index
        from `start` up to `end`. */
    method WriteRange(bytes: seq<bv8>, start: int, end: int)
      requires Valid() && 0 <= start <= end <= |bytes|
      modifies this
      ensures Valid() && Bits() == old(Bits()) + Flatten(bytes[start..end])
    {
      var index := start;
      while index < end
        invariant start <= index <= end && Valid()
        invariant Bits() == old(Bits()) + Flatten(bytes[start..index])
      {
        ghost var done := bytes[start..index];
        var byte := bytes[index];
        Write(byte);
        FlattenPush(done, byte);
        Sequences.Assoc(old(Bits()), Flatten(done), ByteBits(byte));
        SlicePush(bytes, start, index);
        index := index + 1;
      }
    }

    /** `write(bytes, start, length)` of the stream output as written: after the
        range check the bytes go straight to the stream, ahead of the pending bits. */
    method WriteBytesAsWritten(bytes: seq<bv8>, start: Int32, length: Int32) returns (r: Result<()>)
      requires Valid()
      modifies this
      ensures Valid()
      ensures r.Ok? <==> 0 <= start && 0 <= length && start + length <= |bytes|
      ensures r.Ok? ==> Bits() == Flatten(old(output)) + Flatten(bytes[start..start + length]) + old(pending)
      ensures r.Err? ==> r.error == IndexOutOfBounds && Bits() == old(Bits()) && output == old(output)
    {
      r := CheckFromIndexSize(start, length, |bytes|);
      if r.Err? {
        return;
      }
      FlattenAppend(output, bytes[start..start + length]);
      output := output + bytes[start..start + length];
    }

    /** `writeBits(bytes, start, length)`, corrected (see `WriteBitsArrayAsWritten`):
        the same three phases, a partial first byte, whole bytes, a partial last
        byte, with each phase's extent as `Split` computes it. */
    method WriteBitsArray(bytes: seq<bv8>, start: Int32, length: Int32) returns (r: Result<()>)
      requires Valid()
      modifies this
      ensures Valid()
      ensures r.Ok? <==> 0 <= start && 0 <= length && start + length <= 8 * |bytes|
      ensures r.Ok? ==> Bits() == old(Bits()) + Flatten(bytes)[start..start + length]
      ensures r.Err? ==> r.error == IndexOutOfBounds && Bits() == old(Bits()) && output == old(output)
    {
      r := CheckFromIndexSize(start, length, 8 * |bytes|);
      if r.Err? {
        return;
      }
      WritePhases(bytes, start, length, start + length);
    }

    /** The three phases of `writeBits(bytes, start, length)` on a range already
        checked to lie in the array. */
    method WritePhases(bytes: seq<bv8>, start: Int32, length: Int32, end: int)
      requires Valid() && 0 <= start && 0 <= length && end == start + length && end <= 8 * |bytes|
      modifies this
      ensures Valid() && Bits() == old(Bits()) + Flatten(bytes)[start..end]
    {
      var s := Split(start, length);
      RangeSplit(bytes, start, length, end, s);
      ghost var full := Flatten(bytes[s.fullStart..s.fullStart + s.fullBytes]);
      WritePrefix(bytes, s);
      ghost var afterPrefix := Bits();
      var _ := WriteBytes(bytes, s.fullStart, s.fullBytes);
      assert Bits() == afterPrefix + full;
      WriteSuffix(bytes, s);
      Assoc3(old(Bits()), PrefixOf(bytes, s), full, SuffixOf(bytes, s));
    }

    /** The first phase of `writeBits(bytes, start, length)`: the bits of the
        first byte from the offset of `start`, when that offset is not zero. */
    method WritePrefix(bytes: seq<bv8>, s: Phases)
      requires Valid() && PhasesIn(bytes, s)
      modifies this
      ensures Valid() && Bits() == old(Bits()) + PrefixOf(bytes, s)
    {
      if s.prefixOffset != 0 {
        var _ := WriteBits(bytes[s.actualStart], s.prefixOffset, s.fromPrefix);
      } else {
        assert old(Bits()) + [] == old(Bits());
      }
    }

    /** The last phase of `writeBits(bytes, start, length)`: the leading bits of
        the byte after the whole bytes, when any are left. */
    method WriteSuffix(bytes: seq<bv8>, s: Phases)
      requires Valid() && PhasesIn(bytes, s)
      modifies this
      ensures Valid() && Bits() == old(Bits()) + SuffixOf(bytes, s)
    {
      if s.suffix != 0 {
        var _ := WriteBits(bytes[s.fullStart + s.fullBytes], 0, s.suffix);
        assert ByteBits(bytes[s.fullStart + s.fullBytes])[0..s.suffix] == SuffixOf(bytes, s);
      } else {
        assert old(Bits()) + [] == old(Bits());
      }
    }
  }

  /** `s + bits[..i]` followed by `bits[i]`. */
  lemma {:induction false} AppendStep(s: seq<bool>, bits: seq<bool>, i: int)
    requires 0 <= i < |bits|
    ensures s + bits[..i] + [bits[i]] == s + bits[..i + 1]
  {
    assert bits[..i + 1] == bits[..i] + [bits[i]];
  }

  /** Bytes `i` to `j` flattened are bits `8 * i` to `8 * j` of the whole. */
  lemma {:induction false} FlattenSlice(bytes: seq<bv8>, i: int, j: int)
    requires 0 <= i <= j <= |bytes|
    ensures Flatten(bytes[i..j]) == Flatten(bytes)[8 * i..8 * j]
  {
    var pre, mid, post := bytes[..i], bytes[i..j], bytes[j..];
    SplitThree(bytes, i, j);
    FlattenThree(pre, mid, post);
    MiddleOfThree(Flatten(pre), Flatten(mid), Flatten(post), 8 * i, 8 * j);
  }

  lemma {:induction false} FlattenThree(a: seq<bv8>, b: seq<bv8>, c: seq<bv8>)
    ensures Flatten(a + b + c) == Flatten(a) + Flatten(b) + Flatten(c)
  {
    FlattenAppend(a + b, c);
    FlattenAppend(a, b);
  }

  lemma {:induction false} SplitThree<T>(s: seq<T>, i: int, j: int)
    requires 0 <= i <= j <= |s|
    ensures s == s[..i] + s[i..j] + s[j..]
  {
  }

  lemma {:induction false} MiddleOfThree<T>(a: seq<T>, b: seq<T>, c: seq<T>, from: int, to: int)
    requires from == |a| && to == |a| + |b|
    ensures (a + b + c)[from..to] == b
  {
  }

  /** How the corrected `writeBits(bytes, start, length)` splits a bit range: the
      byte holding bit `start` and the offset in it, the bits taken from that byte
      when the range does not start on a byte boundary, then the whole bytes and
      the bits left for the byte after them. */
  datatype Phases = Phases(actualStart: int, prefixOffset: int, fromPrefix: int,
                           fullStart: int, fullBytes: int, suffix: int)

  function Split(start: nat, length: nat): (s: Phases)
    ensures 8 * s.actualStart + s.prefixOffset == start && 0 <= s.prefixOffset < 8
    ensures s.fromPrefix + 8 * s.fullBytes + s.suffix == length
    ensures s.prefixOffset == 0 ==> s.fromPrefix == 0 && s.fullStart == s.actualStart
    ensures s.prefixOffset != 0 ==> s.prefixOffset + s.fromPrefix <= 8 && s.fullStart == s.actualStart + 1
    ensures s.prefixOffset != 0 && s.fromPrefix < length ==> s.prefixOffset + s.fromPrefix == 8
    ensures 0 <= s.fromPrefix && 0 <= s.fullBytes && 0 <= s.suffix < 8
  {
    var actualStart := start / 8;
    var prefixOffset := start % 8;
    var fromPrefix := if prefixOffset == 0 then 0 else Min(8 - prefixOffset, length);
    Phases(actualStart, prefixOffset, fromPrefix,
           if prefixOffset == 0 then actualStart else actualStart + 1,
           (length - fromPrefix) / 8, (length - fromPrefix) % 8)
  }

  /** The phases stay inside the array. */
  predicate PhasesIn(bytes: seq<bv8>, s: Phases)
  {
    0 <= s.prefixOffset < 8 && 0 <= s.fromPrefix && 0 <= s.suffix < 8
    && (s.prefixOffset != 0 ==> 0 <= s.actualStart < |bytes| && s.prefixOffset + s.fromPrefix <= 8)
    && 0 <= s.fullStart && 0 <= s.fullBytes && s.fullStart + s.fullBytes <= |bytes|
    && (s.suffix != 0 ==> s.fullStart + s.fullBytes < |bytes|)
  }

  /** The bits the first phase writes. */
  function PrefixOf(bytes: seq<bv8>, s: Phases): seq<bool>
    requires PhasesIn(bytes, s)
  {
    if s.prefixOffset != 0 then ByteBits(bytes[s.actualStart])[s.prefixOffset..s.prefixOffset + s.fromPrefix] else []
  }

  /** The bits the last phase writes. */
  function SuffixOf(bytes: seq<bv8>, s: Phases): seq<bool>
    requires PhasesIn(bytes, s)
  {
    if s.suffix != 0 then ByteBits(bytes[s.fullStart + s.fullBytes])[..s.suffix] else []
  }

  /** Phases `s` of a bit range as `Split` describes them cover exactly the bits of
      the range, in order, and read only bytes of the array. */
  lemma {:induction false} RangeSplit(bytes: seq<bv8>, start: nat, length: nat, end: int, s: Phases)
    requires start + length <= 8 * |bytes| && end == start + length
    requires 8 * s.actualStart + s.prefixOffset == start && 0 <= s.prefixOffset < 8
    requires s.fromPrefix + 8 * s.fullBytes + s.suffix == length
    requires s.prefixOffset == 0 ==> s.fromPrefix == 0 && s.fullStart == s.actualStart
    requires s.prefixOffset != 0 ==> s.prefixOffset + s.fromPrefix <= 8 && s.fullStart == s.actualStart + 1
    requires s.prefixOffset != 0 && s.fromPrefix < length ==> s.prefixOffset + s.fromPrefix == 8
    requires 0 <= s.fromPrefix && 0 <= s.fullBytes && 0 <= s.suffix < 8
    ensures PhasesIn(bytes, s)
    ensures Flatten(bytes)[start..end] ==
      PrefixOf(bytes, s) + Flatten(bytes[s.fullStart..s.fullStart + s.fullBytes]) + SuffixOf(bytes, s)
  {
    var mid := start + s.fromPrefix;
    var fullEnd := if s.fromPrefix == length then mid else 8 * (s.fullStart + s.fullBytes);
    PrefixPart(bytes, s, start, mid);
    FullPart(bytes, s, mid, fullEnd);
    SuffixPart(bytes, s, fullEnd, end);
    Concat(Flatten(bytes), start, mid, fullEnd, end,
      PrefixOf(bytes, s), Flatten(bytes[s.fullStart..s.fullStart + s.fullBytes]), SuffixOf(bytes, s));
  }

  /** The first phase: the bits taken from the byte holding bit `start`, if any. */
  lemma {:induction false} PrefixPart(bytes: seq<bv8>, s: Phases, start: int, mid: int)
    requires 0 <= s.actualStart && 0 <= s.prefixOffset && 0 <= s.fromPrefix && s.prefixOffset + s.fromPrefix <= 8
    requires 8 * s.actualStart + s.prefixOffset == start && mid == start + s.fromPrefix && mid <= 8 * |bytes|
    requires s.prefixOffset == 0 ==> s.fromPrefix == 0
    ensures s.prefixOffset != 0 ==> s.actualStart < |bytes|
    ensures Flatten(bytes)[start..mid] ==
      if s.prefixOffset != 0 then ByteBits(bytes[s.actualStart])[s.prefixOffset..s.prefixOffset + s.fromPrefix] else []
  {
    if s.prefixOffset != 0 {
      BytePart(bytes, s.actualStart, s.prefixOffset, s.prefixOffset + s.fromPrefix, start, mid);
    } else {
      EmptySlice(Flatten(bytes), start, mid);
    }
  }

  /** Bits `offset` to `stop` of byte `i` sit at `from` to `to` in the whole. */
  lemma {:induction false} BytePart(bytes: seq<bv8>, i: int, offset: int, stop: int, from: int, to: int)
    requires 0 <= i && 0 <= offset <= stop <= 8 && from == 8 * i + offset && to == 8 * i + stop
    requires to <= 8 * |bytes| && (offset < stop || 0 < offset)
    ensures i < |bytes| && Flatten(bytes)[from..to] == ByteBits(bytes[i])[offset..stop]
  {
    FlattenByte(bytes, i);
    BitsOfByte(Flatten(bytes), ByteBits(bytes[i]), i, offset, stop, from, to);
  }

  /** The second phase: the whole bytes. */
  lemma {:induction false} FullPart(bytes: seq<bv8>, s: Phases, mid: int, fullEnd: int)
    requires 0 <= s.fullStart && 0 <= s.fullBytes && s.fullStart + s.fullBytes <= |bytes|
    requires (s.fullBytes == 0 && 0 <= mid == fullEnd <= 8 * |bytes|)
      || (mid == 8 * s.fullStart && fullEnd == 8 * (s.fullStart + s.fullBytes))
    ensures Flatten(bytes)[mid..fullEnd] == Flatten(bytes[s.fullStart..s.fullStart + s.fullBytes])
  {
    if mid == 8 * s.fullStart && fullEnd == 8 * (s.fullStart + s.fullBytes) {
      FlattenSlice(bytes, s.fullStart, s.fullStart + s.fullBytes);
    } else {
      assert bytes[s.fullStart..s.fullStart + s.fullBytes] == [];
    }
  }

  /** The third phase: the leading bits of the byte after the whole bytes, if any. */
  lemma {:induction false} SuffixPart(bytes: seq<bv8>, s: Phases, fullEnd: int, end: int)
    requires 0 <= s.fullStart + s.fullBytes && 0 <= s.suffix < 8 && 0 <= fullEnd <= end <= 8 * |bytes|
    requires s.suffix == 0 ==> fullEnd == end
    requires s.suffix != 0 ==> fullEnd == 8 * (s.fullStart + s.fullBytes) && end == fullEnd + s.suffix
    ensures s.suffix != 0 ==> s.fullStart + s.fullBytes < |bytes|
    ensures Flatten(bytes)[fullEnd..end] ==
      if s.suffix != 0 then ByteBits(bytes[s.fullStart + s.fullBytes])[..s.suffix] else []
  {
    if s.suffix != 0 {
      var i := s.fullStart + s.fullBytes;
      BytePart(bytes, i, 0, s.suffix, fullEnd, end);
      assert ByteBits(bytes[i])[0..s.suffix] == ByteBits(bytes[i])[..s.suffix];
    } else {
      EmptySlice(Flatten(bytes), fullEnd, end);
    }
  }

  lemma {:induction false} BitsOfByte(all: seq<bool>, bits: seq<bool>, i: int, offset: int, stop: int, from: int, to: int)
    requires 0 <= i && 0 <= offset <= stop <= 8 && 8 * i + 8 <= |all|
    requires bits == all[8 * i..8 * i + 8] && from == 8 * i + offset && to == 8 * i + stop
    ensures all[from..to] == bits[offset..stop]
  {
    SubSlice(all, 8 * i, 8 * i + 8, offset, stop, from, to);
  }

  lemma {:induction false} EmptySlice<T>(s: seq<T>, from: int, to: int)
    requires 0 <= from == to <= |s|
    ensures s[from..to] == []
  {
  }

  lemma {:induction false} Concat(all: seq<bool>, a: int, b: int, c: int, d: int, x: seq<bool>, y: seq<bool>, z: seq<bool>)
    requires 0 <= a <= b <= c <= d <= |all|
    requires all[a..b] == x && all[b..c] == y && all[c..d] == z
    ensures all[a..d] == x + y + z
  {
    ThreeSlices(all, a, b, c, d);
  }

  lemma {:induction false} Assoc3<T>(a: seq<T>, x: seq<T>, y: seq<T>, z: seq<T>)
    ensures a + x + y + z == a + (x + y + z)
  {
  }

  lemma {:induction false} ThreeSlices<T>(s: seq<T>, a: int, b: int, c: int, d: int)
    requires 0 <= a <= b <= c <= d <= |s|
    ensures s[a..d] == s[a..b] + s[b..c] + s[c..d]
  {
  }

  lemma {:induction false} SubSlice<T>(s: seq<T>, i: int, j: int, p: int, q: int, from: int, to: int)
    requires 0 <= i <= j <= |s| && 0 <= p <= q <= j - i && from == i + p && to == i + q
    ensures s[i..j][p..q] == s[from..to]
  {
    forall k | 0 <= k < q - p
      ensures s[i..j][p..q][k] == s[from..to][k]
    {
    }
  }

  /** Byte `i` flattened is bits `8 * i` to `8 * i + 8` of the whole. */
  lemma {:induction false} FlattenByte(bytes: seq<bv8>, i: int)
    requires 0 <= i < |bytes|
    ensures ByteBits(bytes[i]) == Flatten(bytes)[8 * i..8 * i + 8]
  {
    FlattenSlice(bytes, i, i + 1);
    assert bytes[i..i + 1] == [bytes[i]];
    assert [bytes[i]][..0] == [];
  }

  /** After `writeBit(1)`, writing the array `[0x01]` as written puts its bits
      ahead of the pending one, and a `flush` then gives `[0x01, 0x80]`; writing
      the same byte through `write(byte)` gives `[0x80, 0x80]`. */
  lemma {:induction false} WriteBytesAsWrittenReorders()
    ensures Flatten([0x01]) + [true] == Flatten([0x01, 0x80])[..9]
    ensures [true] + Flatten([0x01]) == Flatten([0x80, 0x80])[..9]
    ensures Flatten([0x01]) + [true] != [true] + Flatten([0x01])
  {
    FlattenOne(0x01);
    FlattenTwo(0x01, 0x80);
    FlattenTwo(0x80, 0x80);
    ByteBitsEnds();
    var f := false;
    assert Flatten([0x01, 0x80])[..9] == [f, f, f, f, f, f, f, true, true];
    assert Flatten([0x80, 0x80])[..9] == [true, f, f, f, f, f, f, f, true];
  }

  lemma {:induction false} FlattenOne(a: bv8)
    ensures Flatten([a]) == ByteBits(a)
  {
    assert [a][..0] == [];
  }

  lemma {:induction false} FlattenTwo(a: bv8, b: bv8)
    ensures Flatten([a, b]) == ByteBits(a) + ByteBits(b)
  {
    assert [a, b][..1] == [a];
    FlattenOne(a);
  }

  /** The bits of 0x01 and of 0x80. */
  lemma {:induction false} ByteBitsEnds()
    ensures ByteBits(0x01) == [false, false, false, false, false, false, false, true]
    ensures ByteBits(0x80) == [true, false, false, false, false, false, false, false]
  {
  }

  /** What `writeBits(bytes, start, length)` emits as written: its bits, and the
      exception it ends with, if any. */
  datatype Emitted = Emitted(bits: seq<bool>, thrown: Option<Exception>)

  /** The default `writeBits(bytes, start, length)` as written, with the interface's
      `write(bytes, start, length)`: the range is checked against `byteArray.size * 8`,
      an `Int` product that wraps from 2^28 bytes on; then the partial first byte,
      `(length - prefixOffset) / 8` whole bytes, counted from the first byte when the
      range starts on a byte boundary, and `bytes[(start + length) / 8]` is read for
      the partial last byte, even when nothing is left to take from it. */
  function WriteBitsArrayAsWritten(bytes: seq<bv8>, start: Int32, length: Int32): (r: Emitted)
    ensures r.thrown.None? ==> 0 <= start && 0 <= length && start + length <= Wrap32(8 * |bytes|) && start + length < 8 * |bytes|
    ensures !(0 <= start && 0 <= length && start + length <= Wrap32(8 * |bytes|)) ==> r == Emitted([], Some(IndexOutOfBounds))
  {
    if CheckFromIndexSize(start, length, Wrap32(8 * |bytes|)).Err? then Emitted([], Some(IndexOutOfBounds))
    else
      var actualStart := start / 8;
      var prefixOffset := start % 8;
      var writtenFromPrefix := Min(8 - prefixOffset, length);
      if actualStart >= |bytes| then Emitted([], Some(IndexOutOfBounds))
      else
        var prefix := ByteBits(bytes[actualStart])[prefixOffset..prefixOffset + writtenFromPrefix];
        var fullBytes := TruncDiv(length - prefixOffset, 8);
        var fullBytesStart := if prefixOffset == 0 then actualStart else actualStart + 1;
        if CheckFromIndexSize(fullBytesStart, fullBytes, |bytes|).Err? then Emitted(prefix, Some(IndexOutOfBounds))
        else
          var full := Flatten(bytes[fullBytesStart..fullBytesStart + fullBytes]);
          var suffixOffset := (length - writtenFromPrefix - fullBytes * 8) % 8;
          var lastIndex := (start + length) / 8;
          if lastIndex >= |bytes| then Emitted(prefix + full, Some(IndexOutOfBounds))
          else Emitted(prefix + full + ByteBits(bytes[lastIndex])[..suffixOffset], None)
  }

  /** Writing all eight bits of a one-byte array writes the byte twice and then
      fails reading past the array. The corrected `StreamOutput.WriteBitsArray`
      writes the byte once and returns normally. */
  lemma {:induction false} WriteBitsArrayAsWrittenWholeByte()
    ensures WriteBitsArrayAsWritten([0x01], 0, 8) == Emitted(Flatten([0x01, 0x01]), Some(IndexOutOfBounds))
  {
    assert Flatten([0x01, 0x01]) == Flatten([0x01]) + ByteBits(0x01);
    assert [0x01][0..1] == [0x01];
    assert ByteBits(0x01)[0..8] == ByteBits(0x01);
  }

  /** Bits 2 to 21 of three bytes come out as 28 bits instead of 20: one whole
      byte too many is counted when the range starts inside a byte. */
  lemma {:induction false} WriteBitsArrayAsWrittenOverlong()
    ensures |WriteBitsArrayAsWritten([0xFF, 0x00, 0xFF], 2, 20).bits| == 28
  {
  }

  /** The product `byteArray.size * 8` wraps on large arrays: on 2^28 bytes it is
      `Int.MIN_VALUE`, so even the first eight bits are refused, and on 2^29 + 1
      bytes it is 8, so bits 16 to 24 are refused although the array holds them.
      The corrected `StreamOutput.WriteBitsArray` accepts both ranges. */
  lemma WriteBitsArrayAsWrittenWideArray(wide: seq<bv8>, wider: seq<bv8>)
    requires |wide| == 0x1000_0000 && |wider| == 0x2000_0001
    ensures WriteBitsArrayAsWritten(wide, 0, 8) == Emitted([], Some(IndexOutOfBounds))
    ensures WriteBitsArrayAsWritten(wider, 16, 8) == Emitted([], Some(IndexOutOfBounds))
    ensures 0 + 8 <= 8 * |wide| && 16 + 8 <= 8 * |wider|
  {
    assert Wrap32(8 * |wide|) == INT_MIN;
    assert Wrap32(8 * |wider|) == 8;
  }

  /** `nullOutput().write(bytes, start, length)` as written: returns normally
      whatever the range. */
  function NullWriteBytesAsWritten(size: nat, start: Int32, length: Int32): (r: Result<()>)
    ensures r.Ok?
  {
    Ok(())
  }

  /** `nullOutput().write(bytes, start, length)` as its tests expect it: the range
      check of the interface's `write`, then nothing. */
  function NullWriteBytes(size: nat, start: Int32, length: Int32): (r: Result<()>)
    ensures r.Ok? <==> 0 <= start && 0 <= length && start + length <= size
    ensures r.Err? ==> r.error == IndexOutOfBounds
  {
    CheckFromIndexSize(start, length, size)
  }

  /** `write(bytes, -1)` on the null output, i.e. `write(bytes, -1, size + 1)`,
      returns normally where its tests expect `IndexOutOfBoundsException`. */
  lemma {:induction false} NullWriteBytesCounterexample()
    ensures NullWriteBytesAsWritten(4, -1, 5).Ok?
    ensures NullWriteBytes(4, -1, 5) == Err(IndexOutOfBounds)
  {
  }
}

/** The stream output's `writeBit` as written, on the 32-bit `Int` argument. It is
    kept apart from `EncoderOutput` so that its 32-bit word arithmetic stays out of
    the proofs about bit sequences there. */
module EncoderOutputWord {
  import opened EncoderOutput

  /** `writeBit(bit)` of the stream output as written, on the `Int` argument as a
      32-bit word: `currentByte or (bit shl 7 - currentBitIndex).toByte()`. Only
      the low eight bits of the shifted word survive, so bits of `bit` above the
      lowest land on positions already written. For a bit of 0 or 1 it sets
      exactly the bit the corrected `StreamOutput.WriteBit` sets. */
  function WriteBitAsWritten(currentByte: bv8, currentBitIndex: int, bit: bv32): bv8
    requires 0 <= currentBitIndex < 8
  {
    currentByte | ((bit << (7 - currentBitIndex)) & 0xFF) as bv8
  }

  /** `writeBit` as written never clears a bit already set. */
  lemma {:induction false} WriteBitAsWrittenKeeps(currentByte: bv8, currentBitIndex: int, bit: bv32)
    requires 0 <= currentBitIndex < 8
    ensures WriteBitAsWritten(currentByte, currentBitIndex, bit) & currentByte == currentByte
  {
  }

  /** For a bit of 0 or 1, `writeBit` as written sets exactly the bit the corrected
      `StreamOutput.WriteBit` sets. */
  lemma {:induction false} WriteBitAsWrittenOnBit(currentByte: bv8, currentBitIndex: int, bit: bv32)
    requires 0 <= currentBitIndex < 8 && (bit == 0 || bit == 1)
    ensures WriteBitAsWritten(currentByte, currentBitIndex, bit) == SetBit(currentByte, currentBitIndex, bit == 1)
  {
    if bit == 1 {
      OneShifted(currentBitIndex);
    }
  }

  /** The low byte of `1 shl (7 - k)` is the mask of bit `k`. */
  lemma {:induction false} OneShifted(k: int)
    requires 0 <= k < 8
    ensures (((1 as bv32) << (7 - k)) & 0xFF) as bv8 == Mask(k)
  {
    match k
    case 0 => case 1 => case 2 => case 3 =>
    case 4 => case 5 => case 6 => case 7 =>
  }

  /** `writeBit(2)` after one zero bit sets the first bit (0x80), where the test
      suite expects bits of the argument other than the lowest to be ignored, so
      that the byte still reads as two zero bits. */
  lemma {:induction false} WriteBitAsWrittenCounterexample()
    ensures WriteBitAsWritten(0x00, 1, 2) == 0x80
    ensures ByteBits(0x80)[..2] != [false, 2 % 2 == 1]
  {
    assert ByteBits(0x80)[0] == BitOf(0x80, 0);
  }
}
