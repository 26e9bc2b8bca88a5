/** `PrefixedSizeItemDecoder`: decodes a size with a nested decoder, then
    accumulates that many bytes of input in a byte array, resuming where it stopped
    when the input runs out. The converter is modelled as handing back the bytes it
    is given, so a `Done` state holds the `size` bytes read. The size decoder
    yields a `Number`; the model takes it as a `Long` and converts it with
    `toInt()`, which keeps its low 32 bits. */
module PrefixedSizeItem {
  import opened Wrappers
  import opened Jvm
  import opened DecoderState
  import opened ElementDecoder
  import opened DecoderInput
  import opened Sequences

  /** The outcome of one `decode` call: the state returned, the size field and the
      bytes accumulated afterwards, the states left to the size decoder, and how
      many bytes of input were consumed. */
  datatype Outcome = Outcome(state: State<seq<UByte>>, bytesToRead: int, content: seq<UByte>,
                             sizeRest: seq<State<Int64>>, consumed: nat)

  /** The content part of a call once the size `n` is known: reads what is missing
      of `n` bytes from the input `available`, as far as it goes. */
  function Fill(n: nat, content: seq<UByte>, sizeScript: seq<State<Int64>>, available: seq<UByte>): Outcome
    requires |content| <= n
  {
    var k := Min(n - |content|, |available|);
    var bytes := content + available[..k];
    if |bytes| == n then Outcome(Done(bytes), -1, [], sizeScript, k)
    else Outcome(Processing, n, bytes, sizeScript, k)
  }

  /** One `decode` call, from the size field `bytesToRead` (-1 while the size is
      still to be decoded) and the bytes `content` accumulated, with the size decoder
      about to return the states of `sizeScript` and the input holding `available`. */
  function SizedRun(bytesToRead: int, content: seq<UByte>, sizeScript: seq<State<Int64>>, available: seq<UByte>): Outcome
    requires bytesToRead == -1 || 0 <= |content| <= bytesToRead
  {
    if bytesToRead == -1 then
      var s := Next(sizeScript);
      if !s.Done? then Outcome(MapEmptyState<Int64, seq<UByte>>(s).value, -1, [], Rest(sizeScript), 0)
      else if LongToInt(s.value) < 0 then Outcome(Error(IllegalState), -1, [], Rest(sizeScript), 0)
      else Fill(LongToInt(s.value), [], Rest(sizeScript), available)
    else Fill(bytesToRead, content, sizeScript, available)
  }

  /** A call consumes at most the missing bytes, and ends `Done` exactly when the
      input holds all of them; the value is then the bytes accumulated followed by
      the input's next bytes, `n` in all. Otherwise the whole input is consumed and
      accumulated, still short of `n`, and the call returns `Processing`. */
  lemma {:induction false} FillSpec(n: nat, content: seq<UByte>, sizeScript: seq<State<Int64>>, available: seq<UByte>)
    requires |content| <= n
    ensures var o := Fill(n, content, sizeScript, available);
      && o.consumed <= n - |content| && o.consumed <= |available| && o.sizeRest == sizeScript
      && (o.state.Done? <==> |content| + |available| >= n)
      && (o.state.Done? ==> o.state.value == content + available[..n - |content|]
                            && |o.state.value| == n && o.bytesToRead == -1 && o.content == [])
      && (!o.state.Done? ==> o.state == Processing && o.consumed == |available|
                             && o.bytesToRead == n && o.content == content + available && |o.content| < n)
  {
    DropNone(available);
  }

  /** Input split over two calls gives the value one call over all of it gives:
      after a call that ran out of input, the next call ends as a single call would
      have. */
  lemma {:induction false} FillResumes(n: nat, content: seq<UByte>, sizeScript: seq<State<Int64>>,
                                       first: seq<UByte>, second: seq<UByte>)
    requires |content| <= n && !Fill(n, content, sizeScript, first).state.Done?
    ensures var o := Fill(n, content, sizeScript, first);
      && |o.content| <= n
      && Fill(n, o.content, sizeScript, second).state == Fill(n, content, sizeScript, first + second).state
      && Fill(n, o.content, sizeScript, second).content == Fill(n, content, sizeScript, first + second).content
  {
    FillSpec(n, content, sizeScript, first);
    var mid := content + first;
    FillSpec(n, mid, sizeScript, second);
    FillSpec(n, content, sizeScript, first + second);
    Assoc(content, first, second);
    if |mid| + |second| >= n {
      assert (first + second)[..n - |content|] == first + second[..n - |mid|];
      Assoc(content, first, second[..n - |mid|]);
    }
  }

  /** The size is decoded only while the size field is -1. A negative size gives
      `Error` without consuming input and leaves the size to be decoded again; a
      size decoder that is not `Done` has its state passed on. */
  lemma {:induction false} SizedRunSize(bytesToRead: int, content: seq<UByte>, sizeScript: seq<State<Int64>>, available: seq<UByte>)
    requires bytesToRead == -1 || 0 <= |content| <= bytesToRead
    ensures var o := SizedRun(bytesToRead, content, sizeScript, available);
      && (bytesToRead != -1 ==> o.sizeRest == sizeScript)
      && (bytesToRead == -1 ==> o.sizeRest == Rest(sizeScript))
      && (bytesToRead == -1 && Next(sizeScript).Done? && LongToInt(Next(sizeScript).value) < 0 ==>
            o == Outcome(Error(IllegalState), -1, [], Rest(sizeScript), 0))
      && (bytesToRead == -1 && !Next(sizeScript).Done? ==>
            o == Outcome(MapEmptyState<Int64, seq<UByte>>(Next(sizeScript)).value, -1, [], Rest(sizeScript), 0))
      && (o.state.Error? ==> o.consumed == 0 && o.bytesToRead == -1)
  {
  }

  /** The size field never drops below -1, and the bytes accumulated never reach it:
      the value is `Done` exactly when all `size` bytes are there. */
  lemma {:induction false} SizedRunBounds(bytesToRead: int, content: seq<UByte>, sizeScript: seq<State<Int64>>, available: seq<UByte>)
    requires bytesToRead == -1 || 0 <= |content| <= bytesToRead
    ensures var o := SizedRun(bytesToRead, content, sizeScript, available);
      && o.bytesToRead >= -1
      && (o.bytesToRead == -1 ==> o.content == [])
      && (o.bytesToRead != -1 ==> |o.content| < o.bytesToRead && o.state == Processing)
      && (o.state.Done? && bytesToRead != -1 ==> |o.state.value| == bytesToRead)
      && (o.state.Done? && bytesToRead == -1 ==> |o.state.value| == LongToInt(Next(sizeScript).value))
  {
    if bytesToRead != -1 {
      FillSpec(bytesToRead, content, sizeScript, available);
    } else if Next(sizeScript).Done? && LongToInt(Next(sizeScript).value) >= 0 {
      FillSpec(LongToInt(Next(sizeScript).value), [], Rest(sizeScript), available);
    }
  }

  /** The size is `toInt()` of the decoded `Long`: 2^32 + 3 reads 3 bytes, and
      2^32 - 1 becomes -1, which is refused as negative. */
  lemma WideSizeTruncated(available: seq<UByte>)
    requires |available| >= 3
    ensures SizedRun(-1, [], [Done(0x1_0000_0003)], available).state == Done(available[..3])
    ensures SizedRun(-1, [], [Done(0xFFFF_FFFF)], available).state == Error(IllegalState)
  {
    assert LongToInt(0x1_0000_0003) == 3;
    assert LongToInt(0xFFFF_FFFF) == -1;
    FillSpec(3, [], [], available);
    assert [] + available[..3] == available[..3];
  }

  /** The count `read(bytes, start, length)` returns on a valid range with
      `available` bytes of input left (`ByteSource.ReadIntoSpec`). */
  function ReadCount(length: nat, available: nat): (r: int)
    ensures length == 0 ==> r == 0
    ensures length > 0 && available == 0 ==> r == -1
    ensures length > 0 && available > 0 ==> 1 <= r <= length && r <= available
  {
    if length == 0 then 0 else if available == 0 then -1 else Min(length, available)
  }

  /** The index after `decodeContent` as written: `index += input.read(array, index,
      bytesToRead - index)`, which adds the -1 that signals the end of the input. */
  function ContentIndexAsWritten(bytesToRead: int, index: int, available: nat): int
  {
    if index < bytesToRead then index + ReadCount(bytesToRead - index, available) else index
  }

  /** The index after `decodeContent` when the end of the input counts as no
      progress, as the corrected decoder does. */
  function ContentIndex(bytesToRead: int, index: int, available: nat): (r: int)
    requires 0 <= index <= bytesToRead
    ensures index <= r <= bytesToRead
    ensures r == index + Min(bytesToRead - index, available)
  {
    if index < bytesToRead && available > 0 then index + ReadCount(bytesToRead - index, available) else index
  }

  /** As written, a call on an exhausted input moves the index back: with 2 bytes to
      read and none read, the index becomes -1 and the next call's read is asked
      for the range starting at -1, which throws `IndexOutOfBoundsException`; with
      one byte of two read, the index falls back to 0 and the next byte overwrites
      the first. */
  lemma AsWrittenIndexGoesBack()
    ensures ContentIndexAsWritten(2, 0, 0) == -1
    ensures CheckFromIndexSize(-1, 2 - (-1), 2) == Err(IndexOutOfBounds)
    ensures ContentIndexAsWritten(2, 1, 0) == 0 && ContentIndex(2, 1, 0) == 1
  {
  }

  class PrefixedSizeItemDecoder {
    const sizeDecoder: ScriptedDecoder<Int64>
    /** The byte bytes being filled, allocated once the size is known. */
    var bytes: array?<UByte>
    var index: int
    /** The size decoded, or -1 while it is still to be decoded. */
    var bytesToRead: int

    /** The bytes accumulated so far: the first `index` bytes of the bytes. */
    function Content(): seq<UByte>
      reads this, bytes
    {
      if bytes != null && 0 <= index <= bytes.Length then bytes[..index] else []
    }

    /** With the size still to decode nothing is accumulated; once it is decoded the
        bytes is large enough for it and `index` bytes of it are filled, fewer than
        the size. */
    ghost predicate Valid()
      reads this
    {
      && -1 <= bytesToRead <= INT_MAX
      && (bytesToRead == -1 ==> index == 0)
      && (bytesToRead != -1 ==> bytes != null && bytesToRead <= bytes.Length && 0 <= index <= bytesToRead)
    }

    constructor(sizeDecoder: ScriptedDecoder<Int64>)
      ensures Valid() && this.sizeDecoder == sizeDecoder
      ensures bytes == null && index == 0 && bytesToRead == -1
    {
      this.sizeDecoder := sizeDecoder;
      bytes := null;
      index := 0;
      bytesToRead := -1;
    }

    /** `decode(input)`, reading the size through `decodeSize` while the size field
        is -1, then the content through `decodeContent`. */
    method Decode(input: ByteSource) returns (r: State<seq<UByte>>)
      requires Valid() && input.Valid()
      modifies this, sizeDecoder, input, bytes
      ensures Valid() && input.Valid()
      ensures var o := SizedRun(old(bytesToRead), old(Content()), old(sizeDecoder.script), old(input.input[input.pos..]));
        && r == o.state && bytesToRead == o.bytesToRead && Content() == o.content
        && sizeDecoder.script == o.sizeRest && input.pos == old(input.pos) + o.consumed
      ensures sizeDecoder.resets == old(sizeDecoder.resets)
      ensures bytes != old(bytes) ==> fresh(bytes) && old(Next(sizeDecoder.script)).Done?
                                      && bytes.Length == LongToInt(old(Next(sizeDecoder.script)).value)
                                      && (old(bytes) == null || old(bytes).Length < bytes.Length)
    {
      if bytesToRead == -1 {
        var sizeState := sizeDecoder.Decode();
        if !sizeState.Done? {
          return MapEmptyState<Int64, seq<UByte>>(sizeState).value;
        }
        var size := LongToInt(sizeState.value);
        if size < 0 {
          return Error(IllegalState);
        }
        bytesToRead := size;
        if bytes == null || bytesToRead > bytes.Length {
          bytes := new UByte[bytesToRead](_ => 0);
        }
      }
      r := DecodeContent(input);
    }

    /** `decodeContent(input)`: reads what is missing of the content, then returns
        `Done` with all of it and soft-resets, or `Processing`. The count that
        `read` returns is added to the index only when it is positive. */
    method DecodeContent(input: ByteSource) returns (r: State<seq<UByte>>)
      requires Valid() && input.Valid() && bytesToRead != -1
      modifies this, input, bytes
      ensures Valid() && input.Valid() && bytes == old(bytes)
      ensures var o := Fill(old(bytesToRead), old(Content()), sizeDecoder.script, old(input.input[input.pos..]));
        && r == o.state && bytesToRead == o.bytesToRead && Content() == o.content
        && input.pos == old(input.pos) + o.consumed
    {
      var a := bytes;
      ghost var before := a[..index];
      ghost var available := input.input[input.pos..];
      ghost var k := Min(bytesToRead - index, |available|);
      if index < bytesToRead {
        var read := input.ReadInto(a, index, bytesToRead - index);
        assert read.Ok?;
        if read.value > 0 {
          index := index + read.value;
        }
      }
      assert index == old(index) + k && input.pos == old(input.pos) + k;
      assert a[..index] == before + available[..k] by {
        forall j | 0 <= j < index
          ensures a[..index][j] == (before + available[..k])[j]
        {
        }
      }
      if index == bytesToRead {
        var result := a[..index];
        SoftReset();
        r := Done(result);
      } else {
        r := Processing;
      }
    }

    /** `reset()`: the soft reset, and the bytes is dropped. */
    method Reset()
      modifies this
      ensures Valid() && bytes == null && index == 0 && bytesToRead == -1
    {
      SoftReset();
      bytes := null;
    }

    /** `softReset()`: the size is to be decoded again; the bytes is kept. */
    method SoftReset()
      modifies this
      ensures Valid() && index == 0 && bytesToRead == -1 && bytes == old(bytes)
    {
      index := 0;
      bytesToRead := -1;
    }
  }
}
