/** `MarkerEndedItemDecoder`: accumulates bytes until the end marker appears in the
    input, sliding a window as long as the marker over the bytes; the value is the
    bytes before the marker. The converter is modelled as handing back the bytes it
    is given. */
module MarkerEndedItem {
  import opened Wrappers
  import opened Jvm
  import opened DecoderState
  import opened DecoderInput
  import opened Sequences

  /** The outcome of one `decode` call: the state returned, the bytes accumulated
      and the window afterwards, and the input left. */
  datatype Outcome = Outcome(state: State<seq<UByte>>, acc: seq<UByte>, window: seq<UByte>, rest: seq<UByte>)

  /** The sliding loop of `decode`: while the full window is not the marker, its
      first byte moves to the accumulator and the next input byte enters it. */
  function Scan(marker: seq<UByte>, acc: seq<UByte>, window: seq<UByte>, rest: seq<UByte>): Outcome
    requires |window| == |marker|
    decreases |rest|
  {
    if window == marker then Outcome(Done(acc), [], [], rest)
    else if rest == [] then Outcome(Processing, acc, window, [])
    else Scan(marker, acc + [window[0]], window[1..] + [rest[0]], rest[1..])
  }

  /** One `decode` call, from the bytes `acc` accumulated and the window `window`,
      with `available` the input's bytes: the window is filled first, and the call
      stops with `Processing` if the input cannot fill it. */
  function ItemRun(marker: seq<UByte>, acc: seq<UByte>, window: seq<UByte>, available: seq<UByte>): Outcome
    requires |window| <= |marker|
  {
    var k := Min(|marker| - |window|, |available|);
    var w := window + available[..k];
    if |w| < |marker| then Outcome(Processing, acc, w, available[k..])
    else Scan(marker, acc, w, available[k..])
  }

  /** Sliding one byte keeps the bytes seen, in order. */
  lemma {:induction false} SlideKeepsBytes(acc: seq<UByte>, window: seq<UByte>, rest: seq<UByte>)
    requires window != [] && rest != []
    ensures (acc + [window[0]]) + (window[1..] + [rest[0]]) + rest[1..] == acc + window + rest
  {
    var t := acc + window + rest;
    var u := (acc + [window[0]]) + (window[1..] + [rest[0]]) + rest[1..];
    assert |u| == |t|;
    forall i | 0 <= i < |t|
      ensures u[i] == t[i]
    {
      if i < |acc| {
      } else if i == |acc| {
      } else if i < |acc| + |window| {
      } else if i == |acc| + |window| {
      } else {
      }
    }
  }

  /** The loop ends `Done` at the first occurrence of the marker in the bytes seen
      that starts no earlier than the window, with the bytes before it as the value
      and the bytes after it left in the input; without one it consumes the whole
      input and keeps every byte, the last `|marker|` of them in the window. */
  lemma {:induction false} ScanSpec(marker: seq<UByte>, acc: seq<UByte>, window: seq<UByte>, rest: seq<UByte>, t: seq<UByte>)
    requires |window| == |marker| && t == acc + window + rest
    ensures var o := Scan(marker, acc, window, rest);
      var f := Find(t, marker, |acc|);
      && (f.Some? ==> f.value + |marker| <= |t| && o == Outcome(Done(t[..f.value]), [], [], t[f.value + |marker|..]))
      && (f.None? ==> |marker| <= |t| && o == Outcome(Processing, t[..|t| - |marker|], t[|t| - |marker|..], []))
    decreases |rest|
  {
    assert t[..|acc|] == acc && t[|acc|..|acc| + |marker|] == window;
    if window == marker {
      assert Matches(t, marker, |acc|);
      assert t[|acc| + |marker|..] == rest;
    } else if rest == [] {
      assert !Matches(t, marker, |acc|);
      assert t[|acc|..] == window;
    } else {
      ScanStep(marker, acc, window, rest, t);
      ScanSpec(marker, acc + [window[0]], window[1..] + [rest[0]], rest[1..], t);
    }
  }

  /** One slide of the window past a position where the marker does not occur
      changes neither the loop's outcome nor the first occurrence still to find. */
  lemma {:induction false} ScanStep(marker: seq<UByte>, acc: seq<UByte>, window: seq<UByte>, rest: seq<UByte>, t: seq<UByte>)
    requires |window| == |marker| && t == acc + window + rest && window != marker && rest != []
    ensures (acc + [window[0]]) + (window[1..] + [rest[0]]) + rest[1..] == t
    ensures Find(t, marker, |acc|) == Find(t, marker, |acc| + 1)
    ensures Scan(marker, acc, window, rest) == Scan(marker, acc + [window[0]], window[1..] + [rest[0]], rest[1..])
  {
    assert t[|acc|..|acc| + |marker|] == window;
    assert !Matches(t, marker, |acc|);
    SlideKeepsBytes(acc, window, rest);
  }

  /** A call that cannot fill the window keeps every byte in it and accumulates
      nothing; otherwise it ends as the sliding loop over all the bytes seen does:
      `Done` with the bytes before the first occurrence of the marker from the
      accumulated bytes on, or `Processing` with every byte kept. */
  lemma {:induction false} ItemRunSpec(marker: seq<UByte>, acc: seq<UByte>, window: seq<UByte>, available: seq<UByte>)
    requires |window| <= |marker|
    ensures var o := ItemRun(marker, acc, window, available);
      var t := acc + window + available;
      var f := Find(t, marker, |acc|);
      && (|window| + |available| < |marker| ==> o == Outcome(Processing, acc, window + available, []))
      && (|window| + |available| >= |marker| && f.Some? ==>
            f.value + |marker| <= |t| && o == Outcome(Done(t[..f.value]), [], [], t[f.value + |marker|..]))
      && (|window| + |available| >= |marker| && f.None? ==>
            |marker| <= |t| && o == Outcome(Processing, t[..|t| - |marker|], t[|t| - |marker|..], []))
  {
    var k := Min(|marker| - |window|, |available|);
    if |window| + |available| >= |marker| {
      assert ItemRun(marker, acc, window, available) == Scan(marker, acc, window + available[..k], available[k..]);
      FillKeepsBytes(acc, window, available, k);
      ScanSpec(marker, acc, window + available[..k], available[k..], acc + window + available);
    } else {
      DropNone(available);
    }
  }

  /** Filling the window from the input keeps the bytes seen, in order. */
  lemma {:induction false} FillKeepsBytes(acc: seq<UByte>, window: seq<UByte>, available: seq<UByte>, k: nat)
    requires k <= |available|
    ensures acc + (window + available[..k]) + available[k..] == acc + window + available
  {
    assert available[..k] + available[k..] == available;
    Assoc(window, available[..k], available[k..]);
    Assoc(acc, window, available);
    Assoc(acc, window + available[..k], available[k..]);
  }

  /** Reading into the window, a list, takes as many of the input's bytes as the
      window lacks or the input holds, whichever is fewer. */
  lemma {:induction false} WindowFill(window: seq<UByte>, input: seq<UByte>, pos: nat, budget: nat)
    requires pos <= |input|
    ensures var k := Min(budget, |input| - pos);
      && (budget == 0 || pos == |input| ==> k == 0 && window + input[pos..][..k] == window)
      && (budget != 0 && pos < |input| ==>
            Collect(window, false, input, pos, budget).elements == window + input[pos..][..k]
            && Collect(window, false, input, pos, budget).consumed == k)
      && input[pos..][k..] == input[pos + k..]
  {
    var k := Min(budget, |input| - pos);
    CollectTakesPrefix(window, false, input, pos, budget);
    CollectStops(window, false, input, pos, budget);
    assert input[pos..][..k] == input[pos..pos + k];
  }

  /** From a fresh decoder, a call is `Done` exactly when the marker occurs in the
      input, and the value is then the input's bytes before its first occurrence,
      which hold no occurrence of it. */
  lemma {:induction false} FirstValue(marker: seq<UByte>, input: seq<UByte>)
    requires |marker| > 0
    ensures var o := ItemRun(marker, [], [], input);
      && (o.state.Done? <==> exists p :: Matches(input, marker, p))
      && (o.state.Done? ==> exists p :: Matches(input, marker, p) && o.state.value == input[..p]
                                      && forall q :: 0 <= q < p ==> !Matches(input, marker, q))
  {
    ItemRunSpec(marker, [], [], input);
    FindSpec(input, marker, 0);
    assert [] + [] + input == input;
    var f := Find(input, marker, 0);
    if |input| < |marker| {
      assert forall p :: !Matches(input, marker, p);
    } else if f.Some? {
      assert Matches(input, marker, f.value);
    } else {
      assert forall p :: !Matches(input, marker, p) by {
        forall p ensures !Matches(input, marker, p) {
          if p >= 0 {
            assert 0 <= p;
          }
        }
      }
    }
  }

  class MarkerEndedItemDecoder {
    /** The defensive copy of the marker: a sequence value, which no caller can
        change afterwards. */
    const endMarker: seq<UByte>
    var accumulator: array?<UByte>
    var index: int
    /** The window, an `ArrayDeque`, allocated at the first call. */
    var buffer: ByteCollection?

    /** The bytes accumulated: the first `index` bytes of the accumulator. */
    function Content(): seq<UByte>
      reads this, accumulator
    {
      if accumulator != null && 0 <= index <= accumulator.Length then accumulator[..index] else []
    }

    /** The bytes in the window. */
    function Window(): seq<UByte>
      reads this, buffer
    {
      if buffer != null then buffer.elements else []
    }

    /** The marker is not empty; the accumulator, once allocated, is never smaller
        than the marker and holds `index` bytes; the window is a list no longer than
        the marker. */
    ghost predicate Valid()
      reads this, buffer
    {
      && 0 < |endMarker| <= INT_MAX
      && (accumulator == null ==> index == 0)
      && (accumulator != null ==> |endMarker| <= accumulator.Length && 0 <= index <= accumulator.Length)
      && (buffer != null ==> !buffer.distinct && |buffer.elements| <= |endMarker|)
    }

    /** The primary constructor, once `require(endMarker.isNotEmpty())` has passed. */
    constructor(endMarker: seq<UByte>)
      requires 0 < |endMarker| <= INT_MAX
      ensures Valid() && this.endMarker == endMarker
      ensures accumulator == null && index == 0 && buffer == null
    {
      this.endMarker := endMarker;
      accumulator := null;
      index := 0;
      buffer := null;
    }

    /** `decode(input)`: fills the window from the input, then slides it. */
    method Decode(input: ByteSource) returns (r: State<seq<UByte>>)
      requires Valid() && input.Valid()
      modifies this, input, buffer, accumulator
      ensures Valid() && input.Valid()
      ensures var o := ItemRun(endMarker, old(Content()), old(Window()), old(input.input[input.pos..]));
        && r == o.state && Content() == o.acc && Window() == o.window
        && input.input[input.pos..] == o.rest
      ensures r.Done? ==> accumulator == null && buffer == null && index == 0
    {
      ghost var acc0, w0, available := Content(), Window(), input.input[input.pos..];
      ghost var o := ItemRun(endMarker, acc0, w0, available);
      if buffer == null {
        buffer := new ByteCollection([], false);
      }
      FillWindow(input);
      ghost var k := Min(|endMarker| - |w0|, |available|);
      assert Content() == acc0;
      if |buffer.elements| < |endMarker| {
        assert o == Outcome(Processing, Content(), buffer.elements, input.input[input.pos..]);
        return Processing;
      }
      assert o == Scan(endMarker, acc0, buffer.elements, input.input[input.pos..]);
      r := SlideToMarker(input);
    }

    /** `input.read(buffer, endMarker.size - buffer.size)`: the window takes as many
        of the input's bytes as it lacks or the input holds, whichever is fewer. */
    method FillWindow(input: ByteSource)
      requires Valid() && input.Valid() && buffer != null
      modifies input, buffer
      ensures Valid() && input.Valid()
      ensures var available := old(input.input[input.pos..]);
        var k := Min(|endMarker| - |old(buffer.elements)|, |available|);
        && buffer.elements == old(buffer.elements) + available[..k]
        && input.input[input.pos..] == available[k..]
    {
      var n := input.ReadIntoCollection(buffer, |endMarker| - |buffer.elements|);
      WindowFill(old(buffer.elements), input.input, old(input.pos), |endMarker| - |old(buffer.elements)|);
    }

    /** The loop of `decode`: while the full window is not the marker, reads a
        byte, moves the window's first byte to the accumulator and appends the byte
        read; at the marker, resets and returns the accumulated bytes. */
    method SlideToMarker(input: ByteSource) returns (r: State<seq<UByte>>)
      requires Valid() && input.Valid() && buffer != null && |buffer.elements| == |endMarker|
      modifies this, input, buffer, accumulator
      ensures Valid() && input.Valid()
      ensures var o := Scan(endMarker, old(Content()), old(buffer.elements), old(input.input[input.pos..]));
        && r == o.state && Content() == o.acc && Window() == o.window
        && input.input[input.pos..] == o.rest
      ensures r.Done? ==> accumulator == null && buffer == null && index == 0
    {
      var window := buffer;
      while true
        invariant Valid() && input.Valid() && buffer == window && |window.elements| == |endMarker|
        invariant accumulator != null ==> accumulator == old(accumulator) || fresh(accumulator)
        invariant Scan(endMarker, Content(), window.elements, input.input[input.pos..])
               == Scan(endMarker, old(Content()), old(window.elements), old(input.input[input.pos..]))
        decreases |input.input| - input.pos
      {
        var isMarker := BufferIsEndMarker();
        if isMarker {
          break;
        }
        ghost var p := input.pos;
        var b := input.Read();
        if b == -1 {
          return Processing;
        }
        assert input.input[p..][0] == b && input.input[p..][1..] == input.input[input.pos..];
        var first := window.RemoveFirst();
        AddToArray(first);
        var _ := window.Add(b);
      }
      var result := Content();
      Reset();
      r := Done(result);
    }

    /** `bufferContentIsEndMarker()`: compares the full window with the marker,
        position by position. */
    method BufferIsEndMarker() returns (r: bool)
      requires Valid() && buffer != null && |buffer.elements| == |endMarker|
      ensures r <==> buffer.elements == endMarker
    {
      var i := 0;
      while i < |endMarker|
        invariant 0 <= i <= |endMarker|
        invariant forall j :: 0 <= j < i ==> buffer.elements[j] == endMarker[j]
      {
        if buffer.elements[i] != endMarker[i] {
          return false;
        }
        i := i + 1;
      }
      return true;
    }

    /** `addToArray(byte)`: appends a byte to the accumulator, allocating it at the
        marker's size when absent and doubling it when full. */
    method AddToArray(b: UByte)
      requires Valid()
      modifies this, accumulator
      ensures Valid() && buffer == old(buffer) && accumulator != null
      ensures Content() == old(Content()) + [b] && index == old(index) + 1
      ensures accumulator != old(accumulator) ==> fresh(accumulator)
      ensures old(accumulator) == null ==> accumulator.Length == |endMarker|
      ensures old(accumulator) != null && old(index) == old(accumulator.Length) ==>
                accumulator.Length == 2 * old(accumulator.Length)
      ensures old(accumulator) != null && old(index) < old(accumulator.Length) ==> accumulator == old(accumulator)
    {
      var current := accumulator;
      if current == null {
        current := new UByte[|endMarker|](_ => 0);
        accumulator := current;
      } else if index == current.Length {
        var old_ := current;
        current := new UByte[2 * old_.Length](i reads old_ => if 0 <= i < old_.Length then old_[i] else 0);
        accumulator := current;
      }
      ghost var before := current[..index];
      current[index] := b;
      index := index + 1;
      assert current[..index] == before + [b];
    }

    /** `reset()`: the soft reset, and the accumulator is dropped. */
    method Reset()
      requires Valid()
      modifies this
      ensures Valid() && accumulator == null && buffer == null && index == 0
    {
      index := 0;
      buffer := null;
      accumulator := null;
    }
  }

  /** The constructor's check: `IllegalArgumentException` for an empty marker. */
  method Create(endMarker: seq<UByte>) returns (r: Result<MarkerEndedItemDecoder>)
    requires |endMarker| <= INT_MAX
    ensures r.Ok? <==> |endMarker| > 0
    ensures r.Err? ==> r.error == IllegalArgument
    ensures r.Ok? ==> fresh(r.value) && r.value.Valid() && r.value.endMarker == endMarker
  {
    var check := Require(|endMarker| > 0);
    if check.Err? {
      return Err(check.error);
    }
    var d := new MarkerEndedItemDecoder(endMarker);
    return Ok(d);
  }
}
