/** The encoder combinators (`EncoderUtils`): an encoder of a container writes its
    elements with the element encoder, in iteration order, preceded by the encoded
    size or followed by an end marker. An encoder is modelled by the bytes it writes
    for a value, and an output by the bytes written to it so far. */
module EncoderUtils {
  import opened Wrappers
  import opened Jvm

  /** An `Encoder<T>`: the bytes it writes for each value. */
  type Encoder<!T> = T -> seq<UByte>

  /** The bytes written to an `EncoderOutput`, in order. */
  class Output {
    var written: seq<UByte>

    constructor()
      ensures written == []
    {
      written := [];
    }

    /** `encoder.encode(obj, output)`: appends what the encoder writes for `obj`. */
    method Encode<T>(encoder: Encoder<T>, obj: T)
      modifies this
      ensures written == old(written) + encoder(obj)
    {
      written := written + encoder(obj);
    }
  }

  /** The encodings of the elements of `xs`, one after the other. */
  function Flat<T>(encoder: Encoder<T>, xs: seq<T>): seq<UByte>
  {
    if xs == [] then [] else Flat(encoder, xs[..|xs| - 1]) + encoder(xs[|xs| - 1])
  }

  /** Encoding two runs of elements is encoding their concatenation. */
  lemma {:induction false} FlatAppend<T>(encoder: Encoder<T>, xs: seq<T>, ys: seq<T>)
    ensures Flat(encoder, xs + ys) == Flat(encoder, xs) + Flat(encoder, ys)
    decreases |ys|
  {
    if ys == [] {
      assert xs + ys == xs;
    } else {
      var init := ys[..|ys| - 1];
      assert (xs + ys)[..|xs + ys| - 1] == xs + init;
      FlatAppend(encoder, xs, init);
    }
  }

  /** Element `i` is written right after the elements before it and right before
      the elements after it: the order of iteration is kept. */
  lemma {:induction false} FlatAt<T>(encoder: Encoder<T>, xs: seq<T>, i: nat)
    requires i < |xs|
    ensures Flat(encoder, xs) == Flat(encoder, xs[..i]) + encoder(xs[i]) + Flat(encoder, xs[i + 1..])
  {
    assert xs == xs[..i] + [xs[i]] + xs[i + 1..];
    FlatAppend(encoder, xs[..i] + [xs[i]], xs[i + 1..]);
    FlatAppend(encoder, xs[..i], [xs[i]]);
    assert Flat(encoder, [xs[i]]) == encoder(xs[i]) by {
      assert [xs[i]][..0] == [];
    }
  }

  /** With an element encoder of fixed width `w`, `n` elements take `n * w` bytes. */
  lemma {:induction false} FlatFixedWidth<T>(encoder: Encoder<T>, xs: seq<T>, w: nat)
    requires forall i :: 0 <= i < |xs| ==> |encoder(xs[i])| == w
    ensures |Flat(encoder, xs)| == |xs| * w
    decreases |xs|
  {
    if xs != [] {
      var init := xs[..|xs| - 1];
      assert forall i :: 0 <= i < |init| ==> init[i] == xs[i];
      FlatFixedWidth(encoder, init, w);
      assert |Flat(encoder, xs)| == |init| * w + w;
      assert |init| * w + w == (|init| + 1) * w;
    }
  }

  /** `withMappedInput(mapper)`: encodes `mapper(obj)`. */
  function WithMappedInput<T, R>(encoder: Encoder<T>, mapper: R -> T): Encoder<R>
  {
    (obj: R) => encoder(mapper(obj))
  }

  /** A container encoder built over a mapped element encoder writes what the
      original encoder writes for the mapped elements: encoding instants through
      `longEncoder.withMappedInput(Instant::toEpochMilli)` gives the bytes of their
      epoch milliseconds, in order. */
  lemma {:induction false} MappedInputFlat<T, R>(encoder: Encoder<T>, mapper: R -> T, xs: seq<R>)
    ensures Flat(WithMappedInput(encoder, mapper), xs)
            == Flat(encoder, seq(|xs|, i requires 0 <= i < |xs| => mapper(xs[i])))
    decreases |xs|
  {
    var ys := seq(|xs|, i requires 0 <= i < |xs| => mapper(xs[i]));
    if xs != [] {
      var init := xs[..|xs| - 1];
      MappedInputFlat(encoder, mapper, init);
      assert ys[..|ys| - 1] == seq(|init|, i requires 0 <= i < |init| => mapper(init[i]));
    }
  }

  /** `first and second` (`PairEncoder`): the first component, then the second. */
  function And<T, U>(first: Encoder<T>, second: Encoder<U>): Encoder<(T, U)>
  {
    (p: (T, U)) => first(p.0) + second(p.1)
  }

  /** What `toIterable(endMarker)`, `toArray(endMarker)` and `toMap(endMarker)`
      write: the elements, then the end marker. */
  function MarkedBytes<T>(encoder: Encoder<T>, endMarker: T, xs: seq<T>): seq<UByte>
  {
    Flat(encoder, xs) + encoder(endMarker)
  }

  /** What `toCollection(sizeEncoder)`, `toArray(sizeEncoder)` and
      `toMap(sizeEncoder)` write: the size, then the elements. */
  function SizedBytes<T>(encoder: Encoder<T>, sizeEncoder: Encoder<Int32>, xs: seq<T>): seq<UByte>
    requires |xs| <= INT_MAX
  {
    sizeEncoder(|xs|) + Flat(encoder, xs)
  }

  /** The encoded container starts with the encoded size and ends with the end
      marker, and element `i` sits between the elements before and after it. */
  lemma {:induction false} LayoutsKeepOrder<T>(encoder: Encoder<T>, sizeEncoder: Encoder<Int32>, endMarker: T, xs: seq<T>, i: nat)
    requires |xs| <= INT_MAX && i < |xs|
    ensures MarkedBytes(encoder, endMarker, xs)
         == Flat(encoder, xs[..i]) + encoder(xs[i]) + Flat(encoder, xs[i + 1..]) + encoder(endMarker)
    ensures SizedBytes(encoder, sizeEncoder, xs)
         == sizeEncoder(|xs|) + (Flat(encoder, xs[..i]) + encoder(xs[i]) + Flat(encoder, xs[i + 1..]))
  {
    FlatAt(encoder, xs, i);
  }

  /** An empty container writes only its size, or only its end marker. */
  lemma {:induction false} EmptyLayouts<T>(encoder: Encoder<T>, sizeEncoder: Encoder<Int32>, endMarker: T)
    ensures MarkedBytes(encoder, endMarker, []) == encoder(endMarker)
    ensures SizedBytes(encoder, sizeEncoder, []) == sizeEncoder(0)
  {
  }

  /** The elements' loop, `obj.forEach { encode(it, output) }`. */
  method EncodeEach<T>(encoder: Encoder<T>, xs: seq<T>, output: Output)
    modifies output
    ensures output.written == old(output.written) + Flat(encoder, xs)
  {
    var i := 0;
    while i < |xs|
      invariant 0 <= i <= |xs|
      invariant output.written == old(output.written) + Flat(encoder, xs[..i])
    {
      output.Encode(encoder, xs[i]);
      assert xs[..i + 1][..i] == xs[..i];
      i := i + 1;
    }
    assert xs[..|xs|] == xs;
  }

  /** `toIterable(endMarker)`, `toArray(endMarker)` and, with the pair encoder,
      `toMap(endMarker)`. */
  method EncodeWithMarker<T>(encoder: Encoder<T>, endMarker: T, xs: seq<T>, output: Output)
    modifies output
    ensures output.written == old(output.written) + MarkedBytes(encoder, endMarker, xs)
  {
    EncodeEach(encoder, xs, output);
    output.Encode(encoder, endMarker);
  }

  /** `toCollection(sizeEncoder)`, `toArray(sizeEncoder)` and, with the pair
      encoder, `toMap(sizeEncoder)`. */
  method EncodeWithSize<T>(encoder: Encoder<T>, sizeEncoder: Encoder<Int32>, xs: seq<T>, output: Output)
    requires |xs| <= INT_MAX
    modifies output
    ensures output.written == old(output.written) + SizedBytes(encoder, sizeEncoder, xs)
  {
    var size: Int32 := |xs|;
    output.Encode(sizeEncoder, size);
    EncodeEach(encoder, xs, output);
  }

  /** The entries' loop of `toMap(valueEncoder, ...)`: each key with the key
      encoder, then its value with the value encoder. */
  method EncodeEntries<K, V>(keyEncoder: Encoder<K>, valueEncoder: Encoder<V>, entries: seq<(K, V)>, output: Output)
    modifies output
    ensures output.written == old(output.written) + Flat(And(keyEncoder, valueEncoder), entries)
  {
    var i := 0;
    while i < |entries|
      invariant 0 <= i <= |entries|
      invariant output.written == old(output.written) + Flat(And(keyEncoder, valueEncoder), entries[..i])
    {
      var (key, value) := entries[i];
      output.Encode(keyEncoder, key);
      output.Encode(valueEncoder, value);
      assert entries[..i + 1][..i] == entries[..i];
      i := i + 1;
    }
    assert entries[..|entries|] == entries;
  }

  /** `toMap(valueEncoder, sizeEncoder)`: writes what `toMap(sizeEncoder)` writes
      with the pair encoder `this and valueEncoder`. */
  method EncodeEntriesWithSize<K, V>(keyEncoder: Encoder<K>, valueEncoder: Encoder<V>, sizeEncoder: Encoder<Int32>,
                                     entries: seq<(K, V)>, output: Output)
    requires |entries| <= INT_MAX
    modifies output
    ensures output.written == old(output.written) + SizedBytes(And(keyEncoder, valueEncoder), sizeEncoder, entries)
  {
    var size: Int32 := |entries|;
    output.Encode(sizeEncoder, size);
    EncodeEntries(keyEncoder, valueEncoder, entries, output);
  }

  /** `toMap(valueEncoder, endMarker)`: writes what `toMap(endMarker)` writes with
      the pair encoder `this and valueEncoder`. */
  method EncodeEntriesWithMarker<K, V>(keyEncoder: Encoder<K>, valueEncoder: Encoder<V>, endMarker: (K, V),
                                       entries: seq<(K, V)>, output: Output)
    modifies output
    ensures output.written == old(output.written) + MarkedBytes(And(keyEncoder, valueEncoder), endMarker, entries)
  {
    EncodeEntries(keyEncoder, valueEncoder, entries, output);
    output.Encode(keyEncoder, endMarker.0);
    output.Encode(valueEncoder, endMarker.1);
  }

  /** What `toOptional(nullabilityEncoder)` writes: a false flag alone for null, a
      true flag and the value otherwise. */
  function OptionalBytes<T>(encoder: Encoder<T>, nullabilityEncoder: Encoder<bool>, obj: Option<T>): seq<UByte>
  {
    if obj.None? then nullabilityEncoder(false) else nullabilityEncoder(true) + encoder(obj.value)
  }

  /** The flag comes first and the value follows it; when the two flags differ and
      have the same width, the flag alone tells null from a value, and the bytes
      after it are the value's encoding. */
  lemma {:induction false} OptionalFlagFirst<T>(encoder: Encoder<T>, nullabilityEncoder: Encoder<bool>, a: Option<T>, b: Option<T>)
    requires |nullabilityEncoder(true)| == |nullabilityEncoder(false)| && nullabilityEncoder(true) != nullabilityEncoder(false)
    ensures var w := |nullabilityEncoder(true)|;
      && w <= |OptionalBytes(encoder, nullabilityEncoder, a)|
      && OptionalBytes(encoder, nullabilityEncoder, a)[..w] == nullabilityEncoder(a.Some?)
      && (a.Some? ==> OptionalBytes(encoder, nullabilityEncoder, a)[w..] == encoder(a.value))
      && (OptionalBytes(encoder, nullabilityEncoder, a) == OptionalBytes(encoder, nullabilityEncoder, b) ==> a.Some? == b.Some?)
  {
    var w := |nullabilityEncoder(true)|;
    if a.Some? {
      assert OptionalBytes(encoder, nullabilityEncoder, a)[..w] == nullabilityEncoder(true);
    } else {
      assert OptionalBytes(encoder, nullabilityEncoder, a)[..w] == nullabilityEncoder(false);
    }
    if b.Some? {
      assert OptionalBytes(encoder, nullabilityEncoder, b)[..w] == nullabilityEncoder(true);
    } else {
      assert OptionalBytes(encoder, nullabilityEncoder, b)[..w] == nullabilityEncoder(false);
    }
  }

  /** `toOptional(nullabilityEncoder)`. */
  method EncodeOptional<T>(encoder: Encoder<T>, nullabilityEncoder: Encoder<bool>, obj: Option<T>, output: Output)
    modifies output
    ensures output.written == old(output.written) + OptionalBytes(encoder, nullabilityEncoder, obj)
  {
    if obj.None? {
      output.Encode(nullabilityEncoder, false);
      return;
    }
    output.Encode(nullabilityEncoder, true);
    output.Encode(encoder, obj.value);
  }
}
