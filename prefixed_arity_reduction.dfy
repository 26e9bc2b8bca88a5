/** `PrefixedArityReductionDecoder`: decodes a size with one nested decoder, then
    exactly that many elements with another, and collects them; the size is decoded
    once per value, with -1 marking that it is still to be read. The size decoder
    yields a `Number`; the model takes it as a `Long` and converts it with
    `toInt()`, which keeps its low 32 bits. */
module PrefixedArityReduction {
  import opened Wrappers
  import opened Jvm
  import opened DecoderState
  import opened ElementDecoder
  import opened ConstantArityReduction

  /** The outcome of one `decode` call: the state returned, the size field and the
      elements collected afterwards, the states left to both nested decoders, and
      whether the decoder reset itself and both nested decoders. */
  datatype Outcome<T> = Outcome(state: State<seq<T>>, size: int, collected: seq<T>,
                                sizeRest: seq<State<Int64>>, rest: seq<State<T>>, resetAll: bool)

  /** The element loop of a call once the size `n` is known: `ArityRun`, after which
      a `Done` state clears the size and the collection. */
  function Collect<T>(n: nat, acc: seq<T>, sizeScript: seq<State<Int64>>, script: seq<State<T>>): Outcome<T>
    requires |acc| <= n
  {
    var run := ArityRun(n, acc, script);
    if run.state.Done? then Outcome(run.state, -1, [], sizeScript, run.rest, false)
    else Outcome(run.state, n, run.collected, sizeScript, run.rest, false)
  }

  /** One `decode` call, from the size field `size` and the elements `acc` collected,
      with the nested decoders about to return the states of `sizeScript` and
      `script`. */
  function PrefixedRun<T>(size: int, acc: seq<T>, sizeScript: seq<State<Int64>>, script: seq<State<T>>): Outcome<T>
    requires size == -1 || 0 <= |acc| <= size
  {
    if size == -1 then
      var s := Next(sizeScript);
      if !s.Done? then Outcome(MapEmptyState<Int64, seq<T>>(s).value, -1, [], Rest(sizeScript), script, false)
      else if LongToInt(s.value) < 0 then Outcome(Error(IllegalState), -1, [], Rest(sizeScript), script, true)
      else Collect(LongToInt(s.value), [], Rest(sizeScript), script)
    else Collect(size, acc, sizeScript, script)
  }

  /** The size is asked for only while the size field is -1, and a negative size
      gives `Error(IllegalStateException)` and resets everything. */
  lemma {:induction false} PrefixedRunSize<T>(size: int, acc: seq<T>, sizeScript: seq<State<Int64>>, script: seq<State<T>>)
    requires size == -1 || 0 <= |acc| <= size
    ensures var o := PrefixedRun(size, acc, sizeScript, script);
      && (size != -1 ==> o.sizeRest == sizeScript && !o.resetAll)
      && (size == -1 ==> o.sizeRest == Rest(sizeScript))
      && (o.resetAll <==> size == -1 && Next(sizeScript).Done? && LongToInt(Next(sizeScript).value) < 0)
      && (o.resetAll ==> o == Outcome(Error(IllegalState), -1, [], Rest(sizeScript), script, true))
      && (size == -1 && !Next(sizeScript).Done? ==> o.state == MapEmptyState<Int64, seq<T>>(Next(sizeScript)).value)
  {
  }

  /** Once the size `n` is known the call collects elements as a decoder of constant
      arity `n` would, so a `Done` state holds exactly `n` elements (in the order the
      element decoder delivered them, by `ArityRunSpec`); it leaves the size field at
      -1 with nothing collected. */
  lemma {:induction false} PrefixedRunElements<T>(size: int, acc: seq<T>, sizeScript: seq<State<Int64>>, script: seq<State<T>>)
    requires size == -1 || 0 <= |acc| <= size
    ensures var o := PrefixedRun(size, acc, sizeScript, script);
      && (size != -1 ==> o.state == ArityRun(size, acc, script).state)
      && (size == -1 && Next(sizeScript).Done? && LongToInt(Next(sizeScript).value) >= 0 ==>
            o.state == ArityRun(LongToInt(Next(sizeScript).value), [], script).state)
      && (o.state.Done? ==> o.size == -1 && o.collected == [])
      && (o.state.Done? && size != -1 ==> |o.state.value| == size)
      && (o.state.Done? && size == -1 ==> |o.state.value| == LongToInt(Next(sizeScript).value))
      && (!o.state.Done? && o.size != -1 ==> |o.collected| <= o.size)
  {
    if size != -1 {
      ArityRunDoneSize(size, acc, script);
      ArityRunSpec(size, acc, script);
    } else if Next(sizeScript).Done? && LongToInt(Next(sizeScript).value) >= 0 {
      ArityRunDoneSize(LongToInt(Next(sizeScript).value), [], script);
      ArityRunSpec(LongToInt(Next(sizeScript).value), [], script);
    }
  }

  /** The size is `toInt()` of the decoded `Long`: a size of 2^32 keeps none of its
      bits and gives an empty collection at once, and 2^32 - 1 becomes -1, which
      is refused as negative. */
  lemma WideSizeTruncated<T>(script: seq<State<T>>)
    ensures PrefixedRun(-1, [], [Done(0x1_0000_0000)], script).state == Done([])
    ensures PrefixedRun(-1, [], [Done(0xFFFF_FFFF)], script).state == Error(IllegalState)
  {
    assert LongToInt(0x1_0000_0000) == 0;
    assert LongToInt(0xFFFF_FFFF) == -1;
  }

  class PrefixedArityDecoder<T> {
    const element: ScriptedDecoder<T>
    const sizeDecoder: ScriptedDecoder<Int64>
    /** The collection being filled, `null` until the size is known. */
    var collection: Option<seq<T>>
    /** The size read, or -1 while it is still to be read. */
    var size: int
    var index: int

    /** The elements collected so far. */
    function Collected(): seq<T>
      reads this
    {
      if collection.Some? then collection.value else []
    }

    /** With the size still to read there is no collection; once it is read, the
        collection holds `index` elements, at most `size`. The two nested decoders
        are distinct objects. */
    ghost predicate Valid()
      reads this
    {
      && element as object != sizeDecoder as object
      && (size == -1 ==> collection.None? && index == 0)
      && (size != -1 ==> collection.Some? && 0 <= index == |collection.value| <= size)
    }

    constructor(element: ScriptedDecoder<T>, sizeDecoder: ScriptedDecoder<Int64>)
      requires element as object != sizeDecoder as object
      ensures Valid() && this.element == element && this.sizeDecoder == sizeDecoder
      ensures collection.None? && size == -1 && index == 0
    {
      this.element := element;
      this.sizeDecoder := sizeDecoder;
      collection := None;
      size := -1;
      index := 0;
    }

    /** `decode(input)`. */
    method Decode() returns (r: State<seq<T>>)
      requires Valid()
      modifies this, element, sizeDecoder
      ensures Valid()
      ensures var o := PrefixedRun(old(size), old(Collected()), old(sizeDecoder.script), old(element.script));
        && r == o.state && size == o.size && Collected() == o.collected
        && sizeDecoder.script == o.sizeRest && element.script == o.rest
        && element.resets == old(element.resets) + (if o.resetAll then 1 else 0)
        && sizeDecoder.resets == old(sizeDecoder.resets) + (if o.resetAll then 1 else 0)
    {
      if size == -1 {
        var sizeState := sizeDecoder.Decode();
        if sizeState.Done? {
          var decoded := LongToInt(sizeState.value);
          if decoded < 0 {
            Reset();
            return Error(IllegalState);
          }
          size := decoded;
        } else {
          return MapEmptyState<Int64, seq<T>>(sizeState).value;
        }
        collection := Some([]);
      }
      r := CollectElements();
    }

    /** The element loop of `decode`, once the size is known. */
    method CollectElements() returns (r: State<seq<T>>)
      requires Valid() && size != -1
      modifies this, element
      ensures Valid()
      ensures var o := Collect(old(size), old(Collected()), sizeDecoder.script, old(element.script));
        && r == o.state && size == o.size && Collected() == o.collected
        && element.script == o.rest && element.resets == old(element.resets)
    {
      while index < size
        invariant Valid() && size == old(size)
        invariant ArityRun(size, collection.value, element.script)
               == ArityRun(size, old(Collected()), old(element.script))
        invariant element.resets == old(element.resets)
        decreases size - index
      {
        var elementState := element.Decode();
        if elementState.Done? {
          collection := Some(collection.value + [elementState.value]);
          index := index + 1;
        } else {
          return MapEmptyState<T, seq<T>>(elementState).value;
        }
      }
      var result := collection.value;
      size := -1;
      index := 0;
      collection := None;
      r := Done(result);
    }

    /** `reset()`: clears the collection, the size and the count, and resets both
        nested decoders. */
    method Reset()
      requires Valid()
      modifies this, element, sizeDecoder
      ensures Valid() && collection.None? && size == -1 && index == 0
      ensures element.resets == old(element.resets) + 1 && element.script == old(element.script)
      ensures sizeDecoder.resets == old(sizeDecoder.resets) + 1 && sizeDecoder.script == old(sizeDecoder.script)
    {
      collection := None;
      size := -1;
      index := 0;
      element.Reset();
      sizeDecoder.Reset();
    }
  }
}
