/** `ConstantArityReductionDecoder`: decodes exactly `arity` elements with a nested
    decoder and collects them, resuming where it stopped when the nested decoder
    runs out of input. The collector is modelled as a list of the elements in the
    order they were accumulated, which is what it is given. */
module ConstantArityReduction {
  import opened Wrappers
  import opened Jvm
  import opened DecoderState
  import opened ElementDecoder
  import opened Sequences

  /** The outcome of one `decode` call: the state returned, the elements collected
      so far when it is not `Done`, and the nested decoder's states left. */
  datatype Step<T> = Step(state: State<seq<T>>, collected: seq<T>, rest: seq<State<T>>)

  /** One `decode` call, from the elements `acc` already collected, with the
      nested decoder about to return the states of `script`. */
  function ArityRun<T>(arity: nat, acc: seq<T>, script: seq<State<T>>): Step<T>
    requires |acc| <= arity
    decreases arity - |acc|
  {
    if |acc| == arity then Step(Done(acc), [], script)
    else
      var s := Next(script);
      if s.Done? then ArityRun(arity, acc + [s.value], Rest(script))
      else Step(MapEmptyState<T, seq<T>>(s).value, acc, Rest(script))
  }

  /** A call ends `Done` exactly when the nested decoder delivers the missing
      `arity - |acc|` elements in a row; the result is then `acc` followed by those
      elements, in order, and nothing more is asked of the nested decoder. Otherwise
      the first state that is not `Done` is passed on through `mapEmptyState`, and
      the elements before it are kept for the next call. */
  lemma {:induction false} ArityRunSpec<T>(arity: nat, acc: seq<T>, script: seq<State<T>>)
    requires |acc| <= arity
    ensures var r := ArityRun(arity, acc, script);
      var n := arity - |acc|;
      var k := |Leading(script)|;
      && (k >= n ==> r == Step(Done(acc + Leading(script)[..n]), [], script[n..]))
      && (k < n ==> r.state == MapEmptyState<T, seq<T>>(Next(script[k..])).value
                    && r.collected == acc + Leading(script) && r.rest == Rest(script[k..]))
    decreases arity - |acc|
  {
    var n := arity - |acc|;
    DropNone(script);
    if n == 0 {
      assert acc + Leading(script)[..0] == acc;
    } else if script == [] || !script[0].Done? {
      assert acc + Leading(script) == acc;
    } else {
      var v := script[0].value;
      var tail := script[1..];
      var k := |Leading(script)|;
      assert Leading(script) == [v] + Leading(tail);
      assert ArityRun(arity, acc, script) == ArityRun(arity, acc + [v], tail);
      ArityRunSpec(arity, acc + [v], tail);
      Assoc(acc, [v], Leading(tail));
      TailDrop(script, if k >= n then n else k);
      if k >= n {
        ConsTake(v, Leading(tail), n);
        Assoc(acc, [v], Leading(tail)[..n - 1]);
      }
    }
  }

  /** A `Done` state holds exactly `arity` elements. */
  lemma {:induction false} ArityRunDoneSize<T>(arity: nat, acc: seq<T>, script: seq<State<T>>)
    requires |acc| <= arity
    ensures ArityRun(arity, acc, script).state.Done? ==> |ArityRun(arity, acc, script).state.value| == arity
  {
    ArityRunSpec(arity, acc, script);
  }

  /** Splitting the nested decoder's `Done` states over several calls changes
      nothing: after a call that collected `done` and stopped, the next call ends as
      a single call over all the states would have. */
  lemma {:induction false} ArityRunResumes<T>(arity: nat, acc: seq<T>, done: seq<State<T>>, script: seq<State<T>>)
    requires |acc| + |done| <= arity && |Leading(done)| == |done|
    ensures ArityRun(arity, acc + Leading(done), script) == ArityRun(arity, acc, done + script)
    decreases |done|
  {
    if done != [] {
      var v := done[0].value;
      var tail := done[1..];
      var all := done + script;
      assert Leading(done) == [v] + Leading(tail);
      assert all[0] == done[0];
      assert Rest(all) == tail + script;
      assert ArityRun(arity, acc, all) == ArityRun(arity, acc + [v], tail + script);
      ArityRunResumes(arity, acc + [v], tail, script);
      Assoc(acc, [v], Leading(tail));
    } else {
      assert done + script == script;
      assert acc + Leading(done) == acc;
    }
  }

  class ConstantArityDecoder<T> {
    const element: ScriptedDecoder<T>
    const arity: nat
    /** The collection being filled, `null` between two values. */
    var collection: Option<seq<T>>
    var index: int

    /** The elements collected so far. */
    function Collected(): seq<T>
      reads this
    {
      if collection.Some? then collection.value else []
    }

    /** `index` counts the elements collected, never more than `arity`; with no
        collection it is 0. */
    ghost predicate Valid()
      reads this
    {
      index == |Collected()| <= arity
    }

    /** The primary constructor, once `require(arity >= 0)` has passed. */
    constructor(element: ScriptedDecoder<T>, arity: Int32)
      requires arity >= 0
      ensures Valid() && this.element == element && this.arity == arity
      ensures collection.None? && index == 0
    {
      this.element := element;
      this.arity := arity;
      collection := None;
      index := 0;
    }

    /** `decode(input)`: accumulates elements until `arity` of them are there, then
        resets itself and returns them; returns the nested decoder's state, retyped,
        as soon as it is not `Done`, keeping what was collected. */
    method Decode() returns (r: State<seq<T>>)
      requires Valid()
      modifies this, element
      ensures Valid()
      ensures var run := ArityRun(arity, old(Collected()), old(element.script));
        && r == run.state && element.script == run.rest && element.resets == old(element.resets)
        && (r.Done? ==> collection.None? && index == 0)
        && (!r.Done? ==> collection == Some(run.collected) && index == |run.collected|)
    {
      if collection.None? {
        collection := Some([]);
      }
      while index < arity
        invariant collection.Some? && index == |collection.value| <= arity
        invariant ArityRun(arity, collection.value, element.script)
               == ArityRun(arity, old(Collected()), old(element.script))
        invariant element.resets == old(element.resets)
        decreases arity - index
      {
        var elementState := element.Decode();
        if elementState.Done? {
          collection := Some(collection.value + [elementState.value]);
          index := index + 1;
        } else {
          r := MapEmptyState<T, seq<T>>(elementState).value;
          return;
        }
      }
      var result := collection.value;
      collection := None;
      index := 0;
      r := Done(result);
    }

    /** `reset()`: clears the collection and the count, and resets the nested
        decoder. */
    method Reset()
      modifies this, element
      ensures Valid() && collection.None? && index == 0
      ensures element.resets == old(element.resets) + 1 && element.script == old(element.script)
    {
      collection := None;
      index := 0;
      element.Reset();
    }
  }

  /** The constructor's check: `IllegalArgumentException` for a negative arity. */
  method Create<T>(element: ScriptedDecoder<T>, arity: Int32) returns (r: Result<ConstantArityDecoder<T>>)
    ensures r.Ok? <==> arity >= 0
    ensures r.Err? ==> r.error == IllegalArgument
    ensures r.Ok? ==> fresh(r.value) && r.value.Valid() && r.value.arity == arity && r.value.element == element
  {
    if arity < 0 {
      return Err(IllegalArgument);
    }
    var d := new ConstantArityDecoder(element, arity);
    return Ok(d);
  }
}
