/** `MarkerEndedReductionDecoder`: decodes elements with a nested decoder and
    collects them until one satisfies `shouldStop`, which ends the collection and is
    kept in it only when `keepLast` is set. The collector is modelled as the list of
    the elements it is given, in order. */
module MarkerEndedReduction {
  import opened Wrappers
  import opened DecoderState
  import opened ElementDecoder
  import opened Sequences

  /** The outcome of one `decode` call: the state returned, the elements collected
      so far when it is not `Done`, and the nested decoder's states left. */
  datatype Step<T> = Step(state: State<seq<T>>, collected: seq<T>, rest: seq<State<T>>)

  /** The values of the `Done` states at the head of a script that do not stop the
      collection, up to the first state that is not one of them. */
  function Before<T>(script: seq<State<T>>, shouldStop: T -> bool): (r: seq<T>)
    ensures |r| <= |script|
    ensures |r| < |script| && script[|r|].Done? ==> shouldStop(script[|r|].value)
  {
    if script == [] || !script[0].Done? || shouldStop(script[0].value) then []
    else [script[0].value] + Before(script[1..], shouldStop)
  }

  /** One `decode` call, from the elements `acc` already collected, with the
      nested decoder about to return the states of `script`. */
  function MarkerRun<T>(acc: seq<T>, script: seq<State<T>>, shouldStop: T -> bool, keepLast: bool): Step<T>
    decreases |script|
  {
    var s := Next(script);
    if !s.Done? then Step(MapEmptyState<T, seq<T>>(s).value, acc, Rest(script))
    else if shouldStop(s.value) then Step(Done(if keepLast then acc + [s.value] else acc), [], Rest(script))
    else MarkerRun(acc + [s.value], Rest(script), shouldStop, keepLast)
  }

  /** A call collects the elements that do not stop, in order. It ends `Done` at the
      first element that stops, which the result holds as its last element exactly
      when `keepLast` is set, and asks nothing more of the nested decoder. Otherwise
      the first state that is not `Done` is passed on through `mapEmptyState`, and
      the elements before it are kept for the next call. */
  lemma {:induction false} MarkerRunSpec<T>(acc: seq<T>, script: seq<State<T>>, shouldStop: T -> bool, keepLast: bool)
    ensures var r := MarkerRun(acc, script, shouldStop, keepLast);
      var before := Before(script, shouldStop);
      var k := |before|;
      && (k < |script| && script[k].Done? ==>
            r == Step(Done(acc + before + if keepLast then [script[k].value] else []), [], script[k + 1..]))
      && (!(k < |script| && script[k].Done?) ==>
            r.state == MapEmptyState<T, seq<T>>(Next(script[k..])).value
            && r.collected == acc + before && r.rest == Rest(script[k..]))
    decreases |script|
  {
    DropNone(script);
    if script == [] || !script[0].Done? || shouldStop(script[0].value) {
      assert acc + Before(script, shouldStop) == acc;
    } else {
      var v := script[0].value;
      var tail := script[1..];
      var k := |Before(script, shouldStop)|;
      assert Before(script, shouldStop) == [v] + Before(tail, shouldStop);
      assert MarkerRun(acc, script, shouldStop, keepLast) == MarkerRun(acc + [v], tail, shouldStop, keepLast);
      MarkerRunSpec(acc + [v], tail, shouldStop, keepLast);
      Assoc(acc, [v], Before(tail, shouldStop));
      if k < |script| {
        TailDrop(script, k);
        TailDrop(script, k + 1);
      } else {
        TailDrop(script, k);
      }
    }
  }

  /** Splitting the nested decoder's states over several calls changes nothing:
      after a call that collected `done` and stopped for more input, the next call
      ends as a single call over all the states would have. */
  lemma {:induction false} MarkerRunResumes<T>(acc: seq<T>, done: seq<State<T>>, script: seq<State<T>>,
                                             shouldStop: T -> bool, keepLast: bool)
    requires |Before(done, shouldStop)| == |done|
    ensures MarkerRun(acc + Before(done, shouldStop), script, shouldStop, keepLast)
         == MarkerRun(acc, done + script, shouldStop, keepLast)
    decreases |done|
  {
    if done != [] {
      var v := done[0].value;
      var tail := done[1..];
      var all := done + script;
      assert Before(done, shouldStop) == [v] + Before(tail, shouldStop);
      assert all[0] == done[0];
      assert Rest(all) == tail + script;
      assert MarkerRun(acc, all, shouldStop, keepLast) == MarkerRun(acc + [v], tail + script, shouldStop, keepLast);
      MarkerRunResumes(acc + [v], tail, script, shouldStop, keepLast);
      Assoc(acc, [v], Before(tail, shouldStop));
    } else {
      assert done + script == script;
      assert acc + Before(done, shouldStop) == acc;
    }
  }

  class MarkerEndedDecoder<T> {
    const element: ScriptedDecoder<T>
    const keepLast: bool
    const shouldStop: T -> bool
    /** The collection being filled, `null` between two values. */
    var collection: Option<seq<T>>
    var index: int

    /** The elements collected so far. */
    function Collected(): seq<T>
      reads this
    {
      if collection.Some? then collection.value else []
    }

    /** `index` counts the elements collected; with no collection it is 0. */
    ghost predicate Valid()
      reads this
    {
      index == |Collected()|
    }

    constructor(element: ScriptedDecoder<T>, keepLast: bool, shouldStop: T -> bool)
      ensures Valid() && this.element == element && this.keepLast == keepLast && this.shouldStop == shouldStop
      ensures collection.None? && index == 0
    {
      this.element := element;
      this.keepLast := keepLast;
      this.shouldStop := shouldStop;
      collection := None;
      index := 0;
    }

    /** `decode(input)`: accumulates elements until one stops the collection, then
        resets itself and returns the collection; returns the nested decoder's state,
        retyped, as soon as it is not `Done`, keeping what was collected. */
    method Decode() returns (r: State<seq<T>>)
      requires Valid()
      modifies this, element
      ensures Valid()
      ensures var run := MarkerRun(old(Collected()), old(element.script), shouldStop, keepLast);
        && r == run.state && element.script == run.rest && element.resets == old(element.resets)
        && (r.Done? ==> collection.None? && index == 0)
        && (!r.Done? ==> collection == Some(run.collected) && index == |run.collected|)
    {
      if collection.None? {
        collection := Some([]);
      }
      while true
        invariant collection.Some? && index == |collection.value|
        invariant MarkerRun(collection.value, element.script, shouldStop, keepLast)
               == MarkerRun(old(Collected()), old(element.script), shouldStop, keepLast)
        invariant element.resets == old(element.resets)
        decreases |element.script|
      {
        var elementState := element.Decode();
        if elementState.Done? {
          var e := elementState.value;
          if shouldStop(e) {
            if keepLast {
              collection := Some(collection.value + [e]);
            }
            var result := collection.value;
            collection := None;
            index := 0;
            return Done(result);
          }
          collection := Some(collection.value + [e]);
          index := index + 1;
        } else {
          return MapEmptyState<T, seq<T>>(elementState).value;
        }
      }
    }

    /** `reset()`: clears the collection and the count, and resets the nested
        decoder. */
    method Reset()
      modifies this, element
      ensures Valid() && collection.None? && index == 0
      ensures element.resets == old(element.resets) + 1 && element.script == old(element.script)
    {
      collection := None;
      index := 0;
      element.Reset();
    }
  }
}
