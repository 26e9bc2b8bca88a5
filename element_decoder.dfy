/** A nested decoder as the composite decoders see it. The decoders that collect
    elements or read a size prefix (`ConstantArityReductionDecoder`,
    `MarkerEndedReductionDecoder`, `PrefixedArityReductionDecoder`,
    `PrefixedSizeItemDecoder`) only ever look at the state a nested decoder returns,
    so a nested decoder is modelled by the states it returns on its successive
    calls, in order. */
module ElementDecoder {
  import opened DecoderState

  /** The state the next call returns: the head of the script, or `Processing` once
      the script is used up (no more input). */
  function Next<T>(script: seq<State<T>>): (s: State<T>)
    ensures script != [] ==> s == script[0]
    ensures script == [] ==> s == Processing
  {
    if script == [] then Processing else script[0]
  }

  /** The states left after one call. */
  function Rest<T>(script: seq<State<T>>): (r: seq<State<T>>)
    ensures |r| == if script == [] then 0 else |script| - 1
    ensures script != [] ==> script == [script[0]] + r
  {
    if script == [] then [] else script[1..]
  }

  /** The values of the `Done` states at the head of a script, up to the first
      state that is not `Done`. */
  function Leading<T>(script: seq<State<T>>): (r: seq<T>)
    ensures |r| <= |script|
    ensures |r| < |script| ==> !script[|r|].Done?
  {
    if script == [] || !script[0].Done? then [] else [script[0].value] + Leading(script[1..])
  }

  /** A nested decoder (`Decoder<T>`): each `decode` returns the next state of its
      script; `reset` is counted so that callers can be seen to reset it. */
  class ScriptedDecoder<T> {
    var script: seq<State<T>>
    var resets: nat

    constructor(script: seq<State<T>>)
      ensures this.script == script && resets == 0
    {
      this.script := script;
      resets := 0;
    }

    /** `decode(input)`. */
    method Decode() returns (s: State<T>)
      modifies this
      ensures s == Next(old(script)) && script == Rest(old(script)) && resets == old(resets)
    {
      if script == [] {
        s := Processing;
      } else {
        s := script[0];
        script := script[1..];
      }
    }

    /** `reset()`. */
    method Reset()
      modifies this
      ensures script == old(script) && resets == old(resets) + 1
    {
      resets := resets + 1;
    }
  }
}
