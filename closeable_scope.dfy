/** `CloseableScope` and `closeableScope`: closeables registered in a scope are
    closed in the reverse order of their registration, every one of them even
    when some fail; the first exception (the block's, else the first failing
    close) is thrown with the later ones suppressed under it. A closeable is
    modelled by an identifier and the exception its `close()` throws, if any. */
module CloseableScope {
  import opened Wrappers
  import opened Sequences

  datatype Closeable = Closeable(id: nat, closeFailure: Option<Exception>)

  /** A thrown exception together with the exceptions suppressed under it, in the
      order they were added. */
  datatype Failure = Failure(primary: Exception, suppressed: seq<Exception>)

  /** The outcome of `closeableScope`: the block's result, or a thrown failure. */
  datatype Outcome<R> = Returned(value: R) | Threw(failure: Failure)

  /** The identifiers of `cs`, in order. */
  function Ids(cs: seq<Closeable>): (r: seq<nat>)
    ensures |r| == |cs|
  {
    if cs == [] then [] else Ids(cs[..|cs| - 1]) + [cs[|cs| - 1].id]
  }

  lemma {:induction false} IdsAt(cs: seq<Closeable>)
    ensures forall i :: 0 <= i < |cs| ==> Ids(cs)[i] == cs[i].id
    decreases |cs|
  {
    if cs != [] {
      IdsAt(cs[..|cs| - 1]);
    }
  }

  /** The `k`-th close call goes to the `k`-th closeable counted from the last
      one registered. */
  lemma CloseOrder(cs: seq<Closeable>)
    ensures forall k :: 0 <= k < |cs| ==> Ids(Reverse(cs))[k] == cs[|cs| - 1 - k].id
  {
    IdsAt(Reverse(cs));
  }

  /** The exceptions thrown by closing `cs` in the order given. */
  function Failures(cs: seq<Closeable>): seq<Exception>
  {
    if cs == [] then []
    else Failures(cs[..|cs| - 1]) + (if cs[|cs| - 1].closeFailure.Some? then [cs[|cs| - 1].closeFailure.value] else [])
  }

  /** Adds the exceptions of `es`, in order, to the exception being built: the first
      becomes the thrown exception when there is none yet, the others are
      suppressed. */
  function Accumulate(exception: Option<Failure>, es: seq<Exception>): Option<Failure>
  {
    if es == [] then exception
    else
      var e := es[|es| - 1];
      var before := Accumulate(exception, es[..|es| - 1]);
      if before.None? then Some(Failure(e, [])) else Some(Failure(before.value.primary, before.value.suppressed + [e]))
  }

  /** Every exception is kept: the thrown one, then the suppressed ones, are the
      initial exception's followed by the close failures in order. */
  lemma {:induction false} AccumulateKeepsAll(exception: Option<Failure>, es: seq<Exception>)
    ensures exception.Some? ==>
      Accumulate(exception, es) == Some(Failure(exception.value.primary, exception.value.suppressed + es))
    ensures exception.None? && es == [] ==> Accumulate(exception, es).None?
    ensures exception.None? && es != [] ==> Accumulate(exception, es) == Some(Failure(es[0], es[1..]))
    decreases |es|
  {
    if es == [] {
      if exception.Some? {
        assert exception.value.suppressed + es == exception.value.suppressed;
      }
    } else {
      var init := es[..|es| - 1];
      AccumulateKeepsAll(exception, init);
      if exception.Some? {
        assert exception.value.suppressed + init + [es[|es| - 1]] == exception.value.suppressed + es;
      } else if init != [] {
        assert es[0] == init[0];
        assert init[1..] + [es[|es| - 1]] == es[1..];
      } else {
        assert es[1..] == [];
      }
    }
  }

  /** A scope is quiet exactly when there is no initial exception and no close
      fails. */
  lemma NothingThrown(exception: Option<Failure>, cs: seq<Closeable>)
    ensures Accumulate(exception, Failures(Reverse(cs))).None?
        <==> exception.None? && forall i :: 0 <= i < |cs| ==> cs[i].closeFailure.None?
  {
    var rev := Reverse(cs);
    AccumulateKeepsAll(exception, Failures(rev));
    FailuresEmpty(rev);
    if forall i :: 0 <= i < |rev| ==> rev[i].closeFailure.None? {
      forall i | 0 <= i < |cs|
        ensures cs[i].closeFailure.None?
      {
        assert rev[|cs| - 1 - i] == cs[i];
      }
    }
  }

  lemma {:induction false} FailuresEmpty(cs: seq<Closeable>)
    ensures Failures(cs) == [] <==> forall i :: 0 <= i < |cs| ==> cs[i].closeFailure.None?
    decreases |cs|
  {
    if cs != [] {
      var init := cs[..|cs| - 1];
      FailuresEmpty(init);
      assert forall i :: 0 <= i < |init| ==> init[i] == cs[i];
    }
  }

  class Scope {
    /** The closeables registered, in order. */
    var closeables: seq<Closeable>
    /** The identifiers of the closeables closed so far, in the order of the
        `close()` calls. */
    var closed: seq<nat>

    constructor()
      ensures closeables == [] && closed == []
    {
      closeables := [];
      closed := [];
    }

    /** `using(closeable)`: registers it and hands it back. */
    method Using(c: Closeable) returns (r: Closeable)
      modifies this
      ensures r == c
      ensures closeables == old(closeables) + [c] && closed == old(closed)
    {
      closeables := closeables + [c];
      r := c;
    }

    /** Registers the closeables of `cs` in order, as `closeableScope` does with
        its arguments. */
    method UsingAll(cs: seq<Closeable>)
      modifies this
      ensures closeables == old(closeables) + cs && closed == old(closed)
    {
      var i := 0;
      while i < |cs|
        invariant 0 <= i <= |cs|
        invariant closeables == old(closeables) + cs[..i] && closed == old(closed)
      {
        var _ := Using(cs[i]);
        assert cs[..i + 1] == cs[..i] + [cs[i]];
        i := i + 1;
      }
      assert cs[..i] == cs;
    }

    /** `closeAll(initialException)`: closes every registered closeable from the
        last to the first, collecting the exceptions. */
    method CloseAll(initial: Option<Exception>) returns (thrown: Option<Failure>)
      modifies this
      ensures closeables == old(closeables)
      ensures closed == old(closed) + Ids(Reverse(closeables))
      ensures thrown == Accumulate(if initial.Some? then Some(Failure(initial.value, [])) else None,
                                   Failures(Reverse(closeables)))
    {
      var exception: Option<Failure> := if initial.Some? then Some(Failure(initial.value, [])) else None;
      ghost var start := exception;
      var i := |closeables| - 1;
      assert closeables[i + 1..] == [];
      assert old(closed) + [] == old(closed);
      while i >= 0
        invariant -1 <= i < |closeables| && closeables == old(closeables)
        invariant closed == old(closed) + Ids(Reverse(closeables[i + 1..]))
        invariant exception == Accumulate(start, Failures(Reverse(closeables[i + 1..])))
      {
        var c := closeables[i];
        ghost var done := Reverse(closeables[i + 1..]);
        assert closeables[i..] == [c] + closeables[i + 1..];
        ReverseCons(c, closeables[i + 1..]);
        CloseStep(start, done, c);
        closed := closed + [c.id];
        if c.closeFailure.Some? {
          var e := c.closeFailure.value;
          if exception.None? {
            exception := Some(Failure(e, []));
          } else {
            exception := Some(Failure(exception.value.primary, exception.value.suppressed + [e]));
          }
        }
        i := i - 1;
      }
      assert closeables[0..] == closeables;
      thrown := exception;
    }
  }

  lemma ReverseCons<T>(c: T, t: seq<T>)
    ensures Reverse([c] + t) == Reverse(t) + [c]
  {
    var a, b := Reverse([c] + t), Reverse(t) + [c];
    assert |a| == |b|;
    forall i | 0 <= i < |a|
      ensures a[i] == b[i]
    {
      if i < |t| {
        assert ([c] + t)[|t| - i] == t[|t| - 1 - i];
      }
    }
  }

  /** Closing one more closeable `c` after those of `done`. */
  lemma CloseStep(start: Option<Failure>, done: seq<Closeable>, c: Closeable)
    ensures Ids(done + [c]) == Ids(done) + [c.id]
    ensures var before := Accumulate(start, Failures(done));
      Accumulate(start, Failures(done + [c])) ==
        if c.closeFailure.None? then before
        else if before.None? then Some(Failure(c.closeFailure.value, []))
        else Some(Failure(before.value.primary, before.value.suppressed + [c.closeFailure.value]))
  {
    var all := done + [c];
    assert all[..|all| - 1] == done;
    var f := Failures(done);
    if c.closeFailure.Some? {
      assert (f + [c.closeFailure.value])[..|f|] == f;
    } else {
      assert f + [] == f;
    }
  }

  /** What `closeableScope` ends with, given the block's outcome and the
      exceptions thrown by the closes, in the order of the calls. */
  function ScopeOutcome<R>(blockOutcome: Result<R>, failures: seq<Exception>): Outcome<R>
  {
    var thrown := Accumulate(if blockOutcome.Err? then Some(Failure(blockOutcome.error, [])) else None, failures);
    if thrown.Some? then Threw(thrown.value) else Returned(blockOutcome.value)
  }

  /** The block's exception is thrown with every close failure suppressed under it;
      without one, the first close failure is thrown with the later ones
      suppressed; without any, the block's result is returned. */
  lemma ScopeOutcomeSpec<R>(blockOutcome: Result<R>, failures: seq<Exception>)
    ensures blockOutcome.Err? ==> ScopeOutcome(blockOutcome, failures) == Threw(Failure(blockOutcome.error, failures))
    ensures blockOutcome.Ok? && failures == [] ==> ScopeOutcome(blockOutcome, failures) == Returned(blockOutcome.value)
    ensures blockOutcome.Ok? && failures != [] ==>
      ScopeOutcome(blockOutcome, failures) == Threw(Failure(failures[0], failures[1..]))
  {
    AccumulateKeepsAll(if blockOutcome.Err? then Some(Failure(blockOutcome.error, [])) else None, failures);
    if blockOutcome.Err? {
      assert [] + failures == failures;
    }
  }

  /** `closeableScope(closeables, block)`: registers `closeables`, runs the block,
      which registers `registered` and then returns or throws as `blockOutcome`
      says, and closes everything whatever happened. */
  method RunScope<R>(closeables: seq<Closeable>, registered: seq<Closeable>, blockOutcome: Result<R>)
    returns (r: Outcome<R>, closed: seq<nat>)
    ensures closed == Ids(Reverse(closeables + registered))
    ensures r == ScopeOutcome(blockOutcome, Failures(Reverse(closeables + registered)))
  {
    var scope := new Scope();
    scope.UsingAll(closeables);
    scope.UsingAll(registered);
    assert [] + closeables + registered == closeables + registered;
    var exception := if blockOutcome.Err? then Some(blockOutcome.error) else None;
    var thrown := scope.CloseAll(exception);
    closed := scope.closed;
    assert [] + closed == closed;
    if thrown.Some? {
      r := Threw(thrown.value);
    } else {
      r := Returned(blockOutcome.value);
    }
  }
}
