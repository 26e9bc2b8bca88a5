/** `Box`: a holder for a value that may be filled later. The mutable boxes
    (`singleWrite`, `rewritable`) are classes; the empty box and the prefilled
    box never change and are values. A box's content is `None` while it is not
    filled; reading the value of such a box throws `IllegalStateException`. */
module Box {
  import opened Wrappers

  /** Reading `value`: the content of a filled box, `IllegalStateException`
      otherwise. */
  function ValueOf<T>(content: Option<T>): (r: Result<T>)
    ensures r.Ok? <==> content.Some?
    ensures r.Ok? ==> r.value == content.value
    ensures r.Err? ==> r.error == IllegalState
  {
    if content.Some? then Ok(content.value) else Err(IllegalState)
  }

  /** A `fill(v)` on a single-write box holding `content`: the new content and the
      result of the call. */
  function SingleWriteFill<T>(content: Option<T>, v: T): (Option<T>, bool)
  {
    if content.Some? then (content, false) else (Some(v), true)
  }

  /** The content after the fills of `vs`, in order, on a single-write box. */
  function SingleWriteAfter<T>(content: Option<T>, vs: seq<T>): Option<T>
    decreases |vs|
  {
    if vs == [] then content
    else SingleWriteAfter(SingleWriteFill(content, vs[0]).0, vs[1..])
  }

  /** How many of the fills of `vs`, in order, return `true` on a single-write box. */
  function SingleWriteAccepted<T>(content: Option<T>, vs: seq<T>): nat
    decreases |vs|
  {
    if vs == [] then 0
    else var (c, accepted) := SingleWriteFill(content, vs[0]);
      (if accepted then 1 else 0) + SingleWriteAccepted(c, vs[1..])
  }

  /** On a box not yet filled, the first fill wins: the box holds the first value
      written, and exactly one fill (the first) returns `true`. A filled box keeps
      its value whatever is written. */
  lemma {:induction false} SingleWriteFirstWins<T>(content: Option<T>, vs: seq<T>)
    ensures content.Some? ==> SingleWriteAfter(content, vs) == content && SingleWriteAccepted(content, vs) == 0
    ensures content.None? && vs != [] ==> SingleWriteAfter(content, vs) == Some(vs[0])
    ensures content.None? ==> SingleWriteAccepted(content, vs) == if vs == [] then 0 else 1
    decreases |vs|
  {
    if vs != [] {
      SingleWriteFirstWins(SingleWriteFill(content, vs[0]).0, vs[1..]);
    }
  }

  /** The content after the fills of `vs`, in order, on a rewritable box. */
  function RewritableAfter<T>(content: Option<T>, vs: seq<T>): Option<T>
    decreases |vs|
  {
    if vs == [] then content else RewritableAfter(Some(vs[0]), vs[1..])
  }

  /** On a rewritable box the last write wins. */
  lemma {:induction false} RewritableLastWins<T>(content: Option<T>, vs: seq<T>)
    ensures vs != [] ==> RewritableAfter(content, vs) == Some(vs[|vs| - 1])
    ensures vs == [] ==> RewritableAfter(content, vs) == content
    decreases |vs|
  {
    if |vs| > 1 {
      RewritableLastWins(Some(vs[0]), vs[1..]);
    }
  }

  /** `Box.singleWrite()`. */
  class SingleWriteBox<T> {
    var content: Option<T>

    constructor()
      ensures content.None?
    {
      content := None;
    }

    /** `isFilled`. */
    function IsFilled(): bool
      reads this
    {
      content.Some?
    }

    /** `value`. */
    method Value() returns (r: Result<T>)
      ensures r == ValueOf(content)
      ensures r.Ok? <==> IsFilled()
    {
      if !IsFilled() {
        return Err(IllegalState);
      }
      r := Ok(content.value);
    }

    /** `fill(value)`: stores `v` and returns `true` only on the first call. */
    method Fill(v: T) returns (accepted: bool)
      modifies this
      ensures (content, accepted) == SingleWriteFill(old(content), v)
      ensures accepted <==> !old(IsFilled())
      ensures IsFilled()
      ensures old(IsFilled()) ==> content == old(content)
    {
      if content.Some? {
        return false;
      }
      content := Some(v);
      accepted := true;
    }
  }

  /** `Box.rewritable()` and `Box.rewritable(initial)`. */
  class RewritableBox<T> {
    var content: Option<T>

    constructor()
      ensures content.None?
    {
      content := None;
    }

    /** `rewritable(initial)`: filled from construction. */
    constructor WithInitial(initial: T)
      ensures content == Some(initial)
    {
      content := Some(initial);
    }

    function IsFilled(): bool
      reads this
    {
      content.Some?
    }

    /** `value`: the same getter as the single-write box's; both are specified by `ValueOf`. */
    method Value() returns (r: Result<T>)
      ensures r == ValueOf(content)
      ensures r.Ok? <==> IsFilled()
    {
      if !IsFilled() {
        return Err(IllegalState);
      }
      r := Ok(content.value);
    }

    /** `fill(value)`: always stores `v` and returns `true`. */
    method Fill(v: T) returns (accepted: bool)
      modifies this
      ensures content == RewritableAfter(old(content), [v]) == Some(v)
      ensures accepted
    {
      content := Some(v);
      accepted := true;
    }
  }

  /** `Box.prefilled(value)` and `Box.empty()`: boxes that never change. */
  datatype FixedBox<T> = Prefilled(v: T) | Empty {
    function IsFilled(): (r: bool)
      ensures r <==> Prefilled?
    {
      Prefilled?
    }

    /** The prefilled box always gives its value; the empty box always throws. */
    function Value(): (r: Result<T>)
      ensures Prefilled? ==> r == Ok(v)
      ensures Empty? ==> r == Err(IllegalState)
      ensures r == ValueOf(if Prefilled? then Some(v) else None)
    {
      if Prefilled? then Ok(v) else Err(IllegalState)
    }
  }
}
