/** Small facts about sequences that the decoder proofs use at each step, the
    search for a marker, Kotlin's `split` with a delimiter, and Kotlin's `toMap()`
    on a sequence of pairs. */
module Sequences {
  import opened Wrappers

  /** Concatenation is associative. */
  lemma {:induction false} Assoc<T>(a: seq<T>, b: seq<T>, c: seq<T>)
    ensures (a + b) + c == a + (b + c)
  {
    forall i | 0 <= i < |a| + |b| + |c|
      ensures ((a + b) + c)[i] == (a + (b + c))[i]
    {
    }
  }

  /** The elements of `s` in reverse order. */
  function Reverse<T>(s: seq<T>): (r: seq<T>)
    ensures |r| == |s| && forall i :: 0 <= i < |s| ==> r[i] == s[|s| - 1 - i]
  {
    if s == [] then [] else Reverse(s[1..]) + [s[0]]
  }

  /** The first `n` elements of `[v] + s` are `v` and the first `n - 1` of `s`. */
  lemma {:induction false} ConsTake<T>(v: T, s: seq<T>, n: int)
    requires 1 <= n <= |s| + 1
    ensures ([v] + s)[..n] == [v] + s[..n - 1]
  {
    forall i | 0 <= i < n
      ensures ([v] + s)[..n][i] == ([v] + s[..n - 1])[i]
    {
    }
  }

  /** Dropping `j - 1` elements of the tail is dropping `j` of the sequence. */
  lemma {:induction false} TailDrop<T>(s: seq<T>, j: int)
    requires 1 <= j <= |s|
    ensures s[1..][j - 1..] == s[j..]
  {
    forall i | 0 <= i < |s| - j
      ensures s[1..][j - 1..][i] == s[j..][i]
    {
    }
  }

  /** Dropping nothing. */
  lemma {:induction false} DropNone<T>(s: seq<T>)
    ensures s[0..] == s && s[..|s|] == s
  {
  }

  /** `pairs.toMap()`: the pairs put in order, a later pair replacing the value
      of an earlier one with the same key. */
  function PairsToMap<K(!new), V>(pairs: seq<(K, V)>): (m: map<K, V>)
    ensures forall k :: k in m <==> k in KeysOf(pairs)
  {
    if pairs == [] then map[]
    else
      var last := pairs[|pairs| - 1];
      var init := PairsToMap(pairs[..|pairs| - 1]);
      init[last.0 := last.1]
  }

  function KeysOf<K, V>(pairs: seq<(K, V)>): set<K>
  {
    set j | 0 <= j < |pairs| :: pairs[j].0
  }

  /** Every key is mapped to the value of its last pair. */
  lemma {:induction false} PairsLastWins<K(!new), V>(pairs: seq<(K, V)>, j: nat)
    requires j < |pairs|
    requires forall l :: j < l < |pairs| ==> pairs[l].0 != pairs[j].0
    ensures pairs[j].0 in PairsToMap(pairs) && PairsToMap(pairs)[pairs[j].0] == pairs[j].1
    decreases |pairs|
  {
    var init := pairs[..|pairs| - 1];
    if j < |pairs| - 1 {
      assert init[j] == pairs[j];
      PairsLastWins(init, j);
    }
  }

  /** The marker occurs in `t` at position `q`. */
  predicate Matches<T(==)>(t: seq<T>, marker: seq<T>, q: int)
  {
    0 <= q && q + |marker| <= |t| && t[q..q + |marker|] == marker
  }

  /** The first position from `from` on at which the marker occurs in `t`. */
  function Find<T(==)>(t: seq<T>, marker: seq<T>, from: nat): (r: Option<nat>)
    ensures r.Some? ==> from <= r.value && Matches(t, marker, r.value)
    decreases |t| - from
  {
    if from + |marker| > |t| then None
    else if Matches(t, marker, from) then Some(from)
    else Find(t, marker, from + 1)
  }

  /** `Find` gives the first occurrence from `from` on, and none when there is none. */
  lemma {:induction false} FindSpec<T>(t: seq<T>, marker: seq<T>, from: nat)
    ensures var f := Find(t, marker, from);
      && (f.Some? ==> from <= f.value && Matches(t, marker, f.value)
                      && forall q :: from <= q < f.value ==> !Matches(t, marker, q))
      && (f.None? ==> forall q :: from <= q ==> !Matches(t, marker, q))
    decreases |t| - from
  {
    if from + |marker| > |t| {
    } else if Matches(t, marker, from) {
    } else {
      FindSpec(t, marker, from + 1);
    }
  }

  /** Kotlin's `split(delimiter)` with a non-empty delimiter: the pieces between
      the occurrences of `d`, found from left to right without overlapping. */
  function Split<T(==)>(s: seq<T>, d: seq<T>): (r: seq<seq<T>>)
    requires d != []
    ensures r != []
    decreases |s|
  {
    match Find(s, d, 0)
    case None => [s]
    case Some(i) => [s[..i]] + Split(s[i + |d|..], d)
  }

  /** The pieces joined back with the delimiter between them. */
  function Join<T>(pieces: seq<seq<T>>, d: seq<T>): seq<T>
  {
    if pieces == [] then []
    else if |pieces| == 1 then pieces[0]
    else pieces[0] + d + Join(pieces[1..], d)
  }

  /** Splitting loses nothing: joining the pieces gives the string back. */
  lemma {:induction false} SplitJoin<T>(s: seq<T>, d: seq<T>)
    requires d != []
    ensures Join(Split(s, d), d) == s
    decreases |s|
  {
    match Find(s, d, 0)
    case None =>
    case Some(i) =>
      var rest := s[i + |d|..];
      SplitJoin(rest, d);
      var tail := Split(rest, d);
      assert Split(s, d)[1..] == tail;
      assert s[i..i + |d|] == d;
      assert s == s[..i] + d + rest;
  }

  /** The piece before the first delimiter holds no delimiter. */
  lemma FirstPieceFree<T>(s: seq<T>, d: seq<T>, i: nat, q: int)
    requires d != [] && Find(s, d, 0) == Some(i)
    ensures !Matches(s[..i], d, q)
  {
    if 0 <= q && q + |d| <= i {
      FindSpec(s, d, 0);
      assert !Matches(s, d, q);
      assert s[..i][q..q + |d|] == s[q..q + |d|];
    }
  }

  /** After the first delimiter, the pieces are those of the rest of the string. */
  lemma SplitLaterPiece<T>(s: seq<T>, d: seq<T>, i: nat, k: nat)
    requires d != [] && Find(s, d, 0) == Some(i)
    requires 0 < k < |Split(s, d)|
    ensures k - 1 < |Split(s[i + |d|..], d)|
    ensures Split(s, d)[k] == Split(s[i + |d|..], d)[k - 1]
  {
    SplitAt(s, d, i);
  }

  /** No piece of a split holds the delimiter. */
  lemma {:induction false} SplitPiecesFree<T>(s: seq<T>, d: seq<T>, k: nat, q: int)
    requires d != [] && k < |Split(s, d)|
    ensures !Matches(Split(s, d)[k], d, q)
    decreases |s|
  {
    var f := Find(s, d, 0);
    if f.None? {
      FindSpec(s, d, 0);
    } else if k == 0 {
      SplitAt(s, d, f.value);
      FirstPieceFree(s, d, f.value, q);
    } else {
      SplitLaterPiece(s, d, f.value, k);
      SplitPiecesFree(s[f.value + |d|..], d, k - 1, q);
    }
  }

  /** A string without the delimiter is a single piece. */
  lemma SplitNone<T>(s: seq<T>, d: seq<T>)
    requires d != [] && forall q :: !Matches(s, d, q)
    ensures Split(s, d) == [s]
  {
  }

  /** A string in which the delimiter's first element never occurs is one piece. */
  lemma NotFound<T>(s: seq<T>, d: seq<T>)
    requires d != [] && forall i :: 0 <= i < |s| ==> s[i] != d[0]
    ensures Split(s, d) == [s]
  {
    forall q | 0 <= q
      ensures !Matches(s, d, q)
    {
      if q + |d| <= |s| {
        assert s[q..q + |d|][0] == s[q];
      }
    }
    SplitNone(s, d);
  }

  /** A delimiter at `i`, with the delimiter's first element nowhere before it,
      ends the first piece. */
  lemma FoundAt<T>(s: seq<T>, d: seq<T>, i: nat)
    requires d != [] && Matches(s, d, i) && forall j :: 0 <= j < i ==> s[j] != d[0]
    ensures Split(s, d) == [s[..i]] + Split(s[i + |d|..], d)
  {
    FindSpec(s, d, 0);
    var f := Find(s, d, 0);
    assert f.Some?;
    assert s[f.value..f.value + |d|][0] == s[f.value];
    assert f == Some(i);
    SplitAt(s, d, i);
  }

  /** The first occurrence of the delimiter ends the first piece. */
  lemma SplitAt<T>(s: seq<T>, d: seq<T>, i: nat)
    requires d != [] && Find(s, d, 0) == Some(i)
    ensures Split(s, d) == [s[..i]] + Split(s[i + |d|..], d)
  {
  }

  /** A piece without the delimiter's first element, then the delimiter: the
      piece comes first in the split. */
  lemma SplitConcat<T>(a: seq<T>, d: seq<T>, b: seq<T>)
    requires d != [] && forall j :: 0 <= j < |a| ==> a[j] != d[0]
    ensures Split(a + d + b, d) == [a] + Split(b, d)
  {
    var s := a + d + b;
    assert s[|a|..|a| + |d|] == d;
    assert forall j :: 0 <= j < |a| ==> s[j] == a[j];
    FoundAt(s, d, |a|);
    assert s[..|a|] == a && s[|a| + |d|..] == b;
  }

  /** Two pieces without the delimiter's first element, joined by the delimiter,
      split back into the two. */
  lemma SplitTwo<T>(a: seq<T>, d: seq<T>, b: seq<T>)
    requires d != []
    requires forall j :: 0 <= j < |a| ==> a[j] != d[0]
    requires forall j :: 0 <= j < |b| ==> b[j] != d[0]
    ensures Split(a + d + b, d) == [a, b]
  {
    SplitConcat(a, d, b);
    NotFound(b, d);
  }
}
