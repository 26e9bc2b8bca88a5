/** `ContentImpl.keyComparator()`: the order of translation keys, character by
    character, where `.` sorts below every other character and a key sorts
    before the keys it is a proper prefix of. */
module KeyComparator {

  // ----- as written -----

  /** The character comparison as written: a `.` on the left gives `-1` whatever
      the right character is, a `.` on the right gives `1`, otherwise the
      difference of the character codes. */
  function CharCompareAsWritten(a: char, b: char): int
  {
    if a == '.' then -1
    else if b == '.' then 1
    else a as int - b as int
  }

  /** The key comparison over `CharCompareAsWritten`: the first non-zero character
      comparison, else the longer key is greater. */
  function CompareAsWritten(s: string, t: string): int
    decreases |s|
  {
    if s == [] || t == [] then (if s != [] then 1 else if t != [] then -1 else 0)
    else
      var c := CharCompareAsWritten(s[0], t[0]);
      if c != 0 then c else CompareAsWritten(s[1..], t[1..])
  }

  /** The comparator as written: walks both keys with two iterators. */
  method KeyCompareAsWritten(o1: string, o2: string) returns (r: int)
    ensures r == CompareAsWritten(o1, o2)
  {
    var i := 0;
    while i < |o1| && i < |o2|
      invariant 0 <= i <= |o1| && i <= |o2|
      invariant CompareAsWritten(o1, o2) == CompareAsWritten(o1[i..], o2[i..])
    {
      assert o1[i..][1..] == o1[i + 1..] && o2[i..][1..] == o2[i + 1..];
      var result := CharCompareAsWritten(o1[i], o2[i]);
      if result != 0 {
        return result;
      }
      i := i + 1;
    }
    if i < |o1| {
      r := 1;
    } else if i < |o2| {
      r := -1;
    } else {
      r := 0;
    }
  }

  /** As written, a key that holds a `.` compares below itself: the comparator is
      not reflexive, and `compare(k, k)` and its mirror are both negative. */
  lemma {:induction false} AsWrittenNotReflexive(s: string)
    requires exists i :: 0 <= i < |s| && s[i] == '.'
    ensures CompareAsWritten(s, s) == -1
    decreases |s|
  {
    if s[0] != '.' {
      var i :| 0 <= i < |s| && s[i] == '.';
      assert s[1..][i - 1] == '.';
      AsWrittenNotReflexive(s[1..]);
    }
  }

  /** `a.b` compared with itself gives `-1`. */
  lemma AsWrittenDottedKey()
    ensures CompareAsWritten("a.b", "a.b") == -1
  {
    assert "a.b"[1] == '.';
    AsWrittenNotReflexive("a.b");
  }

  // ----- corrected -----

  /** The character comparison with equal characters comparing equal, `.` below
      every other character, and the difference of the codes otherwise. */
  function CharCompare(a: char, b: char): (r: int)
    ensures r == 0 <==> a == b
    ensures r < 0 <==> Rank(a) < Rank(b)
    ensures r > 0 <==> Rank(a) > Rank(b)
  {
    if a == b then 0
    else if a == '.' then -1
    else if b == '.' then 1
    else a as int - b as int
  }

  /** The position of a character in the key order: `.` first, then the
      character codes; different characters have different ranks. */
  function Rank(c: char): int
  {
    if c == '.' then -1 else c as int
  }

  /** The key comparison over `CharCompare`. */
  function Compare(s: string, t: string): int
    decreases |s|
  {
    if s == [] || t == [] then (if s != [] then 1 else if t != [] then -1 else 0)
    else
      var c := CharCompare(s[0], t[0]);
      if c != 0 then c else Compare(s[1..], t[1..])
  }

  /** `keyComparator()` with equal characters comparing equal. */
  method KeyCompare(o1: string, o2: string) returns (r: int)
    ensures r == Compare(o1, o2)
  {
    var i := 0;
    while i < |o1| && i < |o2|
      invariant 0 <= i <= |o1| && i <= |o2|
      invariant Compare(o1, o2) == Compare(o1[i..], o2[i..])
    {
      assert o1[i..][1..] == o1[i + 1..] && o2[i..][1..] == o2[i + 1..];
      var result := CharCompare(o1[i], o2[i]);
      if result != 0 {
        return result;
      }
      i := i + 1;
    }
    if i < |o1| {
      r := 1;
    } else if i < |o2| {
      r := -1;
    } else {
      r := 0;
    }
  }

  /** Two keys compare equal exactly when they are the same key. */
  lemma {:induction false} CompareZeroIffEqual(s: string, t: string)
    ensures Compare(s, t) == 0 <==> s == t
    decreases |s|
  {
    if s != [] && t != [] && s[0] == t[0] {
      CompareZeroIffEqual(s[1..], t[1..]);
      if s[1..] == t[1..] {
        assert s == [s[0]] + s[1..] && t == [t[0]] + t[1..];
      }
    }
  }

  /** Swapping the keys swaps the sign. */
  lemma {:induction false} CompareAntisymmetric(s: string, t: string)
    ensures Compare(s, t) < 0 <==> Compare(t, s) > 0
    ensures Compare(s, t) == 0 <==> Compare(t, s) == 0
    decreases |s|
  {
    if s != [] && t != [] && s[0] == t[0] {
      CompareAntisymmetric(s[1..], t[1..]);
    }
  }

  /** The order is transitive. */
  lemma {:induction false} CompareTransitive(s: string, t: string, u: string)
    requires Compare(s, t) < 0 && Compare(t, u) < 0
    ensures Compare(s, u) < 0
    decreases |s|
  {
    if s != [] && t != [] && u != [] {
      if s[0] == t[0] && t[0] == u[0] {
        CompareTransitive(s[1..], t[1..], u[1..]);
      }
    }
  }

  /** At the first position where two keys differ, a `.` makes its key the
      smaller. */
  lemma {:induction false} DotSortsFirst(p: string, x: string, y: string, c: char)
    requires c != '.'
    ensures Compare(p + ['.'] + x, p + [c] + y) < 0
    decreases |p|
  {
    var s, t := p + ['.'] + x, p + [c] + y;
    if p != [] {
      assert s[0] == t[0];
      assert s[1..] == p[1..] + ['.'] + x && t[1..] == p[1..] + [c] + y;
      DotSortsFirst(p[1..], x, y, c);
    }
  }

  /** A proper prefix sorts before the key it starts, `a` before `a.b`. */
  lemma {:induction false} PrefixSortsFirst(s: string, t: string)
    requires |s| < |t| && t[..|s|] == s
    ensures Compare(s, t) < 0
    decreases |s|
  {
    if s != [] {
      assert t[0] == s[0];
      assert t[1..][..|s| - 1] == s[1..];
      PrefixSortsFirst(s[1..], t[1..]);
    }
  }

  /** When the first key holds no `.`, the comparator as written and the
      corrected one agree; the correction only changes keys compared at equal
      dots. */
  lemma {:induction false} AgreesWithoutDot(s: string, t: string)
    requires forall i :: 0 <= i < |s| ==> s[i] != '.'
    ensures CompareAsWritten(s, t) == Compare(s, t)
    decreases |s|
  {
    if s != [] && t != [] {
      assert forall i :: 0 <= i < |s[1..]| ==> s[1..][i] == s[i + 1];
      AgreesWithoutDot(s[1..], t[1..]);
    }
  }
}
