/** The byte source of the binary decoders (`DecoderInput`) as seen through its
    interface: the default methods that read into arrays and collections and skip,
    all built on the single-byte `read()`, and the empty source `nullInput()`. */
module DecoderInput {
  import opened Wrappers
  import opened Jvm

  /** The outcome of `read(collection, length)`: the collection's elements after
      it, the number of bytes the collection took, and the number of bytes read. Each
      read consumes a byte; the loop stops at the end of the source, when the budget
      is spent, or after the first byte the collection refuses. */
  datatype Collected = Collected(elements: seq<UByte>, added: nat, consumed: nat)

  function Shift(o: Collected, i: nat): Collected
  {
    Collected(o.elements, o.added + i, o.consumed + i)
  }

  /** `read(collection, length)` from offset `from` of the bytes `source` still to
      come, starting from the collection's `elements`, with `budget` reads allowed. */
  function Collect(elements: seq<UByte>, distinct: bool, source: seq<UByte>, from: nat, budget: nat): Collected
    requires from <= |source|
    decreases |source| - from
  {
    if budget == 0 || from == |source| then Collected(elements, 0, 0)
    else if distinct && source[from] in elements then Collected(elements, 0, 1)
    else Shift(Collect(elements + [source[from]], distinct, source, from + 1, budget - 1), 1)
  }

  /** The collection receives the bytes that follow `from`, in order, at most
      `budget` of them; at most one more byte is consumed. */
  lemma {:induction false} CollectTakesPrefix(elements: seq<UByte>, distinct: bool, source: seq<UByte>, from: nat, budget: nat)
    requires from <= |source|
    ensures var o := Collect(elements, distinct, source, from, budget);
      && o.added <= budget && from + o.consumed <= |source|
      && (o.consumed == o.added || o.consumed == o.added + 1)
      && o.elements == elements + source[from..from + o.added]
    decreases |source| - from
  {
    if budget == 0 || from == |source| {
    } else if distinct && source[from] in elements {
    } else {
      CollectTakesPrefix(elements + [source[from]], distinct, source, from + 1, budget - 1);
      var rest := Collect(elements + [source[from]], distinct, source, from + 1, budget - 1);
      var tail := source[from + 1..from + 1 + rest.added];
      assert source[from..from + 1 + rest.added] == [source[from]] + tail;
      assert rest.elements == elements + [source[from]] + tail;
    }
  }

  /** Reading stops early only at a byte that a set-like collection already holds,
      and that byte is consumed; a list-like collection takes every byte up to the
      budget or the end of the source. */
  lemma {:induction false} CollectStops(elements: seq<UByte>, distinct: bool, source: seq<UByte>, from: nat, budget: nat)
    requires from <= |source|
    ensures var o := Collect(elements, distinct, source, from, budget);
      && (o.consumed != o.added ==>
            o.consumed == o.added + 1 && from + o.added < |source| && distinct && source[from + o.added] in o.elements)
      && (o.consumed == o.added ==> o.added == Min(budget, |source| - from))
    decreases |source| - from
  {
    if budget == 0 || from == |source| {
    } else if distinct && source[from] in elements {
    } else {
      CollectStops(elements + [source[from]], distinct, source, from + 1, budget - 1);
    }
  }

  /** A `MutableCollection<Byte>` as `read` uses it: `add` appends, except that a
      set-like collection refuses an element it already holds. Insertion order is
      kept, as in a list, a deque or a linked hash set. */
  class ByteCollection {
    var elements: seq<UByte>
    const distinct: bool

    constructor(elements: seq<UByte>, distinct: bool)
      ensures this.elements == elements && this.distinct == distinct
    {
      this.elements := elements;
      this.distinct := distinct;
    }

    method Add(b: UByte) returns (added: bool)
      modifies this
      ensures added <==> !(distinct && b in old(elements))
      ensures elements == if added then old(elements) + [b] else old(elements)
    {
      if distinct && b in elements {
        return false;
      }
      elements := elements + [b];
      return true;
    }

    /** `removeFirst()` of a deque: takes the oldest element out. */
    method RemoveFirst() returns (b: UByte)
      requires elements != []
      modifies this
      ensures b == old(elements)[0] && elements == old(elements)[1..]
    {
      b := elements[0];
      elements := elements[1..];
    }
  }

  /** A `DecoderInput` as the interface's default methods see it: only through
      `read()`, which hands out the bytes of `input` from `pos` on, one per call, and
      -1 once they are used up. For the array source, these are the bytes that
      `ByteArrayInput.Read` returns in turn. */
  class ByteSource {
    const input: seq<UByte>
    var pos: int

    ghost predicate Valid()
      reads this
    {
      0 <= pos <= |input|
    }

    constructor(input: seq<UByte>)
      ensures Valid() && this.input == input && pos == 0
    {
      this.input := input;
      pos := 0;
    }

    /** `read()`: the next byte, or -1 at the end. */
    method Read() returns (r: int)
      requires Valid()
      modifies this`pos
      ensures Valid()
      ensures old(pos) < |input| ==> r == input[old(pos)] && pos == old(pos) + 1
      ensures old(pos) == |input| ==> r == -1 && pos == old(pos)
    {
      if pos < |input| {
        r := input[pos];
        pos := pos + 1;
      } else {
        r := -1;
      }
    }

    /** What `read(bytes, start, length)` promises: `IndexOutOfBoundsException` for a
        range outside the array; 0 for an empty range; -1 when no byte is left;
        otherwise the count `k` of bytes read, at most `length`, stored in
        `bytes[start..start + k)` in the order read, with the rest of the array
        untouched. */
    twostate predicate ReadIntoSpec(bytes: array<UByte>, start: int, length: int, new r: Result<int>)
      reads this, bytes
    {
      if !(0 <= start && 0 <= length && start + length <= bytes.Length) then
        r == Err(IndexOutOfBounds) && pos == old(pos) && bytes[..] == old(bytes[..])
      else if length == 0 || old(pos) == |input| then
        r == Ok(if length == 0 then 0 else -1) && pos == old(pos) && bytes[..] == old(bytes[..])
      else
        var k := Min(length, |input| - old(pos));
        && r == Ok(k) && pos == old(pos) + k
        && 0 <= old(pos) && k <= |input| - old(pos)
        && (forall j :: 0 <= j < bytes.Length ==>
              bytes[j] == if start <= j < start + k then input[old(pos) + (j - start)] else old(bytes[j]))
    }

    /** `read(bytes, start, length)`. */
    method ReadInto(bytes: array<UByte>, start: Int32, length: Int32) returns (r: Result<int>)
      requires Valid()
      modifies this, bytes
      ensures Valid()
      ensures ReadIntoSpec(bytes, start, length, r)
    {
      var range := CheckFromIndexSize(start, length, bytes.Length);
      if range.Err? {
        return Err(range.error);
      }
      if length == 0 {
        return Ok(0);
      }
      var firstByte := Read();
      if firstByte == -1 {
        return Ok(-1);
      }
      bytes[start] := firstByte;
      var i := start + 1;
      while i < start + length
        invariant start + 1 <= i <= start + length
        invariant Valid() && pos == old(pos) + (i - start)
        invariant forall j :: 0 <= j < bytes.Length ==>
          bytes[j] == if start <= j < i then input[old(pos) + (j - start)] else old(bytes[j])
      {
        var b := Read();
        if b == -1 {
          return Ok(i - start);
        }
        bytes[i] := b;
        i := i + 1;
      }
      return Ok(length);
    }

    /** `read(bytes, start)`: reads into `bytes[start..]`; the length is computed in
        `Int` arithmetic. */
    method ReadFrom(bytes: array<UByte>, start: Int32) returns (r: Result<int>)
      requires Valid() && bytes.Length <= INT_MAX
      modifies this, bytes
      ensures Valid()
      ensures ReadIntoSpec(bytes, start, Wrap32(bytes.Length - start), r)
    {
      r := ReadInto(bytes, start, Wrap32(bytes.Length - start));
    }

    /** `read(bytes)`: reads into the whole array. */
    method ReadAll(bytes: array<UByte>) returns (r: Result<int>)
      requires Valid() && bytes.Length <= INT_MAX
      modifies this, bytes
      ensures Valid()
      ensures ReadIntoSpec(bytes, 0, bytes.Length, r)
    {
      r := ReadInto(bytes, 0, bytes.Length);
    }

    /** `read(collection, length)`: 0 for a zero length, -1 when no byte is left,
        otherwise the number of bytes the collection accepted, as `Collect` describes
        (a negative length still reads one byte). */
    method ReadIntoCollection(c: ByteCollection, length: Int32) returns (r: int)
      requires Valid()
      modifies this, c
      ensures Valid()
      ensures length == 0 ==> r == 0 && pos == old(pos) && c.elements == old(c.elements)
      ensures length != 0 && old(pos) == |input| ==> r == -1 && pos == old(pos) && c.elements == old(c.elements)
      ensures length != 0 && old(pos) < |input| ==>
        var o := Collect(old(c.elements), c.distinct, input, old(pos), if length < 0 then 1 else length);
        r == o.added && c.elements == o.elements && pos == old(pos) + o.consumed
    {
      if length == 0 {
        return 0;
      }
      ghost var budget: nat := if length < 0 then 1 else length;
      ghost var total := Collect(c.elements, c.distinct, input, pos, budget);
      var firstByte := Read();
      if firstByte == -1 {
        return -1;
      }
      var added := c.Add(firstByte);
      if !added {
        return 0;
      }
      r := 1;
      while r < length
        invariant 1 <= r && (length > 0 ==> r <= length) && (length < 0 ==> r == 1)
        invariant Valid() && pos == old(pos) + r
        invariant var o := Collect(c.elements, c.distinct, input, pos, budget - r);
          total.elements == o.elements && total.added == o.added + r && total.consumed == o.consumed + r
      {
        var readByte := Read();
        if readByte == -1 {
          break;
        }
        added := c.Add(readByte);
        if !added {
          break;
        }
        r := r + 1;
      }
    }

    /** `read(collection)`: reads up to `Int.MAX_VALUE` bytes into the collection. */
    method ReadAllIntoCollection(c: ByteCollection) returns (r: int)
      requires Valid()
      modifies this, c
      ensures Valid()
      ensures old(pos) == |input| ==> r == -1 && pos == old(pos) && c.elements == old(c.elements)
      ensures old(pos) < |input| ==>
        var o := Collect(old(c.elements), c.distinct, input, old(pos), INT_MAX);
        r == o.added && c.elements == o.elements && pos == old(pos) + o.consumed
    {
      r := ReadIntoCollection(c, INT_MAX);
    }

    /** The default `skip(n)`: reads up to `n` bytes through `read()` and counts them;
        a non-positive `n` skips nothing. */
    method Skip(n: Int64) returns (skipped: Int64)
      requires Valid()
      modifies this`pos
      ensures Valid()
      ensures skipped == (if n <= 0 then 0 else Min(n, |input| - old(pos)))
      ensures pos == old(pos) + skipped
    {
      skipped := 0;
      var i: Int64 := 0;
      while i < n
        invariant 0 <= i && (i == 0 || i <= n) && skipped == i
        invariant Valid() && pos == old(pos) + i
      {
        var b := Read();
        if b == -1 {
          break;
        }
        skipped := skipped + 1;
        i := i + 1;
      }
    }
  }

  /** `nullInput().read(bytes, start, length)`: the range is checked, then -1, even
      for an empty range (where the default `read` gives 0). */
  function NullReadInto(size: int, start: Int32, length: Int32): (r: Result<int>)
    ensures r.Ok? <==> 0 <= start && 0 <= length && start + length <= size
    ensures r.Ok? ==> r.value == -1
    ensures r.Err? ==> r.error == IndexOutOfBounds
  {
    var _ :- CheckFromIndexSize(start, length, size);
    Ok(-1)
  }
}
