/** The read-only collection factories. A collection is a view over a backing
    store whose content is a list (`seq`), a set or a map; the read-only
    implementations are views marked `readOnly`. `as*` factories wrap the receiver
    (a read-only receiver is returned as it is), so later changes to the receiver
    show through; `to*` factories copy the content into a store of their own. */
module ReadOnly {
  import opened Wrappers
  import opened Sequences

  /** The storage a mutable collection writes to. */
  class Store<C> {
    var content: C

    constructor(content: C)
      ensures this.content == content
    {
      this.content := content;
    }
  }

  /** A collection: the store it reads, and whether its class is one of the
      read-only interfaces. */
  class Collection<C> {
    const store: Store<C>
    const readOnly: bool

    constructor(store: Store<C>, readOnly: bool)
      ensures this.store == store && this.readOnly == readOnly
    {
      this.store := store;
      this.readOnly := readOnly;
    }

    function Contents(): C
      reads this, store
    {
      store.content
    }
  }

  /** `asReadOnlyIterable`, `asReadOnlyCollection`, `asReadOnlyList`,
      `asReadOnlySet`, `asReadOnlyMap`: the receiver itself when it is already
      read-only, else a read-only view over the receiver's own store. */
  method AsReadOnly<C>(c: Collection<C>) returns (r: Collection<C>)
    ensures r.readOnly && r.store == c.store
    ensures c.readOnly ==> r == c
    ensures !c.readOnly ==> fresh(r)
  {
    if c.readOnly {
      return c;
    }
    r := new Collection(c.store, true);
  }

  /** Wrapping is idempotent: wrapping the view again gives the same view. */
  method AsReadOnlyTwice<C>(c: Collection<C>) returns (first: Collection<C>, second: Collection<C>)
    ensures second == first && first.store == c.store
  {
    first := AsReadOnly(c);
    second := AsReadOnly(first);
  }

  /** `Array.asReadOnlyList` and `readOnlyListOf`: a read-only view over the array
      itself (`asList`), whatever it is. */
  method ArrayAsReadOnlyList<T>(elements: Store<seq<T>>) returns (r: Collection<seq<T>>)
    ensures fresh(r) && r.readOnly && r.store == elements
  {
    r := new Collection(elements, true);
  }

  /** `toReadOnlyCollection`, `toReadOnlyList` and `Map.toReadOnlyMap`: a read-only
      collection over a fresh copy of the content. */
  method ToReadOnly<C>(c: Collection<C>) returns (r: Collection<C>)
    ensures fresh(r) && fresh(r.store) && r.readOnly
    ensures r.Contents() == c.Contents()
  {
    var copy := new Store(c.Contents());
    r := new Collection(copy, true);
  }

  /** `toReadOnlySet` on an iterable, an array or the arguments of
      `readOnlySetOf`: a fresh set of the elements. */
  method ToReadOnlySet<T>(c: Collection<seq<T>>) returns (r: Collection<set<T>>)
    ensures fresh(r) && fresh(r.store) && r.readOnly
    ensures forall x :: x in r.Contents() <==> x in c.Contents()
  {
    var copy := new Store(set x | x in c.Contents());
    r := new Collection(copy, true);
  }

  /** `toReadOnlyMap` on pairs and `readOnlyMapOf`: `toMap()`, where a later pair
      replaces an earlier one with the same key, then wrapped. */
  method PairsToReadOnlyMap<K(!new), V>(c: Collection<seq<(K, V)>>) returns (r: Collection<map<K, V>>)
    ensures fresh(r) && fresh(r.store) && r.readOnly
    ensures r.Contents() == PairsToMap(c.Contents())
  {
    var copy := new Store(PairsToMap(c.Contents()));
    var mutable := new Collection(copy, false);
    r := AsReadOnly(mutable);
  }

  /** `add` on a list: appends to a mutable list; a read-only one throws
      `UnsupportedOperationException` and is left as it was. */
  method Add<T>(c: Collection<seq<T>>, x: T) returns (r: Result<bool>)
    modifies c.store
    ensures c.readOnly ==> r == Err(UnsupportedOperation) && c.store.content == old(c.store.content)
    ensures !c.readOnly ==> r == Ok(true) && c.store.content == old(c.store.content) + [x]
  {
    if c.readOnly {
      return Err(UnsupportedOperation);
    }
    c.store.content := c.store.content + [x];
    r := Ok(true);
  }

  /** A view made by `asReadOnlyList` shows an element added to its receiver
      afterwards, while a copy made by `toReadOnlyList` before the addition does
      not. */
  method ViewAndCopy<T>(source: Collection<seq<T>>, x: T) returns (view: Collection<seq<T>>, copy: Collection<seq<T>>)
    requires !source.readOnly
    modifies source.store
    ensures view.Contents() == old(source.Contents()) + [x]
    ensures copy.Contents() == old(source.Contents())
  {
    view := AsReadOnly(source);
    copy := ToReadOnly(source);
    var _ := Add(source, x);
  }
}
