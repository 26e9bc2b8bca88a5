/** `ContentImpl`: the builder that gathers translations by locale. Each map of
    source data is flattened into `key -> text` entries: nested maps give
    `parent.child` keys and lists `parent.index` keys, visited breadth first
    through a queue; each leaf is added under the duplicate-key policy. Once the
    builder has run, no more content is accepted. */
module Content {
  import opened Wrappers
  import opened Jvm
  import opened TranslatorBuilder

  /** A key of source data: `null`, a `String`, or an object of another type. */
  datatype Key = NullKey | StringKey(name: string) | OtherKey(id: nat)

  /** A value of source data: `null`, a `String`, a `Number` (by its `toString()`),
      a `Boolean`, a `Map`, a `List`, or an object of an unsupported type. */
  datatype Data =
    | Null
    | Text(text: string)
    | Number(repr: string)
    | Boolean(flag: bool)
    | Entries(entries: seq<(Key, Data)>)
    | Items(items: seq<Data>)
    | Unsupported(id: nat)

  datatype DuplicatedKeyResolution = Fail | KeepFirst | KeepLast

  /** What flattening depends on: the key syntax, the value syntax (the format
      check and the known formats) and the duplicate-key policy. */
  datatype Rules = Rules(isKey: string -> bool, isValue: string -> bool, resolution: DuplicatedKeyResolution)

  /** `checkKeyIsValid`: a non-null `String` with the key syntax. */
  predicate ValidKey(rules: Rules, k: Key)
  {
    k.StringKey? && rules.isKey(k.name)
  }

  /** `checkValueIsValid`: non-null and of a supported type. */
  predicate ValidValue(d: Data)
  {
    !d.Null? && !d.Unsupported?
  }

  predicate IsContainer(d: Data)
  {
    d.Entries? || d.Items?
  }

  predicate IsLeaf(d: Data)
  {
    d.Text? || d.Number? || d.Boolean?
  }

  /** `value.toString()` of a leaf. */
  function LeafText(d: Data): string
    requires IsLeaf(d)
  {
    match d
    case Text(s) => s
    case Number(repr) => repr
    case Boolean(b) => if b then "true" else "false"
  }

  // ----- sizes, for the termination of the breadth-first walk -----

  function Sum(xs: seq<nat>): nat
    decreases |xs|
  {
    if xs == [] then 0 else xs[0] + Sum(xs[1..])
  }

  lemma {:induction false} SumConcat(a: seq<nat>, b: seq<nat>)
    ensures Sum(a + b) == Sum(a) + Sum(b)
    decreases |a|
  {
    if a != [] {
      assert (a + b)[0] == a[0];
      assert (a + b)[1..] == a[1..] + b;
      SumConcat(a[1..], b);
    } else {
      assert a + b == b;
    }
  }

  /** The number of values in `d`, itself included. */
  function Size(d: Data): (r: nat)
    ensures r >= 1
    decreases d
  {
    match d
    case Entries(es) => 1 + Sum(seq(|es|, i requires 0 <= i < |es| => Size(es[i].1)))
    case Items(xs) => 1 + Sum(seq(|xs|, i requires 0 <= i < |xs| => Size(xs[i])))
    case _ => 1
  }

  /** A key waiting in the queue with the value to flatten under it. */
  type Pending = (string, Data)

  function QueueSize(q: seq<Pending>): nat
  {
    Sum(seq(|q|, i requires 0 <= i < |q| => Size(q[i].1)))
  }

  lemma QueueSizeConcat(a: seq<Pending>, b: seq<Pending>)
    ensures QueueSize(a + b) == QueueSize(a) + QueueSize(b)
  {
    var sa := seq(|a|, i requires 0 <= i < |a| => Size(a[i].1));
    var sb := seq(|b|, i requires 0 <= i < |b| => Size(b[i].1));
    assert seq(|a + b|, i requires 0 <= i < |a + b| => Size((a + b)[i].1)) == sa + sb;
    SumConcat(sa, sb);
  }

  lemma QueueSizeHead(q: seq<Pending>)
    requires q != []
    ensures QueueSize(q) == Size(q[0].1) + QueueSize(q[1..])
  {
    var s := seq(|q|, i requires 0 <= i < |q| => Size(q[i].1));
    assert s[1..] == seq(|q[1..]|, i requires 0 <= i < |q[1..]| => Size(q[1..][i].1));
  }

  // ----- children -----

  function KeyName(k: Key): string
  {
    if k.StringKey? then k.name else ""
  }

  /** What a map or a list puts in the queue: `key.subKey` for each entry of a
      map, `key.index` for each element of a list, in order. */
  function Children(key: string, d: Data): (r: seq<Pending>)
    requires IsContainer(d)
    ensures d.Entries? ==> |r| == |d.entries| && forall i :: 0 <= i < |r| ==> r[i] == (key + "." + KeyName(d.entries[i].0), d.entries[i].1)
    ensures d.Items? ==> |r| == |d.items| && forall i :: 0 <= i < |r| ==> r[i] == (key + "." + Decimal(i), d.items[i])
  {
    match d
    case Entries(es) => seq(|es|, i requires 0 <= i < |es| => (key + "." + KeyName(es[i].0), es[i].1))
    case Items(xs) => seq(|xs|, i requires 0 <= i < |xs| => (key + "." + Decimal(i), xs[i]))
  }

  lemma ChildrenSize(key: string, d: Data)
    requires IsContainer(d)
    ensures QueueSize(Children(key, d)) + 1 == Size(d)
  {
    var cs := Children(key, d);
    match d
    case Entries(es) =>
      assert seq(|cs|, i requires 0 <= i < |cs| => Size(cs[i].1)) == seq(|es|, i requires 0 <= i < |es| => Size(es[i].1));
    case Items(xs) =>
      assert seq(|cs|, i requires 0 <= i < |cs| => Size(cs[i].1)) == seq(|xs|, i requires 0 <= i < |xs| => Size(xs[i]));
  }

  /** Every entry of a map has a valid key and a valid value; every element of a
      list is a valid value. */
  predicate ValidChildren(rules: Rules, d: Data)
    requires IsContainer(d)
  {
    match d
    case Entries(es) => forall i :: 0 <= i < |es| ==> ValidKey(rules, es[i].0) && ValidValue(es[i].1)
    case Items(xs) => forall i :: 0 <= i < |xs| ==> ValidValue(xs[i])
  }

  /** The queue after a map or a list has pushed its children, or the
      `IllegalStateException` of the first invalid one. */
  function Pushed(rules: Rules, key: string, d: Data, queue: seq<Pending>): Result<seq<Pending>>
    requires IsContainer(d)
  {
    if ValidChildren(rules, d) then Ok(queue + Children(key, d)) else Err(IllegalState)
  }

  // ----- addValue -----

  /** `addValue`: the text of the leaf must have the value syntax
      (`IllegalArgumentException`); `FAIL` rejects a key already present
      (`IllegalStateException`), `KEEP_FIRST` keeps the present value, `KEEP_LAST`
      replaces it. */
  function AddValue(rules: Rules, m: map<string, string>, key: string, leaf: Data): (r: Result<map<string, string>>)
    requires IsLeaf(leaf)
    ensures !rules.isValue(LeafText(leaf)) ==> r == Err(IllegalArgument)
    ensures rules.isValue(LeafText(leaf)) && rules.resolution == Fail ==> (r.Ok? <==> key !in m)
    ensures rules.isValue(LeafText(leaf)) && rules.resolution == Fail && key in m ==> r == Err(IllegalState)
    ensures r.Ok? ==> r.value.Keys == m.Keys + {key}
    ensures r.Ok? && rules.resolution != KeepLast ==> forall k :: k in m ==> r.value[k] == m[k]
    ensures r.Ok? ==> forall k :: k in m && k != key ==> r.value[k] == m[k]
    ensures r.Ok? && (key !in m || rules.resolution == KeepLast) ==> r.value[key] == LeafText(leaf)
  {
    var text := LeafText(leaf);
    if !rules.isValue(text) then Err(IllegalArgument)
    else
      match rules.resolution
      case Fail => if key in m then Err(IllegalState) else Ok(m[key := text])
      case KeepFirst => Ok(if key in m then m else m[key := text])
      case KeepLast => Ok(m[key := text])
  }

  // ----- the breadth-first walk -----

  /** Where the walk stopped: the error, if any, and the translations at that
      point (entries added before an error stay). */
  datatype Outcome = Outcome(status: Result<()>, translations: map<string, string>)

  predicate AllValid(q: seq<Pending>)
  {
    forall i :: 0 <= i < |q| ==> ValidValue(q[i].1)
  }

  /** The walk over the queue: a map or a list pushes its children at the back, a
      leaf is added. */
  function Walk(rules: Rules, q: seq<Pending>, m: map<string, string>): Outcome
    requires AllValid(q)
    decreases QueueSize(q)
  {
    if q == [] then Outcome(Ok(()), m)
    else
      QueueSizeHead(q);
      var key := q[0].0;
      var d := q[0].1;
      if IsContainer(d) then
        match Pushed(rules, key, d, q[1..])
        case Err(e) => Outcome(Err(e), m)
        case Ok(next) =>
          ChildrenSize(key, d);
          QueueSizeConcat(q[1..], Children(key, d));
          Walk(rules, next, m)
      else
        match AddValue(rules, m, key, d)
        case Err(e) => Outcome(Err(e), m)
        case Ok(m') => Walk(rules, q[1..], m')
  }

  /** The top-level entries of a map, one after the other: each key and value is
      checked, then walked. */
  function AddEntries(rules: Rules, entries: seq<(Key, Data)>, m: map<string, string>): Outcome
    decreases |entries|
  {
    if entries == [] then Outcome(Ok(()), m)
    else
      var k := entries[0].0;
      var v := entries[0].1;
      if !ValidKey(rules, k) || !ValidValue(v) then Outcome(Err(IllegalState), m)
      else
        var o := Walk(rules, [(k.name, v)], m);
        if o.status.Err? then o else AddEntries(rules, entries[1..], o.translations)
  }

  /** `addToMap(locale, map)`: an empty map changes nothing; otherwise the locale
      gets a map (empty if it had none) and the entries are added to it. */
  function AddToMap(rules: Rules, content: map<Locale, map<string, string>>, locale: Locale, entries: seq<(Key, Data)>): (Result<()>, map<Locale, map<string, string>>)
  {
    if entries == [] then (Ok(()), content)
    else
      var o := AddEntries(rules, entries, if locale in content then content[locale] else map[]);
      (o.status, content[locale := o.translations])
  }

  // ----- the keys a walk produces -----

  /** The keys the leaves of `d` get under `key`. */
  function LeafPaths(key: string, d: Data): set<string>
    decreases Size(d), 1
  {
    if IsContainer(d) then
      ChildrenSize(key, d);
      QueueLeafPaths(Children(key, d))
    else {key}
  }

  function QueueLeafPaths(q: seq<Pending>): set<string>
    decreases QueueSize(q), 2
  {
    if q == [] then {}
    else
      QueueSizeHead(q);
      LeafPaths(q[0].0, q[0].1) + QueueLeafPaths(q[1..])
  }

  lemma {:induction false} QueueLeafPathsConcat(a: seq<Pending>, b: seq<Pending>)
    ensures QueueLeafPaths(a + b) == QueueLeafPaths(a) + QueueLeafPaths(b)
    decreases |a|
  {
    if a != [] {
      assert (a + b)[0] == a[0];
      assert (a + b)[1..] == a[1..] + b;
      QueueLeafPathsConcat(a[1..], b);
    } else {
      assert a + b == b;
    }
  }

  /** A walk that ends without error has added exactly the leaf keys of the queue
      to the keys already there. */
  lemma {:induction false} WalkKeys(rules: Rules, q: seq<Pending>, m: map<string, string>)
    requires AllValid(q)
    ensures Walk(rules, q, m).status.Ok? ==> Walk(rules, q, m).translations.Keys == m.Keys + QueueLeafPaths(q)
    decreases QueueSize(q)
  {
    if q != [] {
      QueueSizeHead(q);
      var key, d := q[0].0, q[0].1;
      if IsContainer(d) {
        if ValidChildren(rules, d) {
          var cs := Children(key, d);
          ChildrenSize(key, d);
          QueueSizeConcat(q[1..], cs);
          WalkKeys(rules, q[1..] + cs, m);
          QueueLeafPathsConcat(q[1..], cs);
        }
      } else if AddValue(rules, m, key, d).Ok? {
        WalkKeys(rules, q[1..], AddValue(rules, m, key, d).value);
      }
    }
  }

  /** Under `FAIL` and `KEEP_FIRST` a walk never changes a value already there,
      whether or not it ends in an error. */
  lemma {:induction false} WalkKeepsValues(rules: Rules, q: seq<Pending>, m: map<string, string>)
    requires AllValid(q)
    requires rules.resolution != KeepLast
    ensures forall k :: k in m ==> k in Walk(rules, q, m).translations && Walk(rules, q, m).translations[k] == m[k]
    decreases QueueSize(q)
  {
    if q != [] {
      QueueSizeHead(q);
      var key, d := q[0].0, q[0].1;
      if IsContainer(d) {
        if ValidChildren(rules, d) {
          var cs := Children(key, d);
          ChildrenSize(key, d);
          QueueSizeConcat(q[1..], cs);
          WalkKeepsValues(rules, q[1..] + cs, m);
        }
      } else if AddValue(rules, m, key, d).Ok? {
        WalkKeepsValues(rules, q[1..], AddValue(rules, m, key, d).value);
      }
    }
  }

  /** Under `FAIL` a walk that ends without error met none of the keys already
      there. */
  lemma {:induction false} WalkFailDisjoint(rules: Rules, q: seq<Pending>, m: map<string, string>)
    requires AllValid(q)
    requires rules.resolution == Fail
    ensures Walk(rules, q, m).status.Ok? ==> m.Keys !! QueueLeafPaths(q)
    decreases QueueSize(q)
  {
    if q != [] {
      QueueSizeHead(q);
      var key, d := q[0].0, q[0].1;
      if IsContainer(d) {
        if ValidChildren(rules, d) {
          var cs := Children(key, d);
          ChildrenSize(key, d);
          QueueSizeConcat(q[1..], cs);
          WalkFailDisjoint(rules, q[1..] + cs, m);
          QueueLeafPathsConcat(q[1..], cs);
        }
      } else if AddValue(rules, m, key, d).Ok? {
        WalkFailDisjoint(rules, q[1..], AddValue(rules, m, key, d).value);
      }
    }
  }

  // ----- the texts a walk stores -----

  /** The text each leaf of `d` gets under `key`: `key` itself for a leaf, the
      leaves of the children for a map or a list. */
  function LeafEntries(key: string, d: Data): map<string, string>
    decreases Size(d), 1
  {
    if IsContainer(d) then
      ChildrenSize(key, d);
      QueueLeafEntries(Children(key, d))
    else if IsLeaf(d) then map[key := LeafText(d)]
    else map[]
  }

  function QueueLeafEntries(q: seq<Pending>): map<string, string>
    decreases QueueSize(q), 2
  {
    if q == [] then map[]
    else
      QueueSizeHead(q);
      LeafEntries(q[0].0, q[0].1) + QueueLeafEntries(q[1..])
  }

  lemma {:induction false} QueueLeafEntriesConcat(a: seq<Pending>, b: seq<Pending>)
    ensures QueueLeafEntries(a + b) == QueueLeafEntries(a) + QueueLeafEntries(b)
    decreases |a|
  {
    if a != [] {
      assert (a + b)[0] == a[0];
      assert (a + b)[1..] == a[1..] + b;
      var first := LeafEntries(a[0].0, a[0].1);
      assert QueueLeafEntries(a + b) == first + QueueLeafEntries(a[1..] + b);
      QueueLeafEntriesConcat(a[1..], b);
      UnionAssoc(first, QueueLeafEntries(a[1..]), QueueLeafEntries(b));
    } else {
      assert a + b == b;
    }
  }

  lemma UnionAssoc(a: map<string, string>, b: map<string, string>, c: map<string, string>)
    ensures (a + b) + c == a + (b + c)
  {
  }

  /** Every key that gets a text is a leaf key. */
  lemma {:induction false} QueueLeafEntriesKeys(q: seq<Pending>)
    ensures QueueLeafEntries(q).Keys <= QueueLeafPaths(q)
    decreases QueueSize(q)
  {
    if q != [] {
      QueueSizeHead(q);
      var key, d := q[0].0, q[0].1;
      if IsContainer(d) {
        ChildrenSize(key, d);
        QueueLeafEntriesKeys(Children(key, d));
      }
      QueueLeafEntriesKeys(q[1..]);
    }
  }

  /** Under `FAIL` a walk that ends without error never meets a leaf key twice:
      however its queue is cut in two, the two parts have no leaf key in common. */
  lemma {:induction false} WalkFailSplitDisjoint(rules: Rules, a: seq<Pending>, b: seq<Pending>, m: map<string, string>)
    requires AllValid(a + b)
    requires rules.resolution == Fail
    ensures Walk(rules, a + b, m).status.Ok? ==> QueueLeafPaths(a) !! QueueLeafPaths(b)
    decreases QueueSize(a + b)
  {
    var q := a + b;
    if a != [] && Walk(rules, q, m).status.Ok? {
      QueueSizeHead(q);
      assert q[0] == a[0];
      assert q[1..] == a[1..] + b;
      var key, d := a[0].0, a[0].1;
      QueueSizeHead(a);
      if IsContainer(d) {
        var cs := Children(key, d);
        assert ValidChildren(rules, d);
        ChildrenSize(key, d);
        QueueSizeConcat(q[1..], cs);
        assert AllValid(q[1..] + cs);
        var next := q[1..] + cs;
        assert Walk(rules, next, m).status.Ok?;
        assert next == a[1..] + (b + cs);
        WalkFailSplitDisjoint(rules, a[1..], b + cs, m);
        assert next == (a[1..] + b) + cs;
        WalkFailSplitDisjoint(rules, a[1..] + b, cs, m);
        QueueLeafPathsConcat(b, cs);
        QueueLeafPathsConcat(a[1..], b);
      } else {
        var m' := AddValue(rules, m, key, d).value;
        WalkFailDisjoint(rules, q[1..], m');
        QueueLeafPathsConcat(a[1..], b);
        WalkFailSplitDisjoint(rules, a[1..], b, m');
      }
    }
  }

  /** Maps with no key in common can be joined in either order. */
  lemma DisjointUnionCommutes(a: map<string, string>, b: map<string, string>)
    requires a.Keys !! b.Keys
    ensures a + b == b + a
  {
  }

  /** A map or a list at the head of the queue: its texts are those of its
      children, which the walk takes after the rest of the queue. */
  lemma WalkEntriesContainer(rules: Rules, q: seq<Pending>, m: map<string, string>)
    requires q != [] && AllValid(q) && IsContainer(q[0].1)
    requires rules.resolution == Fail && Walk(rules, q, m).status.Ok?
    requires var cs := Children(q[0].0, q[0].1);
      AllValid(q[1..] + cs) && QueueSize(q[1..] + cs) < QueueSize(q)
    requires var next := q[1..] + Children(q[0].0, q[0].1);
      Walk(rules, next, m).status.Ok? ==> Walk(rules, next, m).translations == m + QueueLeafEntries(next)
    ensures Walk(rules, q, m).translations == m + QueueLeafEntries(q)
  {
    var key, d := q[0].0, q[0].1;
    var cs := Children(key, d);
    QueueSizeHead(q);
    assert ValidChildren(rules, d);
    assert Walk(rules, q, m) == Walk(rules, q[1..] + cs, m);
    QueueLeafEntriesConcat(q[1..], cs);
    WalkFailSplitDisjoint(rules, q[1..], cs, m);
    QueueLeafEntriesKeys(q[1..]);
    QueueLeafEntriesKeys(cs);
    DisjointUnionCommutes(QueueLeafEntries(q[1..]), QueueLeafEntries(cs));
    assert QueueLeafEntries(q) == QueueLeafEntries(cs) + QueueLeafEntries(q[1..]);
  }

  /** A leaf at the head of the queue: its text is added, and the walk goes on. */
  lemma WalkEntriesLeaf(rules: Rules, q: seq<Pending>, m: map<string, string>)
    requires q != [] && AllValid(q) && !IsContainer(q[0].1)
    requires rules.resolution == Fail && Walk(rules, q, m).status.Ok?
    ensures AddValue(rules, m, q[0].0, q[0].1).Ok?
    ensures var m' := AddValue(rules, m, q[0].0, q[0].1).value;
      && AllValid(q[1..]) && QueueSize(q[1..]) < QueueSize(q)
      && Walk(rules, q, m) == Walk(rules, q[1..], m')
      && (m' + QueueLeafEntries(q[1..]) == m + QueueLeafEntries(q))
  {
    QueueSizeHead(q);
    var key, d := q[0].0, q[0].1;
    var m' := AddValue(rules, m, key, d).value;
    assert m' == m + map[key := LeafText(d)];
    assert LeafEntries(key, d) == map[key := LeafText(d)];
    assert QueueLeafEntries(q) == LeafEntries(key, d) + QueueLeafEntries(q[1..]);
    UnionAssoc(m, map[key := LeafText(d)], QueueLeafEntries(q[1..]));
  }

  /** Under `FAIL` a walk that ends without error stores, next to the entries
      already there, exactly the text of every leaf under its flattened key. */
  lemma {:induction false} WalkEntries(rules: Rules, q: seq<Pending>, m: map<string, string>)
    requires AllValid(q)
    requires rules.resolution == Fail
    ensures Walk(rules, q, m).status.Ok? ==> Walk(rules, q, m).translations == m + QueueLeafEntries(q)
    decreases QueueSize(q)
  {
    if q != [] && Walk(rules, q, m).status.Ok? {
      QueueSizeHead(q);
      var key, d := q[0].0, q[0].1;
      if IsContainer(d) {
        var cs := Children(key, d);
        ChildrenSize(key, d);
        QueueSizeConcat(q[1..], cs);
        WalkEntries(rules, q[1..] + cs, m);
        WalkEntriesContainer(rules, q, m);
      } else {
        WalkEntriesLeaf(rules, q, m);
        WalkEntries(rules, q[1..], AddValue(rules, m, key, d).value);
      }
    }
  }

  /** A map holding one text under `b` puts it under `a.b`; a list of two texts
      puts them under `a.0` and `a.1`. */
  lemma FlatteningExamples(a: string, b: string, x: string, y: string)
    ensures LeafPaths(a, Entries([(StringKey(b), Text(x))])) == {a + "." + b}
    ensures LeafPaths(a, Items([Text(x), Text(y)])) == {a + "." + "0", a + "." + "1"}
    ensures LeafEntries(a, Entries([(StringKey(b), Text(x))])) == map[a + "." + b := x]
    ensures LeafEntries(a, Items([Text(x), Text(y)])) == map[a + "." + "0" := x, a + "." + "1" := y]
  {
    var m := Entries([(StringKey(b), Text(x))]);
    var cs := Children(a, m);
    assert cs == [(a + "." + b, Text(x))];
    assert QueueLeafPaths(cs[1..]) == {} by { assert cs[1..] == []; }
    assert LeafPaths(cs[0].0, cs[0].1) == {a + "." + b};
    assert LeafPaths(a, m) == QueueLeafPaths(cs);
    var l := Items([Text(x), Text(y)]);
    var ls := Children(a, l);
    assert Decimal(0) == "0" && Decimal(1) == "1";
    assert ls == [(a + "." + "0", Text(x)), (a + "." + "1", Text(y))];
    assert QueueLeafPaths(ls[1..][1..]) == {} by { assert ls[1..][1..] == []; }
    assert QueueLeafPaths(ls[1..]) == {a + "." + "1"};
    assert LeafPaths(ls[0].0, ls[0].1) == {a + "." + "0"};
    assert QueueLeafPaths(ls) == {a + "." + "0"} + {a + "." + "1"};
    assert LeafPaths(a, l) == QueueLeafPaths(ls);
    assert QueueLeafEntries(cs[1..]) == map[] by { assert cs[1..] == []; }
    assert LeafEntries(a, m) == QueueLeafEntries(cs) == map[a + "." + b := x];
    assert QueueLeafEntries(ls[1..][1..]) == map[] by { assert ls[1..][1..] == []; }
    assert QueueLeafEntries(ls[1..]) == map[a + "." + "1" := y];
    assert LeafEntries(a, l) == QueueLeafEntries(ls) == map[a + "." + "0" := x] + map[a + "." + "1" := y];
  }

  /** The keys of the top-level entries with their values, as the walk starts
      them. */
  function TopLevel(entries: seq<(Key, Data)>): seq<Pending>
  {
    seq(|entries|, i requires 0 <= i < |entries| => (KeyName(entries[i].0), entries[i].1))
  }

  /** Adding the entries of a map ends without error only when every top-level key
      and value is valid, and then adds exactly the leaf keys of all entries. */
  lemma {:induction false} AddEntriesKeys(rules: Rules, entries: seq<(Key, Data)>, m: map<string, string>)
    ensures AddEntries(rules, entries, m).status.Ok? ==>
      && (forall i :: 0 <= i < |entries| ==> ValidKey(rules, entries[i].0) && ValidValue(entries[i].1))
      && AddEntries(rules, entries, m).translations.Keys == m.Keys + QueueLeafPaths(TopLevel(entries))
    decreases |entries|
  {
    if entries != [] {
      var k, v := entries[0].0, entries[0].1;
      if ValidKey(rules, k) && ValidValue(v) {
        var o := Walk(rules, [(k.name, v)], m);
        WalkKeys(rules, [(k.name, v)], m);
        if o.status.Ok? {
          AddEntriesKeys(rules, entries[1..], o.translations);
          var t := TopLevel(entries);
          assert t[0] == (k.name, v);
          assert t[1..] == TopLevel(entries[1..]);
          assert [(k.name, v)][1..] == [];
          assert QueueLeafPaths([(k.name, v)]) == LeafPaths(k.name, v);
          assert forall i :: 0 < i < |entries| ==> entries[i] == entries[1..][i - 1];
        }
      }
    }
  }

  /** A successful `AddEntries` walked its first entry without error and went on
      with the rest. */
  lemma AddEntriesHead(rules: Rules, entries: seq<(Key, Data)>, m: map<string, string>)
    requires entries != [] && AddEntries(rules, entries, m).status.Ok?
    ensures ValidKey(rules, entries[0].0) && ValidValue(entries[0].1)
    ensures var o := Walk(rules, [(entries[0].0.name, entries[0].1)], m);
      o.status.Ok? && AddEntries(rules, entries, m) == AddEntries(rules, entries[1..], o.translations)
  {
  }

  /** The texts of the top-level entries are those of the first one, then those
      of the rest. */
  lemma TopLevelEntriesHead(entries: seq<(Key, Data)>)
    requires entries != []
    ensures QueueLeafEntries(TopLevel(entries))
         == QueueLeafEntries([(KeyName(entries[0].0), entries[0].1)]) + QueueLeafEntries(TopLevel(entries[1..]))
  {
    var t := TopLevel(entries);
    assert t[1..] == TopLevel(entries[1..]);
    assert [t[0]][1..] == [];
  }

  /** Under `FAIL`, adding the entries of a map without error stores exactly the
      text of every leaf of every entry under its flattened key. */
  lemma {:induction false} AddEntriesTexts(rules: Rules, entries: seq<(Key, Data)>, m: map<string, string>)
    requires rules.resolution == Fail
    ensures AddEntries(rules, entries, m).status.Ok? ==>
      AddEntries(rules, entries, m).translations == m + QueueLeafEntries(TopLevel(entries))
    decreases |entries|
  {
    if entries != [] && AddEntries(rules, entries, m).status.Ok? {
      AddEntriesHead(rules, entries, m);
      var head := [(entries[0].0.name, entries[0].1)];
      var o := Walk(rules, head, m);
      WalkEntries(rules, head, m);
      var after := o.translations;
      AddEntriesTexts(rules, entries[1..], after);
      TopLevelEntriesHead(entries);
      UnionAssoc(m, QueueLeafEntries(head), QueueLeafEntries(TopLevel(entries[1..])));
    }
  }

  /** An empty map changes nothing, not even the locales; otherwise only the
      locale's own map changes, and without error it gains exactly the leaf keys
      of the entries. */
  lemma AddToMapSpec(rules: Rules, content: map<Locale, map<string, string>>, locale: Locale, entries: seq<(Key, Data)>)
    ensures entries == [] ==> AddToMap(rules, content, locale, entries) == (Ok(()), content)
    ensures entries != [] ==> AddToMap(rules, content, locale, entries).1.Keys == content.Keys + {locale}
    ensures forall l :: l in content && l != locale ==> AddToMap(rules, content, locale, entries).1[l] == content[l]
    ensures entries != [] && AddToMap(rules, content, locale, entries).0.Ok? ==>
      AddToMap(rules, content, locale, entries).1[locale].Keys ==
        (if locale in content then content[locale].Keys else {}) + QueueLeafPaths(TopLevel(entries))
    ensures entries != [] && rules.resolution == Fail && AddToMap(rules, content, locale, entries).0.Ok? ==>
      AddToMap(rules, content, locale, entries).1[locale] ==
        (if locale in content then content[locale] else map[]) + QueueLeafEntries(TopLevel(entries))
  {
    if entries != [] {
      AddEntriesKeys(rules, entries, if locale in content then content[locale] else map[]);
      if rules.resolution == Fail {
        AddEntriesTexts(rules, entries, if locale in content then content[locale] else map[]);
      }
    }
  }

  /** One step of `AddEntries`: the entry at `i` is checked, then walked. */
  lemma AddEntriesStep(rules: Rules, entries: seq<(Key, Data)>, i: nat, m: map<string, string>)
    requires i < |entries|
    ensures AddEntries(rules, entries[i..], m) ==
      if !ValidKey(rules, entries[i].0) || !ValidValue(entries[i].1) then Outcome(Err(IllegalState), m)
      else
        var o := Walk(rules, [(entries[i].0.name, entries[i].1)], m);
        if o.status.Err? then o else AddEntries(rules, entries[i + 1..], o.translations)
  {
    assert entries[i..][0] == entries[i];
    assert entries[i..][1..] == entries[i + 1..];
  }

  // ----- the builder -----

  /** Whether a resource path refers to a parent directory (`".." in path`). */
  predicate HasParentReference(path: string)
  {
    exists i :: 0 <= i < |path| - 1 && path[i] == '.' && path[i + 1] == '.'
  }

  class ContentBuilder {
    var hasRun: bool
    var content: map<Locale, map<string, string>>
    var duplicatedKeyResolution: DuplicatedKeyResolution
    const isKey: string -> bool
    const isValue: string -> bool

    constructor(isKey: string -> bool, isValue: string -> bool)
      ensures !hasRun && content == map[] && duplicatedKeyResolution == Fail
      ensures this.isKey == isKey && this.isValue == isValue
    {
      hasRun := false;
      content := map[];
      duplicatedKeyResolution := Fail;
      this.isKey := isKey;
      this.isValue := isValue;
    }

    function CurrentRules(): Rules
      reads this
    {
      Rules(isKey, isValue, duplicatedKeyResolution)
    }

    /** The guard of `file(path)`: no file is read once the builder has run. */
    method File() returns (r: Result<()>)
      ensures r.Err? <==> hasRun
      ensures r.Err? ==> r.error == IllegalState
    {
      if hasRun {
        return Err(IllegalState);
      }
      return Ok(());
    }

    /** The guards of `resource(path)`: `IllegalStateException` once the builder has
        run, then `IllegalArgumentException` for a path with `..`. */
    method Resource(path: string) returns (r: Result<()>)
      ensures hasRun ==> r == Err(IllegalState)
      ensures !hasRun ==> (r.Ok? <==> !HasParentReference(path))
      ensures !hasRun && r.Err? ==> r.error == IllegalArgument
    {
      if hasRun {
        return Err(IllegalState);
      }
      var i := 0;
      while i + 1 < |path|
        invariant 0 <= i
        invariant forall j :: 0 <= j < i && j < |path| - 1 ==> !(path[j] == '.' && path[j + 1] == '.')
      {
        if path[i] == '.' && path[i + 1] == '.' {
          return Err(IllegalArgument);
        }
        i := i + 1;
      }
      return Ok(());
    }

    /** `map(locale, map)`: `IllegalStateException` once the builder has run,
        otherwise `addToMap`. */
    method Map(locale: Locale, entries: seq<(Key, Data)>) returns (r: Result<()>)
      modifies this
      ensures hasRun == old(hasRun) && duplicatedKeyResolution == old(duplicatedKeyResolution)
      ensures old(hasRun) ==> r == Err(IllegalState) && content == old(content)
      ensures !old(hasRun) ==> (r, content) == AddToMap(old(CurrentRules()), old(content), locale, entries)
    {
      if hasRun {
        return Err(IllegalState);
      }
      r := AddEntriesTo(locale, entries);
    }

    /** `run()`: marks the builder as run and gives the content. */
    method Run() returns (r: map<Locale, map<string, string>>)
      modifies this
      ensures hasRun && r == old(content) && content == old(content)
      ensures duplicatedKeyResolution == old(duplicatedKeyResolution)
    {
      hasRun := true;
      return content;
    }

    /** `addToMap(locale, map)`. */
    method AddEntriesTo(locale: Locale, entries: seq<(Key, Data)>) returns (r: Result<()>)
      modifies this
      ensures hasRun == old(hasRun) && duplicatedKeyResolution == old(duplicatedKeyResolution)
      ensures (r, content) == AddToMap(old(CurrentRules()), old(content), locale, entries)
    {
      if |entries| == 0 {
        return Ok(());
      }
      ghost var rules := CurrentRules();
      ghost var base := if locale in content then content[locale] else map[];
      ghost var target := AddEntries(rules, entries, base);
      assert AddToMap(rules, old(content), locale, entries) == (target.status, old(content)[locale := target.translations]);
      if locale !in content {
        content := content[locale := map[]];
      }
      var i := 0;
      while i < |entries|
        invariant 0 <= i <= |entries|
        invariant hasRun == old(hasRun) && CurrentRules() == rules
        invariant locale in content && content == old(content)[locale := content[locale]]
        invariant AddEntries(rules, entries[i..], content[locale]) == target
      {
        ghost var before := content[locale];
        AddEntriesStep(rules, entries, i, before);
        var k := entries[i].0;
        var value := entries[i].1;
        if !ValidKey(CurrentRules(), k) {
          return Err(IllegalState);
        }
        if !ValidValue(value) {
          return Err(IllegalState);
        }
        var status := Flatten(locale, k.name, value);
        ghost var o := Walk(rules, [(k.name, value)], before);
        assert status == o.status && content == old(content)[locale := o.translations];
        if status.Err? {
          assert target == o;
          return status;
        }
        i := i + 1;
      }
      assert entries[i..] == [];
      assert target == Outcome(Ok(()), content[locale]);
      r := Ok(());
    }

    /** The walk of one top-level entry through an `ArrayDeque`. */
    method Flatten(locale: Locale, key: string, value: Data) returns (r: Result<()>)
      requires locale in content && ValidValue(value)
      modifies this
      ensures hasRun == old(hasRun) && duplicatedKeyResolution == old(duplicatedKeyResolution)
      ensures var o := Walk(old(CurrentRules()), [(key, value)], old(content[locale]));
        r == o.status && content == old(content)[locale := o.translations]
    {
      ghost var rules := CurrentRules();
      var toFlatten: seq<Pending> := [(key, value)];
      while toFlatten != []
        invariant hasRun == old(hasRun) && CurrentRules() == rules
        invariant locale in content && content == old(content)[locale := content[locale]]
        invariant AllValid(toFlatten)
        invariant Walk(rules, toFlatten, content[locale]) == Walk(rules, [(key, value)], old(content[locale]))
        decreases QueueSize(toFlatten)
      {
        QueueSizeHead(toFlatten);
        var currentKey := toFlatten[0].0;
        var currentValue := toFlatten[0].1;
        toFlatten := toFlatten[1..];
        if IsContainer(currentValue) {
          var pushed := PushChildren(currentKey, currentValue, toFlatten);
          if pushed.Err? {
            return Err(pushed.error);
          }
          ChildrenSize(currentKey, currentValue);
          QueueSizeConcat(toFlatten, Children(currentKey, currentValue));
          toFlatten := pushed.value;
        } else {
          var added := AddLeaf(locale, currentKey, currentValue);
          if added.Err? {
            return added;
          }
        }
      }
      r := Ok(());
    }

    /** The `forEach` over a map's entries or a list's elements: each is checked
        and queued under `key.subKey` or `key.index`. */
    method PushChildren(key: string, d: Data, queue: seq<Pending>) returns (r: Result<seq<Pending>>)
      requires IsContainer(d)
      ensures r == Pushed(CurrentRules(), key, d, queue)
      ensures r.Ok? ==> AllValid(queue) ==> AllValid(r.value)
    {
      var q := queue;
      match d {
        case Entries(es) =>
          var i := 0;
          while i < |es|
            invariant 0 <= i <= |es|
            invariant q == queue + Children(key, d)[..i]
            invariant forall j :: 0 <= j < i ==> ValidKey(CurrentRules(), es[j].0) && ValidValue(es[j].1)
          {
            var subKey := es[i].0;
            var subValue := es[i].1;
            if !ValidKey(CurrentRules(), subKey) || !ValidValue(subValue) {
              return Err(IllegalState);
            }
            q := q + [(key + "." + subKey.name, subValue)];
            assert Children(key, d)[..i + 1] == Children(key, d)[..i] + [Children(key, d)[i]];
            i := i + 1;
          }
          assert Children(key, d)[..i] == Children(key, d);
        case Items(xs) =>
          var i := 0;
          while i < |xs|
            invariant 0 <= i <= |xs|
            invariant q == queue + Children(key, d)[..i]
            invariant forall j :: 0 <= j < i ==> ValidValue(xs[j])
          {
            var subValue := xs[i];
            if !ValidValue(subValue) {
              return Err(IllegalState);
            }
            q := q + [(key + "." + Decimal(i), subValue)];
            assert Children(key, d)[..i + 1] == Children(key, d)[..i] + [Children(key, d)[i]];
            i := i + 1;
          }
          assert Children(key, d)[..i] == Children(key, d);
      }
      r := Ok(q);
    }

    /** `addValue(locale, localeMap, key, value)` on the locale's map. */
    method AddLeaf(locale: Locale, key: string, leaf: Data) returns (r: Result<()>)
      requires locale in content && ValidValue(leaf) && !IsContainer(leaf)
      modifies this
      ensures hasRun == old(hasRun) && duplicatedKeyResolution == old(duplicatedKeyResolution)
      ensures var added := AddValue(old(CurrentRules()), old(content[locale]), key, leaf);
        && (added.Err? ==> r == Err(added.error) && content == old(content))
        && (added.Ok? ==> r == Ok(()) && content == old(content)[locale := added.value])
    {
      var stringValue := LeafText(leaf);
      if !isValue(stringValue) {
        return Err(IllegalArgument);
      }
      var finalMap := content[locale];
      match duplicatedKeyResolution {
        case Fail =>
          if key in finalMap {
            return Err(IllegalState);
          }
          content := content[locale := finalMap[key := stringValue]];
        case KeepFirst =>
          if key !in finalMap {
            content := content[locale := finalMap[key := stringValue]];
          }
        case KeepLast =>
          content := content[locale := finalMap[key := stringValue]];
      }
      r := Ok(());
    }
  }

  /** Once the builder has run, `map` is rejected and the content stays as it
      was. */
  method RunThenMap(b: ContentBuilder, locale: Locale, entries: seq<(Key, Data)>) returns (built: map<Locale, map<string, string>>, r: Result<()>)
    modifies b
    ensures r == Err(IllegalState) && b.content == built && built == old(b.content)
  {
    built := b.Run();
    r := b.Map(locale, entries);
  }
}
