/** `TranslationProcessor`: building the actual key of a translation from its
    arguments (`key_context_ordinal_plural`), finding a variable among the
    arguments, and looking a key up in the translations of a locale and then of
    its successive reductions. The plural rules are a parameter of the
    translator's data; the found value is returned before interpolation. */
module TranslationProcessor {
  import opened Wrappers
  import opened TranslatorBuilder
  import opened BuiltinPluralRule
  import Sequences

  /** The value of a `count` argument: a number, a `ScientificNotationNumber`, or
      anything else. */
  datatype CountValue = Number(n: int) | Scientific(mantissa: int, exponent: int) | NotANumber

  /** A `TranslationArgument`. The locale and fallback arguments play no part
      here and are `Other`. */
  datatype Argument =
    | Context(context: string)
    | Ordinal(ordinal: bool)
    | Count(count: CountValue)
    | Variable(name: string, value: string)
    | Other(id: nat)

  /** `PluralRuleProvider.ordinal(count)` (`isOrdinal`) or `cardinal(count)` of the
      provider a locale maps to. */
  type PluralMapper = (Locale, bool, CountValue) -> Result<Plural>

  /** What the translator keeps: translations by locale, the plural rules, what to
      do with a missing key, and the key syntax (`keyRegex()`). */
  datatype MissingKeyPolicy = ThrowException | ReturnKey
  datatype TranslatorData = TranslatorData(
    translations: map<Locale, map<string, string>>,
    pluralMapper: PluralMapper,
    missingKeyPolicy: MissingKeyPolicy,
    isKey: string -> bool)

  // ----- the arguments -----

  /** The argument classes `findKind` looks for. */
  datatype Kind = ContextKind | OrdinalKind | CountKind

  predicate OfKind(a: Argument, k: Kind)
  {
    match k
    case ContextKind => a.Context?
    case OrdinalKind => a.Ordinal?
    case CountKind => a.Count?
  }

  /** `args[i]` is the first argument of kind `k`. */
  predicate FirstOfKind(args: seq<Argument>, k: Kind, i: int)
  {
    0 <= i < |args| && OfKind(args[i], k) && forall j :: 0 <= j < i ==> !OfKind(args[j], k)
  }

  /** The first argument of kind `k` in `args` is the first one of `args[1..]`,
      one place further, when `args[0]` is of another kind. */
  lemma FirstOfKindTail(args: seq<Argument>, k: Kind)
    requires args != [] && !OfKind(args[0], k)
    ensures forall i :: FirstOfKind(args, k, i) ==> FirstOfKind(args[1..], k, i - 1)
    ensures (forall i :: 0 <= i < |args[1..]| ==> !OfKind(args[1..][i], k))
            <==> (forall i :: 0 <= i < |args| ==> !OfKind(args[i], k))
  {
    forall i | FirstOfKind(args, k, i)
      ensures FirstOfKind(args[1..], k, i - 1)
    {
      forall j | 0 <= j < i - 1
        ensures !OfKind(args[1..][j], k)
      {
        assert args[1..][j] == args[j + 1];
      }
    }
    if forall i :: 0 <= i < |args[1..]| ==> !OfKind(args[1..][i], k) {
      forall i | 0 <= i < |args|
        ensures !OfKind(args[i], k)
      {
        if i > 0 {
          assert args[i] == args[1..][i - 1];
        }
      }
    }
  }

  /** `findKind<Context>()?.value`: the first context argument. */
  function ContextOf(args: seq<Argument>): (r: Option<string>)
    ensures r.None? <==> forall i :: 0 <= i < |args| ==> !OfKind(args[i], ContextKind)
    ensures forall i :: FirstOfKind(args, ContextKind, i) ==> r == Some(args[i].context)
    decreases |args|
  {
    if args == [] then None
    else if args[0].Context? then Some(args[0].context)
    else
      FirstOfKindTail(args, ContextKind);
      ContextOf(args[1..])
  }

  /** `findKind<Ordinal>()?.value ?: false`. */
  function OrdinalOf(args: seq<Argument>): (r: bool)
    ensures (forall i :: 0 <= i < |args| ==> !OfKind(args[i], OrdinalKind)) ==> !r
    ensures forall i :: FirstOfKind(args, OrdinalKind, i) ==> r == args[i].ordinal
    decreases |args|
  {
    if args == [] then false
    else if args[0].Ordinal? then args[0].ordinal
    else
      FirstOfKindTail(args, OrdinalKind);
      OrdinalOf(args[1..])
  }

  /** `findKind<Count>()?.value`. */
  function CountOf(args: seq<Argument>): (r: Option<CountValue>)
    ensures r.None? <==> forall i :: 0 <= i < |args| ==> !OfKind(args[i], CountKind)
    ensures forall i :: FirstOfKind(args, CountKind, i) ==> r == Some(args[i].count)
    decreases |args|
  {
    if args == [] then None
    else if args[0].Count? then Some(args[0].count)
    else
      FirstOfKindTail(args, CountKind);
      CountOf(args[1..])
  }

  /** With two ordinal arguments the first one decides, as `findKind` returns the
      first match. */
  lemma FirstOrdinalDecides()
    ensures !OrdinalOf([Ordinal(false), Ordinal(true)])
    ensures ContextOf([Argument.Other(0), Context("a"), Context("b")]) == Some("a")
  {
    assert FirstOfKind([Ordinal(false), Ordinal(true)], OrdinalKind, 0);
    assert FirstOfKind([Argument.Other(0), Context("a"), Context("b")], ContextKind, 1);
  }

  /** `countValue(ordinal, provider)`: no count gives no category; a number asks the
      provider; any other count is an `AssertionError`. */
  function CountPlural(args: seq<Argument>, ordinal: bool, mapper: PluralMapper, locale: Locale): (r: Result<Option<Plural>>)
    ensures CountOf(args).None? ==> r == Ok(None)
    ensures CountOf(args) == Some(NotANumber) ==> r == Err(Assertion)
    ensures CountOf(args).Some? && !CountOf(args).value.NotANumber? ==>
      r == (var p := mapper(locale, ordinal, CountOf(args).value); if p.Ok? then Ok(Some(p.value)) else Err(p.error))
  {
    match CountOf(args)
    case None => Ok(None)
    case Some(NotANumber) => Err(Assertion)
    case Some(count) =>
      var p :- mapper(locale, ordinal, count);
      Ok(Some(p))
  }

  // ----- buildKey -----

  /** The suffix the context adds: `_context`, or nothing. */
  function ContextSuffix(context: Option<string>): string
  {
    if context.Some? then "_" + context.value else ""
  }

  /** The suffix the category adds: `_ordinal` for an ordinal count, then `_` and
      the lower-case category; nothing without a count. */
  function PluralSuffix(plural: Option<Plural>, ordinal: bool): string
  {
    if plural.None? then "" else (if ordinal then "_ordinal" else "") + "_" + PluralName(plural.value)
  }

  /** The key `buildKey` builds: the key itself when there are no arguments;
      otherwise the key, the context suffix and the plural suffix, in that
      order. */
  function ActualKey(key: string, args: seq<Argument>, mapper: PluralMapper, locale: Locale): Result<string>
  {
    if args == [] then Ok(key)
    else
      var ordinal := OrdinalOf(args);
      var plural :- CountPlural(args, ordinal, mapper, locale);
      Ok(key + ContextSuffix(ContextOf(args)) + PluralSuffix(plural, ordinal))
  }

  /** `buildKey(key, args, provider)`: appends to a builder holding the key. */
  method BuildKey(key: string, args: seq<Argument>, mapper: PluralMapper, locale: Locale) returns (r: Result<string>)
    ensures r == ActualKey(key, args, mapper, locale)
  {
    if args == [] {
      return Ok(key);
    }
    var builder := key;
    var context := ContextOf(args);
    if context.Some? {
      builder := builder + "_";
      builder := builder + context.value;
    }
    assert builder == key + ContextSuffix(context);
    var ordinal := OrdinalOf(args);
    var plural := CountPlural(args, ordinal, mapper, locale);
    if plural.Err? {
      return Err(plural.error);
    }
    var category := plural.value;
    ghost var before := builder;
    if category.Some? {
      ghost var marker := if ordinal then "_ordinal" else "";
      if ordinal {
        builder := builder + "_ordinal";
      }
      assert builder == before + marker;
      builder := builder + "_";
      builder := builder + PluralName(category.value);
      Sequences.Assoc(before, marker, "_");
      Sequences.Assoc(before, marker + "_", PluralName(category.value));
    }
    assert builder == before + PluralSuffix(category, ordinal);
    r := Ok(builder);
  }

  /** Without arguments the key is kept; with arguments the key is always a prefix
      of the built key; without a context nor a count nothing is added; a context
      comes right after the key, before any plural suffix. */
  lemma ActualKeyShape(key: string, args: seq<Argument>, mapper: PluralMapper, locale: Locale)
    ensures args == [] ==> ActualKey(key, args, mapper, locale) == Ok(key)
    ensures ActualKey(key, args, mapper, locale).Ok? ==> var k := ActualKey(key, args, mapper, locale).value;
      && |key| <= |k| && k[..|key|] == key
      && (ContextOf(args).None? && CountOf(args).None? ==> k == key)
      && (args != [] && ContextOf(args).Some? ==>
            k[|key|..|key| + 1 + |ContextOf(args).value|] == "_" + ContextOf(args).value)
  {
    if args != [] && ActualKey(key, args, mapper, locale).Ok? {
      var k := ActualKey(key, args, mapper, locale).value;
      var c := ContextSuffix(ContextOf(args));
      var plural := CountPlural(args, OrdinalOf(args), mapper, locale).value;
      var p := PluralSuffix(plural, OrdinalOf(args));
      assert k == key + c + p;
      assert k[..|key|] == key;
      if ContextOf(args).Some? {
        assert k[|key|..|key| + |c|] == c;
      }
    }
  }

  /** An ordinal count adds `_ordinal`, then `_` and the category the ordinal rule
      gives, after the context suffix; a count that is not a number is an
      `AssertionError`. */
  lemma ActualKeyPlural(key: string, args: seq<Argument>, mapper: PluralMapper, locale: Locale)
    ensures args != [] && CountOf(args).Some? && !CountOf(args).value.NotANumber? && OrdinalOf(args)
            && mapper(locale, true, CountOf(args).value).Ok? ==>
      ActualKey(key, args, mapper, locale) ==
        Ok(key + ContextSuffix(ContextOf(args)) + "_ordinal" + "_" + PluralName(mapper(locale, true, CountOf(args).value).value))
    ensures args != [] && CountOf(args) == Some(NotANumber) ==> ActualKey(key, args, mapper, locale) == Err(Assertion)
  {
    if args != [] && CountOf(args).Some? && !CountOf(args).value.NotANumber? && OrdinalOf(args)
       && mapper(locale, true, CountOf(args).value).Ok? {
      var name := PluralName(mapper(locale, true, CountOf(args).value).value);
      var c := ContextSuffix(ContextOf(args));
      assert PluralSuffix(CountPlural(args, true, mapper, locale).value, true) == "_ordinal" + "_" + name;
      assert key + c + ("_ordinal" + "_" + name) == key + c + "_ordinal" + "_" + name;
    }
  }

  /** For a given key and category, different contexts give different keys, and
      different categories give different keys. */
  lemma ActualKeyDistinguishes(key: string, c1: Option<string>, c2: Option<string>, p1: Option<Plural>, p2: Option<Plural>, ordinal: bool)
    ensures c1 != c2 && p1 == p2 ==>
      key + ContextSuffix(c1) + PluralSuffix(p1, ordinal) != key + ContextSuffix(c2) + PluralSuffix(p2, ordinal)
    ensures c1 == c2 && p1 != p2 ==>
      key + ContextSuffix(c1) + PluralSuffix(p1, ordinal) != key + ContextSuffix(c2) + PluralSuffix(p2, ordinal)
  {
    var s1, s2 := PluralSuffix(p1, ordinal), PluralSuffix(p2, ordinal);
    var a, b := key + ContextSuffix(c1) + s1, key + ContextSuffix(c2) + s2;
    assert a[|key|..|a| - |s1|] == ContextSuffix(c1);
    assert b[|key|..|b| - |s2|] == ContextSuffix(c2);
    assert a[|key| + |ContextSuffix(c1)|..] == s1;
    assert b[|key| + |ContextSuffix(c2)|..] == s2;
    ContextSuffixInjective(c1, c2);
    PluralSuffixInjective(p1, p2, ordinal);
  }

  lemma ContextSuffixInjective(c1: Option<string>, c2: Option<string>)
    ensures ContextSuffix(c1) == ContextSuffix(c2) ==> c1 == c2
  {
    if c1.Some? {
      assert ContextSuffix(c1)[1..] == c1.value;
    }
    if c2.Some? {
      assert ContextSuffix(c2)[1..] == c2.value;
    }
  }

  lemma PluralSuffixInjective(p1: Option<Plural>, p2: Option<Plural>, ordinal: bool)
    ensures PluralSuffix(p1, ordinal) == PluralSuffix(p2, ordinal) ==> p1 == p2
  {
    var o: string := if ordinal then "_ordinal" else "";
    if p1.Some? {
      PluralNameRoundTrip(p1.value);
      assert PluralSuffix(p1, ordinal)[|o| + 1..] == PluralName(p1.value);
    }
    if p2.Some? {
      PluralNameRoundTrip(p2.value);
      assert PluralSuffix(p2, ordinal)[|o| + 1..] == PluralName(p2.value);
    }
  }

  // ----- variable(name) -----

  /** Whether `a` is the variable `name`. */
  predicate IsVariable(a: Argument, name: string)
  {
    a.Variable? && a.name == name
  }

  /** `variable(name)`: the first variable argument with that name, or `null`. */
  method FindVariable(args: seq<Argument>, name: string) returns (r: Option<Argument>)
    ensures r.None? <==> forall i :: 0 <= i < |args| ==> !IsVariable(args[i], name)
    ensures r.Some? ==> exists i :: 0 <= i < |args| && args[i] == r.value && IsVariable(args[i], name)
                                    && forall j :: 0 <= j < i ==> !IsVariable(args[j], name)
  {
    var i := 0;
    while i < |args|
      invariant 0 <= i <= |args|
      invariant forall j :: 0 <= j < i ==> !IsVariable(args[j], name)
    {
      var arg := args[i];
      if !arg.Variable? {
        i := i + 1;
        continue;
      }
      if name != arg.name {
        i := i + 1;
        continue;
      }
      return Some(arg);
    }
    return None;
  }

  // ----- translate -----

  /** The value of the actual key in the translations of `l`: `null` when `l` has
      no translations or lacks the key. */
  function LookupIn(data: TranslatorData, key: string, args: seq<Argument>, l: Locale): Result<Option<string>>
  {
    if l !in data.translations then Ok(None)
    else
      var actualKey :- ActualKey(key, args, data.pluralMapper, l);
      var translations := data.translations[l];
      Ok(if actualKey in translations then Some(translations[actualKey]) else None)
  }

  /** What `translate` gives from `l` on: the value in `l`, else the search from
      the reduction of `l`, else `null`. */
  function TranslateFrom(data: TranslatorData, key: string, args: seq<Argument>, l: Locale): Result<Option<string>>
    decreases Specificity(l)
  {
    var found :- LookupIn(data, key, args, l);
    if found.Some? then Ok(found)
    else
      ReduceSpec(l);
      match Reduce(l)
      case None => Ok(None)
      case Some(next) => TranslateFrom(data, key, args, next)
  }

  /** The search that continues after `lookup` has been tried (the first locale when
      nothing has been tried yet). */
  function After(data: TranslatorData, key: string, args: seq<Argument>, locale: Locale, lookup: Option<Locale>): Result<Option<string>>
  {
    match lookup
    case None => TranslateFrom(data, key, args, locale)
    case Some(l) =>
      match Reduce(l)
      case None => Ok(None)
      case Some(next) => TranslateFrom(data, key, args, next)
  }

  /** How many locales are left to try after `lookup`. */
  function Remaining(lookup: Option<Locale>): nat
  {
    if lookup.None? then 5 else Specificity(lookup.value)
  }

  /** `translate(data, key, args, locale)`: finds the first locale, among `locale`
      and its successive reductions, that has translations; builds the actual key
      with that locale's plural rules; returns its value, or goes on with the next
      reduction when the key is missing; gives `null` once the reduction does. */
  method Translate(data: TranslatorData, key: string, args: seq<Argument>, locale: Locale) returns (r: Result<Option<string>>)
    ensures r == TranslateFrom(data, key, args, locale)
  {
    var lookup: Option<Locale> := None;
    while true
      invariant After(data, key, args, locale, lookup) == TranslateFrom(data, key, args, locale)
      decreases Remaining(lookup)
    {
      var translations: Option<map<string, string>> := None;
      ghost var start := Remaining(lookup);
      while translations.None?
        invariant translations.None? ==> After(data, key, args, locale, lookup) == TranslateFrom(data, key, args, locale)
        invariant translations.Some? ==>
          && lookup.Some? && lookup.value in data.translations
          && translations.value == data.translations[lookup.value]
          && TranslateFrom(data, key, args, lookup.value) == TranslateFrom(data, key, args, locale)
        invariant Remaining(lookup) <= start
        invariant translations.Some? ==> Remaining(lookup) < start
        decreases Remaining(lookup), if translations.None? then 1 else 0
      {
        if lookup.Some? {
          ReduceSpec(lookup.value);
          var next := Reduce(lookup.value);
          if next.None? {
            return Ok(None);
          }
          lookup := next;
        } else {
          lookup := Some(locale);
        }
        if lookup.value in data.translations {
          translations := Some(data.translations[lookup.value]);
        }
      }
      var actualKey := BuildKey(key, args, data.pluralMapper, lookup.value);
      if actualKey.Err? {
        return Err(actualKey.error);
      }
      if actualKey.value !in translations.value {
        continue;
      }
      return Ok(Some(translations.value[actualKey.value]));
    }
  }

  /** The search in order through a list of locales: the first value found. */
  function SearchAll(data: TranslatorData, key: string, args: seq<Argument>, ls: seq<Locale>): Result<Option<string>>
    decreases |ls|
  {
    if ls == [] then Ok(None)
    else
      var found :- LookupIn(data, key, args, ls[0]);
      if found.Some? then Ok(found) else SearchAll(data, key, args, ls[1..])
  }

  /** `translate` searches exactly the locales of the reduction chain of `locale`,
      in order: the locale, then each reduction down to the language alone. */
  lemma {:induction false} TranslateSearchesReductions(data: TranslatorData, key: string, args: seq<Argument>, l: Locale)
    ensures TranslateFrom(data, key, args, l) == SearchAll(data, key, args, Reductions(l))
    decreases Specificity(l)
  {
    ReduceSpec(l);
    var rs := Reductions(l);
    assert rs[0] == l;
    match Reduce(l)
    case None =>
      assert rs == [l];
      assert rs[1..] == [];
    case Some(next) =>
      assert rs[1..] == Reductions(next);
      TranslateSearchesReductions(data, key, args, next);
  }

  /** A value found by the search comes from one locale of the list, under the key
      built with that locale's rules, and every locale before it lacks the key. */
  lemma {:induction false} SearchAllFinds(data: TranslatorData, key: string, args: seq<Argument>, ls: seq<Locale>)
    ensures var r := SearchAll(data, key, args, ls);
      r.Ok? && r.value.Some? ==>
        exists i :: 0 <= i < |ls| && LookupIn(data, key, args, ls[i]) == r &&
          (forall j :: 0 <= j < i ==> LookupIn(data, key, args, ls[j]) == Ok(None))
    ensures (forall i :: 0 <= i < |ls| ==> LookupIn(data, key, args, ls[i]) == Ok(None)) ==>
      SearchAll(data, key, args, ls) == Ok(None)
    decreases |ls|
  {
    if ls != [] {
      SearchAllFinds(data, key, args, ls[1..]);
      assert forall i :: 0 <= i < |ls[1..]| ==> ls[1..][i] == ls[i + 1];
      var r := SearchAll(data, key, args, ls);
      if r.Ok? && r.value.Some? && LookupIn(data, key, args, ls[0]) == Ok(None) {
        var i :| 0 <= i < |ls[1..]| && LookupIn(data, key, args, ls[1..][i]) == r &&
          (forall j :: 0 <= j < i ==> LookupIn(data, key, args, ls[1..][j]) == Ok(None));
        assert LookupIn(data, key, args, ls[i + 1]) == r;
      }
    }
  }

  /** A locale that holds the key is answered from its own translations, before
      any reduction is tried. */
  lemma LocaleFirst(data: TranslatorData, key: string, args: seq<Argument>, l: Locale)
    requires l in data.translations
    requires ActualKey(key, args, data.pluralMapper, l).Ok?
    requires ActualKey(key, args, data.pluralMapper, l).value in data.translations[l]
    ensures TranslateFrom(data, key, args, l) ==
      Ok(Some(data.translations[l][ActualKey(key, args, data.pluralMapper, l).value]))
  {
  }

  /** A locale without translations, or without the key, passes the search on to
      its reduction, and a language alone then gives `null`. */
  lemma MissingGoesToReduction(data: TranslatorData, key: string, args: seq<Argument>, l: Locale)
    requires LookupIn(data, key, args, l) == Ok(None)
    ensures Reduce(l).Some? ==> TranslateFrom(data, key, args, l) == TranslateFrom(data, key, args, Reduce(l).value)
    ensures LanguageOnly(l) ==> TranslateFrom(data, key, args, l) == Ok(None)
  {
    ReduceSpec(l);
  }
}
