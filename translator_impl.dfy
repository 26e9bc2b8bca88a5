/** `TranslatorImpl`: an immutable translator made of an optional key prefix (the
    section it is rooted at), its current locale and the shared translator data.
    Translating joins the prefix to the key, tries the key then the fallback keys
    in the locale, then the same in the fallback locale; sections, the current
    locale and the root give other translators over the same data. */
module TranslatorImplementation {
  import opened Wrappers
  import opened TranslatorBuilder
  import opened TranslationProcessor

  /** The key under `prefix`: `prefix.key`, or the key itself at the root. */
  function Join(prefix: Option<string>, key: string): (r: string)
    ensures prefix.None? ==> r == key
    ensures prefix.Some? ==> |r| == |prefix.value| + 1 + |key| && r[..|prefix.value|] == prefix.value
                             && r[|prefix.value|] == '.' && r[|prefix.value| + 1..] == key
  {
    if prefix.Some? then prefix.value + "." + key else key
  }

  /** Whether `k` is a key strictly under `root`: `root.` followed by the rest. */
  predicate Under(k: string, root: string)
  {
    |k| > |root| && k[|root|] == '.' && k[..|root|] == root
  }

  /** The keys of `m` under `root`, with `root.` removed. */
  function StrippedKeys(m: map<string, string>, root: string): set<string>
  {
    set k | k in m && Under(k, root) :: k[|root| + 1..]
  }

  /** A key under `root` is `root.` followed by its stripped form. */
  lemma UnderSplits(k: string, root: string)
    requires Under(k, root)
    ensures k == root + "." + k[|root| + 1..]
  {
    assert k == k[..|root|] + [k[|root|]] + k[|root| + 1..];
  }

  /** The entries of `m` under `root`, with `root.` removed from their keys. */
  function StripRoot(m: map<string, string>, root: string): map<string, string>
  {
    assert forall s :: s in StrippedKeys(m, root) ==> root + "." + s in m by {
      forall s | s in StrippedKeys(m, root)
        ensures root + "." + s in m
      {
        var k :| k in m && Under(k, root) && k[|root| + 1..] == s;
        UnderSplits(k, root);
      }
    }
    map s | s in StrippedKeys(m, root) :: m[root + "." + s]
  }

  /** A key is in the stripped map exactly when `root.` followed by it is in the
      original one, with the same value: nothing else is kept, nothing under the
      root is lost. */
  lemma StripRootSpec(m: map<string, string>, root: string)
    ensures forall s :: s in StripRoot(m, root) <==> root + "." + s in m
    ensures forall s :: s in StripRoot(m, root) ==> StripRoot(m, root)[s] == m[root + "." + s]
  {
    forall s
      ensures s in StripRoot(m, root) <==> root + "." + s in m
    {
      if root + "." + s in m {
        var k := root + "." + s;
        assert Under(k, root) && k[|root| + 1..] == s;
      }
      if s in StripRoot(m, root) {
        var k :| k in m && Under(k, root) && k[|root| + 1..] == s;
        UnderSplits(k, root);
      }
    }
  }

  /** The first of `keys` that `translate` finds in `locale`, or `null`. */
  function FirstTranslated(data: TranslatorData, keys: seq<string>, args: seq<Argument>, locale: Locale): Result<Option<string>>
    decreases |keys|
  {
    if keys == [] then Ok(None)
    else
      var found :- TranslateFrom(data, keys[0], args, locale);
      if found.Some? then Ok(found) else FirstTranslated(data, keys[1..], args, locale)
  }

  /** `innerTranslate`: the key, then each fallback key, in `locale`. */
  function InnerTranslate(data: TranslatorData, key: string, args: seq<Argument>, locale: Locale, fallbacks: seq<string>): Result<Option<string>>
  {
    FirstTranslated(data, [key] + fallbacks, args, locale)
  }

  class Translator {
    const prefix: Option<string>
    const currentLocale: Locale
    const data: TranslatorData

    constructor(prefix: Option<string>, currentLocale: Locale, data: TranslatorData)
      ensures this.prefix == prefix && this.currentLocale == currentLocale && this.data == data
    {
      this.prefix := prefix;
      this.currentLocale := currentLocale;
      this.data := data;
    }

    /** `isRoot`: no prefix. */
    predicate IsRoot()
    {
      prefix.None?
    }

    /** `tn(key, args, locale, fallbackLocale, fallbacks)`: an invalid key is an
        `IllegalArgumentException`; otherwise the prefixed key and the fallback keys
        in `locale`, then, only for a fallback locale other than `locale`, the same
        in the fallback locale; `null` when none is found. */
    function Tn(key: string, args: seq<Argument>, locale: Locale, fallbackLocale: Option<Locale>, fallbacks: seq<string>): (r: Result<Option<string>>)
      ensures !data.isKey(key) ==> r == Err(IllegalArgument)
      ensures data.isKey(key) && InnerTranslate(data, Join(prefix, key), args, locale, fallbacks).Ok?
              && InnerTranslate(data, Join(prefix, key), args, locale, fallbacks).value.Some? ==>
        r == InnerTranslate(data, Join(prefix, key), args, locale, fallbacks)
      ensures data.isKey(key) && (fallbackLocale.None? || fallbackLocale == Some(locale)) ==>
        r == InnerTranslate(data, Join(prefix, key), args, locale, fallbacks)
    {
      var _ :- Require(data.isKey(key));
      var actualKey := Join(prefix, key);
      var found :- InnerTranslate(data, actualKey, args, locale, fallbacks);
      if found.Some? then Ok(found)
      else if fallbackLocale.Some? && locale != fallbackLocale.value then
        InnerTranslate(data, actualKey, args, fallbackLocale.value, fallbacks)
      else Ok(None)
    }

    /** `t(key, args, locale, fallbackLocale, fallbacks)`: the value `tn` finds;
        otherwise the key, built with the arguments when `locale` has translations,
        which `RETURN_KEY` returns and `THROW_EXCEPTION` reports as an
        `IllegalArgumentException`. */
    function T(key: string, args: seq<Argument>, locale: Locale, fallbackLocale: Option<Locale>, fallbacks: seq<string>): (r: Result<string>)
      ensures Tn(key, args, locale, fallbackLocale, fallbacks).Err? ==> r == Err(Tn(key, args, locale, fallbackLocale, fallbacks).error)
      ensures (Tn(key, args, locale, fallbackLocale, fallbacks) == Ok(None) && locale !in data.translations) ==>
        r == (if data.missingKeyPolicy == ReturnKey then Ok(key) else Err(IllegalArgument))
    {
      var result :- Tn(key, args, locale, fallbackLocale, fallbacks);
      if result.Some? then Ok(result.value)
      else
        var actualKey :- if locale in data.translations then ActualKey(key, args, data.pluralMapper, locale) else Ok(key);
        match data.missingKeyPolicy
        case ThrowException => Err(IllegalArgument)
        case ReturnKey => Ok(actualKey)
    }

    /** `section(key)`: a translator rooted at the prefixed key, with the same
        locale and data; an invalid key is an `IllegalArgumentException`. */
    method Section(key: string) returns (r: Result<Translator>)
      ensures !data.isKey(key) ==> r == Err(IllegalArgument)
      ensures data.isKey(key) ==>
        && r.Ok? && fresh(r.value)
        && r.value.prefix == Some(Join(prefix, key)) && r.value.currentLocale == currentLocale && r.value.data == data
    {
      if !data.isKey(key) {
        return Err(IllegalArgument);
      }
      var newRootKey := Join(prefix, key);
      var t := new Translator(Some(newRootKey), currentLocale, data);
      return Ok(t);
    }

    /** `toMap()`: every locale's translations at the root; under a prefix, only
        the keys under it, without the prefix and its dot. */
    function ToMap(): (r: map<Locale, map<string, string>>)
      ensures r.Keys == data.translations.Keys
    {
      if prefix.None? then data.translations
      else map l | l in data.translations :: StripRoot(data.translations[l], prefix.value)
    }

    /** `withNewCurrentLocale(locale)`: this translator when the locale is already
        the current one, else a new one with that locale. */
    method WithNewCurrentLocale(locale: Locale) returns (r: Translator)
      ensures currentLocale == locale ==> r == this
      ensures currentLocale != locale ==> fresh(r)
      ensures r.prefix == prefix && r.currentLocale == locale && r.data == data
    {
      if currentLocale == locale {
        return this;
      }
      r := new Translator(prefix, locale, data);
    }

    /** `asRoot()`: this translator when it is a root, else a new one without the
        prefix. */
    method AsRoot() returns (r: Translator)
      ensures IsRoot() ==> r == this
      ensures !IsRoot() ==> fresh(r)
      ensures r.IsRoot() && r.currentLocale == currentLocale && r.data == data
    {
      if IsRoot() {
        return this;
      }
      r := new Translator(None, currentLocale, data);
    }
  }

  // ----- properties -----

  /** The fallback keys are tried in order: the value found is that of the first
      key with a translation, and every key before it has none. */
  lemma {:induction false} FirstTranslatedIsFirst(data: TranslatorData, keys: seq<string>, args: seq<Argument>, locale: Locale)
    ensures var r := FirstTranslated(data, keys, args, locale);
      r.Ok? && r.value.Some? ==>
        exists i :: 0 <= i < |keys| && TranslateFrom(data, keys[i], args, locale) == r &&
          (forall j :: 0 <= j < i ==> TranslateFrom(data, keys[j], args, locale) == Ok(None))
    ensures (forall i :: 0 <= i < |keys| ==> TranslateFrom(data, keys[i], args, locale) == Ok(None)) ==>
      FirstTranslated(data, keys, args, locale) == Ok(None)
    decreases |keys|
  {
    if keys != [] {
      FirstTranslatedIsFirst(data, keys[1..], args, locale);
      assert forall i :: 0 <= i < |keys[1..]| ==> keys[1..][i] == keys[i + 1];
      var r := FirstTranslated(data, keys, args, locale);
      if r.Ok? && r.value.Some? && TranslateFrom(data, keys[0], args, locale) == Ok(None) {
        var i :| 0 <= i < |keys[1..]| && TranslateFrom(data, keys[1..][i], args, locale) == r &&
          (forall j :: 0 <= j < i ==> TranslateFrom(data, keys[1..][j], args, locale) == Ok(None));
        assert TranslateFrom(data, keys[i + 1], args, locale) == r;
      }
    }
  }

  /** The fallback locale is consulted only when the locale itself gives nothing,
      and a fallback locale equal to the locale changes nothing. */
  lemma FallbackLocale(t: Translator, key: string, args: seq<Argument>, locale: Locale, fallback: Locale, fallbacks: seq<string>)
    requires t.data.isKey(key)
    ensures t.Tn(key, args, locale, Some(locale), fallbacks) == t.Tn(key, args, locale, None, fallbacks)
    ensures InnerTranslate(t.data, Join(t.prefix, key), args, locale, fallbacks) == Ok(None) ==>
      t.Tn(key, args, locale, Some(fallback), fallbacks) ==
        (if fallback == locale then Ok(None) else InnerTranslate(t.data, Join(t.prefix, key), args, fallback, fallbacks))
  {
  }

  /** A value `tn` finds is what `t` returns. */
  lemma TReturnsFound(t: Translator, key: string, args: seq<Argument>, locale: Locale, fallbackLocale: Option<Locale>, fallbacks: seq<string>)
    requires t.Tn(key, args, locale, fallbackLocale, fallbacks).Ok?
    requires t.Tn(key, args, locale, fallbackLocale, fallbacks).value.Some?
    ensures t.T(key, args, locale, fallbackLocale, fallbacks) == Ok(t.Tn(key, args, locale, fallbackLocale, fallbacks).value.value)
  {
  }

  /** When nothing is found and `locale` has translations, `RETURN_KEY` gives the
      key built with the arguments (without the prefix), and `THROW_EXCEPTION` an
      `IllegalArgumentException` once that key could be built. */
  lemma MissingKeyPolicy(t: Translator, key: string, args: seq<Argument>, locale: Locale, fallbackLocale: Option<Locale>, fallbacks: seq<string>)
    requires t.Tn(key, args, locale, fallbackLocale, fallbacks) == Ok(None)
    requires locale in t.data.translations
    ensures t.data.missingKeyPolicy == ReturnKey ==>
      t.T(key, args, locale, fallbackLocale, fallbacks) == ActualKey(key, args, t.data.pluralMapper, locale)
    ensures t.data.missingKeyPolicy == ThrowException ==>
      t.T(key, args, locale, fallbackLocale, fallbacks) ==
        (if ActualKey(key, args, t.data.pluralMapper, locale).Ok? then Err(IllegalArgument)
         else ActualKey(key, args, t.data.pluralMapper, locale))
  {
  }

  /** At the root `toMap()` gives the translations as they are; under a prefix,
      a locale's map holds `k` exactly when the translations hold `prefix.k`, with
      the same value. */
  lemma ToMapSpec(t: Translator)
    ensures t.prefix.None? ==> t.ToMap() == t.data.translations
    ensures t.prefix.Some? ==> forall l, k :: l in t.data.translations ==>
      (k in t.ToMap()[l] <==> Join(t.prefix, k) in t.data.translations[l])
    ensures t.prefix.Some? ==> forall l, k :: l in t.data.translations && k in t.ToMap()[l] ==>
      t.ToMap()[l][k] == t.data.translations[l][Join(t.prefix, k)]
  {
    if t.prefix.Some? {
      forall l | l in t.data.translations {
        StripRootSpec(t.data.translations[l], t.prefix.value);
      }
    }
  }

  /** A section of a section of the root is rooted at the two keys joined by a
      dot, and a section's `tn` looks the key up under that root. */
  method NestedSections(t: Translator, a: string, b: string) returns (inner: Result<Translator>)
    requires t.IsRoot() && t.data.isKey(a) && t.data.isKey(b)
    ensures inner.Ok? && inner.value.prefix == Some(a + "." + b)
    ensures forall key, args, locale :: t.data.isKey(key) ==>
      inner.value.Tn(key, args, locale, None, []) == InnerTranslate(t.data, a + "." + b + "." + key, args, locale, [])
  {
    var outer := t.Section(a);
    inner := outer.value.Section(b);
  }
}
