/** The parts of the translator builder that the rest of the translation model
    uses: locales, the default locale specialization reduction, and the check of
    the interpolation delimiters. A `java.util.Locale` is modelled as its five
    components. */
module TranslatorBuilder {
  import opened Wrappers

  datatype Locale = Locale(language: string, script: string, country: string, variant: string, extensions: string)

  /** A locale made of a language only. */
  predicate LanguageOnly(l: Locale)
  {
    l.script == [] && l.country == [] && l.variant == [] && l.extensions == []
  }

  /** How many components besides the language are set. */
  function Specificity(l: Locale): (r: nat)
    ensures r <= 4
    ensures r == 0 <==> LanguageOnly(l)
  {
    (if l.script != [] then 1 else 0) + (if l.country != [] then 1 else 0)
    + (if l.variant != [] then 1 else 0) + (if l.extensions != [] then 1 else 0)
  }

  /** `internalLocaleSpecializationReduction`: drops the extensions, else the
      variant, else the country, else the script; a language alone gives `null`. */
  function Reduce(l: Locale): Option<Locale>
  {
    if l.extensions != [] then Some(l.(extensions := []))
    else if l.variant != [] then Some(l.(variant := []))
    else if l.country != [] then Some(l.(country := []))
    else if l.script != [] then Some(l.(script := []))
    else None
  }

  /** A reduction gives `null` exactly for a language alone; otherwise it clears
      exactly one component, the first set among extensions, variant, country and
      script, keeps the language and the components that come later in that order,
      and so lowers the specificity by one. */
  lemma ReduceSpec(l: Locale)
    ensures Reduce(l).None? <==> LanguageOnly(l)
    ensures Reduce(l).Some? ==> var r := Reduce(l).value;
      && r.language == l.language
      && Specificity(r) + 1 == Specificity(l)
      && (l.extensions != [] ==> r.extensions == [] && r.variant == l.variant && r.country == l.country && r.script == l.script)
      && (l.extensions == [] && l.variant != [] ==> r.variant == [] && r.country == l.country && r.script == l.script)
      && (l.extensions == [] && l.variant == [] && l.country != [] ==> r.country == [] && r.script == l.script)
      && (l.extensions == [] && l.variant == [] && l.country == [] ==> r.script == [])
  {
  }

  /** The locales visited by reducing `l` again and again: `l` first, then each
      reduction until the next one gives `null`. */
  function Reductions(l: Locale): seq<Locale>
    decreases Specificity(l)
  {
    ReduceSpec(l);
    match Reduce(l)
    case None => [l]
    case Some(r) => [l] + Reductions(r)
  }

  /** Repeated reduction of `l` visits `Specificity(l) + 1` locales, each the
      reduction of the one before, all with the language of `l`, and ends with the
      language alone. */
  lemma {:induction false} ReductionsReachLanguage(l: Locale)
    ensures var rs := Reductions(l);
      && |rs| == Specificity(l) + 1
      && rs[0] == l
      && rs[|rs| - 1] == Locale(l.language, [], [], [], [])
      && (forall k :: 0 <= k < |rs| - 1 ==> Reduce(rs[k]) == Some(rs[k + 1]))
      && Reduce(rs[|rs| - 1]).None?
      && (forall k :: 0 <= k < |rs| ==> rs[k].language == l.language)
    decreases Specificity(l)
  {
    ReduceSpec(l);
    match Reduce(l)
    case None =>
    case Some(r) =>
      ReductionsReachLanguage(r);
      var rs := Reductions(l);
      assert rs == [l] + Reductions(r);
      assert forall k :: 1 <= k < |rs| ==> rs[k] == Reductions(r)[k - 1];
  }

  /** `en-US` reduces to `en`, and `en` to `null`. */
  lemma EnglishExample()
    ensures Reduce(Locale("en", "", "US", "", "")) == Some(Locale("en", "", "", "", ""))
    ensures Reduce(Locale("en", "", "", "", "")) == None
  {
  }

  // ----- interpolationDelimiter(start, end) -----

  /** The characters a delimiter may not contain. */
  const FORBIDDEN: seq<char> := ['\\', '(', ')', ':']

  /** The characters a negated character class `[^body]` excludes, where a
      backslash makes the next character a literal and is not itself a member. */
  function ClassMembers(body: string): set<char>
    decreases |body|
  {
    if body == [] then {}
    else if body[0] == '\\' && |body| > 1 then {body[1]} + ClassMembers(body[2..])
    else {body[0]} + ClassMembers(body[1..])
  }

  /** The class body as written: the forbidden characters joined with nothing
      between them, `\():`. */
  function BodyAsWritten(): string
  {
    FORBIDDEN
  }

  /** The class body with every forbidden character escaped, `\\\(\)\:`. */
  function BodyEscaped(cs: seq<char>): (r: string)
    ensures |r| == 2 * |cs|
  {
    if cs == [] then [] else ['\\', cs[0]] + BodyEscaped(cs[1..])
  }

  /** The joined body escapes the `(` with the backslash meant as a forbidden
      character, so the pattern accepts a backslash in a delimiter. */
  lemma AsWrittenAllowsBackslash()
    ensures ClassMembers(BodyAsWritten()) == {'(', ')', ':'}
    ensures '\\' !in ClassMembers(BodyAsWritten())
  {
    var b := BodyAsWritten();
    assert b[2..] == [')', ':'];
    assert b[2..][1..] == [':'];
    assert b[2..][1..][1..] == [];
  }

  /** Escaping every character makes the class exclude exactly the characters
      listed. */
  lemma {:induction false} EscapedBodyMembers(cs: seq<char>)
    ensures ClassMembers(BodyEscaped(cs)) == set c | c in cs
    decreases |cs|
  {
    if cs != [] {
      var b := BodyEscaped(cs);
      assert b[0] == '\\' && b[1] == cs[0] && b[2..] == BodyEscaped(cs[1..]);
      EscapedBodyMembers(cs[1..]);
      assert (set c | c in cs) == {cs[0]} + set c | c in cs[1..];
    }
  }

  /** `forbiddenChars.matches(s)` for a class excluding `members`. */
  predicate MatchesNegatedClass(s: string, members: set<char>)
  {
    forall i :: 0 <= i < |s| ==> s[i] !in members
  }

  /** A delimiter pair as the builder keeps it. */
  datatype Delimiter = Delimiter(start: string, end: string)

  /** `interpolationDelimiter(start, end)` as written: the start delimiter is
      checked first, then the end delimiter, each against the joined class. */
  function InterpolationDelimiterAsWritten(start: string, end: string): Result<Delimiter>
  {
    var members := ClassMembers(BodyAsWritten());
    if !MatchesNegatedClass(start, members) then Err(IllegalState)
    else if !MatchesNegatedClass(end, members) then Err(IllegalState)
    else Ok(Delimiter(start, end))
  }

  /** A start delimiter `\{` is accepted as written, although it holds a
      backslash. */
  lemma AsWrittenAcceptsBackslashDelimiter()
    ensures InterpolationDelimiterAsWritten("\\{", "}") == Ok(Delimiter("\\{", "}"))
  {
    AsWrittenAllowsBackslash();
  }

  /** `interpolationDelimiter(start, end)` with every forbidden character escaped
      in the class: `IllegalStateException` exactly when one of the delimiters holds
      one of `\ ( ) :`. */
  function InterpolationDelimiter(start: string, end: string): (r: Result<Delimiter>)
    ensures r.Ok? <==> (forall i :: 0 <= i < |start| ==> start[i] !in FORBIDDEN)
                       && (forall i :: 0 <= i < |end| ==> end[i] !in FORBIDDEN)
    ensures r.Ok? ==> r.value == Delimiter(start, end)
    ensures r.Err? ==> r.error == IllegalState
  {
    EscapedBodyMembers(FORBIDDEN);
    var members := ClassMembers(BodyEscaped(FORBIDDEN));
    if !MatchesNegatedClass(start, members) then Err(IllegalState)
    else if !MatchesNegatedClass(end, members) then Err(IllegalState)
    else Ok(Delimiter(start, end))
  }
}
