/** `BuiltinPluralRule`: the parser of the small grammar in which the builtin
    plural rules are written, and the evaluation of a parsed rule on an integer
    count (`ILong`). A rule is a list of parts `plural:condition` separated by
    `//`; a condition is a disjunction (`||`) of conjunctions (`&&`) of
    comparisons `left = right` or `left != right`, where `left` is a variable
    letter with an optional `% modulo` and `right` is a `,`-separated list of
    values and inclusive `start..end` ranges. The closures the source builds are
    modelled as the syntax tree they close over. */
module BuiltinPluralRule {
  import opened Wrappers
  import opened Jvm
  import opened Sequences

  /** `Plural`: the six plural categories. */
  datatype Plural = Zero | One | Two | Few | Many | Other

  /** The lower-case name of a category, as keys are suffixed with it. */
  function PluralName(p: Plural): (r: string)
    ensures r != []
  {
    match p
    case Zero => "zero"
    case One => "one"
    case Two => "two"
    case Few => "few"
    case Many => "many"
    case Other => "other"
  }

  /** `uppercase()` on ASCII letters; other characters are kept. */
  function UpperChar(c: char): (r: char)
    ensures 'a' <= c <= 'z' ==> 'A' <= r <= 'Z'
    ensures !('a' <= c <= 'z') ==> r == c
  {
    if 'a' <= c <= 'z' then (c as int - 'a' as int + 'A' as int) as char else c
  }

  function Upper(s: string): (r: string)
    ensures |r| == |s|
  {
    seq(|s|, i requires 0 <= i < |s| => UpperChar(s[i]))
  }

  /** `Plural.valueOf(name.uppercase())`: `IllegalArgumentException` for a name
      that is not a category. */
  function PluralNamed(name: string): (r: Result<Plural>)
    ensures r.Err? ==> r.error == IllegalArgument
  {
    var u := Upper(name);
    if u == "ZERO" then Ok(Zero)
    else if u == "ONE" then Ok(One)
    else if u == "TWO" then Ok(Two)
    else if u == "FEW" then Ok(Few)
    else if u == "MANY" then Ok(Many)
    else if u == "OTHER" then Ok(Other)
    else Err(IllegalArgument)
  }

  /** Every category is found back from its name, and names are matched whatever
      their case. */
  lemma PluralNameRoundTrip(p: Plural)
    ensures PluralNamed(PluralName(p)) == Ok(p)
    ensures PluralNamed(Upper(PluralName(p))) == Ok(p)
  {
    var n := PluralName(p);
    assert Upper(n) == match p
      case Zero => "ZERO" case One => "ONE" case Two => "TWO"
      case Few => "FEW" case Many => "MANY" case Other => "OTHER";
    assert Upper(Upper(n)) == Upper(n);
  }

  /** `IVConversions`: the variable a comparison looks at. */
  datatype Conversion = N | E | I | F | V

  /** The letter of a variable, as `toString` prints it. */
  function ConversionName(c: Conversion): string
  {
    match c
    case N => "n" case E => "e" case I => "i" case F => "f" case V => "v"
  }

  /** `parseInputValueAdapter`: the variable named by `part`, whatever its case; an
      unknown name throws `AssertionError`. */
  function ParseConversion(part: string): (r: Result<Conversion>)
    ensures r.Err? ==> r.error == Assertion
  {
    var u := Upper(part);
    if u == "N" then Ok(N)
    else if u == "E" then Ok(E)
    else if u == "I" then Ok(I)
    else if u == "F" then Ok(F)
    else if u == "V" then Ok(V)
    else Err(Assertion)
  }

  /** A variable is parsed back from its letter, and a part that upper-cases to
      none of `N E I F V` is refused. */
  lemma ConversionRoundTrip(c: Conversion, part: string)
    ensures ParseConversion(ConversionName(c)) == Ok(c)
    ensures ParseConversion(part).Err? <==> Upper(part) !in {"N", "E", "I", "F", "V"}
  {
    var n := ConversionName(c);
    assert Upper(n) == match c case N => "N" case E => "E" case I => "I" case F => "F" case V => "V";
  }

  datatype LeftPart = LeftPart(conversion: Conversion, modulo: Option<Int64>)
  datatype RangePart = Value(value: Int64) | Range(start: Int64, end: Int64)
  datatype Comparison = Comparison(left: LeftPart, different: bool, right: seq<RangePart>)
  /** A condition: a disjunction of conjunctions of comparisons. */
  type Condition = seq<seq<Comparison>>
  datatype RulePart = RulePart(condition: Condition, plural: Plural)
  /** A parsed rule: the empty rule, `*`, or a list of parts. */
  datatype Rule = Unsupported | AlwaysOther | Parts(parts: seq<RulePart>)
  /** `BuiltinPluralRuleProvider`: the cardinal and the ordinal rule of a locale. */
  datatype Provider = Provider(cardinal: Rule, ordinal: Rule)

  // ----- parsing -----

  /** `xs.map(parse)`: parses every element in order; the first failure is thrown. */
  function ParseAll<A, B>(xs: seq<A>, parse: A -> Result<B>): Result<seq<B>>
    decreases |xs|
  {
    if xs == [] then Ok([])
    else
      var head :- parse(xs[0]);
      var tail :- ParseAll(xs[1..], parse);
      Ok([head] + tail)
  }

  /** A list parses when every element parses, into the elements' results in
      order; otherwise the first element that fails gives the exception. */
  lemma {:induction false} ParseAllSpec<A, B>(xs: seq<A>, parse: A -> Result<B>)
    ensures var r := ParseAll(xs, parse);
      && (r.Ok? <==> forall i :: 0 <= i < |xs| ==> parse(xs[i]).Ok?)
      && (r.Ok? ==> |r.value| == |xs| && forall i :: 0 <= i < |xs| ==> parse(xs[i]) == Ok(r.value[i]))
      && (r.Err? ==> exists i :: 0 <= i < |xs| && parse(xs[i]) == Err(r.error)
                                && (forall j :: 0 <= j < i ==> parse(xs[j]).Ok?))
    decreases |xs|
  {
    if xs != [] {
      ParseAllSpec(xs[1..], parse);
      var r := ParseAll(xs, parse);
      if parse(xs[0]).Ok? {
        var t := ParseAll(xs[1..], parse);
        if t.Err? {
          var i :| 0 <= i < |xs[1..]| && parse(xs[1..][i]) == Err(t.error)
                   && forall j :: 0 <= j < i ==> parse(xs[1..][j]).Ok?;
          assert parse(xs[i + 1]) == Err(r.error);
          assert forall j :: 0 <= j < i + 1 ==> parse(xs[j]).Ok? by {
            forall j | 0 <= j < i + 1
              ensures parse(xs[j]).Ok?
            {
              if j > 0 {
                assert xs[j] == xs[1..][j - 1];
              }
            }
          }
        } else {
          forall i | 0 <= i < |xs|
            ensures parse(xs[i]) == Ok(r.value[i])
          {
            if i > 0 {
              assert xs[i] == xs[1..][i - 1];
            }
          }
        }
      } else {
        assert parse(xs[0]) == Err(r.error);
      }
    }
  }

  lemma ParseAllSingle<A, B>(x: A, parse: A -> Result<B>)
    ensures ParseAll([x], parse) == if parse(x).Ok? then Ok([parse(x).value]) else Err(parse(x).error)
  {
    assert [x][1..] == [];
    assert ParseAll([x][1..], parse) == Ok([]);
    if parse(x).Ok? {
      assert [parse(x).value] + [] == [parse(x).value];
    }
  }

  lemma ParseAllCons<A, B>(x: A, rest: seq<A>, parse: A -> Result<B>)
    ensures ParseAll([x] + rest, parse) ==
      if parse(x).Err? then Err(parse(x).error)
      else if ParseAll(rest, parse).Err? then Err(ParseAll(rest, parse).error)
      else Ok([parse(x).value] + ParseAll(rest, parse).value)
  {
    assert ([x] + rest)[1..] == rest;
  }

  /** `parseValuePart`: a single value. */
  function ParseValuePart(part: string): Result<RangePart>
  {
    var v :- ParseLong(part);
    Ok(Value(v))
  }

  /** `parseRangePart`: `start..end`, or a single value when there is no `..`. */
  function ParseRangePart(part: string): Result<RangePart>
  {
    var range := Split(part, "..");
    if |range| == 1 then ParseValuePart(range[0])
    else
      var start :- ParseLong(range[0]);
      var end :- ParseLong(range[1]);
      Ok(Range(start, end))
  }

  /** `parseComparisonRightPart`: the `,`-separated enumeration. */
  function ParseRightPart(part: string): Result<seq<RangePart>>
  {
    ParseAll(Split(part, ","), ParseRangePart)
  }

  /** `parseComparisonLeftPart`: a variable, then an optional `%` and a modulo. */
  function ParseLeftPart(part: string): Result<LeftPart>
  {
    var parts := Split(part, "%");
    var conversion :- ParseConversion(parts[0]);
    if |parts| == 1 then Ok(LeftPart(conversion, None))
    else
      var modulo :- ParseLong(parts[1]);
      Ok(LeftPart(conversion, Some(modulo)))
  }

  /** `parseComparisonParts`: splits on `!=`, else on `=`; the left side is parsed
      before the right one is looked up, so a comparison without any `=` throws
      `IndexOutOfBoundsException` only once its left side is valid. */
  function ParseComparison(part: string): Result<Comparison>
  {
    var different := Split(part, "!=");
    var sides := if |different| == 1 then Split(part, "=") else different;
    var left :- ParseLeftPart(sides[0]);
    if |sides| < 2 then Err(IndexOutOfBounds)
    else
      var right :- ParseRightPart(sides[1]);
      Ok(Comparison(left, |different| != 1, right))
  }

  /** `parseAndParts`. */
  function ParseAnd(part: string): Result<seq<Comparison>>
  {
    ParseAll(Split(part, "&&"), ParseComparison)
  }

  /** `parseOrParts`. */
  function ParseOr(part: string): Result<Condition>
  {
    ParseAll(Split(part, "||"), ParseAnd)
  }

  /** One `plural:condition` part of `parseRuleContent`: the condition is parsed
      before the category name is looked up. */
  function ParseRulePart(part: string): Result<RulePart>
  {
    var pieces := Split(part, ":");
    if |pieces| < 2 then Err(IndexOutOfBounds)
    else
      var condition :- ParseOr(pieces[1]);
      var plural :- PluralNamed(pieces[0]);
      Ok(RulePart(condition, plural))
  }

  /** `parseRuleContent`: the `//`-separated parts, in order. */
  function ParseRuleContent(rule: string): Result<Rule>
  {
    var parts :- ParseAll(Split(rule, "//"), ParseRulePart);
    Ok(Parts(parts))
  }

  /** `parseRule`. */
  function ParseRule(rule: string): Result<Rule>
  {
    if rule == "" then Ok(Unsupported)
    else if rule == "*" then Ok(AlwaysOther)
    else ParseRuleContent(rule)
  }

  /** What `catch (e: Exception)` turns an exception into: an `AssertionError` is an
      `Error` and goes through; every other exception is wrapped in an
      `IllegalArgumentException`. */
  function Wrapped(e: Exception): (r: Exception)
    ensures r == Assertion || r == IllegalArgument
    ensures r == Assertion <==> e == Assertion
  {
    if e == Assertion then Assertion else IllegalArgument
  }

  /** `loadedProvider(locale, rules)`: the cardinal rule before the first `;`, the
      ordinal rule after it. */
  function LoadedProvider(rules: string): (r: Result<Provider>)
    ensures r.Err? ==> r.error == Assertion || r.error == IllegalArgument
  {
    var pieces := Split(rules, ";");
    if |pieces| < 2 then Err(Wrapped(IndexOutOfBounds))
    else
      var cardinal := ParseRule(pieces[0]);
      if cardinal.Err? then Err(Wrapped(cardinal.error))
      else
        var ordinal := ParseRule(pieces[1]);
        if ordinal.Err? then Err(Wrapped(ordinal.error))
        else Ok(Provider(cardinal.value, ordinal.value))
  }

  /** A provider is built exactly when the text holds a `;` and both rules parse;
      its rules are those two parses. Without a `;` the text is refused with
      `IllegalArgumentException`; a bad variable letter anywhere surfaces as the
      `AssertionError` itself. */
  lemma LoadedProviderSpec(rules: string)
    ensures var pieces := Split(rules, ";");
      && (LoadedProvider(rules).Ok? <==> |pieces| >= 2 && ParseRule(pieces[0]).Ok? && ParseRule(pieces[1]).Ok?)
      && (LoadedProvider(rules).Ok? ==>
            LoadedProvider(rules).value == Provider(ParseRule(pieces[0]).value, ParseRule(pieces[1]).value))
      && ((forall q :: !Matches(rules, ";", q)) ==> LoadedProvider(rules) == Err(IllegalArgument))
      && (|pieces| >= 2 && ParseRule(pieces[0]).Err? ==> LoadedProvider(rules) == Err(Wrapped(ParseRule(pieces[0]).error)))
      && (|pieces| >= 2 && ParseRule(pieces[0]).Ok? && ParseRule(pieces[1]).Err? ==>
            LoadedProvider(rules) == Err(Wrapped(ParseRule(pieces[1]).error)))
  {
    if forall q :: !Matches(rules, ";", q) {
      SplitNone(rules, ";");
    }
  }

  // ----- evaluation on an integer count (ILong) -----

  /** The value of a variable for an integer count: the count itself for `n` and
      `i`; `0` for the exponent, the fraction digits and their count. */
  function Convert(c: Conversion, count: Int64): (r: Int64)
    ensures c == N || c == I ==> r == count
    ensures c == E || c == F || c == V ==> r == 0
  {
    match c
    case N => count
    case I => count
    case _ => 0
  }

  /** The left side of a comparison: `ILong.rem` is `Long`'s `%`, which throws
      `ArithmeticException` for a zero modulo. */
  function EvalLeft(left: LeftPart, count: Int64): Result<Int64>
  {
    var v := Convert(left.conversion, count);
    match left.modulo
    case None => Ok(v)
    case Some(m) => if m == 0 then Err(Arithmetic) else Ok(TruncRem(v, m))
  }

  /** A modulo takes the truncating remainder: zero throws; otherwise the result
      is smaller than the modulo in absolute value and has the sign of the
      variable, and it differs from the variable by a multiple of the modulo, which
      fixes it; it is the ordinary remainder for a variable that is not negative
      and a positive modulo, and `-13 % 10` is `-3`. */
  lemma EvalLeftModulo(c: Conversion, m: Int64, count: Int64)
    ensures m == 0 ==> EvalLeft(LeftPart(c, Some(m)), count) == Err(Arithmetic)
    ensures m != 0 ==> var r := EvalLeft(LeftPart(c, Some(m)), count);
      var v: int := Convert(c, count);
      var size: int := if m > 0 then m as int else -(m as int);
      && r.Ok?
      && (v >= 0 ==> 0 <= r.value < size)
      && (v < 0 ==> -size < r.value <= 0)
      && (v - r.value) % m == 0
      && (v >= 0 && m > 0 ==> r.value == v % m)
    ensures EvalLeft(LeftPart(I, Some(10)), -13) == Ok(-3)
  {
  }

  /** A value matches when equal; a range matches when the value lies between its
      bounds, both included. */
  function EvalRange(r: RangePart, v: Int64): bool
  {
    match r
    case Value(value) => v == value
    case Range(start, end) => start <= v <= end
  }

  /** An enumeration matches when one of its members does. */
  function EvalRight(rs: seq<RangePart>, v: Int64): bool
    decreases |rs|
  {
    rs != [] && (EvalRange(rs[0], v) || EvalRight(rs[1..], v))
  }

  lemma {:induction false} EvalRightAny(rs: seq<RangePart>, v: Int64)
    ensures EvalRight(rs, v) <==> exists i :: 0 <= i < |rs| && EvalRange(rs[i], v)
    decreases |rs|
  {
    if rs != [] {
      EvalRightAny(rs[1..], v);
      if exists i :: 0 <= i < |rs[1..]| && EvalRange(rs[1..][i], v) {
        var i :| 0 <= i < |rs[1..]| && EvalRange(rs[1..][i], v);
        assert EvalRange(rs[i + 1], v);
      }
      if exists i :: 0 <= i < |rs| && EvalRange(rs[i], v) {
        var i :| 0 <= i < |rs| && EvalRange(rs[i], v);
        if i > 0 {
          assert rs[1..][i - 1] == rs[i];
        }
      }
    }
  }

  /** A comparison: the left side, matched against the right side, negated for
      `!=`. */
  function EvalComparison(c: Comparison, count: Int64): Result<bool>
  {
    var left :- EvalLeft(c.left, count);
    var matched := EvalRight(c.right, left);
    Ok(if c.different then !matched else matched)
  }

  /** `!=` gives the negation of `=` on the same sides, and both fail alike. */
  lemma DifferentNegates(left: LeftPart, right: seq<RangePart>, count: Int64)
    ensures var eq := EvalComparison(Comparison(left, false, right), count);
      var ne := EvalComparison(Comparison(left, true, right), count);
      && (eq.Ok? <==> ne.Ok?)
      && (eq.Ok? ==> ne.value == !eq.value)
      && (eq.Err? ==> ne.error == eq.error)
  {
  }

  /** `parts.all { it(value) }`: stops at the first comparison that is false. */
  function EvalAnd(cs: seq<Comparison>, count: Int64): Result<bool>
    decreases |cs|
  {
    if cs == [] then Ok(true)
    else
      var head :- EvalComparison(cs[0], count);
      if !head then Ok(false) else EvalAnd(cs[1..], count)
  }

  /** `parts.any { it(value) }`: stops at the first conjunction that is true. */
  function EvalOr(ands: Condition, count: Int64): Result<bool>
    decreases |ands|
  {
    if ands == [] then Ok(false)
    else
      var head :- EvalAnd(ands[0], count);
      if head then Ok(true) else EvalOr(ands[1..], count)
  }

  /** When no comparison throws, `&&` holds exactly when every comparison holds. */
  lemma {:induction false} EvalAndAll(cs: seq<Comparison>, count: Int64)
    requires forall i :: 0 <= i < |cs| ==> EvalComparison(cs[i], count).Ok?
    ensures EvalAnd(cs, count) == Ok(forall i :: 0 <= i < |cs| ==> EvalComparison(cs[i], count) == Ok(true))
    decreases |cs|
  {
    if cs != [] {
      assert forall i :: 0 <= i < |cs[1..]| ==> cs[1..][i] == cs[i + 1];
      EvalAndAll(cs[1..], count);
      if EvalComparison(cs[0], count) == Ok(true) {
        if forall i :: 0 <= i < |cs[1..]| ==> EvalComparison(cs[1..][i], count) == Ok(true) {
          forall i | 0 <= i < |cs|
            ensures EvalComparison(cs[i], count) == Ok(true)
          {
            if i > 0 {
              assert cs[i] == cs[1..][i - 1];
            }
          }
        }
      }
    }
  }

  /** When no conjunction throws, `||` holds exactly when some conjunction holds. */
  lemma {:induction false} EvalOrAny(ands: Condition, count: Int64)
    requires forall i :: 0 <= i < |ands| ==> EvalAnd(ands[i], count).Ok?
    ensures EvalOr(ands, count) == Ok(exists i :: 0 <= i < |ands| && EvalAnd(ands[i], count) == Ok(true))
    decreases |ands|
  {
    if ands != [] {
      assert forall i :: 0 <= i < |ands[1..]| ==> ands[1..][i] == ands[i + 1];
      EvalOrAny(ands[1..], count);
      if exists i :: 0 <= i < |ands| && EvalAnd(ands[i], count) == Ok(true) {
        var i :| 0 <= i < |ands| && EvalAnd(ands[i], count) == Ok(true);
        if i > 0 && EvalAnd(ands[0], count) != Ok(true) {
          assert ands[1..][i - 1] == ands[i];
        }
      }
    }
  }

  /** The parts of a rule in order: the first whose condition holds gives the
      category, `OTHER` when none does. */
  function EvalParts(parts: seq<RulePart>, count: Int64): Result<Plural>
    decreases |parts|
  {
    if parts == [] then Ok(Other)
    else
      var matched :- EvalOr(parts[0].condition, count);
      if matched then Ok(parts[0].plural) else EvalParts(parts[1..], count)
  }

  /** The first matching part wins, whatever the parts after it would do. */
  lemma {:induction false} FirstMatchWins(parts: seq<RulePart>, count: Int64, k: nat)
    requires k < |parts|
    requires forall j :: 0 <= j < k ==> EvalOr(parts[j].condition, count) == Ok(false)
    requires EvalOr(parts[k].condition, count) == Ok(true)
    ensures EvalParts(parts, count) == Ok(parts[k].plural)
    decreases k
  {
    if k > 0 {
      assert forall j :: 0 <= j < k - 1 ==> parts[1..][j] == parts[j + 1];
      FirstMatchWins(parts[1..], count, k - 1);
    }
  }

  /** When no part matches, the category is `OTHER`. */
  lemma {:induction false} NoMatchIsOther(parts: seq<RulePart>, count: Int64)
    requires forall j :: 0 <= j < |parts| ==> EvalOr(parts[j].condition, count) == Ok(false)
    ensures EvalParts(parts, count) == Ok(Other)
    decreases |parts|
  {
    if parts != [] {
      assert forall j :: 0 <= j < |parts| - 1 ==> parts[1..][j] == parts[j + 1];
      NoMatchIsOther(parts[1..], count);
    }
  }

  /** Evaluating a rule: the empty rule throws `UnsupportedOperationException`,
      `*` always gives `OTHER`. */
  function EvalRule(rule: Rule, count: Int64): Result<Plural>
  {
    match rule
    case Unsupported => Err(UnsupportedOperation)
    case AlwaysOther => Ok(Other)
    case Parts(parts) => EvalParts(parts, count)
  }

  /** The empty rule text is a rule no count can be evaluated with; `*` is a rule
      giving `OTHER` for every count. */
  lemma SpecialRules(count: Int64)
    ensures ParseRule("").Ok? && EvalRule(ParseRule("").value, count) == Err(UnsupportedOperation)
    ensures ParseRule("*").Ok? && EvalRule(ParseRule("*").value, count) == Ok(Other)
  {
  }

  /** `cardinal(count: Long)` and `ordinal(count: Long)`. */
  function Cardinal(p: Provider, count: Int64): Result<Plural>
  {
    EvalRule(p.cardinal, count)
  }

  function Ordinal(p: Provider, count: Int64): Result<Plural>
  {
    EvalRule(p.ordinal, count)
  }

  /** A comparison `l=r` between a one-letter variable and a one-digit value. */
  lemma ParseSimpleEquality(l: char, r: char)
    requires l !in "=!%" && '0' <= r <= '9'
    ensures ParseComparison([l, '=', r]) ==
      if ParseConversion([l]).Ok? then Ok(Comparison(LeftPart(ParseConversion([l]).value, None), false, [Value(r as int - '0' as int)]))
      else Err(Assertion)
  {
    var c: string := [l, '=', r];
    NotFound(c, "!=");
    assert c[1..2] == "=";
    FoundAt(c, "=", 1);
    NotFound(c[2..], "=");
    assert c[..1] == [l] && c[2..] == [r];
    NotFound([l], "%");
    NotFound([r], ",");
    NotFound([r], "..");
    var digit := r as int - '0' as int;
    assert DigitsValue([r]) == DigitsValue([]) * 10 + digit;
    assert ParseLong([r]) == Ok(digit);
    assert ParseRangePart([r]) == Ok(Value(digit));
    ParseAllSingle([r], ParseRangePart);
    assert ParseRightPart([r]) == Ok([Value(digit)]);
    assert ParseLeftPart([l]) == if ParseConversion([l]).Ok? then Ok(LeftPart(ParseConversion([l]).value, None)) else Err(Assertion);
  }

  /** A comparison `l!=r` between a one-letter variable and a one-digit value
      parses like `l=r`, negated. */
  lemma ParseSimpleDifference(l: char, r: char)
    requires l !in "=!%" && '0' <= r <= '9'
    ensures ParseComparison([l, '!', '=', r]) ==
      if ParseConversion([l]).Ok? then Ok(Comparison(LeftPart(ParseConversion([l]).value, None), true, [Value(r as int - '0' as int)]))
      else Err(Assertion)
  {
    var c: string := [l, '!', '=', r];
    assert c[1..3] == "!=";
    FoundAt(c, "!=", 1);
    NotFound(c[3..], "!=");
    assert c[..1] == [l] && c[3..] == [r];
    NotFound([l], "%");
    NotFound([r], ",");
    NotFound([r], "..");
    var digit := r as int - '0' as int;
    assert DigitsValue([r]) == DigitsValue([]) * 10 + digit;
    assert ParseLong([r]) == Ok(digit);
    assert ParseRangePart([r]) == Ok(Value(digit));
    ParseAllSingle([r], ParseRangePart);
    assert ParseRightPart([r]) == Ok([Value(digit)]);
    assert ParseLeftPart([l]) == if ParseConversion([l]).Ok? then Ok(LeftPart(ParseConversion([l]).value, None)) else Err(Assertion);
  }

  /** The letters of the English rule name the variables `i` and `v`. */
  lemma EnglishLetters()
    ensures ParseConversion("i") == Ok(I) && ParseConversion("v") == Ok(V)
  {
    ConversionRoundTrip(I, "i");
    ConversionRoundTrip(V, "v");
    assert ConversionName(I) == "i" && ConversionName(V) == "v";
  }

  /** The two comparisons of the English rule, `i=1` and `v=0`. */
  lemma EnglishComparisonsParse()
    ensures ParseComparison("i=1") == Ok(Comparison(LeftPart(I, None), false, [Value(1)]))
    ensures ParseComparison("v=0") == Ok(Comparison(LeftPart(V, None), false, [Value(0)]))
  {
    EnglishLetters();
    assert "i=1" == ['i', '=', '1'] && "v=0" == ['v', '=', '0'];
    assert "i" == ['i'] && "v" == ['v'];
    ParseSimpleEquality('i', '1');
    ParseSimpleEquality('v', '0');
  }

  /** `i=1&&v=0` splits at its `&&` into its two comparisons. */
  lemma EnglishAndSplits()
    ensures Split("i=1&&v=0", "&&") == ["i=1", "v=0"]
  {
    SplitTwo("i=1", "&&", "v=0");
    assert "i=1" + "&&" + "v=0" == "i=1&&v=0";
  }

  /** A conjunction of two comparisons parses into both of them, in order. */
  lemma ParseAndPair(part: string, a: string, b: string, ca: Comparison, cb: Comparison)
    requires Split(part, "&&") == [a, b]
    requires ParseComparison(a) == Ok(ca) && ParseComparison(b) == Ok(cb)
    ensures ParseAnd(part) == Ok([ca, cb])
  {
    ParseAllSingle(b, ParseComparison);
    assert ParseAll([b], ParseComparison) == Ok([cb]);
    ParseAllCons(a, [b], ParseComparison);
    assert [a, b] == [a] + [b];
    assert ParseAll([a] + [b], ParseComparison) == Ok([ca] + [cb]);
    assert [ca] + [cb] == [ca, cb];
    assert ParseAnd(part) == ParseAll([a, b], ParseComparison);
  }

  /** The conjunction `i=1&&v=0` parses into its two comparisons, in order. */
  lemma EnglishAndParses()
    ensures ParseAnd("i=1&&v=0") == Ok([Comparison(LeftPart(I, None), false, [Value(1)]),
                                        Comparison(LeftPart(V, None), false, [Value(0)])])
  {
    EnglishAndSplits();
    EnglishComparisonsParse();
    ParseAndPair("i=1&&v=0", "i=1", "v=0",
      Comparison(LeftPart(I, None), false, [Value(1)]), Comparison(LeftPart(V, None), false, [Value(0)]));
  }

  /** The condition `i=1&&v=0` has no `||`: one conjunction. */
  lemma EnglishConditionParses()
    ensures ParseOr("i=1&&v=0") == Ok([[Comparison(LeftPart(I, None), false, [Value(1)]),
                                        Comparison(LeftPart(V, None), false, [Value(0)])]])
  {
    NotFound("i=1&&v=0", "||");
    EnglishAndParses();
    ParseAllSingle("i=1&&v=0", ParseAnd);
  }

  /** `one:i=1&&v=0` splits at its `:` into the category name and the condition. */
  lemma EnglishPartSplits()
    ensures Split("one:i=1&&v=0", ":") == ["one", "i=1&&v=0"]
  {
    SplitTwo("one", ":", "i=1&&v=0");
    assert "one" + ":" + "i=1&&v=0" == "one:i=1&&v=0";
  }

  /** A part `name:condition` whose condition and name both parse. */
  lemma ParseRulePartOf(part: string, name: string, cond: string, c: Condition, p: Plural)
    requires Split(part, ":") == [name, cond]
    requires ParseOr(cond) == Ok(c) && PluralNamed(name) == Ok(p)
    ensures ParseRulePart(part) == Ok(RulePart(c, p))
  {
  }

  /** The part `one:i=1&&v=0`: the category `one` under the condition `i = 1 and v = 0`. */
  lemma EnglishPartParses()
    ensures ParseRulePart("one:i=1&&v=0") == Ok(RulePart([[Comparison(LeftPart(I, None), false, [Value(1)]),
                                                           Comparison(LeftPart(V, None), false, [Value(0)])]], One))
  {
    EnglishPartSplits();
    EnglishConditionParses();
    PluralNameRoundTrip(One);
    assert PluralName(One) == "one";
    ParseRulePartOf("one:i=1&&v=0", "one", "i=1&&v=0",
      [[Comparison(LeftPart(I, None), false, [Value(1)]), Comparison(LeftPart(V, None), false, [Value(0)])]], One);
  }

  /** The English cardinal rule text `one:i=1&&v=0` parses into that one part. */
  lemma EnglishRuleParses()
    ensures ParseRule("one:i=1&&v=0") == Ok(Parts([RulePart([[Comparison(LeftPart(I, None), false, [Value(1)]),
                                                              Comparison(LeftPart(V, None), false, [Value(0)])]], One)]))
  {
    NotFound("one:i=1&&v=0", "//");
    EnglishPartParses();
    ParseAllSingle("one:i=1&&v=0", ParseRulePart);
  }

  /** The English cardinal rule gives `one` for 1 and `other` for 0 and 2. */
  lemma EnglishRuleCounts(rule: Rule)
    requires rule == Parts([RulePart([[Comparison(LeftPart(I, None), false, [Value(1)]),
                                       Comparison(LeftPart(V, None), false, [Value(0)])]], One)])
    ensures EvalRule(rule, 1) == Ok(One) && EvalRule(rule, 0) == Ok(Other) && EvalRule(rule, 2) == Ok(Other)
  {
  }

  /** The English cardinal rule, parsed from its text `one:i=1&&v=0`, gives `one`
      for 1 and `other` for 0 and 2. */
  lemma EnglishCardinalCounts()
    ensures ParseRule("one:i=1&&v=0").Ok?
    ensures var rule := ParseRule("one:i=1&&v=0").value;
      EvalRule(rule, 1) == Ok(One) && EvalRule(rule, 0) == Ok(Other) && EvalRule(rule, 2) == Ok(Other)
  {
    EnglishRuleParses();
    EnglishRuleCounts(ParseRule("one:i=1&&v=0").value);
  }
}
