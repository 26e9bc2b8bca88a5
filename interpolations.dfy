/** `String.interpolate`: a left-to-right scan that copies text, applies `\c`
    escapes and replaces each `{name}` by the value a `NameResolver` gives for
    `name`; and the three `NameResolver.create` resolvers (by index, by map, by
    pairs). Values handed to the resolvers are modelled already converted with
    `toString()`. */
module Interpolations {
  import opened Wrappers
  import opened Jvm
  import opened Sequences

  /** `NameResolver.value`: the value of a variable, or the exception it throws. */
  type NameResolver = string -> Result<string>

  /** The scanner's three states. */
  datatype Mode = Default | Backslash | InCurly

  /** `ESCAPED_CHARS[c] ?: c`: the letters `b t n r f` name control characters;
      every other character, `'`, `"` and `\` among them, stands for itself. */
  function Escaped(c: char): (r: char)
    ensures r != c <==> c in "btnrf"
    ensures r != c ==> r < ' '
  {
    match c
    case 'b' => 8 as char
    case 't' => '\t'
    case 'n' => '\n'
    case 'r' => '\r'
    case 'f' => 12 as char
    case _ => c
  }

  /** `prefix` in front of a successful result; a failure is passed on. */
  function Then(prefix: string, r: Result<string>): Result<string>
  {
    if r.Ok? then Ok(prefix + r.value) else r
  }

  /** The interpolation of `s` read from the default state. */
  function Interpolation(s: string, resolver: NameResolver): Result<string>
    decreases |s|
  {
    if s == [] then Ok([])
    else if s[0] == '{' then Placeholder([], s[1..], resolver)
    else if s[0] == '\\' then Escape(s[1..], resolver)
    else Then([s[0]], Interpolation(s[1..], resolver))
  }

  /** The interpolation of `t` read just after a backslash: its first character
      is escaped; a backslash at the very end emits nothing. */
  function Escape(t: string, resolver: NameResolver): Result<string>
    decreases |t|
  {
    if t == [] then Ok([])
    else Then([Escaped(t[0])], Interpolation(t[1..], resolver))
  }

  /** The interpolation of `t` read inside braces after the characters `name`: a
      `\` or `{` fails with `IllegalStateException`, `}` emits the resolver's value
      (or passes on its exception), and text still open at the end emits nothing. */
  function Placeholder(name: string, t: string, resolver: NameResolver): Result<string>
    decreases |t|
  {
    if t == [] then Ok([])
    else if t[0] == '\\' || t[0] == '{' then Err(IllegalState)
    else if t[0] == '}' then
      var v := resolver(name);
      if v.Err? then v else Then(v.value, Interpolation(t[1..], resolver))
    else Placeholder(name + [t[0]], t[1..], resolver)
  }

  /** What is left to emit for input `t` from scanner state `mode` with the
      variable name `name` read so far. */
  function Pending(mode: Mode, name: string, t: string, resolver: NameResolver): Result<string>
  {
    match mode
    case Default => Interpolation(t, resolver)
    case Backslash => Escape(t, resolver)
    case InCurly => Placeholder(name, t, resolver)
  }

  /** `interpolate(resolver)`: one pass over the characters of `s` with a state, an
      output builder and a name builder. */
  method Interpolate(s: string, resolver: NameResolver) returns (r: Result<string>)
    ensures r == Interpolation(s, resolver)
  {
    var builder: string := [];
    var mode := Default;
    var name: string := [];
    var i := 0;
    assert s[0..] == s;
    ThenNothing(Interpolation(s, resolver));
    while i < |s|
      invariant 0 <= i <= |s|
      invariant Interpolation(s, resolver) == Then(builder, Pending(mode, name, s[i..], resolver))
      invariant mode != InCurly ==> name == []
      decreases |s| - i
    {
      var c := s[i];
      var t := s[i..];
      assert t[0] == c && t[1..] == s[i + 1..];
      match mode {
      case Default =>
        if c == '{' {
          mode := InCurly;
        } else if c == '\\' {
          mode := Backslash;
        } else {
          ThenThen(builder, [c], Interpolation(s[i + 1..], resolver));
          builder := builder + [c];
        }
      case Backslash =>
        ThenThen(builder, [Escaped(c)], Interpolation(s[i + 1..], resolver));
        mode := Default;
        builder := builder + [Escaped(c)];
      case InCurly =>
        if c == '\\' || c == '{' {
          return Err(IllegalState);
        } else if c == '}' {
          var value := resolver(name);
          if value.Err? {
            return value;
          }
          ThenThen(builder, value.value, Interpolation(s[i + 1..], resolver));
          builder := builder + value.value;
          name := [];
          mode := Default;
        } else {
          name := name + [c];
        }
      }
      i := i + 1;
    }
    assert builder + [] == builder;
    r := Ok(builder);
  }

  lemma ThenThen(a: string, b: string, r: Result<string>)
    ensures Then(a, Then(b, r)) == Then(a + b, r)
  {
    if r.Ok? {
      assert a + (b + r.value) == (a + b) + r.value;
    }
  }

  lemma ThenNothing(r: Result<string>)
    ensures Then([], r) == r
  {
    if r.Ok? {
      assert [] + r.value == r.value;
    }
  }

  /** No `{` and no `\` in a string. */
  predicate Plain(p: string)
  {
    forall i :: 0 <= i < |p| ==> p[i] != '{' && p[i] != '\\'
  }

  /** Text without `{` or `\` is copied unchanged, in front of whatever follows;
      in particular `Interpolation(p) == Ok(p)`. */
  lemma {:induction false} PlainCopied(p: string, t: string, resolver: NameResolver)
    requires Plain(p)
    ensures Interpolation(p + t, resolver) == Then(p, Interpolation(t, resolver))
    ensures Interpolation(p, resolver) == Ok(p)
    decreases |p|
  {
    if p == [] {
      assert p + t == t;
      ThenNothing(Interpolation(t, resolver));
    } else {
      var s := p + t;
      assert s[0] == p[0] && s[1..] == p[1..] + t;
      PlainCopied(p[1..], t, resolver);
      ThenThen([p[0]], p[1..], Interpolation(t, resolver));
      assert [p[0]] + p[1..] == p;
    }
  }

  /** `\c` emits `ESCAPED_CHARS[c] ?: c` and scanning goes on in the default
      state. */
  lemma EscapeApplied(c: char, t: string, resolver: NameResolver)
    ensures Interpolation(['\\', c] + t, resolver) == Then([Escaped(c)], Interpolation(t, resolver))
  {
    var s := ['\\', c] + t;
    assert s[1..][0] == c && s[1..][1..] == t;
  }

  /** A name free of `\`, `{` and `}`. */
  predicate SimpleName(name: string)
  {
    forall i :: 0 <= i < |name| ==> name[i] != '\\' && name[i] != '{' && name[i] != '}'
  }

  /** Inside braces, the characters of a simple name only extend the name. */
  lemma {:induction false} NameCollected(prefix: string, name: string, t: string, resolver: NameResolver)
    requires SimpleName(name)
    ensures Placeholder(prefix, name + t, resolver) == Placeholder(prefix + name, t, resolver)
    decreases |name|
  {
    if name == [] {
      assert name + t == t && prefix + name == prefix;
    } else {
      var s := name + t;
      assert s[0] == name[0] && s[1..] == name[1..] + t;
      NameCollected(prefix + [name[0]], name[1..], t, resolver);
      assert prefix + [name[0]] + name[1..] == prefix + name;
    }
  }

  /** `{name}` emits `resolver.value(name)` and scanning goes on in the default
      state; an exception of the resolver ends the interpolation. */
  lemma PlaceholderResolved(name: string, t: string, resolver: NameResolver)
    requires SimpleName(name)
    ensures var v := resolver(name);
      Interpolation(['{'] + name + ['}'] + t, resolver)
        == if v.Err? then v else Then(v.value, Interpolation(t, resolver))
  {
    var s := ['{'] + name + ['}'] + t;
    assert s[1..] == name + (['}'] + t);
    NameCollected([], name, ['}'] + t, resolver);
    assert [] + name == name;
    assert (['}'] + t)[1..] == t;
  }

  /** A `\` or a `{` after an opening brace, before its closing brace, throws
      `IllegalStateException`. */
  lemma NestedBraceFails(name: string, c: char, t: string, resolver: NameResolver)
    requires SimpleName(name) && (c == '\\' || c == '{')
    ensures Interpolation(['{'] + name + [c] + t, resolver) == Err(IllegalState)
  {
    var s := ['{'] + name + [c] + t;
    assert s[1..] == name + ([c] + t);
    NameCollected([], name, [c] + t, resolver);
  }

  /** A brace left open at the end, and a final backslash, emit nothing. */
  lemma UnterminatedDropped(name: string, resolver: NameResolver)
    requires SimpleName(name)
    ensures Interpolation(['{'] + name, resolver) == Ok([])
    ensures Interpolation(['\\'], resolver) == Ok([])
  {
    var s := ['{'] + name;
    assert s[1..] == name + [];
    NameCollected([], name, [], resolver);
  }

  /** Text without braces never consults the resolver. */
  lemma {:induction false} NoBracesNoResolver(s: string, r1: NameResolver, r2: NameResolver)
    requires forall i :: 0 <= i < |s| ==> s[i] != '{'
    ensures Interpolation(s, r1) == Interpolation(s, r2)
    decreases |s|
  {
    if s != [] {
      NoBracesNoResolver(s[1..], r1, r2);
      if s[0] == '\\' && |s| > 1 {
        NoBracesNoResolver(s[2..], r1, r2);
        assert s[1..][1..] == s[2..];
      }
    }
  }

  // ----- NameResolver.create(vararg args) -----

  /** Kotlin's `String.toIntOrNull()`: a signed decimal integer, read as
      `toLong()` reads it, whose value fits in an `Int`; anything else is `null`. */
  function ToIntOrNull(s: string): (r: Option<Int32>)
    ensures r.Some? ==> s != [] && AllDigits(AfterSign(s))
    ensures r.Some? && IsDigit(s[0]) ==> r.value == DigitsValue(s)
    ensures r.Some? && s[0] == '+' ==> r.value == DigitsValue(s[1..])
    ensures r.Some? && s[0] == '-' ==> r.value + DigitsValue(s[1..]) == 0
  {
    var v := SignedDigits(s);
    if v.Some? && INT_MIN <= v.value <= INT_MAX then Some(v.value) else None
  }

  /** `toIntOrNull` accepts exactly an optional sign followed by a non-empty run
      of decimal digits whose signed value fits in an `Int`, and it is `toLong()`
      narrowed to the `Int` range. */
  lemma ToIntOrNullAccepts(s: string)
    ensures var digits := AfterSign(s);
      ToIntOrNull(s).Some? <==>
        && digits != [] && AllDigits(digits)
        && var v := if s[0] == '-' then -(DigitsValue(digits) as int) else DigitsValue(digits) as int;
           INT_MIN <= v <= INT_MAX
    ensures ToIntOrNull(s).Some? <==> ParseLong(s).Ok? && INT_MIN <= ParseLong(s).value <= INT_MAX
    ensures ToIntOrNull(s).Some? ==> ParseLong(s) == Ok(ToIntOrNull(s).value)
  {
  }

  /** `toIntOrNull` reads back every `Int` written in decimal, with or without
      a minus sign. */
  lemma ToIntOrNullRoundTrip(n: nat)
    ensures n <= INT_MAX ==> ToIntOrNull(Decimal(n)) == Some(n)
    ensures n <= -INT_MIN ==> var r := ToIntOrNull(['-'] + Decimal(n)); r.Some? && r.value + n == 0
    ensures n > INT_MAX ==> ToIntOrNull(Decimal(n)) == None
  {
    Jvm.DecimalRoundTrip(n);
    assert (['-'] + Decimal(n))[1..] == Decimal(n);
  }

  /** The resolver of `create(vararg args)`: the variable name is an index into
      `args`; a name that is not an `Int`, or an index outside `args`, throws
      `IllegalArgumentException`. */
  function IndexValue(args: seq<string>, name: string): (r: Result<string>)
    ensures r.Ok? <==> ToIntOrNull(name).Some? && 0 <= ToIntOrNull(name).value < |args|
    ensures r.Ok? ==> r.value == args[ToIntOrNull(name).value]
    ensures r.Err? ==> r.error == IllegalArgument
  {
    var index := ToIntOrNull(name);
    if index.None? then Err(IllegalArgument)
    else if !(0 <= index.value < |args|) then Err(IllegalArgument)
    else Ok(args[index.value])
  }

  function IndexResolver(args: seq<string>): NameResolver
  {
    name => IndexValue(args, name)
  }

  /** `{i}` names the `i`-th argument, and an index past the last argument
      throws (a JVM array has at most `Int.MAX_VALUE` elements). */
  lemma IndexResolverFindsArgument(args: seq<string>, i: nat)
    requires |args| <= INT_MAX
    ensures i < |args| ==> IndexResolver(args)(Decimal(i)) == Ok(args[i])
    ensures i >= |args| ==> IndexResolver(args)(Decimal(i)) == Err(IllegalArgument)
  {
    var d := Decimal(i);
    assert IndexResolver(args)(d) == IndexValue(args, d);
    ToIntOrNullRoundTrip(i);
    if i <= INT_MAX {
      assert ToIntOrNull(d) == Some(i);
    } else {
      assert ToIntOrNull(d) == None;
    }
  }

  /** A name with a character that is no digit after an optional sign throws. */
  lemma IndexResolverRejectsName(args: seq<string>, name: string)
    requires !AllDigits(AfterSign(name))
    ensures IndexResolver(args)(name) == Err(IllegalArgument)
  {
  }

  /** Index names need not be canonical: `{+1}` and `{01}` name the second
      argument and `{-0}` the first, while `{-1}` throws. */
  lemma IndexResolverSignedNames(args: seq<string>)
    requires |args| >= 2
    ensures IndexResolver(args)("+1") == Ok(args[1])
    ensures IndexResolver(args)("01") == Ok(args[1])
    ensures IndexResolver(args)("-0") == Ok(args[0])
    ensures IndexResolver(args)("-1") == Err(IllegalArgument)
  {
    assert IsDigit('1') && IsDigit('0');
    assert "+1"[1..] == "1" && "-0"[1..] == "0" && "-1"[1..] == "1";
    assert "01"[..1] == "0";
    assert ToIntOrNull("+1") == Some(1);
    assert ToIntOrNull("01") == Some(1);
    assert ToIntOrNull("-0") == Some(0);
    assert ToIntOrNull("-1") == Some(-1);
  }

  // ----- NameResolver.create(map, fallback) and create(vararg pairs, fallback) -----

  /** The resolver of `create(args, fallback)`: the value mapped to the name, else
      the fallback, else `IllegalArgumentException`. */
  function MapValue(args: map<string, string>, fallback: Option<string>, name: string): (r: Result<string>)
    ensures name in args ==> r == Ok(args[name])
    ensures name !in args && fallback.Some? ==> r == Ok(fallback.value)
    ensures r.Err? <==> name !in args && fallback.None?
    ensures r.Err? ==> r.error == IllegalArgument
  {
    if name in args then Ok(args[name])
    else if fallback.Some? then Ok(fallback.value)
    else Err(IllegalArgument)
  }

  function MapResolver(args: map<string, string>, fallback: Option<string>): NameResolver
  {
    name => MapValue(args, fallback, name)
  }

  /** With a fallback the map resolver never throws, so an interpolation with it
      fails only on a `\` or `{` inside braces. */
  lemma {:induction false} FallbackNeverThrows(args: map<string, string>, fallback: string, s: string)
    ensures Interpolation(s, MapResolver(args, Some(fallback))).Err?
        ==> Interpolation(s, MapResolver(args, Some(fallback))).error == IllegalState
    decreases |s|
  {
    var resolver := MapResolver(args, Some(fallback));
    if s != [] {
      if s[0] == '{' {
        FallbackPlaceholder(args, fallback, [], s[1..]);
      } else if s[0] == '\\' {
        if |s| > 1 {
          FallbackNeverThrows(args, fallback, s[2..]);
          assert s[1..][1..] == s[2..];
        }
      } else {
        FallbackNeverThrows(args, fallback, s[1..]);
      }
    }
  }

  lemma {:induction false} FallbackPlaceholder(args: map<string, string>, fallback: string, name: string, t: string)
    ensures Placeholder(name, t, MapResolver(args, Some(fallback))).Err?
        ==> Placeholder(name, t, MapResolver(args, Some(fallback))).error == IllegalState
    decreases |t|, 0
  {
    if t != [] && t[0] != '\\' && t[0] != '{' {
      if t[0] == '}' {
        FallbackNeverThrows(args, fallback, t[1..]);
      } else {
        FallbackPlaceholder(args, fallback, name + [t[0]], t[1..]);
      }
    }
  }

  /** The resolver of `create(vararg pairs, fallback)`. */
  function PairsResolver(pairs: seq<(string, string)>, fallback: Option<string>): NameResolver
  {
    MapResolver(PairsToMap(pairs), fallback)
  }

  /** `String.interpolate(vararg args)`. */
  method InterpolateArgs(s: string, args: seq<string>) returns (r: Result<string>)
    ensures r == Interpolation(s, IndexResolver(args))
  {
    r := Interpolate(s, IndexResolver(args));
  }

  /** `String.interpolate(args, fallback)`. */
  method InterpolateMap(s: string, args: map<string, string>, fallback: Option<string>) returns (r: Result<string>)
    ensures r == Interpolation(s, MapResolver(args, fallback))
    ensures fallback.Some? && r.Err? ==> r.error == IllegalState
  {
    r := Interpolate(s, MapResolver(args, fallback));
    if fallback.Some? {
      FallbackNeverThrows(args, fallback.value, s);
    }
  }

  /** `String.interpolate(vararg pairs, fallback)`. */
  method InterpolatePairs(s: string, pairs: seq<(string, string)>, fallback: Option<string>) returns (r: Result<string>)
    ensures r == Interpolation(s, PairsResolver(pairs, fallback))
  {
    r := Interpolate(s, PairsResolver(pairs, fallback));
  }
}
