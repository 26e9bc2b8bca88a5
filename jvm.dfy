/** The JVM's fixed-width integer arithmetic, written out over Dafny's unbounded
    integers: the value ranges of `Int` and `Long`, two's-complement wrap-around,
    and the truncating remainder of the `%` operator. */
module Jvm {
  import opened Wrappers

  const INT_MIN: int := -0x8000_0000
  const INT_MAX: int := 0x7FFF_FFFF
  const LONG_MIN: int := -0x8000_0000_0000_0000
  const LONG_MAX: int := 0x7FFF_FFFF_FFFF_FFFF

  /** A value of Kotlin's `Int`. */
  type Int32 = x: int | -0x8000_0000 <= x < 0x8000_0000

  /** The value of a byte read as unsigned (`byte.toInt() and 0xFF`), the form in
      which byte sources hand bytes out. */
  type UByte = x: int | 0 <= x < 256

  /** A value of Kotlin's `Long`. */
  type Int64 = x: int | -0x8000_0000_0000_0000 <= x < 0x8000_0000_0000_0000

  /** The smaller of two integers, Kotlin's `minOf`. */
  function Min(a: int, b: int): int
  {
    if a <= b then a else b
  }

  /** The `Int` that an `Int` addition or multiplication with mathematical value `x`
      produces: `x` reduced modulo 2^32 into the signed range. */
  function Wrap32(x: int): (r: Int32)
    ensures (r - x) % 0x1_0000_0000 == 0
    ensures INT_MIN <= x <= INT_MAX ==> r == x
    ensures 0 <= x ==> r <= x
  {
    var m := x % 0x1_0000_0000;
    if m < 0x8000_0000 then m else m - 0x1_0000_0000
  }

  /** `Long.toInt()`: keeps the low 32 bits, reinterpreted as signed. */
  function LongToInt(x: Int64): (r: Int32)
    ensures (r - x) % 0x1_0000_0000 == 0
    ensures INT_MIN <= x <= INT_MAX ==> r == x
  {
    Wrap32(x)
  }

  /** A positive multiple of a positive number is at least that number. */
  lemma {:induction false} MulPositive(b: int, d: int)
    requires b > 0 && d > 0
    ensures b * d >= b
    decreases d
  {
    if d > 1 {
      MulPositive(b, d - 1);
      assert b * d == b * (d - 1) + b;
    }
  }

  /** A non-zero multiple of `b` is at least `b` in absolute value. */
  lemma MulNonZero(b: int, d: int)
    requires b != 0 && d != 0
    ensures b * d >= b || b * d <= -b
  {
    var bb := if b > 0 then b else -b;
    var dd := if d > 0 then d else -d;
    MulPositive(bb, dd);
    assert b * d == bb * dd || b * d == -(bb * dd);
  }

  /** A multiple of `b` leaves no remainder. */
  lemma MultipleMod(b: int, q: int)
    requires b != 0
    ensures (b * q) % b == 0
  {
    var x := b * q;
    var d := q - x / b;
    assert b * d == x % b by {
      assert x == b * (x / b) + x % b;
      assert b * d == b * q - b * (x / b);
    }
    if d != 0 {
      MulNonZero(b, d);
    }
  }

  /** The JVM remainder `a % b` (`Long.rem`): truncates toward zero, so the result
      has the sign of `a`, is smaller than `b` in absolute value, and differs from
      `a` by a multiple of `b`; these three determine it. `b` must be non-zero (the
      JVM throws otherwise). */
  function TruncRem(a: int, b: int): (r: int)
    requires b != 0
    ensures a >= 0 ==> 0 <= r < (if b > 0 then b else -b)
    ensures a < 0 ==> -(if b > 0 then b else -b) < r <= 0
    ensures (a - r) % b == 0
  {
    var k := if b > 0 then b else -b;
    var n := if a >= 0 then a else -a;
    var m := n % k;
    var r := if a >= 0 then m else -m;
    var q := (if a >= 0 then 1 else -1) * (if b > 0 then 1 else -1) * (n / k);
    assert a - r == b * q by {
      assert n == k * (n / k) + m;
    }
    MultipleMod(b, q);
    r
  }

  /** The JVM quotient `a / b` for a positive divisor: truncates toward zero, and
      recombines with `TruncRem`. */
  function TruncDiv(a: int, b: int): (r: int)
    requires b > 0
    ensures r * b + TruncRem(a, b) == a
  {
    if a >= 0 then a / b else -((-a) / b)
  }

  /** `Objects.checkFromIndexSize(start, length, size)`: the range `[start, start +
      length)` must lie inside `[0, size)`, else `IndexOutOfBoundsException`. The sum
      is taken without overflow. */
  function CheckFromIndexSize(start: int, length: int, size: int): (r: Result<()>)
    ensures r.Ok? <==> 0 <= start && 0 <= length && start + length <= size
    ensures r.Err? ==> r.error == IndexOutOfBounds
  {
    if start < 0 || length < 0 || start > size - length then Err(IndexOutOfBounds) else Ok(())
  }

  // ----- decimal integers in text -----

  predicate IsDigit(c: char) { '0' <= c <= '9' }

  predicate AllDigits(d: string)
  {
    forall i :: 0 <= i < |d| ==> IsDigit(d[i])
  }

  /** The value of a string of decimal digits. */
  function DigitsValue(d: string): nat
    requires AllDigits(d)
    decreases |d|
  {
    if d == [] then 0
    else
      assert IsDigit(d[|d| - 1]);
      DigitsValue(d[..|d| - 1]) * 10 + (d[|d| - 1] as int - '0' as int)
  }

  /** `Int.toString()` for a non-negative value: its decimal digits, without
      leading zeros. */
  function Decimal(n: nat): (r: string)
    ensures r != [] && AllDigits(r)
    decreases n
  {
    var last := ('0' as int + n % 10) as char;
    if n < 10 then [last] else Decimal(n / 10) + [last]
  }

  /** Reading the digits back gives the value, so different values give different
      strings. */
  lemma {:induction false} DecimalRoundTrip(n: nat)
    ensures DigitsValue(Decimal(n)) == n
    decreases n
  {
    var d := Decimal(n);
    if n >= 10 {
      DecimalRoundTrip(n / 10);
      assert d[..|d| - 1] == Decimal(n / 10);
    }
  }

  /** The text after an optional leading `-` or `+`. */
  function AfterSign(s: string): (r: string)
    ensures |r| <= |s| && (r == s || (r == s[1..] && (s[0] == '-' || s[0] == '+')))
  {
    if s != [] && (s[0] == '-' || s[0] == '+') then s[1..] else s
  }

  /** The signed decimal integers that `toLong()` and `toIntOrNull()` both read: an
      optional `-` or `+` followed by at least one decimal digit, with the sign
      applied to the digits' value; nothing for any other text. The two differ
      only in the range of values they accept. */
  function SignedDigits(s: string): (r: Option<int>)
    ensures r.Some? <==> AfterSign(s) != [] && AllDigits(AfterSign(s))
    ensures r.Some? && IsDigit(s[0]) ==> r.value == DigitsValue(s)
    ensures r.Some? && s[0] == '+' ==> r.value == DigitsValue(s[1..])
    ensures r.Some? && s[0] == '-' ==> r.value + DigitsValue(s[1..]) == 0
  {
    var digits := AfterSign(s);
    if digits == [] || !AllDigits(digits) then None
    else if s[0] == '-' then Some(-(DigitsValue(digits) as int))
    else Some(DigitsValue(digits) as int)
  }

  /** `String.toLong()` (`Long.parseLong`): a signed decimal integer whose value
      fits in a `Long`; anything else throws `NumberFormatException`. */
  function ParseLong(s: string): (r: Result<Int64>)
    ensures r.Err? ==> r.error == NumberFormat
    ensures r.Ok? ==> s != [] && AllDigits(if s[0] == '-' || s[0] == '+' then s[1..] else s)
    ensures r.Ok? && IsDigit(s[0]) ==> r.value == DigitsValue(s)
    ensures r.Ok? && s[0] == '-' ==> r.value + DigitsValue(s[1..]) == 0
    ensures r.Ok? && s[0] == '+' ==> r.value == DigitsValue(s[1..])
  {
    var v := SignedDigits(s);
    if v.Some? && LONG_MIN <= v.value <= LONG_MAX then Ok(v.value) else Err(NumberFormat)
  }

  /** `toLong()` succeeds exactly on an optional sign followed by a non-empty run
      of decimal digits whose signed value fits in a `Long`. */
  lemma ParseLongAccepts(s: string)
    ensures var digits := AfterSign(s);
      ParseLong(s).Ok? <==>
        && digits != [] && AllDigits(digits)
        && var v := if s[0] == '-' then -(DigitsValue(digits) as int) else DigitsValue(digits) as int;
           LONG_MIN <= v <= LONG_MAX
  {
  }

  /** The decimal text of every `Long` parses back to it, with or without a `+`,
      negatives included. */
  lemma {:induction false} ParseLongRoundTrip(n: nat)
    ensures n <= LONG_MAX ==> ParseLong(Decimal(n)) == Ok(n) && ParseLong("+" + Decimal(n)) == Ok(n)
    ensures n <= -LONG_MIN ==> ParseLong("-" + Decimal(n)) == Ok(-(n as int))
  {
    var d := Decimal(n);
    DecimalRoundTrip(n);
    assert ("+" + d)[1..] == d && ("-" + d)[1..] == d;
    assert IsDigit(d[0]);
  }
}
