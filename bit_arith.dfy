/** Arithmetic of the sixteen-bit read buffer of the bit-level byte sources, with
    every shift written as a multiplication or division by a literal power of two
    (one case per distance), so that the facts below stay linear. */
module BitArith {

  /** `x shl n` for a shift of at most eight. */
  function Shl(x: int, n: int): int
    requires 0 <= n <= 8
  {
    match n
    case 0 => x * 1
    case 1 => x * 2
    case 2 => x * 4
    case 3 => x * 8
    case 4 => x * 16
    case 5 => x * 32
    case 6 => x * 64
    case 7 => x * 128
    case 8 => x * 256
  }

  /** Bit `i` of byte `b` (`(b ushr i) and 1`). */
  function Bit(b: int, i: int): int
    requires 0 <= i <= 7
  {
    match i
    case 0 => (b / 1) % 2
    case 1 => (b / 2) % 2
    case 2 => (b / 4) % 2
    case 3 => (b / 8) % 2
    case 4 => (b / 16) % 2
    case 5 => (b / 32) % 2
    case 6 => (b / 64) % 2
    case 7 => (b / 128) % 2
  }

  /** The buffer holding the low `k` bits of byte `b` at its top (bits 15 down to
      `16 - k`), and zeros below. */
  function Pending(b: int, k: int): int
    requires 0 <= k <= 8
  {
    match k
    case 0 => 0
    case 1 => (b % 2) * 32768
    case 2 => (b % 4) * 16384
    case 3 => (b % 8) * 8192
    case 4 => (b % 16) * 4096
    case 5 => (b % 32) * 2048
    case 6 => (b % 64) * 1024
    case 7 => (b % 128) * 512
    case 8 => b * 256
  }

  /** The byte made of the low `8 - s` bits of `b` followed by the high `s` bits of
      `c`: the eight bits that start `s` bits into `b`. */
  function Straddle(b: int, c: int, s: int): int
    requires 1 <= s <= 7
  {
    match s
    case 1 => (b % 128) * 2 + c / 128
    case 2 => (b % 64) * 4 + c / 64
    case 3 => (b % 32) * 8 + c / 32
    case 4 => (b % 16) * 16 + c / 16
    case 5 => (b % 8) * 32 + c / 8
    case 6 => (b % 4) * 64 + c / 4
    case 7 => (b % 2) * 128 + c / 2
  }

  /** With `k` bits of `b` pending, the top bit of the buffer is bit `k - 1` of `b`,
      and a shift left by one (keeping sixteen bits) leaves `k - 1` bits pending. */
  lemma BitStep(b: int, k: int)
    requires 0 <= b < 256 && 1 <= k <= 8
    ensures (Pending(b, k) / 32768) % 2 == Bit(b, k - 1)
    ensures (Pending(b, k) * 2) % 65536 == Pending(b, k - 1)
  {
    match k
    case 1 => BitStep1(b);
    case 2 => BitStep2(b);
    case 3 => BitStep3(b);
    case 4 => BitStep4(b);
    case 5 => BitStep5(b);
    case 6 => BitStep6(b);
    case 7 => BitStep7(b);
    case 8 => BitStep8(b);
  }

  /** With `k` bits of `b` pending, placing byte `c` right below them keeps the
      buffer under 2^16; its top eight bits are the byte that starts `8 - k` bits
      into `b`, and a shift left by eight leaves `k` bits of `c` pending. */
  lemma ByteStep(b: int, c: int, k: int)
    requires 0 <= b < 256 && 0 <= c < 256 && 1 <= k <= 7
    ensures 0 <= Pending(b, k) + Shl(c, 8 - k) < 65536
    ensures (Pending(b, k) + Shl(c, 8 - k)) / 256 == Straddle(b, c, 8 - k)
    ensures ((Pending(b, k) + Shl(c, 8 - k)) * 256) % 65536 == Pending(c, k)
  {
    match k
    case 1 => ByteStep1(b, c);
    case 2 => ByteStep2(b, c);
    case 3 => ByteStep3(b, c);
    case 4 => ByteStep4(b, c);
    case 5 => ByteStep5(b, c);
    case 6 => ByteStep6(b, c);
    case 7 => ByteStep7(b, c);
  }

  lemma BitStep1(b: int)
    requires 0 <= b < 256
    ensures (((b % 2) * 32768) / 32768) % 2 == (b / 1) % 2
    ensures (((b % 2) * 32768) * 2) % 65536 == 0
  {
    var q, r := b / 2, b % 2;
    var t, u := r / 1, r % 1;
    assert b == q * 2 + t * 1 + u;
    assert b / 1 == 2 * q + t;
    assert r * 32768 == t * 32768 + u * 32768 && 0 <= u * 32768 < 32768;
    assert (r * 32768) / 32768 == t;
    assert r * 32768 * 2 == t * 65536 + u * 65536 && 0 <= u * 65536 < 65536;
  }

  lemma BitStep2(b: int)
    requires 0 <= b < 256
    ensures (((b % 4) * 16384) / 32768) % 2 == (b / 2) % 2
    ensures (((b % 4) * 16384) * 2) % 65536 == (b % 2) * 32768
  {
    var q, r := b / 4, b % 4;
    var t, u := r / 2, r % 2;
    assert b == q * 4 + t * 2 + u;
    assert b / 2 == 2 * q + t;
    assert r * 16384 == t * 32768 + u * 16384 && 0 <= u * 16384 < 32768;
    assert (r * 16384) / 32768 == t;
    assert r * 16384 * 2 == t * 65536 + u * 32768 && 0 <= u * 32768 < 65536;
  }

  lemma BitStep3(b: int)
    requires 0 <= b < 256
    ensures (((b % 8) * 8192) / 32768) % 2 == (b / 4) % 2
    ensures (((b % 8) * 8192) * 2) % 65536 == (b % 4) * 16384
  {
    var q, r := b / 8, b % 8;
    var t, u := r / 4, r % 4;
    assert b == q * 8 + t * 4 + u;
    assert b / 4 == 2 * q + t;
    assert r * 8192 == t * 32768 + u * 8192 && 0 <= u * 8192 < 32768;
    assert (r * 8192) / 32768 == t;
    assert r * 8192 * 2 == t * 65536 + u * 16384 && 0 <= u * 16384 < 65536;
  }

  lemma BitStep4(b: int)
    requires 0 <= b < 256
    ensures (((b % 16) * 4096) / 32768) % 2 == (b / 8) % 2
    ensures (((b % 16) * 4096) * 2) % 65536 == (b % 8) * 8192
  {
    var q, r := b / 16, b % 16;
    var t, u := r / 8, r % 8;
    assert b == q * 16 + t * 8 + u;
    assert b / 8 == 2 * q + t;
    assert r * 4096 == t * 32768 + u * 4096 && 0 <= u * 4096 < 32768;
    assert (r * 4096) / 32768 == t;
    assert r * 4096 * 2 == t * 65536 + u * 8192 && 0 <= u * 8192 < 65536;
  }

  lemma BitStep5(b: int)
    requires 0 <= b < 256
    ensures (((b % 32) * 2048) / 32768) % 2 == (b / 16) % 2
    ensures (((b % 32) * 2048) * 2) % 65536 == (b % 16) * 4096
  {
    var q, r := b / 32, b % 32;
    var t, u := r / 16, r % 16;
    assert b == q * 32 + t * 16 + u;
    assert b / 16 == 2 * q + t;
    assert r * 2048 == t * 32768 + u * 2048 && 0 <= u * 2048 < 32768;
    assert (r * 2048) / 32768 == t;
    assert r * 2048 * 2 == t * 65536 + u * 4096 && 0 <= u * 4096 < 65536;
  }

  lemma BitStep6(b: int)
    requires 0 <= b < 256
    ensures (((b % 64) * 1024) / 32768) % 2 == (b / 32) % 2
    ensures (((b % 64) * 1024) * 2) % 65536 == (b % 32) * 2048
  {
    var q, r := b / 64, b % 64;
    var t, u := r / 32, r % 32;
    assert b == q * 64 + t * 32 + u;
    assert b / 32 == 2 * q + t;
    assert r * 1024 == t * 32768 + u * 1024 && 0 <= u * 1024 < 32768;
    assert (r * 1024) / 32768 == t;
    assert r * 1024 * 2 == t * 65536 + u * 2048 && 0 <= u * 2048 < 65536;
  }

  lemma BitStep7(b: int)
    requires 0 <= b < 256
    ensures (((b % 128) * 512) / 32768) % 2 == (b / 64) % 2
    ensures (((b % 128) * 512) * 2) % 65536 == (b % 64) * 1024
  {
    var q, r := b / 128, b % 128;
    var t, u := r / 64, r % 64;
    assert b == q * 128 + t * 64 + u;
    assert b / 64 == 2 * q + t;
    assert r * 512 == t * 32768 + u * 512 && 0 <= u * 512 < 32768;
    assert (r * 512) / 32768 == t;
    assert r * 512 * 2 == t * 65536 + u * 1024 && 0 <= u * 1024 < 65536;
  }

  lemma BitStep8(b: int)
    requires 0 <= b < 256
    ensures ((b * 256) / 32768) % 2 == (b / 128) % 2
    ensures ((b * 256) * 2) % 65536 == (b % 128) * 512
  {
    var q, r := b / 256, b % 256;
    var t, u := r / 128, r % 128;
    assert b == q * 256 + t * 128 + u;
    assert b / 128 == 2 * q + t;
    assert r * 256 == t * 32768 + u * 256 && 0 <= u * 256 < 32768;
    assert (r * 256) / 32768 == t;
    assert r * 256 * 2 == t * 65536 + u * 512 && 0 <= u * 512 < 65536;
  }

  lemma ByteStep1(b: int, c: int)
    requires 0 <= b < 256 && 0 <= c < 256
    ensures 0 <= (b % 2) * 32768 + c * 128 < 65536
    ensures ((b % 2) * 32768 + c * 128) / 256 == (b % 2) * 128 + c / 2
    ensures (((b % 2) * 32768 + c * 128) * 256) % 65536 == (c % 2) * 32768
  {
    var r := b % 2;
    var q, u := c / 2, c % 2;
    assert c == q * 2 + u;
    assert r * 32768 + c * 128 == (r * 128 + q) * 256 + u * 128;
  }

  lemma ByteStep2(b: int, c: int)
    requires 0 <= b < 256 && 0 <= c < 256
    ensures 0 <= (b % 4) * 16384 + c * 64 < 65536
    ensures ((b % 4) * 16384 + c * 64) / 256 == (b % 4) * 64 + c / 4
    ensures (((b % 4) * 16384 + c * 64) * 256) % 65536 == (c % 4) * 16384
  {
    var r := b % 4;
    var q, u := c / 4, c % 4;
    assert c == q * 4 + u;
    assert r * 16384 + c * 64 == (r * 64 + q) * 256 + u * 64;
  }

  lemma ByteStep3(b: int, c: int)
    requires 0 <= b < 256 && 0 <= c < 256
    ensures 0 <= (b % 8) * 8192 + c * 32 < 65536
    ensures ((b % 8) * 8192 + c * 32) / 256 == (b % 8) * 32 + c / 8
    ensures (((b % 8) * 8192 + c * 32) * 256) % 65536 == (c % 8) * 8192
  {
    var r := b % 8;
    var q, u := c / 8, c % 8;
    assert c == q * 8 + u;
    assert r * 8192 + c * 32 == (r * 32 + q) * 256 + u * 32;
  }

  lemma ByteStep4(b: int, c: int)
    requires 0 <= b < 256 && 0 <= c < 256
    ensures 0 <= (b % 16) * 4096 + c * 16 < 65536
    ensures ((b % 16) * 4096 + c * 16) / 256 == (b % 16) * 16 + c / 16
    ensures (((b % 16) * 4096 + c * 16) * 256) % 65536 == (c % 16) * 4096
  {
    var r := b % 16;
    var q, u := c / 16, c % 16;
    assert c == q * 16 + u;
    assert r * 4096 + c * 16 == (r * 16 + q) * 256 + u * 16;
  }

  lemma ByteStep5(b: int, c: int)
    requires 0 <= b < 256 && 0 <= c < 256
    ensures 0 <= (b % 32) * 2048 + c * 8 < 65536
    ensures ((b % 32) * 2048 + c * 8) / 256 == (b % 32) * 8 + c / 32
    ensures (((b % 32) * 2048 + c * 8) * 256) % 65536 == (c % 32) * 2048
  {
    var r := b % 32;
    var q, u := c / 32, c % 32;
    assert c == q * 32 + u;
    assert r * 2048 + c * 8 == (r * 8 + q) * 256 + u * 8;
  }

  lemma ByteStep6(b: int, c: int)
    requires 0 <= b < 256 && 0 <= c < 256
    ensures 0 <= (b % 64) * 1024 + c * 4 < 65536
    ensures ((b % 64) * 1024 + c * 4) / 256 == (b % 64) * 4 + c / 64
    ensures (((b % 64) * 1024 + c * 4) * 256) % 65536 == (c % 64) * 1024
  {
    var r := b % 64;
    var q, u := c / 64, c % 64;
    assert c == q * 64 + u;
    assert r * 1024 + c * 4 == (r * 4 + q) * 256 + u * 4;
  }

  lemma ByteStep7(b: int, c: int)
    requires 0 <= b < 256 && 0 <= c < 256
    ensures 0 <= (b % 128) * 512 + c * 2 < 65536
    ensures ((b % 128) * 512 + c * 2) / 256 == (b % 128) * 2 + c / 128
    ensures (((b % 128) * 512 + c * 2) * 256) % 65536 == (c % 128) * 512
  {
    var r := b % 128;
    var q, u := c / 128, c % 128;
    assert c == q * 128 + u;
    assert r * 512 + c * 2 == (r * 2 + q) * 256 + u * 2;
  }
}
