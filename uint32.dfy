/**
 * Unsigned 32-bit arithmetic as the benchmark loop uses it: `uint32_t`
 * values as integers in [0, 2^32), subtraction that wraps modulo 2^32, and
 * the bitwise AND the loop uses to fold its counter into a 2^20-entry ring.
 */
module Uint32 {

  const TWO32: int := 0x1_0000_0000

  /** The values of a C `uint32_t`. */
  type u32 = x: int | 0 <= x < TWO32

  /** 2 to the power k. */
  function Pow2(k: nat): (p: nat)
    ensures p >= 1
  {
    if k == 0 then 1 else 2 * Pow2(k - 1)
  }

  lemma Pow2Of20()
    ensures Pow2(20) == 0x10_0000
  {
    assert Pow2(5) == 32;
    assert Pow2(10) == 1024;
    assert Pow2(15) == 32768;
  }

  /**
   * C's unsigned subtraction `a - b` on `uint32_t`: the difference is taken
   * modulo 2^32, so a minuend below the subtrahend wraps round instead of
   * going negative.
   */
  function WrapSub(a: u32, b: u32): (r: u32)
    ensures (b + r) % TWO32 == a
    ensures a >= b ==> r == a - b
    ensures a < b ==> r == a - b + TWO32
  {
    (a - b) % TWO32
  }

  /** The bitwise AND `a & b` of two unsigned integers, bit by bit from the lowest. */
  function BitAnd(a: nat, b: nat): (r: nat)
    ensures r <= a && r <= b
    decreases a
  {
    if a == 0 || b == 0 then 0
    else 2 * BitAnd(a / 2, b / 2) + (if a % 2 == 1 && b % 2 == 1 then 1 else 0)
  }

  /** A positive multiple of m is at least m. */
  lemma MulAtLeast(a: int, m: int)
    requires a >= 1 && m > 0
    ensures a * m >= m
    decreases a
  {
    if a > 1 {
      MulAtLeast(a - 1, m);
      assert a * m == (a - 1) * m + m;
    }
  }

  /** Division with remainder is unique. */
  lemma DivModUnique(c: int, m: int, q: int, r: int)
    requires m > 0 && 0 <= r < m && c == q * m + r
    ensures c / m == q && c % m == r
  {
    var q', r' := c / m, c % m;
    assert c == q' * m + r' && 0 <= r' < m;
    assert (q - q') * m == r' - r by {
      assert q * m - q' * m == (q - q') * m;
    }
    if q > q' {
      MulAtLeast(q - q', m);
    } else if q < q' {
      MulAtLeast(q' - q, m);
    }
  }

  /** One step of splitting off the lowest bit: c mod 2^(k+1) in terms of c / 2. */
  lemma ModPow2Step(c: nat, k: nat)
    ensures c % Pow2(k + 1) == 2 * ((c / 2) % Pow2(k)) + c % 2
  {
    var p := Pow2(k);
    var q, r := (c / 2) / p, (c / 2) % p;
    assert c / 2 == q * p + r;
    assert c == 2 * (c / 2) + c % 2;
    assert 2 * (q * p) == q * (2 * p);
    DivModUnique(c, 2 * p, q, 2 * r + c % 2);
  }

  /** Masking with k low one-bits keeps exactly the residue modulo 2^k. */
  lemma {:induction false} BitAndLowMask(c: nat, k: nat)
    ensures BitAnd(c, Pow2(k) - 1) == c % Pow2(k)
  {
    if k == 0 {
    } else if c == 0 {
    } else {
      var p := Pow2(k - 1);
      var m := Pow2(k) - 1;
      DivModUnique(m, 2, p - 1, 1);
      calc {
        BitAnd(c, m);
        2 * BitAnd(c / 2, m / 2) + c % 2;
        { BitAndLowMask(c / 2, k - 1); }
        2 * ((c / 2) % p) + c % 2;
        { ModPow2Step(c, k - 1); }
        c % Pow2(k);
      }
    }
  }

  /**
   * Reading the low word of a free-running 64-bit counter at two instants
   * and subtracting them with wrap-around yields the true number of ticks
   * in between modulo 2^32: exact for intervals shorter than 2^32 ticks,
   * even across a wrap of the low word, and off by a multiple of 2^32 beyond.
   */
  lemma ElapsedOfLowWords(t: nat, d: nat)
    ensures WrapSub((t + d) % TWO32, t % TWO32) == d % TWO32
    ensures d < TWO32 ==> WrapSub((t + d) % TWO32, t % TWO32) == d
  {
    var a, b := (t + d) % TWO32, t % TWO32;
    var r := WrapSub(a, b);
    assert (b + r) % TWO32 == a;
    assert ((t + d) - (b + r)) % TWO32 == 0;
    assert (t - b) % TWO32 == 0;
    assert (d - r) % TWO32 == 0 by {
      assert (t + d) - (b + r) == (t - b) + (d - r);
    }
  }
}
