/** C integer operations whose meaning differs from Dafny's. */
module CArith {

  function Pow2(e: nat): (p: nat)
    ensures p >= 1
  {
    if e == 0 then 1 else 2 * Pow2(e - 1)
  }

  lemma {:induction false} Pow2Add(a: nat, b: nat)
    ensures Pow2(a + b) == Pow2(a) * Pow2(b)
  {
    if a > 0 {
      Pow2Add(a - 1, b);
      assert Pow2(a + b) == 2 * Pow2((a - 1) + b);
    }
  }

  lemma {:induction false} Pow2Monotone(a: nat, b: nat)
    requires a <= b
    ensures Pow2(a) <= Pow2(b)
  {
    if a < b { Pow2Monotone(a, b - 1); }
  }

  /** C's `/`: the quotient truncated toward zero. */
  function TDiv(a: int, b: int): int
    requires b != 0
  {
    if a >= 0 then a / b else -((-a) / b)
  }

  /** `x >> k` on a two's complement machine: the quotient by 2^k rounded down. */
  function Shr(x: int, k: nat): int {
    x / Pow2(k)
  }

  /** Conversion to int16_t: reduction modulo 2^16 into the signed range. */
  function ToInt16(x: int): (r: int)
    ensures -32768 <= r < 32768
    ensures -32768 <= x < 32768 ==> r == x
  {
    var m := x % 65536;
    if m >= 32768 then m - 65536 else m
  }

  /** A 32-bit int result in two's complement. */
  function Wrap32(x: int): (r: int)
    ensures -0x8000_0000 <= r < 0x8000_0000
    ensures -0x8000_0000 <= x < 0x8000_0000 ==> r == x
  {
    (x + 0x8000_0000) % 0x1_0000_0000 - 0x8000_0000
  }

  /** The unique quotient and remainder of a non-negative decomposition. */
  lemma DivModUnique(t: int, d: int, q: int, r: int)
    requires d > 0 && 0 <= r < d && t == d * q + r
    ensures t / d == q && t % d == r
  {
    var q', r' := t / d, t % d;
    assert t == d * q' + r';
    DivisionUnique(d, q, r, q', r');
  }

  lemma DivisionUnique(d: int, q: int, r: int, q': int, r': int)
    requires d > 0 && 0 <= r < d && 0 <= r' < d && d * q + r == d * q' + r'
    ensures q == q' && r == r'
  {
    assert d * (q - q') == r' - r && d * (q' - q) == r - r';
    if q > q' {
      MulAtLeast(d, q - q');
    } else if q < q' {
      MulAtLeast(d, q' - q);
    }
  }

  lemma MulAtLeast(d: int, k: int)
    requires d >= 0 && k >= 1
    ensures d * k >= d
  {
    assert d * k == d + d * (k - 1);
  }

  lemma MulNonNegative(d: int, k: int)
    requires d >= 0 && k >= 0
    ensures d * k >= 0
  {}

  /** A number below d*b has a quotient below b. */
  lemma QuotientBelow(t: int, d: int, b: int)
    requires d > 0 && 0 <= t < d * b
    ensures 0 <= t / d < b && 0 <= t % d < d
  {
    var q, r := t / d, t % d;
    QuotientBounds(t, d, q, r, b);
  }

  lemma QuotientBounds(t: int, d: int, q: int, r: int, b: int)
    requires d > 0 && 0 <= t < d * b && t == d * q + r && 0 <= r < d
    ensures 0 <= q < b
  {
    assert d * (q - b) == d * q - d * b && d * (-q) == -(d * q);
    if q >= b {
      MulNonNegative(d, q - b);
    } else if q < 0 {
      MulAtLeast(d, -q);
    }
  }

  /** Adding multiples of the divisor leaves the remainder. */
  lemma ModShift(x: int, n: int, d: int)
    requires d > 0
    ensures (x + n * d) % d == x % d
  {
    var q, r := x / d, x % d;
    assert x == d * q + r && d * (q + n) == d * q + n * d;
    DivModUnique(x + n * d, d, q + n, r);
  }

  /** The quotient toward zero: what is left has the sign of the dividend and is smaller than the divisor. */
  lemma TDivMeaning(a: int, b: int)
    requires b != 0
    ensures var rest, size := a - TDiv(a, b) * b, if b < 0 then -b else b;
      if a >= 0 then 0 <= rest < size else -size < rest <= 0
  {
    var n := if a >= 0 then a else -a;
    var q, r := n / b, n % b;
    assert n == b * q + r;
    assert -q * b == -(q * b);
  }

  /** Shifting right rounds down. */
  lemma ShrMeaning(x: int, k: nat)
    ensures Pow2(k) * Shr(x, k) <= x < Pow2(k) * Shr(x, k) + Pow2(k)
  {}

  /** A narrowing conversion keeps the low bits. */
  lemma LowBits(x: int)
    ensures (x - ToInt16(x)) % 65536 == 0 && (x - Wrap32(x)) % 0x1_0000_0000 == 0
  {
    var m, n := x / 65536, (x + 0x8000_0000) / 0x1_0000_0000;
    assert x == 65536 * m + x % 65536;
    assert Wrap32(x) == x - n * 0x1_0000_0000;
  }
}
