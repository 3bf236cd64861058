/** The discrete Fourier transform and the identity its fast form rests on. */
module Dft {
  import opened ComplexNumbers

  /** The first `len` terms of the k-th DFT coefficient: the sum of p[t] * root^(k*t). */
  function DftSum(root: Complex, p: seq<Complex>, k: nat, len: nat): Complex
    requires len <= |p|
  {
    if len == 0 then ZERO
    else Add(DftSum(root, p, k, len - 1), Mul(p[len - 1], Pow(root, k * (len - 1))))
  }

  /** Coefficient k of the DFT of p for the given root of unity. */
  function Coefficient(root: Complex, p: seq<Complex>, k: nat): Complex {
    DftSum(root, p, k, |p|)
  }

  function At(p: seq<Complex>, t: int): Complex {
    if 0 <= t < |p| then p[t] else ZERO
  }

  /** The sum of p[off + st*t] * w^(e*t) over t < len. */
  function StridedSum(w: Complex, p: seq<Complex>, off: nat, st: nat, e: nat, len: nat): Complex {
    if len == 0 then ZERO
    else Add(StridedSum(w, p, off, st, e, len - 1), Mul(At(p, off + st * (len - 1)), Pow(w, e * (len - 1))))
  }

  lemma MulAssoc(a: nat, b: nat, c: nat)
    ensures a * b * c == a * (b * c)
  {}

  /** Terms 2len and 2len+1 of a progression are term len of its even and odd halves. */
  lemma HalvedProgression(st: nat, len: nat) returns (o: nat)
    ensures st * (2 * len) == o == 2 * st * len
    ensures st * (2 * len + 1) == st + o
  {
    o := 2 * st * len;
  }

  lemma {:induction false} StridedSumIsDftSum(w: Complex, p: seq<Complex>, g: nat, k: nat, len: nat)
    requires len <= |p|
    ensures StridedSum(w, p, 0, 1, g * k, len) == DftSum(Pow(w, g), p, k, len)
  {
    hide Mul, Add;
    if len > 0 {
      StridedSumIsDftSum(w, p, g, k, len - 1);
      MulAssoc(g, k, len - 1);
      PowMul(w, g, k * (len - 1));
    }
  }

  lemma NextTerm(w: Complex, p: seq<Complex>, off: nat, st: nat, e: nat, len: nat, o: nat, d: nat)
    requires st * len == o && e * len == d
    ensures StridedSum(w, p, off, st, e, len + 1)
         == Add(StridedSum(w, p, off, st, e, len), Mul(At(p, off + o), Pow(w, d)))
  {
    hide Mul, Add, Pow;
  }

  lemma RegroupTerms(a: Complex, b: Complex, x: Complex, y: Complex, w: Complex)
    ensures Add(Add(Add(a, Mul(w, b)), x), Mul(w, y)) == Add(Add(a, x), Mul(w, Add(b, y)))
  {
    MulDistributes(w, b, y);
    hide Mul;
  }

  lemma OddTerm(v: Complex, w: Complex, z: Complex)
    ensures Mul(v, Mul(w, z)) == Mul(w, Mul(v, z))
  {
    MulAssociative(v, w, z);
    MulCommutative(v, w);
    MulAssociative(w, v, z);
    hide Mul;
  }

  /** Decimation in time: even-indexed terms plus w^e times odd-indexed terms. */
  lemma {:induction false} EvenOddSplit(w: Complex, p: seq<Complex>, off: nat, st: nat, e: nat, len: nat)
    ensures StridedSum(w, p, off, st, e, 2 * len)
         == Add(StridedSum(w, p, off, 2 * st, 2 * e, len),
                Mul(Pow(w, e), StridedSum(w, p, off + st, 2 * st, 2 * e, len)))
  {
    hide Mul, Pow;
    if len == 0 {
      MulUnits(Pow(w, e));
    } else {
      var n: nat := len - 1;
      EvenOddSplit(w, p, off, st, e, n);
      var d := HalvedProgression(e, n);
      var o := HalvedProgression(st, n);
      EvenOddStep(w, p, off, st, e, n, o, d);
      assert 2 * len == 2 * n + 2 && len == n + 1;
    }
  }

  lemma EvenOddStep(w: Complex, p: seq<Complex>, off: nat, st: nat, e: nat, len: nat, o: nat, d: nat)
    requires st * (2 * len) == o == 2 * st * len && st * (2 * len + 1) == st + o
    requires e * (2 * len) == d == 2 * e * len && e * (2 * len + 1) == e + d
    requires StridedSum(w, p, off, st, e, 2 * len)
          == Add(StridedSum(w, p, off, 2 * st, 2 * e, len),
                 Mul(Pow(w, e), StridedSum(w, p, off + st, 2 * st, 2 * e, len)))
    ensures StridedSum(w, p, off, st, e, 2 * len + 2)
         == Add(StridedSum(w, p, off, 2 * st, 2 * e, len + 1),
                Mul(Pow(w, e), StridedSum(w, p, off + st, 2 * st, 2 * e, len + 1)))
  {
    hide *;
    var even, odd := StridedSum(w, p, off, 2 * st, 2 * e, len), StridedSum(w, p, off + st, 2 * st, 2 * e, len);
    var x, v := At(p, off + o), At(p, off + st + o);
    NextTerm(w, p, off, st, e, 2 * len, o, d);
    NextTerm(w, p, off, st, e, 2 * len + 1, st + o, e + d);
    NextTerm(w, p, off, 2 * st, 2 * e, len, o, d);
    NextTerm(w, p, off + st, 2 * st, 2 * e, len, o, d);
    PowAdd(w, e, d);
    OddTerm(v, Pow(w, e), Pow(w, d));
    RegroupTerms(even, odd, Mul(x, Pow(w, d)), Mul(v, Pow(w, d)), Pow(w, e));
  }

  /** Exponents matter only modulo the order of the root. */
  lemma {:induction false} PeriodicExponent(w: Complex, p: seq<Complex>, off: nat, st: nat, e: nat, period: nat,
                                            len: nat)
    requires Pow(w, period) == ONE
    ensures StridedSum(w, p, off, st, e + period, len) == StridedSum(w, p, off, st, e, len)
  {
    hide Mul, Add;
    if len > 0 {
      PeriodicExponent(w, p, off, st, e, period, len - 1);
      assert (e + period) * (len - 1) == e * (len - 1) + period * (len - 1);
      PowAdd(w, e * (len - 1), period * (len - 1));
      PowMul(w, period, len - 1);
      PowOne(len - 1);
      MulUnits(Pow(w, e * (len - 1)));
    }
  }
}
