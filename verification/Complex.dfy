/** Exact complex arithmetic: the reading of the 16-bit samples in which
    products and halvings do not round. */
module ComplexNumbers {
  import opened Pairs

  type Complex = Pair<real>

  const ZERO := Pair(0.0, 0.0)
  const ONE := Pair(1.0, 0.0)
  const I := Pair(0.0, 1.0)

  function Add(a: Complex, b: Complex): Complex {
    Pair(a.re + b.re, a.im + b.im)
  }

  function Sub(a: Complex, b: Complex): Complex {
    Pair(a.re - b.re, a.im - b.im)
  }

  function Mul(a: Complex, b: Complex): Complex {
    Pair(a.re * b.re - a.im * b.im, a.re * b.im + a.im * b.re)
  }

  function Scale(r: real, a: Complex): Complex {
    Pair(r * a.re, r * a.im)
  }

  function Neg(a: Complex): Complex {
    Pair(-a.re, -a.im)
  }

  function Conj(a: Complex): Complex {
    Pair(a.re, -a.im)
  }

  function Pow(a: Complex, e: nat): Complex {
    if e == 0 then ONE else Mul(a, Pow(a, e - 1))
  }

  /** Numbers with the same parts are the same. */
  lemma Same(a: Complex, b: Complex)
    requires a.re == b.re && a.im == b.im
    ensures a == b
  {}

  lemma MulAssociative(a: Complex, b: Complex, c: Complex)
    ensures Mul(Mul(a, b), c) == Mul(a, Mul(b, c))
  {
    assert (a.re * b.re - a.im * b.im) * c.re - (a.re * b.im + a.im * b.re) * c.im
        == a.re * (b.re * c.re - b.im * c.im) - a.im * (b.re * c.im + b.im * c.re);
    assert (a.re * b.re - a.im * b.im) * c.im + (a.re * b.im + a.im * b.re) * c.re
        == a.re * (b.re * c.im + b.im * c.re) + a.im * (b.re * c.re - b.im * c.im);
    Same(Mul(Mul(a, b), c), Mul(a, Mul(b, c)));
  }

  lemma MulCommutative(a: Complex, b: Complex)
    ensures Mul(a, b) == Mul(b, a)
  {}

  lemma MulDistributes(a: Complex, b: Complex, c: Complex)
    ensures Mul(a, Add(b, c)) == Add(Mul(a, b), Mul(a, c))
  {
    assert a.re * (b.re + c.re) - a.im * (b.im + c.im)
        == (a.re * b.re - a.im * b.im) + (a.re * c.re - a.im * c.im);
    assert a.re * (b.im + c.im) + a.im * (b.re + c.re)
        == (a.re * b.im + a.im * b.re) + (a.re * c.im + a.im * c.re);
    Same(Mul(a, Add(b, c)), Add(Mul(a, b), Mul(a, c)));
  }

  lemma MulUnits(a: Complex)
    ensures Mul(ONE, a) == a == Mul(a, ONE)
    ensures Mul(ZERO, a) == ZERO == Mul(a, ZERO)
  {}

  lemma ConjMul(a: Complex, b: Complex)
    ensures Conj(Mul(a, b)) == Mul(Conj(a), Conj(b))
  {
    assert (-a.im) * (-b.im) == a.im * b.im && a.re * -b.im == -(a.re * b.im) && -a.im * b.re == -(a.im * b.re);
    Same(Conj(Mul(a, b)), Mul(Conj(a), Conj(b)));
  }

  lemma {:induction false} PowAdd(a: Complex, m: nat, n: nat)
    ensures Pow(a, m + n) == Mul(Pow(a, m), Pow(a, n))
  {
    if m == 0 {
      MulUnits(Pow(a, n));
    } else {
      PowAdd(a, m - 1, n);
      assert Pow(a, m + n) == Mul(a, Pow(a, (m - 1) + n));
      MulAssociative(a, Pow(a, m - 1), Pow(a, n));
    }
  }

  lemma {:induction false} PowMul(a: Complex, m: nat, n: nat)
    ensures Pow(a, m * n) == Pow(Pow(a, m), n)
  {
    hide Mul;
    if n > 0 {
      PowMul(a, m, n - 1);
      assert m * n == m + m * (n - 1);
      PowAdd(a, m, m * (n - 1));
    }
  }

  lemma {:induction false} PowOne(e: nat)
    ensures Pow(ONE, e) == ONE
  {
    hide Mul;
    if e > 0 { PowOne(e - 1); MulUnits(ONE); }
  }

  lemma {:induction false} ConjPow(a: Complex, e: nat)
    ensures Conj(Pow(a, e)) == Pow(Conj(a), e)
  {
    if e > 0 {
      ConjPow(a, e - 1);
      ConjMul(a, Pow(a, e - 1));
    }
  }
}
