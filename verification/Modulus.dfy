/** The modulus of complex numbers, kept squared: distances, the triangle inequality, powers. */
module Modulus {
  import opened ComplexNumbers
  import opened Reals

  function Norm2(z: Complex): (r: real)
    ensures r >= 0.0
  {
    SquareNonNegative(z.re);
    SquareNonNegative(z.im);
    z.re * z.re + z.im * z.im
  }

  lemma SquareNonNegative(x: real)
    ensures x * x >= 0.0
  {}

  /** |z| <= b. */
  predicate AtMost(z: Complex, b: real) {
    b >= 0.0 && Norm2(z) <= b * b
  }

  /** |a - b| <= e. */
  predicate Within(a: Complex, b: Complex, e: real) {
    AtMost(Sub(a, b), e)
  }

  lemma SquareMonotone(a: real, b: real)
    requires 0.0 <= a <= b
    ensures a * a <= b * b
  {
    ProductNonNegative(a, b - a);
    ProductNonNegative(b, b - a);
  }

  lemma ProductMonotone(a: real, b: real, c: real, d: real)
    requires 0.0 <= a <= b && 0.0 <= c <= d
    ensures a * c <= b * d
  {
    ProductNonNegative(b - a, c);
    ProductNonNegative(b, d - c);
  }

  /** x <= y when x^2 <= y^2 and y is not negative. */
  lemma RootMonotone(x: real, y: real)
    requires y >= 0.0 && x * x <= y * y
    ensures x <= y && -y <= x
  {
    if x > y { Larger(x, y); }
    if x < -y { Larger(-x, y); }
  }

  lemma Larger(x: real, y: real)
    requires x > y >= 0.0
    ensures x * x > y * y
  {
    assert x * x - y * y == (x - y) * (x + y);
    Positive(x - y, x + y);
  }

  lemma Positive(a: real, b: real)
    requires a > 0.0 && b > 0.0
    ensures a * b > 0.0
  {}

  /** Lagrange's identity: (u.v)^2 + (u x v)^2 == |u|^2 |v|^2. */
  lemma Lagrange(a: real, b: real, c: real, d: real)
    ensures (a * c + b * d) * (a * c + b * d) + (a * d - b * c) * (a * d - b * c) == (a * a + b * b) * (c * c + d * d)
  {
    var x, y, z, w := a * c, b * d, a * d, b * c;
    assert (x + y) * (x + y) == x * x + 2.0 * (x * y) + y * y;
    assert (z - w) * (z - w) == z * z - 2.0 * (z * w) + w * w;
    assert x * y == z * w;
    assert x * x == (a * a) * (c * c) && y * y == (b * b) * (d * d);
    assert z * z == (a * a) * (d * d) && w * w == (b * b) * (c * c);
  }

  /** The Cauchy-Schwarz inequality. */
  lemma InnerProduct(u: Complex, v: Complex, a: real, b: real)
    requires AtMost(u, a) && AtMost(v, b)
    ensures u.re * v.re + u.im * v.im <= a * b
  {
    var dot, cross := u.re * v.re + u.im * v.im, u.re * v.im - u.im * v.re;
    Lagrange(u.re, u.im, v.re, v.im);
    SquareNonNegative(cross);
    ProductMonotone(Norm2(u), a * a, Norm2(v), b * b);
    assert (a * a) * (b * b) == (a * b) * (a * b);
    ProductNonNegative(a, b);
    RootMonotone(dot, a * b);
  }

  lemma SquareOfSum(a: real, b: real)
    ensures (a + b) * (a + b) == a * a + 2.0 * (a * b) + b * b
  {}

  lemma Triangle(u: Complex, v: Complex, a: real, b: real)
    requires AtMost(u, a) && AtMost(v, b)
    ensures AtMost(Add(u, v), a + b)
  {
    InnerProduct(u, v, a, b);
    SquareOfSum(u.re, v.re);
    SquareOfSum(u.im, v.im);
    SquareOfSum(a, b);
  }

  lemma TriangleSub(u: Complex, v: Complex, a: real, b: real)
    requires AtMost(u, a) && AtMost(v, b)
    ensures AtMost(Sub(u, v), a + b)
  {
    assert Norm2(Neg(v)) == Norm2(v);
    Triangle(u, Neg(v), a, b);
    assert Add(u, Neg(v)) == Sub(u, v);
  }

  lemma NormOfProduct(u: Complex, v: Complex)
    ensures Norm2(Mul(u, v)) == Norm2(u) * Norm2(v)
  {
    Lagrange(u.re, u.im, v.re, -v.im);
    assert u.re * -v.im == -(u.re * v.im) && u.im * -v.im == -(u.im * v.im) && -v.im * -v.im == v.im * v.im;
    assert (u.re * v.im + u.im * v.re) * (u.re * v.im + u.im * v.re)
        == (-(u.re * v.im) - u.im * v.re) * (-(u.re * v.im) - u.im * v.re);
  }

  lemma ProductAtMost(u: Complex, v: Complex, a: real, b: real)
    requires AtMost(u, a) && AtMost(v, b)
    ensures AtMost(Mul(u, v), a * b)
  {
    NormOfProduct(u, v);
    ProductMonotone(Norm2(u), a * a, Norm2(v), b * b);
    ProductNonNegative(a, b);
    assert (a * a) * (b * b) == (a * b) * (a * b);
  }

  lemma ScaleAtMost(r: real, u: Complex, a: real)
    requires r >= 0.0 && AtMost(u, a)
    ensures AtMost(Scale(r, u), r * a)
  {
    assert Norm2(Scale(r, u)) == (r * r) * Norm2(u) by {
      assert (r * u.re) * (r * u.re) == (r * r) * (u.re * u.re);
      assert (r * u.im) * (r * u.im) == (r * r) * (u.im * u.im);
    }
    SquareNonNegative(r);
    ProductNonNegative(r, a);
    ProductMonotone(r * r, r * r, Norm2(u), a * a);
    assert (r * r) * (a * a) == (r * a) * (r * a);
  }

  lemma Loosen(u: Complex, a: real, b: real)
    requires AtMost(u, a) && a <= b
    ensures AtMost(u, b)
  {
    SquareMonotone(a, b);
  }

  /** Components are no larger than the modulus. */
  lemma Components(u: Complex, a: real)
    requires AtMost(u, a)
    ensures -a <= u.re <= a && -a <= u.im <= a
  {
    SquareNonNegative(u.re);
    SquareNonNegative(u.im);
    RootMonotone(u.re, a);
    RootMonotone(u.im, a);
  }

  /** And bound it: two components of at most c give a modulus of at most e when 2c^2 <= e^2. */
  lemma FromComponents(u: Complex, c: real, e: real)
    requires -c <= u.re <= c && -c <= u.im <= c && e >= 0.0 && 2.0 * (c * c) <= e * e
    ensures AtMost(u, e)
  {
    SquareBound(u.re, c);
    SquareBound(u.im, c);
  }

  lemma SquareBound(x: real, c: real)
    requires -c <= x <= c
    ensures x * x <= c * c
  {
    if x >= 0.0 { SquareMonotone(x, c); } else { SquareMonotone(-x, c); }
  }

  // ----- distances

  lemma Chain(a: Complex, b: Complex, c: Complex, d: real, e: real)
    requires Within(a, b, d) && Within(b, c, e)
    ensures Within(a, c, d + e)
  {
    Triangle(Sub(a, b), Sub(b, c), d, e);
    assert Add(Sub(a, b), Sub(b, c)) == Sub(a, c);
  }

  lemma SumWithin(a: Complex, b: Complex, c: Complex, d: Complex, e: real, f: real)
    requires Within(a, c, e) && Within(b, d, f)
    ensures Within(Add(a, b), Add(c, d), e + f) && Within(Sub(a, b), Sub(c, d), e + f)
  {
    Triangle(Sub(a, c), Sub(b, d), e, f);
    TriangleSub(Sub(a, c), Sub(b, d), e, f);
    assert Add(Sub(a, c), Sub(b, d)) == Sub(Add(a, b), Add(c, d));
    assert Sub(Sub(a, c), Sub(b, d)) == Sub(Sub(a, b), Sub(c, d));
  }

  lemma ScaleWithin(r: real, a: Complex, b: Complex, e: real)
    requires r >= 0.0 && Within(a, b, e)
    ensures Within(Scale(r, a), Scale(r, b), r * e)
  {
    ScaleAtMost(r, Sub(a, b), e);
    assert r * (a.re - b.re) == r * a.re - r * b.re && r * (a.im - b.im) == r * a.im - r * b.im;
    Same(Scale(r, Sub(a, b)), Sub(Scale(r, a), Scale(r, b)));
  }

  /** The same factor of modulus at most k. */
  lemma ProductWithin(w: Complex, a: Complex, b: Complex, k: real, e: real)
    requires AtMost(w, k) && Within(a, b, e)
    ensures Within(Mul(w, a), Mul(w, b), k * e)
  {
    ProductAtMost(w, Sub(a, b), k, e);
    MulSub(w, a, b);
  }

  /** Near factors, and a number of modulus at most c. */
  lemma FactorWithin(a: Complex, b: Complex, y: Complex, e: real, c: real)
    requires Within(a, b, e) && AtMost(y, c)
    ensures Within(Mul(a, y), Mul(b, y), e * c)
  {
    ProductAtMost(Sub(a, b), y, e, c);
    MulSub(y, a, b);
  }

  lemma WithinLoosen(a: Complex, b: Complex, d: real, e: real)
    requires Within(a, b, d) && d <= e
    ensures Within(a, b, e)
  {
    Loosen(Sub(a, b), d, e);
  }

  lemma MulSub(w: Complex, a: Complex, b: Complex)
    ensures Mul(w, Sub(a, b)) == Sub(Mul(w, a), Mul(w, b)) && Mul(Sub(a, b), w) == Sub(Mul(a, w), Mul(b, w))
  {
    assert w.re * (a.re - b.re) == w.re * a.re - w.re * b.re && w.im * (a.im - b.im) == w.im * a.im - w.im * b.im;
    assert w.re * (a.im - b.im) == w.re * a.im - w.re * b.im && w.im * (a.re - b.re) == w.im * a.re - w.im * b.re;
    Same(Mul(w, Sub(a, b)), Sub(Mul(w, a), Mul(w, b)));
    MulCommutative(w, a);
    MulCommutative(w, b);
    MulCommutative(w, Sub(a, b));
  }

  /** Near a number of modulus at most b. */
  lemma WithinAtMost(a: Complex, c: Complex, e: real, b: real)
    requires Within(a, c, e) && AtMost(c, b)
    ensures AtMost(a, e + b)
  {
    Triangle(Sub(a, c), c, e, b);
    assert Add(Sub(a, c), c) == a;
  }

  // ----- roots of unity lie on the unit circle

  function RealPow(x: real, e: nat): real {
    if e == 0 then 1.0 else x * RealPow(x, e - 1)
  }

  lemma {:induction false} PowerAbove(x: real, e: nat)
    requires x > 1.0
    ensures RealPow(x, e) >= 1.0 && (e > 0 ==> RealPow(x, e) > 1.0)
  {
    if e > 0 {
      PowerAbove(x, e - 1);
      ProductMonotone(1.0, x, 1.0, RealPow(x, e - 1));
      ProductNonNegative(x, RealPow(x, e - 1) - 1.0);
    }
  }

  lemma {:induction false} PowerBelow(x: real, e: nat)
    requires 0.0 <= x < 1.0
    ensures 0.0 <= RealPow(x, e) <= 1.0 && (e > 0 ==> RealPow(x, e) < 1.0)
  {
    if e > 0 {
      PowerBelow(x, e - 1);
      ProductNonNegative(x, RealPow(x, e - 1));
      ProductMonotone(x, x, RealPow(x, e - 1), 1.0);
    }
  }

  lemma {:induction false} NormOfPower(w: Complex, e: nat)
    ensures Norm2(Pow(w, e)) == RealPow(Norm2(w), e)
  {
    if e > 0 {
      NormOfPower(w, e - 1);
      NormOfProduct(w, Pow(w, e - 1));
    }
  }

  lemma UnitRoot(w: Complex, e: nat)
    requires e > 0 && Pow(w, e) == ONE
    ensures Norm2(w) == 1.0
  {
    NormOfPower(w, e);
    assert RealPow(Norm2(w), e) == 1.0;
    if Norm2(w) > 1.0 { PowerAbove(Norm2(w), e); }
    if Norm2(w) < 1.0 { PowerBelow(Norm2(w), e); }
  }

  lemma {:induction false} UnitPower(w: Complex, e: nat)
    requires Norm2(w) == 1.0
    ensures Norm2(Pow(w, e)) == 1.0
  {
    if e > 0 {
      UnitPower(w, e - 1);
      NormOfProduct(w, Pow(w, e - 1));
    }
  }
}
