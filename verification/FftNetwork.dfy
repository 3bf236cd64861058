/** The value computed by the loop nest of fix_fft, as a network of butterflies,
    and the proof that it is the discrete Fourier transform divided by n. */
module FftNetwork {
  import opened CArith
  import opened Pairs
  import opened ComplexNumbers
  import opened Dft
  import opened BitReversal
  import opened ButterflyNetwork

  /** omega plays exp(2 pi i / 2^logN): its 1/1, 1/2 and 1/4 powers are 1, -1 and i. */
  ghost predicate IsPrincipalRoot(omega: Complex, logN: nat) {
    && Pow(omega, Pow2(logN)) == ONE
    && (logN >= 1 ==> Pow(omega, Pow2(logN - 1)) == Neg(ONE))
    && (logN >= 2 ==> Pow(omega, Pow2(logN - 2)) == I)
  }

  /** The unrounded 3/4-wave sine table: entry i is the sine of i/2^logN of a turn. */
  ghost predicate IsSineTable(table: seq<real>, omega: Complex, logN: nat) {
    && |table| == Pow2(logN) * 3 / 4
    && forall i | 0 <= i < |table| :: table[i] == Pow(omega, i).im
  }

  /** A quarter turn meets both for waves of four points, with the table 0, 1, 0. */
  lemma FourPointWave(omega: Complex, logN: nat)
    requires omega == I && logN == 2
    ensures IsPrincipalRoot(omega, logN) && IsSineTable([0.0, 1.0, 0.0], omega, logN)
  {
    QuarterTurn(omega);
    hide *;
    FourthPower(omega);
    RootOfFour(omega, logN);
    TableOfFour(omega, logN);
  }

  lemma RootOfFour(omega: Complex, logN: nat)
    requires logN == 2 && Pow(omega, 4) == ONE && Pow(omega, 2) == Neg(ONE) && Pow(omega, 1) == I
    ensures IsPrincipalRoot(omega, logN)
  {
    SmallPowersOfTwo();
    hide Pow, Pow2;
  }

  lemma TableOfFour(omega: Complex, logN: nat)
    requires logN == 2 && Pow(omega, 0) == ONE && Pow(omega, 2) == Neg(ONE) && Pow(omega, 1) == I
    ensures IsSineTable([0.0, 1.0, 0.0], omega, logN)
  {
    SmallPowersOfTwo();
    hide Pow, Pow2;
  }

  lemma SmallPowersOfTwo()
    ensures Pow2(0) == 1 && Pow2(1) == 2 && Pow2(2) == 4
  {}

  lemma QuarterTurn(omega: Complex)
    requires omega == I
    ensures Mul(omega, omega) == Neg(ONE)
  {}

  lemma FourthPower(a: Complex)
    requires Mul(a, a) == Neg(ONE)
    ensures Pow(a, 0) == ONE && Pow(a, 1) == a && Pow(a, 2) == Neg(ONE) && Pow(a, 4) == ONE
  {
    MulUnits(a);
    assert Pow(a, 1) == Mul(a, Pow(a, 0)) && Pow(a, 2) == Mul(a, Pow(a, 1));
    hide Pow;
    PowAdd(a, 2, 2);
  }

  /** From there on a square root of the root serves waves of twice as many points. */
  lemma SquareRootServes(z: Complex, logN: nat)
    requires logN >= 2 && IsPrincipalRoot(Mul(z, z), logN)
    ensures IsPrincipalRoot(z, logN + 1)
  {
    MulUnits(z);
    assert Pow(z, 1) == Mul(z, Pow(z, 0)) && Pow(z, 2) == Mul(z, Pow(z, 1));
    hide Mul, Pow;
    PowMul(z, 2, Pow2(logN));
    PowMul(z, 2, Pow2(logN - 1));
    PowMul(z, 2, Pow2(logN - 2));
  }

  /** The sample arithmetic without rounding. */
  const EXACT: Arith<real> := Arith(x => 0.5 * x, x => -x, (x, y) => x * y, (x, y) => x + y, (x, y) => x - y)

  lemma ExactButterfly(w: Complex, x: Complex, y: Complex)
    ensures Plus(EXACT, Halved(EXACT, x), Turned(EXACT, w, y)) == Add(Scale(0.5, x), Mul(w, y))
    ensures Minus(EXACT, Halved(EXACT, x), Turned(EXACT, w, y)) == Sub(Scale(0.5, x), Mul(w, y))
  {}

  lemma ExactFactor(table: seq<real>, logN: nat, j: nat)
    requires j + Pow2(logN) / 4 < |table|
    ensures Factor(EXACT, table, logN, j) == Scale(0.5, Twiddle(table, logN, j))
  {}

  /** The factor (wr, wi) the program reads for table index j. */
  function Twiddle(table: seq<real>, logN: nat, j: nat): Complex
    requires j + Pow2(logN) / 4 < |table|
  {
    Pair(table[j + Pow2(logN) / 4], -table[j])
  }

  // ----- the factors are powers of the conjugate root

  lemma RotateQuarter(z: Complex)
    ensures Mul(z, I).im == z.re
  {}

  lemma TwiddleIsPower(table: seq<real>, omega: Complex, logN: nat, j: nat)
    requires logN >= 2 && IsPrincipalRoot(omega, logN) && IsSineTable(table, omega, logN)
    requires j < Pow2(logN - 1)
    ensures j + Pow2(logN) / 4 < |table|
    ensures Twiddle(table, logN, j) == Pow(Conj(omega), j)
  {
    var quarter := Pow2(logN - 2);
    assert Pow2(logN) == 4 * quarter && Pow2(logN - 1) == 2 * quarter;
    hide Pow2, Pow, Mul;
    PowAdd(omega, j, quarter);
    RotateQuarter(Pow(omega, j));
    ConjPow(omega, j);
  }

  lemma ConjugateRoot(omega: Complex, logN: nat)
    requires logN >= 1 && IsPrincipalRoot(omega, logN)
    ensures Pow(Conj(omega), Pow2(logN)) == ONE
    ensures Pow(Conj(omega), Pow2(logN - 1)) == Neg(ONE)
  {
    hide Mul, Pow;
    ConjPowReal(omega, Pow2(logN));
    ConjPowReal(omega, Pow2(logN - 1));
  }

  lemma ConjPowReal(omega: Complex, e: nat)
    requires Pow(omega, e).im == 0.0
    ensures Pow(Conj(omega), e) == Pow(omega, e)
  {
    hide Mul, Pow;
    ConjPow(omega, e);
  }

  // ----- one stage joins transforms of l points into transforms of 2l points

  /** Point u of block b when blocks have l points. */
  function Spot(l: nat, b: nat, u: nat): nat {
    l * b + u
  }

  /** The exponent of the root for output u of a block of 2^s points. */
  function Turns(logN: nat, s: nat, u: nat): nat
    requires s <= logN
  {
    Pow2(logN - s) * u
  }

  /** Block q of 2^s points holds, divided by 2^s, the transform of the samples of x
      whose index is Rev(q) modulo 2^(m-s). */
  ghost predicate BlockHolds(w: Complex, logN: nat, m: nat, s: nat, x: seq<Complex>, d: seq<Complex>, q: nat, u: nat)
    requires s <= m <= logN
  {
    Scale(Pow2(s) as real, At(d, Spot(Pow2(s), q, u)))
      == StridedSum(w, x, Rev(m - s, q), Pow2(m - s), Turns(logN, s, u), Pow2(s))
  }

  ghost predicate AllBlocks(w: Complex, logN: nat, m: nat, s: nat, x: seq<Complex>, d: seq<Complex>)
    requires s <= m <= logN
  {
    forall q: nat, u: nat | q < Pow2(m - s) && u < Pow2(s) :: BlockHolds(w, logN, m, s, x, d, q, u)
  }

  lemma ButterflyAlgebra(l: real, a: Complex, b: Complex, w: Complex)
    ensures Scale(2.0 * l, Add(Scale(0.5, a), Mul(Scale(0.5, w), b))) == Add(Scale(l, a), Mul(w, Scale(l, b)))
    ensures Scale(2.0 * l, Sub(Scale(0.5, a), Mul(Scale(0.5, w), b))) == Add(Scale(l, a), Mul(Neg(w), Scale(l, b)))
  {
    HalvedProduct(l, w, b);
    HalvedSum(l, a, Mul(Scale(0.5, w), b));
    NegProduct(w, Scale(l, b));
  }

  lemma HalvedProduct(l: real, w: Complex, b: Complex)
    ensures Scale(2.0 * l, Mul(Scale(0.5, w), b)) == Mul(w, Scale(l, b))
  {
    assert 2.0 * l * (0.5 * w.re * b.re) == w.re * (l * b.re);
    assert 2.0 * l * (0.5 * w.im * b.im) == w.im * (l * b.im);
    assert 2.0 * l * (0.5 * w.re * b.im) == w.re * (l * b.im);
    assert 2.0 * l * (0.5 * w.im * b.re) == w.im * (l * b.re);
    Same(Scale(2.0 * l, Mul(Scale(0.5, w), b)), Mul(w, Scale(l, b)));
  }

  lemma HalvedSum(l: real, a: Complex, t: Complex)
    ensures Scale(2.0 * l, Add(Scale(0.5, a), t)) == Add(Scale(l, a), Scale(2.0 * l, t))
    ensures Scale(2.0 * l, Sub(Scale(0.5, a), t)) == Sub(Scale(l, a), Scale(2.0 * l, t))
  {
    assert 2.0 * l * (0.5 * a.re) == l * a.re && 2.0 * l * (0.5 * a.im) == l * a.im;
    Same(Scale(2.0 * l, Add(Scale(0.5, a), t)), Add(Scale(l, a), Scale(2.0 * l, t)));
    Same(Scale(2.0 * l, Sub(Scale(0.5, a), t)), Sub(Scale(l, a), Scale(2.0 * l, t)));
  }

  lemma NegProduct(w: Complex, b: Complex)
    ensures Mul(Neg(w), b) == Neg(Mul(w, b))
  {
    assert (-w.re) * b.re == -(w.re * b.re) && (-w.im) * b.im == -(w.im * b.im);
    assert (-w.re) * b.im == -(w.re * b.im) && (-w.im) * b.re == -(w.im * b.re);
    Same(Mul(Neg(w), b), Neg(Mul(w, b)));
  }

  lemma Spots(l: nat, q: nat, u: nat)
    ensures Spot(2 * l, q, u) == Spot(l, 2 * q, u) == 2 * l * q + u
    ensures Spot(2 * l, q, u + l) == Spot(l, 2 * q + 1, u) == Spot(2 * l, q, u) + l
  {
    Regroup(l, q, u);
  }

  /** The values at a butterfly's two positions after a stage, times 2l, in terms of those before,
      times l, and the twiddle power. */
  ghost predicate Butterflies(w: Complex, d: seq<Complex>, r: seq<Complex>, e: nat, l: nat, q: nat, u: nat) {
    var a, b := Scale(l as real, At(d, Spot(l, 2 * q, u))), Scale(l as real, At(d, Spot(l, 2 * q + 1, u)));
    && Scale((2 * l) as real, At(r, Spot(2 * l, q, u))) == Add(a, Mul(Pow(w, e), b))
    && Scale((2 * l) as real, At(r, Spot(2 * l, q, u + l))) == Add(a, Mul(Neg(Pow(w, e)), b))
  }

  lemma ButterflyValues(table: seq<real>, omega: Complex, logN: nat, m: nat, s: nat, d: seq<Complex>, q: nat, u: nat)
    requires s < m <= logN && logN >= 2 && |d| == Pow2(m)
    requires IsPrincipalRoot(omega, logN) && IsSineTable(table, omega, logN)
    requires q < Pow2(m - s - 1) && u < Pow2(s)
    requires |d| % Pow2(s + 1) == 0 && |table| == Pow2(logN) * 3 / 4
    ensures Butterflies(Conj(omega), d, Stage(EXACT, table, logN, s, d), Turns(logN, s + 1, u), Pow2(s), q, u)
  {
    hide Mul, Scale, Add, Sub, Pow, Stage, Twiddle, IsSineTable, IsPrincipalRoot, Butterflies;
    var l, e := Pow2(s), Turns(logN, s + 1, u);
    Spots(l, q, u);
    TwiddleInTable(logN, s, u);
    assert e == u * Pow2(logN - 1 - s);
    ExactWings(table, logN, m, s, d, q, u, Spot(2 * l, q, u), e);
    hide Pow2, Spot, Turns;
    TwiddleIsPower(table, omega, logN, e);
    ButterfliesAt(Conj(omega), d, Stage(EXACT, table, logN, s, d), e, l, q, u, Spot(2 * l, q, u));
  }

  lemma ButterfliesAt(w: Complex, d: seq<Complex>, r: seq<Complex>, e: nat, l: nat, q: nat, u: nat, i: nat)
    requires i == Spot(2 * l, q, u) && i + l < |d| == |r|
    requires r[i] == Add(Scale(0.5, d[i]), Mul(Scale(0.5, Pow(w, e)), d[i + l]))
    requires r[i + l] == Sub(Scale(0.5, d[i]), Mul(Scale(0.5, Pow(w, e)), d[i + l]))
    ensures Butterflies(w, d, r, e, l, q, u)
  {
    hide Scale, Add, Sub, Mul, Pow, Neg, Spot;
    ButterflyAlgebra(l as real, d[i], d[i + l], Pow(w, e));
    Spots(l, q, u);
    assert (2 * l) as real == 2.0 * (l as real);
  }

  /** The two outputs of butterfly u of block q, before halving is undone. */
  lemma ExactWings(table: seq<real>, logN: nat, m: nat, s: nat, d: seq<Complex>, q: nat, u: nat, i: nat, j: nat)
    requires s < m <= logN && |d| == Pow2(m) && |d| % Pow2(s + 1) == 0
    requires |table| == Pow2(logN) * 3 / 4 && q < Pow2(m - s - 1) && u < Pow2(s)
    requires i == 2 * Pow2(s) * q + u && j == u * Pow2(logN - 1 - s)
    ensures j + Pow2(logN) / 4 < |table| && i + Pow2(s) < |d|
    ensures var l, r, w := Pow2(s), Stage(EXACT, table, logN, s, d), Scale(0.5, Twiddle(table, logN, j));
      && r[i] == Add(Scale(0.5, d[i]), Mul(w, d[i + l]))
      && r[i + l] == Sub(Scale(0.5, d[i]), Mul(w, d[i + l]))
  {
    hide *;
    WingValues(EXACT, table, logN, m, s, d, q, u, i, j);
    ExactFactor(table, logN, j);
    ExactButterfly(Factor(EXACT, table, logN, j), d[i], d[i + Pow2(s)]);
  }

  lemma ExponentFacts(logN: nat, s: nat, u: nat)
    requires s < logN
    ensures Turns(logN, s, u) == 2 * Turns(logN, s + 1, u)
    ensures Turns(logN, s + 1, u + Pow2(s)) == Turns(logN, s + 1, u) + Pow2(logN - 1)
  {
    Pow2Add(logN - 1 - s, s);
    assert Pow2(logN - s) == 2 * Pow2(logN - 1 - s);
    hide Pow2;
    Distribute(Pow2(logN - 1 - s), u, Pow2(s));
  }

  lemma Distribute(g: nat, u: nat, l: nat)
    ensures (2 * g) * u == 2 * (g * u) && g * (u + l) == g * u + g * l
  {}

  /** The values a stage leaves at the two positions, in terms of the sums its inputs hold. */
  ghost predicate Joined(w: Complex, x: seq<Complex>, d: seq<Complex>, r: nat, st: nat, e: nat, l: nat, q: nat,
                         u: nat) {
    var even, odd := StridedSum(w, x, r, 2 * st, 2 * e, l), StridedSum(w, x, r + st, 2 * st, 2 * e, l);
    && Scale((2 * l) as real, At(d, Spot(2 * l, q, u))) == Add(even, Mul(Pow(w, e), odd))
    && Scale((2 * l) as real, At(d, Spot(2 * l, q, u + l))) == Add(even, Mul(Neg(Pow(w, e)), odd))
  }

  ghost predicate Inputs(w: Complex, x: seq<Complex>, d: seq<Complex>, r: nat, st: nat, e: nat, l: nat, q: nat,
                         u: nat) {
    && Scale(l as real, At(d, Spot(l, 2 * q, u))) == StridedSum(w, x, r, 2 * st, 2 * e, l)
    && Scale(l as real, At(d, Spot(l, 2 * q + 1, u))) == StridedSum(w, x, r + st, 2 * st, 2 * e, l)
  }

  lemma JoinedFrom(w: Complex, x: seq<Complex>, d: seq<Complex>, joined: seq<Complex>,
                   r: nat, st: nat, e: nat, l: nat, q: nat, u: nat)
    requires Inputs(w, x, d, r, st, e, l, q, u) && Butterflies(w, d, joined, e, l, q, u)
    ensures Joined(w, x, joined, r, st, e, l, q, u)
  {
    hide Mul, Scale, Add, Pow, Neg, StridedSum, At, Spot;
  }

  lemma StageValues(table: seq<real>, omega: Complex, logN: nat, m: nat, s: nat,
                    x: seq<Complex>, d: seq<Complex>, q: nat, u: nat)
    requires s < m <= logN && logN >= 2 && |d| == Pow2(m)
    requires IsPrincipalRoot(omega, logN) && IsSineTable(table, omega, logN)
    requires q < Pow2(m - s - 1) && u < Pow2(s)
    requires |d| % Pow2(s + 1) == 0
    requires BlockHolds(Conj(omega), logN, m, s, x, d, 2 * q, u)
    requires BlockHolds(Conj(omega), logN, m, s, x, d, 2 * q + 1, u)
    ensures Joined(Conj(omega), x, Stage(EXACT, table, logN, s, d), Rev(m - s - 1, q), Pow2(m - s - 1),
                   Turns(logN, s + 1, u), Pow2(s), q, u)
  {
    assert |table| == Pow2(logN) * 3 / 4;
    hide *;
    ButterflyValues(table, omega, logN, m, s, d, q, u);
    InputBlocks(Conj(omega), logN, m, s, x, d, q, u);
    JoinedFrom(Conj(omega), x, d, Stage(EXACT, table, logN, s, d), Rev(m - s - 1, q), Pow2(m - s - 1),
               Turns(logN, s + 1, u), Pow2(s), q, u);
  }

  lemma JoinLower(w: Complex, logN: nat, m: nat, s: nat, x: seq<Complex>, d: seq<Complex>, q: nat, u: nat)
    requires s < m <= logN
    requires Joined(w, x, d, Rev(m - s - 1, q), Pow2(m - s - 1), Turns(logN, s + 1, u), Pow2(s), q, u)
    ensures BlockHolds(w, logN, m, s + 1, x, d, q, u)
  {
    hide Mul, Scale, Add, Pow, StridedSum, BlockHolds, At, Rev, Pow2, Turns, Spot;
    EvenOddSplit(w, x, Rev(m - s - 1, q), Pow2(m - s - 1), Turns(logN, s + 1, u), Pow2(s));
    OutputBlock(w, logN, m, s, x, d, q, u);
  }

  lemma JoinUpper(w: Complex, logN: nat, m: nat, s: nat, x: seq<Complex>, d: seq<Complex>, q: nat, u: nat)
    requires s < m <= logN && Pow(w, Pow2(logN - 1)) == Neg(ONE) && Pow(w, 2 * Pow2(logN - 1)) == ONE
    requires Joined(w, x, d, Rev(m - s - 1, q), Pow2(m - s - 1), Turns(logN, s + 1, u), Pow2(s), q, u)
    ensures BlockHolds(w, logN, m, s + 1, x, d, q, u + Pow2(s))
  {
    hide Mul, Scale, Add, Pow, StridedSum, BlockHolds, At, Rev, Pow2, Turns, Spot;
    UpperSum(w, x, Rev(m - s - 1, q), Pow2(m - s - 1), Turns(logN, s + 1, u), Pow2(logN - 1), Pow2(s));
    ExponentFacts(logN, s, u);
    OutputBlock(w, logN, m, s, x, d, q, u + Pow2(s));
  }

  lemma JoinBlocks(table: seq<real>, omega: Complex, logN: nat, m: nat, s: nat,
                   x: seq<Complex>, d: seq<Complex>, q: nat, u: nat)
    requires s < m <= logN && logN >= 2 && |d| == Pow2(m)
    requires IsPrincipalRoot(omega, logN) && IsSineTable(table, omega, logN)
    requires q < Pow2(m - s - 1) && u < Pow2(s)
    requires |d| % Pow2(s + 1) == 0
    requires BlockHolds(Conj(omega), logN, m, s, x, d, 2 * q, u)
    requires BlockHolds(Conj(omega), logN, m, s, x, d, 2 * q + 1, u)
    ensures BlockHolds(Conj(omega), logN, m, s + 1, x, Stage(EXACT, table, logN, s, d), q, u)
    ensures BlockHolds(Conj(omega), logN, m, s + 1, x, Stage(EXACT, table, logN, s, d), q, u + Pow2(s))
  {
    StageValues(table, omega, logN, m, s, x, d, q, u);
    ConjugateRoot(omega, logN);
    assert Pow2(logN) == 2 * Pow2(logN - 1);
    hide *;
    JoinLower(Conj(omega), logN, m, s, x, Stage(EXACT, table, logN, s, d), q, u);
    JoinUpper(Conj(omega), logN, m, s, x, Stage(EXACT, table, logN, s, d), q, u);
  }

  /** What the two blocks that feed block q hold. */
  lemma InputBlocks(w: Complex, logN: nat, m: nat, s: nat, x: seq<Complex>, d: seq<Complex>, q: nat, u: nat)
    requires s < m <= logN
    requires BlockHolds(w, logN, m, s, x, d, 2 * q, u) && BlockHolds(w, logN, m, s, x, d, 2 * q + 1, u)
    ensures Inputs(w, x, d, Rev(m - s - 1, q), Pow2(m - s - 1), Turns(logN, s + 1, u), Pow2(s), q, u)
  {
    RevHalves(m - s - 1, q);
    ExponentFacts(logN, s, u);
    assert Pow2(m - s) == 2 * Pow2(m - s - 1);
    hide Scale, StridedSum, At, Rev, Pow2, Turns, Spot;
  }

  lemma OutputBlock(w: Complex, logN: nat, m: nat, s: nat, x: seq<Complex>, d: seq<Complex>, q: nat, v: nat)
    requires s < m <= logN
    requires Scale((2 * Pow2(s)) as real, At(d, Spot(2 * Pow2(s), q, v)))
      == StridedSum(w, x, Rev(m - s - 1, q), Pow2(m - s - 1), Turns(logN, s + 1, v), 2 * Pow2(s))
    ensures BlockHolds(w, logN, m, s + 1, x, d, q, v)
  {
    assert Pow2(s + 1) == 2 * Pow2(s);
    hide Scale, StridedSum, At, Rev, Pow2, Turns, Spot;
  }

  /** The upper half repeats both sums and negates the factor. */
  lemma UpperSum(w: Complex, x: seq<Complex>, r: nat, st: nat, e: nat, half: nat, l: nat)
    requires Pow(w, half) == Neg(ONE) && Pow(w, 2 * half) == ONE
    ensures StridedSum(w, x, r, st, e + half, 2 * l)
      == Add(StridedSum(w, x, r, 2 * st, 2 * e, l), Mul(Neg(Pow(w, e)), StridedSum(w, x, r + st, 2 * st, 2 * e, l)))
  {
    hide Mul, Add, Pow, StridedSum;
    EvenOddSplit(w, x, r, st, e + half, l);
    PeriodicExponent(w, x, r, 2 * st, 2 * e, 2 * half, l);
    PeriodicExponent(w, x, r + st, 2 * st, 2 * e, 2 * half, l);
    PowAdd(w, e, half);
    MulNegOne(Pow(w, e));
  }

  lemma MulNegOne(a: Complex)
    ensures Mul(a, Neg(ONE)) == Neg(a)
  {
    Same(Mul(a, Neg(ONE)), Neg(a));
  }

  lemma StageJoins(table: seq<real>, omega: Complex, logN: nat, m: nat, s: nat, x: seq<Complex>, d: seq<Complex>)
    requires s < m <= logN && logN >= 2 && |d| == Pow2(m) && |d| % Pow2(s + 1) == 0
    requires IsPrincipalRoot(omega, logN) && IsSineTable(table, omega, logN)
    requires AllBlocks(Conj(omega), logN, m, s, x, d)
    ensures AllBlocks(Conj(omega), logN, m, s + 1, x, Stage(EXACT, table, logN, s, d))
  {
    assert |table| == Pow2(logN) * 3 / 4;
    hide BlockHolds, Stage, IsPrincipalRoot, IsSineTable;
    var next, joined := s + 1, Stage(EXACT, table, logN, s, d);
    forall q: nat, v: nat | q < Pow2(m - next) && v < Pow2(next)
      ensures BlockHolds(Conj(omega), logN, m, next, x, joined, q, v)
    {
      JoinedBlock(table, omega, logN, m, s, x, d, q, v);
    }
  }

  lemma HalfIndex(s: nat, v: nat) returns (u: nat)
    requires v < Pow2(s + 1)
    ensures u < Pow2(s) && (v == u || v == u + Pow2(s))
  {
    u := if v < Pow2(s) then v else v - Pow2(s);
  }

  lemma FeedingBlocks(w: Complex, logN: nat, m: nat, s: nat, x: seq<Complex>, d: seq<Complex>, q: nat, u: nat)
    requires s < m <= logN && AllBlocks(w, logN, m, s, x, d) && q < Pow2(m - s - 1) && u < Pow2(s)
    ensures BlockHolds(w, logN, m, s, x, d, 2 * q, u) && BlockHolds(w, logN, m, s, x, d, 2 * q + 1, u)
  {
    assert Pow2(m - s) == 2 * Pow2(m - s - 1);
    hide BlockHolds, Pow2;
  }

  /** Block q of the joined ones at v, in the lower or in the upper half. */
  lemma JoinedBlock(table: seq<real>, omega: Complex, logN: nat, m: nat, s: nat, x: seq<Complex>, d: seq<Complex>,
                    q: nat, v: nat)
    requires s < m <= logN && logN >= 2 && |d| == Pow2(m) && |d| % Pow2(s + 1) == 0
    requires IsPrincipalRoot(omega, logN) && IsSineTable(table, omega, logN)
    requires AllBlocks(Conj(omega), logN, m, s, x, d) && q < Pow2(m - s - 1) && v < Pow2(s + 1)
    requires |table| == Pow2(logN) * 3 / 4
    ensures BlockHolds(Conj(omega), logN, m, s + 1, x, Stage(EXACT, table, logN, s, d), q, v)
  {
    hide *;
    var u := HalfIndex(s, v);
    FeedingBlocks(Conj(omega), logN, m, s, x, d, q, u);
    JoinBlocks(table, omega, logN, m, s, x, d, q, u);
  }

  lemma {:induction false} StagesJoin(table: seq<real>, omega: Complex, logN: nat, m: nat, s: nat,
                                     x: seq<Complex>, d: seq<Complex>)
    requires s <= m <= logN && logN >= 2 && |d| == Pow2(m)
    requires IsPrincipalRoot(omega, logN) && IsSineTable(table, omega, logN)
    requires AllBlocks(Conj(omega), logN, m, s, x, d)
    ensures AllBlocks(Conj(omega), logN, m, m, x, Stages(EXACT, table, logN, m, s, d))
    decreases m - s
  {
    hide AllBlocks, Stage, IsPrincipalRoot;
    if s < m {
      StageDivides(m, s);
      StageJoins(table, omega, logN, m, s, x, d);
      StagesJoin(table, omega, logN, m, s + 1, x, Stage(EXACT, table, logN, s, d));
    }
  }

  lemma SinglePoint(w: Complex, x: seq<Complex>, off: nat, st: nat, e: nat)
    ensures StridedSum(w, x, off, st, e, 1) == At(x, off)
  {
    MulUnits(At(x, off));
    assert StridedSum(w, x, off, st, e, 0) == ZERO;
    assert st * 0 == 0 && e * 0 == 0;
  }

  lemma ReversedBlocks(w: Complex, logN: nat, m: nat, x: seq<Complex>)
    requires m <= logN && |x| == Pow2(m)
    ensures AllBlocks(w, logN, m, 0, x, BitReversed(m, x))
  {
    forall q: nat, u: nat | q < Pow2(m) && u < Pow2(0)
      ensures BlockHolds(w, logN, m, 0, x, BitReversed(m, x), q, u)
    {
      RevBound(m, q);
      SinglePoint(w, x, Rev(m, q), Pow2(m), Turns(logN, 0, u));
    }
  }

  // ----- the theorem

  /** r is the DFT of p divided by its length 2^m, in natural order, for the 2^m-th root
      exp(-2 pi i / 2^m). */
  ghost predicate IsScaledDft(omega: Complex, logN: nat, m: nat, p: seq<Complex>, r: seq<Complex>)
    requires m <= logN && |p| == |r| == Pow2(m)
  {
    forall k | 0 <= k < |p| ::
      Scale(Pow2(m) as real, r[k]) == Coefficient(Pow(Conj(omega), Pow2(logN - m)), p, k)
  }

  lemma NetworkIsDft(table: seq<real>, omega: Complex, logN: nat, m: nat, p: seq<Complex>)
    requires m <= logN && |p| == Pow2(m)
    requires IsPrincipalRoot(omega, logN) && IsSineTable(table, omega, logN)
    requires logN != 1 || m == 0
    ensures IsScaledDft(omega, logN, m, p, Network(EXACT, table, logN, m, p))
  {
    hide Mul, Pow, Add, Scale, IsPrincipalRoot;
    var w, r := Conj(omega), Network(EXACT, table, logN, m, p);
    ReversedBlocks(w, logN, m, p);
    if logN >= 2 {
      StagesJoin(table, omega, logN, m, 0, p, BitReversed(m, p));
    }
    forall k | 0 <= k < |p|
      ensures Scale(Pow2(m) as real, r[k]) == Coefficient(Pow(w, Pow2(logN - m)), p, k)
    {
      assert BlockHolds(w, logN, m, m, p, r, 0, k);
      assert Pow2(0) == 1 && Rev(0, 0) == 0 && Pow2(m) * 0 + k == k;
      StridedSumIsDftSum(w, p, Pow2(logN - m), k, |p|);
    }
  }

  /** With a two-entry wave the cosine is read from table[0], the sine of 0. */
  lemma TwoPointNetwork(table: seq<real>, omega: Complex, p: seq<Complex>)
    requires |p| == 2 && IsSineTable(table, omega, 1)
    ensures Pow2(1) == 2
    ensures Network(EXACT, table, 1, 1, p) == [Scale(0.5, p[0]), Scale(0.5, p[0])]
  {
    assert Pow2(1) == 2 && Pow2(0) == 1;
    assert Rev(1, 0) == 0 && Rev(1, 1) == 1;
    var d := BitReversed(1, p);
    assert d == p;
    assert table[0] == Pow(omega, 0).im == 0.0;
    StageDivides(1, 0);
    var r := Stage(EXACT, table, 1, 0, d);
    assert Twiddle(table, 1, 0) == ZERO == Scale(0.5, ZERO);
    MulUnits(p[1]);
    assert Add(Scale(0.5, p[0]), ZERO) == Scale(0.5, p[0]) == Sub(Scale(0.5, p[0]), ZERO);
    hide Mul, Add, Sub, Scale, Pow;
    assert Wing(EXACT, table, 1, 0, d, 0) == Scale(0.5, p[0]);
    assert Wing(EXACT, table, 1, 0, d, 1) == Scale(0.5, p[0]);
    assert Network(EXACT, table, 1, 1, p) == Stages(EXACT, table, 1, 1, 0, d) == Stages(EXACT, table, 1, 1, 1, r) == r;
  }

  lemma ImpulseCoefficient(root: Complex)
    ensures Coefficient(root, [ZERO, ONE], 0) == ONE
  {
    var p := [ZERO, ONE];
    hide Mul, Add, Scale, ZERO;
    assert Pow(root, 0) == ONE;
    MulUnits(ONE);
    AddZero(ZERO);
    AddZero(ONE);
    assert DftSum(root, p, 0, 0) == ZERO;
    assert DftSum(root, p, 0, 1) == Add(ZERO, Mul(ZERO, ONE));
    assert DftSum(root, p, 0, 2) == Add(DftSum(root, p, 0, 1), Mul(ONE, ONE));
  }

  lemma AddZero(a: Complex)
    ensures Add(ZERO, a) == a && Scale(2.0, Scale(0.5, a)) == a
  {}

  lemma TwoPointFails(table: seq<real>, omega: Complex)
    requires IsSineTable(table, omega, 1)
    ensures Pow2(1) == 2
    ensures !IsScaledDft(omega, 1, 1, [ZERO, ONE], Network(EXACT, table, 1, 1, [ZERO, ONE]))
  {
    hide Mul, Add, Scale, Pow, Coefficient;
    var p := [ZERO, ONE];
    TwoPointNetwork(table, omega, p);
    var r := Network(EXACT, table, 1, 1, p);
    ImpulseCoefficient(Pow(Conj(omega), Pow2(0)));
    AddZero(ZERO);
    assert Scale(Pow2(1) as real, r[0]) != Coefficient(Pow(Conj(omega), Pow2(0)), p, 0);
  }

  /** The claim "fix_fft is the DFT" holds for every input exactly when the wave does not
      have two entries or the transform is trivial. */
  lemma NetworkIsDftIff(table: seq<real>, omega: Complex, logN: nat, m: nat)
    requires m <= logN
    requires IsPrincipalRoot(omega, logN) && IsSineTable(table, omega, logN)
    ensures (forall p: seq<Complex> | |p| == Pow2(m) ::
               IsScaledDft(omega, logN, m, p, Network(EXACT, table, logN, m, p)))
            <==> (logN != 1 || m == 0)
  {
    hide Network, IsScaledDft, Pow, Mul, Add, Scale, IsPrincipalRoot;
    if logN != 1 || m == 0 {
      forall p: seq<Complex> | |p| == Pow2(m)
        ensures IsScaledDft(omega, logN, m, p, Network(EXACT, table, logN, m, p))
      {
        NetworkIsDft(table, omega, logN, m, p);
      }
    } else {
      TwoPointFails(table, omega);
    }
  }
}
