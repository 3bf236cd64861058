/** fix_fft in its own 16-bit arithmetic: how far its output is from the exact transform. */
module FixedPoint {
  import opened BitReversal
  import opened CArith
  import opened Reals
  import opened Pairs
  import opened ComplexNumbers
  import opened Modulus
  import opened ButterflyNetwork
  import opened FftNetwork
  import opened FixFft

  /** FIX_MPY before the result is stored: the product times 2^-15, rounded to nearest. */
  function Rounded(a: int, b: int): int {
    var c := Shr(a * b, 14);
    Shr(c, 1) + c % 2
  }

  function FixMpy(a: int, b: int): int {
    ToInt16(Rounded(a, b))
  }

  predicate Int16(x: int) {
    -32768 <= x < 32768
  }

  lemma RoundedError(a: int, b: int)
    ensures -16384 < 32768 * Rounded(a, b) - a * b <= 16384
  {
    var p := a * b;
    assert Pow2(14) == 16384 && Pow2(1) == 2;
    HalfUp(p);
  }

  lemma HalfUp(p: int)
    ensures -16384 < 32768 * (p / 16384 / 2 + p / 16384 % 2) - p <= 16384
  {}

  lemma ProductRange(a: int, b: int)
    requires Int16(a) && Int16(b)
    ensures -32768 * 32768 < a * b <= 32768 * 32768
    ensures a * b > 32768 * 32767 + 16383 ==> a == -32768 && b == -32768
  {
    var x, y := if a < 0 then -a else a, if b < 0 then -b else b;
    assert a * b == x * y || a * b == -(x * y);
    MulNonNegative(x, 32768 - y);
    MulNonNegative(32768, 32768 - x);
    if x < 32768 { MulNonNegative(32767 - x, y); }
    if y < 32768 { MulNonNegative(x, 32767 - y); }
  }

  /** FIX_MPY rounds to nearest for all pairs of samples but -32768 with itself, whose product wraps. */
  lemma FixMpyIff(a: int, b: int)
    requires Int16(a) && Int16(b)
    ensures -16384 <= 32768 * FixMpy(a, b) - a * b <= 16384 <==> !(a == -32768 && b == -32768)
    ensures !(a == -32768 && b == -32768) ==> FixMpy(a, b) == Rounded(a, b)
  {
    RoundedError(a, b);
    ProductRange(a, b);
    hide Rounded;
    if a == -32768 && b == -32768 {
      assert Rounded(a, b) == 32768;
    }
  }

  const INT16: Arith<int> :=
    Arith(x => Shr(x, 1), x => ToInt16(-x), (x, y) => FixMpy(x, y), (x, y) => ToInt16(x + y), (x, y) => ToInt16(x - y))

  /** A pair of samples as a complex number. */
  function R(x: Pair<int>): Complex {
    Pair(x.re as real, x.im as real)
  }

  const UNIT: real := 1.0 / 32768.0

  /** Halving by a shift is off by at most half a unit in each component. */
  lemma HalfError(x: Pair<int>)
    ensures Within(R(Halved(INT16, x)), Scale(0.5, R(x)), 0.71)
  {
    assert Pow2(1) == 2;
    FromComponents(Sub(R(Halved(INT16, x)), Scale(0.5, R(x))), 0.5, 0.71);
  }

  /** The product with the factor before it is stored. */
  function RawTurned(w: Pair<int>, y: Pair<int>): Pair<int> {
    Pair(Rounded(w.re, y.re) - Rounded(w.im, y.im), Rounded(w.re, y.im) + Rounded(w.im, y.re))
  }

  lemma ScaledError(r1: int, r2: int, a: int, b: int, c: int, d: int)
    requires -16384 <= 32768 * r1 - a * b <= 16384 && -16384 <= 32768 * r2 - c * d <= 16384
    ensures -1.0 <= (r1 - r2) as real - ((UNIT * a as real) * b as real - (UNIT * c as real) * d as real) <= 1.0
    ensures -1.0 <= (r1 + r2) as real - ((UNIT * a as real) * b as real + (UNIT * c as real) * d as real) <= 1.0
  {
    var x, y := (a * b) as real, (c * d) as real;
    CastProduct(a, b);
    CastProduct(c, d);
    assert 32768.0 * ((UNIT * a as real) * b as real) == x && 32768.0 * ((UNIT * c as real) * d as real) == y;
    assert -16384.0 <= 32768.0 * r1 as real - x <= 16384.0 && -16384.0 <= 32768.0 * r2 as real - y <= 16384.0;
  }

  /** Four rounded products make at most one unit in each component. */
  lemma TurnError(w: Pair<int>, y: Pair<int>)
    ensures Within(R(RawTurned(w, y)), Mul(Scale(UNIT, R(w)), R(y)), 1.42)
  {
    RoundedError(w.re, y.re);
    RoundedError(w.im, y.im);
    RoundedError(w.re, y.im);
    RoundedError(w.im, y.re);
    hide Rounded;
    ScaledError(Rounded(w.re, y.re), Rounded(w.im, y.im), w.re, y.re, w.im, y.im);
    ScaledError(Rounded(w.re, y.im), Rounded(w.im, y.re), w.re, y.im, w.im, y.re);
    FromComponents(Sub(R(RawTurned(w, y)), Mul(Scale(UNIT, R(w)), R(y))), 1.0, 1.42);
  }

  /** The factor is half the exact one in units of 2^-15, but for rounding in the table. */
  predicate IsFactor(wi: Pair<int>, w: Complex) {
    && -1.25 <= wi.re as real - 16384.0 * w.re <= 1.25
    && -1.25 <= wi.im as real - 16384.0 * w.im <= 1.25
  }

  lemma FactorError(wi: Pair<int>, w: Complex)
    requires IsFactor(wi, w)
    ensures Within(Scale(UNIT, R(wi)), Scale(0.5, w), UNIT * 1.77)
  {
    var d := Sub(R(wi), Scale(16384.0, w));
    FromComponents(d, 1.25, 1.77);
    ScaleAtMost(UNIT, d, 1.77);
    assert Scale(UNIT, d) == Sub(Scale(UNIT, R(wi)), Scale(0.5, w));
  }

  lemma InRange(x: int, b: real)
    requires -b <= x as real <= b && b <= 32767.0
    ensures Int16(x) && x != -32768 && ToInt16(x) == x
  {}

  lemma PairInRange(x: Pair<int>, b: real)
    requires AtMost(R(x), b) && b <= 32767.0
    ensures Int16(x.re) && Int16(x.im) && x.re != -32768 && x.im != -32768
    ensures ToInt16(x.re) == x.re && ToInt16(x.im) == x.im
  {
    Components(R(x), b);
    InRange(x.re, b);
    InRange(x.im, b);
  }

  /** While the raw product is small nothing wraps. */
  lemma TurnDoesNotWrap(w: Pair<int>, y: Pair<int>, b: real)
    requires Int16(w.re) && Int16(w.im) && Int16(y.re) && Int16(y.im) && y.re != -32768 && y.im != -32768
    requires AtMost(R(RawTurned(w, y)), b) && b <= 32767.0
    ensures Turned(INT16, w, y) == RawTurned(w, y)
  {
    FixMpyIff(w.re, y.re);
    FixMpyIff(w.im, y.im);
    FixMpyIff(w.re, y.im);
    FixMpyIff(w.im, y.re);
    hide FixMpy, Rounded;
    PairInRange(RawTurned(w, y), b);
  }

  lemma FactorInRange(wi: Pair<int>, w: Complex)
    requires IsFactor(wi, w) && AtMost(w, 1.0)
    ensures Int16(wi.re) && Int16(wi.im)
  {
    Components(w, 1.0);
  }

  /** The samples of one butterfly near exact values: x and y within e, all of modulus at most b. */
  ghost predicate Tracked(xi: Pair<int>, x: Complex, e: real, b: real) {
    Within(R(xi), x, e) && AtMost(x, b)
  }

  lemma TrackedInRange(xi: Pair<int>, x: Complex, e: real, b: real)
    requires Tracked(xi, x, e, b) && e + b <= 32767.0
    ensures AtMost(R(xi), e + b)
    ensures Int16(xi.re) && Int16(xi.im) && xi.re != -32768 && xi.im != -32768
  {
    WithinAtMost(R(xi), x, e, b);
    PairInRange(xi, e + b);
  }

  lemma HalfTracked(xi: Pair<int>, x: Complex, e: real, b: real)
    requires Tracked(xi, x, e, b)
    ensures Within(R(Halved(INT16, xi)), Scale(0.5, x), 0.71 + 0.5 * e) && AtMost(Scale(0.5, x), 0.5 * b)
  {
    HalfError(xi);
    ScaleWithin(0.5, R(xi), x, e);
    ScaleAtMost(0.5, x, b);
    hide Within, AtMost, Norm2, Scale, Sub, Halved, R;
    Chain(R(Halved(INT16, xi)), Scale(0.5, R(xi)), Scale(0.5, x), 0.71, 0.5 * e);
  }

  lemma TurnTracked(wi: Pair<int>, w: Complex, yi: Pair<int>, y: Complex, e: real, b: real)
    requires IsFactor(wi, w) && AtMost(w, 1.0) && Tracked(yi, y, e, b) && e >= 0.0 && b >= 0.0 && e + b <= 32763.0
    ensures Within(R(Turned(INT16, wi, yi)), Mul(Scale(0.5, w), y), 3.19 + 0.5 * e)
    ensures AtMost(Mul(Scale(0.5, w), y), 0.5 * b)
  {
    var half, raw := Scale(0.5, w), R(RawTurned(wi, yi));
    var turned := Mul(Scale(UNIT, R(wi)), R(yi));
    TrackedInRange(yi, y, e, b);
    TurnError(wi, yi);
    FactorError(wi, w);
    Loosen(R(yi), e + b, 32768.0);
    FactorWithin(Scale(UNIT, R(wi)), half, R(yi), UNIT * 1.77, 32768.0);
    assert UNIT * 1.77 * 32768.0 == 1.77;
    ScaleAtMost(0.5, w, 1.0);
    ProductWithin(half, R(yi), y, 0.5, e);
    ProductAtMost(half, y, 0.5, b);
    FactorInRange(wi, w);
    hide *;
    Chain(raw, turned, Mul(half, R(yi)), 1.42, 1.77);
    Chain(raw, Mul(half, R(yi)), Mul(half, y), 3.19, 0.5 * e);
    WithinAtMost(raw, Mul(half, y), 3.19 + 0.5 * e, 0.5 * b);
    TurnDoesNotWrap(wi, yi, 3.19 + 0.5 * e + 0.5 * b);
  }

  /** One butterfly adds at most four units to the error and nothing to the modulus. */
  lemma ButterflyError(wi: Pair<int>, w: Complex, xi: Pair<int>, x: Complex, yi: Pair<int>, y: Complex, e: real,
                       b: real)
    requires IsFactor(wi, w) && AtMost(w, 1.0) && e >= 0.0 && b >= 0.0 && e + 4.0 + b <= 32767.0
    requires Tracked(xi, x, e, b) && Tracked(yi, y, e, b)
    ensures var h, t := Halved(INT16, xi), Turned(INT16, wi, yi);
      && Tracked(Plus(INT16, h, t), Add(Scale(0.5, x), Mul(Scale(0.5, w), y)), e + 4.0, b)
      && Tracked(Minus(INT16, h, t), Sub(Scale(0.5, x), Mul(Scale(0.5, w), y)), e + 4.0, b)
  {
    HalfTracked(xi, x, e, b);
    TurnTracked(wi, w, yi, y, e, b);
    hide *;
    Combine(Halved(INT16, xi), Turned(INT16, wi, yi), Scale(0.5, x), Mul(Scale(0.5, w), y), e, b);
  }

  lemma Combine(h: Pair<int>, t: Pair<int>, q: Complex, p: Complex, e: real, b: real)
    requires Within(R(h), q, 0.71 + 0.5 * e) && Within(R(t), p, 3.19 + 0.5 * e)
    requires AtMost(q, 0.5 * b) && AtMost(p, 0.5 * b) && e + 4.0 + b <= 32767.0
    ensures Tracked(Plus(INT16, h, t), Add(q, p), e + 4.0, b) && Tracked(Minus(INT16, h, t), Sub(q, p), e + 4.0, b)
  {
    hide Within, AtMost, Norm2, Add, Sub, Plus, Minus, R;
    SumWithin(R(h), R(t), q, p, 0.71 + 0.5 * e, 3.19 + 0.5 * e);
    WithinLoosen(Add(R(h), R(t)), Add(q, p), 0.71 + 0.5 * e + (3.19 + 0.5 * e), e + 4.0);
    WithinLoosen(Sub(R(h), R(t)), Sub(q, p), 0.71 + 0.5 * e + (3.19 + 0.5 * e), e + 4.0);
    Triangle(q, p, 0.5 * b, 0.5 * b);
    TriangleSub(q, p, 0.5 * b, 0.5 * b);
    WithinAtMost(Add(R(h), R(t)), Add(q, p), e + 4.0, b);
    WithinAtMost(Sub(R(h), R(t)), Sub(q, p), e + 4.0, b);
    StoredSum(h, t, e + 4.0 + b);
  }

  lemma StoredSum(h: Pair<int>, t: Pair<int>, b: real)
    requires AtMost(Add(R(h), R(t)), b) && AtMost(Sub(R(h), R(t)), b) && b <= 32767.0
    ensures R(Plus(INT16, h, t)) == Add(R(h), R(t)) && R(Minus(INT16, h, t)) == Sub(R(h), R(t))
  {
    PairInRange(Pair(h.re + t.re, h.im + t.im), b);
    PairInRange(Pair(h.re - t.re, h.im - t.im), b);
  }

  // ----- the table

  /** The program's table: the exact entries times 32767, rounded to the nearest integer. */
  predicate IsRoundedTable(wave: seq<int>, table: seq<real>) {
    |wave| == |table| && forall i | 0 <= i < |wave| :: -0.5 <= wave[i] as real - 32767.0 * table[i] <= 0.5
  }

  lemma UnitRootOf(omega: Complex, logN: nat)
    requires IsPrincipalRoot(omega, logN)
    ensures Norm2(omega) == 1.0 && Norm2(Conj(omega)) == 1.0
  {
    UnitRoot(omega, Pow2(logN));
  }

  lemma EntryInRange(table: seq<real>, omega: Complex, logN: nat, i: nat)
    requires IsPrincipalRoot(omega, logN) && IsSineTable(table, omega, logN) && i < |table|
    ensures -1.0 <= table[i] <= 1.0
  {
    UnitRootOf(omega, logN);
    UnitPower(omega, i);
    Components(Pow(omega, i), 1.0);
  }

  lemma TwiddleAtMost(table: seq<real>, omega: Complex, logN: nat, j: nat)
    requires IsPrincipalRoot(omega, logN) && IsSineTable(table, omega, logN)
    requires logN >= 1 && j < Pow2(logN - 1) && j + Pow2(logN) / 4 < |table|
    ensures AtMost(Twiddle(table, logN, j), 1.0)
  {
    if logN >= 2 {
      TwiddleIsPower(table, omega, logN, j);
      UnitRootOf(omega, logN);
      UnitPower(Conj(omega), j);
    } else {
      assert Pow2(1) == 2 && Pow2(0) == 1;
      assert table[0] == Pow(omega, 0).im == 0.0;
    }
  }

  lemma HalvedEntry(v: int, exact: real)
    requires -0.5 <= v as real - 32767.0 * exact <= 0.5 && -1.0 <= exact <= 1.0
    ensures -1.25 <= Shr(v, 1) as real - 16384.0 * exact <= 1.25
    ensures ToInt16(-v) == -v
  {
    assert Pow2(1) == 2;
  }

  lemma FactorOfTable(wave: seq<int>, table: seq<real>, omega: Complex, logN: nat, j: nat)
    requires IsPrincipalRoot(omega, logN) && IsSineTable(table, omega, logN) && IsRoundedTable(wave, table)
    requires j + Pow2(logN) / 4 < |table|
    ensures IsFactor(Factor(INT16, wave, logN, j), Twiddle(table, logN, j))
  {
    var c := j + Pow2(logN) / 4;
    EntryInRange(table, omega, logN, c);
    EntryInRange(table, omega, logN, j);
    HalvedEntry(wave[c], table[c]);
    HalvedEntry(wave[j], table[j]);
    HalvedEntry(-wave[j], -table[j]);
  }

  // ----- the stages

  ghost predicate AllTracked(p: seq<Pair<int>>, d: seq<Complex>, e: real, b: real) {
    |p| == |d| && forall t | 0 <= t < |p| :: Tracked(p[t], d[t], e, b)
  }

  ghost predicate Tables(wave: seq<int>, table: seq<real>, omega: Complex, logN: nat) {
    && IsPrincipalRoot(omega, logN) && IsSineTable(table, omega, logN) && IsRoundedTable(wave, table)
  }

  lemma WingError(wave: seq<int>, table: seq<real>, omega: Complex, logN: nat, s: nat,
                  p: seq<Pair<int>>, d: seq<Complex>, e: real, b: real, t: nat)
    requires Tables(wave, table, omega, logN) && s < logN && |table| == Pow2(logN) * 3 / 4 == |wave|
    requires AllTracked(p, d, e, b) && t < |p| && |p| % Pow2(s + 1) == 0
    requires e >= 0.0 && b >= 0.0 && e + 4.0 + b <= 32767.0
    ensures Tracked(Wing(INT16, wave, logN, s, p, t), Wing(EXACT, table, logN, s, d, t), e + 4.0, b)
  {
    hide Plus, Minus, Halved, Turned, Factor, Add, Sub, Scale, Mul, Twiddle, Tracked, IsFactor, AtMost;
    hide IsPrincipalRoot, IsSineTable, IsRoundedTable;
    var l := Pow2(s);
    TwiddleInTable(logN, s, t % l);
    PartnerInRange(t, l, |p|);
    var j := (t % l) * Pow2(logN - 1 - s);
    FactorOfTable(wave, table, omega, logN, j);
    TwiddleAtMost(table, omega, logN, j);
    var wi, w, f := Factor(INT16, wave, logN, j), Twiddle(table, logN, j), Factor(EXACT, table, logN, j);
    ExactFactor(table, logN, j);
    if t % (2 * l) < l {
      ExactButterfly(f, d[t], d[t + l]);
      ButterflyError(wi, w, p[t], d[t], p[t + l], d[t + l], e, b);
    } else {
      ExactButterfly(f, d[t - l], d[t]);
      ButterflyError(wi, w, p[t - l], d[t - l], p[t], d[t], e, b);
    }
  }

  lemma StageError(wave: seq<int>, table: seq<real>, omega: Complex, logN: nat, s: nat,
                   p: seq<Pair<int>>, d: seq<Complex>, e: real, b: real)
    requires Tables(wave, table, omega, logN) && s < logN && |table| == Pow2(logN) * 3 / 4 == |wave|
    requires AllTracked(p, d, e, b) && |p| % Pow2(s + 1) == 0
    requires e >= 0.0 && b >= 0.0 && e + 4.0 + b <= 32767.0
    ensures AllTracked(Stage(INT16, wave, logN, s, p), Stage(EXACT, table, logN, s, d), e + 4.0, b)
  {
    hide Wing, Tracked, Tables;
    var x, y := Stage(INT16, wave, logN, s, p), Stage(EXACT, table, logN, s, d);
    forall t | 0 <= t < |x| ensures Tracked(x[t], y[t], e + 4.0, b) {
      WingError(wave, table, omega, logN, s, p, d, e, b, t);
    }
  }

  lemma {:induction false} StagesError(wave: seq<int>, table: seq<real>, omega: Complex, logN: nat, m: nat, s: nat,
                                       p: seq<Pair<int>>, d: seq<Complex>, e: real, b: real)
    requires Tables(wave, table, omega, logN) && s <= m <= logN && |table| == Pow2(logN) * 3 / 4 == |wave|
    requires AllTracked(p, d, e, b) && |p| == Pow2(m)
    requires e >= 0.0 && b >= 0.0 && e + 4.0 * (m - s) as real + b <= 32767.0
    ensures |d| == |p|
    ensures AllTracked(Stages(INT16, wave, logN, m, s, p), Stages(EXACT, table, logN, m, s, d),
                       e + 4.0 * (m - s) as real, b)
    decreases m - s
  {
    hide Stage, Tracked, Tables;
    if s < m {
      StageDivides(m, s);
      StageError(wave, table, omega, logN, s, p, d, e, b);
      var x, y := Stage(INT16, wave, logN, s, p), Stage(EXACT, table, logN, s, d);
      StagesError(wave, table, omega, logN, m, s + 1, x, y, e + 4.0, b);
    }
  }

  function Exact(p: seq<Pair<int>>): (d: seq<Complex>)
    ensures |d| == |p|
    ensures forall t | 0 <= t < |p| :: d[t] == R(p[t])
  {
    seq(|p|, t requires 0 <= t < |p| => R(p[t]))
  }

  lemma ReversedTracked(m: nat, p: seq<Pair<int>>, b: real)
    requires |p| == Pow2(m) && b >= 0.0 && forall t | 0 <= t < |p| :: AtMost(R(p[t]), b)
    ensures AllTracked(BitReversed(m, p), BitReversed(m, Exact(p)), 0.0, b)
  {
    var x, y := BitReversed(m, p), BitReversed(m, Exact(p));
    forall t: nat | t < |p| ensures Tracked(x[t], y[t], 0.0, b) {
      RevBound(m, t);
      var i := Rev(m, t);
      assert x[t] == p[i] && y[t] == R(p[i]);
    }
  }

  /** fix_fft in 16-bit arithmetic: for input points of modulus at most b, with b + 4m within the
      sample range, every output is within 4m units of the exact transform divided by n. */
  lemma FixedPointAccuracy(wave: seq<int>, table: seq<real>, omega: Complex, logN: nat, m: nat, p: seq<Pair<int>>,
                           b: real)
    requires Tables(wave, table, omega, logN) && m <= logN && |table| == Pow2(logN) * 3 / 4 == |wave|
    requires |p| == Pow2(m) && b >= 0.0 && b + 4.0 * m as real <= 32767.0
    requires forall t | 0 <= t < |p| :: AtMost(R(p[t]), b)
    ensures var r, out := Network(EXACT, table, logN, m, Exact(p)), Network(INT16, wave, logN, m, p);
      && (forall k | 0 <= k < |p| :: Within(R(out[k]), r[k], 4.0 * m as real))
      && (logN != 1 || m == 0 ==> IsScaledDft(omega, logN, m, Exact(p), r))
  {
    hide Stages, AtMost, BitReversed, IsScaledDft;
    ReversedTracked(m, p, b);
    StagesError(wave, table, omega, logN, m, 0, BitReversed(m, p), BitReversed(m, Exact(p)), 0.0, b);
    if logN != 1 || m == 0 {
      NetworkIsDft(table, omega, logN, m, Exact(p));
    }
  }

  /** The in-place program in its own arithmetic, for a table of rounded sines: the output is the
      transform divided by n but for 4m units. */
  method Int16FixFft(iq: array<int>, m: nat, sinewave: seq<int>, logN: nat,
                     ghost table: seq<real>, ghost omega: Complex, ghost b: real) returns (r: int)
    requires Tables(sinewave, table, omega, logN) && |table| == Pow2(logN) * 3 / 4
    requires m <= logN ==> 2 * Pow2(m) <= iq.Length
    requires m <= logN ==> b >= 0.0 && b + 4.0 * m as real <= 32767.0
    requires m <= logN ==> forall t | 0 <= t < Pow2(m) :: AtMost(R(Point(iq[..], t)), b)
    modifies iq
    ensures m > logN ==> r == -1 && iq[..] == old(iq[..])
    ensures m <= logN ==> r == 0 && iq[2 * Pow2(m)..] == old(iq[2 * Pow2(m)..])
    ensures m <= logN ==>
      var p := Exact(old(Points(iq[..], Pow2(m))));
      var exact := Network(EXACT, table, logN, m, p);
      && (forall k | 0 <= k < Pow2(m) :: Within(R(Point(iq[..], k)), exact[k], 4.0 * m as real))
      && (logN != 1 || m == 0 ==> IsScaledDft(omega, logN, m, p, exact))
  {
    hide Network, AtMost, IsScaledDft;
    if m <= logN {
      ghost var p := Points(iq[..], Pow2(m));
      assert forall t | 0 <= t < |p| :: AtMost(R(p[t]), b);
      FixedPointAccuracy(sinewave, table, omega, logN, m, p, b);
    }
    r := FixFft.FixFft(INT16, iq, m, sinewave, logN);
  }

  // ----- what the operations are

  /** `>>= 1` on a sample rounds down, also below zero. */
  lemma HalfRoundsDown(x: int)
    ensures 2 * INT16.half(x) <= x <= 2 * INT16.half(x) + 1
  {
    assert Pow2(1) == 2;
  }

  /** Stored sums, differences and negations keep the low 16 bits; FIX_MPY rounds to nearest, ties up. */
  lemma StoredOperations(x: int, y: int)
    ensures Int16(INT16.neg(x)) && (INT16.neg(x) - (-x)) % 65536 == 0
    ensures Int16(INT16.add(x, y)) && (INT16.add(x, y) - (x + y)) % 65536 == 0
    ensures Int16(INT16.sub(x, y)) && (INT16.sub(x, y) - (x - y)) % 65536 == 0
    ensures Int16(x) && Int16(y) ==>
      if x == y == -32768 then INT16.mpy(x, y) == -32768 else -16384 < 32768 * INT16.mpy(x, y) - x * y <= 16384
  {
    hide ToInt16, Rounded, FixMpy;
    StoredIs(-x, INT16.neg(x));
    StoredIs(x + y, INT16.add(x, y));
    StoredIs(x - y, INT16.sub(x, y));
    if Int16(x) && Int16(y) {
      FixMpyIff(x, y);
      RoundedError(x, y);
      WrappingProduct();
    }
  }

  lemma StoredIs(v: int, stored: int)
    requires stored == ToInt16(v)
    ensures Int16(stored) && (stored - v) % 65536 == 0
  {
    LowBits(v);
    NegatedMultiple(v - stored, 65536);
  }

  lemma WrappingProduct()
    ensures FixMpy(-32768, -32768) == -32768
  {
    RoundedError(-32768, -32768);
    hide Rounded;
  }

  lemma NegatedMultiple(v: int, d: int)
    requires d > 0
    ensures v % d == 0 <==> -v % d == 0
  {
    if v % d == 0 { DivModUnique(-v, d, -(v / d), 0); }
    if -v % d == 0 { DivModUnique(v, d, -(-v / d), 0); }
  }

  /** The sine is negated before it is halved, so its half is rounded up. */
  lemma FactorRounding(wave: seq<int>, logN: nat, j: nat)
    requires j + Pow2(logN) / 4 < |wave| && Int16(wave[j]) && wave[j] != -32768
    ensures var w := Factor(INT16, wave, logN, j);
      2 * w.re <= wave[j + Pow2(logN) / 4] <= 2 * w.re + 1 && 2 * w.im <= -wave[j] <= 2 * w.im + 1
  {
    assert Pow2(1) == 2;
  }

  /** The two products of each component are rounded one by one before they meet. */
  lemma TurnedRounding(w: Pair<int>, y: Pair<int>, b: real)
    requires Int16(w.re) && Int16(w.im) && Int16(y.re) && Int16(y.im) && y.re != -32768 && y.im != -32768
    requires AtMost(R(RawTurned(w, y)), b) && b <= 32767.0
    ensures var t := Turned(INT16, w, y);
      && -32768 < 32768 * t.re - (w.re * y.re - w.im * y.im) < 32768
      && -32768 < 32768 * t.im - (w.re * y.im + w.im * y.re) <= 32768
  {
    TurnDoesNotWrap(w, y, b);
    RoundedError(w.re, y.re);
    RoundedError(w.im, y.im);
    RoundedError(w.re, y.im);
    RoundedError(w.im, y.re);
    hide Rounded, Turned, AtMost;
  }
}
