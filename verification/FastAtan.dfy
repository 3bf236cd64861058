/** The integer arctangent of rtl_fm: half a turn is 2^14. First over unbounded integers, then in the
    32-bit arithmetic of the program. */
module FastAtan {
  import opened CArith

  const PI4 := 4096
  const PI34 := 12288

  function Abs(y: int): nat {
    if y < 0 then -y else y
  }

  function FastAtan2(y: int, x: int): int {
    if x == 0 && y == 0 then 0
    else
      var yabs := Abs(y);
      var angle := if x >= 0 then PI4 - TDiv(PI4 * (x - yabs), x + yabs) else PI34 - TDiv(PI4 * (x + yabs), yabs - x);
      if y < 0 then -angle else angle
  }

  // ----- truncating division

  /** Truncated quotients keep the order of the fractions. */
  lemma TDivMonotone(a: int, b: int, c: int, d: int)
    requires b > 0 && d > 0 && a * d <= c * b
    ensures TDiv(a, b) <= TDiv(c, d)
  {
    if a >= 0 {
      if c < 0 {
        MulNonNegative(d, a);
        MulSign(b, c);
        assert false;
      }
      FloorMonotone(a, b, c, d);
    } else if c < 0 {
      assert (-c) * b == -(c * b) && (-a) * d == -(a * d);
      FloorMonotone(-c, d, -a, b);
    } else {
      FloorMonotone(0, 1, -a, b);
      FloorMonotone(0, 1, c, d);
    }
  }

  lemma MulSign(b: int, c: int)
    requires b > 0 && c < 0
    ensures c * b < 0
  {
    MulAtLeast(b, -c);
  }

  lemma FloorMonotone(a: nat, b: nat, c: nat, d: nat)
    requires b > 0 && d > 0 && a * d <= c * b
    ensures a / b <= c / d
  {
    var p, q := a / b, c / d;
    assert a == b * p + a % b && c == d * q + c % d;
    // if p > q then c < d(q+1) <= dp, so cb < dpb <= da
    if p > q {
      BelowProduct(c, d, q, p, b);
      MulNonNegative(d, a - b * p);
      Reorder(a, b, d, p);
      assert false;
    }
  }

  lemma BelowProduct(c: nat, d: nat, q: nat, p: nat, b: nat)
    requires d > 0 && b > 0 && c < d * q + d && p > q
    ensures c * b < (d * p) * b
  {
    assert d * p == d * q + d * (p - q);
    MulAtLeast(d, p - q);
    var gap := d * p - c;
    assert (d * p) * b == c * b + gap * b;
    MulAtLeast(b, gap);
  }

  lemma Reorder(a: nat, b: nat, d: nat, p: nat)
    ensures d * (a - b * p) == a * d - (d * p) * b
  {
    assert (d * p) * b == d * (b * p);
  }

  lemma TDivBetween(a: int, b: int, lo: int, hi: int)
    requires b > 0 && lo * b <= a <= hi * b
    ensures lo <= TDiv(a, b) <= hi
  {
    TDivMonotone(lo, 1, a, b);
    TDivMonotone(a, b, hi, 1);
  }

  // ----- the four quarter ranges

  /** The angle in the half plane where it lies. */
  lemma QuarterRange(y: int, x: int)
    requires x != 0 || y != 0
    ensures var f := FastAtan2(Abs(y), x);
      (x >= 0 ==> 0 <= f <= 2 * PI4) && (x < 0 ==> 2 * PI4 <= f <= 4 * PI4)
  {
    var v := Abs(y);
    if x >= 0 {
      TDivBetween(PI4 * (x - v), x + v, -PI4, PI4);
    } else {
      TDivBetween(PI4 * (x + v), v - x, -PI4, PI4);
    }
  }

  lemma Bounded(y: int, x: int)
    ensures -16384 <= FastAtan2(y, x) <= 16384
    ensures y > 0 ==> FastAtan2(y, x) >= 0
  {
    if x != 0 || y != 0 { QuarterRange(y, x); }
  }

  /** Negating y negates the angle, except on the negative x axis, where both are half a turn. */
  lemma OddInY(y: int, x: int)
    ensures FastAtan2(-y, x) == -FastAtan2(y, x) <==> y != 0 || x >= 0
  {
    if y == 0 && x < 0 {
      assert TDiv(PI4 * x, -x) == -PI4 by { DivModUnique(PI4 * -x, -x, PI4, 0); }
    } else if y == 0 && x > 0 {
      assert TDiv(PI4 * x, x) == PI4 by { DivModUnique(PI4 * x, x, PI4, 0); }
    }
  }

  /** Turning counter-clockwise in the upper half plane never decreases the angle. */
  lemma OrderPreserving(y1: int, x1: int, y2: int, x2: int)
    requires y1 > 0 && y2 > 0
    requires x1 * y2 - x2 * y1 >= 0
    ensures FastAtan2(y1, x1) <= FastAtan2(y2, x2)
  {
    if x1 >= 0 && x2 >= 0 {
      CrossPositive(x1, y1, x2, y2);
      TDivMonotone(PI4 * (x2 - y2), x2 + y2, PI4 * (x1 - y1), x1 + y1);
    } else if x1 < 0 && x2 < 0 {
      CrossNegative(x1, y1, x2, y2);
      TDivMonotone(PI4 * (x2 + y2), y2 - x2, PI4 * (x1 + y1), y1 - x1);
    } else if x1 >= 0 {
      QuarterRange(y1, x1);
      QuarterRange(y2, x2);
    } else {
      MulSign(y2, x1);
      MulNonNegative(y1, x2);
      assert false;
    }
  }

  lemma CrossPositive(x1: int, y1: int, x2: int, y2: int)
    requires x1 * y2 - x2 * y1 >= 0
    ensures PI4 * (x2 - y2) * (x1 + y1) <= PI4 * (x1 - y1) * (x2 + y2)
  {
    assert (x1 - y1) * (x2 + y2) - (x2 - y2) * (x1 + y1) == 2 * (x1 * y2 - x2 * y1);
    assert PI4 * (x2 - y2) * (x1 + y1) == PI4 * ((x2 - y2) * (x1 + y1));
    assert PI4 * (x1 - y1) * (x2 + y2) == PI4 * ((x1 - y1) * (x2 + y2));
  }

  lemma CrossNegative(x1: int, y1: int, x2: int, y2: int)
    requires x1 * y2 - x2 * y1 >= 0
    ensures PI4 * (x2 + y2) * (y1 - x1) <= PI4 * (x1 + y1) * (y2 - x2)
  {
    assert (x1 + y1) * (y2 - x2) - (x2 + y2) * (y1 - x1) == 2 * (x1 * y2 - x2 * y1);
    assert PI4 * (x2 + y2) * (y1 - x1) == PI4 * ((x2 + y2) * (y1 - x1));
    assert PI4 * (x1 + y1) * (y2 - x2) == PI4 * ((x1 + y1) * (y2 - x2));
  }

  /** Only the direction of the vector matters. */
  lemma ScaleInvariant(k: int, y: int, x: int)
    requires k > 0
    ensures FastAtan2(k * y, k * x) == FastAtan2(y, x)
  {
    ScaledSigns(k, y);
    ScaledSigns(k, x);
    ScaledVector(k, y, x, k * y, k * x);
  }

  lemma ScaledVector(k: int, y: int, x: int, ky: int, kx: int)
    requires k > 0 && ky == k * y && kx == k * x && Abs(ky) == k * Abs(y)
    requires (ky > 0 <==> y > 0) && (ky == 0 <==> y == 0) && (kx > 0 <==> x > 0) && (kx == 0 <==> x == 0)
    ensures FastAtan2(ky, kx) == FastAtan2(y, x)
  {
    hide TDiv;
    var v := Abs(y);
    ScaledSums(k, x, v);
    if x > 0 || (x == 0 && v > 0) {
      TDivScaled(k, PI4 * (x - v), x + v);
    } else if x < 0 {
      TDivScaled(k, PI4 * (x + v), v - x);
    }
  }

  lemma ScaledSums(k: int, x: int, v: int)
    ensures PI4 * (k * x - k * v) == k * (PI4 * (x - v)) && k * x + k * v == k * (x + v)
    ensures PI4 * (k * x + k * v) == k * (PI4 * (x + v)) && k * v - k * x == k * (v - x)
  {}

  lemma ScaledSigns(k: int, z: int)
    requires k > 0
    ensures (k * z > 0 <==> z > 0) && (k * z == 0 <==> z == 0) && k * -z == -(k * z)
  {
    if z > 0 { MulAtLeast(k, z); } else if z < 0 { MulAtLeast(k, -z); }
  }

  lemma TDivScaled(k: int, a: int, b: int)
    requires k > 0 && b > 0
    ensures k * b > 0 && TDiv(k * a, k * b) == TDiv(a, b)
  {
    MulAtLeast(k, b);
    assert a * (k * b) == (k * a) * b;
    TDivMonotone(a, b, k * a, k * b);
    TDivMonotone(k * a, k * b, a, b);
  }

  // ----- the discriminator

  /** The angle of a times the conjugate of b. */
  function PolarDiscFast(ar: int, aj: int, br: int, bj: int): int {
    FastAtan2(aj * br + ar * -bj, ar * br - aj * -bj)
  }

  /** Exchanging the samples reverses the turn, exactly unless they point in opposite directions. */
  lemma SwapReverses(ar: int, aj: int, br: int, bj: int)
    ensures PolarDiscFast(br, bj, ar, aj) == -PolarDiscFast(ar, aj, br, bj)
      <==> aj * br - ar * bj != 0 || ar * br + aj * bj >= 0
  {
    var cj, cr := aj * br + ar * -bj, ar * br - aj * -bj;
    assert ar * -bj == -(ar * bj) && aj * -bj == -(aj * bj) && br * -aj == -(br * aj) && bj * -aj == -(bj * aj);
    assert ar * br == br * ar && aj * bj == bj * aj && aj * br == br * aj && ar * bj == bj * ar;
    OddInY(cj, cr);
  }

  /** Opposite vectors: half a turn either way. */
  lemma OppositeDoNotReverse()
    ensures PolarDiscFast(1, 0, -1, 0) == PolarDiscFast(-1, 0, 1, 0) == 16384
  {}

  // ----- 32-bit arithmetic

  const INT_LIMIT := 0x8000_0000
  const PRODUCT_LIMIT := 0x8_0000

  /** The numerator of the quotient, before it is multiplied by PI4. */
  function Difference(y: int, x: int): int {
    if x >= 0 then x - Abs(y) else x + Abs(y)
  }

  /** The sum that is the denominator fits in 32 bits. */
  predicate SumFits(y: int, x: int) {
    Abs(x) + Abs(y) < INT_LIMIT
  }

  /** The product that is the numerator fits too. */
  predicate ProductFits(y: int, x: int) {
    -PRODUCT_LIMIT <= Difference(y, x) < PRODUCT_LIMIT
  }

  /** fast_atan2 as compiled: only the product can wrap when the sum fits. */
  function Atan32(y: int, x: int): int
    requires SumFits(y, x)
  {
    if x == 0 && y == 0 then 0
    else
      var quotient := TDiv(Wrap32(PI4 * Difference(y, x)), Abs(x) + Abs(y));
      var angle := (if x >= 0 then PI4 else PI34) - quotient;
      if y < 0 then -angle else angle
  }

  /** Numerators a whole 32-bit range apart have different quotients. */
  lemma QuotientsDiffer(a: int, b: int, s: int)
    requires 0 < s < INT_LIMIT && (a - b >= 2 * INT_LIMIT || b - a >= 2 * INT_LIMIT)
    ensures TDiv(a, s) != TDiv(b, s)
  {
    TDivRemainder(a, s);
    TDivRemainder(b, s);
  }

  lemma TDivRemainder(a: int, s: int)
    requires s > 0
    ensures -s < a - TDiv(a, s) * s < s
  {
    var v := Abs(a);
    assert v == s * (v / s) + v % s;
    assert -(v / s) * s == -(s * (v / s));
  }

  lemma WrapApart(n: int)
    requires !(-PRODUCT_LIMIT <= n < PRODUCT_LIMIT)
    ensures var w := Wrap32(PI4 * n); w - PI4 * n >= 2 * INT_LIMIT || PI4 * n - w >= 2 * INT_LIMIT
  {}

  /** The program computes the angle exactly when the product fits. */
  lemma Atan32Iff(y: int, x: int)
    requires SumFits(y, x)
    ensures Atan32(y, x) == FastAtan2(y, x) <==> ProductFits(y, x)
  {
    hide TDiv, Wrap32;
    if x != 0 || y != 0 {
      var n, s := Difference(y, x), Abs(x) + Abs(y);
      if ProductFits(y, x) {
        assert Wrap32(PI4 * n) == PI4 * n;
      } else {
        WrapApart(n);
        QuotientsDiffer(Wrap32(PI4 * n), PI4 * n, s);
      }
    }
  }

  /** Even a wrapped product leaves the result in range. */
  lemma Bounded32(y: int, x: int)
    requires SumFits(y, x)
    ensures -16384 <= Atan32(y, x) <= 16384
    ensures y > 0 ==> Atan32(y, x) >= 0
    ensures y == 0 && x < 0 ==> Atan32(y, x) > 0
  {
    hide TDiv;
    if x != 0 || y != 0 {
      var n, s := Difference(y, x), Abs(x) + Abs(y);
      TDivBetween(Wrap32(PI4 * n), s, -PI4, PI4);
    }
  }

  /** Negating y negates the result, exactly off the x axis and on its part where the product fits. */
  lemma OddInY32(y: int, x: int)
    requires SumFits(y, x)
    ensures Atan32(-y, x) == -Atan32(y, x) <==> y != 0 || 0 <= x < PRODUCT_LIMIT
  {
    hide TDiv, Wrap32;
    if y == 0 {
      Bounded32(y, x);
      Atan32Iff(y, x);
      OddInY(y, x);
    }
  }

  /** The order of angles survives exactly as long as no vector is longer than 2^19. */
  lemma OrderPreserving32Iff(bound: int)
    requires bound < INT_LIMIT
    ensures (forall y1, x1, y2, x2 | InOrder(y1, x1, y2, x2, bound) :: Atan32(y1, x1) <= Atan32(y2, x2))
      <==> bound <= PRODUCT_LIMIT
  {
    hide Atan32, FastAtan2;
    if bound <= PRODUCT_LIMIT {
      forall y1, x1, y2, x2 | InOrder(y1, x1, y2, x2, bound) ensures Atan32(y1, x1) <= Atan32(y2, x2) {
        Atan32Iff(y1, x1);
        Atan32Iff(y2, x2);
        OrderPreserving(y1, x1, y2, x2);
      }
    } else {
      OrderLost();
      assert InOrder(1, 1, PRODUCT_LIMIT + 1, 0, bound);
    }
  }

  /** Two vectors above the axis, the second counter-clockwise of the first, neither longer than the bound. */
  predicate InOrder(y1: int, x1: int, y2: int, x2: int, bound: int)
    requires bound < INT_LIMIT
    ensures InOrder(y1, x1, y2, x2, bound) ==> SumFits(y1, x1) && SumFits(y2, x2)
  {
    && y1 > 0 && y2 > 0 && x1 * y2 - x2 * y1 >= 0
    && Abs(x1) + Abs(y1) <= bound && Abs(x2) + Abs(y2) <= bound
  }

  lemma OrderLost()
    ensures Atan32(1, 1) == 4096 && Atan32(PRODUCT_LIMIT + 1, 0) == 1
  {}

  /** Scaling a vector for which the product fits leaves the result exactly when it still fits. */
  lemma ScaleInvariant32Iff(k: int, y: int, x: int)
    requires k > 0 && SumFits(y, x) && ProductFits(y, x) && SumFits(k * y, k * x)
    ensures Atan32(k * y, k * x) == Atan32(y, x) <==> ProductFits(k * y, k * x)
  {
    Atan32Iff(y, x);
    Atan32Iff(k * y, k * x);
    ScaleInvariant(k, y, x);
  }

  /** Components for which the discriminator's own products and their sums fit. */
  predicate Moderate(ar: int, aj: int, br: int, bj: int) {
    Abs(ar) <= 23170 && Abs(aj) <= 23170 && Abs(br) <= 23170 && Abs(bj) <= 23170
  }

  lemma ModerateFits(ar: int, aj: int, br: int, bj: int)
    requires Moderate(ar, aj, br, bj)
    ensures SumFits(aj * br + ar * -bj, ar * br - aj * -bj)
  {
    ProductAtMost(aj, br, 23170);
    ProductAtMost(ar, -bj, 23170);
    ProductAtMost(ar, br, 23170);
    ProductAtMost(aj, -bj, 23170);
    FourProducts(aj * br, ar * -bj, ar * br, aj * -bj);
  }

  lemma FourProducts(p: int, q: int, r: int, s: int)
    requires Abs(p) <= 536848900 && Abs(q) <= 536848900 && Abs(r) <= 536848900 && Abs(s) <= 536848900
    ensures SumFits(p + q, r - s)
  {  }

  lemma ProductAtMost(a: int, b: int, c: int)
    requires Abs(a) <= c && Abs(b) <= c
    ensures Abs(a * b) <= c * c
  {
    MulNonNegative(c - a, c + b);
    MulNonNegative(c + a, c - b);
    MulNonNegative(c - a, c - b);
    MulNonNegative(c + a, c + b);
    assert (c - a) * (c + b) + (c + a) * (c - b) == 2 * (c * c) - 2 * (a * b);
    assert (c - a) * (c - b) + (c + a) * (c + b) == 2 * (c * c) + 2 * (a * b);
  }

  /** polar_disc_fast as compiled. */
  function PolarDisc32(ar: int, aj: int, br: int, bj: int): int
    requires Moderate(ar, aj, br, bj)
  {
    ModerateFits(ar, aj, br, bj);
    Atan32(aj * br + ar * -bj, ar * br - aj * -bj)
  }

  /** Equal samples are no turn, exactly while their squared magnitude is below 2^19. */
  lemma SteadyIff(ar: int, aj: int)
    requires Moderate(ar, aj, ar, aj)
    ensures PolarDisc32(ar, aj, ar, aj) == 0 <==> ar * ar + aj * aj < PRODUCT_LIMIT
  {
    hide Atan32, FastAtan2;
    ModerateFits(ar, aj, ar, aj);
    var x := ar * ar + aj * aj;
    assert ar * ar - aj * -aj == x && aj * ar + ar * -aj == 0;
    Squares(ar, aj);
    Atan32Iff(0, x);
    OddInY(0, x);
  }

  lemma Squares(a: int, b: int)
    ensures a * a + b * b >= 0
  {}

  /** A carrier of amplitude 725, which a downsampling by six reaches, reads as almost a right angle. */
  lemma StrongCarrierTurns()
    ensures PolarDisc32(724, 0, 724, 0) == 0 && PolarDisc32(725, 0, 725, 0) == 8171
  {
    AngleOfCarrier();
    assert 725 * 725 == 525625;
    hide Atan32;
    SteadyIff(724, 0);
  }

  lemma AngleOfCarrier()
    ensures Atan32(0, 525625) == 8171
  {}

  /** Exchanging the samples reverses the turn, exactly unless they are in line and their product is
      negative or 2^19 at least. */
  lemma SwapReverses32(ar: int, aj: int, br: int, bj: int)
    requires Moderate(ar, aj, br, bj)
    ensures PolarDisc32(br, bj, ar, aj) == -PolarDisc32(ar, aj, br, bj)
      <==> aj * br - ar * bj != 0 || 0 <= ar * br + aj * bj < PRODUCT_LIMIT
  {
    hide Atan32, SumFits;
    var cj, cr := aj * br + ar * -bj, ar * br - aj * -bj;
    assert ar * -bj == -(ar * bj) && aj * -bj == -(aj * bj) && br * -aj == -(br * aj) && bj * -aj == -(bj * aj);
    assert ar * br == br * ar && aj * bj == bj * aj && aj * br == br * aj && ar * bj == bj * ar;
    ModerateFits(ar, aj, br, bj);
    ModerateFits(br, bj, ar, aj);
    OddInY32(cj, cr);
  }

  // ----- which way round

  /** The eight main directions, at any length. */
  lemma Compass(k: int)
    requires k > 0
    ensures FastAtan2(0, k) == 0 && FastAtan2(k, k) == 4096 && FastAtan2(k, 0) == 8192 && FastAtan2(k, -k) == 12288
    ensures FastAtan2(0, -k) == 16384 && FastAtan2(-k, -k) == -12288 && FastAtan2(-k, 0) == -8192
    ensures FastAtan2(-k, k) == -4096
  {
    DivModUnique(PI4 * k, k, PI4, 0);
    DivModUnique(0, k, 0, 0);
    DivModUnique(0, 2 * k, 0, 0);
  }

  /** The discriminator reads the turn from b to a: a is b turned by the angle of z. */
  lemma ReadsTurn(zr: int, zj: int, br: int, bj: int)
    requires br != 0 || bj != 0
    ensures PolarDiscFast(zr * br - zj * bj, zj * br + zr * bj, br, bj) == FastAtan2(zj, zr)
  {
    var ar, aj, k := zr * br - zj * bj, zj * br + zr * bj, br * br + bj * bj;
    SquareSum(br, bj);
    TimesConjugate(zr, zj, br, bj, ar, aj, k);
    ScaleInvariant(k, zj, zr);
  }

  lemma SquareSum(a: int, b: int)
    ensures (a != 0 || b != 0) ==> a * a + b * b > 0
  {
    if a > 0 { MulAtLeast(a, a); } else if a < 0 { MulAtLeast(-a, -a); }
    if b > 0 { MulAtLeast(b, b); } else if b < 0 { MulAtLeast(-b, -b); }
    assert a * a == -a * -a && b * b == -b * -b;
    Squares(a, 0);
    Squares(b, 0);
  }

  lemma TimesConjugate(zr: int, zj: int, br: int, bj: int, ar: int, aj: int, k: int)
    requires ar == zr * br - zj * bj && aj == zj * br + zr * bj && k == br * br + bj * bj
    ensures aj * br + ar * -bj == k * zj && ar * br - aj * -bj == k * zr
  {
    assert aj * br == zj * (br * br) + zr * (bj * br) && ar * -bj == zj * (bj * bj) - zr * (br * bj);
    assert ar * br == zr * (br * br) - zj * (bj * br) && aj * -bj == -(zj * (br * bj) + zr * (bj * bj));
    assert k * zj == zj * (br * br) + zj * (bj * bj) && k * zr == zr * (br * br) + zr * (bj * bj);
  }

  /** In 32 bits it does so exactly when the product fits. */
  lemma PolarDisc32Iff(ar: int, aj: int, br: int, bj: int)
    requires Moderate(ar, aj, br, bj)
    ensures PolarDisc32(ar, aj, br, bj) == PolarDiscFast(ar, aj, br, bj)
      <==> ProductFits(aj * br - ar * bj, ar * br + aj * bj)
  {
    hide Atan32, FastAtan2;
    ModerateFits(ar, aj, br, bj);
    assert ar * -bj == -(ar * bj) && aj * -bj == -(aj * bj);
    Atan32Iff(aj * br + ar * -bj, ar * br - aj * -bj);
  }

  /** Against the reference sample 1 it is the angle itself. */
  lemma AgainstOne32(zr: int, zj: int)
    requires Moderate(zr, zj, 1, 0)
    ensures SumFits(zj, zr) && PolarDisc32(zr, zj, 1, 0) == Atan32(zj, zr)
  {
    hide Atan32;
    assert zj * 1 + zr * -0 == zj && zr * 1 - zj * -0 == zr;
  }
}
