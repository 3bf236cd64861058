/** The resampler setting of librtlsdr: a 28-bit ratio whose top bits are dropped and reconstructed. */
module SampleRate {
  import opened CArith
  import opened Reals

  const TWO_22: nat := 0x40_0000
  const TWO_27: nat := 0x800_0000
  const TWO_28: nat := 0x1000_0000
  const TWO_29: nat := 0x2000_0000

  const DEF_RTL_XTAL_FREQ: nat := 28800000
  const MIN_RTL_XTAL_FREQ: nat := DEF_RTL_XTAL_FREQ - 1000
  const MAX_RTL_XTAL_FREQ: nat := DEF_RTL_XTAL_FREQ + 1000

  predicate Accepted(rate: nat) {
    225000 < rate <= 300000 || 900000 < rate <= 3200000
  }

  /** The quotient of the double division, truncated. */
  function Ratio(xtal: nat, rate: nat): nat
    requires rate > 0
  {
    xtal * TWO_22 / rate
  }

  /** `& 0x0ffffffc`: the low 28 bits without the last two. */
  function Masked(ratio: nat): (m: nat)
    ensures m < TWO_28 && m % 4 == 0
  {
    ratio % TWO_28 / 4 * 4
  }

  /** A ratio but for its last two bits. */
  function Kept(ratio: nat): (k: nat)
    ensures ratio - 3 <= k <= ratio && k % 4 == 0
  {
    ratio / 4 * 4
  }

  /** The two register words of a ratio. */
  lemma WordsOf(m: nat)
    requires m < TWO_28
    ensures m / 65536 < 4096 && m / 65536 * 65536 + m % 65536 == m
  {}

  /** `m | ((m & 0x08000000) << 1)`: what the chip makes of it, bit 28 copied from bit 27. */
  function Extended(m: nat): nat
    requires m < TWO_28
  {
    if m >= TWO_27 then m + TWO_28 else m
  }

  /** The chip recovers a ratio, but for its last two bits, exactly when bits 27 and 28 agree. */
  lemma RecoveredIff(ratio: nat)
    requires ratio < TWO_29
    ensures Extended(Masked(ratio)) == Kept(ratio) <==> ratio < TWO_27 || ratio >= 3 * TWO_27
  {}

  /** Where it does not: too high a ratio, or at most half of it. */
  lemma Garbled(ratio: nat)
    requires TWO_27 <= ratio < 3 * TWO_27 || TWO_29 <= ratio < TWO_29 + TWO_27
    ensures Extended(Masked(ratio)) > ratio || 2 * Extended(Masked(ratio)) <= ratio
  {}

  lemma RatioBounds(xtal: nat, rate: nat)
    requires rate > 0
    ensures Ratio(xtal, rate) * rate <= xtal * TWO_22 < (Ratio(xtal, rate) + 1) * rate
  {
    var n, q := xtal * TWO_22, Ratio(xtal, rate);
    assert n == rate * q + n % rate;
  }

  /** Comparing the ratio with a multiple of 2^22 is comparing the crystal with a multiple of the rate. */
  lemma RatioBelow(xtal: nat, rate: nat, k: nat)
    requires rate > 0
    ensures Ratio(xtal, rate) < k * TWO_22 <==> xtal < k * rate
  {
    var q := Ratio(xtal, rate);
    RatioBounds(xtal, rate);
    if q < k * TWO_22 {
      MulNonNegative(rate, k * TWO_22 - (q + 1));
      assert (q + 1) * rate + rate * (k * TWO_22 - (q + 1)) == (k * rate) * TWO_22;
    } else {
      MulNonNegative(rate, q - k * TWO_22);
      assert q * rate == rate * (q - k * TWO_22) + (k * rate) * TWO_22;
    }
  }

  /** The nominal crystal: the rates accepted are those whose ratio the chip recovers. */
  lemma NominalAccepted(rate: nat)
    requires 0 < rate <= 3200000
    ensures var ratio := Ratio(DEF_RTL_XTAL_FREQ, rate);
      Accepted(rate) <==> ratio < TWO_27 || 3 * TWO_27 <= ratio < TWO_29
  {
    RatioBelow(DEF_RTL_XTAL_FREQ, rate, 32);
    RatioBelow(DEF_RTL_XTAL_FREQ, rate, 96);
    RatioBelow(DEF_RTL_XTAL_FREQ, rate, 128);
  }

  /** The truncated quotient is the given one exactly when the divisor is in range. */
  lemma QuotientIs(n: nat, d: nat, q: nat)
    requires d > 0
    ensures n / d == q <==> q * d <= n < (q + 1) * d
  {
    if q * d <= n < (q + 1) * d {
      DivModUnique(n, d, q, n - d * q);
    }
    assert n == d * (n / d) + n % d;
  }

  lemma DroppingTwoBits(n: nat, ratio: nat, rate: nat, d: nat)
    requires ratio * rate <= n < (ratio + 1) * rate && ratio - 3 <= d <= ratio && ratio > 4 * (rate + 1)
    ensures rate * d <= n < (rate + 1) * d
  {
    MulNonNegative(rate, ratio - d);
    assert ratio * rate == rate * d + rate * (ratio - d);
    assert (rate + 1) * d >= (rate + 1) * (ratio - 3) by { MulNonNegative(rate + 1, d - (ratio - 3)); }
    assert (rate + 1) * (ratio - 3) == (ratio + 1) * rate + ratio - 4 * rate - 3;
  }

  lemma TooHigh(n: nat, ratio: nat, rate: nat, d: nat)
    requires n < (ratio + 1) * rate && d > ratio
    ensures n < rate * d
  {
    MulNonNegative(rate, d - (ratio + 1));
    assert rate * d == (ratio + 1) * rate + rate * (d - (ratio + 1));
  }

  lemma TooLow(n: nat, ratio: nat, rate: nat, d: nat)
    requires ratio * rate <= n && 2 * d <= ratio && rate >= 1
    ensures (rate + 1) * d <= n
  {
    MulNonNegative(rate, ratio - 2 * d);
    MulNonNegative(d, rate - 1);
    assert ratio * rate == 2 * (rate * d) + rate * (ratio - 2 * d);
    assert d * (rate - 1) == rate * d - d;
  }

  /** The rate the driver reports for a ratio as the chip sees it. */
  function Reported(xtal: nat, d: nat): nat
    requires d > 0
  {
    xtal * TWO_22 / d
  }

  /** What a caller can check beforehand: the chip then samples at the rate that was asked for. */
  predicate Faithful(xtal: nat, rate: nat) {
    xtal < 32 * rate || 96 * rate <= xtal < 128 * rate
  }

  lemma RatioRange(xtal: nat, rate: nat)
    requires MIN_RTL_XTAL_FREQ <= xtal <= MAX_RTL_XTAL_FREQ && Accepted(rate)
    ensures 8 * TWO_22 <= Ratio(xtal, rate) < TWO_29 + TWO_27
    ensures Ratio(xtal, rate) > 4 * (rate + 1)
    ensures Ratio(xtal, rate) < TWO_27 <==> xtal < 32 * rate
    ensures Ratio(xtal, rate) < 3 * TWO_27 <==> xtal < 96 * rate
    ensures Ratio(xtal, rate) < TWO_29 <==> xtal < 128 * rate
  {
    RatioBelow(xtal, rate, 8);
    RatioBelow(xtal, rate, 32);
    RatioBelow(xtal, rate, 96);
    RatioBelow(xtal, rate, 128);
    RatioBelow(xtal, rate, 160);
  }

  /** The divisor of the second division is 0 exactly for a crystal of 128 times the rate. */
  lemma ZeroDivisorIff(xtal: nat, rate: nat)
    requires MIN_RTL_XTAL_FREQ <= xtal <= MAX_RTL_XTAL_FREQ && Accepted(rate)
    ensures Extended(Masked(Ratio(xtal, rate))) == 0 <==> xtal == 128 * rate
  {
    var ratio := Ratio(xtal, rate);
    RatioRange(xtal, rate);
    RatioBounds(xtal, rate);
    if xtal == 128 * rate {
      QuotientIs(xtal * TWO_22, rate, TWO_29);
    } else if xtal > 128 * rate {
      // one more Hz is more than 4 in the ratio
      MulNonNegative(rate, 3);
      QuotientAtLeast(xtal * TWO_22, rate, TWO_29 + 4);
    } else {
      NotNearTwo28(xtal, rate);
    }
  }

  lemma QuotientAtLeast(n: nat, d: nat, q: nat)
    requires d > 0 && q * d <= n
    ensures n / d >= q
  {
    var k := n / d;
    assert n == d * k + n % d;
    if k < q {
      MulNonNegative(d, q - 1 - k);
    }
  }

  /** Between 2^28 and 2^28+3 there is no ratio of an accepted rate. */
  lemma NotNearTwo28(xtal: nat, rate: nat)
    requires MIN_RTL_XTAL_FREQ <= xtal <= MAX_RTL_XTAL_FREQ && Accepted(rate)
    ensures !(TWO_28 <= Ratio(xtal, rate) < TWO_28 + TWO_22)
  {
    RatioBelow(xtal, rate, 64);
    RatioBelow(xtal, rate, 65);
  }

  /** The rate the driver reports is the one asked for exactly for the faithful pairs. */
  lemma ReportedRateIff(xtal: nat, rate: nat)
    requires MIN_RTL_XTAL_FREQ <= xtal <= MAX_RTL_XTAL_FREQ && Accepted(rate) && xtal != 128 * rate
    ensures Extended(Masked(Ratio(xtal, rate))) > 0
    ensures Reported(xtal, Extended(Masked(Ratio(xtal, rate)))) == rate <==> Faithful(xtal, rate)
    ensures Faithful(xtal, rate) ==> Extended(Masked(Ratio(xtal, rate))) == Kept(Ratio(xtal, rate))
  {
    var n, ratio := xtal * TWO_22, Ratio(xtal, rate);
    var d := Extended(Masked(ratio));
    ZeroDivisorIff(xtal, rate);
    RatioRange(xtal, rate);
    RatioBounds(xtal, rate);
    QuotientIs(n, d, rate);
    if Faithful(xtal, rate) {
      RecoveredIff(ratio);
      DroppingTwoBits(n, ratio, rate, d);
    } else {
      Garbled(ratio);
      if d > ratio { TooHigh(n, ratio, rate, d); } else { TooLow(n, ratio, rate, d); }
    }
  }

  /** Why a double quotient may be read as the exact one: an error below 1/d does not carry the value
      across an integer, given that integers are represented exactly. */
  lemma RoundedQuotient(n: nat, d: nat, q: real)
    requires d > 0
    requires (n % d == 0 ==> q == (n / d) as real)
    requires -1.0 < q * d as real - n as real < 1.0
    ensures q.Floor == n / d
  {
    var k, r, x := n / d, n % d, d as real;
    assert n == d * k + r;
    assert n as real == x * k as real + r as real;
    if r > 0 {
      Above(x, q, k as real);
      Below(x, q, k as real, r as real);
    }
  }

  lemma Above(x: real, q: real, k: real)
    requires x > 0.0 && q * x > x * k
    ensures q > k
  {}

  lemma Below(x: real, q: real, k: real, r: real)
    requires x > 0.0 && r <= x - 1.0 && q * x < x * k + r + 1.0
    ensures q < k + 1.0
  {
    if q >= k + 1.0 { ProductNonNegative(q - (k + 1.0), x); }
  }

  const TWO_52: nat := 0x10_0000_0000_0000
  const TWO_53: nat := 0x20_0000_0000_0000

  /** m/2^k is n/d rounded to the nearest double: 2^k scales the quotient to a significand of 53 bits,
      and m is an integer nearest to it. */
  predicate DoubleQuotient(n: nat, d: nat, k: nat, m: nat) {
    d > 0 && TWO_52 * d <= n * Pow2(k) < TWO_53 * d && NearestTo(n * Pow2(k), d, m)
  }

  /** m is within half of n/d. */
  predicate NearestTo(n: nat, d: nat, m: nat) {
    n * 2 <= 2 * (m * d) + d && 2 * (m * d) <= n * 2 + d
  }

  /** Below 2^53 the rounding of a double division never reaches the next integer. */
  lemma DoubleTruncates(n: nat, d: nat, k: nat, m: nat)
    requires DoubleQuotient(n, d, k, m) && n < TWO_53
    ensures (m as real / Pow2(k) as real).Floor == n / d
  {
    var p := Pow2(k);
    var q, e := m as real / p as real, m * d - n * p;
    UnitBelow(n, d, p);
    if n % d == 0 { ExactQuotient(n, d, p, m); }
    SmallError(q, m, n, d, p, e);
    RoundedQuotient(n, d, q);
  }

  /** Half a unit in the last place is less than 1/d. */
  lemma UnitBelow(n: nat, d: nat, p: nat)
    requires TWO_52 * d <= n * p && n < TWO_53 && p > 0
    ensures d < 2 * p
  {
    MulNonNegative(p, TWO_53 - 1 - n);
    assert n * p + p * (TWO_53 - 1 - n) == (TWO_53 - 1) * p;
  }

  lemma ExactQuotient(n: nat, d: nat, p: nat, m: nat)
    requires d > 0 && p > 0 && n % d == 0 && NearestTo(n * p, d, m)
    ensures m as real / p as real == (n / d) as real
  {
    var k := n / d;
    assert n == d * k;
    var x := m - k * p;
    assert m * d - n * p == x * d by { assert d * k * p == k * p * d; }
    assert d * -x == -(x * d);
    if x >= 1 { MulAtLeast(d, x); } else if x <= -1 { MulAtLeast(d, -x); }
    assert m == k * p;
  }

  lemma SmallError(q: real, m: nat, n: nat, d: nat, p: nat, e: int)
    requires p > 0 && q == m as real / p as real && e == m * d - n * p && -2 * p < 2 * e < 2 * p
    ensures -1.0 < q * d as real - n as real < 1.0
  {
    var y := p as real;
    CastProduct(m, d);
    CastProduct(n, p);
    assert q * y == m as real;
    var x := q * d as real - n as real;
    ErrorTimes(q, d as real, n as real, y);
    BetweenOnes(x, y, e as real);
  }

  lemma ErrorTimes(q: real, d: real, n: real, y: real)
    ensures (q * d - n) * y == (q * y) * d - n * y
  {}

  lemma BetweenOnes(x: real, y: real, e: real)
    requires y > 0.0 && x * y == e && -y < e < y
    ensures -1.0 < x < 1.0
  {
    if x >= 1.0 { ProductNonNegative(x - 1.0, y); } else if x <= -1.0 { ProductNonNegative(-1.0 - x, y); }
  }

  /** Both divisions of the driver truncate to the integer quotients. */
  lemma DriverDivisions(xtal: nat, d: nat, k: nat, m: nat)
    requires xtal <= MAX_RTL_XTAL_FREQ && DoubleQuotient(xtal * TWO_22, d, k, m)
    ensures (m as real / Pow2(k) as real).Floor == Ratio(xtal, d) == Reported(xtal, d)
  {
    DoubleTruncates(xtal * TWO_22, d, k, m);
  }

  /** The trimming range of the crystal admits failures. With it 450 Hz high, 900 010 Hz is accepted
      but the chip samples at about a third of that; 128 Hz high, 225 001 Hz divides by zero. */
  lemma TrimmedCrystalFails()
    ensures Accepted(900010) && !Faithful(28800450, 900010)
    ensures Reported(28800450, Extended(Masked(Ratio(28800450, 900010)))) < 300100
    ensures Accepted(225001) && Extended(Masked(Ratio(28800128, 225001))) == 0
  {}

  /** The words m are the low 28 bits of the ratio without the last two, and the rate reported is that of
      m with bit 27 copied to bit 28. */
  ghost predicate HoldsRatio(xtal: nat, wanted: nat, m: nat, rate: nat) {
    exists ratio: nat, d: nat ::
      && ratio * wanted <= xtal * 0x40_0000 < (ratio + 1) * wanted
      && m % 4 == 0 && m <= ratio % 0x1000_0000 < m + 4
      && d == (if m >= 0x800_0000 then m + 0x1000_0000 else m)
      && rate * d <= xtal * 0x40_0000 < (rate + 1) * d
  }

  lemma RatioHeld(xtal: nat, wanted: nat)
    requires wanted > 0 && Extended(Masked(Ratio(xtal, wanted))) > 0
    ensures var m := Masked(Ratio(xtal, wanted)); HoldsRatio(xtal, wanted, m, Reported(xtal, Extended(m)))
  {
    var ratio := Ratio(xtal, wanted);
    var m := Masked(ratio);
    var d := Extended(m);
    RatioBounds(xtal, wanted);
    RatioBounds(xtal, d);
    assert Reported(xtal, d) == Ratio(xtal, d);
    assert m % 4 == 0 && m <= ratio % 0x1000_0000 < m + 4;
    hide Ratio, Masked, Reported;
  }

  class Dongle {
    const rtlXtal: nat
    var rate: nat
    /** The two words of the ratio in the demodulator's registers. */
    var ratioHigh: nat
    var ratioLow: nat

    constructor (rtlXtal: nat)
      ensures this.rtlXtal == rtlXtal
    {
      this.rtlXtal := rtlXtal;
      rate, ratioHigh, ratioLow := 0, 0, 0;
    }

    /** Sets the ratio words and the reported rate; -EINVAL leaves all as it was. */
    method SetSampleRate(sampRate: nat) returns (r: int)
      requires MIN_RTL_XTAL_FREQ <= rtlXtal <= MAX_RTL_XTAL_FREQ && rtlXtal != 128 * sampRate
      modifies this
      ensures !Accepted(sampRate) ==>
        r == -22 && rate == old(rate) && ratioHigh == old(ratioHigh) && ratioLow == old(ratioLow)
      ensures Accepted(sampRate) ==>
        && r == 0
        && ratioHigh < 4096 && ratioLow < 65536
        && HoldsRatio(rtlXtal, sampRate, ratioHigh * 65536 + ratioLow, rate)
        && (rate == sampRate <==> Faithful(rtlXtal, sampRate))
        && (Faithful(rtlXtal, sampRate) ==>
             Extended(ratioHigh * 65536 + ratioLow) == Kept(Ratio(rtlXtal, sampRate)))
    {
      if sampRate <= 225000 || sampRate > 3200000 || (sampRate > 300000 && sampRate <= 900000) {
        return -22;
      }
      hide Ratio, Masked, Extended, Faithful, Kept, Reported, HoldsRatio;
      var ratio := Masked(Ratio(rtlXtal, sampRate));
      ReportedRateIff(rtlXtal, sampRate);
      WordsOf(ratio);
      RatioHeld(rtlXtal, sampRate);
      rate := Reported(rtlXtal, Extended(ratio));
      ratioHigh := ratio / 65536;
      ratioLow := ratio % 65536;
      return 0;
    }
  }

  /** The nominal crystal is faithful at every accepted rate: the rate reported is the one asked for. */
  lemma NominalFaithful(rate: nat)
    requires Accepted(rate)
    ensures Faithful(DEF_RTL_XTAL_FREQ, rate) && DEF_RTL_XTAL_FREQ != 128 * rate
    ensures var d := Extended(Masked(Ratio(DEF_RTL_XTAL_FREQ, rate)));
      d > 0 && Reported(DEF_RTL_XTAL_FREQ, d) == rate
  {
    hide Extended, Masked, Ratio, Reported, Faithful;
    NominalRange(rate);
    ReportedRateIff(DEF_RTL_XTAL_FREQ, rate);
  }

  lemma NominalRange(rate: nat)
    requires Accepted(rate)
    ensures Faithful(DEF_RTL_XTAL_FREQ, rate) && DEF_RTL_XTAL_FREQ != 128 * rate
  {}
}
