/** The PLL parameters of the E4000 tuner: multiplier z + x/65536 of the oscillator, output divider r. */
module E4k {
  import opened CArith

  datatype Band = Band(freq: nat, synth7: nat, mult: nat)

  /** Below each frequency, the register value (bit 3: three-phase mixing) and the output divider. */
  const PLL_VARS: seq<Band> := [
    Band(72400000, 8 + 7, 48), Band(81200000, 8 + 6, 40), Band(108300000, 8 + 5, 32), Band(162500000, 8 + 4, 24),
    Band(216600000, 8 + 3, 16), Band(325000000, 8 + 2, 12), Band(350000000, 8 + 1, 8), Band(432000000, 3, 8),
    Band(667000000, 2, 6), Band(1200000000, 1, 4)]

  datatype Params = Params(fosc: nat, intendedFlo: nat, flo: int, x: nat, z: nat, r: nat, rIdx: nat, threePhase: bool)

  /** Band k is the first above the frequency; none leaves the divider at 2. */
  predicate IsBand(table: seq<Band>, flo: nat, k: nat, r: nat, rIdx: nat) {
    && k <= |table| && (forall j | 0 <= j < k :: flo >= table[j].freq)
    && (k == |table| ==> r == 2 && rIdx == 0)
    && (k < |table| ==> flo < table[k].freq && r == table[k].mult && rIdx == table[k].synth7)
  }

  /** The first band above the frequency, number k; none leaves the divider at 2. */
  method FindBand(table: seq<Band>, flo: nat) returns (r: nat, rIdx: nat, threePhase: bool, ghost k: nat)
    ensures IsBand(table, flo, k, r, rIdx) && (threePhase <==> rIdx / 8 % 2 == 1)
  {
    r, rIdx, threePhase, k := 2, 0, false, |table|;
    for i := 0 to |table|
      invariant forall j | 0 <= j < i :: flo >= table[j].freq
      invariant r == 2 && rIdx == 0 && !threePhase && k == |table|
    {
      if flo < table[i].freq {
        threePhase := table[i].synth7 / 8 % 2 == 1;
        rIdx := table[i].synth7;
        r := table[i].mult;
        k := i;
        break;
      }
    }
  }

  lemma MultiplierInRange(flo: nat, k: nat, r: nat, rIdx: nat)
    requires IsBand(PLL_VARS, flo, k, r, rIdx)
    ensures 2 <= r <= 48
    ensures flo * r < 4800000000 || r == 2
  {
    if k < |PLL_VARS| {
      assert flo < PLL_VARS[k].freq && r == PLL_VARS[k].mult && r in {4, 6, 8, 12, 16, 24, 32, 40, 48};
    }
  }

  /** The VCO frequency of the parameters as the registers hold them. */
  function ComputeFvco(fosc: nat, z: nat, x: nat): nat {
    fosc * (z % 256) + fosc * (x % 65536) / 65536
  }

  predicate OscillatorValid(fosc: nat) {
    16000000 <= fosc <= 30000000
  }

  /** The intended frequency split into whole and fractional multiples of the oscillator. */
  function Whole(vco: nat, fosc: nat): nat
    requires fosc > 0
  {
    vco / fosc
  }

  function Part(vco: nat, fosc: nat): nat
    requires fosc > 0
  {
    vco % fosc * 65536 / fosc
  }

  /** The VCO is at the intended frequency or below it by less than a step of x and 1 Hz. */
  predicate Close(vco: nat, fosc: nat, actual: nat) {
    actual <= vco && 65536 * (vco - actual) < fosc + 65536
  }

  /** The fraction always fits its 16 bits. */
  lemma PartFits(rem: nat, fosc: nat)
    requires rem < fosc
    ensures rem * 65536 / fosc < 65536
    ensures rem * 65536 / fosc * fosc <= rem * 65536 < rem * 65536 / fosc * fosc + fosc
  {
    var n := rem * 65536;
    assert n == fosc * (n / fosc) + n % fosc;
    QuotientBelow(n, fosc, 65536);
  }

  /** The fraction taken back: at most the remainder, and less than a step and 1 Hz below it. */
  lemma FractionError(rem: nat, fosc: nat, x: nat)
    requires x * fosc <= rem * 65536 < x * fosc + fosc
    ensures fosc * x / 65536 <= rem && 65536 * (rem - fosc * x / 65536) < fosc + 65536
  {
    var n := x * fosc;
    assert fosc * x == n;
  }

  /** The parameters reach the intended VCO frequency exactly when its whole multiple fits eight bits,
      which a caller can check; otherwise they are off by 256 oscillator frequencies or more. */
  lemma CloseIff(vco: nat, fosc: nat)
    requires OscillatorValid(fosc)
    ensures Part(vco, fosc) < 65536
    ensures Close(vco, fosc, ComputeFvco(fosc, Whole(vco, fosc), Part(vco, fosc))) <==> vco < 256 * fosc
  {
    hide Whole, Part, Close;
    var z, rem, x := Whole(vco, fosc), vco % fosc, Part(vco, fosc);
    WholeAndRest(vco, fosc);
    PartBounds(vco, fosc);
    FractionError(rem, fosc, x);
    Truncated(fosc, z);
    assert ComputeFvco(fosc, z, x) == fosc * (z % 256) + fosc * x / 65536;
    hide ComputeFvco;
    Settle(vco, fosc, fosc * z, fosc * (z % 256), rem, fosc * x / 65536, z < 256);
  }

  lemma PartBounds(vco: nat, fosc: nat)
    requires fosc > 0
    ensures var x := Part(vco, fosc); x < 65536 && x * fosc <= vco % fosc * 65536 < x * fosc + fosc
  {
    PartFits(vco % fosc, fosc);
  }

  lemma WholeAndRest(vco: nat, fosc: nat)
    requires fosc > 0
    ensures vco == fosc * Whole(vco, fosc) + vco % fosc && vco % fosc < fosc
    ensures Whole(vco, fosc) < 256 <==> vco < 256 * fosc
  {
    if vco < 256 * fosc { QuotientBelow(vco, fosc, 256); } else { QuotientNotBelow(vco, fosc, 256); }
  }

  lemma Settle(vco: nat, fosc: nat, base: nat, kept: nat, rem: nat, frac: nat, whole: bool)
    requires OscillatorValid(fosc) && vco == base + rem && rem < fosc
    requires frac <= rem && 65536 * (rem - frac) < fosc + 65536
    requires if whole then kept == base else base >= kept + 256 * fosc
    ensures Close(vco, fosc, kept + frac) <==> whole
  {}

  lemma Truncated(fosc: nat, z: nat)
    ensures if z < 256 then fosc * (z % 256) == fosc * z else fosc * z >= fosc * (z % 256) + 256 * fosc
  {
    if z >= 256 { MulNonNegative(fosc, z - z % 256 - 256); }
  }

  lemma QuotientNotBelow(n: nat, d: nat, b: nat)
    requires d > 0 && n >= b * d
    ensures n / d >= b
  {
    var q := n / d;
    assert n == d * q + n % d;
    if q < b { MulNonNegative(d, b - 1 - q); }
  }

  /** Whole and fraction are the quotient and, in 65536ths rounded down, the remainder. */
  predicate Divides(vco: nat, fosc: nat, z: nat, x: nat) {
    && z * fosc <= vco < z * fosc + fosc
    && x * fosc <= (vco - z * fosc) * 65536 < x * fosc + fosc
  }

  lemma PartsOf(vco: nat, fosc: nat)
    requires OscillatorValid(fosc)
    ensures Divides(vco, fosc, Whole(vco, fosc), Part(vco, fosc))
  {
    WholeAndRest(vco, fosc);
    PartFits(vco % fosc, fosc);
  }

  /** Multiplier and fraction are those of the wanted VCO frequency, which the registers reach exactly if
      it is below 256 oscillator frequencies; flo is what they give. */
  predicate Reaches(p: Params)
    requires p.r > 0
  {
    var vco, actual := p.intendedFlo * p.r, ComputeFvco(p.fosc, p.z, p.x);
    && p.x < 65536 && Divides(vco, p.fosc, p.z, p.x)
    && (Close(vco, p.fosc, actual) <==> vco < 256 * p.fosc)
    && (actual > 0 ==> p.flo == actual / p.r)
  }

  lemma ParamsReach(p: Params)
    requires 16000000 <= p.fosc <= 30000000 && p.r > 0
    requires p.z == Whole(p.intendedFlo * p.r, p.fosc) && p.x == Part(p.intendedFlo * p.r, p.fosc)
    requires var actual := ComputeFvco(p.fosc, p.z, p.x); actual > 0 ==> p.flo == actual / p.r
    ensures Reaches(p)
  {
    var vco := p.intendedFlo * p.r;
    CloseIff(vco, p.fosc);
    PartsOf(vco, p.fosc);
    hide Close, ComputeFvco, Divides, Whole, Part;
  }

  /** The parameters for a local oscillator frequency; nothing for an oscillator out of range. */
  method ComputePllParams(fosc: nat, intendedFlo: nat) returns (p: Params, valid: bool, ghost k: nat)
    requires intendedFlo < 0x1_0000_0000
    ensures valid <==> 16000000 <= fosc <= 30000000
    ensures valid ==>
      && p.r > 0 && p.fosc == fosc && p.intendedFlo == intendedFlo
      && IsBand(PLL_VARS, intendedFlo, k, p.r, p.rIdx) && (p.threePhase <==> p.rIdx / 8 % 2 == 1)
      && Reaches(p)
  {
    p, valid, k := Params(0, 0, 0, 0, 0, 0, 0, false), false, 0;
    if fosc < 16000000 || fosc > 30000000 {
      return;
    }
    hide ComputeFvco, Part, Whole, Reaches;
    var r, rIdx, threePhase, band := FindBand(PLL_VARS, intendedFlo);
    k := band;
    MultiplierInRange(intendedFlo, k, r, rIdx);
    hide IsBand;
    var vco := intendedFlo * r;
    var z, x := Whole(vco, fosc), Part(vco, fosc);
    var fvco := ComputeFvco(fosc, z, x);
    var flo := if fvco == 0 then -22 else fvco / r;
    p, valid := Params(fosc, intendedFlo, flo, x, z, r, rIdx, threePhase), true;
    ParamsReach(p);
  }

  /** From an oscillator of 18.75 MHz on, every frequency up to 2.4 GHz is reached. */
  lemma FastOscillatorReaches(fosc: nat, flo: nat, k: nat, r: nat, rIdx: nat)
    requires 18750000 <= fosc <= 30000000 && flo < 2400000000 && IsBand(PLL_VARS, flo, k, r, rIdx)
    ensures flo * r < 256 * fosc
  {
    MultiplierInRange(flo, k, r, rIdx);
    hide IsBand;
  }

  /** With a slower one it is not: at 16 MHz and 1.1 GHz the whole multiple is 275 and loses its top bit. */
  lemma SlowOscillatorFails()
    ensures IsBand(PLL_VARS, 1100000000, 9, 4, 1) && OscillatorValid(16000000)
    ensures ComputeFvco(16000000, Whole(4400000000, 16000000), Part(4400000000, 16000000)) == 304000000
  {}

  /** Close to the VCO frequency is within a few hundred hertz of the local oscillator frequency. */
  lemma CloseToFlo(flo: nat, r: nat, fosc: nat, actual: nat)
    requires r > 0 && OscillatorValid(fosc) && Close(flo * r, fosc, actual)
    ensures actual / r <= flo && (flo - actual / r) * r < 459 + r
  {
    var q := actual / r;
    assert actual == r * q + actual % r;
    assert (flo - q) * r == flo * r - r * q;
    if q > flo { MulNonNegative(r, q - flo - 1); }
  }

  const DIVIDERS: seq<nat> := [2, 4, 6, 8, 12, 16, 20, 24]

  /** The register value says the divider: the low three bits number it, three-phase mixing doubles it. */
  lemma DividerOfRegister(flo: nat, k: nat, r: nat, rIdx: nat)
    requires IsBand(PLL_VARS, flo, k, r, rIdx)
    ensures rIdx < 16 && r == DIVIDERS[rIdx % 8] * (if rIdx / 8 == 1 then 2 else 1)
    ensures flo < 350000000 ==> rIdx / 8 == 1
    ensures flo >= 350000000 ==> rIdx / 8 == 0
  {
    if k > 6 { assert flo >= PLL_VARS[6].freq; }
  }

  /** Over the bands the VCO runs between 2.592 and 4.8 GHz. */
  lemma VcoOfBand(flo: nat, k: nat, r: nat, rIdx: nat)
    requires IsBand(PLL_VARS, flo, k, r, rIdx) && 72400000 <= flo < 1200000000
    ensures 2592000000 <= flo * r < 4800000000
  {
    MultiplierInRange(flo, k, r, rIdx);
    assert 1 <= k < |PLL_VARS| && flo >= PLL_VARS[k - 1].freq;
  }

  /** The VCO frequency, in kHz, that each band ends at. */
  const TOPS: seq<nat> := [3475200, 3248000, 3465600, 3900000, 3465600, 3900000, 2800000, 3456000, 4002000, 4800000]

  lemma BandTops(k: nat)
    requires k < |PLL_VARS|
    ensures k < |TOPS| && PLL_VARS[k].freq * PLL_VARS[k].mult == TOPS[k] * 1000
  {}
}
