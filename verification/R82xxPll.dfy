/** The synthesizer settings of r82xx_set_pll: divider search, integer divider and its register
    split, and the greedy sigma-delta expansion, with the error of the frequency they encode. */
module R82xxPll {
  import opened CArith
  import opened Options

  const VCO_MIN := 1770000
  const VCO_MAX := 3540000
  const WRAP32 := 0x1_0000_0000

  // ----- mixer divider

  predicate Fits(khz: nat, div: nat) {
    VCO_MIN <= khz * div < VCO_MAX
  }

  predicate IsMixDivider(div: nat) {
    div == 2 || div == 4 || div == 8 || div == 16 || div == 32 || div == 64
  }

  /** The tuned frequencies, in kHz, that some divider brings into the VCO range. */
  predicate Tunable(khz: nat) {
    27657 <= khz <= 1769999
  }

  /** A divider fits exactly for the tunable frequencies, and then only one does. */
  lemma ExactlyOneDivider(khz: nat)
    ensures Tunable(khz) <==> exists d: nat :: IsMixDivider(d) && Fits(khz, d)
    ensures forall d: nat, e: nat | IsMixDivider(d) && IsMixDivider(e) && Fits(khz, d) && Fits(khz, e) :: d == e
  {
    if Tunable(khz) {
      var d: nat := if khz >= 885000 then 2 else if khz >= 442500 then 4 else if khz >= 221250 then 8
        else if khz >= 110625 then 16 else if khz >= 55313 then 32 else 64;
      assert IsMixDivider(d) && Fits(khz, d);
    }
  }

  /** The search loop: the divider, 128 if none fits, and the number of its halvings. */
  method FindMixDivider(khz: nat) returns (mixDiv: nat, divNum: nat)
    ensures if Tunable(khz) then IsMixDivider(mixDiv) && Fits(khz, mixDiv) && mixDiv == 2 * Pow2(divNum)
            else mixDiv == 128 && divNum == 0
  {
    ExactlyOneDivider(khz);
    mixDiv, divNum := 2, 0;
    while mixDiv <= 64
      invariant (IsMixDivider(mixDiv) || mixDiv == 128) && divNum == 0
      invariant forall d: nat | IsMixDivider(d) && d < mixDiv :: !Fits(khz, d)
      decreases 128 - mixDiv
    {
      if khz * mixDiv >= VCO_MIN && khz * mixDiv < VCO_MAX {
        divNum := CountHalvings(mixDiv);
        return;
      }
      mixDiv := mixDiv * 2;
    }
  }

  method CountHalvings(mixDiv: nat) returns (divNum: nat)
    requires IsMixDivider(mixDiv)
    ensures mixDiv == 2 * Pow2(divNum)
  {
    divNum := 0;
    var divBuf: nat := mixDiv;
    while divBuf > 2
      invariant IsMixDivider(divBuf) && divBuf * Pow2(divNum) == mixDiv
      decreases divBuf
    {
      assert divBuf == 2 * (divBuf / 2);
      assert divBuf * Pow2(divNum) == (divBuf / 2) * (2 * Pow2(divNum));
      divBuf, divNum := divBuf / 2, divNum + 1;
    }
  }

  // ----- sigma-delta expansion

  /** Whether the loop, at n_sdm = 2^j with vcoFra kHz still to place, ends before n_sdm wraps to 0
      and is divided by. */
  predicate SdmStops(vcoFra: nat, j: nat, ref2: nat)
    requires j <= 16
    decreases 16 - j
  {
    vcoFra <= 1
    || (j < 16 &&
        var q := ref2 / Pow2(j);
        if vcoFra > q then j == 15 || SdmStops(vcoFra - q, j + 1, ref2) else SdmStops(vcoFra, j + 1, ref2))
  }

  lemma {:induction false} SdmStopsBelow(vcoFra: nat, j: nat, ref2: nat)
    requires ref2 < 65536 && 1 <= j <= 15
    ensures SdmStops(vcoFra, j, ref2)
    decreases 16 - j
  {
    if j == 15 {
      assert Pow2(15) == 2 * Pow2(14) == 4 * Pow2(13) == 8 * Pow2(12) == 16 * Pow2(11) == 32 * Pow2(10);
      assert 32 * Pow2(10) == 1024 * Pow2(5) == 32768;
    } else {
      var q := ref2 / Pow2(j);
      SdmStopsBelow(vcoFra, j + 1, ref2);
      if vcoFra > q { SdmStopsBelow(vcoFra - q, j + 1, ref2); }
    }
  }

  lemma {:induction false} SdmRunsOver(j: nat, ref2: nat)
    requires ref2 >= 65536 && 1 <= j <= 16
    ensures !SdmStops(2, j, ref2)
    decreases 16 - j
  {
    if j < 16 {
      SdmRunsOver(j + 1, ref2);
      Pow2Monotone(j, 15);
      assert Pow2(15) == 1024 * Pow2(5) == 32768;
      assert 2 * Pow2(j) <= ref2;
      TwiceFits(ref2, Pow2(j));
    }
  }

  lemma TwiceFits(a: nat, n: nat)
    requires n > 0 && 2 * n <= a
    ensures a / n >= 2
  {
    DivModUnique(a - 2 * n, n, (a - 2 * n) / n, (a - 2 * n) % n);
    DivModUnique(a, n, (a - 2 * n) / n + 2, (a - 2 * n) % n);
  }

  /** The loop is safe for every remainder exactly when twice the reference is below 65.536 MHz. */
  lemma SdmStopsIff(ref2: nat)
    ensures (forall vcoFra: nat :: SdmStops(vcoFra, 1, ref2)) <==> ref2 < 65536
  {
    if ref2 < 65536 {
      forall vcoFra: nat ensures SdmStops(vcoFra, 1, ref2) { SdmStopsBelow(vcoFra, 1, ref2); }
    } else {
      SdmRunsOver(1, ref2);
    }
  }

  /** Loop state at divisor n: the bits of weight 2w and above are decided. `unplaced`, in
      1/65536 kHz, is what the bits so far leave of the remainder; rounding each term down hides
      less than 1 kHz of it a step from the counter. */
  ghost predicate SdmState(vcoFra0: nat, ref2: nat, vcoFra: nat, sdm: nat, weight: nat, steps: nat) {
    var unplaced := 65536 * vcoFra0 - sdm * ref2;
    && (exists c: nat :: sdm == weight * c) && sdm + weight <= 65536
    && 0 <= 65536 * vcoFra - unplaced <= 65536 * steps
    && (vcoFra0 <= ref2 ==> unplaced <= weight * ref2)
  }

  /** Setting the bit of weight w, which is clear. */
  lemma SdmTake(vcoFra0: nat, ref2: nat, vcoFra: nat, sdm: nat, n: nat, w: nat, steps: nat)
    requires n > 0 && n * w == 65536 && SdmState(vcoFra0, ref2, vcoFra, sdm, 2 * w, steps) && vcoFra > ref2 / n
    ensures w > 0 && (sdm / w) % 2 == 0
    ensures SdmState(vcoFra0, ref2, vcoFra - ref2 / n, sdm + w, w, steps + 1)
  {
    ScaledQuotient(ref2, n, w);
    assert (sdm + w) * ref2 == sdm * ref2 + w * ref2;
    SdmBit(sdm, w);
  }

  /** A term rounded down is less than 1 kHz short. */
  lemma ScaledQuotient(ref2: nat, n: nat, w: nat)
    requires n > 0 && n * w == 65536
    ensures w > 0 && 65536 * (ref2 / n) <= w * ref2 <= 65536 * (ref2 / n) + 65536
    ensures 2 * w * ref2 == 2 * (w * ref2)
  {
    var q, r := ref2 / n, ref2 % n;
    Expand(n, w, q, r);
    MulNonNegative(w, r);
    MulNonNegative(w, n - r);
    assert w * (n - r) == w * n - w * r;
  }

  lemma Expand(n: nat, w: nat, q: nat, r: nat)
    ensures w * (n * q + r) == (n * w) * q + w * r
  {}

  lemma SdmBit(sdm: nat, w: nat)
    requires w > 0 && exists c: nat :: sdm == 2 * w * c
    ensures (sdm / w) % 2 == 0
    ensures (exists c: nat :: sdm == w * c) && (exists c: nat :: sdm + w == w * c)
  {
    var c: nat :| sdm == 2 * w * c;
    assert sdm == w * (2 * c) && sdm + w == w * (2 * c + 1);
    DivModUnique(sdm, w, 2 * c, 0);
  }

  /** Leaving the bit of weight w clear. */
  lemma SdmSkip(vcoFra0: nat, ref2: nat, vcoFra: nat, sdm: nat, n: nat, w: nat, steps: nat)
    requires n > 0 && n * w == 65536 && SdmState(vcoFra0, ref2, vcoFra, sdm, 2 * w, steps) && vcoFra <= ref2 / n
    ensures SdmState(vcoFra0, ref2, vcoFra, sdm, w, steps + 1)
  {
    ScaledQuotient(ref2, n, w);
    SdmBit(sdm, w);
  }

  /** sdm/65536 of ref2 kHz is within 15 kHz above and 2 kHz below the remainder. */
  ghost predicate Placed(vcoFra0: nat, ref2: nat, sdm: nat) {
    vcoFra0 <= ref2 ==> -15 * 65536 <= 65536 * vcoFra0 - sdm * ref2 <= 2 * 65536
  }

  /** What is left of v kHz when the terms ref2/2, ref2/4, ... are taken or not, each rounded down. */
  function LeftOf(v: nat, ref2: nat, taken: seq<bool>): int {
    if taken == [] then v
    else
      var n := |taken|;
      LeftOf(v, ref2, taken[..n - 1]) - (if taken[n - 1] then ref2 / Pow2(n) else 0)
  }

  /** The word with those bits, the first of weight 32768. */
  function WordOf(taken: seq<bool>): int
    requires |taken| <= 15
  {
    if taken == [] then 0
    else
      var n := |taken|;
      WordOf(taken[..n - 1]) + (if taken[n - 1] then 2 * Pow2(15 - n) else 0)
  }

  /** Each term is taken exactly when more than that is left, and more than 1 kHz. */
  ghost predicate Greedy(v: nat, ref2: nat, taken: seq<bool>) {
    forall k | 0 <= k < |taken| ::
      taken[k] <==> LeftOf(v, ref2, taken[..k]) > 1 && LeftOf(v, ref2, taken[..k]) > ref2 / Pow2(k + 1)
  }

  /** The greedy expansion of v kHz in fifteen terms, as a word. */
  ghost predicate IsExpansion(v: nat, ref2: nat, sdm: nat) {
    exists taken: seq<bool> :: |taken| == 15 && Greedy(v, ref2, taken) && sdm == WordOf(taken)
  }

  /** The first so many terms are decided. */
  ghost predicate Deciding(v: nat, ref2: nat, taken: seq<bool>, steps: nat, left: nat, sdm: nat) {
    steps <= 15 && |taken| == steps && Greedy(v, ref2, taken) && left == LeftOf(v, ref2, taken) && sdm == WordOf(taken)
  }

  lemma DecidingStarts(v: nat, ref2: nat)
    ensures Deciding(v, ref2, [], 0, v, 0)
  {}

  lemma DecidingStep(v: nat, ref2: nat, taken: seq<bool>, steps: nat, left: nat, sdm: nat, take: bool)
    requires Deciding(v, ref2, taken, steps, left, sdm) && steps <= 14
    requires take <==> left > 1 && left > ref2 / Pow2(steps + 1)
    ensures Deciding(v, ref2, taken + [take], steps + 1,
                     if take then left - ref2 / Pow2(steps + 1) else left,
                     if take then sdm + 2 * Pow2(14 - steps) else sdm)
  {
    hide LeftOf, WordOf, Pow2, Greedy;
    GreedyMore(v, ref2, taken, take);
    WithOneMore(v, ref2, taken, take);
  }

  lemma GreedyMore(v: nat, ref2: nat, taken: seq<bool>, take: bool)
    requires Greedy(v, ref2, taken)
    requires take <==> LeftOf(v, ref2, taken) > 1 && LeftOf(v, ref2, taken) > ref2 / Pow2(|taken| + 1)
    ensures Greedy(v, ref2, taken + [take])
  {
    hide LeftOf, Pow2;
    var more, n := taken + [take], |taken|;
    assert more[..n] == taken;
    forall k | 0 <= k < n + 1
      ensures more[k] <==> LeftOf(v, ref2, more[..k]) > 1 && LeftOf(v, ref2, more[..k]) > ref2 / Pow2(k + 1)
    {
      if k < n { assert more[..k] == taken[..k] && more[k] == taken[k]; }
    }
  }

  lemma WithOneMore(v: nat, ref2: nat, taken: seq<bool>, take: bool)
    requires |taken| <= 14
    ensures var more, n := taken + [take], |taken| + 1;
      && LeftOf(v, ref2, more) == LeftOf(v, ref2, taken) - (if take then ref2 / Pow2(n) else 0)
      && WordOf(more) == WordOf(taken) + (if take then 2 * Pow2(15 - n) else 0)
  {
    assert (taken + [take])[..|taken|] == taken;
  }

  /** Nothing more is taken once 1 kHz or less is left. */
  lemma {:induction false} DecidingEnds(v: nat, ref2: nat, taken: seq<bool>, steps: nat, left: nat, sdm: nat)
    requires Deciding(v, ref2, taken, steps, left, sdm) && (left <= 1 || steps == 15)
    ensures IsExpansion(v, ref2, sdm)
    decreases 15 - steps
  {
    hide Greedy, LeftOf, WordOf;
    if steps < 15 {
      DecidingStep(v, ref2, taken, steps, left, sdm, false);
      DecidingEnds(v, ref2, taken + [false], steps + 1, left, sdm);
    }
  }

  /** The loop after so many steps. */
  ghost predicate Looping(v: nat, ref2: nat, left: nat, sdm: nat, n: nat, w: nat, steps: nat, taken: seq<bool>) {
    AtStep(steps, n, w) && SdmState(v, ref2, left, sdm, 2 * w, steps) && Deciding(v, ref2, taken, steps, left, sdm)
  }

  ghost predicate Finished(v: nat, ref2: nat, sdm: nat) {
    sdm < 65536 && Placed(v, ref2, sdm) && IsExpansion(v, ref2, sdm)
  }

  lemma LoopStarts(v: nat, ref2: nat)
    ensures Looping(v, ref2, v, 0, 2, 32768, 0, [])
  {
    SdmStart(v, ref2);
    PowersUpTo14();
    DecidingStarts(v, ref2);
  }

  lemma LoopTakes(v: nat, ref2: nat, left: nat, sdm: nat, n: nat, w: nat, steps: nat, taken: seq<bool>)
    requires Looping(v, ref2, left, sdm, n, w, steps, taken) && ref2 < 65536
    requires n > 0 && left > 1 && left > ref2 / n
    ensures n >= 2 && w == 32768 / (n / 2)
    ensures n >= 0x8000 ==> Finished(v, ref2, sdm + w)
    ensures n < 0x8000 ==>
      Looping(v, ref2, left - ref2 / n, sdm + w, n * 2 % 65536, w / 2, steps + 1, taken + [true]) && steps < 14
  {
    hide SdmState, AtStep, Deciding, Placed, IsExpansion;
    StepFacts(steps, n, w);
    DecidingStep(v, ref2, taken, steps, left, sdm, true);
    SdmTake(v, ref2, left, sdm, n, w, steps);
    if n >= 0x8000 {
      DecidingEnds(v, ref2, taken + [true], 15, left - ref2 / n, sdm + w);
      SdmEnd(v, ref2, left - ref2 / n, sdm + w, w, steps + 1);
    }
  }

  lemma LoopSkips(v: nat, ref2: nat, left: nat, sdm: nat, n: nat, w: nat, steps: nat, taken: seq<bool>)
    requires Looping(v, ref2, left, sdm, n, w, steps, taken) && ref2 < 65536
    requires n > 0 && 1 < left <= ref2 / n
    ensures Looping(v, ref2, left, sdm, n * 2 % 65536, w / 2, steps + 1, taken + [false]) && steps < 14
  {
    hide SdmState, AtStep, Deciding;
    StepFacts(steps, n, w);
    DecidingStep(v, ref2, taken, steps, left, sdm, false);
    SdmSkip(v, ref2, left, sdm, n, w, steps);
  }

  lemma LoopEnds(v: nat, ref2: nat, left: nat, sdm: nat, n: nat, w: nat, steps: nat, taken: seq<bool>)
    requires Looping(v, ref2, left, sdm, n, w, steps, taken) && ref2 < 65536 && left <= 1
    ensures Finished(v, ref2, sdm)
  {
    hide SdmState, AtStep, Deciding, Placed, IsExpansion;
    StepFacts(steps, n, w);
    DecidingEnds(v, ref2, taken, steps, left, sdm);
    SdmEnd(v, ref2, left, sdm, 2 * w, steps);
  }

  /** The sdm loop: at most 15 bits, from 32768 down to 2, and it stops before n_sdm wraps to 0. */
  method Sdm(vcoFra0: nat, ref2: nat) returns (sdm: nat)
    requires ref2 < 65536
    ensures sdm < 65536 && Placed(vcoFra0, ref2, sdm) && IsExpansion(vcoFra0, ref2, sdm)
    ensures vcoFra0 <= 1 ==> sdm == 0
  {
    hide Looping, Placed, IsExpansion;
    var vcoFra: nat, n: nat := vcoFra0, 2;
    sdm := 0;
    ghost var steps: nat, w: nat, taken: seq<bool> := 0, 32768, [];
    LoopStarts(vcoFra0, ref2);
    while vcoFra > 1
      invariant steps <= 14 && n > 0 && Looping(vcoFra0, ref2, vcoFra, sdm, n, w, steps, taken)
      invariant vcoFra0 <= 1 ==> sdm == 0 && vcoFra == vcoFra0
      decreases 15 - steps
    {
      ghost var take := vcoFra > ref2 / n;
      if vcoFra > ref2 / n {
        LoopTakes(vcoFra0, ref2, vcoFra, sdm, n, w, steps, taken);
        sdm := sdm + 32768 / (n / 2);
        vcoFra := vcoFra - ref2 / n;
        if n >= 0x8000 {
          return;
        }
      } else {
        LoopSkips(vcoFra0, ref2, vcoFra, sdm, n, w, steps, taken);
      }
      n := (n * 2) % 65536;
      w, steps, taken := w / 2, steps + 1, taken + [take];
    }
    LoopEnds(vcoFra0, ref2, vcoFra, sdm, n, w, steps, taken);
  }

  /** The divisor n_sdm and the weight of its bit after so many steps. */
  predicate AtStep(steps: nat, n: nat, w: nat) {
    steps <= 14 && n == 2 * Pow2(steps) && w == 2 * Pow2(14 - steps)
  }

  lemma StepFacts(steps: nat, n: nat, w: nat)
    requires AtStep(steps, n, w)
    ensures n * w == 65536 && n >= 2 && 32768 / (n / 2) == w >= 2 && (n >= 0x8000 <==> steps == 14)
    ensures n == Pow2(steps + 1) && steps <= 14 && w == 2 * Pow2(14 - steps)
    ensures steps == 14 ==> w == 2
    ensures steps < 14 ==> AtStep(steps + 1, n * 2 % 65536, w / 2) && 2 * (w / 2) == w
  {
    Weight(steps);
    if steps < 14 {
      Weight(steps + 1);
      hide Pow2;
      assert n * 2 <= 0x8000;
    }
  }

  lemma SdmStart(vcoFra0: nat, ref2: nat)
    ensures SdmState(vcoFra0, ref2, vcoFra0, 0, 65536, 0)
  {
    assert 0 == 65536 * 0;
    assert vcoFra0 <= ref2 ==> 65536 * vcoFra0 <= 65536 * ref2;
  }

  lemma SdmEnd(vcoFra0: nat, ref2: nat, vcoFra: nat, sdm: nat, weight: nat, steps: nat)
    requires SdmState(vcoFra0, ref2, vcoFra, sdm, weight, steps) && ref2 < 65536
    requires steps <= 15 && weight >= 1 && (vcoFra <= 1 || weight == 2)
    ensures sdm < 65536 && Placed(vcoFra0, ref2, sdm)
  {}

  /** At n_sdm = 2 * 2^steps the loop sets the bit of weight 65536/n_sdm. */
  lemma Weight(steps: nat)
    requires steps <= 14
    ensures var n, w := 2 * Pow2(steps), 2 * Pow2(14 - steps);
      && n * w == 65536 && 32768 / (n / 2) == w && n <= 0x8000 && (n >= 0x8000 <==> steps == 14)
      && (steps == 0 ==> n == 2 && w == 32768) && (steps == 14 ==> w == 2)
    ensures Pow2(steps + 1) == 2 * Pow2(steps)
    ensures steps < 14 ==> Pow2(14 - steps) == 2 * Pow2(14 - (steps + 1))
  {
    PowersUpTo14();
    assert Pow2(steps + 1) == 2 * Pow2(steps);
    Pow2Add(steps, 14 - steps);
    if steps < 14 { Pow2Monotone(steps, 13); assert Pow2(14 - steps) == 2 * Pow2(14 - (steps + 1)); }
    hide Pow2;
    WeightQuotient(Pow2(steps), Pow2(14 - steps));
  }

  lemma WeightQuotient(a: nat, b: nat)
    requires a > 0 && a * b == 16384
    ensures (2 * a) * (2 * b) == 65536 && 32768 / ((2 * a) / 2) == 2 * b && a <= 16384
  {
    assert a * (2 * b) == 32768 && b >= 1;
    DivModUnique(32768, a, 2 * b, 0);
    assert a * b == a + a * (b - 1);
    MulNonNegative(a, b - 1);
  }

  lemma PowersUpTo14()
    ensures Pow2(0) == 1 && Pow2(13) == 8192 && Pow2(14) == 16384
  {
    assert Pow2(14) == 512 * Pow2(5) == 16384;
  }

  // ----- the register words

  /** What r82xx_set_pll writes: R16[7:5], R20, R18[3], R22:R21, and the fields they hold. */
  datatype Words = Words(divNum: nat, nint: nat, ni: nat, si: nat, reg14: nat, sdmOff: bool, sdm: nat)

  /** The tuned frequency in kHz, in 32-bit arithmetic. */
  function Khz(freq: nat): nat {
    (freq + 500) % WRAP32 / 1000
  }

  /** The nearest kilohertz, halves up, while the sum fits. */
  lemma KhzIsNearest(freq: nat)
    requires freq + 500 < WRAP32
    ensures -500 < 1000 * Khz(freq) - freq <= 500
  {}

  /** The remainder in kHz fits the reference in kHz. */
  lemma RemainderFits(xtal: nat, rem: nat)
    requires 0 < xtal && rem < 2 * xtal
    ensures rem / 1000 <= 2 * ((xtal + 500) / 1000)
  {}

  /** The VCO frequency the words encode, in 1/65536 Hz. */
  function EncodedVco(xtal: nat, nint: nat, sdm: nat): nat {
    2 * xtal * (65536 * nint + sdm)
  }

  /** Rounding of the reference to kHz, of the remainder to kHz, and of the expansion. */
  lemma Accuracy(vco: nat, xtal: nat, nint: nat, rem: nat, sdm: nat)
    requires 0 < xtal && vco == 2 * xtal * nint + rem && rem < 2 * xtal && sdm < 65536
    requires Placed(rem / 1000, 2 * ((xtal + 500) / 1000), sdm)
    ensures -16000 * 65536 <= 65536 * vco - EncodedVco(xtal, nint, sdm) < 4000 * 65536
  {
    RemainderFits(xtal, rem);
    var fra, d, khz := rem / 1000, rem % 1000, (xtal + 500) / 1000;
    var eps := 2 * xtal - 2000 * khz;
    assert -1000 <= eps < 1000 && rem == 1000 * fra + d;
    assert 2 * xtal * (65536 * nint + sdm) == 65536 * (2 * xtal * nint) + 2 * xtal * sdm;
    assert 2 * xtal * sdm == 1000 * (sdm * (2 * khz)) + eps * sdm;
    assert -1000 * 65536 <= eps * sdm <= 1000 * 65536 by {
      MulNonNegative(sdm, eps + 1000);
      MulNonNegative(sdm, 1000 - eps);
      assert sdm * (eps + 1000) == eps * sdm + 1000 * sdm && sdm * (1000 - eps) == 1000 * sdm - eps * sdm;
    }
  }

  /** The divider for the tunable band is in 27..110 and is the exact quotient. */
  lemma DividerRange(freq: nat, mixDiv: nat, xtal: nat)
    requires freq < WRAP32 && Tunable(Khz(freq)) && IsMixDivider(mixDiv) && Fits(Khz(freq), mixDiv)
    requires 16000000 <= xtal < 32767500
    ensures 27 <= freq * mixDiv / (2 * xtal) <= 110
    ensures 1769968000 <= freq * mixDiv < 3540032000
  {
    assert freq + 500 < WRAP32 || Khz(freq) == 0;
    var khz, vco := Khz(freq), freq * mixDiv;
    assert 1000 * khz <= freq + 500 < 1000 * khz + 1000;
    assert 1769968000 <= vco < 3540032000;
    QuotientRange(vco, 2 * xtal, 27, 110);
  }

  lemma QuotientRange(t: int, d: int, lo: int, hi: int)
    requires d > 0 && 0 <= d * lo <= t < d * (hi + 1)
    ensures lo <= t / d <= hi
  {
    QuotientBelow(t, d, hi + 1);
    var q := t / d;
    assert t == d * q + t % d;
    if q < lo {
      assert d * (lo - q - 1) == d * lo - d * q - d;
      MulNonNegative(d, lo - q - 1);
      assert false;
    }
  }

  /** nint and the remainder in kHz, in the program's 8-, 32- and 64-bit arithmetic. */
  function Quotient(vco: nat, xtal: nat): nat
    requires xtal > 0
  {
    vco / (2 * xtal) % 256
  }

  function Remainder(vco: nat, xtal: nat, nint: nat): int {
    (vco - 2 * xtal * nint % WRAP32) / 1000 % WRAP32
  }

  /** In the tunable band nothing wraps. */
  lemma NoWrap(freq: nat, mixDiv: nat, xtal: nat)
    requires freq < WRAP32 && Tunable(Khz(freq)) && IsMixDivider(mixDiv) && Fits(Khz(freq), mixDiv)
    requires 16000000 <= xtal < 32767500
    ensures var vco := freq * mixDiv;
      var nint := Quotient(vco, xtal);
      && 27 <= nint <= 110 && 2 * xtal * nint <= vco < 2 * xtal * nint + 2 * xtal
      && Remainder(vco, xtal, nint) == (vco - 2 * xtal * nint) / 1000
  {
    DividerRange(freq, mixDiv, xtal);
    hide Khz, Fits;
    ByteQuotient(freq * mixDiv, 2 * xtal);
  }

  lemma ByteQuotient(vco: nat, d: nat)
    requires d > 0 && vco < WRAP32 && 27 <= vco / d <= 110
    ensures var q := vco / d % 256;
      27 <= q <= 110 && d * q <= vco < d * q + d && (vco - d * q % WRAP32) / 1000 % WRAP32 == (vco - d * q) / 1000
  {
    var q := vco / d;
    assert vco == d * q + vco % d;
    MulNonNegative(d, q);
    Unwrapped(d * q, vco);
  }

  lemma Unwrapped(a: int, vco: int)
    requires 0 <= a <= vco < WRAP32
    ensures (vco - a % WRAP32) / 1000 % WRAP32 == (vco - a) / 1000
  {}

  /** The register split of nint is exact. */
  lemma SplitDivider(nint: nat)
    requires 13 <= nint < 256
    ensures var ni := TDiv(nint - 13, 4) % 256;
      var si := (nint - 4 * ni - 13) % 256;
      nint == 13 + 4 * ni + si && 0 <= si <= 3 && (nint <= 127 ==> (ni + si * 64) % 256 == ni + 64 * si)
  {}

  lemma DividerLimit(vco: nat, xtal: nat, nint: nat, limit: nat)
    requires xtal > 0 && 2 * xtal * nint <= vco < 2 * xtal * nint + 2 * xtal
    ensures nint >= limit <==> vco >= 2 * xtal * limit
  {
    if nint >= limit {
      MulNonNegative(2 * xtal, nint - limit);
      assert 2 * xtal * (nint - limit) == 2 * xtal * nint - 2 * xtal * limit;
    } else {
      MulAtLeast(2 * xtal, limit - nint);
      assert 2 * xtal * (limit - nint) == 2 * xtal * limit - 2 * xtal * nint;
    }
  }

  /** The largest admissible divider plus one: 128 / vco_power_ref. */
  function Limit(r828d: bool): nat {
    if r828d then 128 else 64
  }

  /** The words are right for the VCO frequency vco: the divider is split exactly, the fraction is the
      greedy expansion of the remainder in kHz, and the frequency they encode is less than 4 kHz below
      vco and at most 16 kHz above it. */
  ghost predicate WordsFor(vco: nat, xtal: nat, r828d: bool, r: Option<Words>) {
    match r
    case None => vco >= 2 * xtal * Limit(r828d)
    case Some(w) =>
      && vco < 2 * xtal * Limit(r828d)
      && w.nint == 13 + 4 * w.ni + w.si && w.si <= 3 && w.reg14 == w.ni + 64 * w.si
      && 2 * xtal * w.nint <= vco && (w.sdmOff <==> vco - 2 * xtal * w.nint < 1000)
      && w.sdm < 65536 && (w.sdmOff ==> w.sdm == 0)
      && IsExpansion((vco - 2 * xtal * w.nint) / 1000, 2 * ((xtal + 500) / 1000), w.sdm)
      && -16000 * 65536 <= 65536 * vco - EncodedVco(xtal, w.nint, w.sdm) < 4000 * 65536
  }

  lemma WordsAreRight(freq: nat, mixDiv: nat, xtal: nat, r828d: bool, w: Words)
    requires freq < WRAP32 && Tunable(Khz(freq)) && IsMixDivider(mixDiv) && Fits(Khz(freq), mixDiv)
    requires 16000000 <= xtal < 32767500
    requires w.nint == Quotient(freq * mixDiv, xtal) && w.sdm < 65536
    requires w.nint < Limit(r828d) ==>
      var fra := Remainder(freq * mixDiv, xtal, w.nint);
      && w.ni == TDiv(w.nint - 13, 4) % 256 && w.si == (w.nint - 4 * w.ni - 13) % 256
      && w.reg14 == (w.ni + w.si * 64) % 256
      && fra >= 0 && Placed(fra, 2 * ((xtal + 500) / 1000), w.sdm) && (w.sdmOff ==> w.sdm == 0)
      && IsExpansion(fra, 2 * ((xtal + 500) / 1000), w.sdm)
      && (w.sdmOff <==> fra == 0)
    ensures WordsFor(freq * mixDiv, xtal, r828d, if w.nint < Limit(r828d) then Some(w) else None)
  {
    var vco := freq * mixDiv;
    NoWrap(freq, mixDiv, xtal);
    hide Quotient, Remainder, Placed, IsExpansion, EncodedVco;
    DividerLimit(vco, xtal, w.nint, Limit(r828d));
    if w.nint < Limit(r828d) {
      SplitDivider(w.nint);
      Accuracy(vco, xtal, w.nint, vco - 2 * xtal * w.nint, w.sdm);
    }
  }

  /** One halving more or less in the field is a factor of two in the divider. */
  lemma FieldFollows(mixDiv: nat, halvings: nat, powerRef: nat, fineTune: nat, divNum: nat)
    requires IsMixDivider(mixDiv) && mixDiv == 2 * Pow2(halvings)
    requires divNum == if fineTune > powerRef then (halvings + 255) % 256
             else if fineTune < powerRef then (halvings + 1) % 256 else halvings
    ensures if fineTune > powerRef then (if mixDiv == 2 then divNum == 255 else mixDiv == 2 * Pow2(divNum + 1))
            else if fineTune < powerRef then mixDiv == Pow2(divNum)
            else mixDiv == 2 * Pow2(divNum)
  {
    assert Pow2(6) == 64 && Pow2(halvings + 1) == 2 * Pow2(halvings);
    if halvings > 5 { Pow2Monotone(6, halvings); }
    if halvings > 0 { assert Pow2(halvings) == 2 * Pow2(halvings - 1); } else { assert Pow2(halvings) == 1; }
    hide Pow2;
  }

  lemma LimitReached(vco: nat, xtal: nat, r828d: bool, r: Option<Words>)
    requires WordsFor(vco, xtal, r828d, r)
    ensures r.None? <==> vco >= 2 * xtal * (if r828d then 128 else 64)
  {}

  /** r82xx_set_pll up to the lock test. `fineTune` is R4[5:4] as read back. The field divNum stands
      for the divider 2^(divNum+1), or for twice or half of it as fineTune is above or below the power
      reference (1 on the R828D, else 2); for divider 2 and fineTune above, it wraps to 255. The
      setting fails exactly when the VCO needs 128 (R828D) or 64 times the doubled crystal. */
  method SetPll(freq: nat, xtal: nat, r828d: bool, fineTune: nat) returns (r: Option<Words>)
    requires freq < WRAP32 && 0 < xtal < 32767500 && fineTune < 4
    ensures Tunable(Khz(freq)) && xtal >= 16000000 ==>
      exists mixDiv: nat :: IsMixDivider(mixDiv) && Fits(Khz(freq), mixDiv) && WordsFor(freq * mixDiv, xtal, r828d, r)
        && (r.None? <==> freq * mixDiv >= 2 * xtal * (if r828d then 128 else 64))
        && (r.Some? ==>
             var divNum, powerRef := r.value.divNum, if r828d then 1 else 2;
             if fineTune > powerRef then
               if mixDiv == 2 then divNum == 255 else mixDiv == 2 * Pow2(divNum + 1)
             else if fineTune < powerRef then mixDiv == Pow2(divNum)
             else mixDiv == 2 * Pow2(divNum))
  {
    hide Quotient, Remainder, Placed, IsExpansion, WordsFor;
    var powerRef := if r828d then 1 else 2;
    var mixDiv, divNum := FindMixDivider(Khz(freq));
    ghost var halvings := divNum;
    if fineTune > powerRef {
      divNum := (divNum + 255) % 256;  // uint8_t decrement
    } else if fineTune < powerRef {
      divNum := (divNum + 1) % 256;
    }
    var vco := freq * mixDiv;
    var nint := Quotient(vco, xtal);
    QuotientByte(vco, xtal);
    if nint > 128 / powerRef - 1 {
      if Tunable(Khz(freq)) && xtal >= 16000000 {
        WordsAreRight(freq, mixDiv, xtal, r828d, Words(divNum, nint, 0, 0, 0, true, 0));
        LimitReached(freq * mixDiv, xtal, r828d, None);
      }
      return None;
    }
    var vcoFra: nat := Remainder(vco, xtal, nint);
    var ni: nat := TDiv(nint - 13, 4) % 256;
    var si: nat := (nint - 4 * ni - 13) % 256;
    var sdm := Sdm(vcoFra, 2 * ((xtal + 500) / 1000));
    var w := Words(divNum, nint, ni, si, (ni + si * 64) % 256, vcoFra == 0, sdm);
    if Tunable(Khz(freq)) && xtal >= 16000000 {
      WordsAreRight(freq, mixDiv, xtal, r828d, w);
      LimitReached(freq * mixDiv, xtal, r828d, Some(w));
      FieldFollows(mixDiv, halvings, powerRef, fineTune, divNum);
    }
    r := Some(w);
  }

  lemma QuotientByte(vco: nat, xtal: nat)
    requires xtal > 0
    ensures Quotient(vco, xtal) < 256 && Remainder(vco, xtal, Quotient(vco, xtal)) >= 0
  {}

  /** For a crystal from 32.7675 MHz to below 32.768 MHz some tunable frequency leaves a remainder
      on which the sdm loop divides by zero; below 32.7675 MHz none does. */
  lemma SafeCrystals(xtal: nat)
    requires 16000000 <= xtal < 32768000
    ensures xtal < 32767500 <==>
      forall freq: nat, mixDiv: nat | freq < WRAP32 && IsMixDivider(mixDiv) && Fits(Khz(freq), mixDiv) ::
        SdmStops(freq * mixDiv % (2 * xtal) / 1000, 1, 2 * ((xtal + 500) / 1000))
  {
    var ref2 := 2 * ((xtal + 500) / 1000);
    if xtal < 32767500 {
      forall vcoFra: nat ensures SdmStops(vcoFra, 1, ref2) { SdmStopsBelow(vcoFra, 1, ref2); }
    } else {
      var freq: nat := 28 * xtal + 1000;
      UnsafeFrequency(xtal, freq);
      assert IsMixDivider(2) && Fits(Khz(freq), 2);
      assert !SdmStops(freq * 2 % (2 * xtal) / 1000, 1, ref2);
    }
  }

  lemma UnsafeFrequency(xtal: nat, freq: nat)
    requires 32767500 <= xtal < 32768000 && freq == 28 * xtal + 1000
    ensures freq < WRAP32 && Fits(Khz(freq), 2)
    ensures !SdmStops(freq * 2 % (2 * xtal) / 1000, 1, 2 * ((xtal + 500) / 1000))
  {
    hide SdmStops;
    InVcoRange(freq);
    RemainderOf28(xtal, freq);
    assert (xtal + 500) / 1000 == 32768;
    SdmRunsOver(1, 65536);
  }

  lemma InVcoRange(freq: nat)
    requires 917490000 <= freq < 917506000
    ensures Fits(Khz(freq), 2)
  {}

  lemma RemainderOf28(xtal: nat, freq: nat)
    requires xtal > 1000 && freq == 28 * xtal + 1000
    ensures freq * 2 % (2 * xtal) / 1000 == 2
  {
    var d := 2 * xtal;
    DivModUnique(freq * 2, d, 28, 2000);
  }
}
