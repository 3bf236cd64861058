/** The PLL registers of the FC0012 tuner: a rounded divider and a signed fraction. */
module Fc0012 {
  import opened CArith
  import opened Options

  /** Registers 1 to 6. */
  datatype Regs = Regs(r1: nat, r2: nat, r3: nat, r4: nat, r5: nat, r6: nat)

  /** The output divider of a frequency, with registers 5 and 6. */
  function Multi(freq: nat): (nat, nat, nat) {
    if freq < 37084000 then (96, 0x82, 0x00)
    else if freq < 55625000 then (64, 0x82, 0x02)
    else if freq < 74167000 then (48, 0x42, 0x00)
    else if freq < 111250000 then (32, 0x42, 0x02)
    else if freq < 148334000 then (24, 0x22, 0x00)
    else if freq < 222500000 then (16, 0x22, 0x02)
    else if freq < 296667000 then (12, 0x12, 0x00)
    else if freq < 445000000 then (8, 0x12, 0x02)
    else if freq < 593334000 then (6, 0x0a, 0x00)
    else (4, 0x0a, 0x02)
  }

  /** The product is taken in 32 bits. */
  function Vco(freq: nat): (f: nat)
    ensures f < 0x1_0000_0000
  {
    freq * Multi(freq).0 % 0x1_0000_0000
  }

  lemma VcoDoesNotWrapIff(freq: nat)
    ensures Vco(freq) == freq * Multi(freq).0 <==> freq < 0x4000_0000
  {}

  /** Over the bands of the table the divider keeps the VCO between 2.37 and 3.5601 GHz. */
  lemma VcoRange(freq: nat)
    requires 37084000 <= freq < 890000000
    ensures 2373336000 <= Vco(freq) < 3560064000 && Vco(freq) == freq * Multi(freq).0
  {}

  /** A tuner clock, halved, for which no intermediate value is cut short. */
  predicate ClockInRange(x: nat) {
    2100000 <= x < 65536000
  }

  function Rounded(f: nat, x: nat): nat
    requires x > 0
  {
    f / x + (if f % x >= x / 2 then 1 else 0)
  }

  /** The divider in the two registers, as 8-bit arithmetic leaves it. */
  function Split(xdiv: nat): (p: (nat, nat))
    requires xdiv < 2048
  {
    var pm0, am0 := xdiv / 8, xdiv % 8;
    var am := if am0 < 2 then am0 + 8 else am0;
    var pm := if am0 < 2 then (pm0 + 255) % 256 else pm0;
    if pm > 31 then ((am + 8 * (pm - 31)) % 256, 31) else (am, pm)
  }

  predicate Valid(p: (nat, nat)) {
    p.0 <= 15 && p.1 >= 0x0b
  }

  predicate Representable(xdiv: nat) {
    90 <= xdiv <= 263
  }

  /** Above 257 the second register is full and the first holds the rest, modulo 256. */
  lemma SplitHigh(xdiv: nat)
    requires 258 <= xdiv < 2048
    ensures Split(xdiv) == ((xdiv - 248) % 256, 31)
  {
    var pm0, am0 := xdiv / 8, xdiv % 8;
    assert xdiv == 8 * pm0 + am0 && 32 <= pm0 <= 255;
    if am0 < 2 { Decremented(pm0); }
  }

  lemma SplitLow(xdiv: nat)
    requires 2 <= xdiv <= 257
    ensures 8 * Split(xdiv).1 + Split(xdiv).0 == xdiv && 2 <= Split(xdiv).0 <= 9
  {
    var pm0, am0 := xdiv / 8, xdiv % 8;
    assert xdiv == 8 * pm0 + am0 && pm0 <= 32;
    if am0 < 2 { Decremented(pm0); }
  }

  /** pm-- in eight bits. */
  lemma Decremented(pm: nat)
    requires 1 <= pm <= 255
    ensures (pm + 255) % 256 == pm - 1
  {}

  /** The dividers that pass the check: those the registers can hold, and, by wrap-around, 0, 1 and
      some too large. */
  predicate Accepted(xdiv: nat) {
    Representable(xdiv) || xdiv < 2 || (xdiv >= 504 && (xdiv - 248) % 256 <= 15)
  }

  lemma ValidIff(xdiv: nat)
    requires xdiv < 2048
    ensures Valid(Split(xdiv)) <==> Accepted(xdiv)
  {
    if xdiv >= 258 {
      SplitHigh(xdiv);
      hide Split;
      HighAccepted(xdiv, (xdiv - 248) % 256);
    } else if xdiv >= 2 {
      hide Split;
      SplitLow(xdiv);
    }
  }

  lemma HighAccepted(xdiv: nat, low: nat)
    requires 258 <= xdiv < 2048 && low == (xdiv - 248) % 256
    ensures low <= 15 <==> Accepted(xdiv)
  {
    if xdiv < 504 { assert low == xdiv - 248; }
  }

  /** The registers hold the divider exactly when it is representable. */
  lemma SplitIsRight(xdiv: nat)
    requires xdiv < 2048 && Valid(Split(xdiv))
    ensures 8 * Split(xdiv).1 + Split(xdiv).0 == xdiv <==> Representable(xdiv)
  {
    if xdiv >= 258 {
      SplitHigh(xdiv);
    } else if xdiv >= 2 {
      hide Split;
      SplitLow(xdiv);
    }
  }

  /** The fraction: thousandths of the remainder scaled to 15 bits, then 32768 added from one half on. */
  function Fraction(rem: nat, x: nat): (w: nat)
    requires x >= 1000 && rem < x
  {
    var raw := RawFraction(rem / 1000, x / 1000);
    if raw >= 16384 then (raw + 32768) % 65536 else raw
  }

  function RawFraction(k: nat, m: nat): nat
    requires m > 0
  {
    k * 32768 / m
  }

  /** The 16-bit register pair read as a signed number. */
  function Signed(w: nat): int {
    if w >= 32768 then w - 65536 else w
  }

  /** The VCO frequency the registers stand for, in units of 1/32768 Hz. */
  function Encoded(x: nat, xdiv: nat, w: nat): int {
    x * (32768 * xdiv + Signed(w))
  }

  /** Whether the divider and the fraction round the same way. */
  predicate Agree(rem: nat, x: nat) {
    rem >= x / 2 <==> 2 * (rem / 1000) >= x / 1000
  }

  lemma RawBounds(k: nat, m: nat)
    requires m > 0 && k <= m
    ensures RawFraction(k, m) * m <= k * 32768 < (RawFraction(k, m) + 1) * m
    ensures RawFraction(k, m) <= 32768
    ensures RawFraction(k, m) >= 16384 <==> 2 * k >= m
  {
    var n, q := k * 32768, RawFraction(k, m);
    assert n == m * q + n % m;
    if q >= 32769 { MulNonNegative(m, q - 32769); }
    if q >= 16384 { MulNonNegative(m, q - 16384); } else { MulNonNegative(m, 16383 - q); }
  }

  /** The fraction word read back, relative to the divider the quotient alone would give. */
  lemma FractionIsSigned(rem: nat, x: nat)
    requires x >= 1000 && rem < x
    ensures var k, m := rem / 1000, x / 1000;
      Signed(Fraction(rem, x)) == RawFraction(k, m) - 32768 * Down(rem, x)
  {
    RawBounds(rem / 1000, x / 1000);
  }

  /** The error of the raw fraction: less than 1000 Hz and one step of the fraction too low, and too
      high only by what x falls short of whole kilohertz. */
  lemma RawError(rem: nat, x: nat)
    requires x >= 1000 && rem < x
    ensures var e := 32768 * rem - x * RawFraction(rem / 1000, x / 1000);
      -32768 * 1000 < e < 32768 * 1000 + x && (x % 1000 == 0 ==> e >= 0)
  {
    var k, m := rem / 1000, x / 1000;
    var q, c := RawFraction(k, m), x % 1000;
    RawBounds(k, m);
    assert x == 1000 * m + c && rem < 1000 * k + 1000;
    Upper(k, m, q, x);
    Lower(k, m, q, c, x);
  }

  lemma Upper(k: nat, m: nat, q: nat, x: nat)
    requires m > 0 && k * 32768 < (q + 1) * m && x >= 1000 * m
    ensures x * q + x > 32768 * 1000 * k
  {
    MulNonNegative(q + 1, x - 1000 * m);
    assert x * q + x == (q + 1) * x == (q + 1) * (x - 1000 * m) + 1000 * ((q + 1) * m);
  }

  lemma Lower(k: nat, m: nat, q: nat, c: nat, x: nat)
    requires m > 0 && k <= m && q * m <= k * 32768 && q <= 32768 && c < 1000 && x == 1000 * m + c
    ensures x * q <= 32768 * 1000 * k + 32768 * c
    ensures c == 0 ==> x * q <= 32768 * 1000 * k
  {
    assert x * q == 1000 * (q * m) + c * q;
    MulNonNegative(c, 32768 - q);
    assert c * (32768 - q) == 32768 * c - c * q;
  }

  /** Within 1000 Hz and one step of the fraction of the wanted frequency. */
  predicate Near(f: nat, x: nat, encoded: int) {
    var e := 32768 * f - encoded;
    -32768 * 1000 < e < 32768 * 1000 + x
  }

  /** The registers encode the wanted VCO frequency exactly when divider and fraction agree; if not,
      they are off by a whole step of the divider. With x in whole kilohertz they never err upwards. */
  lemma AccurateIff(f: nat, x: nat)
    requires ClockInRange(x)
    ensures var e := Encoded(x, Rounded(f, x), Fraction(f % x, x));
      && (Near(f, x, e) <==> Agree(f % x, x))
      && (Agree(f % x, x) && x % 1000 == 0 ==> e <= 32768 * f)
  {
    assert x >= 2100000;
    hide *;
    var q, rem := f / x, f % x;
    var up, down := Up(rem, x), Down(rem, x);
    RoundedIs(f, x);
    Decompose(f, x);
    RawError(rem, x);
    FractionIsSigned(rem, x);
    AgreeIs(rem, x);
    Parts(f, x, q, rem, up, down, RawFraction(rem / 1000, x / 1000), Fraction(rem, x));
  }

  /** Whether the divider, and whether the fraction, was rounded up. */
  function Up(rem: nat, x: nat): (u: nat) {
    if rem >= x / 2 then 1 else 0
  }

  function Down(rem: nat, x: nat): (d: nat) {
    if 2 * (rem / 1000) >= x / 1000 then 1 else 0
  }

  lemma RoundedIs(f: nat, x: nat)
    requires ClockInRange(x)
    ensures x >= 2100000 && Rounded(f, x) == f / x + Up(f % x, x)
  {}

  lemma AgreeIs(rem: nat, x: nat)
    ensures Agree(rem, x) <==> Up(rem, x) == Down(rem, x)
    ensures Up(rem, x) <= 1 && Down(rem, x) <= 1
  {}

  lemma Parts(f: nat, x: nat, q: nat, rem: nat, up: nat, down: nat, raw: nat, w: nat)
    requires x >= 2100000 && up <= 1 && down <= 1 && Signed(w) == raw - 32768 * down
    requires 32768 * f == 32768 * (x * q) + 32768 * rem
    requires -32768 * 1000 < 32768 * rem - x * raw < 32768 * 1000 + x
    ensures Near(f, x, Encoded(x, q + up, w)) <==> up == down
    ensures up == down && 32768 * rem >= x * raw ==> Encoded(x, q + up, w) <= 32768 * f
  {
    Expand(x, q, up, down, raw, w);
    hide *;
    Decide(f, x, 32768 * (x * q), 32768 * rem, x * raw, up, down, Encoded(x, q + up, w));
  }

  lemma Decompose(f: nat, x: nat)
    requires x > 0
    ensures f % x < x && 32768 * f == 32768 * (x * (f / x)) + 32768 * (f % x)
  {}

  lemma Decide(f: nat, x: nat, base: int, rest: int, taken: int, up: nat, down: nat, encoded: int)
    requires x >= 2100000 && up <= 1 && down <= 1 && 32768 * f == base + rest
    requires -32768 * 1000 < rest - taken < 32768 * 1000 + x
    requires encoded == base + taken + (if up > down then 32768 * x else if up < down then -32768 * x else 0)
    ensures Near(f, x, encoded) <==> up == down
    ensures up == down && rest >= taken ==> encoded <= 32768 * f
  {}

  lemma Expand(x: nat, q: nat, up: nat, down: nat, raw: nat, w: nat)
    requires Signed(w) == raw - 32768 * down && up <= 1 && down <= 1
    ensures Encoded(x, q + up, w)
      == 32768 * (x * q) + x * raw + (if up > down then 32768 * x else if up < down then -32768 * x else 0)
  {
    assert x * (32768 * (q + up) + (raw - 32768 * down)) == 32768 * (x * q) + x * raw + 32768 * x * (up - down);
  }

  /** A clock that halves to whole even kilohertz always agrees; the crystal of the dongle does. */
  lemma EvenKilohertzAgree(rem: nat, x: nat)
    requires x % 2000 == 0
    ensures Agree(rem, x)
  {
    var y := x / 2000;
    assert x == 2000 * y && x / 2 == 1000 * y && x / 1000 == 2 * y;
  }

  lemma DividerInRange(f: nat, x: nat)
    requires f < 0x1_0000_0000 && ClockInRange(x)
    ensures x >= 2100000 && 0 <= f / x <= 2046 && f - f / x * x == f % x < x
  {
    QuotientBelow(f, x, 2047);
    assert f == x * (f / x) + f % x;
  }

  method Divider(f: nat, x: nat) returns (xdiv: nat)
    requires f < 0x1_0000_0000 && ClockInRange(x)
    ensures xdiv == Rounded(f, x) < 2048
  {
    DividerInRange(f, x);
    xdiv := f / x;
    if f - xdiv * x >= x / 2 {
      xdiv := xdiv + 1;
    }
  }

  method SplitDivider(xdiv: nat) returns (reg1: nat, reg2: nat)
    requires xdiv < 2048
    ensures (reg1, reg2) == Split(xdiv)
  {
    var pm := xdiv / 8;
    var am := xdiv - 8 * pm;
    if am < 2 {
      am := am + 8;
      pm := (pm + 255) % 256;
    }
    if pm > 31 {
      reg1, reg2 := (am + 8 * (pm - 31)) % 256, 31;
    } else {
      reg1, reg2 := am, pm;
    }
  }

  method FractionWord(f: nat, x: nat) returns (xin: nat)
    requires f < 0x1_0000_0000 && ClockInRange(x)
    ensures x >= 2100000 && f % x < x && xin == Fraction(f % x, x)
  {
    hide RawFraction;
    DividerInRange(f, x);
    xin := RawFraction((f - f / x * x) / 1000, x / 1000);
    if xin >= 16384 {
      xin := (xin + 32768) % 65536;
    }
  }

  /** The register pair is the fraction of the remainder in kHz, in 32768ths rounded down, less a whole
      one from a half on. */
  ghost predicate IsFraction(rem: nat, x: nat, w: nat) {
    exists q: nat ::
      && (x / 1000) * q <= 32768 * (rem / 1000) < (x / 1000) * q + x / 1000
      && Signed(w) == q - (if q >= 16384 then 32768 else 0)
  }

  lemma FractionMeaning(rem: nat, x: nat)
    requires x >= 1000 && rem < x
    ensures IsFraction(rem, x, Fraction(rem, x)) && Fraction(rem, x) < 65536
  {
    var k, m := rem / 1000, x / 1000;
    var n := k * 32768;
    var q := n / m;
    assert n == m * q + n % m;
    assert k <= m;
    assert m * (q - 32768) == m * q - m * 32768;
    if q > 32768 { MulAtLeast(m, q - 32768); }
    assert q == RawFraction(k, m);
    assert Signed(Fraction(rem, x)) == q - (if q >= 16384 then 32768 else 0);
    assert m * q <= 32768 * k < m * q + m;
  }

  /** The two registers together are the divider but for multiples of 256. */
  lemma SplitKeepsLowBits(xdiv: nat)
    requires xdiv < 2048
    ensures var (r1, r2) := Split(xdiv); (8 * r2 + r1) % 256 == xdiv % 256
  {
    var pm0, am0 := xdiv / 8, xdiv % 8;
    var am := if am0 < 2 then am0 + 8 else am0;
    var pm := if am0 < 2 then (pm0 + 255) % 256 else pm0;
    assert 8 * pm + am == if pm0 == 0 && am0 < 2 then xdiv + 8 * 256 else xdiv;
    ModShift(xdiv, 8, 256);
    if pm > 31 { CarriedInto(am, pm); }
  }

  /** What register 2 cannot hold goes into register 1, as far as it has room. */
  lemma CarriedInto(am: nat, pm: nat)
    requires pm > 31
    ensures (8 * 31 + (am + 8 * (pm - 31)) % 256) % 256 == (8 * pm + am) % 256
  {
    var w := am + 8 * (pm - 31);
    assert w == 256 * (w / 256) + w % 256;
    ModShift(8 * pm + am, -(w / 256), 256);
  }

  /** The registers hold the rounded divider unless it was one that only passed by wrap-around, when it
      is off by a multiple of 256; they encode the VCO frequency unless divider and fraction were
      rounded differently. */
  ghost predicate Tunes(f: nat, x: nat, r: Regs)
    requires x > 0
  {
    var xdiv, held, w := Rounded(f, x), 8 * r.r2 + r.r1, 256 * r.r3 + r.r4;
    && (held == xdiv <==> Representable(xdiv)) && held % 256 == xdiv % 256
    && IsFraction(f % x, x, w)
    && (Representable(xdiv) ==> (Near(f, x, Encoded(x, held, w)) <==> Agree(f % x, x)))
  }

  lemma RegistersTune(f: nat, x: nat, r: Regs)
    requires f < 0x1_0000_0000 && ClockInRange(x) && x > 0 && f % x < x && x >= 1000 && Rounded(f, x) < 2048
    requires (r.r1, r.r2) == Split(Rounded(f, x)) && 256 * r.r3 + r.r4 == Fraction(f % x, x)
    ensures Valid(Split(Rounded(f, x))) <==> Accepted(Rounded(f, x))
    ensures Valid(Split(Rounded(f, x))) ==> Tunes(f, x, r)
  {
    AccurateIff(f, x);
    FractionMeaning(f % x, x);
    var xdiv := Rounded(f, x);
    ValidIff(xdiv);
    SplitKeepsLowBits(xdiv);
    if Valid(Split(xdiv)) { SplitIsRight(xdiv); }
    hide Encoded, Near, Agree, Split, Valid, Rounded, Fraction, Representable, IsFraction;
  }

  /** The bits of registers 5 and 6 beside the PLL words. */
  function Controls(freq: nat, bandwidth: nat): (nat, nat) {
    (Multi(freq).1 / 8 * 8 + 7,
     Multi(freq).2 + (if Vco(freq) >= 3060000000 then 0x08 else 0) + 0x20
     + (if bandwidth == 6000000 then 0x80 else if bandwidth == 7000000 then 0x40 else 0))
  }

  /** The output divider can be read back from them: one of 1, 2, 4, 8, 16 times four or six. */
  lemma ControlsDecode(freq: nat, bandwidth: nat)
    ensures var (r5, r6) := Controls(freq, bandwidth);
      Multi(freq).0 == r5 / 8 * (if r6 / 2 % 2 == 1 then 4 else 6)
  {
    hide Vco;
  }

  /** The registers for a frequency, or failure. */
  method SetParams(freq: nat, clock: nat, bandwidth: nat) returns (r: Option<Regs>)
    requires freq < 0x1_0000_0000 && ClockInRange(clock / 2)
    ensures clock > 0 && (r.Some? <==> Accepted(Rounded(Vco(freq), clock / 2)))
    ensures r.Some? ==> Tunes(Vco(freq), clock / 2, r.value) && (r.value.r5, r.value.r6) == Controls(freq, bandwidth)
  {
    hide Rounded, Tunes, Accepted, Split, Fraction, Vco, Multi;
    var x := clock / 2;
    var (_, reg5, reg6) := Multi(freq);
    var f := Vco(freq);
    if f >= 3060000000 { reg6 := reg6 + 0x08; }
    var xdiv := Divider(f, x);
    var reg1, reg2 := SplitDivider(xdiv);
    var xin := FractionWord(f, x);
    RegistersTune(f, x, Regs(reg1, reg2, xin / 256, xin % 256, 0, 0));
    if reg1 > 15 || reg2 < 0x0b {
      return None;
    }
    reg6 := reg6 + 0x20;
    match bandwidth {
      case 6000000 => reg6 := reg6 + 0x80;
      case 7000000 => reg6 := reg6 + 0x40;
      case _ =>
    }
    reg5 := reg5 / 8 * 8 + 7;  // reg[5] |= 0x07
    r := Some(Regs(reg1, reg2, xin / 256, xin % 256, reg5, reg6));
    RegistersTune(f, x, r.value);
  }

  /** The dividers accepted by wrap-around are reached: by frequency 0, whose VCO is 0. */
  lemma ZeroFrequencyAccepted(x: nat)
    requires ClockInRange(x)
    ensures x > 0 && Accepted(Rounded(Vco(0), x)) && !Representable(Rounded(Vco(0), x))
  {
    DivModUnique(0, x, 0, 0);
  }

  /** And with a 16 MHz clock by 1010 MHz, whose divider 505 is stored as 249. */
  lemma LargeDividerAccepted()
    ensures Rounded(Vco(1010000000), 8000000) == 505
    ensures Accepted(505) && Split(505) == (1, 31)
  {}

  /** With a clock of 28.802 MHz the two roundings disagree at 721.850125 MHz, whose divider fits. */
  lemma RoundingsDisagree()
    ensures Vco(721850125) == 2887400500 && ClockInRange(28802000 / 2)
    ensures Rounded(2887400500, 28802000 / 2) == 201 && Representable(201)
    ensures !Agree(2887400500 % (28802000 / 2), 28802000 / 2)
    ensures var half := 28802000 / 2; !Near(2887400500, half, Encoded(half, 201, Fraction(2887400500 % half, half)))
  {
    AccurateIff(2887400500, 28802000 / 2);
  }

  /** The other bits of registers 5 and 6: the low three of register 5, the VCO half from 3.06 GHz on,
      bit 5, and the bandwidth: 10 for 6 MHz, 01 for 7 MHz, 00 for all else. */
  lemma ControlBits(freq: nat, bandwidth: nat)
    ensures var (r5, r6) := Controls(freq, bandwidth);
      && r5 < 256 && r5 % 8 == 7
      && r6 < 256 && r6 % 2 == 0 && r6 / 4 % 2 == 0 && r6 / 16 % 2 == 0
      && (r6 / 8 % 2 == 1 <==> Vco(freq) >= 3060000000)
      && r6 / 32 % 2 == 1
      && r6 / 64 == (if bandwidth == 6000000 then 2 else if bandwidth == 7000000 then 1 else 0)
  {
    hide Vco;
  }

  /** Exactly one of bits 3 to 7 of register 5 is set: it names the divider chain. */
  lemma ChainIsOne(freq: nat, bandwidth: nat)
    ensures var chain := Controls(freq, bandwidth).0 / 8; chain in {1, 2, 4, 8, 16}
  {
    hide Vco;
  }

  predicate IsChain(div: nat) {
    div in {96, 64, 48, 32, 24, 16, 12, 8, 6, 4}
  }

  /** The table picks the largest divider that keeps the VCO, in whole kilohertz, below 3.56 GHz. */
  lemma LargestDivider(freq: nat)
    ensures var div := Multi(freq).0;
      && IsChain(div) && (div > 4 ==> freq / 1000 * div < 3560000)
      && forall other: nat | IsChain(other) && other > div :: freq / 1000 * other >= 3560000
  {}
}
