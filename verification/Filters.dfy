/** The boxcar and the 9-tap compensation filter rtl_power runs in place over interleaved samples. */
module Filters {
  import opened CArith
  import opened Decimators

  /** The nine samples before sample t, weighted symmetrically. */
  function Taps(x: seq<int>, fir: seq<int>, t: nat): int
    requires 9 <= t < |x| && |fir| >= 6
  {
    (x[t - 9] + x[t - 1]) * fir[1] + (x[t - 8] + x[t - 2]) * fir[2] + (x[t - 7] + x[t - 3]) * fir[3]
    + (x[t - 6] + x[t - 4]) * fir[4] + x[t - 5] * fir[5]
  }

  /** What the filter makes of sample t: the first nine pass unfiltered. */
  function FirOut(x: seq<int>, fir: seq<int>, t: nat): int
    requires t < |x| && |fir| >= 6
  {
    if t < 9 then x[t] else ToInt16(Shr(Taps(x, fir, t), 15))
  }

  /** A half of which the samples before t are filtered. */
  ghost predicate Fired(s: seq<int>, was: seq<int>, off: nat, length: nat, fir: seq<int>, t: nat)
    requires off + length <= |was| && |fir| >= 6 && length > 0 && t <= Count(length)
  {
    var x := Half(was, off, Count(length));
    && |s| == |was|
    && (forall k | 0 <= k < t :: s[off + 2 * k] == FirOut(x, fir, k))
    && (forall k | t <= k < Count(length) :: s[off + 2 * k] == x[k])
    && (forall k | 0 <= k < |s| && (k < off || k >= off + length || (k - off) % 2 == 1) :: s[k] == was[k])
  }

  lemma FiredStep(s: seq<int>, was: seq<int>, off: nat, length: nat, fir: seq<int>, t: nat)
    requires off + length <= |was| && |fir| >= 6 && length > 0 && t < Count(length)
    requires Fired(s, was, off, length, fir, t)
    ensures |s| == |was| && s[off + 2 * t] == Half(was, off, Count(length))[t]
    ensures Fired(s[off + 2 * t := FirOut(Half(was, off, Count(length)), fir, t)], was, off, length, fir, t + 1)
  {
    hide FirOut;
  }

  lemma FiredStart(was: seq<int>, off: nat, length: nat, fir: seq<int>)
    requires off + length <= |was| && |fir| >= 6 && length >= 17
    ensures Fired(was, was, off, length, fir, 9)
  {}

  /** The history: the nine original samples before sample t. */
  ghost predicate Remembers(h: seq<int>, x: seq<int>, t: nat)
    requires 9 <= t <= |x|
  {
    h == x[t - 9..t]
  }

  /** The history weighted as the loop does it. */
  function Weigh(h: seq<int>, fir: seq<int>): int
    requires |h| == 9 && |fir| >= 6
  {
    (h[0] + h[8]) * fir[1] + (h[1] + h[7]) * fir[2] + (h[2] + h[6]) * fir[3] + (h[3] + h[5]) * fir[4] + h[4] * fir[5]
  }

  lemma WeighIsTaps(h: seq<int>, x: seq<int>, fir: seq<int>, t: nat)
    requires 9 <= t < |x| && Remembers(h, x, t) && |fir| >= 6
    ensures Weigh(h, fir) == Taps(x, fir, t)
  {}

  lemma RememberNext(h: seq<int>, now: seq<int>, x: seq<int>, t: nat)
    requires 9 <= t < |x| && Remembers(h, x, t) && |now| == 9 && now[8] == x[t]
    requires forall k | 0 <= k < 8 :: now[k] == h[k + 1]
    ensures Remembers(now, x, t + 1)
  {}

  method Convolve(hist: array<int>, fir: seq<int>) returns (sum: int)
    requires hist.Length == 9 && |fir| >= 6
    ensures sum == Wrap32(Weigh(hist[..], fir))
  {
    hide Plus32, Wrap32;
    sum := 0;
    sum := Plus32(sum, (hist[0] + hist[8]) * fir[1]);
    sum := Plus32(sum, (hist[1] + hist[7]) * fir[2]);
    sum := Plus32(sum, (hist[2] + hist[6]) * fir[3]);
    sum := Plus32(sum, (hist[3] + hist[5]) * fir[4]);
    sum := Plus32(sum, hist[4] * fir[5]);
    FiveTerms((hist[0] + hist[8]) * fir[1], (hist[1] + hist[7]) * fir[2], (hist[2] + hist[6]) * fir[3],
              (hist[3] + hist[5]) * fir[4], hist[4] * fir[5]);
  }

  /** `sum += term` in 32 bits. */
  function Plus32(sum: int, term: int): int {
    Wrap32(sum + Wrap32(term))
  }

  /** A wrapped term or a wrapped sum so far changes nothing once the total is wrapped. */
  lemma FiveTerms(t1: int, t2: int, t3: int, t4: int, t5: int)
    ensures Plus32(Plus32(Plus32(Plus32(Plus32(0, t1), t2), t3), t4), t5) == Wrap32(t1 + t2 + t3 + t4 + t5)
  {
    hide Wrap32;
    WrappedTerm(0, t1);
    WrappedTerm(t1, t2);
    WrappedTerm(t1 + t2, t3);
    WrappedTerm(t1 + t2 + t3, t4);
    WrappedTerm(t1 + t2 + t3 + t4, t5);
  }

  lemma WrappedTerm(sum: int, term: int)
    ensures Wrap32(0) == 0 && Wrap32(Wrap32(sum) + Wrap32(term)) == Wrap32(sum + term)
  {
    var m, n := TurnsOf(sum), TurnsOf(term);
    ModShift(sum + term + 0x8000_0000, -(m + n), 0x1_0000_0000);
  }

  /** How often a value goes round the 32-bit range. */
  function TurnsOf(x: int): (n: int)
    ensures Wrap32(x) == x - n * 0x1_0000_0000
  {
    (x + 0x8000_0000) / 0x1_0000_0000
  }

  /** The 32-bit sum may wrap, but not the 16 bits of it that are kept: they are bits 15 to 30. */
  lemma KeptBitsSurvive(s: int)
    ensures ToInt16(Shr(Wrap32(s), 15)) == ToInt16(Shr(s, 15))
  {
    var k := Shr(s, 15);
    var turns := TurnsOf(s);
    Pow2Of15();
    assert Shr(Wrap32(s), 15) == k - turns * 0x2_0000;
    SameInt16(k, turns);
  }

  lemma Pow2Of15()
    ensures Pow2(15) == 32768
  {
    assert Pow2(5) == 32;
    Pow2Add(5, 5);
    Pow2Add(10, 5);
  }

  lemma SameInt16(k: int, turns: int)
    ensures ToInt16(k - turns * 0x2_0000) == ToInt16(k)
  {
    ModShift(k, -2 * turns, 65536);
  }

  /** One loud sample is enough for the second row of cic_9_tables to pass 32 bits. */
  lemma SumPasses32Bits(h: seq<int>, fir: seq<int>)
    requires h == [0, 0, 0, 0, 32767, 0, 0, 0, 0] && fir == [9, -128, -568, 5593, -24125, 74126]
    ensures Weigh(h, fir) == 2428886642 > 0x7fff_ffff
  {}

  /** The filter in place: a sample is read before it is overwritten and the history holds the
      originals, so every output is that of the original samples. */
  method GenericFir(data: array<int>, off: nat, length: nat, fir: seq<int>)
    requires length >= 17 && off + length <= data.Length && |fir| >= 6
    modifies data
    ensures Fired(data[..], old(data[..]), off, length, fir, Count(length))
  {
    hide Fired, Remembers, Taps, Half, ToInt16, Shr, Weigh, Wrap32;
    ghost var was := data[..];
    ghost var x := Half(was, off, Count(length));
    var hist := new int[9];
    FiredStart(was, off, length, fir);
    FillHistory(data, off, length, hist);
    var d := 18;
    ghost var t := 9;
    while d < length
      invariant d == 2 * t && 9 <= t <= Count(length)
      invariant Remembers(hist[..], x, t) && Fired(data[..], was, off, length, fir, t)
    {
      FiredStep(data[..], was, off, length, fir, t);
      WeighIsTaps(hist[..], x, fir, t);
      ghost var h := hist[..];
      var temp := data[off + d];
      var sum := Convolve(hist, fir);
      KeptBitsSurvive(Weigh(h, fir));
      data[off + d] := ToInt16(Shr(sum, 15));
      ShiftIn(hist, temp);
      RememberNext(h, hist[..], x, t);
      d := d + 2;
      t := t + 1;
    }
  }

  method FillHistory(data: array<int>, off: nat, length: nat, hist: array<int>)
    requires length >= 17 && off + length <= data.Length && hist.Length == 9 && hist != data
    modifies hist
    ensures Remembers(hist[..], Half(data[..], off, Count(length)), 9)
  {
    ghost var x := Half(data[..], off, Count(length));
    var d := 0;
    while d < 18
      invariant d % 2 == 0 && d <= 18
      invariant forall k | 0 <= k < d / 2 :: hist[k] == x[k]
    {
      assert x[d / 2] == data[off + d];
      hist[d / 2] := data[off + d];
      d := d + 2;
    }
  }

  method ShiftIn(hist: array<int>, temp: int)
    requires hist.Length == 9
    modifies hist
    ensures forall k | 0 <= k < 8 :: hist[k] == old(hist[k + 1])
    ensures hist[8] == temp
  {
    hist[0] := hist[1];
    hist[1] := hist[2];
    hist[2] := hist[3];
    hist[3] := hist[4];
    hist[4] := hist[5];
    hist[5] := hist[6];
    hist[6] := hist[7];
    hist[7] := hist[8];
    hist[8] := temp;
  }

  /** x[lo] + ... + x[hi-1]. */
  function Sum(x: seq<int>, lo: nat, hi: nat): int
    requires lo <= hi <= |x|
  {
    if lo == hi then 0 else Sum(x, lo, hi - 1) + x[hi - 1]
  }

  lemma WrapAdd(a: int, b: int)
    ensures ToInt16(ToInt16(a) + b) == ToInt16(a + b)
  {}

  /** Point t of one component when j points have been visited: a sum in its block's place, a zero
      where a visited sample was, or an unvisited sample. */
  function Boxed(ds: nat, x: seq<int>, j: nat, t: nat): int
    requires j <= |x| && t < |x| && ds > 0
  {
    if t * ds < j then ToInt16(Sum(x, t * ds, if (t + 1) * ds < j then (t + 1) * ds else j))
    else if t < j then 0
    else x[t]
  }

  /** Visiting point j adds it to block j2 and clears it; all else stays. */
  lemma BoxedStep(ds: nat, x: seq<int>, j: nat, j2: nat, t: nat)
    requires ds > 1 && 1 <= j < |x| && j2 * ds <= j < (j2 + 1) * ds && t < |x|
    ensures j2 < j && Boxed(ds, x, j, j) == x[j]
    ensures Boxed(ds, x, j + 1, t) ==
      if t == j2 then ToInt16(Boxed(ds, x, j, j2) + x[j]) else if t == j then 0 else Boxed(ds, x, j, t)
  {
    BlockBelow(ds, j, j2);
    Ordered(ds, j2, t);
    Ordered(ds, j, t);
    if t == j2 {
      if j2 * ds < j {
        WrapAdd(Sum(x, j2 * ds, j), x[j]);
      }
    }
  }

  lemma BlockBelow(ds: nat, j: nat, j2: nat)
    requires ds > 1 && 1 <= j && j2 * ds <= j < (j2 + 1) * ds
    ensures j2 < j && j * ds > j
  {
    if j2 > 0 { MulAtLeast(j2, ds - 1); }
    MulAtLeast(j, ds - 1);
  }

  /** Blocks are in the order of their numbers. */
  lemma Ordered(ds: nat, a: nat, b: nat)
    requires ds > 1
    ensures a < b ==> (a + 1) * ds <= b * ds
    ensures b < a ==> (b + 1) * ds <= a * ds
    ensures (a + 1) * ds == a * ds + ds
  {
    if a < b { MulNonNegative(ds, b - (a + 1)); }
    if b < a { MulNonNegative(ds, a - (b + 1)); }
  }

  ghost predicate BoxedTo(ds: nat, s: seq<int>, was: seq<int>, n: nat, j: nat)
    requires ds > 0 && |was| == 2 * n && 1 <= j <= n
  {
    && |s| == |was|
    && (forall t | 0 <= t < n :: s[2 * t] == Boxed(ds, Half(was, 0, n), j, t))
    && (forall t | 0 <= t < n :: s[2 * t + 1] == Boxed(ds, Half(was, 1, n), j, t))
  }

  predicate Int16s(s: seq<int>) {
    forall k | 0 <= k < |s| :: -32768 <= s[k] < 32768
  }

  lemma BoxedStart(ds: nat, was: seq<int>, n: nat)
    requires ds > 1 && |was| == 2 * n && n >= 1 && Int16s(was)
    ensures BoxedTo(ds, was, was, n, 1)
  {
    forall t, c | 0 <= t < n && 0 <= c < 2
      ensures was[2 * t + c] == Boxed(ds, Half(was, c, n), 1, t)
    {
      FirstBox(ds, Half(was, c, n), t);
    }
  }

  lemma FirstBox(ds: nat, x: seq<int>, t: nat)
    requires ds > 1 && t < |x| && Int16s(x)
    ensures Boxed(ds, x, 1, t) == x[t]
  {
    Ordered(ds, 0, t);
    assert Sum(x, 0, 1) == Sum(x, 0, 0) + x[0];
  }

  /** One iteration of the boxcar on both components. */
  function Visited(s: seq<int>, j: nat, j2: nat): (r: seq<int>)
    requires 2 * j + 1 < |s| && j2 < j
  {
    s[2 * j2 := ToInt16(s[2 * j2] + s[2 * j])][2 * j2 + 1 := ToInt16(s[2 * j2 + 1] + s[2 * j + 1])]
     [2 * j := 0][2 * j + 1 := 0]
  }

  lemma VisitedBoxed(ds: nat, s: seq<int>, was: seq<int>, n: nat, j: nat, j2: nat)
    requires ds > 1 && |was| == 2 * n && 1 <= j < n && j2 * ds <= j < (j2 + 1) * ds
    requires BoxedTo(ds, s, was, n, j)
    ensures j2 < j && |s| == |was| && BoxedTo(ds, Visited(s, j, j2), was, n, j + 1)
  {
    hide Boxed, ToInt16;
    BlockBelow(ds, j, j2);
    var r := Visited(s, j, j2);
    forall t | 0 <= t < n ensures r[2 * t] == Boxed(ds, Half(was, 0, n), j + 1, t) {
      BoxedStep(ds, Half(was, 0, n), j, j2, t);
    }
    forall t | 0 <= t < n ensures r[2 * t + 1] == Boxed(ds, Half(was, 1, n), j + 1, t) {
      BoxedStep(ds, Half(was, 1, n), j, j2, t);
    }
  }

  /** The block is complete exactly when the code's test on doubled indices says so. */
  lemma BlockComplete(ds: nat, j: nat, j2: nat)
    requires ds > 1 && j2 * ds < j <= (j2 + 1) * ds
    ensures (2 * j) % (ds * 2) == 0 <==> j == (j2 + 1) * ds
  {
    if j == (j2 + 1) * ds {
      DivModUnique(2 * j, ds * 2, j2 + 1, 0);
    } else {
      DivModUnique(2 * j, ds * 2, j2, 2 * (j - j2 * ds));
    }
  }

  /** The boxcar in place: each component's point t becomes the wrapped sum of its block of ds
      original points, and the points past the blocks are cleared. */
  method Boxcar(buf: array<int>, ds: nat)
    requires ds > 1 && buf.Length >= 2 && buf.Length % 2 == 0 && Int16s(buf[..])
    modifies buf
    ensures BoxedTo(ds, buf[..], old(buf[..]), buf.Length / 2, buf.Length / 2)
  {
    hide BoxedTo, ToInt16;
    ghost var was, n := buf[..], buf.Length / 2;
    ghost var at, block := 1, 0;
    var j, j2 := 2, 0;
    BoxedStart(ds, was, n);
    while j < buf.Length
      invariant j == 2 * at && j2 == 2 * block && 1 <= at <= n
      invariant block * ds <= at < (block + 1) * ds && BoxedTo(ds, buf[..], was, n, at)
    {
      VisitedBoxed(ds, buf[..], was, n, at, block);
      BlockComplete(ds, at + 1, block);
      ghost var s := buf[..];
      buf[j2] := ToInt16(buf[j2] + buf[j]);
      buf[j2 + 1] := ToInt16(buf[j2 + 1] + buf[j + 1]);
      buf[j] := 0;
      buf[j + 1] := 0;
      assert buf[..] == Visited(s, at, block);
      j, at := j + 2, at + 1;
      if j % (ds * 2) == 0 {
        Ordered(ds, block, block + 1);
        j2, block := j2 + 2, block + 1;
      }
    }
  }

  /** What that means for a block: its sum, if it does not overflow; and zero past the last one. */
  lemma BoxcarOutputs(ds: nat, x: seq<int>, t: nat)
    requires ds > 1 && t < |x|
    ensures (t + 1) * ds <= |x| ==> Boxed(ds, x, |x|, t) == ToInt16(Sum(x, t * ds, (t + 1) * ds))
    ensures t * ds < |x| < (t + 1) * ds ==> Boxed(ds, x, |x|, t) == ToInt16(Sum(x, t * ds, |x|))
    ensures t * ds >= |x| ==> Boxed(ds, x, |x|, t) == 0
  {
    Ordered(ds, t, t + 1);
  }

  // ----- what the filter is

  /** The weight of the sample d before: that of the sample 10-d before is the same. */
  function Response(fir: seq<int>, d: nat): int
    requires |fir| >= 6
  {
    if 1 <= d <= 5 then fir[d] else if 5 < d <= 9 then fir[10 - d] else 0
  }

  /** The convolution of the n samples before t with that response. */
  function Convolution(x: seq<int>, fir: seq<int>, t: nat, n: nat): int
    requires n <= t < |x| && |fir| >= 6
  {
    if n == 0 then 0 else Convolution(x, fir, t, n - 1) + x[t - n] * Response(fir, n)
  }

  lemma TapsAreConvolution(x: seq<int>, fir: seq<int>, t: nat)
    requires 9 <= t < |x| && |fir| >= 6
    ensures Taps(x, fir, t) == Convolution(x, fir, t, 9)
  {
    ConvolutionStep(x, fir, t, 0);
    ConvolutionStep(x, fir, t, 1);
    ConvolutionStep(x, fir, t, 2);
    ConvolutionStep(x, fir, t, 3);
    ConvolutionStep(x, fir, t, 4);
    ConvolutionStep(x, fir, t, 5);
    ConvolutionStep(x, fir, t, 6);
    ConvolutionStep(x, fir, t, 7);
    ConvolutionStep(x, fir, t, 8);
    hide Convolution;
    Distributed(x[t - 9], x[t - 1], fir[1]);
    Distributed(x[t - 8], x[t - 2], fir[2]);
    Distributed(x[t - 7], x[t - 3], fir[3]);
    Distributed(x[t - 6], x[t - 4], fir[4]);
  }

  lemma ConvolutionStep(x: seq<int>, fir: seq<int>, t: nat, n: nat)
    requires n < t < |x| && |fir| >= 6
    ensures Convolution(x, fir, t, 0) == 0
    ensures Convolution(x, fir, t, n + 1) == Convolution(x, fir, t, n) + x[t - (n + 1)] * Response(fir, n + 1)
  {}

  lemma Distributed(a: int, b: int, c: int)
    ensures (a + b) * c == a * c + b * c
  {}

  /** From sample 9 on the output is the convolution divided by 2^15, rounded down, in 16 bits. */
  lemma FirOutMeaning(x: seq<int>, fir: seq<int>, t: nat, v: int)
    requires t < |x| && |fir| >= 6
    ensures t < 9 ==> FirOut(x, fir, t) == x[t]
    ensures t >= 9 && -32768 <= v < 32768 && 32768 * v <= Convolution(x, fir, t, 9) < 32768 * (v + 1) ==>
      FirOut(x, fir, t) == v
  {
    if t >= 9 {
      TapsAreConvolution(x, fir, t);
      hide Taps, Convolution;
      ShrMeaning(Taps(x, fir, t), 15);
      Pow2Of15();
    }
  }
}
