/** The in-place filters rtl_power runs over interleaved samples before the transform. */
module Decimators {
  import opened CArith

  /** Every second element from off on: one half of interleaved data, n points of it. */
  function Half(s: seq<int>, off: nat, n: nat): (x: seq<int>)
    requires n > 0 ==> off + 2 * (n - 1) < |s|
    ensures |x| == n
    ensures forall t | 0 <= t < n :: x[t] == s[off + 2 * t]
  {
    seq(n, t requires 0 <= t < n => s[off + 2 * t])
  }

  /** The points of a half of the given length. */
  function Count(length: nat): nat {
    (length + 1) / 2
  }

  /** The samples tap k of output j reads. Outputs 3 and 4 both read sample 5 twice; from output 5 on
      the six taps are the samples up to 2j. */
  function Tap(j: nat, k: nat): (t: nat)
    requires k < 6
    ensures j >= 5 ==> t == 2 * j - 5 + k
    ensures j >= 3 ==> t <= 2 * j && (k < 4 ==> t <= 2 * j - 2 || t <= 5)
  {
    if j < 3 then k
    else if j == 3 then (if k < 4 then k + 2 else k + 1)
    else if j == 4 then (if k < 2 then k + 4 else k + 3)
    else 2 * j - 5 + k
  }

  function Weighted(a: int, b: int, c: int, d: int, e: int, f: int): int {
    Shr(a + (b + e) * 5 + (c + d) * 10 + f, 4)
  }

  /** Output j of the fifth-order filter on n >= 6 samples. The first two are eased in. */
  function Fifth(x: seq<int>, j: nat): int
    requires |x| >= 6 && (j < 3 || 2 * j < |x|)
  {
    if j == 0 then Shr((x[0] + x[1]) * 10 + (x[2] + x[3]) * 5 + x[3] + x[5], 4)
    else if j == 1 then Shr((x[1] + x[2]) * 10 + (x[0] + x[3]) * 5 + x[4] + x[5], 4)
    else Weighted(x[Tap(j, 0)], x[Tap(j, 1)], x[Tap(j, 2)], x[Tap(j, 3)], x[Tap(j, 4)], x[Tap(j, 5)])
  }

  function Outputs(n: nat): nat {
    if n < 6 then 3 else (n + 1) / 2
  }

  /** The half after the filter: the outputs, then what was left alone. */
  function Decimated(x: seq<int>): (y: seq<int>)
    requires |x| >= 6
    ensures |y| == Outputs(|x|)
    ensures forall j | 0 <= j < |y| :: y[j] == ToInt16(Fifth(x, j))
  {
    seq(Outputs(|x|), j requires 0 <= j < Outputs(|x|) => ToInt16(Fifth(x, j)))
  }

  /** A half of which the first j outputs are in place. */
  ghost predicate Filtered(s: seq<int>, was: seq<int>, off: nat, length: nat, j: nat)
    requires length >= 11 && off + length <= |was| && (j < 3 || 2 * (j - 1) < Count(length))
  {
    var x := Half(was, off, Count(length));
    && |s| == |was|
    && (forall t | 0 <= t < j :: s[off + 2 * t] == ToInt16(Fifth(x, t)))
    && (forall t | j <= t < Count(length) :: s[off + 2 * t] == x[t])
    && (forall k | 0 <= k < |s| && (k < off || k >= off + length || (k - off) % 2 == 1) :: s[k] == was[k])
  }

  lemma FilteredStep(s: seq<int>, was: seq<int>, off: nat, length: nat, j: nat, v: int)
    requires length >= 11 && off + length <= |was| && j >= 3 && 2 * j < Count(length)
    requires Filtered(s, was, off, length, j) && v == ToInt16(Fifth(Half(was, off, Count(length)), j))
    ensures Filtered(s[off + 2 * j := v], was, off, length, j + 1)
  {
    hide Fifth, ToInt16;
  }

  /** The filter rewrites its half in place and nothing else. */
  method FifthOrder(data: array<int>, off: nat, length: nat)
    requires length >= 11 && off + length <= data.Length
    modifies data
    ensures Filtered(data[..], old(data[..]), off, length, Outputs(Count(length)))
  {
    hide Fifth, ToInt16, Shr, Weighted, Filtered, Tap, Held;
    ghost var was := data[..];
    ghost var x := Half(was, off, Count(length));
    var a, b, c := data[off], data[off + 2], data[off + 4];
    var d, e, f := data[off + 6], data[off + 8], data[off + 10];
    FirstSix(was, off, length);
    FirstThree(x, a, b, c, d, e, f);
    data[off] := ToInt16(Shr((a + b) * 10 + (c + d) * 5 + d + f, 4));
    data[off + 2] := ToInt16(Shr((b + c) * 10 + (a + d) * 5 + e + f, 4));
    data[off + 4] := ToInt16(Weighted(a, b, c, d, e, f));
    Eased(data[..], was, off, length);
    var i := 12;
    ghost var j := 3;
    while i < length
      invariant i == 4 * j && j >= 3 && 2 * (j - 1) < Count(length)
      invariant Held(x, j, c, d, e, f) && Filtered(data[..], was, off, length, j)
    {
      OneOutput(data[..], was, off, length, j, c, d, e, f);
      a, b, c, d := c, d, e, f;
      e, f := data[off + i - 2], data[off + i];
      data[off + i / 2] := ToInt16(Weighted(a, b, c, d, e, f));
      i := i + 4;
      j := j + 1;
    }
  }

  /** The four samples the loop carries to output j. */
  predicate Held(x: seq<int>, j: nat, c: int, d: int, e: int, f: int)
    requires |x| >= 6 && j >= 3 && 2 * (j - 1) < |x|
  {
    c == x[Tap(j, 0)] && d == x[Tap(j, 1)] && e == x[Tap(j, 2)] && f == x[Tap(j, 3)]
  }

  lemma OneOutput(s: seq<int>, was: seq<int>, off: nat, length: nat, j: nat, c: int, d: int, e: int, f: int)
    requires length >= 11 && off + length <= |was| && j >= 3 && 2 * j < Count(length)
    requires Held(Half(was, off, Count(length)), j, c, d, e, f) && Filtered(s, was, off, length, j)
    ensures |s| == |was|
    ensures var e', f' := s[off + 4 * j - 2], s[off + 4 * j];
      && Held(Half(was, off, Count(length)), j + 1, e, f, e', f')
      && Filtered(s[off + 2 * j := ToInt16(Weighted(c, d, e, f, e', f'))], was, off, length, j + 1)
  {
    var x := Half(was, off, Count(length));
    hide Fifth, Weighted, ToInt16, Tap;
    Ahead(s, was, off, length, j);
    var e', f' := s[off + 4 * j - 2], s[off + 4 * j];
    Later(x, j, c, d, e, f, e', f');
    Slides(j, 0); Slides(j, 1); Slides(j, 2); Slides(j, 3);
    FilteredStep(s, was, off, length, j, ToInt16(Weighted(c, d, e, f, e', f')));
  }

  lemma FirstSix(was: seq<int>, off: nat, length: nat)
    requires length >= 11 && off + length <= |was|
    ensures var x := Half(was, off, Count(length));
      && x[0] == was[off] && x[1] == was[off + 2] && x[2] == was[off + 4]
      && x[3] == was[off + 6] && x[4] == was[off + 8] && x[5] == was[off + 10]
      && Held(x, 3, x[2], x[3], x[4], x[5])
  {}

  lemma FirstThree(x: seq<int>, a: int, b: int, c: int, d: int, e: int, f: int)
    requires |x| >= 6 && a == x[0] && b == x[1] && c == x[2] && d == x[3] && e == x[4] && f == x[5]
    ensures Fifth(x, 0) == Shr((a + b) * 10 + (c + d) * 5 + d + f, 4)
    ensures Fifth(x, 1) == Shr((b + c) * 10 + (a + d) * 5 + e + f, 4)
    ensures Fifth(x, 2) == Weighted(a, b, c, d, e, f)
  {
    hide Shr, Weighted;
  }

  lemma Later(x: seq<int>, j: nat, a: int, b: int, c: int, d: int, e: int, f: int)
    requires j >= 3 && 2 * j < |x|
    requires a == x[Tap(j, 0)] && b == x[Tap(j, 1)] && c == x[Tap(j, 2)]
    requires d == x[Tap(j, 3)] && e == x[Tap(j, 4)] && f == x[Tap(j, 5)]
    ensures Fifth(x, j) == Weighted(a, b, c, d, e, f)
  {
    hide Weighted;
  }

  /** What a tap holds is what the tap two places on held before. */
  lemma Slides(j: nat, k: nat)
    requires j >= 3 && k < 4
    ensures Tap(j + 1, k) == Tap(j, k + 2)
  {}

  lemma Eased(s: seq<int>, was: seq<int>, off: nat, length: nat)
    requires length >= 11 && off + length <= |was|
    requires var x := Half(was, off, Count(length));
      s == was[off := ToInt16(Fifth(x, 0))][off + 2 := ToInt16(Fifth(x, 1))][off + 4 := ToInt16(Fifth(x, 2))]
    ensures Filtered(s, was, off, length, 3)
  {
    hide Fifth, ToInt16;
  }

  /** The samples an output needs next have not been overwritten. */
  lemma Ahead(s: seq<int>, was: seq<int>, off: nat, length: nat, j: nat)
    requires length >= 11 && off + length <= |was| && j >= 3 && 2 * j < Count(length)
    requires Filtered(s, was, off, length, j)
    ensures var x := Half(was, off, Count(length));
      s[off + 4 * j - 2] == x[Tap(j, 4)] && s[off + 4 * j] == x[Tap(j, 5)]
  {
    var x, t := Half(was, off, Count(length)), 2 * j - 1;
    assert s[off + 2 * t] == x[t];
    assert s[off + 2 * (t + 1)] == x[t + 1];
  }

  lemma HalfIsDecimated(s: seq<int>, was: seq<int>, off: nat, length: nat)
    requires length >= 11 && off + length <= |was| && Filtered(s, was, off, length, Outputs(Count(length)))
    ensures Half(s, off, Outputs(Count(length))) == Decimated(Half(was, off, Count(length)))
  {
    hide Fifth, ToInt16;
  }

  /** The other half is left alone. */
  lemma OtherHalf(s: seq<int>, was: seq<int>, off: nat, length: nat, other: nat, n: nat, j: nat)
    requires length >= 11 && off + length <= |was| && (j < 3 || 2 * (j - 1) < Count(length))
    requires Filtered(s, was, off, length, j)
    requires other + off == 1 && (n > 0 ==> other + 2 * (n - 1) < |was|)
    ensures |s| == |was| && Half(s, other, n) == Half(was, other, n)
  {
    forall t | 0 <= t < n ensures s[other + 2 * t] == was[other + 2 * t] {
      var k := other + 2 * t;
      assert k < off || (k - off) % 2 == 1;
    }
  }

  lemma BothHalves(was: seq<int>, mid: seq<int>, now: seq<int>, n: nat)
    requires n >= 6 && n % 2 == 0 && 2 * n <= |was|
    requires Filtered(mid, was, 0, 2 * n, n / 2) && |mid| == |was| && Filtered(now, mid, 1, 2 * n - 1, n / 2)
    ensures |now| == |was|
    ensures forall off: nat | off < 2 :: Half(now, off, n / 2) == Decimated(Half(was, off, n))
  {
    hide Filtered, Decimated, Half;
    HalfIsDecimated(mid, was, 0, 2 * n);
    OtherHalf(mid, was, 0, 2 * n, 1, n, n / 2);
    HalfIsDecimated(now, mid, 1, 2 * n - 1);
    OtherHalf(now, mid, 1, 2 * n - 1, 0, n / 2, n / 2);
  }

  /** Both halves of n points, each halved. */
  method DownsampleIq(data: array<int>, n: nat)
    requires n >= 6 && n % 2 == 0 && 2 * n <= data.Length
    modifies data
    ensures forall off: nat | off < 2 :: Half(data[..], off, n / 2) == Decimated(Half(old(data[..]), off, n))
  {
    hide Filtered, Decimated, Half;
    FifthOrder(data, 0, 2 * n);
    ghost var mid := data[..];
    FifthOrder(data, 1, 2 * n - 1);
    BothHalves(old(data[..]), mid, data[..], n);
  }

  /** A length that can be halved p times. */
  predicate Deep(n: nat, p: nat) {
    p == 0 || (n >= 6 && n % 2 == 0 && Deep(n / 2, p - 1))
  }

  function Passes(x: seq<int>, p: nat): (y: seq<int>)
    requires Deep(|x|, p)
    decreases p
  {
    if p == 0 then x else Passes(Decimated(x), p - 1)
  }

  /** The points that are left of n. */
  function Left(n: nat, p: nat): (m: nat)
    ensures m <= n
  {
    if p == 0 then n else Left(n / 2, p - 1)
  }

  lemma {:induction false} PassesShift(n: nat, p: nat)
    requires Deep(n, p + 1)
    ensures Deep(n, p) && Left(n, p) >= 6 && Left(n, p) % 2 == 0 && Left(n, p + 1) == Left(n, p) / 2
  {
    if p > 0 { PassesShift(n / 2, p - 1); }
  }

  lemma {:induction false} OneMorePass(x: seq<int>, p: nat)
    requires Deep(|x|, p + 1)
    ensures Deep(|x|, p) && |Passes(x, p)| == Left(|x|, p) >= 6
    ensures Passes(x, p + 1) == Decimated(Passes(x, p))
    decreases p
  {
    PassesShift(|x|, p);
    if p > 0 {
      OneMorePass(Decimated(x), p - 1);
    }
  }

  /** The passes of the scanner: each halves what the one before left. */
  method DownsamplePasses(data: array<int>, n: nat, p: nat)
    requires Deep(n, p) && 2 * n <= data.Length
    modifies data
    ensures forall off: nat | off < 2 :: Half(data[..], off, Left(n, p)) == Passes(Half(old(data[..]), off, n), p)
  {
    hide Half, Passes, Decimated, Left, Deep;
    ghost var was := data[..];
    var m := n;
    NoPass(was, n);
    DeepFewer(n, p);
    for j := 0 to p
      invariant m == Left(n, j)
      invariant forall off: nat | off < 2 :: Half(data[..], off, m) == Passes(Half(was, off, n), j)
    {
      assert Deep(n, j + 1);
      PassesShift(n, j);
      OneMorePass(Half(was, 0, n), j);
      OneMorePass(Half(was, 1, n), j);
      DownsampleIq(data, m);
      m := m / 2;
    }
  }

  lemma NoPass(was: seq<int>, n: nat)
    requires 2 * n <= |was|
    ensures Left(n, 0) == n
    ensures forall off: nat | off < 2 :: Half(was, off, n) == Passes(Half(was, off, n), 0)
  {}

  lemma {:induction false} DeepFewer(n: nat, p: nat)
    requires Deep(n, p)
    ensures forall j: nat | j <= p :: Deep(n, j)
  {
    if p > 0 { DeepFewer(n / 2, p - 1); }
  }

  predicate Bounded(x: seq<int>, b: int) {
    forall t | 0 <= t < |x| :: -b <= x[t] <= b
  }

  lemma ShrBound(s: int, b: int)
    requires -32 * b <= s <= 32 * b
    ensures -2 * b <= Shr(s, 4) <= 2 * b
  {
    assert Pow2(4) == 16;
  }

  /** The weights of every output sum to 32, of which >> 4 leaves a gain of two. */
  lemma FifthBound(x: seq<int>, j: nat, b: int)
    requires |x| >= 6 && (j < 3 || 2 * j < |x|) && Bounded(x, b)
    ensures -2 * b <= Fifth(x, j) <= 2 * b
  {
    hide Shr;
    if j == 0 {
      ShrBound((x[0] + x[1]) * 10 + (x[2] + x[3]) * 5 + x[3] + x[5], b);
    } else if j == 1 {
      ShrBound((x[1] + x[2]) * 10 + (x[0] + x[3]) * 5 + x[4] + x[5], b);
    } else {
      ShrBound(x[Tap(j, 0)] + (x[Tap(j, 1)] + x[Tap(j, 4)]) * 5 + (x[Tap(j, 2)] + x[Tap(j, 3)]) * 10 + x[Tap(j, 5)], b);
    }
  }

  lemma DecimatedBound(x: seq<int>, b: int)
    requires |x| >= 6 && Bounded(x, b) && 2 * b < 32768
    ensures Bounded(Decimated(x), 2 * b)
    ensures forall j | 0 <= j < Outputs(|x|) :: Decimated(x)[j] == Fifth(x, j)
  {
    hide Fifth;
    forall j | 0 <= j < Outputs(|x|) ensures -2 * b <= Fifth(x, j) <= 2 * b {
      FifthBound(x, j, b);
    }
  }

  /** The passes as arithmetic on unbounded integers. */
  function ExactPasses(x: seq<int>, p: nat): (y: seq<int>)
    requires Deep(|x|, p)
    decreases p
  {
    if p == 0 then x
    else ExactPasses(seq(Outputs(|x|), j requires 0 <= j < Outputs(|x|) => Fifth(x, j)), p - 1)
  }

  /** p passes at most multiply the magnitude by 2^p; while that fits, no sample ever wraps. */
  lemma {:induction false} PassesBound(x: seq<int>, p: nat, b: int)
    requires Deep(|x|, p) && Bounded(x, b) && b >= 0 && Pow2(p) * b < 32768
    ensures Bounded(Passes(x, p), Pow2(p) * b)
    ensures Passes(x, p) == ExactPasses(x, p)
    decreases p
  {
    hide Fifth;
    if p > 0 {
      var e := seq(Outputs(|x|), j requires 0 <= j < Outputs(|x|) => Fifth(x, j));
      Doubles(Pow2(p - 1), b);
      DecimatedBound(x, b);
      assert Decimated(x) == e;
      PassesBound(e, p - 1, 2 * b);
    }
  }

  lemma Doubles(w: nat, b: int)
    requires w >= 1 && b >= 0
    ensures w * (2 * b) == (2 * w) * b && 2 * b <= (2 * w) * b
  {
    MulNonNegative(b, 2 * (w - 1));
  }

  predicate Constant(x: seq<int>, v: int) {
    forall t | 0 <= t < |x| :: x[t] == v
  }

  lemma FifthOfConstant(x: seq<int>, j: nat, v: int)
    requires |x| >= 6 && (j < 3 || 2 * j < |x|) && Constant(x, v)
    ensures Fifth(x, j) == 2 * v
  {
    assert Pow2(4) == 16;
  }

  /** A constant input comes out as the constant times 2^p: each pass doubles. */
  lemma {:induction false} ExactPassesOfConstant(x: seq<int>, p: nat, v: int)
    requires Deep(|x|, p) && Constant(x, v)
    ensures Constant(ExactPasses(x, p), Pow2(p) * v)
    decreases p
  {
    hide Fifth;
    if p > 0 {
      var e := seq(Outputs(|x|), j requires 0 <= j < Outputs(|x|) => Fifth(x, j));
      forall j | 0 <= j < |e| ensures e[j] == 2 * v { FifthOfConstant(x, j, v); }
      ExactPassesOfConstant(e, p - 1, 2 * v);
      assert Pow2(p - 1) * (2 * v) == Pow2(p) * v;
    }
  }

  /** In the 16 bits of the program it comes out as the low 16 bits of that, whatever its size. */
  lemma {:induction false} PassesOfConstant(x: seq<int>, p: nat, v: int)
    requires Deep(|x|, p) && Constant(x, v) && -32768 <= v < 32768
    ensures Constant(Passes(x, p), ToInt16(Pow2(p) * v))
    decreases p
  {
    hide Fifth, ToInt16;
    if p > 0 {
      var d := Decimated(x);
      forall j | 0 <= j < |d| ensures d[j] == ToInt16(2 * v) { FifthOfConstant(x, j, v); }
      PassesOfConstant(d, p - 1, ToInt16(2 * v));
      WrappedFactor(Pow2(p - 1), 2 * v);
      assert Pow2(p - 1) * (2 * v) == Pow2(p) * v;
    }
  }

  lemma WrappedFactor(w: int, v: int)
    ensures ToInt16(w * ToInt16(v)) == ToInt16(w * v)
  {
    var turns := (v - ToInt16(v)) / 65536;
    assert v - ToInt16(v) == turns * 65536;
    assert w * ToInt16(v) + (w * turns) * 65536 == w * v;
    ModShift(w * ToInt16(v), w * turns, 65536);
  }

  /** Sums of neighbours, taken `order` times. */
  function PairSums(x: seq<int>, order: nat, t: nat): int
    requires order <= t < |x|
    decreases order
  {
    if order == 0 then x[t] else PairSums(x, order - 1, t - 1) + PairSums(x, order - 1, t)
  }

  /** Past the eased-in start the filter is the fifth-order filter it is named for:
      five rounds of neighbour sums, every second value kept. */
  lemma FifthIsPairSums(x: seq<int>, j: nat)
    requires j >= 5 && 2 * j < |x|
    ensures Fifth(x, j) == Shr(PairSums(x, 5, 2 * j), 4)
  {
    hide Shr;
    var t := 2 * j;
    TwoSums(x, t);
    TwoSums(x, t - 1);
    TwoSums(x, t - 2);
    TwoSums(x, t - 3);
    assert PairSums(x, 4, t - 1) == PairSums(x, 3, t - 2) + PairSums(x, 3, t - 1);
    assert PairSums(x, 4, t) == PairSums(x, 3, t - 1) + PairSums(x, 3, t);
  }

  lemma TwoSums(x: seq<int>, t: nat)
    requires 2 <= t < |x|
    ensures PairSums(x, 2, t) == x[t - 2] + 2 * x[t - 1] + x[t]
  {
    assert PairSums(x, 1, t) == x[t - 1] + x[t];
    assert PairSums(x, 1, t - 1) == x[t - 2] + x[t - 1];
  }

  // ----- the weights of the first outputs

  /** v is the sum in sixteenths, rounded down. */
  predicate Sixteenths(v: int, sum: int) {
    16 * v <= sum < 16 * v + 16
  }

  /** How samples 0 to 8 enter the outputs that are eased in; from output 5 on the weights are
      1 5 10 10 5 1. */
  lemma EasedIn(x: seq<int>)
    requires |x| >= 6
    ensures Sixteenths(Fifth(x, 0), 10 * x[0] + 10 * x[1] + 5 * x[2] + 6 * x[3] + x[5])
    ensures Sixteenths(Fifth(x, 1), 5 * x[0] + 10 * x[1] + 10 * x[2] + 5 * x[3] + x[4] + x[5])
    ensures Sixteenths(Fifth(x, 2), x[0] + 5 * x[1] + 10 * x[2] + 10 * x[3] + 5 * x[4] + x[5])
    ensures |x| >= 7 ==> Sixteenths(Fifth(x, 3), x[2] + 5 * x[3] + 10 * x[4] + 15 * x[5] + x[6])
    ensures |x| >= 9 ==> Sixteenths(Fifth(x, 4), x[4] + 15 * x[5] + 10 * x[6] + 5 * x[7] + x[8])
  {
    assert Pow2(4) == 16;
  }
}
