/** The streaming resamplers of rtl_fm: every input is added to a running sum, a phase counts up by
    `slow` per input, and each time it reaches `fast` the sum is emitted. */
module Resampler {
  import opened CArith
  import opened Sequences

  /** What one buffer hands to the next: now_lpr and prev_lpr_index. */
  datatype Carry = Carry(sum: int, phase: int)

  /** The sums emitted over a run of inputs, and the carry after it. */
  function Feed(fast: int, slow: int, c: Carry, xs: seq<int>): (r: (seq<int>, Carry)) {
    if xs == [] then ([], c)
    else
      var n := |xs| - 1;
      var (sums, d) := Feed(fast, slow, c, xs[..n]);
      var sum, phase := d.sum + xs[n], d.phase + slow;
      if phase < fast then (sums, Carry(sum, phase)) else (sums + [sum], Carry(0, phase - fast))
  }

  /** Rates the program runs at: no upsampling. */
  predicate Rates(fast: int, slow: int, c: Carry) {
    0 < slow <= fast && 0 <= c.phase < fast
  }

  /** Buffers may be cut anywhere. */
  lemma {:induction false} FeedInPieces(fast: int, slow: int, c: Carry, xs: seq<int>, ys: seq<int>)
    ensures var (s1, c1) := Feed(fast, slow, c, xs);
      var (s2, c2) := Feed(fast, slow, c1, ys);
      Feed(fast, slow, c, xs + ys) == (s1 + s2, c2)
  {
    if ys == [] {
      assert xs + ys == xs;
      assert Feed(fast, slow, c, xs).0 + [] == Feed(fast, slow, c, xs).0;
    } else {
      var n := |ys| - 1;
      FeedInPieces(fast, slow, c, xs, ys[..n]);
      assert (xs + ys)[..|xs| + n] == xs + ys[..n];
      var (s1, c1) := Feed(fast, slow, c, xs);
      var (s2, d) := Feed(fast, slow, c1, ys[..n]);
      assert (s1 + s2) + [d.sum + ys[n]] == s1 + (s2 + [d.sum + ys[n]]);
    }
  }

  /** A run of buffers, each starting with the carry the one before left. */
  function FeedAll(fast: int, slow: int, c: Carry, bufs: seq<seq<int>>): (r: (seq<int>, Carry))
    decreases |bufs|
  {
    if bufs == [] then ([], c)
    else
      var (sums, d) := Feed(fast, slow, c, bufs[0]);
      var (more, e) := FeedAll(fast, slow, d, bufs[1..]);
      (sums + more, e)
  }

  /** However a stream is cut into buffers, empty ones included, the outputs are those of the stream. */
  lemma {:induction false} AnyBuffers(fast: int, slow: int, c: Carry, bufs: seq<seq<int>>)
    ensures FeedAll(fast, slow, c, bufs) == Feed(fast, slow, c, Joined(bufs))
    decreases |bufs|
  {
    if bufs != [] {
      var (sums, d) := Feed(fast, slow, c, bufs[0]);
      AnyBuffers(fast, slow, d, bufs[1..]);
      FeedInPieces(fast, slow, c, bufs[0], Joined(bufs[1..]));
    }
  }

  /** After n inputs exactly floor((p0 + n*slow) / fast) sums are out, and the phase is the rest. */
  lemma {:induction false} OutputCount(fast: int, slow: int, c: Carry, xs: seq<int>)
    requires Rates(fast, slow, c)
    ensures var (sums, d) := Feed(fast, slow, c, xs);
      && |sums| == (c.phase + |xs| * slow) / fast && d.phase == (c.phase + |xs| * slow) % fast
  {
    var (sums, d) := Feed(fast, slow, c, xs);
    if xs == [] {
      DivModUnique(c.phase, fast, 0, c.phase);
    } else {
      var n := |xs| - 1;
      OutputCount(fast, slow, c, xs[..n]);
      var (sums', d') := Feed(fast, slow, c, xs[..n]);
      var p := c.phase + n * slow;
      PhaseStep(fast, slow, p);
      assert |xs| * slow == n * slow + slow;
    }
  }

  lemma PhaseStep(fast: int, slow: int, p: int)
    requires 0 < slow <= fast && p >= 0
    ensures p % fast + slow < fast ==> (p + slow) / fast == p / fast && (p + slow) % fast == p % fast + slow
    ensures p % fast + slow >= fast ==>
      (p + slow) / fast == p / fast + 1 && (p + slow) % fast == p % fast + slow - fast
  {
    var q, r := p / fast, p % fast;
    assert p == fast * q + r;
    if r + slow < fast {
      DivModUnique(p + slow, fast, q, r + slow);
    } else {
      assert fast * (q + 1) == fast * q + fast;
      DivModUnique(p + slow, fast, q + 1, r + slow - fast);
    }
  }

  /** The sum of the first n inputs that belong to output j: input i belongs to the output that is
      pending when it arrives, number floor((p0 + i*slow) / fast). */
  function BlockSum(fast: int, slow: int, phase: int, xs: seq<int>, n: nat, j: int): int
    requires n <= |xs| && fast > 0
  {
    if n == 0 then 0
    else BlockSum(fast, slow, phase, xs, n - 1, j) + (if (phase + (n - 1) * slow) / fast == j then xs[n - 1] else 0)
  }

  lemma {:induction false} BlockSumPrefix(fast: int, slow: int, phase: int, xs: seq<int>, n: nat, m: nat, j: int)
    requires n <= m <= |xs| && fast > 0
    ensures BlockSum(fast, slow, phase, xs[..m], n, j) == BlockSum(fast, slow, phase, xs, n, j)
  {
    if n > 0 { BlockSumPrefix(fast, slow, phase, xs, n - 1, m, j); }
  }

  /** Each output is the sum of its own block, the carried sum going to the first; the inputs of the
      block still open are in the carry. */
  lemma {:induction false} OutputsAreBlocks(fast: int, slow: int, c: Carry, xs: seq<int>, j: nat)
    requires Rates(fast, slow, c)
    ensures var (sums, d) := Feed(fast, slow, c, xs);
      var carried := if j == 0 then c.sum else 0;
      && (j < |sums| ==> sums[j] == carried + BlockSum(fast, slow, c.phase, xs, |xs|, j))
      && (j == |sums| ==> d.sum == carried + BlockSum(fast, slow, c.phase, xs, |xs|, j))
      && (j > |sums| ==> 0 == BlockSum(fast, slow, c.phase, xs, |xs|, j))
  {
    if xs != [] {
      var n := |xs| - 1;
      OutputsAreBlocks(fast, slow, c, xs[..n], j);
      OutputCount(fast, slow, c, xs[..n]);
      BlockSumPrefix(fast, slow, c.phase, xs, n, n, j);
    }
  }

  function Total(xs: seq<int>): int {
    if xs == [] then 0 else Total(xs[..|xs| - 1]) + xs[|xs| - 1]
  }

  /** Conservation: every input, and the carry, ends in exactly one output or the new carry. */
  lemma {:induction false} NothingLost(fast: int, slow: int, c: Carry, xs: seq<int>)
    ensures var (sums, d) := Feed(fast, slow, c, xs); Total(sums) + d.sum == c.sum + Total(xs)
  {
    if xs != [] {
      var n := |xs| - 1;
      NothingLost(fast, slow, c, xs[..n]);
      var (sums, d) := Feed(fast, slow, c, xs[..n]);
      assert (sums + [d.sum + xs[n]])[..|sums|] == sums;
    }
  }

  /** What low_pass_real stores for an emitted sum. */
  function Scaled(fast: int, slow: int, sums: seq<int>): (r: seq<int>)
    requires 0 < slow <= fast
    ensures |r| == |sums|
  {
    seq(|sums|, k requires 0 <= k < |sums| => ToInt16(TDiv(sums[k], Ratio(fast, slow))))
  }

  function Ratio(fast: int, slow: int): (q: int)
    requires 0 < slow <= fast
    ensures q > 0
  {
    TDiv(fast, slow)
  }

  /** One component (0 in phase, 1 quadrature) of interleaved unsigned bytes, centred on 127. */
  function Component(buf: seq<int>, part: nat): (xs: seq<int>)
    requires |buf| % 2 == 0 && part <= 1
    ensures |xs| == |buf| / 2
  {
    seq(|buf| / 2, k requires 0 <= k < |buf| / 2 => buf[2 * k + part] - 127)
  }

  lemma FeedOne(fast: int, slow: int, c: Carry, xs: seq<int>, i: nat)
    requires i < |xs|
    ensures var (sums, d) := Feed(fast, slow, c, xs[..i]);
      var sum, phase := d.sum + xs[i], d.phase + slow;
      Feed(fast, slow, c, xs[..i + 1])
        == if phase < fast then (sums, Carry(sum, phase)) else (sums + [sum], Carry(0, phase - fast))
  {
    assert xs[..i + 1][..i] == xs[..i];
  }

  /** The part of fm_state the resamplers use. */
  class FmState {
    var signal2: array<int>
    var signal2Len: nat
    var nowLpr: int
    var prevLprIndex: int
    var signal: array<int>
    var signalLen: nat
    var nowR: int
    var nowJ: int
    var prevIndex: int

    constructor (n: nat)
      ensures fresh(signal2) && fresh(signal) && signal2.Length == signal.Length == n
      ensures signal2Len == signalLen == 0
      ensures nowLpr == nowR == nowJ == 0 && prevLprIndex == prevIndex == 0
    {
      signal2, signal2Len, signal, signalLen := new int[n], 0, new int[n], 0;
      nowLpr, prevLprIndex, nowR, nowJ, prevIndex := 0, 0, 0, 0, 0;
    }

    /** low_pass_real: the outputs replace the inputs in place, writes staying behind reads. */
    method LowPassReal(fast: int, slow: int)
      requires 0 < slow <= fast && 0 <= prevLprIndex < fast && signal2Len <= signal2.Length
      modifies this`signal2Len, this`nowLpr, this`prevLprIndex, signal2
      ensures var (sums, d) := Feed(fast, slow, old(Carry(nowLpr, prevLprIndex)), old(signal2[..signal2Len]));
        && Carry(nowLpr, prevLprIndex) == d
        && signal2Len == |sums| <= old(signal2Len)
        && signal2[..signal2Len] == Scaled(fast, slow, sums)
      ensures signal2[old(signal2Len)..] == old(signal2[signal2Len..])
    {
      hide Feed, TDiv, ToInt16, Ratio;
      ghost var c, xs := Carry(nowLpr, prevLprIndex), signal2[..signal2Len];
      ghost var sums: seq<int> := [];
      var i: nat, i2: nat := 0, 0;
      FeedNothing(fast, slow, c, xs);
      while i < signal2Len
        invariant i2 == |sums| <= i <= signal2Len == |xs| && 0 <= prevLprIndex < fast
        invariant Feed(fast, slow, c, xs[..i]) == (sums, Carry(nowLpr, prevLprIndex))
        invariant forall k | 0 <= k < i2 :: signal2[k] == ToInt16(TDiv(sums[k], Ratio(fast, slow)))
        invariant forall k | i <= k < signal2.Length :: signal2[k] == old(signal2[k])
        modifies this`nowLpr, this`prevLprIndex, signal2
      {
        FeedOne(fast, slow, c, xs, i);
        nowLpr := nowLpr + signal2[i];
        i := i + 1;
        prevLprIndex := prevLprIndex + slow;
        if prevLprIndex < fast {
          continue;
        }
        signal2[i2] := ToInt16(TDiv(nowLpr, Ratio(fast, slow)));
        sums := sums + [nowLpr];
        prevLprIndex := prevLprIndex - fast;
        nowLpr := 0;
        i2 := i2 + 1;
      }
      assert xs[..i] == xs;
      signal2Len := i2;
    }

    /** low_pass: both components of a block of samples, summed over `downsample` points. */
    method LowPass(buf: seq<int>, downsample: int)
      requires |buf| % 2 == 0 && |buf| <= signal.Length && 0 <= prevIndex < downsample
      modifies this`signalLen, this`nowR, this`nowJ, this`prevIndex, signal
      ensures var (rs, r) := Feed(downsample, 1, old(Carry(nowR, prevIndex)), Component(buf, 0));
        var (js, j) := Feed(downsample, 1, old(Carry(nowJ, prevIndex)), Component(buf, 1));
        && Carry(nowR, prevIndex) == r && Carry(nowJ, prevIndex) == j
        && |rs| == |js| && signalLen == 2 * |rs| <= signal.Length
        && forall k | 0 <= k < |rs| :: signal[2 * k] == rs[k] && signal[2 * k + 1] == js[k]
    {
      hide Feed;
      ghost var c, d := Carry(nowR, prevIndex), Carry(nowJ, prevIndex);
      ghost var xs, ys := Component(buf, 0), Component(buf, 1);
      ghost var rs: seq<int>, js: seq<int> := [], [];
      var i: nat, i2: nat := 0, 0;
      ghost var n: nat := 0;
      FeedNothing(downsample, 1, c, xs);
      FeedNothing(downsample, 1, d, ys);
      while i < |buf|
        invariant i == 2 * n <= |buf| && i2 == 2 * |rs| <= i && |js| == |rs| && 0 <= prevIndex < downsample
        invariant Feed(downsample, 1, c, xs[..n]) == (rs, Carry(nowR, prevIndex))
        invariant Feed(downsample, 1, d, ys[..n]) == (js, Carry(nowJ, prevIndex))
        invariant forall k | 0 <= k < |rs| :: signal[2 * k] == rs[k] && signal[2 * k + 1] == js[k]
        modifies this`nowR, this`nowJ, this`prevIndex, signal
      {
        FeedOne(downsample, 1, c, xs, n);
        FeedOne(downsample, 1, d, ys, n);
        nowR := nowR + (buf[i] - 127);
        nowJ := nowJ + (buf[i + 1] - 127);
        i, n := i + 2, n + 1;
        prevIndex := prevIndex + 1;
        if prevIndex < downsample {
          continue;
        }
        signal[i2] := nowR;
        signal[i2 + 1] := nowJ;
        rs, js := rs + [nowR], js + [nowJ];
        prevIndex, nowR, nowJ := 0, 0, 0;
        i2 := i2 + 2;
      }
      assert xs[..n] == xs && ys[..n] == ys;
      signalLen := i2;
    }
  }

  lemma FeedNothing(fast: int, slow: int, c: Carry, xs: seq<int>)
    ensures Feed(fast, slow, c, xs[..0]) == ([], c)
  {}

  // ----- what goes in and what is stored

  /** The divisor is how often the output rate fits into the input rate. */
  lemma RatioMeaning(fast: int, slow: int)
    requires 0 < slow <= fast
    ensures Ratio(fast, slow) * slow <= fast < (Ratio(fast, slow) + 1) * slow
  {
    TDivMeaning(fast, slow);
  }

  /** Each stored sample is its sum divided by that, rounded toward zero, in 16 bits: so a constant comes
      out as itself when the rates divide evenly. */
  lemma ScaledMeaning(fast: int, slow: int, sums: seq<int>, k: nat, v: int)
    requires 0 < slow <= fast && k < |sums| && -32768 <= v < 32768
    requires var rest := sums[k] - v * Ratio(fast, slow);
      if sums[k] >= 0 then 0 <= rest < Ratio(fast, slow) else -Ratio(fast, slow) < rest <= 0
    ensures Scaled(fast, slow, sums)[k] == v
  {
    var q := Ratio(fast, slow);
    TDivMeaning(sums[k], q);
    QuotientUnique(sums[k], q, TDiv(sums[k], q), v);
  }

  lemma QuotientUnique(a: int, b: int, q: int, v: int)
    requires b > 0 && (if a >= 0 then 0 <= a - q * b < b else -b < a - q * b <= 0)
    requires if a >= 0 then 0 <= a - v * b < b else -b < a - v * b <= 0
    ensures q == v
  {
    assert (q - v) * b == (a - v * b) - (a - q * b);
    assert b * (v - q) == -((q - v) * b);
    if q > v { MulAtLeast(b, q - v); } else if v > q { MulAtLeast(b, v - q); }
  }

  /** The bytes of two components as the dongle sends them, in phase first; each counts from 127. */
  function Interleaved(rs: seq<int>, js: seq<int>): (buf: seq<int>)
    requires |rs| == |js|
    ensures |buf| == 2 * |rs|
  {
    if rs == [] then []
    else Interleaved(rs[..|rs| - 1], js[..|js| - 1]) + [127 + rs[|rs| - 1], 127 + js[|js| - 1]]
  }

  lemma {:induction false} ComponentsOf(rs: seq<int>, js: seq<int>)
    requires |rs| == |js|
    ensures Component(Interleaved(rs, js), 0) == rs && Component(Interleaved(rs, js), 1) == js
  {
    if rs != [] {
      var n := |rs| - 1;
      ComponentsOf(rs[..n], js[..n]);
      var before, buf := Interleaved(rs[..n], js[..n]), Interleaved(rs, js);
      forall k | 0 <= k < |rs| ensures Component(buf, 0)[k] == rs[k] && Component(buf, 1)[k] == js[k] {
        if k < n {
          assert Component(before, 0)[k] == rs[..n][k] && Component(before, 1)[k] == js[..n][k];
        }
      }
    }
  }
}
