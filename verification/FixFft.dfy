/** fix_fft itself: the in-place loops over interleaved samples, for any reading of the sample
    arithmetic, proved to compute a network of butterflies in that arithmetic. */
module FixFft {
  import opened CArith
  import opened BitReversal
  import opened Pairs
  import opened ButterflyNetwork

  /** Point t of an interleaved buffer. */
  function Point<T>(s: seq<T>, t: nat): Pair<T>
    requires 2 * t + 1 < |s|
  {
    Pair(s[2 * t], s[2 * t + 1])
  }

  /** The first n points of an interleaved buffer. */
  function Points<T>(s: seq<T>, n: nat): (p: seq<Pair<T>>)
    requires 2 * n <= |s|
    ensures |p| == n
    ensures forall t | 0 <= t < n :: p[t] == Point(s, t)
  {
    seq(n, t requires 0 <= t < n => Point(s, t))
  }

  lemma HalfOfSuccessor(a: nat)
    ensures a % 2 == 0 ==> (a + 1) / 2 == a / 2 && (a + 1) % 2 == 1
    ensures a % 2 == 1 ==> (a + 1) / 2 == a / 2 + 1 && (a + 1) % 2 == 0
  {}

  /** Below the cleared ones: 2^m - 2^(c+1) is a multiple of 2^c. */
  lemma HighPart(m: nat, c: nat, low: nat)
    requires c < m && low < Pow2(c)
    ensures (Pow2(m) - 2 * Pow2(c) + low) % Pow2(c) == low
  {
    Pow2Add(c, m - c);
    LowPart(Pow2(m), Pow2(c), Pow2(m - c), low);
  }

  lemma LowPart(n: nat, l: nat, g: nat, low: nat)
    requires n == l * g && low < l
    ensures (n - 2 * l + low) % l == low
  {
    assert l * (g - 2) == l * g - 2 * l;
    DivModUnique(n - 2 * l + low, l, g - 2, low);
  }

  /** One round of the reversed-carry counter: clear the leading ones, set the next bit.
      The inner do-while always stops with l >= 1. */
  method NextReversed(mr: nat, n: nat, ghost m: nat, ghost v: nat) returns (next: nat)
    requires n == Pow2(m) && v + 1 < n && mr == Rev(m, v)
    ensures next == Rev(m, v + 1)
  {
    var l := n / 2;
    ghost var c: nat, a: nat := m - 1, v;
    while mr + l > n - 1
      invariant c < m && l == Pow2(c) && a + 1 < Pow2(c + 1)
      invariant mr == n - 2 * l + Rev(c + 1, a)
      invariant Rev(m, v + 1) == Rev(c + 1, a + 1)
      decreases l
    {
      RevBound(c, a / 2);
      assert a % 2 == 1;
      HalfOfSuccessor(a);
      l, c, a := l / 2, c - 1, a / 2;
    }
    RevBound(c, a / 2);
    assert a % 2 == 0;
    HalfOfSuccessor(a);
    HighPart(m, c, Rev(c, a / 2));
    next := mr % l + l;  // (mr & (l-1)) + l, since l is a power of two
  }

  method SwapPoints<T>(iq: array<T>, j: nat, k: nat, ghost n: nat)
    requires j < k < n && 2 * n <= iq.Length
    modifies iq
    ensures var p := old(Points(iq[..], n)); Points(iq[..], n) == p[j := p[k]][k := p[j]]
    ensures iq[2 * n..] == old(iq[2 * n..])
  {
    var tr := iq[2 * j];
    iq[2 * j] := iq[2 * k];
    iq[2 * k] := tr;
    var ti := iq[2 * j + 1];
    iq[2 * j + 1] := iq[2 * k + 1];
    iq[2 * k + 1] := ti;
  }

  /** Points whose index or reversed index is below k have been exchanged with their mirror. */
  ghost predicate ReversedBelow<T>(q: seq<T>, p: seq<T>, m: nat, k: nat)
    requires |q| == |p| == Pow2(m)
  {
    forall t: nat | t < |p| :: Rev(m, t) < |p| && q[t] == if t < k || Rev(m, t) < k then p[Rev(m, t)] else p[t]
  }

  lemma ReversedStart<T>(p: seq<T>, m: nat)
    requires |p| == Pow2(m)
    ensures ReversedBelow(p, p, m, 1)
  {
    RevZero(m);
    forall t: nat | t < |p| ensures Rev(m, t) < |p| && (Rev(m, t) < 1 ==> t == 0) {
      RevBound(m, t);
      RevInvolution(m, t);
    }
  }

  /** Each pair is exchanged once, when its smaller index is reached. */
  lemma ReversedStep<T>(q: seq<T>, p: seq<T>, m: nat, k: nat)
    requires |q| == |p| == Pow2(m) && k < |p| && ReversedBelow(q, p, m, k)
    ensures Rev(m, k) < |p|
    ensures var r := Rev(m, k);
      ReversedBelow(if r > k then q[k := q[r]][r := q[k]] else q, p, m, k + 1)
  {
    RevBound(m, k);
    RevInvolution(m, k);
    forall t: nat | t < |p| ensures Rev(m, t) == k ==> t == Rev(m, k) {
      RevInvolution(m, t);
    }
    hide Rev;
  }

  lemma ReversedEnd<T>(q: seq<T>, p: seq<T>, m: nat)
    requires |q| == |p| == Pow2(m) && ReversedBelow(q, p, m, |p|)
    ensures q == BitReversed(m, p)
  {
    hide Rev;
    forall t: nat | t < |p| ensures q[t] == BitReversed(m, p)[t] { RevBound(m, t); }
  }

  /** The reorder loop applies the bit-reversal permutation to the complex points. */
  method Reorder<T>(iq: array<T>, n: nat, ghost m: nat)
    requires n == Pow2(m) && 2 * n <= iq.Length
    modifies iq
    ensures Points(iq[..], n) == BitReversed(m, old(Points(iq[..], n)))
    ensures iq[2 * n..] == old(iq[2 * n..])
  {
    hide ReversedBelow, BitReversed;
    ghost var p := Points(iq[..], n);
    var mr := 0;
    RevZero(m);
    ReversedStart(p, m);
    for k := 1 to n
      invariant mr == Rev(m, k - 1)
      invariant ReversedBelow(Points(iq[..], n), p, m, k)
      invariant iq[2 * n..] == old(iq[2 * n..])
    {
      mr := NextReversed(mr, n, m, k - 1);
      ReversedStep(Points(iq[..], n), p, m, k);
      if mr > k {
        SwapPoints(iq, k, mr, n);
      }
    }
    ReversedEnd(Points(iq[..], n), p, m);
  }

  /** One butterfly: points i and j become the halved sum and difference. */
  method Butterfly<T>(a: Arith<T>, iq: array<T>, i: nat, j: nat, w: Pair<T>, ghost n: nat)
    requires i < j < n && 2 * n <= iq.Length
    modifies iq
    ensures var x, y := old(Point(iq[..], i)), old(Point(iq[..], j));
      && Point(iq[..], i) == Plus(a, Halved(a, x), Turned(a, w, y))
      && Point(iq[..], j) == Minus(a, Halved(a, x), Turned(a, w, y))
    ensures forall t: nat | t < n && t != i && t != j :: Point(iq[..], t) == old(Point(iq[..], t))
    ensures iq[2 * n..] == old(iq[2 * n..])
  {
    var tr := a.sub(a.mpy(w.re, iq[2 * j]), a.mpy(w.im, iq[2 * j + 1]));
    var ti := a.add(a.mpy(w.re, iq[2 * j + 1]), a.mpy(w.im, iq[2 * j]));
    var qr, qi := a.half(iq[2 * i]), a.half(iq[2 * i + 1]);
    iq[2 * j] := a.sub(qr, tr);
    iq[2 * j + 1] := a.sub(qi, ti);
    iq[2 * i] := a.add(qr, tr);
    iq[2 * i + 1] := a.add(qi, ti);
  }

  /** Point t has been rewritten once the groups below u, and the first b butterflies of
      group u, are done. */
  predicate Done(l: nat, u: nat, b: nat, t: nat)
    requires l > 0
  {
    t % l < u || (t % l == u && t / (2 * l) < b)
  }

  /** Butterfly b of group u rewrites exactly the points 2lb+u and 2lb+u+l, and nothing before
      it has: every point is touched exactly once in a stage. */
  lemma DoneStep(l: nat, u: nat, b: nat, t: nat)
    requires u < l
    ensures Done(l, u, b + 1, t) <==> (Done(l, u, b, t) || t == 2 * l * b + u || t == 2 * l * b + u + l)
    ensures t == 2 * l * b + u || t == 2 * l * b + u + l ==> !Done(l, u, b, t)
  {
    assert 2 * l * b == l * (2 * b) && 2 * l * b + l == l * (2 * b + 1);
    if t == 2 * l * b + u {
      DivModUnique(t, l, 2 * b, u);
      DivModUnique(t, 2 * l, b, u);
    } else if t == 2 * l * b + u + l {
      DivModUnique(t, l, 2 * b + 1, u);
      DivModUnique(t, 2 * l, b, u + l);
    } else if t % l == u && t / (2 * l) == b {
      assert t == l * (t / l) + u;
      HalvedQuotient(t, l);
      assert false;
    }
  }

  lemma HalvedQuotient(t: nat, l: nat)
    requires l > 0
    ensures t / (2 * l) == t / l / 2
  {
    var c := t / l;
    assert t == l * c + t % l;
    assert l * c == 2 * l * (c / 2) + l * (c % 2);
    DivModUnique(t, 2 * l, c / 2, l * (c % 2) + t % l);
  }

  /** Buffer s is in the middle of a stage: finished points hold their new value. */
  ghost predicate Progress<T>(s: seq<T>, p: seq<Pair<T>>, r: seq<Pair<T>>, l: nat, u: nat, b: nat)
    requires 2 * |p| <= |s| && |r| == |p| && l > 0
  {
    forall t: nat | t < |p| :: Point(s, t) == if Done(l, u, b, t) then r[t] else p[t]
  }

  lemma ProgressStep<T>(was: seq<T>, now: seq<T>, p: seq<Pair<T>>, r: seq<Pair<T>>, l: nat, u: nat, b: nat, i: nat)
    requires |r| == |p| && 2 * |p| <= |was| == |now| && u < l && Progress(was, p, r, l, u, b)
    requires i == 2 * l * b + u && i + l < |p|
    requires Point(now, i) == r[i] && Point(now, i + l) == r[i + l]
    requires forall t: nat | t < |p| && t != i && t != i + l :: Point(now, t) == Point(was, t)
    ensures Progress(now, p, r, l, u, b + 1)
  {
    forall t: nat | t < |p| ensures Point(now, t) == if Done(l, u, b + 1, t) then r[t] else p[t] {
      DoneStep(l, u, b, t);
    }
  }

  /** One butterfly of the group has been carried out. */
  lemma ButterflyDone<T>(a: Arith<T>, was: seq<T>, now: seq<T>, sinewave: seq<T>, logN: nat, m: nat, s: nat,
                         p: seq<Pair<T>>, l: nat, u: nat, b: nat, i: nat, j: nat)
    requires s < m <= logN && l == Pow2(s) && u < l && |p| == Pow2(m) && |p| % Pow2(s + 1) == 0
    requires |sinewave| == Pow2(logN) * 3 / 4 && 2 * |p| <= |was| == |now| && b < Pow2(m - s - 1)
    requires i == 2 * l * b + u && j == u * Pow2(logN - 1 - s) && i + l < |p| && j + Pow2(logN) / 4 < |sinewave|
    requires Progress(was, p, Stage(a, sinewave, logN, s, p), l, u, b)
    requires var x, y, w := Point(was, i), Point(was, i + l), Factor(a, sinewave, logN, j);
      && Point(now, i) == Plus(a, Halved(a, x), Turned(a, w, y))
      && Point(now, i + l) == Minus(a, Halved(a, x), Turned(a, w, y))
    requires forall t: nat | t < |p| && t != i && t != i + l :: Point(now, t) == Point(was, t)
    ensures Progress(now, p, Stage(a, sinewave, logN, s, p), l, u, b + 1)
  {
    hide Turned, Halved, Plus, Minus, Factor, Stage, Done;
    WingValues(a, sinewave, logN, m, s, p, b, u, i, j);
    DoneStep(l, u, b, i);
    DoneStep(l, u, b, i + l);
    ProgressStep(was, now, p, Stage(a, sinewave, logN, s, p), l, u, b, i);
  }

  lemma GroupFinished<T>(s: seq<T>, p: seq<Pair<T>>, r: seq<Pair<T>>, l: nat, u: nat, blocks: nat)
    requires |r| == |p| == 2 * l * blocks && 2 * |p| <= |s| && u < l && Progress(s, p, r, l, u, blocks)
    ensures Progress(s, p, r, l, u + 1, 0)
  {
    forall t: nat | t < |p| ensures Done(l, u + 1, 0, t) <==> Done(l, u, blocks, t) {
      BlockOf(t, l, blocks);
    }
  }

  /** The i loop: all butterflies that share one twiddle factor. */
  method Group<T>(a: Arith<T>, iq: array<T>, sinewave: seq<T>, logN: nat, n: nat, l: nat, u: nat, w: Pair<T>,
                  ghost m: nat, ghost s: nat, ghost p: seq<Pair<T>>, ghost j: nat)
    requires s < m <= logN && n == Pow2(m) && l == Pow2(s) && u < l
    requires |sinewave| == Pow2(logN) * 3 / 4 && 2 * n <= iq.Length
    requires |p| == n && n % Pow2(s + 1) == 0
    requires j == u * Pow2(logN - 1 - s) && j + Pow2(logN) / 4 < |sinewave|
    requires w == Factor(a, sinewave, logN, j)
    requires Progress(iq[..], p, Stage(a, sinewave, logN, s, p), l, u, 0)
    modifies iq
    ensures Progress(iq[..], p, Stage(a, sinewave, logN, s, p), l, u + 1, 0)
    ensures iq[2 * n..] == old(iq[2 * n..])
  {
    hide Turned, Halved, Plus, Minus, Factor, Stage, Done;
    ghost var r := Stage(a, sinewave, logN, s, p);
    ghost var b: nat, blocks := 0, Pow2(m - s - 1);
    var i := u;
    BlockCount(m, s);
    while i < n
      invariant b <= blocks && i == 2 * l * b + u
      invariant Progress(iq[..], p, r, l, u, b)
      invariant iq[2 * n..] == old(iq[2 * n..])
      decreases blocks - b
    {
      BlockIndex(l, b, blocks, u);
      ButterflyPositions(m, s, b, u);
      ghost var was := iq[..];
      Butterfly(a, iq, i, i + l, w, n);
      ButterflyDone(a, was, iq[..], sinewave, logN, m, s, p, l, u, b, i, j);
      i, b := i + 2 * l, b + 1;
    }
    BlockIndex(l, b, blocks, u);
    GroupFinished(iq[..], p, r, l, u, blocks);
  }

  lemma BlockCount(m: nat, s: nat)
    requires s < m
    ensures Pow2(m) == 2 * Pow2(s) * Pow2(m - s - 1)
  {
    Pow2Add(s + 1, m - s - 1);
  }

  lemma BlockIndex(l: nat, b: nat, blocks: nat, u: nat)
    requires u < l && b <= blocks
    ensures 2 * l * b + u < 2 * l * blocks <==> b < blocks
    ensures 2 * l * (b + 1) == 2 * l * b + 2 * l
  {
    assert 2 * l * blocks == 2 * l * b + 2 * l * (blocks - b);
    if b < blocks { MulAtLeast(2 * l, blocks - b); }
  }

  lemma BlockOf(t: nat, l: nat, blocks: nat)
    requires l > 0 && t < 2 * l * blocks
    ensures 0 <= t / (2 * l) < blocks && 0 <= t % l < l
  {
    QuotientBelow(t, 2 * l, blocks);
  }

  lemma StageBounds<T>(p: seq<Pair<T>>, r: seq<Pair<T>>, buf: seq<T>, l: nat, blocks: nat)
    requires l > 0 && |p| == |r| == 2 * l * blocks && 2 * |p| <= |buf|
    ensures Progress(buf, p, r, l, 0, 0) <==> Points(buf, |p|) == p
    ensures Progress(buf, p, r, l, l, 0) <==> Points(buf, |p|) == r
  {
    forall t: nat | t < |p| ensures !Done(l, 0, 0, t) && Done(l, l, 0, t) {
      BlockOf(t, l, blocks);
    }
  }

  /** The m loop: one stage. */
  method StageInPlace<T>(a: Arith<T>, iq: array<T>, sinewave: seq<T>, logN: nat, n: nat, l: nat, k: nat,
                      ghost m: nat, ghost s: nat)
    requires s < m <= logN && n == Pow2(m) && l == Pow2(s) && k == logN - 1 - s
    requires |sinewave| == Pow2(logN) * 3 / 4 && 2 * n <= iq.Length
    requires n % Pow2(s + 1) == 0
    modifies iq
    ensures Points(iq[..], n) == Stage(a, sinewave, logN, s, old(Points(iq[..], n)))
    ensures iq[2 * n..] == old(iq[2 * n..])
  {
    hide Stage, Done;
    ghost var p := Points(iq[..], n);
    ghost var r := Stage(a, sinewave, logN, s, p);
    BlockCount(m, s);
    StageBounds(p, r, iq[..], l, Pow2(m - s - 1));
    for u := 0 to l
      invariant Progress(iq[..], p, r, l, u, 0)
      invariant iq[2 * n..] == old(iq[2 * n..])
    {
      TwiddleInTable(logN, s, u);
      var j := u * Pow2(k);  // m << k
      var wr, wi := sinewave[j + Pow2(logN) / 4], a.neg(sinewave[j]);
      wr, wi := a.half(wr), a.half(wi);
      Group(a, iq, sinewave, logN, n, l, u, Pair(wr, wi), m, s, p, j);
    }
    StageBounds(p, r, iq[..], l, Pow2(m - s - 1));
  }

  lemma Pow2Strict(a: nat, b: nat)
    ensures Pow2(a) > Pow2(b) <==> a > b
    ensures Pow2(a) < Pow2(b) <==> a < b
  {
    if a > b { Pow2Monotone(b, a - 1); }
    if b > a { Pow2Monotone(a, b - 1); }
  }

  /** fix_fft: rejects a transform longer than the table's wave and otherwise replaces the first
      n points by the network's outputs; nothing else changes. */
  method FixFft<T>(a: Arith<T>, iq: array<T>, m: nat, sinewave: seq<T>, logN: nat) returns (r: int)
    requires |sinewave| == Pow2(logN) * 3 / 4
    requires m <= logN ==> 2 * Pow2(m) <= iq.Length
    modifies iq
    ensures m > logN ==> r == -1 && iq[..] == old(iq[..])
    ensures m <= logN ==> r == 0 && iq[2 * Pow2(m)..] == old(iq[2 * Pow2(m)..])
    ensures m <= logN ==> Points(iq[..], Pow2(m)) == Network(a, sinewave, logN, m, old(Points(iq[..], Pow2(m))))
  {
    var n := Pow2(m);
    Pow2Strict(m, logN);
    if n > Pow2(logN) {
      return -1;
    }
    ghost var p := Points(iq[..], n);
    Reorder(iq, n, m);
    ghost var s: nat := 0;
    var l, k := 1, logN - 1;
    while l < n
      invariant s <= m && l == Pow2(s) && k == logN - 1 - s
      invariant Stages(a, sinewave, logN, m, s, Points(iq[..], n)) == Network(a, sinewave, logN, m, p)
      invariant iq[2 * n..] == old(iq[2 * n..])
      decreases m - s
    {
      Pow2Strict(s, m);
      StageDivides(m, s);
      StageInPlace(a, iq, sinewave, logN, n, l, k, m, s);
      l, k, s := 2 * l, k - 1, s + 1;
    }
    Pow2Strict(s, m);
    r := 0;
  }
}
