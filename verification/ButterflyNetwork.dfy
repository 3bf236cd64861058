/** The network of butterflies that fix_fft computes, in any arithmetic of the samples. */
module ButterflyNetwork {
  import opened Pairs
  import opened CArith
  import opened BitReversal

  /** The operations on samples: `>> 1`, negation, FIX_MPY, and sums and differences as stored. */
  datatype Arith<!T> = Arith(half: T -> T, neg: T -> T, mpy: (T, T) -> T, add: (T, T) -> T, sub: (T, T) -> T)

  function Halved<T>(a: Arith<T>, x: Pair<T>): Pair<T> {
    Pair(a.half(x.re), a.half(x.im))
  }

  function Turned<T>(a: Arith<T>, w: Pair<T>, y: Pair<T>): Pair<T> {
    Pair(a.sub(a.mpy(w.re, y.re), a.mpy(w.im, y.im)), a.add(a.mpy(w.re, y.im), a.mpy(w.im, y.re)))
  }

  function Plus<T>(a: Arith<T>, x: Pair<T>, y: Pair<T>): Pair<T> {
    Pair(a.add(x.re, y.re), a.add(x.im, y.im))
  }

  function Minus<T>(a: Arith<T>, x: Pair<T>, y: Pair<T>): Pair<T> {
    Pair(a.sub(x.re, y.re), a.sub(x.im, y.im))
  }

  /** The halved factor (wr, wi) for table index j. */
  function Factor<T>(a: Arith<T>, table: seq<T>, logN: nat, j: nat): Pair<T>
    requires j + Pow2(logN) / 4 < |table|
  {
    Pair(a.half(table[j + Pow2(logN) / 4]), a.half(a.neg(table[j])))
  }

  /** Every table index used by stage s stays inside the 3/4-wave table. */
  lemma TwiddleInTable(logN: nat, s: nat, u: nat)
    requires s < logN && u < Pow2(s)
    ensures 0 <= u * Pow2(logN - 1 - s) < Pow2(logN - 1)
    ensures u * Pow2(logN - 1 - s) + Pow2(logN) / 4 < Pow2(logN) * 3 / 4
  {
    var g := Pow2(logN - 1 - s);
    Pow2Add(s, logN - 1 - s);
    BlockEnd(g, u, Pow2(s));
    assert u * g == g * u && Pow2(s) * g == g * Pow2(s);
    MulNonNegative(g, u);
    if logN >= 2 {
      assert Pow2(logN) == 4 * Pow2(logN - 2);
    }
  }

  /** The partner of a point lies inside the array. */
  lemma PartnerInRange(t: nat, l: nat, n: nat)
    requires l > 0 && t < n && n % (2 * l) == 0
    ensures t % (2 * l) < l ==> t + l < n && t % l == t % (2 * l)
    ensures t % (2 * l) >= l ==> t - l >= 0 && t % l == t % (2 * l) - l
  {
    BlockInside(t, 2 * l, n);
    HalfOfBlock(t, l);
  }

  lemma BlockInside(t: nat, d: nat, n: nat)
    requires d > 0 && t < n && n % d == 0
    ensures t - t % d + d <= n
  {
    var q, b := t / d, n / d;
    assert t == d * q + t % d && n == d * b;
    QuotientBelow(t, d, b);
    BlockEnd(d, q, b);
  }

  lemma HalfOfBlock(t: nat, l: nat)
    requires l > 0
    ensures t % (2 * l) <= t
    ensures t % l == if t % (2 * l) < l then t % (2 * l) else t % (2 * l) - l
  {
    var q, r := t / (2 * l), t % (2 * l);
    assert t == l * (2 * q) + r && l * (2 * q + 1) == l * (2 * q) + l;
    MulNonNegative(l, 2 * q);
    if r < l {
      DivModUnique(t, l, 2 * q, r);
    } else {
      DivModUnique(t, l, 2 * q + 1, r - l);
    }
  }

  lemma BlockEnd(d: nat, q: nat, b: nat)
    requires q < b
    ensures d * q + d <= d * b
  {
    assert d * b == d * q + d * (b - q);
    MulAtLeast(d, b - q);
  }

  /** Output t of the stage that joins blocks of 2^s points. */
  function Wing<T>(a: Arith<T>, table: seq<T>, logN: nat, s: nat, p: seq<Pair<T>>, t: nat): Pair<T>
    requires s < logN && |table| == Pow2(logN) * 3 / 4
    requires t < |p| && |p| % Pow2(s + 1) == 0
  {
    var l := Pow2(s);
    TwiddleInTable(logN, s, t % l);
    PartnerInRange(t, l, |p|);
    var w := Factor(a, table, logN, (t % l) * Pow2(logN - 1 - s));
    if t % (2 * l) < l then Plus(a, Halved(a, p[t]), Turned(a, w, p[t + l]))
    else Minus(a, Halved(a, p[t - l]), Turned(a, w, p[t]))
  }

  function Stage<T>(a: Arith<T>, table: seq<T>, logN: nat, s: nat, p: seq<Pair<T>>): (r: seq<Pair<T>>)
    requires s < logN && |table| == Pow2(logN) * 3 / 4
    requires |p| % Pow2(s + 1) == 0
    ensures |r| == |p|
  {
    seq(|p|, t requires 0 <= t < |p| => Wing(a, table, logN, s, p, t))
  }

  lemma StageDivides(m: nat, s: nat)
    requires s < m
    ensures Pow2(m) % Pow2(s + 1) == 0
  {
    Pow2Add(s + 1, m - s - 1);
    DivModUnique(Pow2(m), Pow2(s + 1), Pow2(m - s - 1), 0);
  }

  function BitReversed<T>(m: nat, p: seq<T>): (r: seq<T>)
    requires |p| == Pow2(m)
    ensures |r| == |p|
  {
    seq(|p|, t requires 0 <= t < |p| => RevBound(m, t); p[Rev(m, t)])
  }

  /** Stages s, s+1, ..., m-1 in turn. */
  function Stages<T>(a: Arith<T>, table: seq<T>, logN: nat, m: nat, s: nat, p: seq<Pair<T>>): (r: seq<Pair<T>>)
    requires s <= m <= logN && |table| == Pow2(logN) * 3 / 4 && |p| == Pow2(m)
    ensures |r| == |p|
    decreases m - s
  {
    if s == m then p
    else
      StageDivides(m, s);
      Stages(a, table, logN, m, s + 1, Stage(a, table, logN, s, p))
  }

  /** What fix_fft leaves in place of the 2^m points p. */
  function Network<T>(a: Arith<T>, table: seq<T>, logN: nat, m: nat, p: seq<Pair<T>>): (r: seq<Pair<T>>)
    requires m <= logN && |table| == Pow2(logN) * 3 / 4 && |p| == Pow2(m)
    ensures |r| == |p|
  {
    Stages(a, table, logN, m, 0, BitReversed(m, p))
  }

  /** The two output positions of a butterfly inside a block of 2l points. */
  lemma ButterflyPositions(m: nat, s: nat, q: nat, u: nat)
    requires s < m && q < Pow2(m - s - 1) && u < Pow2(s)
    ensures var l := Pow2(s); var i := 2 * l * q + u;
      && i + l < Pow2(m) && i == l * (2 * q) + u && i + l == l * (2 * q + 1) + u
      && i % (2 * l) == u && (i + l) % (2 * l) == u + l && i % l == u && (i + l) % l == u
  {
    Pow2Add(s + 1, m - s - 1);
    hide Pow2;
    PositionsIn(Pow2(s), q, u, Pow2(m - s - 1));
  }

  lemma Regroup(l: nat, q: nat, u: nat)
    ensures 2 * l * q + u == l * (2 * q) + u && 2 * l * q + u + l == l * (2 * q + 1) + u
  {}

  lemma PositionsIn(l: nat, q: nat, u: nat, blocks: nat)
    requires u < l && q < blocks
    ensures var i := 2 * l * q + u;
      && i + l < 2 * l * blocks && i == l * (2 * q) + u && i + l == l * (2 * q + 1) + u
      && i % (2 * l) == u && (i + l) % (2 * l) == u + l && i % l == u && (i + l) % l == u
  {
    var i := 2 * l * q + u;
    Regroup(l, q, u);
    BlockEnd(2 * l, q, blocks);
    DivModUnique(i, 2 * l, q, u);
    DivModUnique(i + l, 2 * l, q, u + l);
    DivModUnique(i, l, 2 * q, u);
    DivModUnique(i + l, l, 2 * q + 1, u);
  }

  /** The two outputs of butterfly u of block b. */
  lemma WingValues<T>(a: Arith<T>, table: seq<T>, logN: nat, m: nat, s: nat, p: seq<Pair<T>>, b: nat, u: nat, i: nat,
                      j: nat)
    requires s < m <= logN && |p| == Pow2(m) && |p| % Pow2(s + 1) == 0
    requires |table| == Pow2(logN) * 3 / 4 && b < Pow2(m - s - 1) && u < Pow2(s)
    requires i == 2 * Pow2(s) * b + u && j == u * Pow2(logN - 1 - s)
    ensures j + Pow2(logN) / 4 < |table| && i + Pow2(s) < |p|
    ensures var l, r, w := Pow2(s), Stage(a, table, logN, s, p), Factor(a, table, logN, j);
      && r[i] == Plus(a, Halved(a, p[i]), Turned(a, w, p[i + l]))
      && r[i + l] == Minus(a, Halved(a, p[i]), Turned(a, w, p[i + l]))
  {
    hide Turned, Halved, Plus, Minus, Factor;
    var l := Pow2(s);
    ButterflyPositions(m, s, b, u);
    TwiddleInTable(logN, s, u);
    assert Stage(a, table, logN, s, p)[i] == Wing(a, table, logN, s, p, i);
    assert Stage(a, table, logN, s, p)[i + l] == Wing(a, table, logN, s, p, i + l);
  }
}
