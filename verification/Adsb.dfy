/** The decoder loops of rtl_adsb, in place on one buffer, proved against AdsbSpec. */
module Adsb {
  import opened AdsbSpec

  /** preamble: 1 iff the samples from i on show the preamble. */
  method Preamble(buf: array<Sample>, i: nat) returns (found: bool)
    requires i + PREAMBLE_LEN <= buf.Length
    ensures found == IsPreamble(buf[..], i)
  {
    var low: Sample, high: Sample := 0, 65535;
    ghost var w := buf[i..i + PREAMBLE_LEN];
    assert buf[..][i..i + PREAMBLE_LEN] == w;
    for k := 0 to PREAMBLE_LEN
      invariant low == if k <= 1 then 0 else if IsPulse(k - 1) then w[k - 2] else w[k - 1]
      invariant high == if k == 0 then 65535 else if k <= 2 then w[0] else if k <= 7 then w[2]
        else if k <= 9 then w[7] else w[9]
      invariant (k > 0 ==> w[0] > 0) && (k > 1 ==> w[0] > w[1]) && (k > 2 ==> w[2] > w[1])
      invariant forall j | 3 <= j < 7 && j < k :: w[2] > w[j]
      invariant (k > 7 ==> w[7] > w[6]) && (k > 8 ==> w[7] > w[8]) && (k > 9 ==> w[9] > w[8])
      invariant forall j | 10 <= j < k :: w[9] > w[j]
    {
      assert buf[i + k] == w[k];
      if IsPulse(k) {
        high := buf[i + k];
      } else {
        low := buf[i + k];
      }
      if high <= low {
        return false;
      }
    }
    found := true;
  }

  method BlankPreamble(buf: array<Sample>, i: nat)
    requires i + PREAMBLE_LEN <= buf.Length
    modifies buf
    ensures var m := old(buf[..]);
      buf[..] == m[..i] + Repeat(MESSAGEGO, PREAMBLE_LEN) + m[i + PREAMBLE_LEN..]
  {
    ghost var m := buf[..];
    for k := 0 to PREAMBLE_LEN
      invariant buf[..] == m[..i] + Repeat(MESSAGEGO, k) + m[i + k..]
    {
      buf[i + k] := MESSAGEGO;
    }
  }

  lemma NoRepeat()
    ensures Repeat(MESSAGEGO, 0) == []
  {}

  /** Find the next preamble, blank it out, and report where its bits start. */
  method SearchPreamble(buf: array<Sample>, i0: nat, a0: Sample, b0: Sample)
      returns (i: nat, a: Sample, b: Sample)
    requires i0 <= buf.Length
    modifies buf
    ensures var m := old(buf[..]);
      var p := FindPreamble(m, i0);
      && (i, a, b) == RunStart(m, i0, a0, b0)
      && buf[..] == m[..p] + Repeat(MESSAGEGO, i - p) + m[i..]
  {
    i, a, b := i0, a0, b0;
    NoRepeat();
    hide Repeat, IsPreamble;
    ghost var m := buf[..];
    while i < buf.Length - PREAMBLE_LEN
      invariant i0 <= i <= buf.Length && buf[..] == m
      invariant FindPreamble(m, i0) == FindPreamble(m, i)
      invariant a == a0 && b == b0
      decreases buf.Length - i
    {
      var found := Preamble(buf, i);
      if !found {
        i := i + 1;
        continue;
      }
      a, b := buf[i], buf[i + 1];
      BlankPreamble(buf, i);
      i := i + PREAMBLE_LEN;
      return;
    }
    assert m[..i] + [] + m[i..] == m;
  }

  /** The buffer part way through a run: n bits gathered, the n samples behind them blanked. */
  function Marked(m: seq<Sample>, start: nat, bits: seq<Sample>): (s: seq<Sample>)
    requires start + 2 * |bits| <= |m|
    ensures |s| == |m|
    ensures forall t | start + 2 * |bits| <= t < |m| :: s[t] == m[t]
  {
    m[..start] + bits + Repeat(OVERWRITE, |bits|) + m[start + 2 * |bits|..]
  }

  /** A run of bits: its parameters, the samples it reads and where and how it starts. */
  datatype Task = Task(quality: int, allowed: int, m: seq<Sample>, start: nat, a: Sample, b: Sample)
  {
    ghost function Whole(): BitRun
      requires start <= |m|
    {
      ReadBits(quality, allowed, m, start, a, b, 0)
    }
  }

  /** The loop's variables. */
  datatype Cursor = Cursor(i: nat, i2: nat, a: Sample, b: Sample, errors: nat)

  /** Part way through a run: the bits already taken, followed by those of the run still ahead,
      are the whole run; the samples ahead are untouched. */
  ghost predicate RunInvariant(k: Task, s: seq<Sample>, c: Cursor, bits: seq<Sample>)
    requires k.start <= |k.m|
  {
    && c.i2 == k.start + |bits| && c.i == k.start + 2 * |bits| <= |k.m|
    && s == Marked(k.m, k.start, bits)
    && var r := ReadBits(k.quality, k.allowed, k.m, c.i, c.a, c.b, c.errors);
      k.Whole() == r.(bits := bits + r.bits)
  }

  /** The run r has been compacted into the samples it was read from. */
  ghost predicate RunDone(m: seq<Sample>, s: seq<Sample>, start: nat, r: BitRun, i: nat, a: Sample, b: Sample) {
    && start <= i <= |m| && (i, a, b) == (r.stop, r.a, r.b)
    && (r.broke ==> i < |m|) && s == m[..start] + Compacted(r) + LeftBy(m, r)[i..]
  }

  lemma RunStarts(k: Task)
    requires k.start <= |k.m|
    ensures RunInvariant(k, k.m, Cursor(k.start, k.start, k.a, k.b, 0), [])
  {
    hide ReadBits;
    assert [] + k.Whole().bits == k.Whole().bits;
    assert Marked(k.m, k.start, []) == k.m;
  }

  /** One more bit, good or guessed. */
  lemma RunContinues(k: Task, s: seq<Sample>, c: Cursor, bits: seq<Sample>, bit: Sample, d: Cursor)
    requires k.start <= |k.m| && c.i < |k.m| - 1 && |s| == |k.m| && RunInvariant(k, s, c, bits)
    requires BitStep(k.quality, k.allowed, s, c, false, bit, d)
    ensures c.i2 <= c.i && d.i <= |k.m| && RunInvariant(k, Written(s, c.i, c.i2, bit), d, bits + [bit])
  {
    hide SingleManchester, Marked;
    MarkOne(k.m, k.start, bits, bit);
    var r := ReadBits(k.quality, k.allowed, k.m, d.i, d.a, d.b, d.errors);
    assert bits + ([bit] + r.bits) == (bits + [bit]) + r.bits;
  }

  lemma RunBreaks(k: Task, s: seq<Sample>, c: Cursor, bits: seq<Sample>, bit: Sample, d: Cursor)
    requires k.start <= |k.m| && c.i < |k.m| - 1 && |s| == |k.m| && RunInvariant(k, s, c, bits)
    requires BitStep(k.quality, k.allowed, s, c, true, bit, d)
    ensures c.i2 < |s| && RunDone(k.m, s[c.i2 := BADSAMPLE], k.start, k.Whole(), d.i, d.a, d.b)
  {
    hide SingleManchester, Marked, Compacted;
    assert bits + [] == bits;
    MarkLast(k.m, k.Whole(), k.start);
  }

  lemma RunExhausted(k: Task, s: seq<Sample>, c: Cursor, bits: seq<Sample>)
    requires k.start <= |k.m| && c.i >= |k.m| - 1 && RunInvariant(k, s, c, bits)
    ensures RunDone(k.m, s, k.start, k.Whole(), c.i, c.a, c.b)
  {
    hide Marked, Compacted;
    assert bits + [] == bits;
    MarkLast(k.m, k.Whole(), k.start);
  }

  lemma MarkOne(m: seq<Sample>, start: nat, bits: seq<Sample>, bit: Sample)
    requires start + 2 * |bits| + 1 < |m|
    ensures var i2, i := start + |bits|, start + 2 * |bits|;
      Marked(m, start, bits)[i := OVERWRITE][i + 1 := OVERWRITE][i2 := bit] == Marked(m, start, bits + [bit])
  {}

  lemma MarkLast(m: seq<Sample>, r: BitRun, start: nat)
    requires r.stop == start + 2 * |r.bits| <= |m|
    requires r.broke ==> r.stop < |m|
    ensures !r.broke ==> Marked(m, start, r.bits) == m[..start] + Compacted(r) + LeftBy(m, r)[r.stop..]
    ensures r.broke ==>
      Marked(m, start, r.bits)[start + |r.bits| := BADSAMPLE] == m[..start] + Compacted(r) + LeftBy(m, r)[r.stop..]
  {}

  /** The buffer after bit i2 of a run has been read from samples i and i+1. */
  function Written(s: seq<Sample>, i: nat, i2: nat, bit: Sample): seq<Sample>
    requires i2 <= i && i + 1 < |s|
  {
    s[i := OVERWRITE][i + 1 := OVERWRITE][i2 := bit]
  }

  /** The outcome of decoding samples i and i+1 of s. */
  ghost predicate BitStep(quality: int, allowed: int, s: seq<Sample>, c: Cursor, broke: bool, bit: Sample, d: Cursor)
    requires c.i + 1 < |s|
  {
    var x := SingleManchester(quality, c.a, c.b, s[c.i], s[c.i + 1]);
    && broke == (x == BADSAMPLE && c.errors + 1 > allowed)
    && (broke ==> (d.i, d.a, d.b) == (c.i, s[c.i], s[c.i + 1]))
    && (!broke && x != BADSAMPLE ==>
      bit == x && d == Cursor(c.i + 2, c.i2 + 1, s[c.i], s[c.i + 1], c.errors))
    && (!broke && x == BADSAMPLE ==>
      bit == (if s[c.i] > s[c.i + 1] then 1 else 0) && d == Cursor(c.i + 2, c.i2 + 1, 0, 65535, c.errors + 1))
  }

  /** Decode the samples at the cursor and mark the result at i2 <= i: too many errors stop the
      run, a tolerated error guesses the bit and resets the comparison. */
  method MarkOneBit(buf: array<Sample>, c: Cursor, quality: int, allowed: int)
      returns (broke: bool, ghost bit: Sample, d: Cursor)
    requires c.i2 <= c.i && c.i + 1 < buf.Length
    modifies buf
    ensures broke ==> buf[..] == old(buf[..])[c.i2 := BADSAMPLE]
    ensures !broke ==> buf[..] == Written(old(buf[..]), c.i, c.i2, bit) && d.i2 <= d.i <= buf.Length
    ensures BitStep(quality, allowed, old(buf[..]), c, broke, bit, d)
  {
    hide SingleManchester;
    var i, i2, a, b, errors := c.i, c.i2, c.a, c.b, c.errors;
    var x := SingleManchester(quality, a, b, buf[i], buf[i + 1]);
    a, b := buf[i], buf[i + 1];
    if x == BADSAMPLE {
      errors := errors + 1;
      if errors > allowed {
        buf[i2] := BADSAMPLE;
        return true, x, Cursor(i, i2, a, b, errors);
      }
      x := if a > b then 1 else 0;
      a, b := 0, 65535;
    }
    buf[i] := OVERWRITE;
    buf[i + 1] := OVERWRITE;
    buf[i2] := x;
    return false, x, Cursor(i + 2, i2 + 1, a, b, errors);
  }

  /** Mark bits until the encoding breaks: bits gather at the start of the run, the samples they
      came from become OVERWRITE, and the write index never passes the read index. */
  method MarkBits(buf: array<Sample>, start: nat, quality: int, allowed: int, a0: Sample, b0: Sample)
      returns (i: nat, a: Sample, b: Sample)
    requires start <= buf.Length
    modifies buf
    ensures RunDone(old(buf[..]), buf[..], start, ReadBits(quality, allowed, old(buf[..]), start, a0, b0, 0), i, a, b)
  {
    hide RunInvariant, BitStep, ReadBits, RunDone, Written;
    var c := Cursor(start, start, a0, b0, 0);
    ghost var k := Task(quality, allowed, buf[..], start, a0, b0);
    ghost var bits: seq<Sample> := [];
    RunStarts(k);
    while c.i < buf.Length - 1
      invariant c.i2 <= c.i <= buf.Length && RunInvariant(k, buf[..], c, bits)
      decreases buf.Length - c.i
    {
      ghost var was := buf[..];
      var broke, d;
      ghost var bit;
      broke, bit, d := MarkOneBit(buf, c, quality, allowed);
      if broke {
        RunBreaks(k, was, c, bits, bit, d);
        return d.i, d.a, d.b;
      }
      RunContinues(k, was, c, bits, bit, d);
      StepAdvances(k, was, c, bit, d);
      bits := bits + [bit];
      c := d;
    }
    RunExhausted(k, buf[..], c, bits);
    return c.i, c.a, c.b;
  }

  lemma StepAdvances(k: Task, s: seq<Sample>, c: Cursor, bit: Sample, d: Cursor)
    requires c.i + 1 < |s| && BitStep(k.quality, k.allowed, s, c, false, bit, d)
    ensures d.i == c.i + 2
  {
    hide SingleManchester;
  }

  /** manchester: for every tolerance with which it settles it terminates, and the buffer ends as
      the decoder on an immutable copy says. */
  method Manchester(buf: array<Sample>, quality: int, allowedErrors: int)
    requires Settles(quality, allowedErrors, buf[..], 0)
    modifies buf
    ensures buf[..] == Decoded(quality, allowedErrors, old(buf[..]), 0, 0, 0)
  {
    hide Decoded, ReadBits, Compacted, RunStart, FindPreamble, IsPreamble, RunDone, Repeat, Settles, Stalls, LeftBy;
    ghost var m := buf[..];
    ghost var v := m;
    var i: nat, a: Sample, b: Sample := 0, 0, 0;
    while i < buf.Length - 1
      invariant i <= buf.Length == |v| && buf[i..] == v[i..] && Settles(quality, allowedErrors, v, i)
      invariant buf[..i] + Decoded(quality, allowedErrors, v, i, a, b) == Decoded(quality, allowedErrors, m, 0, 0, 0)
      decreases buf.Length - i, if i + 1 < |v| then Stalls(v, i, a, b) else 0
    {
      ghost var was, i0, a0, b0 := buf[..], i, a, b;
      assert was[i..] == v[i..] && was[..i] == buf[..i];
      i, a, b := SearchPreamble(buf, i, a, b);
      ghost var mid, j, a1, b1 := buf[..], i, a, b;
      i, a, b := MarkBits(buf, i, quality, allowedErrors, a, b);
      v := Round(quality, allowedErrors, v, was, mid, buf[..], i0, a0, b0, j, a1, b1, i, a, b);
      assert buf[..][i..] == buf[i..] && buf[..][..i] == buf[..i];
    }
    DecodedEnd(quality, allowedErrors, v, i, a, b);
    assert buf[..] == buf[..i] + buf[i..];
  }

  lemma DecodedEnd(quality: int, allowed: int, m: seq<Sample>, i: nat, a: Sample, b: Sample)
    requires |m| - 1 <= i <= |m| && Settles(quality, allowed, m, i)
    ensures Decoded(quality, allowed, m, i, a, b) == m[i..]
  {}

  // ----- one round of the outer loop, on sequences

  lemma {:induction false} SameSuffixSearch(m: seq<Sample>, n: seq<Sample>, i: nat)
    requires i <= |m| == |n| && m[i..] == n[i..]
    ensures FindPreamble(n, i) == FindPreamble(m, i)
    decreases |m| - i
  {
    if i < |m| - PREAMBLE_LEN {
      assert m[i..i + PREAMBLE_LEN] == m[i..][..PREAMBLE_LEN] == n[i..][..PREAMBLE_LEN] == n[i..i + PREAMBLE_LEN];
      assert m[i + 1..] == m[i..][1..] == n[i..][1..] == n[i + 1..];
      SameSuffixSearch(m, n, i + 1);
    }
  }

  lemma {:induction false} SameSuffixBits(quality: int, allowed: int, m: seq<Sample>, n: seq<Sample>, i: nat,
                                          a: Sample, b: Sample, errors: nat)
    requires i <= |m| == |n| && m[i..] == n[i..]
    ensures ReadBits(quality, allowed, n, i, a, b, errors) == ReadBits(quality, allowed, m, i, a, b, errors)
    decreases |m| - i
  {
    hide SingleManchester;
    if i < |m| - 1 {
      var c, d := m[i], m[i + 1];
      assert n[i] == n[i..][0] == m[i..][0] == c && n[i + 1] == n[i..][1] == m[i..][1] == d;
      assert m[i + 2..] == m[i..][2..] == n[i..][2..] == n[i + 2..];
      SameSuffixBits(quality, allowed, m, n, i + 2, c, d, errors);
      SameSuffixBits(quality, allowed, m, n, i + 2, 0, 65535, errors + 1);
    }
  }

  lemma Suffix(m: seq<Sample>, n: seq<Sample>, i: nat, k: nat)
    requires i <= k <= |m| == |n| && m[i..] == n[i..]
    ensures m[k..] == n[k..] && m[i..k] == n[i..k] && forall t | i <= t < |m| :: m[t] == n[t]
  {
    assert m[k..] == m[i..][k - i..] && n[k..] == n[i..][k - i..];
    assert m[i..k] == m[i..][..k - i] && n[i..k] == n[i..][..k - i];
    assert forall t | i <= t < |m| :: m[t] == m[i..][t - i] && n[t] == n[i..][t - i];
  }

  /** The pieces of one round, in their place. */
  lemma Assemble(m: seq<Sample>, was: seq<Sample>, mid: seq<Sample>, now: seq<Sample>, i: nat, p: nat, j: nat,
                 go: seq<Sample>, c: seq<Sample>, left: seq<Sample>)
    requires i <= p <= j <= |m| == |was| && |go| == j - p
    requires was[i..p] == m[i..p] && was[j..] == m[j..]
    requires mid == was[..p] + go + was[j..]
    requires now == mid[..j] + c + left
    ensures now == was[..i] + (m[i..p] + go + c) + left
  {
    assert was[..p] == was[..i] + was[i..p];
    assert mid[..j] == was[..p] + go;
  }

  /** What a round reads from the partly overwritten buffer is what it would read from m. */
  lemma SameRound(quality: int, allowed: int, m: seq<Sample>, was: seq<Sample>, mid: seq<Sample>,
                  i: nat, a: Sample, b: Sample)
    requires |was| == |m| && i <= |m| && was[i..] == m[i..]
    requires var p, j := FindPreamble(was, i), RunStart(was, i, a, b).0;
      mid == was[..p] + Repeat(MESSAGEGO, j - p) + was[j..]
    ensures FindPreamble(was, i) == FindPreamble(m, i) && RunStart(was, i, a, b) == RunStart(m, i, a, b)
    ensures var (j, a1, b1) := RunStart(m, i, a, b);
      && was[i..FindPreamble(m, i)] == m[i..FindPreamble(m, i)] && was[j..] == m[j..] == mid[j..] && |mid| == |m|
      && ReadBits(quality, allowed, mid, j, a1, b1, 0) == ReadBits(quality, allowed, m, j, a1, b1, 0)
  {
    hide ReadBits, IsPreamble, Repeat;
    SameSuffixSearch(m, was, i);
    var p := FindPreamble(m, i);
    Suffix(m, was, i, p);
    var (j, a1, b1) := RunStart(m, i, a, b);
    Suffix(m, was, i, j);
    assert mid[j..] == m[j..];
    SameSuffixBits(quality, allowed, m, mid, j, a1, b1, 0);
  }

  lemma RunDoneMeans(m: seq<Sample>, s: seq<Sample>, start: nat, r: BitRun, i: nat, a: Sample, b: Sample)
    requires RunDone(m, s, start, r, i, a, b)
    ensures start <= i <= |m| && (i, a, b) == (r.stop, r.a, r.b) && (r.broke ==> i < |m|)
    ensures s == m[..start] + Compacted(r) + LeftBy(m, r)[i..]
  {}

  lemma SameLeft(m: seq<Sample>, n: seq<Sample>, j: nat, r: BitRun)
    requires j <= r.stop <= |m| == |n| && m[j..] == n[j..] && (r.broke ==> r.stop < |m|)
    ensures LeftBy(m, r)[r.stop..] == LeftBy(n, r)[r.stop..]
  {
    Suffix(m, n, j, r.stop);
  }

  /** One round turns the decoded tail from i into its own output and the decoded tail from stop. */
  lemma Round(quality: int, allowed: int, m: seq<Sample>, was: seq<Sample>, mid: seq<Sample>, now: seq<Sample>,
              i: nat, a: Sample, b: Sample, j: nat, a1: Sample, b1: Sample, stop: nat, a2: Sample, b2: Sample)
      returns (n: seq<Sample>)
    requires |was| == |m| && i < |m| - 1 && was[i..] == m[i..] && Settles(quality, allowed, m, i)
    requires (j, a1, b1) == RunStart(was, i, a, b)
    requires mid == was[..FindPreamble(was, i)] + Repeat(MESSAGEGO, j - FindPreamble(was, i)) + was[j..]
    requires RunDone(mid, now, j, ReadBits(quality, allowed, mid, j, a1, b1, 0), stop, a2, b2)
    ensures i <= stop <= |m| == |n| == |now| && now[stop..] == n[stop..] && Settles(quality, allowed, n, stop)
    ensures stop == i ==> Stalls(n, i, a2, b2) < Stalls(m, i, a, b)
    ensures now[..stop] + Decoded(quality, allowed, n, stop, a2, b2) == was[..i] + Decoded(quality, allowed, m, i, a, b)
  {
    RunDoneMeans(mid, now, j, ReadBits(quality, allowed, mid, j, a1, b1, 0), stop, a2, b2);
    hide *;
    SameRound(quality, allowed, m, was, mid, i, a, b);
    RoundProgress(quality, allowed, m, i, a, b);
    DecodedStep(quality, allowed, m, i, a, b);
    var p, r := FindPreamble(m, i), ReadBits(quality, allowed, m, j, a1, b1, 0);
    n := LeftBy(m, r);
    SameLeft(m, mid, j, r);
    var head := m[i..p] + Repeat(MESSAGEGO, j - p) + Compacted(r);
    Assemble(m, was, mid, now, i, p, j, Repeat(MESSAGEGO, j - p), Compacted(r), n[stop..]);
    Joined(was[..i], head, n, stop, now, Decoded(quality, allowed, n, stop, a2, b2));
  }

  lemma Joined(front: seq<Sample>, head: seq<Sample>, n: seq<Sample>, stop: nat, now: seq<Sample>, tail: seq<Sample>)
    requires |front| + |head| == stop <= |n| && now == front + head + n[stop..]
    ensures |now| == |n| && now[stop..] == n[stop..] && now[..stop] + tail == front + (head + tail)
  {}

  lemma DecodedStep(quality: int, allowed: int, m: seq<Sample>, i: nat, a: Sample, b: Sample)
    requires i < |m| - 1 && Settles(quality, allowed, m, i)
    ensures var p := FindPreamble(m, i);
      var (j, a1, b1) := RunStart(m, i, a, b);
      var r := ReadBits(quality, allowed, m, j, a1, b1, 0);
      && r.stop <= |m| && (r.broke ==> r.stop < |m|) && Settles(quality, allowed, LeftBy(m, r), r.stop)
      && Decoded(quality, allowed, m, i, a, b)
        == m[i..p] + Repeat(MESSAGEGO, j - p) + Compacted(r) + Decoded(quality, allowed, LeftBy(m, r), r.stop, r.a, r.b)
  {
    hide FindPreamble, ReadBits, Compacted, RunStart, Settles, Stalls, LeftBy, Repeat;
    RoundProgress(quality, allowed, m, i, a, b);
  }

  // ----- messages

  lemma PackOneMore(bits: seq<Sample>, b: Sample)
    requires |bits| < LONG_FRAME
    ensures Pack(bits + [b]) == WithBit(Pack(bits), |bits|, b)
  {
    hide WithBit;
    var all := bits + [b];
    assert all[..|all| - 1] == bits;
  }

  /** n bits of a frame of the given length have been collected into f. */
  ghost predicate Collecting(m: seq<Sample>, i0: nat, n: nat, len: nat, f: seq<bv8>) {
    && n <= len <= LONG_FRAME && i0 + n <= |m|
    && (forall k | i0 <= k < i0 + n :: m[k] <= 1)
    && f == Pack(m[i0..i0 + n])
    && (n < 8 ==> len == LONG_FRAME)
    && (n >= 8 ==> var first := Pack(m[i0..i0 + 8])[0]; first != 0 && len == FrameLength(first))
  }

  lemma CollectStart(m: seq<Sample>, i0: nat, f: seq<bv8>)
    requires i0 <= |m| && |f| == 14 && forall k | 0 <= k < 14 :: f[k] == 0
    ensures Collecting(m, i0, 0, LONG_FRAME, f)
  {
    assert m[i0..i0 + 0] == [];
    assert f == Pack([]);
  }

  lemma CollectStep(m: seq<Sample>, i0: nat, n: nat, len: nat, f: seq<bv8>)
    requires Collecting(m, i0, n, len, f) && n < len && i0 + n < |m| && m[i0 + n] <= 1
    ensures |f| == 14 && (n == 7 ==> len == LONG_FRAME)
    ensures var g := WithBit(f, n, m[i0 + n]);
      if n != 7 then Collecting(m, i0, n + 1, len, g)
      else if g[0] == 0 then Consumed(m, i0) == (7, LONG_FRAME)
      else Collecting(m, i0, n + 1, FrameLength(g[0]), g)
  {
    PackOneMore(m[i0..i0 + n], m[i0 + n]);
    assert m[i0..i0 + n] + [m[i0 + n]] == m[i0..i0 + (n + 1)];
    assert |f| == 14;
    hide Pack, WithBit, RunLength;
    if n == 7 {
      EightBits(m, i0, WithBit(f, n, m[i0 + n]));
    }
  }

  /** The eighth bit ends the search for the length, or the frame. */
  lemma EightBits(m: seq<Sample>, i0: nat, g: seq<bv8>)
    requires i0 + 8 <= |m| && (forall k | i0 <= k < i0 + 8 :: m[k] <= 1) && g == Pack(m[i0..i0 + 8])
    ensures |g| == 14 && (g[0] == 0 ==> Consumed(m, i0) == (7, LONG_FRAME))
  {
    RunLengthIs(m, i0, 8, 8);
    hide Pack, RunLength;
  }

  lemma CollectEnd(m: seq<Sample>, i0: nat, n: nat, len: nat, f: seq<bv8>)
    requires Collecting(m, i0, n, len, f)
    requires i0 + n == |m| || m[i0 + n] > 1 || n == len
    ensures Consumed(m, i0) == (n, len)
  {
    hide Pack;
    if n < 8 {
      RunLengthIs(m, i0, 8, n);
    } else {
      RunLengthIs(m, i0, 8, 8);
      RunLengthIs(m, i0, len, n);
    }
  }

  /** Collect bits from i0 on into adsb_frame until they stop, the frame is full, or its first
      byte is zero. */
  method ReadFrame(buf: array<Sample>, i0: nat, frame: array<bv8>) returns (dataI: nat, frameLen: nat)
    requires i0 < buf.Length && buf[i0] <= 1 && frame.Length == 14 && buf as object != frame as object
    modifies frame
    ensures (dataI, frameLen) == Consumed(buf[..], i0) && i0 + dataI <= buf.Length
    ensures !(dataI + 1 < frameLen) ==> frame[..] == Pack(buf[..][i0..i0 + dataI])
  {
    hide BitMask, Pack, Collecting, Consumed;
    frameLen, dataI := LONG_FRAME, 0;
    for index := 0 to 14
      invariant forall k | 0 <= k < index :: frame[k] == 0
    {
      frame[index] := 0;
    }
    CollectStart(buf[..], i0, frame[..]);
    while i0 + dataI < buf.Length && buf[i0 + dataI] <= 1 && dataI < frameLen
      invariant dataI <= frameLen <= LONG_FRAME && i0 + dataI <= buf.Length
      invariant Collecting(buf[..], i0, dataI, frameLen, frame[..])
      decreases LONG_FRAME - dataI
    {
      CollectStep(buf[..], i0, dataI, frameLen, frame[..]);
      if buf[i0 + dataI] != 0 {
        var index, shift := dataI / 8, 7 - dataI % 8;
        frame[index] := frame[index] | BitMask(shift);
      }
      if dataI == 7 {
        if frame[0] == 0 {
          return;
        }
        frameLen := FrameLength(frame[0]);
      }
      dataI := dataI + 1;
    }
    CollectEnd(buf[..], i0, dataI, frameLen, frame[..]);
    CollectedBits(buf[..], i0, dataI, frameLen, frame[..]);
  }

  lemma CollectedBits(m: seq<Sample>, i0: nat, n: nat, len: nat, f: seq<bv8>)
    requires Collecting(m, i0, n, len, f)
    ensures f == Pack(m[i0..i0 + n])
  {}

  /** display: print the frame, unless an option keeps it back. */
  method Display(frame: array<bv8>, len: nat, shortOutput: bool, quality: int) returns (out: seq<Frame>)
    requires frame.Length == 14
    ensures out == if Shows(Frame(frame[..], len), shortOutput, quality) then [Frame(frame[..], len)] else []
  {
    if !shortOutput && len <= SHORT_FRAME {
      return [];
    }
    var df := (frame[0] >> 3) & 0x1f;
    if quality == 0 && !(df == 11 || df == 17 || df == 18 || df == 19) {
      return [];
    }
    out := [Frame(frame[..], len)];
  }

  /** messages: the frames displayed. */
  method Messages(buf: array<Sample>, frame: array<bv8>, shortOutput: bool, quality: int) returns (shown: seq<Frame>)
    requires frame.Length == 14 && buf as object != frame as object
    modifies frame
    ensures shown == Displayed(Frames(buf[..], 0), shortOutput, quality)
  {
    hide Consumed, Pack, Frames, Displayed, Shows, Sized;
    shown := [];
    var i: nat := 0;
    ghost var passed: seq<Frame> := [];
    DisplayedNone(shortOutput, quality);
    while i < buf.Length
      invariant i <= buf.Length + 1 && Sized(passed)
      invariant Frames(buf[..], 0) == passed + Frames(buf[..], i)
      invariant shown == Displayed(passed, shortOutput, quality)
      decreases buf.Length + 1 - i
    {
      FramesStep(buf[..], i, passed);
      if buf[i] > 1 {
        i := i + 1;
        continue;
      }
      var dataI, frameLen := ReadFrame(buf, i, frame);
      if !(dataI + 1 < frameLen) {
        var out := Display(frame, frameLen, shortOutput, quality);
        DisplayedMore(passed, Frame(frame[..], frameLen), shortOutput, quality);
        shown := shown + out;
        passed := passed + [Frame(frame[..], frameLen)];
      }
      i := i + dataI + 1;
    }
    FramesEnd(buf[..], i);
    assert passed + [] == passed;
  }

  lemma FramesEnd(m: seq<Sample>, i: nat)
    requires i >= |m|
    ensures Frames(m, i) == []
  {}

  lemma FramesStep(m: seq<Sample>, i: nat, shown: seq<Frame>)
    requires i < |m|
    ensures m[i] > 1 ==> Frames(m, i) == Frames(m, i + 1)
    ensures m[i] <= 1 ==> var (n, len) := Consumed(m, i);
      var rest := Frames(m, i + n + 1);
      shown + Frames(m, i) == if n + 1 < len then shown + rest else (shown + [Frame(Pack(m[i..i + n]), len)]) + rest
  {
    hide Consumed, Pack;
    if m[i] <= 1 {
      var (n, len) := Consumed(m, i);
      var rest := Frames(m, i + n + 1);
      assert [] + rest == rest;
      assert shown + ([Frame(Pack(m[i..i + n]), len)] + rest) == (shown + [Frame(Pack(m[i..i + n]), len)]) + rest;
    }
  }

  /** squares_precompute. */
  method SquaresPrecompute(squares: array<Sample>)
    requires squares.Length == 256
    modifies squares
    ensures forall x: nat | x < 256 :: squares[x] == Square(x)
  {
    hide Square;
    for i := 0 to 256
      invariant forall x: nat | x < i :: squares[x] == Square(x)
    {
      squares[i] := Square(i);
    }
  }

  /** magnitute: each pair of bytes, here one 16-bit element, becomes its magnitude in place. */
  method Magnitute(buf: array<Sample>, squares: array<Sample>)
    requires squares.Length == 256 && squares != buf && forall x: nat | x < 256 :: squares[x] == Square(x)
    modifies buf
    ensures buf[..] == Magnitudes(old(buf[..]))
  {
    for k := 0 to buf.Length
      invariant forall t | 0 <= t < k :: buf[t] == Magnitude(old(buf[t]))
      invariant forall t | k <= t < buf.Length :: buf[t] == old(buf[t])
    {
      hide Square;
      buf[k] := squares[buf[k] % 256] + squares[buf[k] / 256];
    }
  }

  /** One pass of the demodulator thread over a buffer of sample pairs, with any options. */
  method Demodulate(buf: array<Sample>, squares: array<Sample>, frame: array<bv8>,
                    shortOutput: bool, quality: int, allowedErrors: int) returns (shown: seq<Frame>)
    requires squares.Length == 256 && squares != buf && forall x: nat | x < 256 :: squares[x] == Square(x)
    requires frame.Length == 14 && buf as object != frame as object
    modifies buf, frame
    ensures Settles(quality, allowedErrors, Magnitudes(old(buf[..])), 0)
    ensures shown == Displayed(Frames(Decoded(quality, allowedErrors, Magnitudes(old(buf[..])), 0, 0, 0), 0),
                               shortOutput, quality)
  {
    hide Decoded, Frames, Displayed, Magnitudes, Settles;
    MagnitudesSettle(quality, allowedErrors, buf[..]);
    Magnitute(buf, squares);
    Manchester(buf, quality, allowedErrors);
    shown := Messages(buf, frame, shortOutput, quality);
  }
}
