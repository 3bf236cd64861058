/** A Mode S reply sent as pulse positions comes back as the same bytes, and every frame that is
    ever displayed is backed by samples decoded as its bits. */
module AdsbRoundTrip {
  import opened AdsbSpec

  /** Bit t of a message, most significant bit of the first byte first. */
  predicate Bit(msg: seq<bv8>, t: nat)
    requires t < 8 * |msg|
  {
    msg[t / 8] & BitMask(7 - t % 8) != 0
  }

  function BitsOf(msg: seq<bv8>): (bits: seq<Sample>)
    ensures |bits| == 8 * |msg|
  {
    seq(8 * |msg|, t requires 0 <= t < 8 * |msg| => if Bit(msg, t) then 1 else 0)
  }

  // ----- packing inverts unpacking

  function TopMask(j: nat): bv8
    requires j <= 8
  {
    match j
    case 0 => 0x00 case 1 => 0x80 case 2 => 0xc0 case 3 => 0xe0 case 4 => 0xf0
    case 5 => 0xf8 case 6 => 0xfc case 7 => 0xfe case 8 => 0xff
  }

  /** The first j bits of a byte. */
  function Top(x: bv8, j: nat): bv8
    requires j <= 8
  {
    x & TopMask(j)
  }

  lemma MaskStep(j: nat)
    requires j < 8
    ensures TopMask(j + 1) == TopMask(j) | BitMask(7 - j)
    ensures BitMask(7 - j) & (BitMask(7 - j) - 1) == 0 && BitMask(7 - j) != 0
  {}

  lemma TopStep(x: bv8, j: nat)
    requires j < 8
    ensures Top(x, j + 1) == if x & BitMask(7 - j) != 0 then Top(x, j) | BitMask(7 - j) else Top(x, j)
  {
    hide TopMask, BitMask;
    MaskStep(j);
    TopBit(x, TopMask(j), BitMask(7 - j));
  }

  lemma TopBit(x: bv8, high: bv8, mask: bv8)
    requires mask & (mask - 1) == 0 && mask != 0
    ensures x & (high | mask) == if x & mask != 0 then (x & high) | mask else x & high
  {}

  /** The message with only its first n bits set. */
  function Partial(msg: seq<bv8>, n: nat): (f: seq<bv8>)
    requires |msg| <= 14 && n <= 8 * |msg|
    ensures |f| == 14
  {
    seq(14, k requires 0 <= k < 14 =>
      if 8 * k + 8 <= n then msg[k] else if 8 * k < n then Top(msg[k], n - 8 * k) else 0)
  }

  lemma {:induction false} PackPrefix(msg: seq<bv8>, n: nat)
    requires |msg| <= 14 && n <= 8 * |msg|
    ensures Pack(BitsOf(msg)[..n]) == Partial(msg, n)
  {
    if n == 0 {
      assert BitsOf(msg)[..0] == [];
      assert Pack([]) == Partial(msg, 0);
    } else {
      PackPrefix(msg, n - 1);
      var bits := BitsOf(msg)[..n];
      assert bits[..n - 1] == BitsOf(msg)[..n - 1];
      PartialStep(msg, n - 1);
    }
  }

  lemma PartialStep(msg: seq<bv8>, n: nat)
    requires |msg| <= 14 && n < 8 * |msg|
    ensures Partial(msg, n + 1) == WithBit(Partial(msg, n), n, BitsOf(msg)[n])
  {
    hide BitMask, Top;
    var k, j := n / 8, n % 8;
    TopStep(msg[k], j);
    TopEnds(msg[k]);
    var f, g := Partial(msg, n), WithBit(Partial(msg, n), n, BitsOf(msg)[n]);
    assert f[k] == Top(msg[k], j);
    assert g[k] == Top(msg[k], j + 1) == Partial(msg, n + 1)[k];
    assert forall i | 0 <= i < 14 && i != k :: g[i] == f[i] == Partial(msg, n + 1)[i];
  }

  lemma TopEnds(x: bv8)
    ensures Top(x, 0) == 0 && Top(x, 8) == x
  {}

  /** The message in the fourteen bytes of adsb_frame. */
  function Padded(msg: seq<bv8>): seq<bv8>
    requires |msg| <= 14
  {
    msg + seq(14 - |msg|, _ => 0)
  }

  lemma PackBitsOf(msg: seq<bv8>)
    requires |msg| <= 14
    ensures Pack(BitsOf(msg)) == Padded(msg)
  {
    PackPrefix(msg, 8 * |msg|);
    assert BitsOf(msg)[..8 * |msg|] == BitsOf(msg);
    assert Partial(msg, 8 * |msg|) == Padded(msg);
  }

  /** The first byte is settled by the first eight bits. */
  lemma {:induction false} PackFirstByte(bits: seq<Sample>)
    requires 8 <= |bits| <= LONG_FRAME
    ensures Pack(bits)[0] == Pack(bits[..8])[0]
    decreases |bits|
  {
    if |bits| > 8 {
      PackFirstByte(bits[..|bits| - 1]);
      assert bits[..|bits| - 1][..8] == bits[..8];
    } else {
      assert bits[..8] == bits;
    }
  }

  // ----- the transmitted signal

  /** Whether a reply that carries msg has a pulse in its k-th half-microsecond sample: a preamble
      of sixteen samples, then two samples a bit, the pulse first for 1 and second for 0. */
  predicate High(msg: seq<bv8>, k: nat)
    requires k < PREAMBLE_LEN + 16 * |msg|
  {
    if k < PREAMBLE_LEN then k == 0 || k == 2 || k == 7 || k == 9
    else (k - PREAMBLE_LEN) % 2 == (if Bit(msg, (k - PREAMBLE_LEN) / 2) then 0 else 1)
  }

  /** From p on, m carries msg: every sample with a pulse is above every sample without. */
  ghost predicate Carries(m: seq<Sample>, p: nat, msg: seq<bv8>) {
    && p + PREAMBLE_LEN + 16 * |msg| <= |m|
    && forall h: nat, l: nat |
        h < PREAMBLE_LEN + 16 * |msg| && l < PREAMBLE_LEN + 16 * |msg| && High(msg, h) && !High(msg, l) ::
        m[p + h] > m[p + l]
  }

  lemma Above(m: seq<Sample>, p: nat, msg: seq<bv8>, h: nat, l: nat)
    requires Carries(m, p, msg) && h < PREAMBLE_LEN + 16 * |msg| && l < PREAMBLE_LEN + 16 * |msg|
    requires High(msg, h) && !High(msg, l)
    ensures p + h < |m| && p + l < |m| && m[p + h] > m[p + l]
  {
    hide High;
  }

  lemma PreambleDetected(m: seq<Sample>, p: nat, msg: seq<bv8>)
    requires Carries(m, p, msg)
    ensures IsPreamble(m, p)
  {
    var w := m[p..p + PREAMBLE_LEN];
    assert High(msg, 0) && High(msg, 2) && High(msg, 7) && High(msg, 9);
    forall k: nat | k < 16 && k != 0 && k != 2 && k != 7 && k != 9
      ensures Dwarfed(w, k)
    {
      assert !High(msg, k);
      hide High, Carries;
      Above(m, p, msg, 0, k);
      Above(m, p, msg, 2, k);
      Above(m, p, msg, 7, k);
      Above(m, p, msg, 9, k);
    }
    hide High, Carries;
    PulsesFrom(w);
  }

  /** Sample k is below all four pulse positions. */
  predicate Dwarfed(w: seq<Sample>, k: nat)
    requires |w| == PREAMBLE_LEN && k < PREAMBLE_LEN
  {
    w[0] > w[k] && w[2] > w[k] && w[7] > w[k] && w[9] > w[k]
  }

  lemma PulsesFrom(w: seq<Sample>)
    requires |w| == PREAMBLE_LEN
    requires forall k: nat | k < 16 && k != 0 && k != 2 && k != 7 && k != 9 :: Dwarfed(w, k)
    ensures Pulses(w)
  {
    assert Dwarfed(w, 1) && Dwarfed(w, 6) && Dwarfed(w, 8);
    forall k: nat | 3 <= k < 7 ensures w[2] > w[k] { assert Dwarfed(w, k); }
    forall k: nat | 10 <= k < 16 ensures w[9] > w[k] { assert Dwarfed(w, k); }
  }

  /** The two samples of bit t. */
  lemma PairHigh(msg: seq<bv8>, t: nat)
    requires t < 8 * |msg|
    ensures High(msg, PREAMBLE_LEN + 2 * t) == Bit(msg, t) && High(msg, PREAMBLE_LEN + 2 * t + 1) == !Bit(msg, t)
  {
    hide Bit;
    var k := PREAMBLE_LEN + 2 * t;
    assert (k - PREAMBLE_LEN) / 2 == t && (k + 1 - PREAMBLE_LEN) / 2 == t && (k + 1 - PREAMBLE_LEN) % 2 == 1;
  }

  /** Bit t is read right at every quality, compared with the two samples before it (for the first
      bit, with the first pulse of the preamble and the gap after it). */
  lemma BitRead(quality: int, m: seq<Sample>, p: nat, msg: seq<bv8>, t: nat)
    requires Carries(m, p, msg) && t < 8 * |msg|
    ensures var j := p + PREAMBLE_LEN + 2 * t;
      var a, b := if t == 0 then m[p] else m[j - 2], if t == 0 then m[p + 1] else m[j - 1];
      SingleManchester(quality, a, b, m[j], m[j + 1]) == BitsOf(msg)[t]
  {
    hide High, Bit, SingleManchester, Carries;
    PairHigh(msg, t);
    if t == 0 {
      FirstPulse(msg);
      PairRead(quality, m, p, msg, 0, PREAMBLE_LEN, true, Bit(msg, t));
    } else {
      PairHigh(msg, t - 1);
      PairRead(quality, m, p, msg, PREAMBLE_LEN + 2 * t - 2, PREAMBLE_LEN + 2 * t, Bit(msg, t - 1), Bit(msg, t));
    }
  }

  lemma FirstPulse(msg: seq<bv8>)
    ensures High(msg, 0) && !High(msg, 1)
  {}

  /** A pair at k compared with a pair at u, each a pulse and a gap. */
  lemma PairRead(quality: int, m: seq<Sample>, p: nat, msg: seq<bv8>, u: nat, k: nat, before: bool, bit: bool)
    requires Carries(m, p, msg) && u < PREAMBLE_LEN + 16 * |msg| - 1 && k < PREAMBLE_LEN + 16 * |msg| - 1
    requires High(msg, u) == before && High(msg, u + 1) == !before
    requires High(msg, k) == bit && High(msg, k + 1) == !bit
    ensures p + u + 1 < |m| && p + k + 1 < |m|
    ensures SingleManchester(quality, m[p + u], m[p + u + 1], m[p + k], m[p + k + 1]) == if bit then 1 else 0
  {
    hide High, SingleManchester, Carries;
    var h, l := if bit then k else k + 1, if bit then k + 1 else k;
    var h0, l0 := if before then u else u + 1, if before then u + 1 else u;
    Above(m, p, msg, h, l);
    Above(m, p, msg, h, l0);
    Above(m, p, msg, h0, l);
    Above(m, p, msg, h0, l0);
    Decision(quality, m[p + u], m[p + u + 1], m[p + k], m[p + k + 1], before, bit);
  }

  /** Two pairs, each a pulse and a gap, every pulse above every gap: the second pair is read right. */
  lemma Decision(quality: int, a: Sample, b: Sample, c: Sample, d: Sample, before: bool, bit: bool)
    requires var h0, l0 := if before then a else b, if before then b else a;
      var h, l := if bit then c else d, if bit then d else c;
      h > l && h > l0 && h0 > l && h0 > l0
    ensures SingleManchester(quality, a, b, c, d) == if bit then 1 else 0
  {}

  lemma {:induction false} BitsRead(quality: int, allowed: int, m: seq<Sample>, p: nat, msg: seq<bv8>,
                                   t: nat, a: Sample, b: Sample)
    requires Carries(m, p, msg) && t <= 8 * |msg|
    requires t == 0 ==> (a, b) == (m[p], m[p + 1])
    requires t > 0 ==> (a, b) == (m[p + PREAMBLE_LEN + 2 * t - 2], m[p + PREAMBLE_LEN + 2 * t - 1])
    ensures var r := ReadBits(quality, allowed, m, p + PREAMBLE_LEN + 2 * t, a, b, 0);
      && BitsOf(msg)[t..] <= r.bits
      && (|m| == p + PREAMBLE_LEN + 16 * |msg| ==> r.bits == BitsOf(msg)[t..] && !r.broke)
    decreases 8 * |msg| - t
  {
    hide SingleManchester, High, Bit;
    if t < 8 * |msg| {
      var j := p + PREAMBLE_LEN + 2 * t;
      BitRead(quality, m, p, msg, t);
      BitsRead(quality, allowed, m, p, msg, t + 1, m[j], m[j + 1]);
      assert BitsOf(msg)[t..] == [BitsOf(msg)[t]] + BitsOf(msg)[t + 1..];
    } else {
      assert BitsOf(msg)[t..] == [];
    }
  }

  // ----- the displayed frames

  lemma {:induction false} SkipNoise(buf: seq<Sample>, i: nat, j: nat)
    requires i <= j <= |buf| && forall k | i <= k < j :: buf[k] > 1
    ensures Frames(buf, i) == Frames(buf, j)
    decreases j - i
  {
    hide Consumed, Pack;
    if i < j { SkipNoise(buf, i + 1, j); }
  }

  lemma {:induction false} FirstPreamble(m: seq<Sample>, i: nat, p: nat)
    requires i <= p < |m| - PREAMBLE_LEN && IsPreamble(m, p)
    requires forall k | i <= k < p :: !IsPreamble(m, k)
    ensures FindPreamble(m, i) == p
    decreases p - i
  {
    hide IsPreamble;
    if i < p { FirstPreamble(m, i + 1, p); }
  }

  /** A message the reader can display: seven bytes, or fourteen when the top bit is set. */
  predicate IsReply(msg: seq<bv8>) {
    msg != [] && msg[0] != 0 && 8 * |msg| == FrameLength(msg[0])
  }

  /** Reading a whole message out of a buffer of bits. */
  lemma MessageConsumed(buf: seq<Sample>, j: nat, msg: seq<bv8>)
    requires IsReply(msg) && j + 8 * |msg| <= |buf| && buf[j..j + 8 * |msg|] == BitsOf(msg)
    ensures Consumed(buf, j) == (8 * |msg|, 8 * |msg|)
    ensures Frames(buf, j) == [Frame(Padded(msg), 8 * |msg|)] + Frames(buf, j + 8 * |msg| + 1)
  {
    hide BitMask, Bit, Pack, RunLength;
    var bits, n := BitsOf(msg), 8 * |msg|;
    assert forall k | j <= k < j + n :: buf[k] == buf[j..j + n][k - j] == bits[k - j] <= 1;
    RunLengthIs(buf, j, 8, 8);
    RunLengthIs(buf, j, n, n);
    PackBitsOf(msg);
    PackFirstByte(bits);
    assert buf[j..j + 8] == bits[..8];
    assert Padded(msg)[0] == msg[0];
  }

  /** The bits of the message stand right after the blanked preamble of the decoded buffer. */
  lemma MessageDecoded(quality: int, allowed: int, m: seq<Sample>, p: nat, msg: seq<bv8>)
    requires Settles(quality, allowed, m, 0) && msg != [] && Carries(m, p, msg)
    requires forall k | 0 <= k < p :: !IsPreamble(m, k)
    ensures var buf, j := Decoded(quality, allowed, m, 0, 0, 0), p + PREAMBLE_LEN;
      && buf[..p] == m[..p] && (forall k | p <= k < j :: buf[k] == MESSAGEGO)
      && buf[j..j + 8 * |msg|] == BitsOf(msg)
      && (|m| == j + 16 * |msg| ==> forall k | j + 8 * |msg| <= k < |m| :: buf[k] == OVERWRITE)
  {
    hide IsPreamble, ReadBits, High, Bit, Compacted, Repeat, Decoded;
    PreambleDetected(m, p, msg);
    FirstPreamble(m, 0, p);
    var j := p + PREAMBLE_LEN;
    BitsRead(quality, allowed, m, p, msg, 0, m[p], m[p + 1]);
    var r := ReadBits(quality, allowed, m, j, m[p], m[p + 1], 0);
    assert BitsOf(msg)[0..] == BitsOf(msg);
    FirstRound(quality, allowed, m);
    assert LeftBy(m, r) == m;
    Layout(m[..p], r, Decoded(quality, allowed, m, r.stop, r.a, r.b), BitsOf(msg));
  }

  lemma FirstRound(quality: int, allowed: int, m: seq<Sample>)
    requires Settles(quality, allowed, m, 0) && |m| > 1
    ensures var p := FindPreamble(m, 0);
      var (j, a, b) := RunStart(m, 0, 0, 0);
      var r := ReadBits(quality, allowed, m, j, a, b, 0);
      && r.stop <= |m| && (r.broke ==> r.stop < |m|) && Settles(quality, allowed, LeftBy(m, r), r.stop)
      && Decoded(quality, allowed, m, 0, 0, 0)
        == m[..p] + Repeat(MESSAGEGO, j - p) + Compacted(r) + Decoded(quality, allowed, LeftBy(m, r), r.stop, r.a, r.b)
  {
    hide FindPreamble, ReadBits, Compacted, RunStart, Repeat, Settles, Stalls, LeftBy;
    RoundProgress(quality, allowed, m, 0, 0, 0);
  }

  lemma Layout(head: seq<Sample>, r: BitRun, rest: seq<Sample>, bits: seq<Sample>)
    requires bits <= r.bits && bits != []
    ensures var buf := head + Repeat(MESSAGEGO, PREAMBLE_LEN) + Compacted(r) + rest;
      var p, j := |head|, |head| + PREAMBLE_LEN;
      && buf[..p] == head && (forall k | p <= k < j :: buf[k] == MESSAGEGO)
      && buf[j..j + |bits|] == bits
      && (rest == [] && r.bits == bits && !r.broke ==> forall k | j + |bits| <= k < |buf| :: buf[k] == OVERWRITE)
  {
    var c := Compacted(r);
    assert c[..|bits|] == r.bits[..|bits|] == bits;
  }

  /** The downlink format, the top five bits of the first byte. */
  function DownlinkFormat(msg: seq<bv8>): bv8
    requires msg != []
  {
    (msg[0] >> 3) & 0x1f
  }

  /** Whether a reply is printed: long, or short ones asked for; and at quality 0 of a known format. */
  predicate Wanted(msg: seq<bv8>, shortOutput: bool, quality: int)
    requires msg != []
  {
    && (shortOutput || |msg| == 14)
    && (quality != 0 || DownlinkFormat(msg) in {11, 17, 18, 19})
  }

  lemma WantedIsShown(msg: seq<bv8>, shortOutput: bool, quality: int)
    requires IsReply(msg)
    ensures var f := Frame(Padded(msg), 8 * |msg|);
      |f.bytes| == 14 && (Shows(f, shortOutput, quality) <==> Wanted(msg, shortOutput, quality))
  {
    assert Padded(msg)[0] == msg[0];
    assert |msg| == 7 || |msg| == 14;
  }

  /** Round trip: after anything that does not look like a preamble, a reply in pulse-position samples
      is the first frame printed after what the samples before it print by themselves, at every
      quality and every error tolerance; if the buffer ends with it, it is the last one. It is printed
      exactly when the options want it. */
  lemma RoundTrip(quality: int, allowed: int, shortOutput: bool, m: seq<Sample>, p: nat, msg: seq<bv8>)
    requires Settles(quality, allowed, m, 0) && IsReply(msg) && Carries(m, p, msg)
    requires forall k | 0 <= k < p :: !IsPreamble(m, k)
    ensures var shown := Displayed(Frames(Decoded(quality, allowed, m, 0, 0, 0), 0), shortOutput, quality);
      var before := Displayed(Frames(m[..p], 0), shortOutput, quality);
      var printed := if Wanted(msg, shortOutput, quality) then [Frame(Padded(msg), 8 * |msg|)] else [];
      && before + printed <= shown
      && (|m| == p + PREAMBLE_LEN + 16 * |msg| ==> shown == before + printed)
  {
    hide Decoded, IsPreamble, Carries, Settles, Padded, Wanted, Frames, Displayed, Shows;
    var rest := FramesHanded(quality, allowed, m, p, msg);
    WantedIsShown(msg, shortOutput, quality);
    var f := Frame(Padded(msg), 8 * |msg|);
    DisplayedParts(Frames(m[..p], 0) + [f], rest, shortOutput, quality);
    DisplayedParts(Frames(m[..p], 0), [f], shortOutput, quality);
    DisplayedNone(shortOutput, quality);
    DisplayedMore([], f, shortOutput, quality);
    assert [] + [f] == [f];
  }

  lemma {:induction false} DisplayedParts(a: seq<Frame>, b: seq<Frame>, shortOutput: bool, quality: int)
    requires Sized(a) && Sized(b)
    ensures Sized(a + b)
    ensures Displayed(a + b, shortOutput, quality)
      == Displayed(a, shortOutput, quality) + Displayed(b, shortOutput, quality)
  {
    hide Shows, Displayed;
    if b == [] {
      DisplayedNone(shortOutput, quality);
      assert a + b == a;
    } else {
      var c, f := b[..|b| - 1], b[|b| - 1];
      DisplayedParts(a, c, shortOutput, quality);
      DisplayedMore(c, f, shortOutput, quality);
      DisplayedMore(a + c, f, shortOutput, quality);
      assert b == c + [f] && a + b == (a + c) + [f];
    }
  }

  /** The frames handed to display: those of the samples before the message, the message, others. */
  lemma FramesHanded(quality: int, allowed: int, m: seq<Sample>, p: nat, msg: seq<bv8>) returns (rest: seq<Frame>)
    requires Settles(quality, allowed, m, 0) && IsReply(msg) && Carries(m, p, msg)
    requires forall k | 0 <= k < p :: !IsPreamble(m, k)
    ensures p <= |m| && Sized(rest)
    ensures Frames(Decoded(quality, allowed, m, 0, 0, 0), 0)
      == Frames(m[..p], 0) + [Frame(Padded(msg), 8 * |msg|)] + rest
    ensures |m| == p + PREAMBLE_LEN + 16 * |msg| ==> rest == []
  {
    hide Decoded, Consumed, Pack, IsPreamble, Carries, Settles;
    var buf, j, n := Decoded(quality, allowed, m, 0, 0, 0), p + PREAMBLE_LEN, 8 * |msg|;
    CarriesLength(m, p, msg);
    MessageDecoded(quality, allowed, m, p, msg);
    FramesCut(buf, 0, p);
    SkipNoise(buf, p, j);
    MessageConsumed(buf, j, msg);
    rest := Frames(buf, j + n + 1);
    if |m| == j + 16 * |msg| {
      SkipNoise(buf, j + n + 1, |m|);
      assert Frames(buf, |m|) == [];
    }
  }

  /** A sample that is no bit ends any frame: the frames before it are those of a buffer that ends there. */
  lemma {:induction false} FramesCut(buf: seq<Sample>, i: nat, p: nat)
    requires i <= p < |buf| && buf[p] > 1
    ensures Frames(buf, i) == Frames(buf[..p], i) + Frames(buf, p)
    decreases p - i
  {
    hide *;
    if i < p {
      var k := NextFrom(buf, i, p);
      if k <= p { FramesCut(buf, k, p); } else { FramesPast(buf, p); }
      Regroup(Frames(buf, i), FrameAt(buf, i), Frames(buf, k), Frames(buf[..p], k), Frames(buf, p),
              Frames(buf[..p], i));
    } else {
      FramesPast(buf, p);
    }
  }

  /** The reader goes on at the same place in both. */
  lemma NextFrom(buf: seq<Sample>, i: nat, p: nat) returns (k: nat)
    requires i < p < |buf| && buf[p] > 1
    ensures i < k <= p + 1
    ensures Frames(buf, i) == FrameAt(buf, i) + Frames(buf, k)
    ensures Frames(buf[..p], i) == FrameAt(buf, i) + Frames(buf[..p], k)
  {
    hide Frames, FrameAt, Consumed;
    k := if buf[i] > 1 then i + 1 else i + Consumed(buf, i).0 + 1;
    ConsumedCut(buf, i, p);
    FramesFrom(buf, i, k);
    FramesFrom(buf[..p], i, k);
    FrameAtCut(buf, i, p);
  }

  lemma Regroup<T>(all: seq<T>, f: seq<T>, more: seq<T>, head: seq<T>, tail: seq<T>, front: seq<T>)
    requires all == f + more && more == head + tail && front == f + head
    ensures all == front + tail
  {}

  /** The frame, if any, that the reader hands over at i. */
  function FrameAt(buf: seq<Sample>, i: nat): (f: seq<Frame>)
    requires i < |buf|
  {
    if buf[i] > 1 then []
    else
      var (n, len) := Consumed(buf, i);
      if n + 1 < len then [] else [Frame(Pack(buf[i..i + n]), len)]
  }

  lemma FramesFrom(buf: seq<Sample>, i: nat, k: nat)
    requires i < |buf| && k == if buf[i] > 1 then i + 1 else i + Consumed(buf, i).0 + 1
    ensures Frames(buf, i) == FrameAt(buf, i) + Frames(buf, k)
  {
    hide Consumed, Pack;
  }

  lemma FramesPast(buf: seq<Sample>, p: nat)
    requires p < |buf| && buf[p] > 1
    ensures Frames(buf[..p], p) == [] == Frames(buf[..p], p + 1) && Frames(buf, p + 1) == Frames(buf, p)
  {}

  lemma FrameAtCut(buf: seq<Sample>, i: nat, p: nat)
    requires i < p < |buf| && buf[p] > 1
    ensures FrameAt(buf[..p], i) == FrameAt(buf, i)
  {
    hide Consumed, Pack;
    ConsumedCut(buf, i, p);
    var n := Consumed(buf, i).0;
    assert buf[i..i + n] == buf[..p][i..i + n];
  }

  lemma ConsumedCut(buf: seq<Sample>, i: nat, p: nat)
    requires i <= p < |buf| && buf[p] > 1
    ensures Consumed(buf[..p], i) == Consumed(buf, i) && i + Consumed(buf, i).0 <= p
  {
    hide Pack, RunLength, FrameLength;
    RunLengthCut(buf, i, p, 8);
    RunLengthCut(buf, i, p, SHORT_FRAME);
    RunLengthCut(buf, i, p, LONG_FRAME);
    if RunLength(buf, i, 8) == 8 {
      assert buf[i..i + 8] == buf[..p][i..i + 8];
      var first := Pack(buf[i..i + 8])[0];
      RunLengthCut(buf, i, p, FrameLength(first));
    }
  }

  lemma {:induction false} RunLengthCut(buf: seq<Sample>, i: nat, p: nat, max: nat)
    requires i <= p < |buf| && buf[p] > 1
    ensures RunLength(buf[..p], i, max) == RunLength(buf, i, max)
    decreases max
  {
    if max > 0 && i < p && buf[i] <= 1 { RunLengthCut(buf, i + 1, p, max - 1); }
  }

  lemma CarriesLength(m: seq<Sample>, p: nat, msg: seq<bv8>)
    requires Carries(m, p, msg)
    ensures p + PREAMBLE_LEN + 16 * |msg| <= |m|
  {}

  /** Soundness, for any buffer: a displayed frame is the packing of consecutive decoded bits, at
      most one short of its length; its first byte is non-zero and announces that length. */
  lemma {:induction false} FramesAreBits(buf: seq<Sample>, i: nat, k: nat)
    requires k < |Frames(buf, i)|
    ensures exists s: nat, n: nat :: s + n <= |buf| && BacksFrame(buf, s, n, Frames(buf, i)[k])
    decreases |buf| - i
  {
    hide Pack, Consumed, BacksFrame;
    if buf[i] > 1 {
      FramesAreBits(buf, i + 1, k);
    } else {
      var (n, len) := Consumed(buf, i);
      if n + 1 < len {
        assert Frames(buf, i) == Frames(buf, i + n + 1);
        FramesAreBits(buf, i + n + 1, k);
      } else if k > 0 {
        assert Frames(buf, i)[k] == Frames(buf, i + n + 1)[k - 1];
        FramesAreBits(buf, i + n + 1, k - 1);
      } else {
        FrameIsBits(buf, i);
        assert i + n <= |buf| && BacksFrame(buf, i, n, Frames(buf, i)[k]);
      }
    }
  }

  lemma FrameIsBits(buf: seq<Sample>, i: nat)
    requires i <= |buf| && Consumed(buf, i).0 + 1 >= Consumed(buf, i).1
    ensures var (n, len) := Consumed(buf, i); BacksFrame(buf, i, n, Frame(Pack(buf[i..i + n]), len))
  {
    hide Pack;
    hide RunLength;
    var (n, len) := Consumed(buf, i);
    assert n >= 8 && (var first := Pack(buf[i..i + 8])[0]; first != 0 && len == FrameLength(first));
    hide Consumed, FrameLength;
    PackFirstByte(buf[i..i + n]);
    assert buf[i..i + n][..8] == buf[i..i + 8];
  }

  ghost predicate BacksFrame(buf: seq<Sample>, s: nat, n: nat, f: Frame)
    requires s + n <= |buf|
  {
    && n <= f.len <= n + 1 && n <= LONG_FRAME
    && (forall t | s <= t < s + n :: buf[t] <= 1)
    && f.bytes == Pack(buf[s..s + n])
    && f.bytes[0] != 0 && f.len == FrameLength(f.bytes[0])
  }

  /** So every frame displayed, by the whole demodulator and with any options, is one that the options
      want and that packs bits decoded from the buffer. */
  lemma DisplayedIsDecoded(buf: seq<Sample>, shortOutput: bool, quality: int, f: Frame)
    requires f in Displayed(Frames(buf, 0), shortOutput, quality)
    ensures |f.bytes| == 14 && Shows(f, shortOutput, quality)
    ensures exists s: nat, n: nat :: s + n <= |buf| && BacksFrame(buf, s, n, f)
  {
    var k :| 0 <= k < |Frames(buf, 0)| && Frames(buf, 0)[k] == f;
    FramesAreBits(buf, 0, k);
  }

  // ----- what a run of bits gives

  /** Fewer than eight bits, or eight zeros, are passed over. */
  lemma PassedOver(buf: seq<Sample>, i: nat, n: nat)
    requires i < i + n <= |buf| && (forall k | i <= k < i + n :: buf[k] <= 1)
    requires i + n == |buf| || buf[i + n] > 1
    ensures n < 8 ==> Frames(buf, i) == Frames(buf, i + n + 1)
    ensures n >= 8 && Pack(buf[i..i + 8])[0] == 0 ==> Frames(buf, i) == Frames(buf, i + 8)
  {
    hide Consumed, Pack;
    RunConsumed(buf, i, n);
  }

  /** Otherwise the first byte says how many bits belong to the frame; it is handed over exactly if no
      more than its last bit is missing. */
  lemma HandedOver(buf: seq<Sample>, i: nat, n: nat)
    requires i + 8 <= i + n <= |buf| && (forall k | i <= k < i + n :: buf[k] <= 1)
    requires (i + n == |buf| || buf[i + n] > 1) && Pack(buf[i..i + 8])[0] != 0
    ensures var len := if Pack(buf[i..i + 8])[0] as int >= 128 then 112 else 56;
      var k := if n < len then n else len;
      Frames(buf, i) == (if k >= len - 1 then [Frame(Pack(buf[i..i + k]), len)] else []) + Frames(buf, i + k + 1)
  {
    hide Consumed, Pack, Frames, FrameAt;
    RunConsumed(buf, i, n);
    var len := if Pack(buf[i..i + 8])[0] as int >= 128 then 112 else 56;
    var k := if n < len then n else len;
    FramesFrom(buf, i, i + k + 1);
    FrameAtIs(buf, i, k, len);
  }

  lemma FrameAtIs(buf: seq<Sample>, i: nat, k: nat, len: nat)
    requires i < |buf| && buf[i] <= 1 && Consumed(buf, i) == (k, len)
    ensures i + k <= |buf| && k <= LONG_FRAME
    ensures FrameAt(buf, i) == if k >= len - 1 then [Frame(Pack(buf[i..i + k]), len)] else []
  {
    hide Consumed, Pack;
  }

  // ----- what the options, the first byte and the buffer look like

  /** A reply has seven bytes, or fourteen from downlink format 16 on, and its first is not zero. */
  lemma ReplyLength(msg: seq<bv8>)
    ensures IsReply(msg) <==> msg != [] && msg[0] != 0 && |msg| == if msg[0] as int >= 128 then 14 else 7
  {
    if msg != [] { LengthByFormat(msg[0]); }
  }

  /** The downlink format is the first byte divided by eight. */
  lemma FormatIs(msg: seq<bv8>)
    requires msg != []
    ensures DownlinkFormat(msg) as int == msg[0] as int / 8
  {
    var x := msg[0];
    assert (x >> 3) & 0x1f == x >> 3;
    assert x >> 3 == x / 8;
  }

  /** The buffer after a first round: the samples before the preamble, sixteen marks 253, the bits, and
      in place of the other samples they were read from 254, but 255 after a run that broke. */
  lemma FirstRoundLaidOut(quality: int, allowed: int, m: seq<Sample>)
    requires Settles(quality, allowed, m, 0) && FindPreamble(m, 0) < |m| - 16
    ensures var p, buf := FindPreamble(m, 0), Decoded(quality, allowed, m, 0, 0, 0);
      var j := p + 16;
      var r := ReadBits(quality, allowed, m, j, m[p], m[p + 1], 0);
      var n := |r.bits|;
      && buf[..p] == m[..p] && (forall k | p <= k < j :: buf[k] == 253)
      && buf[j..j + n] == r.bits
      && (n > 0 ==> buf[j + n] == if r.broke then 255 else 254)
      && (forall k | j + n < k < j + 2 * n :: buf[k] == 254)
  {
    hide Settles, ReadBits, FindPreamble, Decoded, LeftBy, IsPreamble, Compacted, Repeat;
    FirstRound(quality, allowed, m);
    var p := FindPreamble(m, 0);
    var r := ReadBits(quality, allowed, m, p + 16, m[p], m[p + 1], 0);
    var rest := Decoded(quality, allowed, LeftBy(m, r), r.stop, r.a, r.b);
    PartsOf(m[..p], r, rest, Decoded(quality, allowed, m, 0, 0, 0));
  }

  lemma PartsOf(head: seq<Sample>, r: BitRun, rest: seq<Sample>, buf: seq<Sample>)
    requires buf == head + Repeat(MESSAGEGO, PREAMBLE_LEN) + Compacted(r) + rest
    ensures var p, j, n := |head|, |head| + 16, |r.bits|;
      && j + 2 * n <= |buf| && buf[..p] == head && (forall k | p <= k < j :: buf[k] == 253)
      && buf[j..j + n] == r.bits
      && (n > 0 ==> buf[j + n] == if r.broke then 255 else 254)
      && (forall k | j + n < k < j + 2 * n :: buf[k] == 254)
  {
    CompactedParts(r);
    hide Compacted;
    var j, c := |head| + 16, Compacted(r);
    assert buf[j..j + |c|] == c;
    assert forall k | 0 <= k < |c| :: buf[j + k] == c[k];
    assert buf[j..j + |r.bits|] == c[..|r.bits|];
    forall k | j + |r.bits| < k < j + 2 * |r.bits| ensures buf[k] == 254 { assert buf[k] == c[k - j]; }
  }

  lemma CompactedParts(r: BitRun)
    ensures var n, c := |r.bits|, Compacted(r);
      && |c| == 2 * n && c[..n] == r.bits && (n > 0 ==> c[n] == if r.broke then 255 else 254)
      && forall k | n < k < 2 * n :: c[k] == 254
  {}

  /** Bits are sent most significant first. */
  lemma BitIs(msg: seq<bv8>, t: nat)
    requires t < 8 * |msg|
    ensures Bit(msg, t) <==> (msg[t / 8] >> (7 - t % 8)) & 1 == 1
  {
    TopBitFirst(msg[t / 8], 7 - t % 8);
  }

  lemma TopBitFirst(x: bv8, shift: nat)
    requires shift < 8
    ensures x & BitMask(shift) != 0 <==> (x >> shift) & 1 == 1
  {
    match shift
    case 0 => assert x & 1 != 0 <==> (x >> 0) & 1 == 1;
    case 1 => assert x & 2 != 0 <==> (x >> 1) & 1 == 1;
    case 2 => assert x & 4 != 0 <==> (x >> 2) & 1 == 1;
    case 3 => assert x & 8 != 0 <==> (x >> 3) & 1 == 1;
    case 4 => assert x & 16 != 0 <==> (x >> 4) & 1 == 1;
    case 5 => assert x & 32 != 0 <==> (x >> 5) & 1 == 1;
    case 6 => assert x & 64 != 0 <==> (x >> 6) & 1 == 1;
    case 7 => assert x & 128 != 0 <==> (x >> 7) & 1 == 1;
  }
}
