/** The ADS-B decoder on an immutable buffer of magnitudes: preamble search, Manchester bits with
    error tolerance, compaction, and packing of bits into frames. */
module AdsbSpec {

  type Sample = x: int | 0 <= x < 65536

  const MESSAGEGO: Sample := 253
  const OVERWRITE: Sample := 254
  const BADSAMPLE: Sample := 255
  const PREAMBLE_LEN := 16
  const LONG_FRAME := 112
  const SHORT_FRAME := 56

  /** The bit in samples c, d, given the samples a, b of the bit before; BADSAMPLE on error. */
  function SingleManchester(quality: int, a: Sample, b: Sample, c: Sample, d: Sample): Sample {
    var bitP, bit := a > b, c > d;
    if quality == 0 then (if bit then 1 else 0)
    else if quality == 5 then
      if bit && bitP && b > c then BADSAMPLE
      else if !bit && !bitP && b < c then BADSAMPLE
      else if bit then 1 else 0
    else if quality == 10 then
      if bit && bitP && c > b then 1
      else if bit && !bitP && d < b then 1
      else if !bit && bitP && d > b then 0
      else if !bit && !bitP && c < b then 0
      else BADSAMPLE
    else
      if bit && bitP && c > b && d < a then 1
      else if bit && !bitP && c > a && d < b then 1
      else if !bit && bitP && c < a && d > b then 0
      else if !bit && !bitP && c < b && d > a then 0
      else BADSAMPLE
  }

  /** Four pulses, at 0, 2, 7 and 9 of sixteen samples, each above the quiet samples around it. */
  predicate Pulses(w: seq<Sample>)
    requires |w| == PREAMBLE_LEN
  {
    && w[0] > 0 && w[0] > w[1]
    && w[2] > w[1] && (forall k | 3 <= k < 7 :: w[2] > w[k])
    && w[7] > w[6] && w[7] > w[8]
    && w[9] > w[8] && (forall k | 10 <= k < 16 :: w[9] > w[k])
  }

  /** The positions of the pulses, 0, 1, 3.5 and 4.5 microseconds at two samples each. */
  predicate IsPulse(k: nat) {
    k == 0 || k == 2 || k == 7 || k == 9
  }

  /** The last pulse position up to k. */
  function LastPulse(k: nat): (p: nat)
    ensures p <= k
  {
    if k == 0 || IsPulse(k) then k else LastPulse(k - 1)
  }

  /** The last quiet position up to k. */
  function LastQuiet(k: nat): (q: nat)
    requires k >= 1
    ensures 1 <= q <= k
  {
    if k == 1 || !IsPulse(k) then k else LastQuiet(k - 1)
  }

  /** At position k the last pulse stands above the last quiet sample. */
  predicate StandsOut(w: seq<Sample>, k: nat)
    requires |w| == PREAMBLE_LEN && 1 <= k < 16
  {
    w[LastPulse(k)] > w[LastQuiet(k)]
  }

  /** A preamble is where that holds at every position. */
  lemma PulsesIff(w: seq<Sample>)
    requires |w| == PREAMBLE_LEN
    ensures Pulses(w) <==> w[0] > 0 && forall k | 1 <= k < 16 :: StandsOut(w, k)
  {
    if Pulses(w) { PulsesStandOut(w); }
    if w[0] > 0 && forall k | 1 <= k < 16 :: StandsOut(w, k) { ThosePulses(w); }
  }

  lemma ThosePulses(w: seq<Sample>)
    requires |w| == PREAMBLE_LEN && w[0] > 0 && forall k | 1 <= k < 16 :: StandsOut(w, k)
    ensures Pulses(w)
  {
    LastPositions();
    hide LastPulse, LastQuiet;
    assert StandsOut(w, 1) && StandsOut(w, 2) && StandsOut(w, 7) && StandsOut(w, 8) && StandsOut(w, 9);
    forall k | 3 <= k < 7 ensures w[2] > w[k] { assert StandsOut(w, k); }
    forall k | 10 <= k < 16 ensures w[9] > w[k] { assert StandsOut(w, k); }
  }

  lemma PulsesStandOut(w: seq<Sample>)
    requires |w| == PREAMBLE_LEN && Pulses(w)
    ensures forall k | 1 <= k < 16 :: StandsOut(w, k)
  {
    LastPositions();
    hide LastPulse, LastQuiet;
    forall k | 1 <= k < 16 ensures StandsOut(w, k) {
      if k == 1 || k == 2 || k == 7 || k == 8 || k == 9 {
      } else if k < 7 {
        assert w[2] > w[k];
      } else {
        assert w[9] > w[k];
      }
    }
  }

  lemma LastPositions()
    ensures LastPulse(1) == 0 && LastPulse(2) == 2 && LastQuiet(1) == LastQuiet(2) == 1
    ensures forall k | 3 <= k < 7 :: LastPulse(k) == 2 && LastQuiet(k) == k
    ensures LastPulse(7) == LastPulse(8) == 7 && LastPulse(9) == 9 && LastQuiet(7) == 6
    ensures LastQuiet(8) == LastQuiet(9) == 8
    ensures forall k | 10 <= k < 16 :: LastPulse(k) == 9 && LastQuiet(k) == k
  {
    assert LastPulse(3) == 2 && LastPulse(4) == 2 && LastPulse(5) == 2 && LastPulse(6) == 2;
    assert LastPulse(10) == 9 && LastPulse(11) == 9 && LastPulse(12) == 9;
    assert LastPulse(13) == 9 && LastPulse(14) == 9 && LastPulse(15) == 9;
  }

  predicate IsPreamble(m: seq<Sample>, i: nat)
    requires i + PREAMBLE_LEN <= |m|
  {
    Pulses(m[i..i + PREAMBLE_LEN])
  }

  /** The first preamble from i on, or the first index past the searched range. */
  function FindPreamble(m: seq<Sample>, i: nat): (p: nat)
    requires i <= |m|
    ensures i <= p <= |m|
    ensures p < |m| - PREAMBLE_LEN ==> IsPreamble(m, p)
    ensures p >= |m| - PREAMBLE_LEN ==> p == i || p == |m| - PREAMBLE_LEN
    decreases |m| - i
  {
    if i < |m| - PREAMBLE_LEN && !IsPreamble(m, i) then FindPreamble(m, i + 1) else i
  }

  /** A run of decoded bits: where it stopped, whether for too many errors, and the samples the
      next run starts from. */
  datatype BitRun = BitRun(bits: seq<Sample>, stop: nat, broke: bool, a: Sample, b: Sample)

  function ReadBits(quality: int, allowed: int, m: seq<Sample>, i: nat, a: Sample, b: Sample, errors: nat): (r: BitRun)
    requires i <= |m|
    ensures r.stop == i + 2 * |r.bits| <= |m|
    ensures if r.broke then r.stop + 1 < |m| else r.stop >= |m| - 1
    ensures errors < allowed && i < |m| - 1 ==> r.bits != []
    decreases |m| - i
  {
    if i >= |m| - 1 then BitRun([], i, false, a, b)
    else
      var c, d := m[i], m[i + 1];
      var bit := SingleManchester(quality, a, b, c, d);
      if bit != BADSAMPLE then
        var r := ReadBits(quality, allowed, m, i + 2, c, d, errors);
        r.(bits := [bit] + r.bits)
      else if errors + 1 > allowed then BitRun([], i, true, c, d)
      else
        var r := ReadBits(quality, allowed, m, i + 2, 0, 65535, errors + 1);
        r.(bits := [if c > d then 1 else 0] + r.bits)
  }

  function Repeat(x: Sample, n: nat): (r: seq<Sample>)
    ensures |r| == n
  {
    seq(n, _ => x)
  }

  /** What a run of k bits leaves in the 2k samples it was read from. */
  function Compacted(r: BitRun): (s: seq<Sample>)
    ensures |s| == 2 * |r.bits|
  {
    if r.bits == [] then []
    else r.bits + [if r.broke then BADSAMPLE else OVERWRITE] + Repeat(OVERWRITE, |r.bits| - 1)
  }

  /** Where the bits after the next preamble (or after a failed search) start, and the samples
      they are compared with first. */
  function RunStart(m: seq<Sample>, i: nat, a: Sample, b: Sample): (r: (nat, Sample, Sample))
    requires i <= |m|
    ensures FindPreamble(m, i) <= r.0 <= |m|
  {
    var p := FindPreamble(m, i);
    if p < |m| - PREAMBLE_LEN then (p + PREAMBLE_LEN, m[p], m[p + 1]) else (p, a, b)
  }

  /** The samples still to be read after a run: a run that broke on its first bit leaves its BADSAMPLE
      mark on the sample it stopped at, which is read again. */
  function LeftBy(m: seq<Sample>, r: BitRun): (n: seq<Sample>)
    requires r.broke ==> r.stop < |m|
    ensures |n| == |m| && (r.bits != [] ==> n == m)
  {
    if r.broke && r.bits == [] then m[r.stop := BADSAMPLE] else m
  }

  /** Why decoding from i on comes to an end: some tolerance, a check that a repeated pair passes, or
      no second sample of a pair that could be taken for the mark. */
  predicate Settles(quality: int, allowed: int, m: seq<Sample>, i: nat) {
    allowed >= 1 || quality == 0 || quality == 5 || forall k | i < k < |m| :: m[k] != BADSAMPLE
  }

  /** How many more rounds can end where they started, at i. */
  function Stalls(m: seq<Sample>, i: nat, a: Sample, b: Sample): nat
    requires i + 1 < |m|
  {
    if m[i] != BADSAMPLE then 2 else if (a, b) != (BADSAMPLE, m[i + 1]) then 1 else 0
  }

  /** A pair compared with itself, its first sample marked, is an error again in one case only. */
  lemma RepeatedPair(quality: int, d: Sample)
    ensures SingleManchester(quality, BADSAMPLE, d, BADSAMPLE, d) == BADSAMPLE
      <==> d == BADSAMPLE && quality != 0 && quality != 5
  {}

  /** A round moves on, or uses up a stall. */
  lemma RoundProgress(quality: int, allowed: int, m: seq<Sample>, i: nat, a: Sample, b: Sample)
    requires i < |m| - 1 && Settles(quality, allowed, m, i)
    ensures var (j, a1, b1) := RunStart(m, i, a, b);
      var r := ReadBits(quality, allowed, m, j, a1, b1, 0);
      && i <= r.stop <= |m| && (r.broke ==> r.stop < |m|) && Settles(quality, allowed, LeftBy(m, r), r.stop)
      && (r.stop == i ==> Stalls(LeftBy(m, r), i, r.a, r.b) < Stalls(m, i, a, b))
  {
    var (j, a1, b1) := RunStart(m, i, a, b);
    var r := ReadBits(quality, allowed, m, j, a1, b1, 0);
    if r.stop == i {
      RepeatedPair(quality, m[i + 1]);
    }
  }

  /** The final contents of the buffer from i on. Every sample read is an original one, but for the
      mark a run without bits leaves. */
  function Decoded(quality: int, allowed: int, m: seq<Sample>, i: nat, a: Sample, b: Sample): (s: seq<Sample>)
    requires i <= |m| && Settles(quality, allowed, m, i)
    ensures |s| == |m| - i
    decreases |m| - i, if i + 1 < |m| then Stalls(m, i, a, b) else 0
  {
    if i >= |m| - 1 then m[i..]
    else
      RoundProgress(quality, allowed, m, i, a, b);
      var p := FindPreamble(m, i);
      var (j, a1, b1) := RunStart(m, i, a, b);
      var r := ReadBits(quality, allowed, m, j, a1, b1, 0);
      m[i..p] + Repeat(MESSAGEGO, j - p) + Compacted(r) + Decoded(quality, allowed, LeftBy(m, r), r.stop, r.a, r.b)
  }

  /** The outer loop between two rounds, as far as a round that does not move on goes. */
  datatype Loop = Loop(m: seq<Sample>, i: nat, a: Sample, b: Sample)

  /** The next round ends where it starts. */
  predicate Stalled(quality: int, allowed: int, s: Loop) {
    s.i + 1 < |s.m| &&
    var (j, a, b) := RunStart(s.m, s.i, s.a, s.b);
    ReadBits(quality, allowed, s.m, j, a, b, 0).stop == s.i
  }

  /** What a stalled round leaves. */
  function Again(s: Loop): Loop
    requires s.i + 1 < |s.m|
  {
    Loop(s.m[s.i := BADSAMPLE], s.i, s.m[s.i], s.m[s.i + 1])
  }

  predicate StalledFor(quality: int, allowed: int, s: Loop, rounds: nat)
    decreases rounds
  {
    rounds == 0 || (Stalled(quality, allowed, s) && StalledFor(quality, allowed, Again(s), rounds - 1))
  }

  lemma StalledOnce(quality: int, allowed: int, s: Loop)
    requires s.i + 1 < |s.m|
    ensures Stalled(quality, allowed, s) <==>
      s.i >= |s.m| - PREAMBLE_LEN && allowed < 1
      && SingleManchester(quality, s.a, s.b, s.m[s.i], s.m[s.i + 1]) == BADSAMPLE
  {
    hide SingleManchester, IsPreamble;
  }

  lemma {:induction false} MarkedPairStalls(quality: int, allowed: int, s: Loop, rounds: nat)
    requires quality != 0 && quality != 5 && allowed < 1 && s.i + 1 < |s.m| <= s.i + PREAMBLE_LEN
    requires s.m[s.i] == s.m[s.i + 1] == s.b == BADSAMPLE
    ensures StalledFor(quality, allowed, s, rounds)
    decreases rounds
  {
    if rounds > 0 {
      StalledOnce(quality, allowed, s);
      hide Stalled;
      MarkedPairStalls(quality, allowed, Again(s), rounds - 1);
    }
  }

  /** A stalled loop never moves on exactly when the pair it is at ends in the value of the mark, and
      the quality is neither 0 nor 5. */
  lemma StallsForeverIff(quality: int, allowed: int, s: Loop)
    requires Stalled(quality, allowed, s)
    ensures (forall rounds: nat :: StalledFor(quality, allowed, s, rounds)) <==>
      s.m[s.i + 1] == BADSAMPLE && quality != 0 && quality != 5
  {
    StalledOnce(quality, allowed, s);
    if s.m[s.i + 1] == BADSAMPLE && quality != 0 && quality != 5 {
      forall rounds: nat ensures StalledFor(quality, allowed, s, rounds) {
        if rounds > 0 { MarkedPairStalls(quality, allowed, Again(s), rounds - 1); }
      }
    } else {
      RepeatedPair(quality, s.m[s.i + 1]);
      StalledOnce(quality, allowed, Again(Again(s)));
      hide Stalled, SingleManchester;
      assert !StalledFor(quality, allowed, Again(Again(s)), 1);
      assert !StalledFor(quality, allowed, Again(s), 2);
      assert !StalledFor(quality, allowed, s, 3);
    }
  }

  /** A buffer on which it does so from the start; it is no buffer of magnitudes. */
  lemma MarkedBufferStalls(quality: int)
    requires quality != 0 && quality != 5
    ensures forall rounds: nat :: StalledFor(quality, 0, Loop([BADSAMPLE, BADSAMPLE], 0, 0, 0), rounds)
  {
    StalledOnce(quality, 0, Loop([BADSAMPLE, BADSAMPLE], 0, 0, 0));
    hide Stalled;
    StallsForeverIff(quality, 0, Loop([BADSAMPLE, BADSAMPLE], 0, 0, 0));
  }

  // ----- magnitudes

  /** abs8: the distance from the middle of the range. */
  function Abs8(x: int): int {
    if x >= 128 then x - 128 else 128 - x
  }

  function Square(x: nat): (r: nat)
    requires x < 256
    ensures r <= 16384
  {
    SquareAtMost(Abs8(x), 128);
    Abs8(x) * Abs8(x)
  }

  lemma SquareAtMost(j: nat, b: nat)
    requires j <= b
    ensures j * j <= b * b
  {}

  /** The magnitude of a sample pair; which of the two bytes comes first does not matter. */
  function Magnitude(w: Sample): (r: Sample)
    ensures r <= 32768
  {
    Square(w % 256) + Square(w / 256)
  }

  function Magnitudes(s: seq<Sample>): (m: seq<Sample>)
    ensures |m| == |s|
  {
    seq(|s|, k requires 0 <= k < |s| => Magnitude(s[k]))
  }

  lemma SquareModFour(j: nat)
    ensures j * j % 4 <= 1
  {
    var h, r := j / 2, j % 2;
    Expanded(h, r);
    ModFour(h * h + h * r, r);
  }

  lemma Expanded(h: nat, r: nat)
    requires r <= 1
    ensures (2 * h + r) * (2 * h + r) == 4 * (h * h + h * r) + r
  {}

  lemma ModFour(q: nat, r: nat)
    requires r <= 1
    ensures (4 * q + r) % 4 == r
  {}

  /** A sum of two squares is never 3 modulo 4, so no magnitude is taken for the mark. */
  lemma MagnitudeIsNoMark(w: Sample)
    ensures Magnitude(w) != BADSAMPLE
  {
    SquareModFour(Abs8(w % 256));
    SquareModFour(Abs8(w / 256));
  }

  lemma MagnitudesSettle(quality: int, allowed: int, s: seq<Sample>)
    ensures Settles(quality, allowed, Magnitudes(s), 0)
  {
    forall k | 0 < k < |s| ensures Magnitudes(s)[k] != BADSAMPLE { MagnitudeIsNoMark(s[k]); }
  }

  /** The magnitude of a sample pair is its squared distance from the middle of the range, in each byte 128. */
  lemma MagnitudeIsDistance(low: int, high: int)
    requires 0 <= low < 256 && 0 <= high < 256
    ensures Magnitude(low + 256 * high) == (low - 128) * (low - 128) + (high - 128) * (high - 128)
  {
    var w := low + 256 * high;
    assert w % 256 == low && w / 256 == high;
    SquareIsDistance(low);
    SquareIsDistance(high);
  }

  lemma SquareIsDistance(x: int)
    requires 0 <= x < 256
    ensures Square(x) == (x - 128) * (x - 128)
  {
    var y := x - 128;
    assert y * y == -y * -y;
  }

  // ----- messages

  /** (uint8_t)(1 << shift) */
  function BitMask(shift: nat): bv8
    requires shift < 8
  {
    match shift
    case 0 => 1 case 1 => 2 case 2 => 4 case 3 => 8
    case 4 => 16 case 5 => 32 case 6 => 64 case 7 => 128
  }

  /** adsb_frame after one more bit b at position n. */
  function WithBit(f: seq<bv8>, n: nat, b: Sample): (r: seq<bv8>)
    requires |f| == 14 && n < LONG_FRAME
    ensures |r| == 14
  {
    if b != 0 then f[n / 8 := f[n / 8] | BitMask(7 - n % 8)] else f
  }

  /** Bits into fourteen bytes, most significant bit first. */
  function Pack(bits: seq<Sample>): (f: seq<bv8>)
    requires |bits| <= LONG_FRAME
    ensures |f| == 14
  {
    if bits == [] then seq(14, _ => 0)
    else
      var n := |bits| - 1;
      WithBit(Pack(bits[..n]), n, bits[n])
  }

  datatype Frame = Frame(bytes: seq<bv8>, len: nat)

  /** Frames of fourteen bytes, as adsb_frame has. */
  predicate Sized(frames: seq<Frame>) {
    forall k | 0 <= k < |frames| :: |frames[k].bytes| == 14
  }

  /** The number of consecutive bits from i on, at most max. */
  function RunLength(buf: seq<Sample>, i: nat, max: nat): (n: nat)
    requires i <= |buf|
    ensures n <= max && i + n <= |buf|
    ensures forall k | i <= k < i + n :: buf[k] <= 1
    ensures n < max && i + n < |buf| ==> buf[i + n] > 1
    decreases max
  {
    if max == 0 || i == |buf| || buf[i] > 1 then 0 else 1 + RunLength(buf, i + 1, max - 1)
  }

  /** The frame length a first byte announces. */
  function FrameLength(first: bv8): nat {
    if first & 0x80 != 0 then LONG_FRAME else SHORT_FRAME
  }

  /** 112 bits for downlink formats from 16 on, 56 below. */
  lemma LengthByFormat(first: bv8)
    ensures FrameLength(first) == if first as int >= 128 then 112 else 56
  {
    assert first & 0x80 != 0 <==> first >= 0x80;
  }

  /** How many bits the reader consumes at i, and how long a frame it was reading. */
  function Consumed(buf: seq<Sample>, i: nat): (r: (nat, nat))
    requires i <= |buf|
    ensures r.0 <= r.1 && r.1 <= LONG_FRAME && i + r.0 <= |buf|
    ensures forall k | i <= k < i + r.0 :: buf[k] <= 1
  {
    if RunLength(buf, i, 8) < 8 then (RunLength(buf, i, 8), LONG_FRAME)
    else
      var first := Pack(buf[i..i + 8])[0];
      if first == 0 then (7, LONG_FRAME)
      else (RunLength(buf, i, FrameLength(first)), FrameLength(first))
  }

  /** The frames handed to display, in order. The last bit of a frame may be missing. */
  function Frames(buf: seq<Sample>, i: nat): (f: seq<Frame>)
    ensures Sized(f)
    decreases |buf| - i
  {
    if i >= |buf| then []
    else if buf[i] > 1 then Frames(buf, i + 1)
    else
      var (n, len) := Consumed(buf, i);
      (if n + 1 < len then [] else [Frame(Pack(buf[i..i + n]), len)]) + Frames(buf, i + n + 1)
  }

  /** What is read of a run of n bits: all if fewer than eight; seven if the first eight are zeros; or
      else as many as the first byte announces. */
  lemma RunConsumed(buf: seq<Sample>, i: nat, n: nat)
    requires i < i + n <= |buf| && (forall k | i <= k < i + n :: buf[k] <= 1)
    requires i + n == |buf| || buf[i + n] > 1
    ensures n < 8 ==> Consumed(buf, i) == (n, 112)
    ensures n >= 8 ==>
      var first := Pack(buf[i..i + 8])[0];
      var len := if first as int >= 128 then 112 else 56;
      Consumed(buf, i) == if first == 0 then (7, 112) else (if n < len then n else len, len)
  {
    hide Pack, FrameLength, RunLength;
    RunLengthIs(buf, i, 8, if n < 8 then n else 8);
    if n >= 8 {
      var first := Pack(buf[i..i + 8])[0];
      LengthByFormat(first);
      var len := FrameLength(first);
      RunLengthIs(buf, i, len, if n < len then n else len);
    }
  }

  lemma {:induction false} RunLengthIs(buf: seq<Sample>, i: nat, max: nat, n: nat)
    requires n <= max && i + n <= |buf| && (forall k | i <= k < i + n :: buf[k] <= 1)
    requires n == max || i + n == |buf| || buf[i + n] > 1
    ensures RunLength(buf, i, max) == n
    decreases max
  {
    if n > 0 { RunLengthIs(buf, i + 1, max - 1, n - 1); }
  }

  /** display prints the frame: the short-frame option, and a format filter at quality 0. */
  predicate Shows(f: Frame, shortOutput: bool, quality: int)
    requires |f.bytes| == 14
  {
    var df := (f.bytes[0] >> 3) & 0x1f;
    && (shortOutput || f.len > SHORT_FRAME)
    && (quality != 0 || df == 11 || df == 17 || df == 18 || df == 19)
  }

  /** What is printed of the frames handed to display. */
  function Displayed(frames: seq<Frame>, shortOutput: bool, quality: int): (d: seq<Frame>)
    requires Sized(frames)
    ensures forall f | f in d :: f in frames && |f.bytes| == 14 && Shows(f, shortOutput, quality)
  {
    if frames == [] then []
    else
      var d := Displayed(frames[..|frames| - 1], shortOutput, quality);
      var f := frames[|frames| - 1];
      if Shows(f, shortOutput, quality) then d + [f] else d
  }

  lemma DisplayedNone(shortOutput: bool, quality: int)
    ensures Sized([]) && Displayed([], shortOutput, quality) == []
  {}

  lemma DisplayedMore(frames: seq<Frame>, f: Frame, shortOutput: bool, quality: int)
    requires |f.bytes| == 14 && Sized(frames)
    ensures Sized(frames + [f])
    ensures Displayed(frames + [f], shortOutput, quality)
      == Displayed(frames, shortOutput, quality) + if Shows(f, shortOutput, quality) then [f] else []
  {
    hide Shows;
    assert (frames + [f])[..|frames|] == frames;
    assert Displayed(frames, shortOutput, quality) + [] == Displayed(frames, shortOutput, quality);
  }
}
