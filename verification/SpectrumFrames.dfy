/** How the FFT thread of rtl_tcp turns received buffers into spectra. */
module SpectrumFrames {
  import opened Bytes
  import opened CArith
  import opened Pairs
  import opened ComplexNumbers

  function Centred(b: Byte): real {
    (b as int - 128) as real
  }

  /** Interleaved unsigned samples, centred on 0; an odd trailing byte is ignored. */
  function PointsOf(buf: seq<Byte>): (ps: seq<Complex>)
    ensures |ps| == |buf| / 2
  {
    seq(|buf| / 2, k requires 0 <= k < |buf| / 2 =>
      Pair(Centred(buf[2 * k]), Centred(buf[2 * k + 1])))
  }

  /** The settings of a run. The transform itself is fftw's: any function that keeps the length. */
  datatype Settings = Settings(n: nat, averaging: bool, fft: seq<Complex> -> seq<Complex>) {
    ghost predicate Valid() {
      n > 0 && forall ps :: |fft(ps)| == |ps|
    }
  }

  function Power(z: Complex): real {
    z.re * z.re + z.im * z.im
  }

  /** Frame k of the stream of points: points [k*n, (k+1)*n). */
  function Frame(c: Settings, points: seq<Complex>, k: nat): (f: seq<Complex>)
    requires c.n > 0 && k < |points| / c.n
    ensures |f| == c.n
  {
    FrameFits(c.n, |points|, k);
    points[k * c.n..(k + 1) * c.n]
  }

  lemma FrameFits(n: nat, len: nat, k: nat)
    requires n > 0 && k < len / n
    ensures 0 <= k * n <= (k + 1) * n <= len
    ensures (k + 1) * n - k * n == n
  {
    var q := len / n;
    assert len == n * q + len % n;
    MulNonNegative(n, q - (k + 1));
    assert n * (q - (k + 1)) == n * q - (k + 1) * n;
    MulNonNegative(n, k);
  }

  /** The transform remembered when frame k is drawn: the one of frame k-1. */
  ghost function History(c: Settings, start: seq<Complex>, points: seq<Complex>, k: nat): (h: seq<Complex>)
    requires c.Valid() && |start| == c.n && k <= |points| / c.n
    ensures |h| == c.n
  {
    if k == 0 then start else c.fft(Frame(c, points, k - 1))
  }

  /** The bin drawn at position k: bin n/2 comes first. */
  function Bin(n: nat, k: nat): (i: nat)
    requires k < n
    ensures i < n && (i == k + n / 2 || i == k + n / 2 - n)
  {
    if k < n - n / 2 then k + n / 2 else k - (n - n / 2)
  }

  /** What is drawn for one bin: its power, with averaging that of its sum with the remembered value. */
  function BinPower(averaging: bool, spectrum: seq<Complex>, history: seq<Complex>, i: nat): real
    requires |spectrum| == |history| && i < |spectrum|
  {
    Power(if averaging then Add(spectrum[i], history[i]) else spectrum[i])
  }

  function Picture(averaging: bool, spectrum: seq<Complex>, history: seq<Complex>): (o: seq<real>)
    requires |spectrum| == |history|
    ensures |o| == |spectrum|
  {
    seq(|spectrum|, k requires 0 <= k < |spectrum| => BinPower(averaging, spectrum, history, Bin(|spectrum|, k)))
  }

  /** The picture is the list of bin powers rotated by n/2. */
  lemma PictureIsRotated(averaging: bool, spectrum: seq<Complex>, history: seq<Complex>, powers: seq<real>)
    requires |powers| == |spectrum| == |history|
    requires forall i | 0 <= i < |spectrum| :: powers[i] == BinPower(averaging, spectrum, history, i)
    ensures Picture(averaging, spectrum, history) == powers[|powers| / 2..] + powers[..|powers| / 2]
  {
    hide BinPower;
    var n := |powers|;
    forall k | 0 <= k < n
      ensures Picture(averaging, spectrum, history)[k] == (powers[n / 2..] + powers[..n / 2])[k]
    {
      var i := Bin(n, k);
      assert powers[i] == BinPower(averaging, spectrum, history, i);
    }
  }

  ghost function PictureAt(c: Settings, start: seq<Complex>, points: seq<Complex>, k: nat): seq<real>
    requires c.Valid() && |start| == c.n && k < |points| / c.n
  {
    Picture(c.averaging, c.fft(Frame(c, points, k)), History(c, start, points, k))
  }

  /** Every picture a stream of points gives, one per whole frame. */
  ghost function Pictures(c: Settings, start: seq<Complex>, points: seq<Complex>): (o: seq<seq<real>>)
    requires c.Valid() && |start| == c.n
    ensures |o| == |points| / c.n
    ensures forall k | 0 <= k < |points| / c.n :: o[k] == PictureAt(c, start, points, k)
  {
    seq(|points| / c.n, k requires 0 <= k < |points| / c.n => PictureAt(c, start, points, k))
  }

  /** Where one more point leaves the stream. */
  lemma OneMore(n: nat, len: nat)
    requires n > 0
    ensures len % n + 1 < n ==> (len + 1) / n == len / n && (len + 1) % n == len % n + 1
    ensures len % n + 1 == n ==>
      (len + 1) / n == len / n + 1 && (len + 1) % n == 0 && len / n * n == len - len % n
      && (len / n + 1) * n == len + 1
  {
    var q, r := len / n, len % n;
    assert len == n * q + r;
    if r + 1 < n {
      DivModUnique(len + 1, n, q, r + 1);
    } else {
      assert len + 1 == n * (q + 1);
      DivModUnique(len + 1, n, q + 1, 0);
    }
  }

  lemma FramePrefix(c: Settings, points: seq<Complex>, p: Complex, k: nat)
    requires c.n > 0 && k < |points| / c.n && k < |points + [p]| / c.n
    ensures Frame(c, points + [p], k) == Frame(c, points, k)
  {
    FrameFits(c.n, |points|, k);
  }

  lemma HistoryPrefix(c: Settings, start: seq<Complex>, points: seq<Complex>, p: Complex, k: nat)
    requires c.Valid() && |start| == c.n && k <= |points| / c.n && k <= |points + [p]| / c.n
    ensures History(c, start, points + [p], k) == History(c, start, points, k)
  {
    if k > 0 {
      FramePrefix(c, points, p, k - 1);
    }
  }

  lemma PicturePrefix(c: Settings, start: seq<Complex>, points: seq<Complex>, p: Complex, k: nat)
    requires c.Valid() && |start| == c.n && k < |points| / c.n && k < |points + [p]| / c.n
    ensures PictureAt(c, start, points + [p], k) == PictureAt(c, start, points, k)
  {
    hide Picture, Frame, History;
    FramePrefix(c, points, p, k);
    HistoryPrefix(c, start, points, p, k);
  }

  /** The unfinished frame, the remembered transform and the pictures drawn, after the given points. */
  ghost predicate Tracks(c: Settings, start: seq<Complex>, points: seq<Complex>,
                         pending: seq<Complex>, history: seq<Complex>, shown: seq<seq<real>>)
    requires c.Valid() && |start| == c.n
  {
    && |pending| == |points| % c.n
    && |pending| <= |points|
    && pending == points[|points| - |pending|..]
    && history == History(c, start, points, |points| / c.n)
    && shown == Pictures(c, start, points)
  }

  /** A point that completes no frame adds no picture. */
  lemma NoPicture(c: Settings, start: seq<Complex>, points: seq<Complex>,
                  pending: seq<Complex>, history: seq<Complex>, shown: seq<seq<real>>, p: Complex)
    requires c.Valid() && |start| == c.n && Tracks(c, start, points, pending, history, shown)
    requires |pending| + 1 < c.n
    ensures Tracks(c, start, points + [p], pending + [p], history, shown)
  {
    hide PictureAt, History;
    var n := c.n;
    OneMore(n, |points|);
    HistoryPrefix(c, start, points, p, |points| / n);
    var after := Pictures(c, start, points + [p]);
    forall k | 0 <= k < |points| / n ensures after[k] == shown[k] {
      PicturePrefix(c, start, points, p, k);
    }
    assert after == shown;
  }

  /** A point that completes a frame adds the picture of that frame. */
  lemma NewPicture(c: Settings, start: seq<Complex>, points: seq<Complex>,
                   pending: seq<Complex>, history: seq<Complex>, shown: seq<seq<real>>, p: Complex)
    requires c.Valid() && |start| == c.n && Tracks(c, start, points, pending, history, shown)
    requires |pending| + 1 == c.n
    ensures |history| == c.n
    ensures Tracks(c, start, points + [p], [], c.fft(pending + [p]),
                   shown + [Picture(c.averaging, c.fft(pending + [p]), history)])
  {
    hide Picture, PictureAt, History, Frame;
    var n, q, longer := c.n, |points| / c.n, points + [p];
    OneMore(n, |points|);
    LastFrame(c, points, pending, p);
    LastHistory(c, start, longer, q, pending + [p]);
    LastPicture(c, start, points, q, pending, history, p);
    var after := Pictures(c, start, longer);
    forall k | 0 <= k < q ensures after[k] == shown[k] {
      PicturePrefix(c, start, points, p, k);
    }
    assert after == shown + [after[q]];
  }

  lemma LastFrame(c: Settings, points: seq<Complex>, pending: seq<Complex>, p: Complex)
    requires c.n > 0 && |pending| == |points| % c.n && |pending| + 1 == c.n && |pending| <= |points|
    requires pending == points[|points| - |pending|..]
    ensures |points + [p]| / c.n == |points| / c.n + 1
    ensures Frame(c, points + [p], |points| / c.n) == pending + [p]
  {
    OneMore(c.n, |points|);
  }

  lemma LastHistory(c: Settings, start: seq<Complex>, points: seq<Complex>, q: nat, frame: seq<Complex>)
    requires c.Valid() && |start| == c.n && q < |points| / c.n && Frame(c, points, q) == frame
    ensures History(c, start, points, q + 1) == c.fft(frame)
  {}

  lemma LastPicture(c: Settings, start: seq<Complex>, points: seq<Complex>, q: nat,
                    pending: seq<Complex>, history: seq<Complex>, p: Complex)
    requires c.Valid() && |start| == c.n && |history| == c.n && |pending| + 1 == c.n
    requires q == |points| / c.n && q < |points + [p]| / c.n
    requires Frame(c, points + [p], q) == pending + [p] && history == History(c, start, points, q)
    ensures PictureAt(c, start, points + [p], q) == Picture(c.averaging, c.fft(pending + [p]), history)
  {
    hide Picture, Frame, History;
    HistoryPrefix(c, start, points, p, q);
  }

  /** The FFT thread's state between buffers. */
  class Assembler {
    const settings: Settings
    const input: array<Complex>
    const oldFft: array<Complex>
    const currOutput: array<real>
    var currDataPoint: nat
    ghost const start: seq<Complex>
    ghost var points: seq<Complex>
    ghost var shown: seq<seq<real>>

    ghost predicate Arrays()
      reads this
    {
      && settings.Valid() && |start| == settings.n
      && input.Length == settings.n && oldFft.Length == settings.n && currOutput.Length == settings.n
      && input != oldFft
    }

    /** The points received so far determine everything: the unfinished frame, the remembered
        transform and every picture drawn. */
    ghost predicate Valid()
      reads this, input, oldFft, currOutput
    {
      && Arrays()
      && currDataPoint < settings.n
      && Tracks(settings, start, points, input[..currDataPoint], oldFft[..], shown)
      && (shown != [] ==> currOutput[..] == shown[|shown| - 1])
    }

    constructor (settings: Settings, oldFft: array<Complex>)
      requires settings.Valid() && oldFft.Length == settings.n
      ensures Valid() && points == [] && this.settings == settings && start == oldFft[..]
      ensures this.oldFft == oldFft && fresh(input) && fresh(currOutput)
    {
      this.settings := settings;
      this.oldFft := oldFft;
      input := new Complex[settings.n](_ => Pair(0.0, 0.0));
      currOutput := new real[settings.n](_ => 0.0);
      currDataPoint := 0;
      start := oldFft[..];
      points, shown := [], [];
    }

    /** One half of the rotation: bins lo..hi are drawn from the current position on, and remembered.
        What was remembered of them before is `history`. */
    method DrawBins(out: seq<Complex>, lo: nat, hi: nat, ghost history: seq<Complex>)
      requires Arrays() && |out| == settings.n == |history| && lo <= hi <= settings.n
      requires currDataPoint + hi - lo <= settings.n
      requires forall i | lo <= i < hi :: oldFft[i] == history[i]
      requires forall k | currDataPoint <= k < currDataPoint + hi - lo :: Bin(settings.n, k) == lo + (k - currDataPoint)
      modifies this`currDataPoint, currOutput, oldFft
      ensures currDataPoint == old(currDataPoint) + hi - lo
      ensures forall k | old(currDataPoint) <= k < currDataPoint ::
        currOutput[k] == BinPower(settings.averaging, out, history, Bin(settings.n, k))
      ensures forall k | 0 <= k < old(currDataPoint) :: currOutput[k] == old(currOutput[k])
      ensures forall i | 0 <= i < settings.n :: oldFft[i] == if lo <= i < hi then out[i] else old(oldFft[i])
    {
      hide Power, Add, Bin;
      for i := lo to hi
        invariant currDataPoint == old(currDataPoint) + i - lo
        invariant forall k | old(currDataPoint) <= k < currDataPoint ::
          currOutput[k] == BinPower(settings.averaging, out, history, Bin(settings.n, k))
        invariant forall k | 0 <= k < old(currDataPoint) :: currOutput[k] == old(currOutput[k])
        invariant forall j | 0 <= j < settings.n :: oldFft[j] == if lo <= j < i then out[j] else old(oldFft[j])
      {
        assert Bin(settings.n, currDataPoint) == i;
        currOutput[currDataPoint] := Power(if settings.averaging then Add(out[i], oldFft[i]) else out[i]);
        oldFft[i] := out[i];
        currDataPoint := currDataPoint + 1;
      }
    }

    /** A full frame: transform it, draw it rotated, remember the transform. */
    method Crunch()
      requires Arrays()
      modifies this`currDataPoint, currOutput, oldFft
      ensures currDataPoint == 0
      ensures oldFft[..] == settings.fft(old(input[..]))
      ensures currOutput[..] == Picture(settings.averaging, settings.fft(old(input[..])), old(oldFft[..]))
    {
      hide BinPower;
      var n := settings.n;
      ghost var history := oldFft[..];
      currDataPoint := 0;
      var out := settings.fft(input[..]);
      DrawBins(out, n / 2, n, history);
      DrawBins(out, 0, n / 2, history);
      currDataPoint := 0;
    }

    /** One sample pair. */
    method AddPoint(p: Complex)
      requires Valid()
      modifies this`currDataPoint, this`points, this`shown, input, oldFft, currOutput
      ensures Valid() && points == old(points) + [p]
    {
      hide Tracks, Picture, Pictures, History;
      ghost var pending, history := input[..currDataPoint], oldFft[..];
      input[currDataPoint] := p;
      currDataPoint := currDataPoint + 1;
      assert input[..currDataPoint] == pending + [p];
      if currDataPoint >= settings.n {
        NewPicture(settings, start, points, pending, history, shown, p);
        assert input[..] == pending + [p];
        Crunch();
        shown := shown + [currOutput[..]];
        assert input[..currDataPoint] == [];
      } else {
        NoPicture(settings, start, points, pending, history, shown, p);
      }
      points := points + [p];
    }

    /** A received buffer adds its points to the stream, wherever the frame boundaries fall in it. */
    method Process(buf: seq<Byte>)
      requires Valid()
      modifies this`currDataPoint, this`points, this`shown, input, oldFft, currOutput
      ensures Valid() && points == old(points) + PointsOf(buf)
    {
      hide Valid, PointsOf, Centred;
      var j := 1;
      ghost var n := 0;
      ghost var before := points;
      assert before == before + PointsOf(buf)[..0];
      while j < |buf|
        invariant j == 2 * n + 1 && n <= |PointsOf(buf)|
        invariant Valid() && points == before + PointsOf(buf)[..n]
      {
        NextPoint(buf, n, before);
        AddPoint(Pair(Centred(buf[j - 1]), Centred(buf[j])));
        j := j + 2;
        n := n + 1;
      }
      assert PointsOf(buf)[..n] == PointsOf(buf);
    }
  }

  lemma NextPoint(buf: seq<Byte>, n: nat, before: seq<Complex>)
    requires 2 * n + 1 < |buf|
    ensures n < |PointsOf(buf)|
    ensures before + PointsOf(buf)[..n] + [Pair(Centred(buf[2 * n]), Centred(buf[2 * n + 1]))]
      == before + PointsOf(buf)[..n + 1]
  {
    assert PointsOf(buf)[..n + 1] == PointsOf(buf)[..n] + [PointsOf(buf)[n]];
  }

  // ----- what is drawn

  /** The power is the square of the modulus: of a product it is the product of the powers. */
  lemma PowerOfProduct(a: Complex, b: Complex)
    ensures Mul(a, Conj(a)) == Pair(Power(a), 0.0)
    ensures Power(Mul(a, b)) == Power(a) * Power(b)
  {
    Same(Mul(a, Conj(a)), Pair(Power(a), 0.0));
    var p, q, r, s := a.re * b.re, a.im * b.im, a.re * b.im, a.im * b.re;
    assert Power(Mul(a, b)) == p * p - 2.0 * (p * q) + q * q + r * r + 2.0 * (r * s) + s * s;
    assert p * q == r * s by { FourFactors(a.re, a.im, b.re, b.im); }
    SquareOfProduct(a.re, b.re);
    SquareOfProduct(a.im, b.im);
    SquareOfProduct(a.re, b.im);
    SquareOfProduct(a.im, b.re);
    FourProducts(a.re * a.re, a.im * a.im, b.re * b.re, b.im * b.im);
  }

  lemma FourFactors(x: real, y: real, u: real, v: real)
    ensures (x * u) * (y * v) == (x * v) * (y * u)
  {
    assert (x * u) * (y * v) == x * (u * (y * v)) && (x * v) * (y * u) == x * (v * (y * u));
    assert u * (y * v) == (u * v) * y && v * (y * u) == (u * v) * y;
  }

  lemma SquareOfProduct(x: real, y: real)
    ensures (x * y) * (x * y) == (x * x) * (y * y)
  {
    assert (x * y) * (x * y) == x * (y * (x * y)) && (x * x) * (y * y) == x * (x * (y * y));
    assert y * (x * y) == x * (y * y);
  }

  lemma FourProducts(p: real, q: real, r: real, s: real)
    ensures (p + q) * (r + s) == p * r + q * s + p * s + q * r
  {}

  /** With averaging each bin is drawn from the sum of the transforms of its frame and of the frame
      before, from the second frame on; without, from its own frame. */
  lemma DrawnFrom(c: Settings, start: seq<Complex>, points: seq<Complex>, k: nat, i: nat)
    requires c.Valid() && |start| == c.n && k < |points| / c.n && i < c.n
    ensures var now := c.fft(Frame(c, points, k));
      var before := if k == 0 then start else c.fft(Frame(c, points, k - 1));
      var drawn := PictureAt(c, start, points, k)[if i >= c.n / 2 then i - c.n / 2 else i + (c.n - c.n / 2)];
      drawn == if c.averaging then Power(Add(now[i], before[i])) else Power(now[i])
  {
    hide Frame, Power, Add;
  }

  /** The frames tile the stream: point i of frame k is point k*n + i. */
  lemma FrameTiles(c: Settings, points: seq<Complex>, k: nat, i: nat)
    requires c.n > 0 && k < |points| / c.n && i < c.n
    ensures k * c.n + i < |points| && Frame(c, points, k)[i] == points[k * c.n + i]
  {
    FrameFits(c.n, |points|, k);
  }

  /** Point k of a buffer is bytes 2k and 2k+1, each counted from 128. */
  lemma PointBytes(buf: seq<Byte>, k: nat)
    requires 2 * k + 1 < |buf|
    ensures PointsOf(buf)[k].re + 128.0 == buf[2 * k] as real && PointsOf(buf)[k].im + 128.0 == buf[2 * k + 1] as real
  {}
}
