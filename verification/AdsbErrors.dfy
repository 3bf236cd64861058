/** When the decoder of rtl_adsb takes a pair of samples for an error, and what it does then. */
module AdsbErrors {
  import opened AdsbSpec

  function Max(x: Sample, y: Sample): Sample {
    if x > y then x else y
  }

  function Min(x: Sample, y: Sample): Sample {
    if x < y then x else y
  }

  // ----- one pair

  /** A pair that is not an error is the bit it shows: 1 when it falls. At quality 0 none is an error. */
  lemma FallingIsOne(quality: int, a: Sample, b: Sample, c: Sample, d: Sample)
    ensures SingleManchester(quality, a, b, c, d) in {BADSAMPLE, if c > d then 1 else 0}
    ensures quality == 0 ==> SingleManchester(quality, a, b, c, d) != BADSAMPLE
  {}

  /** At quality 5 a pair is an error if it repeats the direction of the one before from wholly below
      where that ended, or, rising, from wholly above. */
  lemma RejectedAt5(a: Sample, b: Sample, c: Sample, d: Sample)
    ensures SingleManchester(5, a, b, c, d) == BADSAMPLE
      <==> (a > b && c > d && b > Max(c, d)) || (a <= b && c <= d && b < Min(c, d))
  {}

  /** At quality 10 it must get past where the one before ended: above it after a fall, else below. */
  lemma RejectedAt10(a: Sample, b: Sample, c: Sample, d: Sample)
    ensures SingleManchester(10, a, b, c, d) == BADSAMPLE
      <==> !(if a > b then Max(c, d) > b else Min(c, d) < b)
  {}

  /** At any other quality but 0 the ranges of the two pairs must overlap. */
  lemma RejectedElsewhere(quality: int, a: Sample, b: Sample, c: Sample, d: Sample)
    requires quality != 0 && quality != 5 && quality != 10
    ensures SingleManchester(quality, a, b, c, d) == BADSAMPLE
      <==> !(Max(c, d) > Min(a, b) && Min(c, d) < Max(a, b))
  {}

  // ----- a run of pairs

  /** The samples pair t from i on is compared with: the pair before it, the given ones for the first
      pair, and after an error 0 and 65535, a steep rise. */
  function Compared(quality: int, m: seq<Sample>, i: nat, a: Sample, b: Sample, t: nat): (Sample, Sample)
    requires i + 2 * t <= |m|
    decreases t, 0
  {
    if t == 0 then (a, b)
    else if Erroneous(quality, m, i, a, b, t - 1) then (0, 65535)
    else (m[i + 2 * t - 2], m[i + 2 * t - 1])
  }

  predicate Erroneous(quality: int, m: seq<Sample>, i: nat, a: Sample, b: Sample, t: nat)
    requires i + 2 * t + 2 <= |m|
    decreases t, 1
  {
    var (x, y) := Compared(quality, m, i, a, b, t);
    SingleManchester(quality, x, y, m[i + 2 * t], m[i + 2 * t + 1]) == BADSAMPLE
  }

  /** The number of errors among the first n pairs. */
  function Errors(quality: int, m: seq<Sample>, i: nat, a: Sample, b: Sample, n: nat): nat
    requires i + 2 * n <= |m|
  {
    if n == 0 then 0
    else Errors(quality, m, i, a, b, n - 1) + (if Erroneous(quality, m, i, a, b, n - 1) then 1 else 0)
  }

  /** Looking from the second pair on. */
  lemma {:induction false} FromSecond(quality: int, m: seq<Sample>, i: nat, a: Sample, b: Sample, t: nat)
    requires i + 2 + 2 * t <= |m|
    ensures var (x, y) := Compared(quality, m, i, a, b, 1);
      && Compared(quality, m, i + 2, x, y, t) == Compared(quality, m, i, a, b, t + 1)
      && (i + 2 * t + 4 <= |m| ==>
           Erroneous(quality, m, i + 2, x, y, t) == Erroneous(quality, m, i, a, b, t + 1))
      && Errors(quality, m, i, a, b, t + 1)
        == Errors(quality, m, i + 2, x, y, t) + (if Erroneous(quality, m, i, a, b, 0) then 1 else 0)
  {
    hide SingleManchester;
    if t > 0 { FromSecond(quality, m, i, a, b, t - 1); }
  }

  /** What a run does, told pair by pair. Each pair gives the bit it shows, also as a guess when it is an
      error; the run goes on as long as there are pairs and no more errors than allowed, and breaks at
      the first error too many. The next run is compared with the pair it broke at, or as if it went on. */
  ghost predicate RunTold(quality: int, allowed: int, m: seq<Sample>, i: nat, a: Sample, b: Sample, errors: nat,
                          r: BitRun)
    requires i <= |m|
  {
    var n := |r.bits|;
    && r.stop == i + 2 * n <= |m|
    && (forall t | 0 <= t < n :: r.bits[t] == if m[i + 2 * t] > m[i + 2 * t + 1] then 1 else 0)
    && (forall t: nat | t < n && Erroneous(quality, m, i, a, b, t) :: errors + Errors(quality, m, i, a, b, t) < allowed)
    && (if r.broke then
          && r.stop + 1 < |m| && Erroneous(quality, m, i, a, b, n) && errors + Errors(quality, m, i, a, b, n) >= allowed
          && (r.a, r.b) == (m[r.stop], m[r.stop + 1])
        else r.stop >= |m| - 1 && (r.a, r.b) == Compared(quality, m, i, a, b, n))
  }

  lemma {:induction false} RunMeaning(quality: int, allowed: int, m: seq<Sample>, i: nat, a: Sample, b: Sample,
                                      errors: nat)
    requires i <= |m|
    ensures RunTold(quality, allowed, m, i, a, b, errors, ReadBits(quality, allowed, m, i, a, b, errors))
    decreases |m| - i
  {
    if i + 1 < |m| {
      FallingIsOne(quality, a, b, m[i], m[i + 1]);
      hide SingleManchester;
      var wrong := Erroneous(quality, m, i, a, b, 0);
      if !wrong || errors + 1 <= allowed {
        var (x, y) := Compared(quality, m, i, a, b, 1);
        var e := if wrong then errors + 1 else errors;
        RunMeaning(quality, allowed, m, i + 2, x, y, e);
        RunExtends(quality, allowed, m, i, a, b, errors, ReadBits(quality, allowed, m, i + 2, x, y, e));
      }
    }
  }

  /** One more pair in front. */
  lemma RunExtends(quality: int, allowed: int, m: seq<Sample>, i: nat, a: Sample, b: Sample, errors: nat, r: BitRun)
    requires i + 1 < |m| && (Erroneous(quality, m, i, a, b, 0) ==> errors < allowed)
    requires var (x, y) := Compared(quality, m, i, a, b, 1);
      RunTold(quality, allowed, m, i + 2, x, y, errors + (if Erroneous(quality, m, i, a, b, 0) then 1 else 0), r)
    ensures RunTold(quality, allowed, m, i, a, b, errors,
                    r.(bits := [if m[i] > m[i + 1] then 1 else 0] + r.bits))
  {
    hide SingleManchester, Compared, Erroneous, Errors;
    var s := r.(bits := [if m[i] > m[i + 1] then 1 else 0] + r.bits);
    FromSecond(quality, m, i, a, b, |r.bits|);
    NoErrors(quality, m, i, a, b);
    forall t: nat | t < |s.bits| && Erroneous(quality, m, i, a, b, t)
      ensures errors + Errors(quality, m, i, a, b, t) < allowed
    {
      if t > 0 { FromSecond(quality, m, i, a, b, t - 1); }
    }
    forall t | 0 <= t < |s.bits| ensures s.bits[t] == if m[i + 2 * t] > m[i + 2 * t + 1] then 1 else 0 {
      if t > 0 { assert s.bits[t] == r.bits[t - 1]; }
    }
  }

  lemma NoErrors(quality: int, m: seq<Sample>, i: nat, a: Sample, b: Sample)
    requires i <= |m|
    ensures Errors(quality, m, i, a, b, 0) == 0
  {}
}
