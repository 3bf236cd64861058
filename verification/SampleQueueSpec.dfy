/** The buffer queue between the USB callback and the FFT thread of rtl_tcp, as atomic steps of
    the two threads in any order. A buffer is named by its arrival number. */
module SampleQueueSpec {

  /** Arrivals so far; the shared list; the list the FFT thread has taken over and not finished;
      the buffers it has finished and freed; the buffers the callback has dropped and freed. */
  datatype System = System(arrived: nat, queue: seq<nat>, taken: seq<nat>, finished: seq<nat>, dropped: seq<nat>)

  datatype Step = Arrive | TakeOver | Finish

  const START := System(0, [], [], [], [])

  /** A list that is not empty is full when it holds limit+3 buffers; limit 0 means it never is. The
      limit is what atoi makes of the argument of -n: it may be negative. */
  predicate Full<T>(queue: seq<T>, limit: int) {
    limit != 0 && queue != [] && |queue| == limit + 3
  }

  /** The list has a bound at all. */
  predicate Bounded(limit: int) {
    limit != 0 && limit >= -2
  }

  /** The list after one more buffer: a full list loses its oldest first. */
  function Enqueue<T>(queue: seq<T>, x: T, limit: int): seq<T> {
    (if Full(queue, limit) then queue[1..] else queue) + [x]
  }

  function Do(s: System, step: Step, limit: int): System {
    match step
    case Arrive =>
      s.(arrived := s.arrived + 1, queue := Enqueue(s.queue, s.arrived, limit),
         dropped := if Full(s.queue, limit) then s.dropped + [s.queue[0]] else s.dropped)
    case TakeOver => if s.taken == [] then s.(taken := s.queue, queue := []) else s
    case Finish => if s.taken == [] then s else s.(taken := s.taken[1..], finished := s.finished + [s.taken[0]])
  }

  function Run(steps: seq<Step>, limit: int): System {
    if steps == [] then START else Do(Run(steps[..|steps| - 1], limit), steps[|steps| - 1], limit)
  }

  predicate Increasing(xs: seq<nat>) {
    forall i, j | 0 <= i < j < |xs| :: xs[i] < xs[j]
  }

  /** The numbers lo, lo+1, ..., hi-1. */
  function Range(lo: nat, hi: nat): (r: seq<nat>)
    requires lo <= hi
    ensures |r| == hi - lo
    ensures forall k | 0 <= k < hi - lo :: r[k] == lo + k
  {
    seq(hi - lo, k requires 0 <= k < hi - lo => lo + k)
  }

  /** Each number below n is in exactly one of the two lists, once, and both are in order. */
  ghost predicate Splits(n: nat, kept: seq<nat>, dropped: seq<nat>) {
    && Increasing(kept)
    && Increasing(dropped)
    && (forall id | id in kept :: id < n && id !in dropped)
    && (forall id | id in dropped :: id < n && id !in kept)
    && (forall id: nat | id < n :: id in kept || id in dropped)
  }

  lemma {:induction false} KeepRange(lo: nat, hi: nat, kept: seq<nat>, dropped: seq<nat>)
    requires Splits(lo, kept, dropped) && lo <= hi
    ensures Splits(hi, kept + Range(lo, hi), dropped)
  {
    var r, all := Range(lo, hi), kept + Range(lo, hi);
    forall k | 0 <= k < |kept| ensures kept[k] < lo { assert kept[k] in kept; }
    forall id: nat ensures id in r <==> lo <= id < hi {
      if lo <= id < hi { assert r[id - lo] == id; }
    }
    assert forall id: nat :: id in all <==> id in kept || id in r;
  }

  lemma DropNext(lo: nat, kept: seq<nat>, dropped: seq<nat>)
    requires Splits(lo, kept, dropped)
    ensures Splits(lo + 1, kept, dropped + [lo])
  {
    var all := dropped + [lo];
    forall k | 0 <= k < |dropped| ensures dropped[k] < lo { assert dropped[k] in dropped; }
    assert forall id: nat :: id in all <==> id in dropped || id == lo;
  }

  /** What holds in every reachable state: the list holds the newest arrivals, and the older ones
      were each dropped or handed to the FFT thread, once and in order. */
  ghost predicate Invariant(s: System, limit: int) {
    && (Bounded(limit) ==> |s.queue| <= limit + 3)
    && |s.queue| <= s.arrived
    && s.queue == Range(s.arrived - |s.queue|, s.arrived)
    && Splits(s.arrived - |s.queue|, s.finished + s.taken, s.dropped)
    && (forall d | d in s.dropped :: Bounded(limit) && d + limit + 3 < s.arrived)
  }

  lemma ArriveHolds(s: System, limit: int)
    requires Invariant(s, limit)
    ensures Invariant(Do(s, Arrive, limit), limit)
  {
    hide Splits;
    var t, lo := Do(s, Arrive, limit), s.arrived - |s.queue|;
    if Full(s.queue, limit) {
      DropNext(lo, s.finished + s.taken, s.dropped);
      assert t.queue == Range(lo + 1, t.arrived);
    } else {
      assert t.queue == Range(lo, t.arrived);
    }
  }

  lemma TakeOverHolds(s: System, limit: int)
    requires Invariant(s, limit)
    ensures Invariant(Do(s, TakeOver, limit), limit)
  {
    hide Splits;
    if s.taken == [] {
      KeepRange(s.arrived - |s.queue|, s.arrived, s.finished + s.taken, s.dropped);
      assert s.finished + s.taken + s.queue == s.finished + s.queue;
    }
  }

  lemma FinishHolds(s: System, limit: int)
    requires Invariant(s, limit)
    ensures Invariant(Do(s, Finish, limit), limit)
  {
    hide Splits;
    if s.taken != [] {
      assert s.finished + [s.taken[0]] + s.taken[1..] == s.finished + s.taken;
    }
  }

  /** Safety over every interleaving of the two threads. */
  lemma {:induction false} EveryRun(steps: seq<Step>, limit: int)
    ensures Invariant(Run(steps, limit), limit)
  {
    if steps != [] {
      var before, s := steps[..|steps| - 1], Run(steps[..|steps| - 1], limit);
      EveryRun(before, limit);
      hide Invariant, Do;
      match steps[|steps| - 1]
      case Arrive => ArriveHolds(s, limit);
      case TakeOver => TakeOverHolds(s, limit);
      case Finish => FinishHolds(s, limit);
    }
  }

  /** Where each buffer is: the shared list, the FFT thread's list, finished or dropped. */
  function Homes(s: System, id: nat): nat {
    (if id in s.queue then 1 else 0) + (if id in s.taken then 1 else 0)
    + (if id in s.finished then 1 else 0) + (if id in s.dropped then 1 else 0)
  }

  /** After any steps: every arrival is in exactly one place, so none is lost, and none is freed twice
      (the freed lists have no repetition) or freed while listed; the buffers are finished, and will
      be, in arrival order; and if the limit bounds the list, only an arrival older than the newest
      limit+3 is ever dropped, and otherwise none is. */
  lemma QueueIsSafe(steps: seq<Step>, limit: int)
    requires limit != -2
    ensures var s := Run(steps, limit);
      && (Bounded(limit) ==> |s.queue| <= limit + 3)
      && (forall id: nat :: Homes(s, id) == if id < s.arrived then 1 else 0)
      && Increasing(s.finished + s.taken + s.queue)
      && Increasing(s.dropped)
      && (forall d | d in s.dropped :: Bounded(limit) && d + limit + 3 < s.arrived)
  {
    EveryRun(steps, limit);
    var s := Run(steps, limit);
    hide Run;
    var lo, kept := s.arrived - |s.queue|, s.finished + s.taken;
    KeepRange(lo, s.arrived, kept, s.dropped);
    forall id: nat ensures Homes(s, id) == if id < s.arrived then 1 else 0 {
      OneHome(s, lo, id);
    }
  }

  /** An arrival would drop the only node of the list, the one the walk stopped at, and then link the
      new node to it. */
  predicate LinksFreed<T>(queue: seq<T>, limit: int) {
    |queue| == 1 && Full(queue, limit)
  }

  /** The callback never links to a freed node exactly when the limit is not -2. */
  lemma CallbackSafeIff(limit: int)
    ensures (forall steps: seq<Step> :: !LinksFreed(Run(steps, limit).queue, limit)) <==> limit != -2
  {
    if limit == -2 {
      assert [Arrive][..0] == [];
      assert Run([Arrive], limit).queue == [0];
    }
  }

  lemma OneHome(s: System, lo: nat, id: nat)
    requires lo <= s.arrived && s.queue == Range(lo, s.arrived)
    requires Splits(lo, s.finished + s.taken, s.dropped)
    ensures Homes(s, id) == if id < s.arrived then 1 else 0
  {
    var kept := s.finished + s.taken;
    assert id in s.queue <==> lo <= id < s.arrived by {
      if lo <= id < s.arrived { assert s.queue[id - lo] == id; }
    }
    assert id in kept <==> id in s.finished || id in s.taken;
    forall i, j | 0 <= i < |s.finished| && 0 <= j < |s.taken| ensures s.finished[i] < s.taken[j] {
      var at := |s.finished| + j;
      assert kept[i] < kept[at];
    }
  }

  /** With limit 0, or one below -2, the list grows with every arrival. */
  lemma {:induction false} UnlimitedGrows(steps: seq<Step>, limit: int)
    requires !Bounded(limit)
    requires forall k | 0 <= k < |steps| :: steps[k] == Arrive
    ensures |Run(steps, limit).queue| == |steps| && Run(steps, limit).dropped == []
  {
    if steps != [] {
      UnlimitedGrows(steps[..|steps| - 1], limit);
    }
  }
}
