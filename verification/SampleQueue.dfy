/** The linked list of received buffers in rtl_tcp and the two threads that work on it. */
module SampleQueue {
  import opened Bytes
  import opened SampleQueueSpec
  import opened SpectrumFrames
  import opened ComplexNumbers

  class Node {
    const data: seq<Byte>
    var next: Node?

    constructor (data: seq<Byte>)
      ensures this.data == data && next == null
    {
      this.data := data;
      next := null;
    }
  }

  /** The nodes of the list that starts at head, in order. */
  ghost predicate Chain(head: Node?, nodes: seq<Node>)
    reads nodes
  {
    && head == (if nodes == [] then null else nodes[0])
    && (forall i | 0 <= i < |nodes| - 1 :: nodes[i].next == nodes[i + 1])
    && (nodes != [] ==> nodes[|nodes| - 1].next == null)
  }

  lemma OnlyLastEnds(head: Node?, nodes: seq<Node>)
    requires Chain(head, nodes)
    ensures forall i | 0 <= i < |nodes| - 1 :: nodes[i].next != null
  {
    forall i | 0 <= i < |nodes| - 1 ensures nodes[i].next != null {
      var after := nodes[i + 1];
    }
  }

  /** The two lists share no node, and hold no freed one. */
  ghost predicate Apart(listed: seq<Node>, taken: seq<Node>, freed: set<Node>) {
    && (forall i, j | 0 <= i < j < |listed| :: listed[i] != listed[j])
    && (forall i, j | 0 <= i < j < |taken| :: taken[i] != taken[j])
    && (forall i | 0 <= i < |listed| :: listed[i] !in taken && listed[i] !in freed)
    && (forall i | 0 <= i < |taken| :: taken[i] !in listed && taken[i] !in freed)
  }

  /** The nodes hold the arrivals with these numbers. */
  ghost predicate Holds(nodes: seq<Node>, ids: seq<nat>, arrivals: seq<seq<Byte>>) {
    && |nodes| == |ids|
    && (forall i | 0 <= i < |ids| :: ids[i] < |arrivals| && nodes[i].data == arrivals[ids[i]])
  }

  /** The points of some of the arrivals, one buffer after the other. */
  function StreamOf(arrivals: seq<seq<Byte>>, ids: seq<nat>): seq<Complex>
    requires forall k | 0 <= k < |ids| :: ids[k] < |arrivals|
  {
    if ids == [] then []
    else StreamOf(arrivals, ids[..|ids| - 1]) + PointsOf(arrivals[ids[|ids| - 1]])
  }

  lemma {:induction false} StreamKeeps(arrivals: seq<seq<Byte>>, x: seq<Byte>, ids: seq<nat>)
    requires forall k | 0 <= k < |ids| :: ids[k] < |arrivals|
    ensures StreamOf(arrivals + [x], ids) == StreamOf(arrivals, ids)
  {
    if ids != [] { StreamKeeps(arrivals, x, ids[..|ids| - 1]); }
  }

  /** The lists are those of the abstract system, the points assembled are those of the buffers
      finished, and the system is one that its steps can reach. */
  ghost predicate Agrees(listed: seq<Node>, taken: seq<Node>, arrivals: seq<seq<Byte>>, points: seq<Complex>,
                         s: System, steps: seq<Step>, limit: int)
  {
    && Holds(listed, s.queue, arrivals) && Holds(taken, s.taken, arrivals)
    && s == Run(steps, limit) && s.arrived == |arrivals|
    && (forall k | 0 <= k < |s.finished| :: s.finished[k] < |arrivals|)
    && points == StreamOf(arrivals, s.finished)
  }

  lemma OneMoreStep(steps: seq<Step>, step: Step, limit: int)
    ensures Run(steps + [step], limit) == Do(Run(steps, limit), step, limit)
  {
    assert (steps + [step])[..|steps|] == steps;
  }

  lemma ArriveAgrees(listed: seq<Node>, taken: seq<Node>, arrivals: seq<seq<Byte>>, points: seq<Complex>,
                     s: System, steps: seq<Step>, limit: int, rpt: Node)
    requires Agrees(listed, taken, arrivals, points, s, steps, limit)
    ensures Agrees(Enqueue(listed, rpt, limit), taken, arrivals + [rpt.data], points,
                   Do(s, Arrive, limit), steps + [Arrive], limit)
  {
    hide Run, StreamOf;
    OneMoreStep(steps, Arrive, limit);
    StreamKeeps(arrivals, rpt.data, s.finished);
  }

  lemma TakeOverAgrees(listed: seq<Node>, arrivals: seq<seq<Byte>>, points: seq<Complex>,
                       s: System, steps: seq<Step>, limit: int)
    requires Agrees(listed, [], arrivals, points, s, steps, limit)
    ensures Agrees([], listed, arrivals, points, Do(s, TakeOver, limit), steps + [TakeOver], limit)
  {
    hide Run, StreamOf;
    OneMoreStep(steps, TakeOver, limit);
  }

  lemma FinishAgrees(listed: seq<Node>, taken: seq<Node>, arrivals: seq<seq<Byte>>, points: seq<Complex>,
                     s: System, steps: seq<Step>, limit: int)
    requires Agrees(listed, taken, arrivals, points, s, steps, limit) && taken != []
    ensures Agrees(listed, taken[1..], arrivals, points + PointsOf(taken[0].data),
                   Do(s, Finish, limit), steps + [Finish], limit)
  {
    hide Run, StreamOf;
    OneMoreStep(steps, Finish, limit);
    StreamGrows(arrivals, s.finished, s.taken[0]);
  }

  lemma StreamGrows(arrivals: seq<seq<Byte>>, ids: seq<nat>, id: nat)
    requires (forall k | 0 <= k < |ids| :: ids[k] < |arrivals|) && id < |arrivals|
    ensures StreamOf(arrivals, ids + [id]) == StreamOf(arrivals, ids) + PointsOf(arrivals[id])
  {
    assert (ids + [id])[..|ids|] == ids;
  }

  class Receiver {
    const limit: int
    const assembler: Assembler
    var llBuffers: Node?
    var curelem: Node?
    ghost var listed: seq<Node>
    ghost var taken: seq<Node>
    ghost var freed: set<Node>
    ghost var arrivals: seq<seq<Byte>>
    ghost var system: System
    ghost var steps: seq<Step>

    ghost predicate Lists()
      reads this, listed, taken
    {
      Chain(llBuffers, listed) && Chain(curelem, taken) && Apart(listed, taken, freed)
    }

    ghost predicate Valid()
      reads this, listed, taken, assembler, assembler.input, assembler.oldFft, assembler.currOutput
    {
      && Lists()
      && assembler.Valid()
      && Agrees(listed, taken, arrivals, assembler.points, system, steps, limit)
    }

    constructor (limit: int, assembler: Assembler)
      requires assembler.Valid() && assembler.points == []
      ensures Valid() && steps == [] && this.limit == limit && this.assembler == assembler && freed == {}
    {
      hide Assembler.Valid;
      this.limit, this.assembler := limit, assembler;
      llBuffers, curelem := null, null;
      listed, taken, freed, arrivals, system, steps := [], [], {}, [], START, [];
    }

    /** free(): never twice. */
    ghost method Free(n: Node)
      requires n !in freed
      modifies this`freed
      ensures freed == old(freed) + {n}
    {
      freed := freed + {n};
    }

    /** The walk to the last node; the count is one less than the length of the list. */
    method Last() returns (cur: Node, numQueued: int)
      requires Lists() && listed != []
      ensures cur == listed[|listed| - 1] && numQueued == |listed| - 1
    {
      OnlyLastEnds(llBuffers, listed);
      cur := llBuffers;
      numQueued := 0;
      while cur.next != null
        invariant Lists() && 0 <= numQueued < |listed| && cur == listed[numQueued]
        decreases |listed| - numQueued
      {
        cur := cur.next;
        numQueued := numQueued + 1;
      }
    }

    /** The oldest buffer of the list goes. */
    method DropOldest()
      requires Lists() && |listed| > 1
      modifies this`llBuffers, this`listed, this`freed
      ensures Lists() && listed == old(listed)[1..] && freed == old(freed) + {old(listed)[0]}
    {
      var elem := llBuffers.next;
      Free(llBuffers);
      llBuffers := elem;
      listed := listed[1..];
    }

    method LinkLast(cur: Node, rpt: Node)
      requires Lists() && listed != [] && cur == listed[|listed| - 1]
      requires rpt.next == null && rpt !in listed && rpt !in taken && rpt !in freed
      modifies this`listed, cur
      ensures Lists() && listed == old(listed) + [rpt]
    {
      cur.next := rpt;
      listed := listed + [rpt];
    }

    /** The USB callback, up to the links: append, dropping the oldest buffer of a full list. */
    method Append(rpt: Node)
      requires Lists() && !LinksFreed(listed, limit) && rpt.next == null && rpt !in listed + taken && rpt !in freed
      modifies this`llBuffers, this`listed, this`freed, listed
      ensures Lists()
      ensures listed == Enqueue(old(listed), rpt, limit)
      ensures freed == if Full(old(listed), limit) then old(freed) + {old(listed)[0]} else old(freed)
    {
      if llBuffers == null {
        llBuffers := rpt;
        listed := [rpt];
      } else {
        var cur, numQueued := Last();
        if limit != 0 && limit == numQueued - 2 {
          DropOldest();
        }
        LinkLast(cur, rpt);
      }
    }

    /** The USB callback. */
    method Callback(buf: seq<Byte>)
      requires Valid() && !LinksFreed(listed, limit)
      modifies this`llBuffers, this`listed, this`freed, this`arrivals, this`system, this`steps, listed
      ensures Valid() && arrivals == old(arrivals) + [buf] && steps == old(steps) + [Arrive]
      ensures system == Do(old(system), Arrive, limit)
    {
      hide Agrees, Do, Chain, Enqueue;
      var rpt := new Node(buf);
      ArriveAgrees(listed, taken, arrivals, assembler.points, system, steps, limit, rpt);
      Append(rpt);
      arrivals, system, steps := arrivals + [buf], Do(system, Arrive, limit), steps + [Arrive];
    }

    /** The FFT thread takes the whole list over once it has finished the last one. */
    method TakeOver()
      requires Valid() && curelem == null
      modifies this`llBuffers, this`curelem, this`listed, this`taken, this`system, this`steps
      ensures Valid() && system == Do(old(system), Step.TakeOver, limit) && steps == old(steps) + [Step.TakeOver]
    {
      hide Agrees, Do;
      TakeOverAgrees(listed, arrivals, assembler.points, system, steps, limit);
      curelem := llBuffers;
      llBuffers := null;
      taken, listed := listed, [];
      system, steps := Do(system, Step.TakeOver, limit), steps + [Step.TakeOver];
    }

    /** The step to the next node of the FFT thread's list, freeing this one. */
    method Advance()
      requires Lists() && curelem != null
      modifies this`curelem, this`taken, this`freed
      ensures Lists() && taken == old(taken)[1..] && freed == old(freed) + {old(taken)[0]}
    {
      var prev := curelem;
      curelem := curelem.next;
      Free(prev);
      taken := taken[1..];
    }

    /** The FFT thread works through one buffer of its list. */
    method FinishOne()
      requires Valid() && curelem != null
      modifies this`curelem, this`taken, this`freed, this`system, this`steps
      modifies assembler`currDataPoint, assembler`points, assembler`shown
      modifies assembler.input, assembler.oldFft, assembler.currOutput
      ensures Valid() && system == Do(old(system), Finish, limit) && steps == old(steps) + [Finish]
    {
      hide Agrees, Do;
      FinishAgrees(listed, taken, arrivals, assembler.points, system, steps, limit);
      assembler.Process(curelem.data);
      Advance();
      system, steps := Do(system, Finish, limit), steps + [Finish];
    }
  }
}
