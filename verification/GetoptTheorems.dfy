/** What whole runs of getopt mean: a one-pass reading of the original argument vector. */
module GetoptTheorems {
  import opened Options
  import opened GetoptSpec

  // ----- the meaning of an argument vector, without permutation or indices

  /** One option element: its events, how many following elements it took as argument (0 or 1),
      whether a required argument was missing, and the option letter left in optopt. */
  datatype Cluster = Cluster(events: seq<Event>, used: nat, missing: bool, optopt: char)

  function ReadCluster(opts: string, optopt: char, letters: string, after: seq<string>): (r: Cluster)
    requires letters != ""
    ensures r.used <= 1 && r.used <= |after|
    ensures r.missing ==> after == [] && r.used == 0
    decreases |letters|, 0
  {
    var c, rest := letters[0], letters[1..];
    match KindOf(opts, c)
    case Unknown => More(opts, Event(Letter('?'), None, c), rest, after)
    case NoArgument => More(opts, Event(Letter(c), None, optopt), rest, after)
    case OptionalArgument =>
      Cluster([Event(Letter(c), if rest == "" then None else Some(rest), optopt)], 0, false, optopt)
    case RequiredArgument =>
      if rest != "" then Cluster([Event(Letter(c), Some(rest), optopt)], 0, false, optopt)
      else if after == [] then
        Cluster([Event(Letter(if ":" <= opts then ':' else '?'), None, c)], 0, true, c)
      else Cluster([Event(Letter(c), Some(after[0]), optopt)], 1, false, optopt)
  }

  function More(opts: string, e: Event, rest: string, after: seq<string>): (r: Cluster)
    ensures r.used <= 1 && r.used <= |after|
    ensures r.missing ==> after == [] && r.used == 0
    decreases |rest|, 1
  {
    if rest == "" then Cluster([e], 0, false, e.optopt)
    else
      var c := ReadCluster(opts, e.optopt, rest, after);
      c.(events := [e] + c.events)
  }

  /** The reading of a vector: events, the option elements with their arguments (and a first
      "--"), the operands, whether a required argument was missing, and whether a "--" ended it. */
  datatype Reading = Reading(events: seq<Event>, options: seq<string>, operands: seq<string>,
                             missing: bool, dashed: bool)

  /** With `permute`, operands may precede options; otherwise the first operand ends the options. */
  function Read(opts: string, permute: bool, optopt: char, todo: seq<string>): Reading
    decreases |todo|
  {
    if todo == [] then Reading([], [], [], false, false)
    else if todo[0] == "--" then Reading([], ["--"], todo[1..], false, true)
    else if NonOption(todo[0]) then
      if permute then
        var r := Read(opts, permute, optopt, todo[1..]);
        r.(operands := [todo[0]] + r.operands)
      else Reading([], [], todo, false, false)
    else
      var c := ReadCluster(opts, optopt, todo[0][1..], todo[1..]);
      var r := Read(opts, permute, c.optopt, todo[1 + c.used..]);
      Reading(c.events + r.events, todo[..1 + c.used] + r.options, r.operands, c.missing || r.missing, r.dashed)
  }

  // ----- a reading is a stable partition

  /** todo is a merge of a and b that keeps the order of each. */
  ghost predicate Interleaves(todo: seq<string>, a: seq<string>, b: seq<string>)
    decreases |todo|
  {
    if todo == [] then a == [] && b == []
    else (
      || (a != [] && a[0] == todo[0] && Interleaves(todo[1..], a[1..], b))
      || (b != [] && b[0] == todo[0] && Interleaves(todo[1..], a, b[1..])))
  }

  lemma {:induction false} InterleavesRight(b: seq<string>)
    ensures Interleaves(b, [], b)
  {
    if b != [] { InterleavesRight(b[1..]); }
  }

  lemma {:induction false} InterleavesPrefix(p: seq<string>, todo: seq<string>, a: seq<string>, b: seq<string>)
    requires Interleaves(todo, a, b)
    ensures Interleaves(p + todo, p + a, b)
  {
    if p == [] {
      assert p + todo == todo && p + a == a;
    } else {
      InterleavesPrefix(p[1..], todo, a, b);
      assert (p + todo)[1..] == p[1..] + todo && (p + a)[1..] == p[1..] + a;
    }
  }

  lemma {:induction false} ReadIsStablePartition(opts: string, optopt: char, todo: seq<string>)
    ensures var r := Read(opts, true, optopt, todo); Interleaves(todo, r.options, r.operands)
    decreases |todo|
  {
    var r := Read(opts, true, optopt, todo);
    if todo == [] {
    } else if todo[0] == "--" {
      InterleavesRight(todo[1..]);
      assert r.options[1..] == [];
    } else if NonOption(todo[0]) {
      ReadIsStablePartition(opts, optopt, todo[1..]);
      assert r.operands[1..] == Read(opts, true, optopt, todo[1..]).operands;
    } else {
      var c := ReadCluster(opts, optopt, todo[0][1..], todo[1..]);
      var k := 1 + c.used;
      ReadIsStablePartition(opts, c.optopt, todo[k..]);
      var q := Read(opts, true, c.optopt, todo[k..]);
      InterleavesPrefix(todo[..k], todo[k..], q.options, q.operands);
      assert todo[..k] + todo[k..] == todo;
    }
  }

  // ----- runs follow the reading

  /** The state left by a whole option element. */
  function AfterCluster(s: State, c: Cluster): (t: State)
    requires s.optind + 1 + c.used <= |s.argv|
    ensures s.Valid() ==> t.Valid()
  {
    s.(next := "", optind := s.optind + 1 + c.used, optarg := None, optopt := c.optopt)
  }

  lemma UnfoldRun(opts: string, s: State)
    requires s.Valid()
    ensures var (t, code) := Call(opts, s);
      && (code == End ==> Run(opts, s) == ([], t))
      && (code != End ==> Run(opts, s) == ([Event(code, t.optarg, t.optopt)] + Run(opts, t).0, Run(opts, t).1))
  {
    hide Call;
  }

  lemma OptargIsReset(opts: string, s: State)
    requires s.Valid() && s.next == ""
    ensures Run(opts, s) == Run(opts, s.(optarg := None))
  {
    assert Call(opts, s) == Call(opts, s.(optarg := None));
  }

  /** One call inside an option element takes the first event of its reading. */
  lemma ScanMatches(opts: string, s: State)
    requires s.Valid() && s.next != ""
    ensures var c := ReadCluster(opts, s.optopt, s.next, s.argv[s.optind + 1..]);
      var (t, code) := Scan(opts, s);
      var e := Event(code, t.optarg, t.optopt);
      if t.next == "" then c.events == [e] && AfterCluster(s, c) == t.(optarg := None)
      else
        && t.argv == s.argv && t.optind == s.optind && |t.next| < |s.next|
        && var d := ReadCluster(opts, t.optopt, t.next, s.argv[s.optind + 1..]);
          c.events == [e] + d.events && AfterCluster(s, c) == AfterCluster(t, d)
  {
    hide Index;
    var after := s.argv[s.optind + 1..];
    assert after == [] <==> s.optind + 1 == |s.argv|;
    if after != [] { assert after[0] == s.argv[s.optind + 1]; }
  }

  lemma ScanRun(opts: string, s: State)
    requires s.Valid() && s.next != ""
    ensures var (t, code) := Scan(opts, s);
      Run(opts, s) == ([Event(code, t.optarg, t.optopt)] + Run(opts, t).0, Run(opts, t).1)
  {}

  lemma {:induction false} ClusterRun(opts: string, s: State)
    requires s.Valid() && s.next != ""
    ensures var c := ReadCluster(opts, s.optopt, s.next, s.argv[s.optind + 1..]);
      Run(opts, s) == (c.events + Run(opts, AfterCluster(s, c)).0, Run(opts, AfterCluster(s, c)).1)
    decreases |s.next|
  {
    hide ReadCluster, Scan, AfterCluster, Run, Call;
    var after := s.argv[s.optind + 1..];
    var c := ReadCluster(opts, s.optopt, s.next, after);
    var (t, code) := Scan(opts, s);
    var e := Event(code, t.optarg, t.optopt);
    ScanMatches(opts, s);
    ScanRun(opts, s);
    if t.next != "" {
      ClusterRun(opts, t);
      var d := ReadCluster(opts, t.optopt, t.next, after);
      var z := AfterCluster(t, d);
      assert [e] + (d.events + Run(opts, z).0) == ([e] + d.events) + Run(opts, z).0;
    } else {
      OptargIsReset(opts, t);
    }
  }

  /** Once the options seen last have been exchanged, argv is: finished prefix, operands
      skipped so far, the unread rest. */
  ghost predicate Settled(s: State, pre: seq<string>, non: seq<string>, rest: seq<string>): (b: bool)
    ensures b ==> s.Valid()
  {
    && |pre| >= 1 && s.argv == pre + non + rest
    && s.first == |pre| && s.last == s.optind == |pre| + |non|
    && s.next == "" && s.ordering == Permute && s.optarg == None
  }

  lemma SettledAdvance(s: State, pre: seq<string>, non: seq<string>, rest: seq<string>)
    requires Settled(s, pre, non, rest)
    ensures rest == [] || !NonOption(rest[0]) ==> Advance(s) == s
    ensures rest != [] && NonOption(rest[0]) ==>
      Advance(s) == Advance(s.(last := s.last + 1, optind := s.optind + 1))
  {
    if rest != [] { assert s.argv[s.optind] == rest[0]; }
  }

  lemma SameAdvance(opts: string, s: State, t: State)
    requires s.Valid() && t.Valid() && s.next == t.next == "" && s.optarg == t.optarg == None
    requires Advance(s) == Advance(t)
    ensures Run(opts, s) == Run(opts, t)
  {
    assert s.(optarg := None) == s && t.(optarg := None) == t;
    hide Advance, Proceed, Run;
    UnfoldRun(opts, s);
    UnfoldRun(opts, t);
  }

  /** A skipped operand changes nothing but the bounds. */
  lemma SkipOperand(opts: string, s: State, pre: seq<string>, non: seq<string>, rest: seq<string>)
    requires Settled(s, pre, non, rest) && rest != [] && NonOption(rest[0])
    ensures var t := s.(last := s.last + 1, optind := s.optind + 1);
      Settled(t, pre, non + [rest[0]], rest[1..]) && Run(opts, s) == Run(opts, t)
  {
    var t := s.(last := s.last + 1, optind := s.optind + 1);
    assert pre + (non + [rest[0]]) + rest[1..] == pre + non + ([rest[0]] + rest[1..]);
    hide Advance, Run;
    SettledAdvance(s, pre, non, rest);
    SameAdvance(opts, s, t);
  }

  /** Options read after skipped operands: the next call starts by exchanging the two blocks. */
  lemma Settle(opts: string, s: State, pre: seq<string>, non: seq<string>, recent: seq<string>, rest: seq<string>)
    requires s.Valid() && s.next == "" && s.ordering == Permute && s.optarg == None
    requires |pre| >= 1 && s.argv == pre + non + recent + rest
    requires s.first == |pre| && s.last == |pre| + |non| && s.optind == s.last + |recent|
    ensures var t := s.(argv := pre + recent + non + rest, first := |pre| + |recent|, last := s.optind);
      Settled(t, pre + recent, non, rest) && Run(opts, s) == Run(opts, t)
  {
    var a := s.argv;
    var t := s.(argv := pre + recent + non + rest, first := |pre| + |recent|, last := s.optind);
    assert a[..s.first] == pre && a[s.first..s.last] == non;
    assert a[s.last..s.optind] == recent && a[s.optind..] == rest;
    assert Exchanged(a, s.first, s.last, s.optind) == t.argv;
    if non == [] || recent == [] {
      assert a == t.argv;
    }
    RotatesTo(s, t);
    hide Advance, Run;
    SameAdvance(opts, s, t);
  }

  lemma RotatesTo(s: State, t: State)
    requires s.Valid() && s.next == "" && s.ordering == Permute && s.last <= s.optind
    requires t == s.(argv := t.argv, first := s.first + (s.optind - s.last), last := s.optind)
    requires t.argv == Exchanged(s.argv, s.first, s.last, s.optind)
    requires s.first == s.last || s.last == s.optind ==> t.argv == s.argv
    ensures t.Valid() && Advance(s) == Advance(t)
  {
    hide Exchanged, SkipNonOptions;
  }

  lemma CutDashes(pre: seq<string>, non: seq<string>, rest: seq<string>)
    requires rest != [] && rest[0] == "--"
    ensures var a, i := pre + non + rest, |pre| + |non|;
      && a[i] == "--" && Exchanged(a, |pre|, i, i + 1) == pre + ["--"] + non + rest[1..]
      && (non == [] ==> a == pre + ["--"] + non + rest[1..])
  {
    var a, i := pre + non + rest, |pre| + |non|;
    assert a[..|pre|] == pre && a[|pre|..i] == non && a[i..i + 1] == ["--"] && a[i + 1..] == rest[1..];
  }

  lemma DashesLayout(s: State, pre: seq<string>, non: seq<string>, rest: seq<string>)
    requires Settled(s, pre, non, rest) && rest != [] && rest[0] == "--"
    ensures s.optind < |s.argv| && s.argv[s.optind] == "--"
    ensures var u := PastDashes(s);
      && u.argv == pre + ["--"] + non + rest[1..]
      && (if u.first != u.last then u.first else u.optind) == |pre| + 1
  {
    hide Exchanged;
    CutDashes(pre, non, rest);
  }

  /** The "--" element joins the options and ends the run. */
  lemma DashesEndRun(opts: string, s: State, pre: seq<string>, non: seq<string>, rest: seq<string>)
    requires Settled(s, pre, non, rest) && rest != [] && rest[0] == "--"
    ensures Run(opts, s).0 == []
    ensures Run(opts, s).1.argv == pre + ["--"] + non + rest[1..]
    ensures Run(opts, s).1.optind == |pre| + 1
  {
    SettledAdvance(s, pre, non, rest);
    DashesLayout(s, pre, non, rest);
    assert s.(optarg := None) == s;
    hide Advance, Scan, PastDashes;
    assert Call(opts, s).1 == End;
  }

  /** An empty rest ends the run. */
  lemma NothingLeft(opts: string, s: State, pre: seq<string>, non: seq<string>)
    requires Settled(s, pre, non, [])
    ensures Run(opts, s).0 == [] && Run(opts, s).1.argv == pre + non && Run(opts, s).1.optind == |pre|
  {
    SettledAdvance(s, pre, non, []);
    hide Advance;
    assert s.(optarg := None) == s;
    assert pre + non + [] == pre + non;
  }

  lemma EnterElement(opts: string, s: State)
    requires s.Valid() && s.next == "" && s.optarg == None && Advance(s) == s
    requires s.optind < |s.argv| && s.argv[s.optind] != "--" && !NonOption(s.argv[s.optind])
    ensures Run(opts, s) == Run(opts, s.(next := s.argv[s.optind][1..]))
  {
    assert s.(optarg := None) == s;
    assert Call(opts, s) == Call(opts, s.(next := s.argv[s.optind][1..]));
  }

  /** An option element at optind is read whole; its argument, if any, is the element that follows. */
  lemma OptionElement(opts: string, s: State)
    requires s.Valid() && s.next == "" && s.optarg == None && Advance(s) == s
    requires s.optind < |s.argv| && s.argv[s.optind] != "--" && !NonOption(s.argv[s.optind])
    ensures var c := ReadCluster(opts, s.optopt, s.argv[s.optind][1..], s.argv[s.optind + 1..]);
      var t := s.(optind := s.optind + 1 + c.used, optopt := c.optopt);
      Run(opts, s) == (c.events + Run(opts, t).0, Run(opts, t).1)
  {
    hide Run, ReadCluster, Call;
    EnterElement(opts, s);
    ClusterRun(opts, s.(next := s.argv[s.optind][1..]));
  }

  lemma Splice(pre: seq<string>, non: seq<string>, rest: seq<string>, k: nat)
    requires 1 <= k <= |rest|
    ensures var a, i := pre + non + rest, |pre| + |non|;
      a[i] == rest[0] && a[i + 1..] == rest[1..] && a == pre + non + rest[..k] + rest[k..]
  {
    assert rest[..k] + rest[k..] == rest;
    assert pre + non + rest[..k] + rest[k..] == pre + non + (rest[..k] + rest[k..]);
  }

  /** The same, in a PERMUTE run with skipped operands; the exchange waits for the next call. */
  lemma OptionAfterOperands(opts: string, s: State, pre: seq<string>, non: seq<string>, rest: seq<string>)
      returns (k: nat, t: State)
    requires Settled(s, pre, non, rest) && rest != [] && !NonOption(rest[0]) && rest[0] != "--"
    ensures var c := ReadCluster(opts, s.optopt, rest[0][1..], rest[1..]);
      k == 1 + c.used <= |rest| && t.optopt == c.optopt && t.Valid()
      && Run(opts, s) == (c.events + Run(opts, t).0, Run(opts, t).1)
    ensures t.argv == pre + non + rest[..k] + rest[k..]
    ensures t.next == "" && t.ordering == Permute && t.optarg == None
    ensures t.first == |pre| >= 1 && t.last == |pre| + |non| && t.optind == t.last + k
  {
    hide Run, ReadCluster, Advance;
    SettledAdvance(s, pre, non, rest);
    var c := ReadCluster(opts, s.optopt, rest[0][1..], rest[1..]);
    k, t := 1 + c.used, s.(optind := s.optind + 1 + c.used, optopt := c.optopt);
    Splice(pre, non, rest, k);
    OptionElement(opts, s);
  }

  lemma OptionThenSettle(opts: string, s: State, pre: seq<string>, non: seq<string>, rest: seq<string>)
      returns (k: nat, u: State)
    requires Settled(s, pre, non, rest) && rest != [] && !NonOption(rest[0]) && rest[0] != "--"
    ensures var c := ReadCluster(opts, s.optopt, rest[0][1..], rest[1..]);
      k == 1 + c.used <= |rest| && u.optopt == c.optopt && u.Valid()
      && Run(opts, s) == (c.events + Run(opts, u).0, Run(opts, u).1)
    ensures Settled(u, pre + rest[..k], non, rest[k..])
  {
    hide Run, ReadCluster, Settled;
    var t: State;
    k, t := OptionAfterOperands(opts, s, pre, non, rest);
    Settle(opts, t, pre, non, rest[..k], rest[k..]);
    u := t.(argv := pre + rest[..k] + non + rest[k..], first := |pre| + k, last := t.optind);
  }

  /** The run from s reports the events of the reading of rest, and moves its options before
      the operands. */
  ghost predicate RunFollows(opts: string, s: State, pre: seq<string>, non: seq<string>, rest: seq<string>)
    requires s.Valid()
  {
    var r := Read(opts, true, s.optopt, rest);
    var (events, final) := Run(opts, s);
    && events == r.events
    && final.argv == pre + r.options + non + r.operands
    && final.optind == |pre| + |r.options|
  }

  lemma OperandFollows(opts: string, s: State, t: State, pre: seq<string>, non: seq<string>, rest: seq<string>)
    requires s.Valid() && t.Valid() && s.optopt == t.optopt && Run(opts, s) == Run(opts, t)
    requires rest != [] && rest[0] != "--" && NonOption(rest[0])
    requires RunFollows(opts, t, pre, non + [rest[0]], rest[1..])
    ensures RunFollows(opts, s, pre, non, rest)
  {
    hide Run;
  }

  lemma OptionFollows(opts: string, s: State, t: State, pre: seq<string>, non: seq<string>, rest: seq<string>)
    requires s.Valid() && t.Valid() && rest != [] && !NonOption(rest[0]) && rest[0] != "--"
    requires var c := ReadCluster(opts, s.optopt, rest[0][1..], rest[1..]);
      var k := 1 + c.used;
      && t.optopt == c.optopt && RunFollows(opts, t, pre + rest[..k], non, rest[k..])
      && Run(opts, s) == (c.events + Run(opts, t).0, Run(opts, t).1)
    ensures RunFollows(opts, s, pre, non, rest)
  {
    hide Run, ReadCluster;
  }

  lemma {:induction false} PermuteRunFrom(opts: string, s: State, pre: seq<string>, non: seq<string>, rest: seq<string>)
    requires Settled(s, pre, non, rest)
    ensures RunFollows(opts, s, pre, non, rest)
    decreases |rest|
  {
    hide Run, ReadCluster, Settled;
    if rest == [] {
      NothingLeft(opts, s, pre, non);
    } else if rest[0] == "--" {
      DashesEndRun(opts, s, pre, non, rest);
    } else {
      hide RunFollows;
      if NonOption(rest[0]) {
        SkipOperand(opts, s, pre, non, rest);
        var t := s.(last := s.last + 1, optind := s.optind + 1);
        PermuteRunFrom(opts, t, pre, non + [rest[0]], rest[1..]);
        OperandFollows(opts, s, t, pre, non, rest);
      } else {
        var k, u := OptionThenSettle(opts, s, pre, non, rest);
        PermuteRunFrom(opts, u, pre + rest[..k], non, rest[k..]);
        OptionFollows(opts, s, u, pre, non, rest);
      }
    }
  }

  /** The state of a first call: nothing skipped, nothing pending. */
  function Fresh(argv: seq<string>, optind: nat, ordering: Ordering, optopt: char): (s: State)
    ensures 1 <= optind <= |argv| ==> s.Valid()
  {
    State(argv, optind, "", optind, optind, ordering, None, optopt)
  }

  /** A PERMUTE run: the reported events are those of the reading of argv, and argv ends as
      the options with their arguments, then the operands, with optind at the first operand. */
  lemma PermuteRun(opts: string, argv: seq<string>, optind: nat, optopt: char)
    requires 1 <= optind <= |argv|
    ensures var r := Read(opts, true, optopt, argv[optind..]);
      var (events, final) := Run(opts, Fresh(argv, optind, Permute, optopt));
      && events == r.events
      && final.argv == argv[..optind] + r.options + r.operands
      && final.optind == optind + |r.options|
      && Interleaves(argv[optind..], r.options, r.operands)
  {
    hide Run, Read, Interleaves;
    var s := Fresh(argv, optind, Permute, optopt);
    assert argv == argv[..optind] + [] + argv[optind..];
    PermuteRunFrom(opts, s, argv[..optind], [], argv[optind..]);
    DropEmpty(argv[..optind], Read(opts, true, optopt, argv[optind..]));
    ReadIsStablePartition(opts, optopt, argv[optind..]);
  }

  lemma DropEmpty(pre: seq<string>, r: Reading)
    ensures pre + r.options + [] + r.operands == pre + r.options + r.operands
  {}

  // ----- REQUIRE_ORDER runs, and why permuting first is the same

  lemma {:induction false} RequireOrderRunFrom(opts: string, s: State, todo: seq<string>)
    requires s.Valid() && s.next == "" && s.ordering == RequireOrder && s.optarg == None
    requires s.first == s.last <= s.optind && todo == s.argv[s.optind..]
    ensures var r := Read(opts, false, s.optopt, todo);
      var (events, final) := Run(opts, s);
      events == r.events && final.argv == s.argv && final.optind == s.optind + |r.options|
    decreases |todo|
  {
    hide Run, ReadCluster, Advance, Read;
    if todo == [] || todo[0] == "--" || NonOption(todo[0]) {
      StopsHere(opts, s);
      ReadStops(opts, s.optopt, todo);
    } else {
      NotPermuted(s);
      ReadElement(opts, false, s.optopt, todo);
      assert s.argv[s.optind + 1..] == todo[1..];
      OptionElement(opts, s);
      var c := ReadCluster(opts, s.optopt, todo[0][1..], todo[1..]);
      var v := s.(optind := s.optind + 1 + c.used, optopt := c.optopt);
      RequireOrderRunFrom(opts, v, v.argv[v.optind..]);
      assert v.argv[v.optind..] == todo[1 + c.used..];
    }
  }

  lemma ReadStops(opts: string, optopt: char, todo: seq<string>)
    requires todo == [] || todo[0] == "--" || NonOption(todo[0])
    ensures var r := Read(opts, false, optopt, todo);
      r.events == [] && |r.options| == if todo != [] && todo[0] == "--" then 1 else 0
  {}

  lemma NotPermuted(s: State)
    requires s.Valid() && s.next == "" && s.ordering != Permute && s.first == s.last <= s.optind
    ensures Advance(s) == s
  {}

  lemma StopsHere(opts: string, s: State)
    requires s.Valid() && s.next == "" && s.ordering == RequireOrder && s.optarg == None
    requires s.first == s.last <= s.optind
    requires s.optind == |s.argv| || NonOption(s.argv[s.optind]) || s.argv[s.optind] == "--"
    ensures Run(opts, s).0 == [] && Run(opts, s).1.argv == s.argv
    ensures Run(opts, s).1.optind
         == if s.optind < |s.argv| && s.argv[s.optind] == "--" then s.optind + 1 else s.optind
  {
    assert Advance(s) == s && s.(optarg := None) == s;
  }

  /** The reading of an option element depends on what follows only through the argument it takes. */
  lemma {:induction false} ClusterCongruence(opts: string, optopt: char, letters: string, x: seq<string>,
                                             y: seq<string>)
    requires letters != ""
    requires var c := ReadCluster(opts, optopt, letters, x);
      && (c.used == 1 ==> y != [] && y[0] == x[0])
      && (c.missing ==> y == [])
    ensures ReadCluster(opts, optopt, letters, y) == ReadCluster(opts, optopt, letters, x)
    decreases |letters|
  {
    var c, rest := letters[0], letters[1..];
    if rest != "" {
      match KindOf(opts, c) {
        case Unknown => ClusterCongruence(opts, c, rest, x, y);
        case NoArgument => ClusterCongruence(opts, optopt, rest, x, y);
        case OptionalArgument =>
        case RequiredArgument =>
      }
    }
  }

  /** A missing argument is found as soon as something follows. */
  lemma {:induction false} ClusterFindsArgument(opts: string, optopt: char, letters: string, y: seq<string>)
    requires letters != "" && ReadCluster(opts, optopt, letters, []).missing && y != []
    ensures ReadCluster(opts, optopt, letters, y).used == 1
    decreases |letters|
  {
    var c, rest := letters[0], letters[1..];
    if rest != "" {
      match KindOf(opts, c) {
        case Unknown => ClusterFindsArgument(opts, c, rest, y);
        case NoArgument => ClusterFindsArgument(opts, optopt, rest, y);
        case OptionalArgument =>
        case RequiredArgument =>
      }
    }
  }

  lemma {:induction false} OperandsStopOptions(opts: string, optopt: char, todo: seq<string>)
    ensures var r := Read(opts, true, optopt, todo);
      r.dashed || r.operands == [] || NonOption(r.operands[0])
    decreases |todo|
  {
    if todo != [] && todo[0] != "--" && !NonOption(todo[0]) {
      var c := ReadCluster(opts, optopt, todo[0][1..], todo[1..]);
      OperandsStopOptions(opts, c.optopt, todo[1 + c.used..]);
    } else if todo != [] && todo[0] != "--" {
      OperandsStopOptions(opts, optopt, todo[1..]);
    }
  }

  /** The options of a PERMUTE reading, followed by anything that stops option reading, are read
      in order as the same options, unless a missing argument now finds one. */
  lemma {:induction false} ReadWithTail(opts: string, optopt: char, todo: seq<string>, tail: seq<string>)
    requires Read(opts, true, optopt, todo).dashed || tail == [] || NonOption(tail[0])
    ensures var r := Read(opts, true, optopt, todo);
      var q := Read(opts, false, optopt, r.options + tail);
      if r.missing && tail != [] then |q.options| > |r.options| else q == r.(operands := tail)
    decreases |todo|
  {
    var r := Read(opts, true, optopt, todo);
    if todo == [] {
      assert r.options + tail == tail;
    } else if todo[0] == "--" {
      assert (r.options + tail)[1..] == tail;
    } else if NonOption(todo[0]) {
      ReadWithTail(opts, optopt, todo[1..], tail);
    } else {
      var c := ReadCluster(opts, optopt, todo[0][1..], todo[1..]);
      var k := 1 + c.used;
      ReadWithTail(opts, c.optopt, todo[k..], tail);
      FirstOptionElement(opts, optopt, todo, tail);
    }
  }

  lemma NothingRead(opts: string, optopt: char)
    ensures Read(opts, true, optopt, []) == Reading([], [], [], false, false)
  {}

  lemma ReadElement(opts: string, permute: bool, optopt: char, todo: seq<string>)
    requires todo != [] && todo[0] != "--" && !NonOption(todo[0])
    ensures var c := ReadCluster(opts, optopt, todo[0][1..], todo[1..]);
      var k := 1 + c.used;
      var r := Read(opts, permute, c.optopt, todo[k..]);
      Read(opts, permute, optopt, todo)
        == Reading(c.events + r.events, todo[..k] + r.options, r.operands, c.missing || r.missing, r.dashed)
  {}

  lemma CutElement(todo: seq<string>, k: nat, options: seq<string>, tail: seq<string>)
    requires 1 <= k <= 2 && k <= |todo|
    ensures var a := (todo[..k] + options) + tail;
      a[0] == todo[0] && a[..k] == todo[..k] && a[k..] == options + tail && (k == 2 ==> a[1] == todo[1])
  {}

  lemma FirstOptionElement(opts: string, optopt: char, todo: seq<string>, tail: seq<string>)
    requires todo != [] && todo[0] != "--" && !NonOption(todo[0])
    requires var c := ReadCluster(opts, optopt, todo[0][1..], todo[1..]);
      var r := Read(opts, true, c.optopt, todo[1 + c.used..]);
      var q := Read(opts, false, c.optopt, r.options + tail);
      if r.missing && tail != [] then |q.options| > |r.options| else q == r.(operands := tail)
    ensures var r := Read(opts, true, optopt, todo);
      var q := Read(opts, false, optopt, r.options + tail);
      if r.missing && tail != [] then |q.options| > |r.options| else q == r.(operands := tail)
  {
    hide ReadCluster, Read;
    ReadElement(opts, true, optopt, todo);
    var letters := todo[0][1..];
    var c := ReadCluster(opts, optopt, letters, todo[1..]);
    var k := 1 + c.used;
    var r' := Read(opts, true, c.optopt, todo[k..]);
    var a := (todo[..k] + r'.options) + tail;
    CutElement(todo, k, r'.options, tail);
    ReadElement(opts, false, optopt, a);
    if c.missing {
      NothingRead(opts, c.optopt);
      assert k == 1 && todo == [todo[0]] && todo[k..] == [];
      assert r'.options == [] && a[1..] == tail;
      if tail != [] {
        ClusterFindsArgument(opts, optopt, letters, tail);
      }
    }
    if !(c.missing && tail != []) {
      ClusterCongruence(opts, optopt, letters, todo[1..], a[1..]);
    }
  }

  /** POSIX order is enough after permuting: getopt in REQUIRE_ORDER mode on the argv a PERMUTE
      run left behind reports the same events and the same final optind, exactly unless an
      option at the end lacked its argument while operands had been skipped. */
  lemma PermutedArgvInOrder(opts: string, argv: seq<string>, optind: nat, optopt: char)
    requires 1 <= optind <= |argv|
    ensures var (events, final) := Run(opts, Fresh(argv, optind, Permute, optopt));
      var (events', final') := Run(opts, Fresh(final.argv, optind, RequireOrder, optopt));
      var r := Read(opts, true, optopt, argv[optind..]);
      && final'.argv == final.argv
      && (events' == events && final'.optind == final.optind <==> !(r.missing && r.operands != []))
  {
    hide Run, Read, Interleaves;
    PermuteRun(opts, argv, optind, optopt);
    var r := Read(opts, true, optopt, argv[optind..]);
    var a := argv[..optind] + r.options + r.operands;
    assert a[optind..] == r.options + r.operands;
    RequireOrderRunFrom(opts, Fresh(a, optind, RequireOrder, optopt), r.options + r.operands);
    OperandsStopOptions(opts, optopt, argv[optind..]);
    ReadWithTail(opts, optopt, argv[optind..], r.operands);
  }

  /** Such a case: `a:` on x -a. Permuting gives -a x, in which x is the argument of -a. */
  lemma PermutedArgvDiffers(argv: seq<string>, optopt: char)
    requires argv == ["p", "x", "-a"]
    ensures var (events, final) := Run("a:", Fresh(argv, 1, Permute, optopt));
      var (events', final') := Run("a:", Fresh(final.argv, 1, RequireOrder, optopt));
      final.argv == ["p", "-a", "x"] && !(events' == events && final'.optind == final.optind)
  {
    LastLacksArgument(argv, optopt);
    hide *;
    PermutedArgvInOrder("a:", argv, 1, optopt);
  }

  lemma LastLacksArgument(argv: seq<string>, optopt: char)
    requires argv == ["p", "x", "-a"]
    ensures var r := Read("a:", true, optopt, argv[1..]);
      r.missing && r.operands != [] && Run("a:", Fresh(argv, 1, Permute, optopt)).1.argv == ["p", "-a", "x"]
  {
    FirstOfThree(argv, "p", "x", "-a");
    hide *;
    ReadsOperandFirst(optopt);
    PermuteRun("a:", argv, 1, optopt);
    ThreeTogether("p", "-a", "x");
  }

  lemma FirstOfThree<T>(argv: seq<T>, a: T, b: T, c: T)
    requires argv == [a, b, c]
    ensures argv[..1] == [a] && argv[1..] == [b, c]
  {}

  lemma ThreeTogether<T>(a: T, b: T, c: T)
    ensures [a] + [b] + [c] == [a, b, c]
  {}

  lemma ReadsMissing(optopt: char)
    ensures var r := Read("a:", true, optopt, ["-a"]); r.missing && r.options == ["-a"] && r.operands == []
  {
    assert KindOf("a:", 'a') == RequiredArgument;
    hide KindOf;
    assert "-a"[1..] == "a" && ["-a"][1..] == [] && ["-a"][..1] == ["-a"];
  }

  lemma ReadsOperandFirst(optopt: char)
    ensures var r := Read("a:", true, optopt, ["x", "-a"]); r.missing && r.options == ["-a"] && r.operands == ["x"]
  {
    ReadsMissing(optopt);
    hide ReadCluster;
    assert ["x", "-a"][1..] == ["-a"];
  }

  // ----- the part not yet scanned

  /** The state after so many calls, if none of them returned -1. */
  function Reached(opts: string, s: State, calls: nat): (r: Option<State>)
    requires s.Valid()
    ensures r.Some? ==> r.value.Valid() && |r.value.argv| == |s.argv|
    decreases calls
  {
    if calls == 0 then Some(s)
    else if Call(opts, s).1 == End then None
    else Reached(opts, Call(opts, s).0, calls - 1)
  }

  lemma CallKeepsUnscanned(opts: string, s: State)
    requires s.Valid() && Call(opts, s).1 != End
    ensures Call(opts, s).0.argv[s.optind..] == s.argv[s.optind..] && Call(opts, s).0.optind >= s.optind
  {
    if s.next == "" {
      var t := Advance(s.(optarg := None));
      assert t.argv[s.optind..] == s.argv[s.optind..];
      hide Advance;
    }
  }

  /** At any point of a run, in any mode, the elements from optind on are still the original ones. */
  lemma {:induction false} UnscannedUntouched(opts: string, s: State, calls: nat)
    requires s.Valid()
    ensures var r := Reached(opts, s, calls);
      r.Some? ==> r.value.optind >= s.optind && r.value.argv[r.value.optind..] == s.argv[r.value.optind..]
    decreases calls
  {
    hide Call;
    if calls > 0 && Call(opts, s).1 != End {
      CallKeepsUnscanned(opts, s);
      var t := Call(opts, s).0;
      UnscannedUntouched(opts, t, calls - 1);
      var r := Reached(opts, t, calls - 1);
      if r.Some? { LaterSuffix(t.argv, s.argv, s.optind, r.value.optind); }
    }
  }

  lemma LaterSuffix(a: seq<string>, b: seq<string>, i: nat, j: nat)
    requires i <= j <= |a| == |b| && a[i..] == b[i..]
    ensures a[j..] == b[j..]
  {
    assert a[j..] == a[i..][j - i..] && b[j..] == b[i..][j - i..];
  }

  // ----- RETURN_IN_ORDER runs

  /** Every operand is reported where it stands, as the argument of an option with code 1. */
  function ReadInOrder(opts: string, optopt: char, todo: seq<string>): (seq<Event>, nat)
    decreases |todo|
  {
    if todo == [] then ([], 0)
    else if todo[0] == "--" then ([], 1)
    else if NonOption(todo[0]) then
      var (events, n) := ReadInOrder(opts, optopt, todo[1..]);
      ([Event(InOrder, Some(todo[0]), optopt)] + events, n + 1)
    else
      var c := ReadCluster(opts, optopt, todo[0][1..], todo[1..]);
      var (events, n) := ReadInOrder(opts, c.optopt, todo[1 + c.used..]);
      (c.events + events, n + 1 + c.used)
  }

  lemma {:induction false} ReturnInOrderRun(opts: string, s: State, todo: seq<string>)
    requires s.Valid() && s.next == "" && s.ordering == ReturnInOrder && s.optarg == None
    requires s.first == s.last <= s.optind && todo == s.argv[s.optind..]
    ensures RunsInOrder(opts, s, todo)
    decreases |todo|
  {
    hide Run, Call, ReadCluster, Advance, ReadInOrder, RunsInOrder;
    if todo == [] || todo[0] == "--" {
      NothingInOrder(opts, s, todo);
    } else if NonOption(todo[0]) {
      ReturnInOrderRun(opts, s.(optind := s.optind + 1), todo[1..]);
      OperandRunsInOrder(opts, s, todo);
    } else {
      var c := ReadCluster(opts, s.optopt, todo[0][1..], todo[1..]);
      var v := s.(optind := s.optind + 1 + c.used, optopt := c.optopt);
      assert v.argv[v.optind..] == todo[1 + c.used..];
      ReturnInOrderRun(opts, v, todo[1 + c.used..]);
      ElementRunsInOrder(opts, s, todo, c);
    }
  }

  /** The run from s reports what the reading of the rest says, and leaves argv alone. */
  ghost predicate RunsInOrder(opts: string, s: State, todo: seq<string>)
    requires s.Valid()
  {
    var r := ReadInOrder(opts, s.optopt, todo);
    var final := Run(opts, s).1;
    && Run(opts, s).0 == r.0 && final.argv == s.argv && final.optind == s.optind + r.1
    && (final.optind == |s.argv| || (final.optind > 0 && s.argv[final.optind - 1] == "--"))
  }

  lemma NothingInOrder(opts: string, s: State, todo: seq<string>)
    requires s.Valid() && s.next == "" && s.ordering == ReturnInOrder && s.optarg == None
    requires s.first == s.last <= s.optind && todo == s.argv[s.optind..]
    requires todo == [] || todo[0] == "--"
    ensures RunsInOrder(opts, s, todo)
  {
    hide Run, Call, ReadInOrder;
    InOrderEnds(opts, s);
    InOrderStops(opts, s.optopt, todo);
  }

  lemma OperandRunsInOrder(opts: string, s: State, todo: seq<string>)
    requires s.Valid() && s.next == "" && s.ordering == ReturnInOrder && s.optarg == None
    requires s.first == s.last <= s.optind && todo == s.argv[s.optind..]
    requires todo != [] && todo[0] != "--" && NonOption(todo[0])
    requires RunsInOrder(opts, s.(optind := s.optind + 1), todo[1..])
    ensures RunsInOrder(opts, s, todo)
  {
    hide Run, Call, ReadInOrder;
    InOrderOperand(opts, s);
    OperandInOrder(opts, s.optopt, todo);
  }

  lemma ElementRunsInOrder(opts: string, s: State, todo: seq<string>, c: Cluster)
    requires s.Valid() && s.next == "" && s.ordering == ReturnInOrder && s.optarg == None
    requires s.first == s.last <= s.optind && todo == s.argv[s.optind..]
    requires todo != [] && todo[0] != "--" && !NonOption(todo[0])
    requires c == ReadCluster(opts, s.optopt, todo[0][1..], todo[1..])
    requires RunsInOrder(opts, s.(optind := s.optind + 1 + c.used, optopt := c.optopt), todo[1 + c.used..])
    ensures RunsInOrder(opts, s, todo)
  {
    hide Run, Call, ReadCluster, Advance, ReadInOrder;
    NotPermuted(s);
    OptionElement(opts, s);
    ElementInOrder(opts, s.optopt, todo);
    assert s.argv[s.optind + 1..] == todo[1..];
  }

  lemma InOrderStops(opts: string, optopt: char, todo: seq<string>)
    requires todo == [] || todo[0] == "--"
    ensures ReadInOrder(opts, optopt, todo) == ([], if todo == [] then 0 else 1)
  {}

  lemma OperandInOrder(opts: string, optopt: char, todo: seq<string>)
    requires todo != [] && todo[0] != "--" && NonOption(todo[0])
    ensures var r := ReadInOrder(opts, optopt, todo[1..]);
      ReadInOrder(opts, optopt, todo) == ([Event(InOrder, Some(todo[0]), optopt)] + r.0, r.1 + 1)
  {}

  lemma ElementInOrder(opts: string, optopt: char, todo: seq<string>)
    requires todo != [] && todo[0] != "--" && !NonOption(todo[0])
    ensures var c := ReadCluster(opts, optopt, todo[0][1..], todo[1..]);
      var r := ReadInOrder(opts, c.optopt, todo[1 + c.used..]);
      ReadInOrder(opts, optopt, todo) == (c.events + r.0, r.1 + 1 + c.used)
  {}

  lemma InOrderEnds(opts: string, s: State)
    requires s.Valid() && s.next == "" && s.ordering == ReturnInOrder && s.first == s.last <= s.optind
    requires s.optind == |s.argv| || s.argv[s.optind] == "--"
    ensures Run(opts, s).0 == [] && Run(opts, s).1.argv == s.argv
    ensures Run(opts, s).1.optind == if s.optind < |s.argv| then s.optind + 1 else s.optind
  {}

  lemma CallOnOperand(opts: string, s: State) returns (t: State)
    requires s.Valid() && s.next == "" && s.ordering == ReturnInOrder && s.optarg == None
    requires s.first == s.last <= s.optind
    requires s.optind < |s.argv| && s.argv[s.optind] != "--" && NonOption(s.argv[s.optind])
    ensures t == s.(optind := s.optind + 1, optarg := Some(s.argv[s.optind]))
    ensures Call(opts, s) == (t, InOrder)
  {
    NotPermuted(s);
    assert s.(optarg := None) == s;
    hide Advance, Scan;
    t := s.(optind := s.optind + 1, optarg := Some(s.argv[s.optind]));
  }

  lemma InOrderOperand(opts: string, s: State)
    requires s.Valid() && s.next == "" && s.ordering == ReturnInOrder && s.optarg == None
    requires s.first == s.last <= s.optind
    requires s.optind < |s.argv| && s.argv[s.optind] != "--" && NonOption(s.argv[s.optind])
    ensures var t := s.(optind := s.optind + 1);
      Run(opts, s) == ([Event(InOrder, Some(s.argv[s.optind]), s.optopt)] + Run(opts, t).0, Run(opts, t).1)
  {
    var t := CallOnOperand(opts, s);
    OptargIsReset(opts, t);
    hide Call, Run;
    UnfoldRun(opts, s);
  }

  // ----- the caller's loop, whose first call drops a leading '-' or '+' from the option string

  /** Calls until -1: the first with option string `opts0`, the others with `opts`. */
  ghost predicate ReadsAll(opts: string, opts0: string, s: State, events: seq<Event>, final: State)
    requires s.Valid()
  {
    var (t, code) := Call(opts0, s);
    if code == End then events == [] && final == t
    else var (later, f) := Run(opts, t); events == [Event(code, t.optarg, t.optopt)] + later && final == f
  }

  lemma ReadsAllIsRun(opts: string, s: State, events: seq<Event>, final: State)
    requires s.Valid() && ReadsAll(opts, opts, s, events, final)
    ensures Run(opts, s) == (events, final)
  {
    hide Call;
  }

  /** Two option strings declare the letters of some text alike. */
  predicate SameLetters(o1: string, o2: string, text: string) {
    forall k | 0 <= k < |text| :: KindOf(o1, text[k]) == KindOf(o2, text[k])
  }

  /** They agree on all that scanning an argument vector can look up. */
  predicate SameFor(o1: string, o2: string, argv: seq<string>) {
    && (":" <= o1 <==> ":" <= o2)
    && forall k | 0 <= k < |argv| :: argv[k] != "" ==> SameLetters(o1, o2, argv[k][1..])
  }

  /** Dropping the leading '-' or '+' makes a difference in two ways only: it is a letter of the full
      string, and a colon after it is no longer the first character. */
  lemma LeadingLetter(x: char, opts: string, argv: seq<string>)
    requires x != ':' && !(":" <= opts)
    requires forall k | 0 <= k < |argv| :: argv[k] != "" ==> x !in argv[k][1..]
    ensures SameFor([x] + opts, opts, argv)
  {
    assert !(":" <= [x] + opts) by { assert ([x] + opts)[0] == x; }
    forall k, j | 0 <= k < |argv| && argv[k] != "" && 0 <= j < |argv[k][1..]|
      ensures KindOf([x] + opts, argv[k][1..][j]) == KindOf(opts, argv[k][1..][j])
    {
      OtherLetter(x, opts, argv[k][1..][j]);
    }
  }

  lemma OtherLetter(x: char, opts: string, c: char)
    requires c != x
    ensures KindOf([x] + opts, c) == KindOf(opts, c)
  {
    assert ([x] + opts)[1..] == opts;
    assert Index([x] + opts, c) == Index(opts, c);
  }

  lemma SameScan(o1: string, o2: string, s: State)
    requires s.Valid() && s.next != "" && SameLetters(o1, o2, s.next) && (":" <= o1 <==> ":" <= o2)
    ensures Scan(o1, s) == Scan(o2, s) && SameLetters(o1, o2, Scan(o1, s).0.next)
  {
    hide KindOf;
  }

  lemma SameCall(o1: string, o2: string, s: State)
    requires s.Valid() && SameFor(o1, o2, s.argv) && SameLetters(o1, o2, s.next)
    ensures Call(o1, s) == Call(o2, s)
    ensures SameFor(o1, o2, Call(o1, s).0.argv) && SameLetters(o1, o2, Call(o1, s).0.next)
  {
    hide Scan, SameLetters;
    if s.next != "" {
      SameScan(o1, o2, s);
    } else {
      var t := Advance(s.(optarg := None));
      var u := if t.optind != |t.argv| && t.argv[t.optind] == "--" then PastDashes(t) else t;
      SameVector(o1, o2, s);
      hide Advance, PastDashes;
      if u.optind != |u.argv| && !NonOption(u.argv[u.optind]) {
        SameScan(o1, o2, u.(next := u.argv[u.optind][1..]));
      }
    }
  }

  /** Exchanging blocks brings no new elements. */
  lemma SameExchanged(o1: string, o2: string, a: seq<string>, first: nat, last: nat, top: nat)
    requires first <= last <= top <= |a| && SameFor(o1, o2, a)
    ensures SameFor(o1, o2, Exchanged(a, first, last, top))
  {
    hide SameLetters;
    var e := Exchanged(a, first, last, top);
    forall k | 0 <= k < |e| && e[k] != "" ensures SameLetters(o1, o2, e[k][1..]) {
      var j := if first <= k < first + (top - last) then k - first + last
        else if first + (top - last) <= k < top then k - (top - last) else k;
      assert e[k] == a[j];
    }
  }

  lemma SameVector(o1: string, o2: string, s: State)
    requires s.Valid() && s.next == "" && SameFor(o1, o2, s.argv)
    ensures var t := Advance(s.(optarg := None));
      var u := if t.optind != |t.argv| && t.argv[t.optind] == "--" then PastDashes(t) else t;
      SameFor(o1, o2, u.argv) && u.next == "" && SameLetters(o1, o2, "")
  {
    var s0 := s.(optarg := None);
    SameAdvanced(o1, o2, s0);
    var t := Advance(s0);
    hide Advance, SameFor;
    if t.optind != |t.argv| && t.argv[t.optind] == "--" { SamePastDashes(o1, o2, t); }
  }

  lemma SameAdvanced(o1: string, o2: string, s: State)
    requires s.Valid() && s.next == "" && SameFor(o1, o2, s.argv)
    ensures SameFor(o1, o2, Advance(s).argv)
  {
    hide SkipNonOptions, SameFor, Exchanged;
    var c := Clamp(s);
    if c.first != c.last && c.last != c.optind { SameExchanged(o1, o2, c.argv, c.first, c.last, c.optind); }
  }

  lemma SamePastDashes(o1: string, o2: string, s: State)
    requires s.Valid() && s.next == "" && s.optind < |s.argv| && s.last <= s.optind && SameFor(o1, o2, s.argv)
    ensures SameFor(o1, o2, PastDashes(s).argv)
  {
    hide SameFor, Exchanged;
    SameExchanged(o1, o2, s.argv, s.first, s.last, s.optind + 1);
  }

  lemma {:induction false} SameRun(o1: string, o2: string, s: State)
    requires s.Valid() && SameFor(o1, o2, s.argv) && SameLetters(o1, o2, s.next)
    ensures Run(o1, s) == Run(o2, s)
    decreases |s.argv| - s.optind, Pending(s)
  {
    SameCall(o1, o2, s);
    hide Call, SameFor, SameLetters, Pending;
    var (t, code) := Call(o1, s);
    if code != End { SameRun(o1, o2, t); }
  }

  // ----- whole runs from the first call, in each mode

  /** What a run reports and leaves behind, told from the vector it started with. */
  ghost predicate Reads(opts: string, s: State, events: seq<Event>, final: State)
    requires s.Valid()
  {
    var todo := s.argv[s.optind..];
    match s.ordering
    case Permute =>
      var r := Read(opts, true, s.optopt, todo);
      && events == r.events && final.argv == s.argv[..s.optind] + r.options + r.operands
      && final.optind == s.optind + |r.options| && Interleaves(todo, r.options, r.operands)
    case RequireOrder =>
      var r := Read(opts, false, s.optopt, todo);
      events == r.events && final.argv == s.argv && final.optind == s.optind + |r.options|
    case ReturnInOrder =>
      var r := ReadInOrder(opts, s.optopt, todo);
      events == r.0 && final.argv == s.argv && final.optind == s.optind + r.1
  }

  lemma RunReads(opts: string, s: State)
    requires s.Valid() && s.next == "" && s.first == s.last == s.optind
    ensures Reads(opts, s, Run(opts, s).0, Run(opts, s).1)
  {
    hide Run, Read, ReadInOrder, Interleaves;
    OptargIsReset(opts, s);
    var t := s.(optarg := None);
    match s.ordering
    case Permute =>
      assert t == Fresh(s.argv, s.optind, Permute, s.optopt);
      PermuteRun(opts, s.argv, s.optind, s.optopt);
    case RequireOrder => RequireOrderRunFrom(opts, t, s.argv[s.optind..]);
    case ReturnInOrder => ReturnInOrderRun(opts, t, s.argv[s.optind..]);
  }

  /** The letter x selects the mode and nothing else: no element contains it as a letter, and the
      option string after it does not begin with a colon. */
  ghost predicate OnlySelects(x: char, opts: string, argv: seq<string>) {
    x != ':' && !(":" <= opts) && forall k | 0 <= k < |argv| :: argv[k] != "" ==> x !in argv[k][1..]
  }

  /** The caller's loop means the reading of the vector: with an option string that selects no mode
      always, with one that does as long as its first letter does nothing else. */
  lemma WholeRun(optstring: string, opts: string, s: State, events: seq<Event>, final: State)
    requires s.Valid() && s.next == "" && s.first == s.last == s.optind
    requires ReadsAll(optstring, opts, s, events, final)
    requires optstring == opts || (optstring != "" && opts == optstring[1..] && OnlySelects(optstring[0], opts, s.argv))
    ensures Reads(opts, s, events, final)
  {
    if optstring != opts {
      LeadingLetter(optstring[0], opts, s.argv);
      assert optstring == [optstring[0]] + opts;
      SecondCallOn(optstring, opts, s, events, final);
    }
    hide ReadsAll, Run, Reads, OnlySelects;
    ReadsAllIsRun(opts, s, events, final);
    RunReads(opts, s);
  }

  lemma SecondCallOn(optstring: string, opts: string, s: State, events: seq<Event>, final: State)
    requires s.Valid() && s.next == "" && SameFor(optstring, opts, s.argv)
    requires ReadsAll(optstring, opts, s, events, final)
    ensures ReadsAll(opts, opts, s, events, final)
  {
    hide Call, Run, SameFor;
    SameCall(optstring, opts, s);
    var (t, code) := Call(opts, s);
    if code != End { SameRun(optstring, opts, t); }
  }

  ghost predicate HasRequired(opts: string) {
    exists c: char :: KindOf(opts, c) == RequiredArgument
  }

  /** The caller's loop from s, whose first call drops the mode letter, reports and leaves what it
      would if every call dropped it. */
  ghost predicate SameLoop(full: string, opts: string, s: State)
    requires s.Valid()
  {
    forall events: seq<Event>, final: State ::
      ReadsAll(full, opts, s, events, final) <==> Run(opts, s) == (events, final)
  }

  ghost predicate SameLoops(full: string, opts: string, ordering: Ordering, optopt: char) {
    forall argv: seq<string> | |argv| >= 1 :: SameLoop(full, opts, Fresh(argv, 1, ordering, optopt))
  }

  /** From the second call on the leading '-' or '+' is still there. It makes no difference to the run
      on any vector exactly when it is declared in the rest as its place at the front declares it, and
      a leading colon of the rest has no required argument to report. */
  lemma LaterCallsIff(x: char, opts: string, ordering: Ordering, optopt: char)
    requires x != ':'
    ensures SameLoops([x] + opts, opts, ordering, optopt) <==>
      KindOf([x] + opts, x) == KindOf(opts, x) && !(":" <= opts && HasRequired(opts))
  {
    hide KindOf, SameLoop, HasRequired, Fresh;
    if KindOf([x] + opts, x) == KindOf(opts, x) && !(":" <= opts && HasRequired(opts)) {
      forall argv: seq<string> | |argv| >= 1
        ensures SameLoop([x] + opts, opts, Fresh(argv, 1, ordering, optopt))
      {
        LoopUnchanged([x] + opts, opts, x, Fresh(argv, 1, ordering, optopt));
      }
    } else {
      var argv := LoopsDiffer(x, opts, ordering, optopt);
    }
  }

  lemma {:induction false} RunUnchanged(full: string, opts: string, x: char, s: State)
    requires s.Valid() && x != ':' && full == [x] + opts && KindOf(full, x) == KindOf(opts, x)
    requires !(":" <= opts && HasRequired(opts))
    ensures Run(full, s) == Run(opts, s)
    decreases |s.argv| - s.optind, Pending(s)
  {
    hide KindOf, Call, Pending, HasRequired;
    SameKinds(full, opts, x, s);
    var (t, code) := Call(opts, s);
    if code != End { RunUnchanged(full, opts, x, t); }
  }

  lemma LoopUnchanged(full: string, opts: string, x: char, s: State)
    requires s.Valid() && x != ':' && full == [x] + opts && KindOf(full, x) == KindOf(opts, x)
    requires !(":" <= opts && HasRequired(opts))
    ensures SameLoop(full, opts, s)
  {
    hide KindOf, Call, HasRequired;
    var (t, code) := Call(opts, s);
    if code != End { RunUnchanged(full, opts, x, t); }
  }

  /** A vector on which the loops differ. */
  lemma LoopsDiffer(x: char, opts: string, ordering: Ordering, optopt: char) returns (argv: seq<string>)
    requires x != ':'
    requires KindOf([x] + opts, x) != KindOf(opts, x) || (":" <= opts && HasRequired(opts))
    ensures |argv| >= 1 && !SameLoop([x] + opts, opts, Fresh(argv, 1, ordering, optopt))
  {
    hide KindOf, Scan, SameLoop, Fresh;
    var full := [x] + opts;
    var letters: string;
    if KindOf(full, x) != KindOf(opts, x) {
      argv, letters := KindShows(full, opts, x, ordering, optopt);
    } else {
      var c: char :| KindOf(opts, c) == RequiredArgument;
      if c != x { OtherLetter(x, opts, c); }
      assert full[0] == x;
      argv, letters := MissingShows(full, opts, c, ordering, optopt);
    }
    FirstLetterTells(full, opts, argv, letters, ordering, optopt);
  }

  /** Such a run: with "+a", "-a -+" is read as the options a and '+', where the second letter is
      unknown to "a". */
  lemma PlusReadAsOption(argv: seq<string>, optopt: char)
    requires argv == ["p", "-a", "-+"]
    ensures var s := Fresh(argv, 1, RequireOrder, optopt);
      var a := Event(Letter('a'), None, optopt);
      && Run("a", s).0 == [a, Event(Letter('?'), None, '+')]
      && ReadsAll("+a", "a", s, [a, Event(Letter('+'), None, optopt)], s.(optind := 3))
  {
    PlusDeclared();
    hide Call, Run, KindOf;
    var s := Fresh(argv, 1, RequireOrder, optopt);
    assert argv[1] == ['-', 'a'] && argv[2] == ['-', '+'];
    OneLetter("a", s, 'a');
    LetterAtTheEnd("a", s.(optind := 2), '+');
    LetterAtTheEnd("+a", s.(optind := 2), '+');
  }

  lemma LetterAtTheEnd(opts: string, s: State, c: char)
    requires s.Valid() && s.next == "" && s.ordering == RequireOrder && s.optarg == None
    requires s.first == s.last <= s.optind == |s.argv| - 1 && s.argv[s.optind] == ['-', c] && c != '-'
    requires KindOf(opts, c) == NoArgument || KindOf(opts, c) == Unknown
    ensures var known := KindOf(opts, c) == NoArgument;
      var t := s.(optind := s.optind + 1, optopt := if known then s.optopt else c);
      Run(opts, s) == ([Event(Letter(if known then c else '?'), None, t.optopt)], t)
  {
    hide Call, Run, KindOf;
    var known := KindOf(opts, c) == NoArgument;
    OneLetter(opts, s, c);
    AtTheEnd(opts, s.(optind := s.optind + 1, optopt := if known then s.optopt else c));
    assert [Event(Letter(if known then c else '?'), None, if known then s.optopt else c)] + []
      == [Event(Letter(if known then c else '?'), None, if known then s.optopt else c)];
  }

  lemma PlusDeclared()
    ensures KindOf("a", 'a') == NoArgument && KindOf("a", '+') == Unknown && KindOf("+a", '+') == NoArgument
  {}

  lemma AtTheEnd(opts: string, s: State)
    requires s.Valid() && s.next == "" && s.ordering == RequireOrder && s.optarg == None
    requires s.first == s.last <= s.optind == |s.argv|
    ensures Run(opts, s) == ([], s)
  {}

  /** An element of one letter without argument. */
  lemma OneLetter(opts: string, s: State, c: char)
    requires s.Valid() && s.next == "" && s.ordering == RequireOrder && s.optarg == None
    requires s.first == s.last <= s.optind < |s.argv| && s.argv[s.optind] == ['-', c] && c != '-'
    requires KindOf(opts, c) == NoArgument || KindOf(opts, c) == Unknown
    ensures var known := KindOf(opts, c) == NoArgument;
      var t := s.(optind := s.optind + 1, optopt := if known then s.optopt else c);
      && Call(opts, s) == (t, Letter(if known then c else '?'))
      && Run(opts, s) == ([Event(Letter(if known then c else '?'), None, t.optopt)] + Run(opts, t).0, Run(opts, t).1)
  {
    hide KindOf, Run;
    NotPermuted(s);
    assert s.(optarg := None) == s;
    assert ['-', c][1..] == [c] && [c][1..] == "" && ['-', c][1] == c;
    UnfoldRun(opts, s);
  }

  /** After "-:", whose colon is never an option, these letters are still to be scanned. */
  function AfterColon(argv: seq<string>, letters: string, ordering: Ordering, optopt: char): State {
    Fresh(argv, 1, ordering, optopt).(next := letters, optopt := ':')
  }

  ghost predicate ColonThen(argv: seq<string>, letters: string) {
    |argv| >= 2 && letters != "" && argv[1] == ['-', ':'] + letters
  }

  lemma ColonCall(opts: string, argv: seq<string>, letters: string, ordering: Ordering, optopt: char)
    requires ColonThen(argv, letters)
    ensures Fresh(argv, 1, ordering, optopt).Valid()
    ensures Call(opts, Fresh(argv, 1, ordering, optopt)) == (AfterColon(argv, letters, ordering, optopt), Letter('?'))
  {
    var s, e := Fresh(argv, 1, ordering, optopt), argv[1];
    assert e[0] == '-' && e[1] == ':' && e[1..] == [':'] + letters && e[1..][1..] == letters && |e| >= 3;
    assert KindOf(opts, ':') == Unknown;
    hide Index, KindOf;
    assert SkipNonOptions(argv, 1) == 1;
    assert Advance(s) == s;
  }

  /** The next event, as the two option strings have it. */
  function NextEvent(opts: string, s: State): Event
    requires s.Valid() && s.next != ""
  {
    var (t, code) := Scan(opts, s);
    Event(code, t.optarg, t.optopt)
  }

  lemma FirstLetterTells(full: string, opts: string, argv: seq<string>, letters: string,
                         ordering: Ordering, optopt: char)
    requires ColonThen(argv, letters)
    requires var s := AfterColon(argv, letters, ordering, optopt); s.Valid() && NextEvent(full, s) != NextEvent(opts, s)
    ensures Fresh(argv, 1, ordering, optopt).Valid() && !SameLoop(full, opts, Fresh(argv, 1, ordering, optopt))
  {
    hide Scan, KindOf, Call, Run;
    ColonCall(opts, argv, letters, ordering, optopt);
    var s, t := Fresh(argv, 1, ordering, optopt), AfterColon(argv, letters, ordering, optopt);
    UnfoldRun(opts, s);
    ScanRun(opts, t);
    ScanRun(full, t);
    var first := Event(Letter('?'), None, ':');
    var (later, final) := Run(full, t);
    assert ReadsAll(full, opts, s, [first] + later, final);
    assert ([first] + later)[1] == NextEvent(full, t) && Run(opts, s).0[1] == NextEvent(opts, t);
  }

  /** "-:xx", or "-:x" and an argument, tells the kinds of a letter apart. */
  lemma KindShows(o1: string, o2: string, x: char, ordering: Ordering, optopt: char)
    returns (argv: seq<string>, letters: string)
    requires KindOf(o1, x) != KindOf(o2, x) && x != ':'
    ensures ColonThen(argv, letters)
    ensures var s := AfterColon(argv, letters, ordering, optopt); s.Valid() && NextEvent(o1, s) != NextEvent(o2, s)
  {
    hide KindOf;
    var k1, k2 := KindOf(o1, x), KindOf(o2, x);
    assert [x][1..] == "";
    assert [x, x][1..] == [x];
    if (k1.OptionalArgument? && k2.RequiredArgument?) || (k1.RequiredArgument? && k2.OptionalArgument?) {
      argv, letters := ["", ['-', ':', x], ""], [x];
    } else {
      argv, letters := ["", ['-', ':', x, x]], [x, x];
    }
  }

  /** "-:c" at the end tells whether a missing argument is reported as ':' or as '?'. */
  lemma MissingShows(o1: string, o2: string, c: char, ordering: Ordering, optopt: char)
    returns (argv: seq<string>, letters: string)
    requires !(":" <= o1) && ":" <= o2 && KindOf(o1, c) == KindOf(o2, c) == RequiredArgument
    ensures ColonThen(argv, letters)
    ensures var s := AfterColon(argv, letters, ordering, optopt); s.Valid() && NextEvent(o1, s) != NextEvent(o2, s)
  {
    hide KindOf;
    assert [c][1..] == "";
    argv, letters := ["", ['-', ':', c]], [c];
  }

  lemma SameKinds(o1: string, o2: string, x: char, s: State)
    requires s.Valid() && x != ':' && o1 == [x] + o2 && KindOf(o1, x) == KindOf(o2, x)
    requires !(":" <= o2 && HasRequired(o2))
    ensures Call(o1, s) == Call(o2, s)
  {
    hide KindOf, Advance, PastDashes;
    assert o1[0] == x;
    forall c: char ensures KindOf(o1, c) == KindOf(o2, c) {
      if c != x { OtherLetter(x, o2, c); }
    }
  }

  // ----- how an element is read, in terms of the option string

  function FlagEvents(flags: string, optopt: char): (e: seq<Event>)
    ensures |e| == |flags|
  {
    seq(|flags|, k requires 0 <= k < |flags| => Event(Letter(flags[k]), None, optopt))
  }

  /** Letters without argument are reported one by one, whatever follows them. */
  lemma {:induction false} FlagsRead(opts: string, optopt: char, flags: string, letters: string, after: seq<string>)
    requires letters != "" && forall k | 0 <= k < |flags| :: KindOf(opts, flags[k]) == NoArgument
    ensures var c := ReadCluster(opts, optopt, letters, after);
      ReadCluster(opts, optopt, flags + letters, after) == c.(events := FlagEvents(flags, optopt) + c.events)
    decreases |flags|
  {
    hide KindOf;
    if flags == "" {
      assert flags + letters == letters;
      assert FlagEvents(flags, optopt) == [];
    } else {
      FlagsRead(opts, optopt, flags[1..], letters, after);
      assert (flags + letters)[1..] == flags[1..] + letters;
      assert FlagEvents(flags, optopt) == [Event(Letter(flags[0]), None, optopt)] + FlagEvents(flags[1..], optopt);
    }
  }

  /** A letter followed by one colon in the option string takes the rest of its element as argument,
      or else the next element; without either it is missing, and the letter is left in optopt. */
  lemma RequiredRead(pre: string, c: char, more: string, optopt: char, text: string, after: seq<string>)
    requires c !in pre && c != ':' && !(":" <= more)
    ensures var opts := pre + [c] + ":" + more;
      ReadCluster(opts, optopt, [c] + text, after) ==
        if text != "" then Cluster([Event(Letter(c), Some(text), optopt)], 0, false, optopt)
        else if after != [] then Cluster([Event(Letter(c), Some(after[0]), optopt)], 1, false, optopt)
        else Cluster([Event(Letter(if ":" <= opts then ':' else '?'), None, c)], 0, true, c)
  {
    DeclaredKind(pre, c, ":" + more);
    assert pre + [c] + ":" + more == pre + [c] + (":" + more);
    OneColon(more);
    hide KindOf;
    assert ([c] + text)[1..] == text;
  }

  lemma OneColon(more: string)
    ensures "::" <= ":" + more <==> ":" <= more
  {
    assert forall k | 0 <= k < |more| :: (":" + more)[k + 1] == more[k];
  }

  /** With two colons it takes the rest of its element, or nothing. */
  lemma OptionalRead(pre: string, c: char, more: string, optopt: char, text: string, after: seq<string>)
    requires c !in pre && c != ':'
    ensures ReadCluster(pre + [c] + "::" + more, optopt, [c] + text, after)
      == Cluster([Event(Letter(c), if text == "" then None else Some(text), optopt)], 0, false, optopt)
  {
    DeclaredKind(pre, c, "::" + more);
    assert pre + [c] + "::" + more == pre + [c] + ("::" + more);
    hide KindOf;
    assert ([c] + text)[1..] == text;
  }

  /** A letter the option string does not contain is reported as '?', left in optopt, and passed over. */
  lemma UnknownRead(opts: string, c: char, optopt: char, text: string, after: seq<string>)
    requires c == ':' || c !in opts
    ensures var e := Event(Letter('?'), None, c);
      ReadCluster(opts, optopt, [c] + text, after) ==
        if text == "" then Cluster([e], 0, false, c)
        else var r := ReadCluster(opts, c, text, after); r.(events := [e] + r.events)
  {
    UndeclaredIff(opts, c);
    hide KindOf;
    assert ([c] + text)[1..] == text;
  }
}
