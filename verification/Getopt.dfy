/** getopt itself: static state in fields, argv permuted in place. */
module Getopt {
  import opened Options
  import opened GetoptSpec
  import opened GetoptTheorems

  /** Swap the elements [lo,lo2) with the equally many elements [hi,hi2). */
  method SwapSegments(argv: array<string>, lo: nat, lo2: nat, hi: nat, hi2: nat)
    requires lo <= lo2 <= hi <= hi2 <= argv.Length && lo2 - lo == hi2 - hi
    modifies argv
    ensures var a := old(argv[..]);
      argv[..] == a[..lo] + a[hi..hi2] + a[lo2..hi] + a[lo..lo2] + a[hi2..]
  {
    ghost var a := argv[..];
    for i := 0 to lo2 - lo
      invariant forall k | lo <= k < lo + i :: argv[k] == a[hi + (k - lo)]
      invariant forall k | hi <= k < hi + i :: argv[k] == a[lo + (k - hi)]
      invariant forall k | 0 <= k < argv.Length && !(lo <= k < lo + i) && !(hi <= k < hi + i) :: argv[k] == a[k]
    {
      var tem := argv[lo + i];
      argv[lo + i] := argv[hi + i];
      argv[hi + i] := tem;
    }
    SwappedPointwise(a, argv[..], lo, lo2, hi, hi2);
  }

  lemma SwappedPointwise(a: seq<string>, b: seq<string>, lo: nat, lo2: nat, hi: nat, hi2: nat)
    requires lo <= lo2 <= hi <= hi2 <= |a| == |b| && lo2 - lo == hi2 - hi
    requires forall k | lo <= k < lo2 :: b[k] == a[hi + (k - lo)]
    requires forall k | hi <= k < hi2 :: b[k] == a[lo + (k - hi)]
    requires forall k | 0 <= k < |b| && !(lo <= k < lo2) && !(hi <= k < hi2) :: b[k] == a[k]
    ensures b == a[..lo] + a[hi..hi2] + a[lo2..hi] + a[lo..lo2] + a[hi2..]
  {
    assert b[..lo] == a[..lo] && b[lo..lo2] == a[hi..hi2] && b[lo2..hi] == a[lo2..hi];
    assert b[hi..hi2] == a[lo..lo2] && b[hi2..] == a[hi2..];
    assert b == b[..lo] + b[lo..lo2] + b[lo2..hi] + b[hi..hi2] + b[hi2..];
  }

  /** Once a block is empty nothing is left to exchange. */
  lemma Rejoin(a: seq<string>, goal: seq<string>, bottom: nat, middle: nat, top: nat)
    requires bottom <= middle <= top <= |a| == |goal| && (bottom == middle || middle == top)
    requires a[..bottom] == goal[..bottom] && a[top..] == goal[top..]
    requires a[middle..top] + a[bottom..middle] == goal[bottom..top]
    ensures a == goal
  {
    assert a == a[..bottom] + a[bottom..top] + a[top..];
    assert goal == goal[..bottom] + goal[bottom..top] + goal[top..];
  }

  class Scanner {
    var optind: nat
    var optarg: Option<string>
    var optopt: char
    var initialized: bool
    var nextchar: string
    var firstNonopt: nat
    var lastNonopt: nat
    var ordering: Ordering

    constructor ()
      ensures optind == 1 && !initialized && optopt == '?'
    {
      optind, initialized, optopt, optarg := 1, false, '?', None;
      nextchar, firstNonopt, lastNonopt, ordering := "", 0, 0, Permute;
    }

    /** The state as GetoptSpec sees it. */
    function View(argv: array<string>): State
      reads this, argv
    {
      State(argv[..], optind, nextchar, firstNonopt, lastNonopt, ordering, optarg, optopt)
    }

    /** Rotate [firstNonopt,lastNonopt) past [lastNonopt,optind), always swapping the shorter block. */
    method Exchange(argv: array<string>)
      requires firstNonopt <= lastNonopt <= optind <= argv.Length
      modifies this`firstNonopt, this`lastNonopt, argv
      ensures argv[..] == old(Exchanged(argv[..], firstNonopt, lastNonopt, optind))
      ensures lastNonopt == optind && firstNonopt == old(firstNonopt) + (optind - old(lastNonopt))
    {
      var bottom: nat, middle: nat, top: nat := firstNonopt, lastNonopt, optind;
      ghost var goal := Exchanged(argv[..], bottom, middle, top);
      while top > middle && middle > bottom
        invariant bottom <= middle <= top <= argv.Length
        invariant argv[..bottom] == goal[..bottom] && argv[top..] == goal[top..]
        invariant argv[middle..top] + argv[bottom..middle] == goal[bottom..top]
        modifies argv
        decreases top - bottom
      {
        ghost var a := argv[..];
        if top - middle > middle - bottom {
          var t: nat := top - (middle - bottom);
          SwapSegments(argv, bottom, middle, t, top);
          BottomShorter(a, argv[..], goal, bottom, middle, t, top);
          top := t;
        } else {
          var t: nat := bottom + (top - middle);
          SwapSegments(argv, bottom, t, middle, top);
          TopShorter(a, argv[..], goal, bottom, t, middle, top);
          bottom := t;
        }
      }
      Rejoin(argv[..], goal, bottom, middle, top);
      firstNonopt := firstNonopt + (optind - lastNonopt);
      lastNonopt := optind;
    }

    /** Cut the skipped range back to optind. */
    method CutBack(argv: array<string>)
      requires View(argv).Valid()
      modifies this`firstNonopt, this`lastNonopt
      ensures View(argv) == Clamp(old(View(argv)))
    {
      if lastNonopt > optind {
        lastNonopt := optind;
      }
      if firstNonopt > optind {
        firstNonopt := optind;
      }
    }

    /** Exchange what is due. */
    method RotateInPlace(argv: array<string>)
      requires View(argv).Valid() && lastNonopt <= optind
      modifies this`firstNonopt, this`lastNonopt, argv
      ensures View(argv) == Rotate(old(View(argv)))
    {
      if firstNonopt != lastNonopt && lastNonopt != optind {
        Exchange(argv);
      } else if lastNonopt != optind {
        firstNonopt := optind;
        lastNonopt := optind;  // the skipping loop is about to do this
      }
    }

    /** Skip operands. */
    method SkipInPlace(argv: array<string>)
      requires optind <= argv.Length
      modifies this`optind, this`lastNonopt
      ensures optind == SkipNonOptions(argv[..], old(optind)) && lastNonopt == optind
    {
      ghost var i := optind;
      while optind < argv.Length && NonOption(argv[optind])
        invariant i <= optind <= argv.Length
        invariant SkipNonOptions(argv[..], i) == SkipNonOptions(argv[..], optind)
        decreases argv.Length - optind
      {
        optind := optind + 1;
      }
      lastNonopt := optind;
    }

    /** The call begins on a new element: exchange what is due and skip operands. */
    method Settle(argv: array<string>)
      requires View(argv).Valid() && nextchar == ""
      modifies this`optind, this`firstNonopt, this`lastNonopt, argv
      ensures View(argv) == Advance(old(View(argv)))
    {
      hide Rotate, SkipNonOptions, Clamp;
      CutBack(argv);
      if ordering == Permute {
        RotateInPlace(argv);
        SkipInPlace(argv);
      }
    }

    /** Take the next option letter; fetch its argument if it has one. */
    method ShortOption(argv: array<string>, optstring: string) returns (code: Code)
      requires View(argv).Valid() && nextchar != "" && !HasLongW(optstring)
      modifies this
      ensures (View(argv), code) == Scan(optstring, old(View(argv))) && initialized == old(initialized)
    {
      var c := nextchar[0];
      var temp := Index(optstring, c);
      nextchar := nextchar[1..];
      optarg := None;
      if nextchar == "" {
        optind := optind + 1;
      }
      if temp == "" || c == ':' {
        optopt := c;
        return Letter('?');
      }
      code := Letter(c);
      if |temp| > 1 && temp[1] == ':' {
        if |temp| > 2 && temp[2] == ':' {
          if nextchar != "" {
            optarg := Some(nextchar);
            optind := optind + 1;
          }
        } else if nextchar != "" {
          optarg := Some(nextchar);
          optind := optind + 1;
        } else if optind == argv.Length {
          optopt := c;
          code := Letter(if ":" <= optstring then ':' else '?');
        } else {
          optarg := Some(argv[optind]);
          optind := optind + 1;
        }
        nextchar := "";
      }
    }

    /** The element at optind is "--". */
    method StopAtDashes(argv: array<string>)
      requires View(argv).Valid() && nextchar == "" && optind < argv.Length && lastNonopt <= optind
      modifies this`optind, this`firstNonopt, this`lastNonopt, argv
      ensures View(argv) == PastDashes(old(View(argv)))
    {
      hide Exchanged;
      optind := optind + 1;
      if firstNonopt != lastNonopt && lastNonopt != optind {
        Exchange(argv);
      } else if firstNonopt == lastNonopt {
        firstNonopt := optind;
      }
      lastNonopt := argv.Length;
      optind := argv.Length;
    }

    /** One call of getopt on an initialized scanner. */
    method Internal(argv: array<string>, optstring: string) returns (code: Code)
      requires View(argv).Valid() && !HasLongW(optstring)
      modifies this, argv
      ensures (View(argv), code) == Call(optstring, old(View(argv))) && initialized == old(initialized)
    {
      hide Advance, PastDashes, Scan;
      if nextchar != "" {
        ScanResetsOptarg(optstring, View(argv));
      }
      optarg := None;
      if nextchar == "" {
        Settle(argv);
        if optind != argv.Length && argv[optind] == "--" {
          StopAtDashes(argv);
        }
        if optind == argv.Length {
          if firstNonopt != lastNonopt {
            optind := firstNonopt;
          }
          return End;
        }
        if NonOption(argv[optind]) {
          if ordering == RequireOrder {
            return End;
          }
          optarg := Some(argv[optind]);
          optind := optind + 1;
          return InOrder;
        }
        nextchar := argv[optind][1..];
      }
      code := ShortOption(argv, optstring);
    }

    /** getopt: initialize on the first call (or when the caller has set optind to 0), then scan. */
    method Next(argv: array<string>, optstring: string, posixlyCorrect: bool) returns (code: Code)
      requires optind <= argv.Length && !HasLongW(optstring)
      requires initialized && optind != 0 ==> View(argv).Valid()
      modifies this, argv
      ensures argv.Length < 1 ==> code == End && View(argv) == old(View(argv))
      ensures argv.Length >= 1 ==>
        var (s, opts) := if old(optind) == 0 || !old(initialized)
          then Initialize(optstring, posixlyCorrect, old(View(argv))) else (old(View(argv)), optstring);
        (View(argv), code) == Call(opts, s) && initialized
    {
      if argv.Length < 1 {
        return End;
      }
      var opts := optstring;
      if optind == 0 || !initialized {
        if optind == 0 {
          optind := 1;
        }
        firstNonopt, lastNonopt, nextchar := optind, optind, "";
        if "-" <= optstring {
          ordering, opts := ReturnInOrder, optstring[1..];
        } else if "+" <= optstring {
          ordering, opts := RequireOrder, optstring[1..];
        } else {
          ordering := if posixlyCorrect then RequireOrder else Permute;
        }
        initialized := true;
      }
      code := Internal(argv, opts);
    }

    /** The loop of every caller, `while ((opt = getopt(argc, argv, optstring)) != -1)`. */
    method ReadAll(argv: array<string>, optstring: string, posixlyCorrect: bool) returns (events: seq<Event>)
      requires argv.Length >= 1 && optind <= argv.Length && !HasLongW(optstring)
      requires initialized && optind != 0 ==> View(argv).Valid()
      modifies this, argv
      ensures View(argv).Valid()
      ensures
        var (s, opts) := if old(optind) == 0 || !old(initialized)
          then Initialize(optstring, posixlyCorrect, old(View(argv))) else (old(View(argv)), optstring);
        && ReadsAll(optstring, opts, s, events, View(argv))
        && (old(optind) == 0 || !old(initialized) ==>
             (opts == optstring || OnlySelects(optstring[0], opts, s.argv) ==> Reads(opts, s, events, View(argv))))
    {
      hide Call, Run, Reads, OnlySelects, KindOf, HasLongW;
      ghost var starts := optind == 0 || !initialized;
      ghost var (s, opts) :=
        if starts then Initialize(optstring, posixlyCorrect, View(argv)) else (View(argv), optstring);
      events := [];
      var code := Next(argv, optstring, posixlyCorrect);
      ghost var t, code1 := View(argv), code;
      ghost var whole := if code == End then [] else [Event(code, optarg, optopt)] + Run(optstring, t).0;
      assert code != End ==> whole == [] + [Event(code, optarg, optopt)] + Run(optstring, t).0;
      while code != End
        invariant initialized && View(argv).Valid()
        invariant code1 == End ==> code == End && View(argv) == t
        invariant code == End ==> events == whole && (code1 != End ==> View(argv) == Run(optstring, t).1)
        invariant code != End ==>
          var (later, final) := Run(optstring, View(argv));
          (whole, Run(optstring, t).1) == (events + [Event(code, optarg, optopt)] + later, final)
        decreases code != End, argv.Length - optind, Pending(View(argv))
      {
        UnfoldRun(optstring, View(argv));
        events := events + [Event(code, optarg, optopt)];
        ghost var seen := events;
        code := Next(argv, optstring, posixlyCorrect);
        if code != End {
          ghost var later := Run(optstring, View(argv)).0;
          assert seen + ([Event(code, optarg, optopt)] + later) == seen + [Event(code, optarg, optopt)] + later;
        }
      }
      if starts && (opts == optstring || OnlySelects(optstring[0], opts, s.argv)) {
        WholeRun(optstring, opts, s, events, View(argv));
      }
    }
  }

  /** The pieces of a concatenation, and neighbouring ones together. */
  lemma Slices(x: seq<string>, p: seq<string>, q: seq<string>, r: seq<string>, s: seq<string>, u: seq<string>)
    requires x == p + q + r + s + u
    ensures var i1, i2 := |p|, |p| + |q|;
      var i3 := i2 + |r|;
      var i4 := i3 + |s|;
      && x[..i1] == p && x[i1..i2] == q && x[i2..i3] == r && x[i3..i4] == s && x[i4..] == u
      && x[..i2] == p + q && x[i1..i3] == q + r && x[i2..i4] == r + s && x[i3..] == s + u
  {}

  lemma Joined(goal: seq<string>, bottom: nat, top: nat, p: seq<string>, q: seq<string>, r: seq<string>, s: seq<string>,
               u: seq<string>)
    requires bottom <= top <= |goal| && goal[..bottom] == p && goal[top..] == u && goal[bottom..top] == q + r + s
    ensures goal == p + q + r + s + u
  {
    assert goal == goal[..bottom] + goal[bottom..top] + goal[top..];
    assert p + (q + r + s) == p + q + r + s;
  }

  /** The bottom block X is swapped with the end of the top block Y1+Y2, leaving Y2+Y1+X:
      X is in place, and Y2, Y1 remain to be exchanged. */
  lemma BottomShorter(a: seq<string>, b: seq<string>, goal: seq<string>, bottom: nat, middle: nat, t: nat, top: nat)
    requires bottom < middle <= t <= top <= |a| == |goal| && top - t == middle - bottom
    requires a[..bottom] == goal[..bottom] && a[top..] == goal[top..]
    requires a[middle..top] + a[bottom..middle] == goal[bottom..top]
    requires b == a[..bottom] + a[t..top] + a[middle..t] + a[bottom..middle] + a[top..]
    ensures |b| == |a| && b[..bottom] == goal[..bottom] && b[t..] == goal[t..]
    ensures b[middle..t] + b[bottom..middle] == goal[bottom..t]
  {
    var p, x, y1, y2, u := a[..bottom], a[bottom..middle], a[middle..t], a[t..top], a[top..];
    assert a[middle..top] == y1 + y2;
    Joined(goal, bottom, top, p, y1, y2, x, u);
    Slices(b, p, y2, y1, x, u);
    Slices(goal, p, y1, y2, x, u);
  }

  /** The top block Y is swapped with the start of the bottom block X1+X2, leaving Y+X2+X1:
      Y is in place, and X2, X1 remain to be exchanged. */
  lemma TopShorter(a: seq<string>, b: seq<string>, goal: seq<string>, bottom: nat, t: nat, middle: nat, top: nat)
    requires bottom < t <= middle <= top <= |a| == |goal| && t - bottom == top - middle
    requires a[..bottom] == goal[..bottom] && a[top..] == goal[top..]
    requires a[middle..top] + a[bottom..middle] == goal[bottom..top]
    requires b == a[..bottom] + a[middle..top] + a[t..middle] + a[bottom..t] + a[top..]
    ensures |b| == |a| && b[..t] == goal[..t] && b[top..] == goal[top..]
    ensures b[middle..top] + b[t..middle] == goal[t..top]
  {
    var p, x1, x2, y, u := a[..bottom], a[bottom..t], a[t..middle], a[middle..top], a[top..];
    assert a[bottom..middle] == x1 + x2;
    assert y + (x1 + x2) == y + x1 + x2;
    Joined(goal, bottom, top, p, y, x1, x2, u);
    Slices(b, p, y, x2, x1, u);
    Slices(goal, p, y, x1, x2, u);
  }
}
