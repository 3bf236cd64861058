/** One call of getopt as a function of its static state, and what whole runs of calls do
    to the argument vector. Short options only: getopt passes no long-option table. */
module GetoptSpec {
  import opened Options

  datatype Ordering = RequireOrder | Permute | ReturnInOrder

  /** The value returned by a call: -1, 1, or an option letter ('?' and ':' included). */
  datatype Code = End | InOrder | Letter(c: char)

  /** What the caller sees after a call that did not return -1. */
  datatype Event = Event(code: Code, optarg: Option<string>, optopt: char)

  /** argv, the globals and the statics. `next` is the unscanned rest of the current element;
      it is empty for both a null and an exhausted nextchar, which the code treats alike. */
  datatype State = State(argv: seq<string>, optind: nat, next: string, first: nat, last: nat,
                         ordering: Ordering, optarg: Option<string>, optopt: char)
  {
    /** What a call may rely on, given that the caller may have moved optind back. */
    predicate Valid() {
      && 1 <= optind <= |argv|
      && (next != "" ==> optind < |argv|)
      && 1 <= first <= last
    }
  }

  /** NONOPTION_P: not of the form "-x...". */
  predicate NonOption(e: string) {
    |e| < 2 || e[0] != '-'
  }

  datatype Kind = Unknown | NoArgument | OptionalArgument | RequiredArgument

  /** my_index: the rest of the option string from the first occurrence of c. */
  function Index(opts: string, c: char): (r: string) {
    if opts == "" then "" else if opts[0] == c then opts else Index(opts[1..], c)
  }

  /** The option string uses the "W;" form, which needs a long-option table. */
  predicate HasLongW(opts: string) {
    "W;" <= Index(opts, 'W')
  }

  /** How the option string declares letter c. */
  function KindOf(opts: string, c: char): Kind {
    var t := Index(opts, c);
    if t == "" || c == ':' then Unknown
    else if |t| < 2 || t[1] != ':' then NoArgument
    else if |t| < 3 || t[2] != ':' then RequiredArgument
    else OptionalArgument
  }

  /** The result of `exchange`: blocks [first,last) and [last,top) in the other order. */
  function Exchanged(argv: seq<string>, first: nat, last: nat, top: nat): (r: seq<string>)
    requires first <= last <= top <= |argv|
    ensures |r| == |argv|
  {
    argv[..first] + argv[last..top] + argv[first..last] + argv[top..]
  }

  /** The index of the first element from i on that has option syntax. */
  function SkipNonOptions(argv: seq<string>, i: nat): (j: nat)
    requires i <= |argv|
    ensures i <= j <= |argv|
    decreases |argv| - i
  {
    if i < |argv| && NonOption(argv[i]) then SkipNonOptions(argv, i + 1) else i
  }

  /** The skipped range cut back to optind, in case the caller moved it. */
  function Clamp(s: State): (r: State)
    ensures s.Valid() ==> r.Valid() && r.last <= r.optind
    ensures r.ordering == s.ordering && r.argv == s.argv && r.next == s.next && r.optind == s.optind
  {
    s.(last := if s.last > s.optind then s.optind else s.last,
       first := if s.first > s.optind then s.optind else s.first)
  }

  /** Options seen after skipped operands are exchanged with them. */
  function Rotate(s: State): (r: State)
    requires s.Valid() && s.last <= s.optind
    ensures r.Valid() && |r.argv| == |s.argv| && r.optind == s.optind
    ensures r.first <= r.optind && r.argv[s.optind..] == s.argv[s.optind..]
  {
    if s.first != s.last && s.last != s.optind then
      s.(argv := Exchanged(s.argv, s.first, s.last, s.optind), first := s.first + (s.optind - s.last), last := s.optind)
    else if s.last != s.optind then s.(first := s.optind, last := s.optind)
    else s
  }

  /** The first part of a call that starts on a new element, up to the "--" test. */
  function Advance(s: State): (r: State)
    requires s.Valid() && s.next == ""
    ensures r.Valid() && r.next == "" && |r.argv| == |s.argv|
    ensures s.optind <= r.optind && r.last <= r.optind && r.argv[s.optind..] == s.argv[s.optind..]
  {
    if s.ordering != Permute then Clamp(s)
    else
      var u := Rotate(Clamp(s));
      var i := SkipNonOptions(u.argv, u.optind);
      u.(optind := i, last := i)
  }

  /** The special element "--": swallow it like an option and stop there. */
  function PastDashes(s: State): (r: State)
    requires s.Valid() && s.next == "" && s.optind < |s.argv| && s.last <= s.optind
    ensures r.Valid() && r.next == "" && |r.argv| == |s.argv| && r.optind == |r.argv|
  {
    var i := s.optind + 1;
    var n := |s.argv|;
    var t := if s.first != s.last && s.last != i then
        s.(argv := Exchanged(s.argv, s.first, s.last, i), first := s.first + (i - s.last))
      else if s.first == s.last then s.(first := i)
      else s;
    t.(last := n, optind := n)
  }

  /** The termination measure of a run of calls. */
  function Pending(s: State): nat {
    if s.next != "" then |s.next| else if s.optind < |s.argv| then |s.argv[s.optind]| else 0
  }

  ghost predicate Progresses(s: State, t: State) {
    && |t.argv| == |s.argv|
    && (t.optind > s.optind || (t.optind == s.optind && Pending(t) < Pending(s)))
  }

  /** The second part of a call: take the next option letter of the current element. */
  function Scan(opts: string, s: State): (r: (State, Code))
    requires s.Valid() && s.next != ""
    ensures r.0.Valid() && r.1.Letter? && r.0.argv == s.argv && Progresses(s, r.0)
  {
    var c, rest := s.next[0], s.next[1..];
    var i := if rest == "" then s.optind + 1 else s.optind;
    var argc := |s.argv|;
    match KindOf(opts, c)
    case Unknown =>
      (s.(next := rest, optind := i, optarg := None, optopt := c), Letter('?'))
    case NoArgument =>
      (s.(next := rest, optind := i, optarg := None), Letter(c))
    case OptionalArgument =>
      if rest != "" then (s.(next := "", optind := i + 1, optarg := Some(rest)), Letter(c))
      else (s.(next := "", optind := i, optarg := None), Letter(c))
    case RequiredArgument =>
      if rest != "" then (s.(next := "", optind := i + 1, optarg := Some(rest)), Letter(c))
      else if i == argc then
        (s.(next := "", optind := i, optarg := None, optopt := c),
         Letter(if ":" <= opts then ':' else '?'))
      else (s.(next := "", optind := i + 1, optarg := Some(s.argv[i])), Letter(c))
  }

  /** What follows the operands skipped, starting on a new element. */
  function Proceed(opts: string, t: State): (r: (State, Code))
    requires t.Valid() && t.next == "" && t.last <= t.optind
    ensures r.0.Valid() && |r.0.argv| == |t.argv|
    ensures r.1 != End ==> Progresses(t, r.0)
  {
    var u := if t.optind != |t.argv| && t.argv[t.optind] == "--" then PastDashes(t) else t;
    if u.optind == |u.argv| then
      (if u.first != u.last then u.(optind := u.first) else u, End)
    else if NonOption(u.argv[u.optind]) then
      if u.ordering == RequireOrder then (u, End)
      else (u.(optind := u.optind + 1, optarg := Some(u.argv[u.optind])), InOrder)
    else Scan(opts, u.(next := u.argv[u.optind][1..]))
  }

  /** One call of getopt after initialization. */
  function Call(opts: string, s: State): (r: (State, Code))
    requires s.Valid()
    ensures r.0.Valid() && |r.0.argv| == |s.argv|
    ensures r.1 != End ==> Progresses(s, r.0)
  {
    if s.next != "" then Scan(opts, s) else Proceed(opts, Advance(s.(optarg := None)))
  }

  /** The caller's loop: call until -1, collecting what each call reported. */
  function Run(opts: string, s: State): (r: (seq<Event>, State))
    requires s.Valid()
    ensures r.1.Valid() && |r.1.argv| == |s.argv|
    decreases |s.argv| - s.optind, Pending(s)
  {
    var (t, code) := Call(opts, s);
    if code == End then ([], t)
    else
      var (events, final) := Run(opts, t);
      ([Event(code, t.optarg, t.optopt)] + events, final)
  }

  /** _getopt_initialize: nothing skipped or pending; a leading '-' or '+' selects the mode and is
      dropped from the option string for this call only. */
  function Initialize(opts: string, posixlyCorrect: bool, s: State): (r: (State, string))
    requires s.optind <= |s.argv| && |s.argv| >= 1
    ensures r.0.Valid() && r.0.argv == s.argv
  {
    var i := if s.optind == 0 then 1 else s.optind;
    var t := s.(optind := i, first := i, last := i, next := "");
    if "-" <= opts then (t.(ordering := ReturnInOrder), opts[1..])
    else if "+" <= opts then (t.(ordering := RequireOrder), opts[1..])
    else (t.(ordering := if posixlyCorrect then RequireOrder else Permute), opts)
  }

  lemma ScanResetsOptarg(opts: string, s: State)
    requires s.Valid() && s.next != ""
    ensures Scan(opts, s.(optarg := None)) == Scan(opts, s)
  {}

  // ----- how an option string declares its letters

  lemma {:induction false} IndexOfFirst(pre: string, c: char, rest: string)
    requires c !in pre
    ensures Index(pre + [c] + rest, c) == [c] + rest
  {
    var opts := pre + [c] + rest;
    if pre == [] {
      assert opts == [c] + rest;
    } else {
      IndexOfFirst(pre[1..], c, rest);
      assert opts[1..] == pre[1..] + [c] + rest;
    }
  }

  /** A letter takes an argument if a colon follows its first occurrence, an optional one if two do. */
  lemma DeclaredKind(pre: string, c: char, rest: string)
    requires c !in pre && c != ':'
    ensures KindOf(pre + [c] + rest, c)
      == if "::" <= rest then OptionalArgument else if ":" <= rest then RequiredArgument else NoArgument
  {
    hide Index;
    IndexOfFirst(pre, c, rest);
    var t := [c] + rest;
    assert forall k | 0 <= k < |rest| :: t[k + 1] == rest[k];
    assert "::" <= rest <==> |rest| >= 2 && rest[0] == ':' && rest[1] == ':';
  }

  lemma {:induction false} IndexFinds(opts: string, c: char)
    ensures Index(opts, c) == "" <==> c !in opts
  {
    if opts != "" {
      IndexFinds(opts[1..], c);
      assert opts == [opts[0]] + opts[1..];
    }
  }

  /** Unknown are the letters that do not occur, and the colon. */
  lemma UndeclaredIff(opts: string, c: char)
    ensures KindOf(opts, c) == Unknown <==> c == ':' || c !in opts
  {
    hide Index;
    IndexFinds(opts, c);
  }

  /** An option element is a dash and something after it. */
  lemma OptionSyntax(e: string)
    ensures !NonOption(e) <==> exists letters: string :: letters != "" && e == "-" + letters
  {
    if !NonOption(e) { assert e == "-" + e[1..]; }
  }

  /** The first letter of the option string selects the mode, or else the environment does. */
  lemma ModeSelected(opts: string, posixlyCorrect: bool, s: State)
    requires s.optind <= |s.argv| && |s.argv| >= 1
    ensures Initialize("-" + opts, posixlyCorrect, s) == (StartedIn(s, ReturnInOrder), opts)
    ensures Initialize("+" + opts, posixlyCorrect, s) == (StartedIn(s, RequireOrder), opts)
    ensures !("-" <= opts) && !("+" <= opts) ==>
      Initialize(opts, posixlyCorrect, s) == (StartedIn(s, if posixlyCorrect then RequireOrder else Permute), opts)
  {
    assert ("-" + opts)[1..] == opts && ("+" + opts)[1..] == opts && ("+" + opts)[0] == '+';
  }

  function StartedIn(s: State, ordering: Ordering): State {
    var i := if s.optind == 0 then 1 else s.optind;
    State(s.argv, i, "", i, i, ordering, s.optarg, s.optopt)
  }

  /** Moving optind back forgets the skipped operands from there on. */
  lemma ClampCutsBack(s: State)
    requires s.Valid()
    ensures s.last <= s.optind ==> Clamp(s) == s
    ensures s.last > s.optind ==> Clamp(s).last == s.optind
    ensures s.first <= s.optind ==> Clamp(s).first == s.first
    ensures s.first > s.optind ==> Clamp(s).first == Clamp(s).last == s.optind
  {}
}
