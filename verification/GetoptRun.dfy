/** Whole runs of externals/getopt/getopt.c. `Call` is one call as a function of the static data and
    of `argv`; `Scan` is an independent reading of the arguments, left to right, that never moves
    one. The main results say that calling until -1 reports what the plain reading reports and
    leaves `argv` stably partitioned. */
module GetoptRun {
  import opened Wrappers
  import opened Sequences
  import opened GetoptRotation
  import opened GetoptParse

  datatype Ordering = RequireOrder | Permute | ReturnInOrder

  /** `struct _getopt_data_a`, with pointers into `argv` replaced by the text they point at. */
  datatype State = State(optind: nat, optarg: Option<string>, optopt: int, initialized: bool,
                         nextchar: Option<string>, ordering: Ordering, first: nat, last: nat)

  /** The arguments of a call; `posixly` includes the POSIXLY_CORRECT environment variable. */
  datatype Arguments = Arguments(optstring: string, longopts: Option<seq<LongOption>>, longOnly: bool, posixly: bool)
  {
    function Config(): Config {
      GetoptParse.Config(if At(optstring, 0) == '-' || At(optstring, 0) == '+' then optstring[1..] else optstring,
                         longopts, longOnly)
    }

    function Ordering(): Ordering {
      if At(optstring, 0) == '-' then ReturnInOrder
      else if At(optstring, 0) == '+' || posixly then RequireOrder
      else Permute
    }
  }

  function UnreadOf(s: State): string {
    if s.nextchar.Some? then s.nextchar.value else ""
  }

  /** What a call relies on: the indices are ordered, and a partly read element is still current. */
  predicate Ready(s: State, argv: seq<string>) {
    && 1 <= |argv| && s.optind <= |argv|
    && (s.optind != 0 && s.initialized ==>
          && s.first <= s.last
          && (UnreadOf(s) != "" ==> s.optind < |argv| && IsOption(argv[s.optind])))
  }

  // ---- one call ----------------------------------------------------------------------------

  /** Lines 134-141. */
  function Started(a: Arguments, s: State): State {
    if s.optind == 0 || !s.initialized then
      var start := if s.optind == 0 then 1 else s.optind;
      State(start, None, s.optopt, true, None, a.Ordering(), start, start)
    else s.(optarg := None)
  }

  function LeadingOperands(args: seq<string>): (k: nat)
    ensures k <= |args| && (k < |args| ==> !IsOperand(args[k]))
    ensures forall i :: 0 <= i < k ==> IsOperand(args[i])
  {
    if args == [] || !IsOperand(args[0]) then 0 else 1 + LeadingOperands(args[1..])
  }

  datatype Seek = Ended(s: State, argv: seq<string>)
                | Operand(s: State, argv: seq<string>)
                | Element(s: State, argv: seq<string>)

  /** Lines 148-151. */
  function Clamped(s: State): State {
    s.(last := if s.last > s.optind then s.optind else s.last,
       first := if s.first > s.optind then s.optind else s.first)
  }

  /** Lines 152-161: move the options read since the last call in front of the operands, then skip
      the operands that follow. */
  function Settled(s: State, argv: seq<string>): (r: (State, seq<string>))
    requires s.first <= s.last <= s.optind <= |argv|
    ensures |r.1| == |argv| && r.0.first <= r.0.last <= r.0.optind <= |argv|
  {
    if s.ordering != Permute then (s, argv) else
      var argv' := if s.first != s.last && s.last != s.optind then Rotated(argv, s.first, s.last, s.optind) else argv;
      var first := if s.last != s.optind then s.first + (s.optind - s.last) else s.first;
      var optind := s.optind + LeadingOperands(argv'[s.optind..]);
      (s.(first := first, last := optind, optind := optind), argv')
  }

  /** Lines 162-185. */
  function Sought(s: State, argv: seq<string>): (r: Seek)
    requires s.first <= s.last <= s.optind <= |argv|
    ensures |r.argv| == |argv|
    ensures r.Element? ==> r == Element(s, argv) && s.optind < |argv| && IsOption(argv[s.optind])
  {
    if s.optind < |argv| && argv[s.optind] == "--" then
      var after := s.optind + 1;
      var argv' := if s.first != s.last then Rotated(argv, s.first, s.last, after) else argv;
      var first := if s.first != s.last then s.first + (after - s.last) else after;
      Ended(s.(first := first, last := |argv|, optind := if first != |argv| then first else |argv|), argv')
    else if s.optind == |argv| then
      Ended(if s.first != s.last then s.(optind := s.first) else s, argv)
    else if IsOperand(argv[s.optind]) then
      if s.ordering == RequireOrder then Ended(s, argv)
      else Operand(s.(optarg := Some(argv[s.optind]), optind := s.optind + 1), argv)
    else Element(s, argv)
  }

  /** A call's new state, new `argv`, and what it reports; no report is the result -1. */
  datatype Called = Called(s: State, argv: seq<string>, report: Option<Event>)

  function Apply(s: State, p: Parsed): State {
    s.(optind := s.optind + p.advance, optarg := p.event.optarg, nextchar := p.nextchar,
       optopt := if p.event.optopt.Some? then p.event.optopt.value else s.optopt)
  }

  function ReadOption(cfg: Config, s: State, argv: seq<string>, text: string): Called
    requires s.optind < |argv| && IsOption(argv[s.optind]) && text != ""
  {
    var p := ParseOption(cfg, argv[s.optind], text, argv[s.optind + 1..]);
    Called(Apply(s, p), argv, Some(p.event))
  }

  /** `_getopt_internal_r_a`. */
  function Call(a: Arguments, s: State, argv: seq<string>): (c: Called)
    requires Ready(s, argv)
    ensures |c.argv| == |argv|
  {
    var s0 := Started(a, s);
    if UnreadOf(s0) != "" then ReadOption(a.Config(), s0, argv, UnreadOf(s0)) else
      var (s1, argv1) := Settled(Clamped(s0), argv);
      match Sought(s1, argv1)
      case Ended(s2, argv2) => Called(s2, argv2, None)
      case Operand(s2, argv2) => Called(s2, argv2, Some(Simple(1, s2.optarg, None)))
      case Element(s2, argv2) => ReadOption(a.Config(), s2, argv2, FirstText(a.Config(), argv2[s2.optind]))
  }

  /** What a call reports is what it leaves in `optarg` and `optopt`. */
  lemma ReportIsStored(a: Arguments, s: State, argv: seq<string>)
    requires Ready(s, argv)
    ensures var c := Call(a, s, argv);
            && (c.report.None? ==> c.s.optarg == None && c.s.optopt == s.optopt)
            && (c.report.Some? ==>
                  var e := c.report.value;
                  c.s.optarg == e.optarg && c.s.optopt == if e.optopt.Some? then e.optopt.value else s.optopt)
  {
    hide ParseOption, FirstText, Settled, Sought, IsOption;
    var s0 := Started(a, s);
    if UnreadOf(s0) == "" {
      var (s1, argv1) := Settled(Clamped(s0), argv);
      SettledStores(Clamped(s0), argv);
      SoughtStores(s1, argv1);
    }
  }

  lemma SettledStores(s: State, argv: seq<string>)
    requires s.first <= s.last <= s.optind <= |argv|
    ensures var s' := Settled(s, argv).0; s'.optarg == s.optarg && s'.optopt == s.optopt
  {
    hide Rotated, LeadingOperands;
  }

  lemma SoughtStores(s: State, argv: seq<string>)
    requires s.first <= s.last <= s.optind <= |argv|
    ensures var r := Sought(s, argv); r.s.optopt == s.optopt && (r.Operand? || r.s.optarg == s.optarg)
  {
    hide Rotated;
  }

  /** The calls a caller makes until -1: at most `fuel` calls that report something, plus the last. */
  datatype Run = Finished(reports: seq<Event>, optind: nat, argv: seq<string>)
               | Overran      // `optind` passed `argc`: the next call would read past `argv`
               | Unfinished   // out of fuel

  function RunFor(a: Arguments, s: State, argv: seq<string>, fuel: nat): Run
    requires |argv| >= 1
    decreases fuel
  {
    if !Ready(s, argv) then Overran else
      var c := Call(a, s, argv);
      if c.report.None? then Finished([], c.s.optind, c.argv)
      else if fuel == 0 then Unfinished
      else
        match RunFor(a, c.s, c.argv, fuel - 1)
        case Finished(reports, optind, argv') => Finished([c.report.value] + reports, optind, argv')
        case other => other
  }

  // ---- the plain reading -------------------------------------------------------------------

  /** What a left-to-right reading reports, and for each argument whether it was used up as an
      option, an option's argument, an operand returned in order, or the "--". */
  datatype Reading = Reading(reports: seq<Event>, used: seq<bool>)

  function Repeat(b: bool, n: nat): (r: seq<bool>)
    ensures |r| == n && forall i :: 0 <= i < n ==> r[i] == b
  {
    seq(n, _ => b)
  }

  ghost function Scan(cfg: Config, ordering: Ordering, args: seq<string>, text: string): (r: Reading)
    requires WSafe(cfg) && (text != "" ==> args != [] && IsOption(args[0]))
    ensures |r.used| == |args|
    decreases |args|, if text == "" then 1 + (if args == [] then 0 else |args[0]|) else |text|
  {
    if text == "" then
      if args == [] then Reading([], [])
      else if args[0] == "--" then Reading([], [true] + Repeat(false, |args| - 1))
      else if !IsOperand(args[0]) then Scan(cfg, ordering, args, FirstText(cfg, args[0]))
      else if ordering == RequireOrder then Reading([], Repeat(false, |args|))
      else
        var r := Scan(cfg, ordering, args[1..], "");
        if ordering == Permute then Reading(r.reports, [false] + r.used)
        else Reading([Simple(1, Some(args[0]), None)] + r.reports, [true] + r.used)
    else
      var p := ParseOption(cfg, args[0], text, args[1..]);
      OptionProgresses(cfg, args[0], text, args[1..]);
      if p.advance == 0 then
        var r := Scan(cfg, ordering, args, Unread(p));
        Reading([p.event] + r.reports, r.used)
      else
        var r := Scan(cfg, ordering, args[p.advance..], "");
        Reading([p.event] + r.reports, Repeat(true, p.advance) + r.used)
  }

  /** The arguments marked `b`, in their original order. */
  function Pick(args: seq<string>, marks: seq<bool>, b: bool): (r: seq<string>)
    requires |marks| == |args|
  {
    if args == [] then [] else
      (if marks[0] == b then [args[0]] else []) + Pick(args[1..], marks[1..], b)
  }

  lemma {:induction false} PickAppend(
      args: seq<string>, args': seq<string>, marks: seq<bool>, marks': seq<bool>, b: bool)
    requires |marks| == |args| && |marks'| == |args'|
    ensures Pick(args + args', marks + marks', b) == Pick(args, marks, b) + Pick(args', marks', b)
  {
    if args == [] {
      assert args + args' == args' && marks + marks' == marks';
    } else {
      assert (args + args')[1..] == args[1..] + args' && (marks + marks')[1..] == marks[1..] + marks';
      PickAppend(args[1..], args', marks[1..], marks', b);
      var head := if marks[0] == b then [args[0]] else [];
      Associative(head, Pick(args[1..], marks[1..], b), Pick(args', marks', b));
    }
  }

  lemma {:induction false} PickUniform(args: seq<string>, marked: bool, b: bool)
    ensures Pick(args, Repeat(marked, |args|), b) == if marked == b then args else []
  {
    if args != [] {
      assert Repeat(marked, |args|)[1..] == Repeat(marked, |args| - 1);
      PickUniform(args[1..], marked, b);
    }
  }

  // ---- the partition the run is heading for ------------------------------------------------

  /** Where `argv` will stand after the run, given the indices now and the marks of what is unread:
      the options read so far, the options still to come, the operands skipped so far, the operands
      still to come. */
  function TargetArgv(s: State, argv: seq<string>, used: seq<bool>): seq<string>
    requires s.first <= s.last <= s.optind <= |argv| && |used| == |argv| - s.optind
  {
    argv[..s.first] + argv[s.last..s.optind] + Pick(argv[s.optind..], used, true)
    + argv[s.first..s.last] + Pick(argv[s.optind..], used, false)
  }

  function TargetOptind(s: State, argv: seq<string>, used: seq<bool>): int
    requires s.optind <= |argv| && |used| == |argv| - s.optind
  {
    s.first + (s.optind - s.last) + |Pick(argv[s.optind..], used, true)|
  }

  /** The state between two calls of a run. */
  predicate Midway(s: State, argv: seq<string>) {
    && Ready(s, argv) && s.initialized && 0 < s.optind
    && s.last <= s.optind && (s.ordering != Permute ==> s.first == s.last)
  }

  lemma PickRun(args: seq<string>, n: nat, marked: bool, used: seq<bool>, b: bool)
    requires n <= |args| && |used| == |args| - n
    ensures Pick(args, Repeat(marked, n) + used, b)
            == (if marked == b then args[..n] else []) + Pick(args[n..], used, b)
  {
    assert args == args[..n] + args[n..];
    PickAppend(args[..n], args[n..], Repeat(marked, n), used, b);
    PickUniform(args[..n], marked, b);
  }

  lemma MoveToFront<T>(a: seq<T>, b: seq<T>, x: seq<T>, p: seq<T>, o: seq<T>, q: seq<T>)
    ensures a + b + (x + p) + o + q == a + (b + x) + p + o + q
  {
  }

  lemma MoveToBack<T>(a: seq<T>, b: seq<T>, p: seq<T>, o: seq<T>, x: seq<T>, q: seq<T>)
    ensures a + b + p + o + (x + q) == a + b + p + (o + x) + q
  {
  }

  /** Reading the next `n` arguments as options keeps the target. */
  lemma ConsumeKeepsTarget(s: State, argv: seq<string>, n: nat, used: seq<bool>)
    requires s.first <= s.last <= s.optind && s.optind + n <= |argv| && |used| == |argv| - s.optind - n
    ensures TargetArgv(s.(optind := s.optind + n), argv, used) == TargetArgv(s, argv, Repeat(true, n) + used)
    ensures TargetOptind(s.(optind := s.optind + n), argv, used) == TargetOptind(s, argv, Repeat(true, n) + used)
  {
    hide Pick;
    var args := argv[s.optind..];
    var args' := argv[s.optind + n..];
    assert args[n..] == args' && argv[s.last..s.optind + n] == argv[s.last..s.optind] + args[..n];
    PickRun(args, n, true, used, true);
    PickRun(args, n, true, used, false);
    assert [] + Pick(args', used, false) == Pick(args', used, false);
    MoveToFront(argv[..s.first], argv[s.last..s.optind], args[..n], Pick(args', used, true),
                argv[s.first..s.last], Pick(args', used, false));
  }

  /** Moving the pending options in front of the operands keeps the target. */
  lemma RotateKeepsTarget(s: State, argv: seq<string>, used: seq<bool>)
    requires s.first <= s.last <= s.optind <= |argv| && |used| == |argv| - s.optind
    ensures var s' := s.(first := s.first + (s.optind - s.last), last := s.optind);
            var argv' := Rotated(argv, s.first, s.last, s.optind);
            && argv'[s.optind..] == argv[s.optind..]
            && TargetArgv(s', argv', used) == TargetArgv(s, argv, used)
            && TargetOptind(s', argv', used) == TargetOptind(s, argv, used)
  {
  }

  /** Skipping operands right after the skipped ones keeps the target. */
  lemma SkipKeepsTarget(s: State, argv: seq<string>, n: nat, used: seq<bool>)
    requires s.first <= s.last == s.optind && s.optind + n <= |argv| && |used| == |argv| - s.optind - n
    ensures var s' := s.(last := s.optind + n, optind := s.optind + n);
            && TargetArgv(s', argv, used) == TargetArgv(s, argv, Repeat(false, n) + used)
            && TargetOptind(s', argv, used) == TargetOptind(s, argv, Repeat(false, n) + used)
  {
    hide Pick;
    var args := argv[s.optind..];
    var args' := argv[s.optind + n..];
    assert args[n..] == args' && argv[s.first..s.last + n] == argv[s.first..s.last] + args[..n];
    assert argv[s.last..s.optind] == [] == argv[s.last + n..s.optind + n];
    PickRun(args, n, false, used, true);
    PickRun(args, n, false, used, false);
    assert [] + Pick(args', used, true) == Pick(args', used, true);
    MoveToBack(argv[..s.first], [], Pick(args', used, true), argv[s.first..s.last], args[..n],
               Pick(args', used, false));
  }

  lemma {:induction false} ScanSkipsOperands(cfg: Config, args: seq<string>, n: nat)
    requires WSafe(cfg) && n <= |args| && forall i :: 0 <= i < n ==> IsOperand(args[i])
    ensures var r, r' := Scan(cfg, Permute, args, ""), Scan(cfg, Permute, args[n..], "");
            r.reports == r'.reports && r.used == Repeat(false, n) + r'.used
  {
    hide ParseOption, FirstText, WSafe;
    if n == 0 {
      assert args[0..] == args;
      assert Repeat(false, 0) + Scan(cfg, Permute, args, "").used == Scan(cfg, Permute, args, "").used;
    } else {
      ScanSkipsOperands(cfg, args[1..], n - 1);
      assert args[1..][n - 1..] == args[n..];
      Associative([false], Repeat(false, n - 1), Scan(cfg, Permute, args[n..], "").used);
      assert [false] + Repeat(false, n - 1) == Repeat(false, n);
    }
  }

  // ---- each call follows the reading -------------------------------------------------------

  ghost function ReadingOf(cfg: Config, s: State, argv: seq<string>): (r: Reading)
    requires WSafe(cfg) && Midway(s, argv)
    ensures |r.used| == |argv| - s.optind
  {
    Scan(cfg, s.ordering, argv[s.optind..], UnreadOf(s))
  }

  /** Both states are on their way to the same final `argv` and `optind`. */
  ghost predicate SameTarget(
      s: State, argv: seq<string>, used: seq<bool>, s': State, argv': seq<string>, used': seq<bool>)
  {
    && s.first <= s.last <= s.optind <= |argv| && |used| == |argv| - s.optind
    && s'.first <= s'.last <= s'.optind <= |argv'| && |used'| == |argv'| - s'.optind
    && TargetArgv(s, argv, used) == TargetArgv(s', argv', used')
    && TargetOptind(s, argv, used) == TargetOptind(s', argv', used')
  }

  /** The target depends on the three indices only. */
  lemma TargetIgnoresRest(s: State, s': State, argv: seq<string>, used: seq<bool>)
    requires s.first <= s.last <= s.optind <= |argv| && |used| == |argv| - s.optind
    requires s'.first == s.first && s'.last == s.last && s'.optind == s.optind
    ensures TargetArgv(s', argv, used) == TargetArgv(s, argv, used)
    ensures TargetOptind(s', argv, used) == TargetOptind(s, argv, used)
  {
  }

  lemma SettleFollows(cfg: Config, s: State, argv: seq<string>)
    requires WSafe(cfg) && Midway(s, argv) && UnreadOf(s) == ""
    ensures var (s1, argv1) := Settled(s, argv);
            && Midway(s1, argv1) && UnreadOf(s1) == "" && s1.ordering == s.ordering
            && ReadingOf(cfg, s1, argv1).reports == ReadingOf(cfg, s, argv).reports
            && SameTarget(s, argv, ReadingOf(cfg, s, argv).used, s1, argv1, ReadingOf(cfg, s1, argv1).used)
            && s.optind <= s1.optind
            && (s.ordering == Permute ==>
                  s1.last == s1.optind && (s1.optind < |argv| ==> !IsOperand(argv1[s1.optind])))
  {
    hide TargetArgv, TargetOptind, Rotated, Scan, WSafe, Settled, LeadingOperands;
    SettledShape(s, argv);
    if s.ordering == Permute {
      var (s1, argv1) := Settled(s, argv);
      var s0 := s.(first := s.first + (s.optind - s.last), last := s.optind);
      RotateKeepsTarget(s, argv, ReadingOf(cfg, s, argv).used);
      var rest := argv1[s.optind..];
      var n := LeadingOperands(rest);
      ScanSkipsOperands(cfg, rest, n);
      assert rest[n..] == argv1[s.optind + n..];
      SkipKeepsTarget(s0, argv1, n, ReadingOf(cfg, s1, argv1).used);
    }
  }

  /** The guards around the exchange only leave out rotations that would change nothing. */
  lemma SettledShape(s: State, argv: seq<string>)
    requires s.first <= s.last <= s.optind <= |argv|
    ensures s.ordering != Permute ==> Settled(s, argv) == (s, argv)
    ensures s.ordering == Permute ==>
              var argv1 := Rotated(argv, s.first, s.last, s.optind);
              var n := LeadingOperands(argv1[s.optind..]);
              Settled(s, argv)
              == (s.(first := s.first + (s.optind - s.last), last := s.optind + n, optind := s.optind + n), argv1)
  {
    hide Rotated, LeadingOperands;
    if s.first == s.last || s.last == s.optind {
      RotateNothing(argv, s.first, s.last, s.optind);
    }
  }

  lemma DashesFollow(s: State, argv: seq<string>)
    requires s.first <= s.last <= s.optind < |argv| && argv[s.optind] == "--"
    requires s.ordering == Permute ==> s.last == s.optind
    requires s.ordering != Permute ==> s.first == s.last
    ensures var used := [true] + Repeat(false, |argv| - s.optind - 1);
            var e := Sought(s, argv);
            e.Ended? && e.argv == TargetArgv(s, argv, used) && e.s.optind == TargetOptind(s, argv, used)
  {
    hide TargetArgv, TargetOptind, Rotated;
    var n := |argv| - s.optind - 1;
    assert [true] == Repeat(true, 1);
    ConsumeKeepsTarget(s, argv, 1, Repeat(false, n));
    TargetWithoutOptions(s.(optind := s.optind + 1), argv);
    if s.first == s.last {
      RotateNothing(argv, s.first, s.last, s.optind + 1);
    }
  }

  /** With only operands unread, one rotation reaches the target. */
  lemma TargetWithoutOptions(s: State, argv: seq<string>)
    requires s.first <= s.last <= s.optind <= |argv|
    ensures var used := Repeat(false, |argv| - s.optind);
            && TargetArgv(s, argv, used) == Rotated(argv, s.first, s.last, s.optind)
            && TargetOptind(s, argv, used) == s.first + (s.optind - s.last)
  {
    PickUniform(argv[s.optind..], false, true);
    PickUniform(argv[s.optind..], false, false);
  }

  /** The end of a run: nothing is left to report, and the target is reached. */
  lemma EndFollows(cfg: Config, s: State, argv: seq<string>)
    requires WSafe(cfg) && Midway(s, argv) && UnreadOf(s) == ""
    requires s.ordering == Permute ==> s.last == s.optind && (s.optind < |argv| ==> !IsOperand(argv[s.optind]))
    requires Sought(s, argv).Ended?
    ensures var r := ReadingOf(cfg, s, argv);
            var e := Sought(s, argv);
            r.reports == [] && e.argv == TargetArgv(s, argv, r.used) && e.s.optind == TargetOptind(s, argv, r.used)
  {
    hide TargetArgv, TargetOptind, Rotated;
    var args := argv[s.optind..];
    if s.optind < |argv| && argv[s.optind] == "--" {
      DashesFollow(s, argv);
    } else {
      assert ReadingOf(cfg, s, argv).used == Repeat(false, |args|);
      TargetWithoutOptions(s, argv);
      RotateNothing(argv, s.first, s.last, s.optind);
    }
  }

  lemma ReadFollows(cfg: Config, s: State, argv: seq<string>, text: string)
    requires WSafe(cfg) && Midway(s, argv) && s.optind < |argv| && IsOption(argv[s.optind]) && text != ""
    ensures var r := Scan(cfg, s.ordering, argv[s.optind..], text);
            var c := ReadOption(cfg, s, argv, text);
            && Midway(c.s, c.argv) && c.s.ordering == s.ordering && c.report.Some? && c.argv == argv
            && r.reports == [c.report.value] + ReadingOf(cfg, c.s, c.argv).reports
            && SameTarget(s, argv, r.used, c.s, c.argv, ReadingOf(cfg, c.s, c.argv).used)
            && s.optind <= c.s.optind && (s.optind == c.s.optind ==> |UnreadOf(c.s)| < |text|)
  {
    hide TargetArgv, TargetOptind, ParseOption;
    var args := argv[s.optind..];
    assert args[0] == argv[s.optind] && args[1..] == argv[s.optind + 1..];
    var p := ParseOption(cfg, args[0], text, args[1..]);
    OptionProgresses(cfg, args[0], text, args[1..]);
    var c := ReadOption(cfg, s, argv, text);
    var r, r' := Scan(cfg, s.ordering, args, text), ReadingOf(cfg, c.s, argv);
    assert args[p.advance..] == argv[c.s.optind..];
    if p.advance == 0 {
      assert r.reports == [p.event] + r'.reports && r.used == r'.used;
      assert Repeat(true, 0) + r'.used == r'.used;
    } else {
      assert r.reports == [p.event] + r'.reports && r.used == Repeat(true, p.advance) + r'.used;
    }
    ConsumeKeepsTarget(s, argv, p.advance, r'.used);
    TargetIgnoresRest(s.(optind := c.s.optind), c.s, argv, r'.used);
  }

  lemma ElementStarts(cfg: Config, s: State, argv: seq<string>)
    requires WSafe(cfg) && Midway(s, argv) && UnreadOf(s) == "" && s.optind < |argv| && IsOption(argv[s.optind])
    ensures ReadingOf(cfg, s, argv)
            == Scan(cfg, s.ordering, argv[s.optind..], FirstText(cfg, argv[s.optind]))
  {
  }

  lemma OperandFollows(cfg: Config, s: State, argv: seq<string>)
    requires WSafe(cfg) && Midway(s, argv) && UnreadOf(s) == "" && s.ordering == ReturnInOrder
    requires s.optind < |argv| && IsOperand(argv[s.optind])
    ensures var r := ReadingOf(cfg, s, argv);
            var s' := s.(optarg := Some(argv[s.optind]), optind := s.optind + 1);
            && Midway(s', argv)
            && r.reports == [Simple(1, s'.optarg, None)] + ReadingOf(cfg, s', argv).reports
            && SameTarget(s, argv, r.used, s', argv, ReadingOf(cfg, s', argv).used)
  {
    var s' := s.(optarg := Some(argv[s.optind]), optind := s.optind + 1);
    assert argv[s.optind..][1..] == argv[s'.optind..];
    assert Repeat(true, 1) == [true];
    ConsumeKeepsTarget(s, argv, 1, ReadingOf(cfg, s', argv).used);
  }

  /** One call in the middle of a run reports the next report of the plain reading and stays on the
      way to the same target, or ends at the target when nothing is left to report. */
  lemma CallFollows(a: Arguments, s: State, argv: seq<string>)
    requires WSafe(a.Config()) && Midway(s, argv)
    ensures var r := ReadingOf(a.Config(), s, argv);
            var c := Call(a, s, argv);
            && c.report.None? == (r.reports == [])
            && (c.report.None? ==> c.argv == TargetArgv(s, argv, r.used) && c.s.optind == TargetOptind(s, argv, r.used))
            && (c.report.Some? ==>
                  && Midway(c.s, c.argv) && c.s.ordering == s.ordering
                  && r.reports == [c.report.value] + ReadingOf(a.Config(), c.s, c.argv).reports
                  && SameTarget(s, argv, r.used, c.s, c.argv, ReadingOf(a.Config(), c.s, c.argv).used))
  {
    hide TargetArgv, TargetOptind, Rotated, Scan, Settled, ReadOption;
    var cfg := a.Config();
    var s0 := Started(a, s);
    TargetIgnoresRest(s, s0, argv, ReadingOf(cfg, s, argv).used);
    if UnreadOf(s0) != "" {
      ReadFollows(cfg, s0, argv, UnreadOf(s0));
    } else {
      assert Clamped(s0) == s0;
      var (s1, argv1) := Settled(s0, argv);
      SettleFollows(cfg, s0, argv);
      match Sought(s1, argv1) {
        case Ended(_, _) => EndFollows(cfg, s1, argv1);
        case Operand(_, _) => OperandFollows(cfg, s1, argv1);
        case Element(_, _) =>
          ElementStarts(cfg, s1, argv1);
          ReadFollows(cfg, s1, argv1, FirstText(cfg, argv1[s1.optind]));
      }
    }
  }

  // ---- whole runs --------------------------------------------------------------------------

  lemma {:induction false} RunFollows(a: Arguments, s: State, argv: seq<string>)
    requires WSafe(a.Config()) && Midway(s, argv)
    ensures var r := ReadingOf(a.Config(), s, argv);
            RunFor(a, s, argv, |r.reports|)
            == Finished(r.reports, TargetOptind(s, argv, r.used), TargetArgv(s, argv, r.used))
    decreases |ReadingOf(a.Config(), s, argv).reports|
  {
    hide TargetArgv, TargetOptind, Call, ReadingOf;
    CallFollows(a, s, argv);
    var c := Call(a, s, argv);
    if c.report.Some? {
      RunFollows(a, c.s, c.argv);
    }
  }

  /** A state from which the next call starts over: never used, or `optind` reset to 0. */
  predicate Fresh(s: State, argv: seq<string>) {
    |argv| >= 1 && s.optind <= |argv| && (s.optind == 0 || !s.initialized)
  }

  function StartOf(s: State): nat {
    if s.optind == 0 then 1 else s.optind
  }

  lemma FreshRun(a: Arguments, s: State, argv: seq<string>, fuel: nat)
    requires Fresh(s, argv)
    ensures var s0 := Started(a, s);
            Midway(s0, argv) && RunFor(a, s, argv, fuel) == RunFor(a, s0, argv, fuel)
  {
  }

  /** The main result: from a fresh state, calling until -1 terminates, reports exactly what a plain
      left-to-right reading reports, and leaves behind what it had not looked at, then everything
      that was used up, then from `optind` on everything that was not, each in its original order. */
  lemma RunIsStablePartition(a: Arguments, s: State, argv: seq<string>)
    requires WSafe(a.Config()) && Fresh(s, argv)
    ensures var args := argv[StartOf(s)..];
            var r := Scan(a.Config(), a.Ordering(), args, "");
            RunFor(a, s, argv, |r.reports|)
            == Finished(r.reports, StartOf(s) + |Pick(args, r.used, true)|,
                        argv[..StartOf(s)] + Pick(args, r.used, true) + Pick(args, r.used, false))
  {
    hide RunFor, Scan, TargetArgv, TargetOptind;
    var s0 := Started(a, s);
    var r := Scan(a.Config(), a.Ordering(), argv[StartOf(s)..], "");
    FreshRun(a, s, argv, |r.reports|);
    RunFollows(a, s0, argv);
    TargetAtStart(s0, argv, r.used);
  }

  lemma TargetAtStart(s: State, argv: seq<string>, used: seq<bool>)
    requires s.first == s.last == s.optind <= |argv| && |used| == |argv| - s.optind
    ensures var args := argv[s.optind..];
            && TargetArgv(s, argv, used) == argv[..s.optind] + Pick(args, used, true) + Pick(args, used, false)
            && TargetOptind(s, argv, used) == s.optind + |Pick(args, used, true)|
  {
  }

  /** Using up some more in front does not disturb that order. */
  lemma UsesPrefixAfter(args: seq<string>, n: nat, used: seq<bool>)
    requires n <= |args| && n + |used| == |args|
    requires Pick(args[n..], used, true) + Pick(args[n..], used, false) == args[n..]
    ensures var all := Repeat(true, n) + used; Pick(args, all, true) + Pick(args, all, false) == args
  {
    hide Pick;
    PickRun(args, n, true, used, true);
    PickRun(args, n, true, used, false);
    var p, q := Pick(args[n..], used, true), Pick(args[n..], used, false);
    assert [] + q == q;
    Associative(args[..n], p, q);
    assert args == args[..n] + args[n..];
  }

  /** Outside PERMUTE mode nothing is used up after something was left alone. */
  lemma {:induction false} InOrderUsesPrefix(cfg: Config, ordering: Ordering, args: seq<string>, text: string)
    requires WSafe(cfg) && ordering != Permute && (text != "" ==> args != [] && IsOption(args[0]))
    ensures var used := Scan(cfg, ordering, args, text).used;
            Pick(args, used, true) + Pick(args, used, false) == args
    decreases |args|, if text == "" then 1 + (if args == [] then 0 else |args[0]|) else |text|
  {
    hide ParseOption, Pick, WSafe;
    if text == "" {
      if args == [] {
        PickUniform(args, true, true);
        PickUniform(args, true, false);
      } else if args[0] == "--" {
        PickUniform(args[1..], false, true);
        PickUniform(args[1..], false, false);
        UsesPrefixAfter(args, 1, Repeat(false, |args| - 1));
        assert Repeat(true, 1) == [true];
      } else if !IsOperand(args[0]) {
        InOrderUsesPrefix(cfg, ordering, args, FirstText(cfg, args[0]));
      } else if ordering == RequireOrder {
        PickUniform(args, false, true);
        PickUniform(args, false, false);
      } else {
        InOrderUsesPrefix(cfg, ordering, args[1..], "");
        UsesPrefixAfter(args, 1, Scan(cfg, ordering, args[1..], "").used);
        assert Repeat(true, 1) == [true];
      }
    } else {
      var p := ParseOption(cfg, args[0], text, args[1..]);
      OptionProgresses(cfg, args[0], text, args[1..]);
      if p.advance == 0 {
        InOrderUsesPrefix(cfg, ordering, args, Unread(p));
      } else {
        InOrderUsesPrefix(cfg, ordering, args[p.advance..], "");
        UsesPrefixAfter(args, p.advance, Scan(cfg, ordering, args[p.advance..], "").used);
      }
    }
  }

  /** In the two modes that do not permute, a run ends with `argv` as it was. */
  lemma RunInOrderKeepsArgv(a: Arguments, s: State, argv: seq<string>)
    requires WSafe(a.Config()) && Fresh(s, argv) && a.Ordering() != Permute
    ensures var r := Scan(a.Config(), a.Ordering(), argv[StartOf(s)..], "");
            var run := RunFor(a, s, argv, |r.reports|);
            run.Finished? && run.argv == argv
  {
    hide RunFor, Scan, Pick;
    var args := argv[StartOf(s)..];
    RunIsStablePartition(a, s, argv);
    InOrderUsesPrefix(a.Config(), a.Ordering(), args, "");
    var used := Scan(a.Config(), a.Ordering(), args, "").used;
    assert argv == argv[..StartOf(s)] + args;
    assert argv[..StartOf(s)] + (Pick(args, used, true) + Pick(args, used, false))
        == argv[..StartOf(s)] + Pick(args, used, true) + Pick(args, used, false);
  }

  // ---- exactly when every run ends ---------------------------------------------------------

  ghost predicate EveryRunEnds(a: Arguments) {
    forall s: State, argv: seq<string> | Fresh(s, argv) :: exists fuel: nat :: RunFor(a, s, argv, fuel).Finished?
  }

  const FRESH: State := State(1, None, '?' as int, false, None, Permute, 0, 0)

  /** With `W;` but no table of long options, "-Wx" is read again and again: the 'W' is reported,
      the rest of the element is dropped, and `optind` stays. */
  lemma StuckOnW(a: Arguments, s: State, fuel: nat)
    requires HasW(a.Config()) && a.longopts.None?
    requires s.initialized && s.optind == s.first == s.last == 1 && s.nextchar == None
    ensures RunFor(a, s, ["", "-Wx"], fuel) == Unfinished
    decreases fuel
  {
    var argv := ["", "-Wx"];
    var c := Call(a, s, argv);
    assert c == Called(s.(optarg := None), argv, Some(Simple('W' as int, None, None)));
    if fuel > 0 {
      StuckOnW(a, c.s, fuel - 1);
    }
  }

  /** A "-W" alone is then reported, and that is all. */
  lemma LoneW(a: Arguments)
    requires HasW(a.Config()) && a.longopts.None?
    ensures Call(a, FRESH, ["", "-W"]).report == Some(Simple('W' as int, None, None))
    ensures Call(a, FRESH, ["", "-W"]).s.optind == 2 && UnreadOf(Call(a, FRESH, ["", "-W"]).s) == ""
  {
    var argv := ["", "-W"];
    var (s1, argv1) := Settled(Clamped(Started(a, FRESH)), argv);
    assert argv[1..][0] == "-W";
    assert s1.optind == 1 && argv1 == argv;
    assert ParseShort(a.Config(), "W", []) == ParseW(a.Config(), "", []);
  }

  /** With `W;` and an ambiguous name, "-W name" at the end moves `optind` past `argc`. */
  lemma OverrunOnW(a: Arguments, name: string, fuel: nat)
    requires HasW(a.Config()) && a.longopts.Some? && '=' !in name
    requires LongMatch(a.longopts.value, a.longOnly, name).Ambiguous?
    ensures !RunFor(a, FRESH, ["", "-W", name], fuel).Finished?
    ensures Call(a, FRESH, ["", "-W", name]).report == Some(Simple('?' as int, Some(name), None))
  {
    var argv := ["", "-W", name];
    var cfg := a.Config();
    CutAtUnique(name, '=', |name|);
    assert name[..|name|] == name;
    var s0 := Started(a, FRESH);
    var (s1, argv1) := Settled(Clamped(s0), argv);
    assert argv[1..][0] == "-W";
    assert s1.optind == 1 && argv1 == argv;
    assert argv[2..] == [name];
    assert ParseShort(cfg, "W", [name]) == ParseW(cfg, "", [name]);
    assert Call(a, FRESH, argv).s.optind == 4;
  }

  /** Every run from every fresh state over every `argv` ends, if and only if `optstring` has no `W;`
      entry, or "-W name" is looked up in a table in which no beginning of a name is ambiguous. */
  lemma EveryRunEndsExactly(a: Arguments)
    ensures EveryRunEnds(a) <==> WSafe(a.Config())
  {
    hide RunFor, Scan, Pick, LongMatch, NoAmbiguousPrefix;
    if WSafe(a.Config()) {
      forall s: State, argv: seq<string> | Fresh(s, argv)
        ensures exists fuel: nat :: RunFor(a, s, argv, fuel).Finished?
      {
        RunIsStablePartition(a, s, argv);
      }
    } else {
      if a.longopts.None? {
        forall fuel: nat
          ensures !RunFor(a, FRESH, ["", "-Wx"], fuel).Finished?
        {
          FreshRun(a, FRESH, ["", "-Wx"], fuel);
          StuckOnW(a, Started(a, FRESH), fuel);
        }
        assert Fresh(FRESH, ["", "-Wx"]);
      } else {
        var name := AmbiguousName(a.longopts.value, a.longOnly);
        forall fuel: nat
          ensures !RunFor(a, FRESH, ["", "-W", name], fuel).Finished?
        {
          OverrunOnW(a, name, fuel);
        }
        assert Fresh(FRESH, ["", "-W", name]);
      }
    }
  }

  lemma AmbiguousName(longopts: seq<LongOption>, longOnly: bool) returns (name: string)
    requires !NoAmbiguousPrefix(longopts, longOnly)
    ensures '=' !in name && LongMatch(longopts, longOnly, name).Ambiguous?
  {
    hide LongMatch;
    var i, k :| 0 <= i < |longopts| && 0 <= k <= |longopts[i].name|
      && '=' !in longopts[i].name[..k] && LongMatch(longopts, longOnly, longopts[i].name[..k]).Ambiguous?;
    name := longopts[i].name[..k];
  }
}
