/** externals/getopt/getopt.c as it is written: a record of static data updated field by field while
    `argv` is rotated in place. Every method is proved against the functions of `GetoptParse` and
    `GetoptRun`, so the results about whole runs are results about this code. */
module Getopt {
  import opened Wrappers
  import opened GetoptRotation
  import opened GetoptParse
  import opened GetoptRun

  class GetoptData {
    var optind: nat
    var optarg: Option<string>
    var optopt: int
    var initialized: bool
    var nextchar: Option<string>
    var ordering: Ordering
    var first: nat
    var last: nat

    ghost function View(): State
      reads this
    {
      State(optind, optarg, optopt, initialized, nextchar, ordering, first, last)
    }

    /** The static initialisers of lines 51-53 and 57-69. */
    constructor ()
      ensures View() == FRESH
    {
      optind, optarg, optopt, initialized := 1, None, '?' as int, false;
      nextchar, ordering, first, last := None, Permute, 0, 0;
    }

    // `exchange_a`
    method ExchangeOperands(argv: array<string>)
      requires first <= last <= optind <= argv.Length
      modifies this`first, this`last, argv
      ensures argv[..] == Rotated(old(argv[..]), old(first), old(last), optind)
      ensures first == old(first) + (optind - old(last)) && last == optind
    {
      Exchange(argv, first, last, optind);
      first := first + (optind - last);
      last := optind;
    }

    // `_getopt_initialize_a` with lines 135-141
    method Initialize(a: Arguments)
      modifies this
      ensures View() == Started(a, old(View()))
    {
      optarg := None;
      if optind == 0 || !initialized {
        if optind == 0 {
          optind := 1;
        }
        first, last := optind, optind;
        nextchar := None;
        ordering := a.Ordering();
        initialized := true;
      }
    }

    // Lines 158-159
    method SkipOperands(argv: array<string>)
      requires optind <= argv.Length
      modifies this`optind
      ensures optind == old(optind) + LeadingOperands(argv[old(optind)..])
    {
      while optind < argv.Length && IsOperand(argv[optind])
        invariant old(optind) <= optind <= argv.Length
        invariant old(optind) + LeadingOperands(argv[old(optind)..]) == optind + LeadingOperands(argv[optind..])
      {
        assert argv[optind..][1..] == argv[optind + 1..];
        optind := optind + 1;
      }
    }

    // Lines 148-161
    method Settle(argv: array<string>)
      requires first <= last && optind <= argv.Length
      modifies this`first, this`last, this`optind, argv
      ensures View() == Settled(Clamped(old(View())), old(argv[..])).0
      ensures argv[..] == Settled(Clamped(old(View())), old(argv[..])).1
    {
      hide Rotated, LeadingOperands;
      if last > optind {
        last := optind;
      }
      if first > optind {
        first := optind;
      }
      if ordering == Permute {
        if first != last && last != optind {
          ExchangeOperands(argv);
        } else if last != optind {
          first := optind;
        }
        assert argv[optind..] == argv[..][optind..];
        SkipOperands(argv);
        last := optind;
      }
    }

    // Lines 162-184; `stop` when the call returns there, with the report it returns.
    method SeekElement(argv: array<string>) returns (stop: bool, report: Option<Event>)
      requires first <= last <= optind <= argv.Length && optarg == None
      modifies this, argv
      ensures var r := Sought(old(View()), old(argv[..]));
              && View() == r.s && argv[..] == r.argv && stop == !r.Element?
              && report == if r.Operand? then Some(Simple(1, r.s.optarg, None)) else None
    {
      hide Rotated;
      if optind != argv.Length && argv[optind] == "--" {
        optind := optind + 1;
        if first != last && last != optind {
          ExchangeOperands(argv);
        } else if first == last {
          first := optind;
        }
        last := argv.Length;
        optind := argv.Length;
      }
      if optind == argv.Length {
        if first != last {
          optind := first;
        }
        return true, None;
      }
      if IsOperand(argv[optind]) {
        if ordering == RequireOrder {
          return true, None;
        }
        optarg := Some(argv[optind]);
        optind := optind + 1;
        return true, Some(Simple(1, optarg, None));
      }
      return false, None;
    }

    // Lines 247-296 and 391-432, after the name was found; `optind` has moved past the name.
    method TakeLongArgument(argv: array<string>, cfg: Config, p: LongOption, index: nat, text: string)
        returns (e: Event)
      requires optind <= argv.Length
      modifies this
      ensures var r := TakeLong(cfg, p, index, text, argv[old(optind)..], old(optarg), 0);
              e == r.event && View() == Apply(old(View()), r)
    {
      var nameEnd := NameEnd(text);
      var longName := optarg.None?;   // "--name" rather than "-W name"
      nextchar := Some("");
      if nameEnd < |text| {
        if p.hasArg != 0 {
          optarg := Some(text[nameEnd + 1..]);
        } else {
          if longName {
            optopt := p.val;
          }
          return Simple('?' as int, optarg, if longName then Some(p.val) else None);
        }
      } else if p.hasArg == 1 {
        if optind < argv.Length {
          optarg := Some(argv[optind]);
          optind := optind + 1;
        } else {
          if longName {
            optopt := p.val;
          }
          return Simple(MissingArgument(cfg), optarg, if longName then Some(p.val) else None);
        }
      } else {
        optarg := None;
      }
      if p.flag.Some? {
        return Event(0, optarg, None, Some(index), Some((p.flag.value, p.val)));
      }
      return Event(p.val, optarg, None, Some(index), None);
    }

    // Lines 189-315
    method ReadLong(argv: array<string>, cfg: Config) returns (e: Option<Event>)
      requires optind < argv.Length && IsOption(argv[optind]) && cfg.longopts.Some?
      requires nextchar.Some? && nextchar.value != "" && optarg == None
      modifies this
      ensures var r := ParseLong(cfg, argv[old(optind)], old(nextchar.value), argv[old(optind) + 1..]);
              && e.Some? == r.Some?
              && (r.None? ==> View() == old(View()))
              && (r.Some? ==> e.value == r.value.event && View() == Apply(old(View()), r.value))
    {
      var text := nextchar.value;
      var nameEnd := NameEnd(text);
      var m := FindLongOption(cfg.longopts.value, cfg.longOnly, text[..nameEnd]);
      if m.Ambiguous? {
        nextchar := Some("");
        optind := optind + 1;
        optopt := 0;
        return Some(Simple('?' as int, None, Some(0)));
      }
      if m.Found? {
        ghost var rest := argv[optind + 1..];
        optind := optind + 1;
        TakeLongShifts(cfg, cfg.longopts.value[m.index], m.index, text, rest, None, 1);
        var event := TakeLongArgument(argv, cfg, cfg.longopts.value[m.index], m.index, text);
        return Some(event);
      }
      if !cfg.longOnly || argv[optind][1] == '-' || Find(cfg.opts, text[0]).None? {
        nextchar := Some("");
        optind := optind + 1;
        optopt := 0;
        return Some(Simple('?' as int, None, Some(0)));
      }
      return None;
    }

    // Lines 333-436; the 'W' at the front of element `at` has been read, and `optind` has moved on if
    // that ended the element.
    method ReadW(argv: array<string>, cfg: Config, ghost at: nat) returns (e: Event)
      requires nextchar.Some? && optarg == None && at < argv.Length
      requires optind == if nextchar.value == "" then at + 1 else at
      modifies this
      ensures var r := ParseW(cfg, old(nextchar.value), argv[at + 1..]);
              e == r.event && View() == Apply(old(View()).(optind := at), r)
    {
      hide ParseWName;
      if cfg.longopts.None? {
        nextchar := None;
        return Simple('W' as int, None, None);
      }
      if nextchar.value != "" {
        optarg := nextchar;
        optind := optind + 1;
      } else if optind == argv.Length {
        optopt := 'W' as int;
        return Simple(MissingArgument(cfg), None, Some('W' as int));
      } else {
        optarg := Some(argv[optind]);
        optind := optind + 1;
        assert argv[at + 1..][1..] == argv[optind..];
      }
      assert optind <= argv.Length;
      WNameShifts(cfg, optarg.value, argv[optind..], optind - at);
      e := ReadWName(argv, cfg);
    }

    // Lines 362-436
    method ReadWName(argv: array<string>, cfg: Config) returns (e: Event)
      requires optarg.Some? && cfg.longopts.Some? && optind <= argv.Length
      modifies this
      ensures var r := ParseWName(cfg, old(optarg.value), argv[old(optind)..], 0);
              e == r.event && View() == Apply(old(View()), r)
    {
      var text := optarg.value;
      nextchar := optarg;
      var nameEnd := NameEnd(text);
      var m := FindLongOption(cfg.longopts.value, cfg.longOnly, text[..nameEnd]);
      if m.Ambiguous? {
        nextchar := Some("");
        optind := optind + 1;
        return Simple('?' as int, optarg, None);
      }
      if m.Found? {
        e := TakeLongArgument(argv, cfg, cfg.longopts.value[m.index], m.index, text);
        return;
      }
      nextchar := None;
      return Simple('W' as int, optarg, None);
    }
  
    // Lines 317-476
    method ReadShort(argv: array<string>, cfg: Config) returns (e: Event)
      requires optind < argv.Length && nextchar.Some? && nextchar.value != "" && optarg == None
      modifies this
      ensures var r := ParseShort(cfg, old(nextchar.value), argv[old(optind) + 1..]);
              e == r.event && View() == Apply(old(View()), r)
    {
      hide ParseW;
      ghost var at := optind;
      var c := nextchar.value[0];
      nextchar := Some(nextchar.value[1..]);
      var temp := Find(cfg.opts, c);
      if nextchar.value == "" {
        optind := optind + 1;
      }
      if temp.None? || c == ':' || c == ';' {
        optopt := c as int;
        return Simple('?' as int, None, Some(c as int));
      }
      if c == 'W' && At(cfg.opts, temp.value + 1) == ';' {
        e := ReadW(argv, cfg, at);
        return;
      }
      if At(cfg.opts, temp.value + 1) == ':' {
        if At(cfg.opts, temp.value + 2) == ':' {
          if nextchar.value != "" {
            optarg := nextchar;
            optind := optind + 1;
          }
        } else if nextchar.value != "" {
          optarg := nextchar;
          optind := optind + 1;
        } else if optind == argv.Length {
          optopt := c as int;
          nextchar := None;
          return Simple(MissingArgument(cfg), None, Some(c as int));
        } else {
          optarg := Some(argv[optind]);
          optind := optind + 1;
        }
        nextchar := None;
      }
      return Simple(c as int, optarg, None);
    }

    // Lines 187-476
    method ReadElement(argv: array<string>, cfg: Config) returns (e: Event)
      requires optind < argv.Length && IsOption(argv[optind])
      requires nextchar.Some? && nextchar.value != "" && optarg == None
      modifies this
      ensures var r := ReadOption(cfg, old(View()), argv[..], old(nextchar.value));
              View() == r.s && r.report == Some(e)
    {
      hide ParseShort, ParseLong;
      assert argv[..][optind + 1..] == argv[optind + 1..];
      if TriesLong(cfg, argv[optind]) {
        var long := ReadLong(argv, cfg);
        if long.Some? {
          return long.value;
        }
      }
      e := ReadShort(argv, cfg);
    }

    /** `_getopt_internal_r_a`: one call; no report is the result -1. */
    method Internal(argv: array<string>, a: Arguments) returns (report: Option<Event>)
      requires argv.Length >= 1 ==> Ready(View(), argv[..])
      modifies this, argv
      ensures argv.Length < 1 ==> report == None && View() == old(View())
      ensures argv.Length >= 1 ==> Call(a, old(View()), old(argv[..])) == Called(View(), argv[..], report)
    {
      hide Settled, Sought, ParseOption;
      if argv.Length < 1 {
        return None;
      }
      Initialize(a);
      var cfg := a.Config();
      if nextchar.None? || nextchar.value == "" {
        Settle(argv);
        var stop, r := SeekElement(argv);
        if stop {
          return r;
        }
        nextchar := Some(FirstText(cfg, argv[optind]));
      }
      var e := ReadElement(argv, cfg);
      return Some(e);
    }

    /** A caller's loop: call until -1, collecting the reports. */
    method ParseAll(argv: array<string>, a: Arguments) returns (reports: seq<Event>)
      requires Fresh(View(), argv[..]) && WSafe(a.Config())
      modifies this, argv
      ensures var start := StartOf(old(View()));
              var args := old(argv[..])[start..];
              var r := Scan(a.Config(), a.Ordering(), args, "");
              && reports == r.reports
              && optind == start + |Pick(args, r.used, true)|
              && argv[..] == old(argv[..])[..start] + Pick(args, r.used, true) + Pick(args, r.used, false)
    {
      hide Call, RunFor, Scan, Pick;
      reports := [];
      RunIsStablePartition(a, View(), argv[..]);
      ghost var r := Scan(a.Config(), a.Ordering(), argv[StartOf(View())..], "");
      ghost var goal := RunFor(a, View(), argv[..], |r.reports|);
      while true
        invariant argv.Length >= 1 && |reports| <= |r.reports| && goal.Finished?
        invariant Rest(reports, RunFor(a, View(), argv[..], |r.reports| - |reports|)) == goal
        decreases |r.reports| - |reports|
      {
        ghost var s, v := View(), argv[..];
        RunStep(a, s, v, |r.reports| - |reports|, reports);
        var report := Internal(argv, a);
        if report.None? {
          return;
        }
        reports := reports + [report.value];
      }
    }
  }

  /** The outcome of a run that has already made `reports`. */
  function Rest(reports: seq<Event>, run: Run): Run {
    if run.Finished? then run.(reports := reports + run.reports) else run
  }

  lemma RunStep(a: Arguments, s: State, argv: seq<string>, fuel: nat, reports: seq<Event>)
    requires |argv| >= 1 && RunFor(a, s, argv, fuel).Finished?
    ensures Ready(s, argv)
    ensures var c := Call(a, s, argv);
            if c.report.None? then
              Rest(reports, RunFor(a, s, argv, fuel)) == Finished(reports, c.s.optind, c.argv)
            else
              && fuel > 0
              && Rest(reports, RunFor(a, s, argv, fuel))
                 == Rest(reports + [c.report.value], RunFor(a, c.s, c.argv, fuel - 1))
  {
    hide Call;
    var c := Call(a, s, argv);
    if c.report.Some? {
      var tail := RunFor(a, c.s, c.argv, fuel - 1);
      if tail.Finished? {
        assert reports + ([c.report.value] + tail.reports) == reports + [c.report.value] + tail.reports;
      }
    }
  }

  lemma WNameShifts(cfg: Config, text: string, rest: seq<string>, advance: nat)
    requires cfg.longopts.Some?
    ensures var r := ParseWName(cfg, text, rest, 0);
            ParseWName(cfg, text, rest, advance) == r.(advance := r.advance + advance)
  {
  }

  lemma TakeLongShifts(cfg: Config, p: LongOption, index: nat, text: string, rest: seq<string>,
                       argIfError: Option<string>, advance: nat)
    ensures var r := TakeLong(cfg, p, index, text, rest, argIfError, 0);
            TakeLong(cfg, p, index, text, rest, argIfError, advance) == r.(advance := r.advance + advance)
  {
  }
}
