/** A command line written out from options and operands is read back as those options and operands.
    `Item` follows the forms of section 12.2 of the POSIX.1-2017 Base Definitions (grouped flags, an
    option-argument joined to its option or standing apart) and the GNU forms: optional arguments, long
    options, and long options spelled with `-W`. Items that are mistakes are spelled as well, and are read
    back as the reports they deserve. */
module GetoptRoundTrip {
  import opened Wrappers
  import opened Sequences
  import opened GetoptParse
  import opened GetoptRun

  datatype Tail =
    | Plain
    | Joined(c: char, arg: string)
    | Apart(c: char, arg: string)
    | Alone(c: char)                    // an option that may, or should, have an argument, without one
    | Named(joined: bool, name: string, value: Option<string>, apart: Option<string>)    // a long option behind 'W'

  datatype Item =
    | Group(flags: string, tail: Tail)             // -ab, -abofile, -abo file, -abp, -abWname=value, -abW name arg
    | Long(name: string, value: Option<string>, single: bool)    // --name, --name=value, or with a single dash
    | LongApart(name: string, arg: string, single: bool)         // --name value, or with a single dash
    | Operand(text: string)

  /** What follows the items: nothing, "--" and operands, or, where options must come first, an operand. */
  datatype Ending = Bare | Marked(rest: seq<string>) | Stopped(rest: seq<string>)

  /** What stands behind `c` in `optstring`. */
  function Behind(opts: string, c: char): Option<string> {
    if opts == "" then None else if opts[0] == c then Some(opts[1..]) else Behind(opts[1..], c)
  }

  /** How many arguments `optstring` gives to `c`: 0 none, 1 required, 2 optional; None for an unknown option. */
  function Arity(cfg: Config, c: char): Option<nat> {
    var b := Behind(cfg.opts, c);
    if b.None? || c == ':' || c == ';' then None
    else if !(":" <= b.value) then Some(0)
    else if !("::" <= b.value) then Some(1)
    else Some(2)
  }

  /** "-W name" is asked for. */
  predicate TakesNames(cfg: Config) {
    var b := Behind(cfg.opts, 'W');
    b.Some? && ";" <= b.value
  }

  /** The option that a long name stands for, with its index. */
  function LongIndex(cfg: Config, name: string): (r: Option<nat>)
    ensures r.Some? ==> cfg.longopts.Some? && r.value < |cfg.longopts.value|
  {
    if cfg.longopts.None? then None else
      var m := LongMatch(cfg.longopts.value, cfg.longOnly, name);
      if m.Found? then Some(m.index) else None
  }

  /** "name" is to be followed by an argument. */
  predicate Wants(cfg: Config, name: string, value: Option<string>) {
    var i := LongIndex(cfg, name);
    i.Some? && value.None? && cfg.longopts.value[i.value].hasArg == 1
  }

  function ValueText(value: Option<string>): string {
    if value.Some? then "=" + value.value else ""
  }

  function TailText(tail: Tail): string {
    match tail
    case Plain => ""
    case Joined(c, arg) => [c] + arg
    case Apart(c, _) => [c]
    case Alone(c) => [c]
    case Named(joined, name, value, _) => ['W'] + if joined then name + ValueText(value) else ""
  }

  /** The elements behind the one that the group stands in. */
  function TailMore(tail: Tail): seq<string> {
    match tail
    case Apart(_, arg) => [arg]
    case Named(joined, name, value, arg) =>
      (if joined then [] else [name + ValueText(value)]) + (if arg.Some? then [arg.value] else [])
    case _ => []
  }

  predicate TailFits(cfg: Config, tail: Tail) {
    match tail
    case Plain => true
    case Joined(c, arg) => Arity(cfg, c) in {Some(1), Some(2)} && arg != ""
    case Apart(c, _) => Arity(cfg, c) == Some(1)
    case Alone(c) => Arity(cfg, c) in {Some(1), Some(2)} || (c == 'W' && TakesNames(cfg))
    case Named(joined, name, value, arg) =>
      && TakesNames(cfg) && '=' !in name && (joined ==> name + ValueText(value) != "")
      && (arg.Some? ==> Wants(cfg, name, value))
  }

  /** It asks for an argument and has none. */
  predicate TailLacks(cfg: Config, tail: Tail) {
    match tail
    case Alone(c) => Arity(cfg, c) != Some(2)
    case Named(_, name, value, arg) => arg.None? && Wants(cfg, name, value)
    case _ => false
  }

  /** The result for a missing argument: the caller asks for ':' by a ':' in front of the options. */
  function Missing(cfg: Config): int {
    if cfg.opts != "" && cfg.opts[0] == ':' then ':' as int else '?' as int
  }

  /** A long option with its argument, if any. */
  function Taken(p: LongOption, i: nat, arg: Option<string>): Event {
    if p.flag.Some? then Event(0, arg, None, Some(i), Some((p.flag.value, p.val)))
    else Event(p.val, arg, None, Some(i), None)
  }

  /** What "--name", "--name=value" or "--name arg" means to the caller. */
  function LongEvent(cfg: Config, name: string, value: Option<string>, arg: Option<string>): Event {
    var i := LongIndex(cfg, name);
    if i.None? then Simple('?' as int, None, Some(0)) else
      var p := cfg.longopts.value[i.value];
      if value.Some? && p.hasArg == 0 then Simple('?' as int, None, Some(p.val))
      else if arg.None? && Wants(cfg, name, value) then Simple(Missing(cfg), None, Some(p.val))
      else Taken(p, i.value, if value.Some? then value else arg)
  }

  /** What it means behind a 'W'. */
  function NamedEvent(cfg: Config, name: string, value: Option<string>, arg: Option<string>): Event {
    var i, text := LongIndex(cfg, name), name + ValueText(value);
    if i.None? then Simple('W' as int, Some(text), None) else
      var p := cfg.longopts.value[i.value];
      if value.Some? && p.hasArg == 0 then Simple('?' as int, Some(text), None)
      else if arg.None? && Wants(cfg, name, value) then Simple(Missing(cfg), Some(text), None)
      else Taken(p, i.value, if value.Some? then value else arg)
  }

  function TailEvents(cfg: Config, tail: Tail): seq<Event> {
    match tail
    case Plain => []
    case Joined(c, arg) => [Simple(c as int, Some(arg), None)]
    case Apart(c, arg) => [Simple(c as int, Some(arg), None)]
    case Alone(c) => [if TailLacks(cfg, tail) then Simple(Missing(cfg), None, Some(c as int))
                      else Simple(c as int, None, None)]
    case Named(_, name, value, arg) => [NamedEvent(cfg, name, value, arg)]
  }

  function GroupText(item: Item): string
    requires item.Group?
  {
    item.flags + TailText(item.tail)
  }

  function Dashes(single: bool): string {
    if single then "-" else "--"
  }

  /** The option at the front of `text` is read as a short one: the element is not tried as a long option, or it is
      one under long-only parsing that begins no long name. */
  predicate FallsThrough(cfg: Config, elem: string, text: string)
    requires |elem| > 1 && text != ""
  {
    cfg.longopts.Some? ==>
      && elem[1] != '-'
      && (cfg.longOnly && !(|elem| == 2 && elem[1] in cfg.opts) ==>
            && text[0] in cfg.opts
            && LongMatch(cfg.longopts.value, cfg.longOnly, text[..CutAt(text, '=')]).NotFound?)
  }

  /** So are all options of a group, each of which is tried anew. */
  predicate AllFallThrough(cfg: Config, elem: string, flags: string, tail: Tail)
    requires |elem| > 1
  {
    if flags == "" then tail.Plain? || FallsThrough(cfg, elem, TailText(tail))
    else FallsThrough(cfg, elem, flags + TailText(tail)) && AllFallThrough(cfg, elem, flags[1..], tail)
  }

  /** A single dash is for long-only parsing, and not for what would be read as a short option. */
  predicate DashesFit(cfg: Config, single: bool, text: string) {
    single ==> cfg.longOnly && text != "" && text[0] != '-' && (|text| > 1 || text[0] !in cfg.opts)
  }

  /** A flag, or an option that `optstring` does not know. */
  predicate IsFlag(cfg: Config, c: char) {
    Arity(cfg, c) in {Some(0), None} && !(c == 'W' && TakesNames(cfg))
  }

  /** Not an option: it does not begin with a dash, or is one. */
  predicate IsPlain(text: string) {
    text == "-" || !("-" <= text)
  }

  predicate WellFormed(cfg: Config, item: Item) {
    match item
    case Operand(text) => IsPlain(text)
    case Group(flags, tail) =>
      && GroupText(item) != "" && GroupText(item) != "-"
      && (forall c :: c in flags ==> IsFlag(cfg, c)) && TailFits(cfg, tail)
      && AllFallThrough(cfg, "-" + GroupText(item), flags, tail)
    case Long(name, value, single) =>
      var text := name + ValueText(value);
      && text != "" && DashesFit(cfg, single, text) && cfg.longopts.Some? && '=' !in name
      && (single && LongMatch(cfg.longopts.value, cfg.longOnly, name).NotFound? ==> text[0] !in cfg.opts)
    case LongApart(name, _, single) =>
      name != "" && DashesFit(cfg, single, name) && cfg.longopts.Some? && '=' !in name && Wants(cfg, name, None)
  }

  /** The item ends before the argument it asks for: a mistake if nothing follows, and another item otherwise. */
  predicate Lacks(cfg: Config, item: Item) {
    match item
    case Group(_, tail) => TailLacks(cfg, tail)
    case Long(name, value, _) => Wants(cfg, name, value)
    case _ => false
  }

  function Render(item: Item): (args: seq<string>)
    ensures args != []
  {
    match item
    case Operand(text) => [text]
    case Group(_, tail) => ["-" + GroupText(item)] + TailMore(tail)
    case Long(name, value, single) => [Dashes(single) + (name + ValueText(value))]
    case LongApart(name, arg, single) => [Dashes(single) + name, arg]
  }

  function FlagEvent(cfg: Config, c: char): Event {
    if Arity(cfg, c).None? then Simple('?' as int, None, Some(c as int)) else Simple(c as int, None, None)
  }

  function FlagEvents(cfg: Config, flags: string): seq<Event> {
    if flags == "" then [] else [FlagEvent(cfg, flags[0])] + FlagEvents(cfg, flags[1..])
  }

  /** What the item means to the caller. */
  function Meaning(cfg: Config, o: Ordering, item: Item): seq<Event> {
    match item
    case Operand(text) => if o == ReturnInOrder then [Simple(1, Some(text), None)] else []
    case Group(flags, tail) => FlagEvents(cfg, flags) + TailEvents(cfg, tail)
    case Long(name, value, _) => [LongEvent(cfg, name, value, None)]
    case LongApart(name, arg, _) => [LongEvent(cfg, name, None, Some(arg))]
  }

  function RenderAll(items: seq<Item>): seq<string> {
    if items == [] then [] else Render(items[0]) + RenderAll(items[1..])
  }

  function MeaningAll(cfg: Config, o: Ordering, items: seq<Item>): seq<Event> {
    if items == [] then [] else Meaning(cfg, o, items[0]) + MeaningAll(cfg, o, items[1..])
  }

  /** Operands stay where they are when options are permuted. */
  predicate Stays(o: Ordering, item: Item) {
    item.Operand? && o == Permute
  }

  function LeftAlone(o: Ordering, items: seq<Item>): seq<string> {
    if items == [] then [] else (if Stays(o, items[0]) then Render(items[0]) else []) + LeftAlone(o, items[1..])
  }

  function UsedUp(o: Ordering, items: seq<Item>): seq<string> {
    if items == [] then [] else (if Stays(o, items[0]) then [] else Render(items[0])) + UsedUp(o, items[1..])
  }

  function EndingArgs(e: Ending): seq<string> {
    match e
    case Bare => []
    case Marked(rest) => ["--"] + rest
    case Stopped(rest) => rest
  }

  function EndingUsed(e: Ending): seq<string> {
    if e.Marked? then ["--"] else []
  }

  function EndingLeft(e: Ending): seq<string> {
    if e.Bare? then [] else e.rest
  }

  predicate EndingFits(o: Ordering, e: Ending) {
    e.Stopped? ==> o == RequireOrder && e.rest != [] && IsPlain(e.rest[0])
  }

  /** A command line: operands among the options unless options must come first, and nothing behind an item
      that lacks its argument. */
  predicate Line(cfg: Config, o: Ordering, items: seq<Item>, e: Ending) {
    && EndingFits(o, e)
    && forall i :: 0 <= i < |items| ==>
         && WellFormed(cfg, items[i]) && (items[i].Operand? ==> o != RequireOrder)
         && (Lacks(cfg, items[i]) ==> i == |items| - 1 && e.Bare?)
  }

  /** The reading of `used` arguments that report `events`, followed by the reading `r`. */
  function Then(events: seq<Event>, used: seq<bool>, r: Reading): Reading {
    Reading(events + r.reports, used + r.used)
  }

  // ---- one item ----------------------------------------------------------------------------

  lemma {:induction false} FindIsBehind(opts: string, c: char)
    ensures var t, b := Find(opts, c), Behind(opts, c);
            && (t.Some? <==> c in opts) && (b.Some? <==> c in opts)
            && (t.Some? ==> t.value < |opts| && b.value == opts[t.value + 1..])
  {
    if opts != "" && opts[0] != c {
      FindIsBehind(opts[1..], c);
      assert opts == [opts[0]] + opts[1..];
    }
  }

  /** How the code looks into `optstring`. */
  lemma OptionLooked(cfg: Config, c: char)
    ensures var t := Find(cfg.opts, c);
            && (t.Some? <==> c in cfg.opts)
            && (t.None? || c == ':' || c == ';' <==> Arity(cfg, c).None?)
            && (Arity(cfg, c).Some? ==>
                  && (At(cfg.opts, t.value + 1) == ':' <==> Arity(cfg, c) != Some(0))
                  && (Arity(cfg, c) != Some(0) ==>
                        (At(cfg.opts, t.value + 2) == ':' <==> Arity(cfg, c) == Some(2))))
    ensures HasW(cfg) <==> TakesNames(cfg)
  {
    hide Find, Behind;
    FindIsBehind(cfg.opts, c);
    FindIsBehind(cfg.opts, 'W');
    MarksBehind(cfg.opts, c);
    MarksBehind(cfg.opts, 'W');
  }

  lemma MarksBehind(opts: string, c: char)
    requires c in opts ==> Find(opts, c).Some? && Find(opts, c).value < |opts|
    ensures c in opts ==>
              var k := Find(opts, c).value + 1;
              && (":" <= opts[k..] <==> At(opts, k) == ':') && (";" <= opts[k..] <==> At(opts, k) == ';')
              && (At(opts, k) == ':' ==> ("::" <= opts[k..] <==> At(opts, k + 1) == ':'))
  {
    hide Find;
    if c in opts {
      var k := Find(opts, c).value + 1;
      if k < |opts| {
        assert opts[k..][0] == opts[k];
        assert k + 1 < |opts| ==> opts[k..][1] == opts[k + 1];
      }
    }
  }

  lemma ScanStep(cfg: Config, o: Ordering, args: seq<string>, text: string)
    requires WSafe(cfg) && text != "" && args != [] && IsOption(args[0])
    ensures var p := ParseOption(cfg, args[0], text, args[1..]);
            && Progresses(text, args[1..], p)
            && (p.advance == 0 ==> Scan(cfg, o, args, text) == Then([p.event], [], Scan(cfg, o, args, Unread(p))))
            && (p.advance > 0 ==>
                  Scan(cfg, o, args, text)
                  == Then([p.event], Repeat(true, p.advance), Scan(cfg, o, args[p.advance..], "")))
  {
    hide ParseOption;
    OptionProgresses(cfg, args[0], text, args[1..]);
  }

  lemma ParsedAsShort(cfg: Config, elem: string, text: string, rest: seq<string>)
    requires IsOption(elem) && text != "" && FallsThrough(cfg, elem, text)
    ensures ParseOption(cfg, elem, text, rest) == ParseShort(cfg, text, rest)
  {
    hide LongMatch, Find;
    OptionLooked(cfg, elem[1]);
    OptionLooked(cfg, text[0]);
  }

  /** An option of one character, with or without its argument. */
  lemma ShortTailParsed(cfg: Config, tail: Tail, more: seq<string>)
    requires tail.Joined? || tail.Apart? || tail.Alone?
    requires TailFits(cfg, tail) && WSafe(cfg) && (TailLacks(cfg, tail) ==> more == [])
    ensures var p := ParseShort(cfg, TailText(tail), TailMore(tail) + more);
            [p.event] == TailEvents(cfg, tail) && p.advance == 1 + |TailMore(tail)|
  {
    hide Arity, Find, TakesNames;
    OptionLooked(cfg, tail.c);
    var text := TailText(tail);
    assert text[0] == tail.c && text[1..] == if tail.Joined? then tail.arg else "";
  }

  /** Its name ends at the first '='. */
  lemma NameCut(name: string, value: Option<string>)
    requires '=' !in name
    ensures var text := name + ValueText(value);
            && CutAt(text, '=') == |name| <= |text| && text[..|name|] == name
            && (|name| < |text| <==> value.Some?) && (value.Some? ==> text[|name| + 1..] == value.value)
  {
    var text := name + ValueText(value);
    assert text[..|name|] == name;
    assert value.Some? ==> text[|name|] == '=' && text[|name| + 1..] == value.value;
    CutAtUnique(text, '=', |name|);
  }

  /** The name behind a 'W', wherever it stands. */
  lemma NamedParsed(cfg: Config, name: string, value: Option<string>, arg: Option<string>, more: seq<string>,
                    advance: nat)
    requires TakesNames(cfg) && WSafe(cfg) && cfg.longopts.Some? && '=' !in name
    requires arg.Some? ==> Wants(cfg, name, value)
    requires arg.None? && Wants(cfg, name, value) ==> more == []
    ensures var own := if arg.Some? then [arg.value] else [];
            var p := ParseWName(cfg, name + ValueText(value), own + more, advance);
            p.event == NamedEvent(cfg, name, value, arg) && p.advance == advance + |own|
  {
    hide LongMatch, CutAt, ValueText;
    OptionLooked(cfg, 'W');
    NameCut(name, value);
    AmbiguousIsPrefix(cfg.longopts.value, cfg.longOnly, name);
  }

  lemma NamedTailParsed(cfg: Config, tail: Tail, more: seq<string>)
    requires tail.Named? && TailFits(cfg, tail) && WSafe(cfg) && (TailLacks(cfg, tail) ==> more == [])
    ensures var p := ParseShort(cfg, TailText(tail), TailMore(tail) + more);
            [p.event] == TailEvents(cfg, tail) && p.advance == 1 + |TailMore(tail)|
  {
    hide ParseShort, ParseWName, NamedEvent, WSafe, TakesNames, ValueText;
    OptionLooked(cfg, 'W');
    WMeans(cfg);
    var Named(joined, name, value, arg) := tail;
    var text, own := name + ValueText(value), if arg.Some? then [arg.value] else [];
    NamedParsed(cfg, name, value, arg, more, if joined then 1 else 2);
    NameReached(cfg, joined, text, own + more);
    assert TailMore(tail) + more == if joined then own + more else [text] + (own + more);
  }

  /** The name behind a 'W' is what follows in the element, or the next element. */
  lemma NameReached(cfg: Config, joined: bool, text: string, rest: seq<string>)
    requires TakesNames(cfg) && cfg.longopts.Some? && (joined ==> text != "")
    ensures ParseShort(cfg, ['W'] + if joined then text else "", if joined then rest else [text] + rest)
            == ParseWName(cfg, text, rest, if joined then 1 else 2)
  {
    hide ParseWName, TakesNames;
    OptionLooked(cfg, 'W');
    var element := ['W'] + if joined then text else "";
    assert element[0] == 'W' && element[1..] == if joined then text else "";
    assert ([text] + rest)[1..] == rest;
  }

  lemma WMeans(cfg: Config)
    requires HasW(cfg) && WSafe(cfg)
    ensures cfg.longopts.Some?
  {
  }

  /** The last option of a group. */
  lemma ScanTail(cfg: Config, o: Ordering, elem: string, tail: Tail, more: seq<string>)
    requires WSafe(cfg) && IsOption(elem) && !tail.Plain? && TailFits(cfg, tail)
    requires FallsThrough(cfg, elem, TailText(tail)) && (TailLacks(cfg, tail) ==> more == [])
    ensures var own := [elem] + TailMore(tail);
            Scan(cfg, o, own + more, TailText(tail))
            == Then(TailEvents(cfg, tail), Repeat(true, |own|), Scan(cfg, o, more, ""))
  {
    hide Scan, LongMatch, WSafe, TailFits, TailLacks, ParseShort, ParseOption, FallsThrough, TailMore, TailEvents;
    var text := TailText(tail);
    var own := [elem] + TailMore(tail);
    var args := own + more;
    assert args[|own|..] == more && args[1..] == TailMore(tail) + more;
    ParsedAsShort(cfg, elem, text, args[1..]);
    if tail.Named? {
      NamedTailParsed(cfg, tail, more);
    } else {
      ShortTailParsed(cfg, tail, more);
    }
    ScanStep(cfg, o, args, text);
  }

  lemma FlagParsed(cfg: Config, elem: string, c: char, text: string, rest: seq<string>)
    requires IsOption(elem) && FallsThrough(cfg, elem, [c] + text) && IsFlag(cfg, c)
    ensures ParseOption(cfg, elem, [c] + text, rest)
            == Parsed(FlagEvent(cfg, c), Some(text), if text == "" then 1 else 0)
  {
    hide ParseOption, FallsThrough, Arity, Find, At, TakesNames;
    OptionLooked(cfg, c);
    ParsedAsShort(cfg, elem, [c] + text, rest);
    assert ([c] + text)[1..] == text;
  }

  lemma PlainTail(cfg: Config, tail: Tail)
    ensures TailText(tail) == "" <==> tail == Plain
    ensures TailEvents(cfg, Plain) == [] && TailMore(Plain) == []
  {
  }

  /** One flag, with what follows it in the element. */
  lemma ScanFlag(cfg: Config, o: Ordering, args: seq<string>, c: char, text: string)
    requires WSafe(cfg) && args != [] && IsOption(args[0]) && FallsThrough(cfg, args[0], [c] + text) && IsFlag(cfg, c)
    ensures Scan(cfg, o, args, [c] + text)
            == if text == "" then Then([FlagEvent(cfg, c)], Repeat(true, 1), Scan(cfg, o, args[1..], ""))
               else Then([FlagEvent(cfg, c)], [], Scan(cfg, o, args, text))
  {
    hide Scan, ParseOption, IsFlag, FallsThrough, FlagEvent, WSafe, IsOption;
    FlagParsed(cfg, args[0], c, text, args[1..]);
    ScanStep(cfg, o, args, [c] + text);
  }

  lemma {:induction false} ScanGroup(
      cfg: Config, o: Ordering, elem: string, flags: string, tail: Tail, more: seq<string>)
    requires WSafe(cfg) && IsOption(elem) && AllFallThrough(cfg, elem, flags, tail) && flags + TailText(tail) != ""
    requires forall c :: c in flags ==> IsFlag(cfg, c)
    requires TailFits(cfg, tail) && (TailLacks(cfg, tail) ==> more == [])
    ensures var own := [elem] + TailMore(tail);
            Scan(cfg, o, own + more, flags + TailText(tail))
            == Then(FlagEvents(cfg, flags) + TailEvents(cfg, tail), Repeat(true, |own|), Scan(cfg, o, more, ""))
    decreases |flags|
  {
    hide Scan, IsFlag, FallsThrough, FlagEvent, WSafe, IsOption, TailText, TailEvents, TailMore, TailFits, TailLacks;
    PlainTail(cfg, tail);
    if flags == "" {
      ScanTail(cfg, o, elem, tail, more);
      assert flags + TailText(tail) == TailText(tail);
      assert FlagEvents(cfg, flags) + TailEvents(cfg, tail) == TailEvents(cfg, tail);
    } else {
      var own := [elem] + TailMore(tail);
      var c, text := flags[0], flags[1..] + TailText(tail);
      assert flags + TailText(tail) == [c] + text;
      assert c in flags;
      ScanFlag(cfg, o, own + more, c, text);
      if text == "" {
        assert flags == [c] && (own + more)[1..] == more;
      } else {
        ScanGroup(cfg, o, elem, flags[1..], tail, more);
        ThenMore(FlagEvent(cfg, c), FlagEvents(cfg, flags[1..]), TailEvents(cfg, tail), Repeat(true, |own|),
                 Scan(cfg, o, more, ""));
      }
    }
  }

  lemma ThenMore(e: Event, flags: seq<Event>, tail: seq<Event>, used: seq<bool>, r: Reading)
    ensures Then([e], [], Then(flags + tail, used, r)) == Then([e] + flags + tail, used, r)
  {
  }

  /** How a long option is spelled. */
  lemma LongSpelled(cfg: Config, single: bool, text: string)
    requires cfg.longopts.Some? && text != "" && DashesFit(cfg, single, text)
    ensures var elem := Dashes(single) + text;
            IsOption(elem) && TriesLong(cfg, elem) && FirstText(cfg, elem) == text && (single <==> elem[1] != '-')
  {
    hide Find;
    OptionLooked(cfg, text[0]);
    var elem := Dashes(single) + text;
    assert elem[|Dashes(single)|..] == text;
  }

  /** The long branch on "name" or "name=value", with the argument that stands apart, if any. */
  lemma LongNameParsed(cfg: Config, elem: string, name: string, value: Option<string>, arg: Option<string>,
                       more: seq<string>)
    requires IsOption(elem) && TriesLong(cfg, elem) && '=' !in name && name + ValueText(value) != ""
    requires arg.Some? ==> Wants(cfg, name, value)
    requires arg.None? && Wants(cfg, name, value) ==> more == []
    requires LongMatch(cfg.longopts.value, cfg.longOnly, name).NotFound? && elem[1] != '-' ==>
               (name + ValueText(value))[0] !in cfg.opts
    ensures var own := if arg.Some? then [arg.value] else [];
            ParseOption(cfg, elem, name + ValueText(value), own + more)
            == Parsed(LongEvent(cfg, name, value, arg), Some(""), 1 + |own|)
  {
    hide LongMatch, ParseShort, CutAt, IsOption, ValueText, Find;
    OptionLooked(cfg, (name + ValueText(value))[0]);
    NameCut(name, value);
    assert arg.None? ==> [] + more == more;
  }

  lemma LongParsed(cfg: Config, item: Item, more: seq<string>)
    requires WellFormed(cfg, item) && (item.Long? || item.LongApart?) && (Lacks(cfg, item) ==> more == [])
    ensures var elem := Render(item)[0];
            && IsOption(elem)
            && ParseOption(cfg, elem, FirstText(cfg, elem), Render(item)[1..] + more)
               == Parsed(Meaning(cfg, Permute, item)[0], Some(""), |Render(item)|)
  {
    hide LongMatch, ParseOption, FirstText, CutAt, IsOption, TriesLong, DashesFit, ValueText, Dashes, Find, LongEvent;
    var value := if item.Long? then item.value else None;
    var arg := if item.Long? then None else Some(item.arg);
    NoValue(item.name);
    LongSpelled(cfg, item.single, item.name + ValueText(value));
    assert Render(item)[1..] == if arg.Some? then [arg.value] else [];
    LongNameParsed(cfg, Render(item)[0], item.name, value, arg, more);
  }

  lemma NoValue(name: string)
    ensures name + ValueText(None) == name
  {
  }

  lemma ScanLong(cfg: Config, o: Ordering, item: Item, more: seq<string>)
    requires WSafe(cfg) && WellFormed(cfg, item) && (item.Long? || item.LongApart?) && (Lacks(cfg, item) ==> more == [])
    ensures Scan(cfg, o, Render(item) + more, "")
            == Then(Meaning(cfg, o, item), Repeat(true, |Render(item)|), Scan(cfg, o, more, ""))
  {
    hide ParseOption, WSafe, WellFormed, LongEvent, FirstText, Lacks;
    var own := Render(item);
    var args := own + more;
    LongParsed(cfg, item, more);
    assert args[1..] == own[1..] + more;
    assert args[|own|..] == more && args[0] == own[0];
    assert Meaning(cfg, o, item) == [Meaning(cfg, Permute, item)[0]];
    ScanStep(cfg, o, args, FirstText(cfg, args[0]));
    assert Scan(cfg, o, args, "") == Scan(cfg, o, args, FirstText(cfg, args[0]));
  }

  lemma GroupSpelled(cfg: Config, item: Item)
    requires item.Group? && WellFormed(cfg, item)
    ensures var elem := "-" + GroupText(item);
            IsOption(elem) && (cfg.longopts.Some? ==> elem[1] != '-')
  {
    hide TailFits, IsFlag;
    var elem := "-" + GroupText(item);
    assert elem[1..] == GroupText(item);
    PlainTail(cfg, item.tail);
  }

  lemma ScanItem(cfg: Config, o: Ordering, item: Item, more: seq<string>)
    requires WSafe(cfg) && WellFormed(cfg, item) && (Lacks(cfg, item) ==> more == [])
    requires item.Operand? ==> o != RequireOrder
    ensures Scan(cfg, o, Render(item) + more, "")
            == Then(Meaning(cfg, o, item), Repeat(!Stays(o, item), |Render(item)|), Scan(cfg, o, more, ""))
  {
    hide TailEvents, TailFits, IsFlag, LongEvent;
    match item
    case Operand(text) =>
      assert (Render(item) + more)[1..] == more;
      assert Repeat(false, 1) == [false] && Repeat(true, 1) == [true];
    case Group(flags, tail) =>
      var elem := "-" + GroupText(item);
      GroupSpelled(cfg, item);
      assert elem[1..] == GroupText(item) && FirstText(cfg, elem) == GroupText(item);
      ScanGroup(cfg, o, elem, flags, tail, more);
    case _ =>
      ScanLong(cfg, o, item, more);
  }

  // ---- whole command lines -----------------------------------------------------------------

  /** What is read back from a command line: exactly the meanings of the items, with the options used up and the
      operands left alone, unless they are to be returned in order. */
  lemma {:induction false} ScanRendered(cfg: Config, o: Ordering, items: seq<Item>, e: Ending)
    requires WSafe(cfg) && Line(cfg, o, items, e)
    ensures var args := RenderAll(items) + EndingArgs(e);
            var r := Scan(cfg, o, args, "");
            && r.reports == MeaningAll(cfg, o, items)
            && Pick(args, r.used, true) == UsedUp(o, items) + EndingUsed(e)
            && Pick(args, r.used, false) == LeftAlone(o, items) + EndingLeft(e)
  {
    hide Scan, Pick, WSafe, Line, Render, EndingArgs, EndingUsed, EndingLeft, Meaning;
    var args := RenderAll(items) + EndingArgs(e);
    if items == [] {
      LineRest(cfg, o, items, e);
      ScanEnding(cfg, o, e);
      assert args == EndingArgs(e);
      assert UsedUp(o, items) + EndingUsed(e) == EndingUsed(e) && LeftAlone(o, items) + EndingLeft(e) == EndingLeft(e);
    } else {
      var more := RenderAll(items[1..]) + EndingArgs(e);
      assert args == Render(items[0]) + more;
      LineRest(cfg, o, items, e);
      ScanRendered(cfg, o, items[1..], e);
      ScanFirst(cfg, o, items, more, e);
    }
  }

  lemma LineRest(cfg: Config, o: Ordering, items: seq<Item>, e: Ending)
    requires Line(cfg, o, items, e)
    ensures EndingFits(o, e)
    ensures items != [] ==>
              && Line(cfg, o, items[1..], e) && WellFormed(cfg, items[0]) && (items[0].Operand? ==> o != RequireOrder)
              && (Lacks(cfg, items[0]) ==> RenderAll(items[1..]) + EndingArgs(e) == [])
  {
    hide WellFormed, Lacks, EndingFits;
  }

  lemma PickOwn(own: seq<string>, more: seq<string>, marked: bool, used: seq<bool>, b: bool)
    requires |used| == |more|
    ensures Pick(own + more, Repeat(marked, |own|) + used, b) == (if marked == b then own else []) + Pick(more, used, b)
  {
    PickAppend(own, more, Repeat(marked, |own|), used, b);
    PickUniform(own, marked, b);
  }

  lemma ScanFirst(cfg: Config, o: Ordering, items: seq<Item>, more: seq<string>, e: Ending)
    requires WSafe(cfg) && items != [] && WellFormed(cfg, items[0]) && (Lacks(cfg, items[0]) ==> more == [])
    requires items[0].Operand? ==> o != RequireOrder
    requires var r := Scan(cfg, o, more, "");
             && r.reports == MeaningAll(cfg, o, items[1..])
             && Pick(more, r.used, true) == UsedUp(o, items[1..]) + EndingUsed(e)
             && Pick(more, r.used, false) == LeftAlone(o, items[1..]) + EndingLeft(e)
    ensures var args := Render(items[0]) + more;
            var r := Scan(cfg, o, args, "");
            && r.reports == MeaningAll(cfg, o, items)
            && Pick(args, r.used, true) == UsedUp(o, items) + EndingUsed(e)
            && Pick(args, r.used, false) == LeftAlone(o, items) + EndingLeft(e)
  {
    hide Scan, Pick, WSafe, WellFormed, Meaning, Render, Lacks, Stays, EndingUsed, EndingLeft;
    var own, stays := Render(items[0]), Stays(o, items[0]);
    var used := Scan(cfg, o, more, "").used;
    ScanItem(cfg, o, items[0], more);
    PickOwn(own, more, !stays, used, true);
    PickOwn(own, more, !stays, used, false);
    var up, left := if stays then [] else own, if stays then own else [];
    assert UsedUp(o, items) == up + UsedUp(o, items[1..]);
    assert LeftAlone(o, items) == left + LeftAlone(o, items[1..]);
    Associative(up, UsedUp(o, items[1..]), EndingUsed(e));
    Associative(left, LeftAlone(o, items[1..]), EndingLeft(e));
  }

  lemma ScanEnding(cfg: Config, o: Ordering, e: Ending)
    requires WSafe(cfg) && EndingFits(o, e)
    ensures var args := EndingArgs(e);
            var r := Scan(cfg, o, args, "");
            r.reports == [] && Pick(args, r.used, true) == EndingUsed(e) && Pick(args, r.used, false) == EndingLeft(e)
  {
    hide Pick;
    var args := EndingArgs(e);
    match e
    case Marked(rest) =>
      assert args[..1] == ["--"] && args[1..] == rest && Repeat(true, 1) == [true];
      PickRun(args, 1, true, Repeat(false, |rest|), true);
      PickRun(args, 1, true, Repeat(false, |rest|), false);
      PickUniform(rest, false, true);
      PickUniform(rest, false, false);
    case _ =>
      assert Repeat(false, |args|) == Scan(cfg, o, args, "").used;
      PickUniform(args, false, true);
      PickUniform(args, false, false);
  }

  /** A program called with a rendered command line gets back exactly the options it was rendered from, and the
      mistakes as such, and finds the operands, in order, from `optind` on. */
  lemma RunReadsBack(a: Arguments, s: State, program: string, items: seq<Item>, e: Ending)
    requires WSafe(a.Config()) && Line(a.Config(), a.Ordering(), items, e)
    requires s.optind <= 1 && (s.optind == 0 || !s.initialized)
    ensures var argv := [program] + (RenderAll(items) + EndingArgs(e));
            var used := UsedUp(a.Ordering(), items) + EndingUsed(e);
            var reports := MeaningAll(a.Config(), a.Ordering(), items);
            RunFor(a, s, argv, |reports|)
            == Finished(reports, 1 + |used|, [program] + used + (LeftAlone(a.Ordering(), items) + EndingLeft(e)))
  {
    hide RunFor, Scan, Pick, Line;
    var args := RenderAll(items) + EndingArgs(e);
    var argv := [program] + args;
    assert argv[1..] == args && argv[..1] == [program];
    RunIsStablePartition(a, s, argv);
    ScanRendered(a.Config(), a.Ordering(), items, e);
  }

  /** The first character of `optstring` chooses the mode, and is not an option. */
  lemma FlagCharacters(opts: string, longopts: Option<seq<LongOption>>, longOnly: bool, posixly: bool)
    ensures var a := Arguments("-" + opts, longopts, longOnly, posixly);
            a.Ordering() == ReturnInOrder && a.Config() == Config(opts, longopts, longOnly)
    ensures var a := Arguments("+" + opts, longopts, longOnly, posixly);
            a.Ordering() == RequireOrder && a.Config() == Config(opts, longopts, longOnly)
    ensures !("-" <= opts) && !("+" <= opts) ==>
              var a := Arguments(opts, longopts, longOnly, posixly);
              && a.Ordering() == (if posixly then RequireOrder else Permute)
              && a.Config() == Config(opts, longopts, longOnly)
  {
    assert ("-" + opts)[1..] == opts && ("+" + opts)[1..] == opts;
  }
}
