/** What one call of externals/getopt/getopt.c does with one option: the data it works on, the
    lookup of a long option name, and the short, long and `W;` branches as functions of the
    element being read and of the elements after it. */
module GetoptParse {
  import opened Wrappers

  /** `struct option_a`; a `flag` pointer is named by a number. */
  datatype LongOption = LongOption(name: string, hasArg: int, flag: Option<nat>, val: int)

  /** The arguments of a call that stay the same over a run; `opts` is `optstring`
      without a leading '-' or '+'. */
  datatype Config = Config(opts: string, longopts: Option<seq<LongOption>>, longOnly: bool)

  datatype Match = NotFound | Ambiguous | Found(index: nat)

  /** What a caller sees of a call that did not return -1: the result, `optarg`, the value stored
      in `optopt` (if any), `*longind` (if stored) and the store through `flag` (if any). */
  datatype Event = Event(ret: int, optarg: Option<string>, optopt: Option<int>,
                         longind: Option<nat>, flagWrite: Option<(nat, int)>)

  /** The effect of reading one option: what the caller sees, the new `__nextchar`, and by how much
      `optind` moves. */
  datatype Parsed = Parsed(event: Event, nextchar: Option<string>, advance: nat)

  function Simple(ret: int, optarg: Option<string>, optopt: Option<int>): Event {
    Event(ret, optarg, optopt, None, None)
  }

  /** Neither an option nor "--": empty, "-" alone, or not starting with '-'. */
  predicate IsOperand(arg: string) {
    |arg| == 0 || arg[0] != '-' || |arg| == 1
  }

  /** An element that starts an option. */
  predicate IsOption(arg: string) {
    !IsOperand(arg) && arg != "--"
  }

  /** Position of the first `c` in `s`, or |s|. */
  function CutAt(s: string, c: char): (k: nat)
    ensures k <= |s| && c !in s[..k] && (k < |s| ==> s[k] == c)
  {
    if s == "" || s[0] == c then 0 else
      var k := CutAt(s[1..], c);
      assert s[..k + 1] == [s[0]] + s[1..][..k];
      k + 1
  }

  lemma CutAtUnique(s: string, c: char, k: nat)
    requires k <= |s| && c !in s[..k] && (k < |s| ==> s[k] == c)
    ensures CutAt(s, c) == k
  {
  }

  /** `strchr(opts, c)` for a character other than the terminator. */
  function Find(opts: string, c: char): Option<nat> {
    var k := CutAt(opts, c);
    if k < |opts| then Some(k) else None
  }

  /** The character at position `i` of a C string. */
  function At(s: string, i: nat): char {
    if i < |s| then s[i] else '\0'
  }

  /** Two candidates the caller could tell apart (line 218). */
  predicate Conflict(p: LongOption, q: LongOption, longOnly: bool) {
    longOnly || p.hasArg != q.hasArg || p.flag != q.flag || p.val != q.val
  }

  function FirstExact(longopts: seq<LongOption>, name: string): (k: nat)
    ensures k <= |longopts| && (k < |longopts| ==> longopts[k].name == name)
    ensures forall i :: 0 <= i < k ==> longopts[i].name != name
  {
    if longopts == [] || longopts[0].name == name then 0 else 1 + FirstExact(longopts[1..], name)
  }

  function FirstPrefixed(longopts: seq<LongOption>, name: string): (k: nat)
    ensures k <= |longopts| && (k < |longopts| ==> name <= longopts[k].name)
    ensures forall i :: 0 <= i < k ==> !(name <= longopts[i].name)
  {
    if longopts == [] || name <= longopts[0].name then 0 else 1 + FirstPrefixed(longopts[1..], name)
  }

  predicate Rivalled(longopts: seq<LongOption>, longOnly: bool, name: string, f: nat)
    requires f < |longopts|
  {
    exists j :: f < j < |longopts| && name <= longopts[j].name && Conflict(longopts[f], longopts[j], longOnly)
  }

  /** The long option a name stands for: an exact name wins; otherwise an abbreviation stands for
      the options it begins, as long as they agree. */
  function LongMatch(longopts: seq<LongOption>, longOnly: bool, name: string): (m: Match)
    ensures m.NotFound? <==> forall i :: 0 <= i < |longopts| ==> !(name <= longopts[i].name)
    ensures m.Found? ==> m.index < |longopts| && name <= longopts[m.index].name
    ensures (exists i :: 0 <= i < |longopts| && longopts[i].name == name) ==>
              m.Found? && longopts[m.index].name == name
    ensures m.Ambiguous? ==> exists i, j :: 0 <= i < j < |longopts| && name <= longopts[i].name &&
                               name <= longopts[j].name && Conflict(longopts[i], longopts[j], longOnly)
  {
    var e := FirstExact(longopts, name);
    if e < |longopts| then Found(e) else
      var f := FirstPrefixed(longopts, name);
      if f == |longopts| then NotFound
      else if Rivalled(longopts, longOnly, name, f) then Ambiguous
      else Found(f)
  }

  /** A name is ambiguous exactly when it is no option's whole name and begins two options that the caller could
      tell apart; otherwise the first candidate is found, or the first exact one. */
  lemma AmbiguousExactly(longopts: seq<LongOption>, longOnly: bool, name: string)
    ensures var m := LongMatch(longopts, longOnly, name);
            && (m.Ambiguous? <==> (forall i :: 0 <= i < |longopts| ==> longopts[i].name != name)
                                  && exists i, j :: 0 <= i < j < |longopts| && name <= longopts[i].name &&
                                       name <= longopts[j].name && Conflict(longopts[i], longopts[j], longOnly))
            && (m.Found? ==> forall i :: 0 <= i < m.index && name <= longopts[i].name ==>
                               longopts[i].name != name && longopts[m.index].name == name)
  {
    var f := FirstPrefixed(longopts, name);
    forall i, j | 0 <= i < j < |longopts| && name <= longopts[i].name && name <= longopts[j].name
                  && Conflict(longopts[i], longopts[j], longOnly)
      ensures f < |longopts| && Rivalled(longopts, longOnly, name, f)
    {
      assert f <= i;
      assert f == i || Conflict(longopts[f], longopts[i], longOnly) || Conflict(longopts[f], longopts[j], longOnly);
    }
  }

  function MissingArgument(cfg: Config): int {
    if At(cfg.opts, 0) == ':' then ':' as int else '?' as int
  }

  /** Lines 247-296 and 391-432: the option was identified; collect its argument. `text` is the
      name with whatever follows it, `argIfError` is what `optarg` holds on the error paths. */
  function TakeLong(cfg: Config, p: LongOption, index: nat, text: string, rest: seq<string>,
                    argIfError: Option<string>, advance: nat): Parsed
  {
    var cut := CutAt(text, '=');
    var value := if p.flag.Some? then 0 else p.val;
    var flagWrite := if p.flag.Some? then Some((p.flag.value, p.val)) else None;
    if cut < |text| then
      if p.hasArg != 0 then
        Parsed(Event(value, Some(text[cut + 1..]), None, Some(index), flagWrite), Some(""), advance)
      else
        Parsed(Simple('?' as int, argIfError, if argIfError.None? then Some(p.val) else None), Some(""), advance)
    else if p.hasArg == 1 then
      if rest != [] then
        Parsed(Event(value, Some(rest[0]), None, Some(index), flagWrite), Some(""), advance + 1)
      else
        Parsed(Simple(MissingArgument(cfg), argIfError, if argIfError.None? then Some(p.val) else None),
               Some(""), advance)
    else
      Parsed(Event(value, None, None, Some(index), flagWrite), Some(""), advance)
  }

  /** Line 187: whether the element is tried as a long option. */
  predicate TriesLong(cfg: Config, elem: string)
    requires IsOption(elem)
  {
    cfg.longopts.Some? && (elem[1] == '-' || (cfg.longOnly && (|elem| > 2 || Find(cfg.opts, elem[1]).None?)))
  }

  /** Lines 189-315; None when the characters are to be read as short options after all. */
  function ParseLong(cfg: Config, elem: string, text: string, rest: seq<string>): Option<Parsed>
    requires IsOption(elem) && cfg.longopts.Some? && text != ""
  {
    var name := text[..CutAt(text, '=')];
    match LongMatch(cfg.longopts.value, cfg.longOnly, name)
    case Ambiguous => Some(Parsed(Simple('?' as int, None, Some(0)), Some(""), 1))
    case Found(i) => Some(TakeLong(cfg, cfg.longopts.value[i], i, text, rest, None, 1))
    case NotFound =>
      if !cfg.longOnly || elem[1] == '-' || Find(cfg.opts, text[0]).None? then
        Some(Parsed(Simple('?' as int, None, Some(0)), Some(""), 1))
      else None
  }

  /** Whether `optstring` asks for "-W name" to be read as "--name". */
  predicate HasW(cfg: Config) {
    var t := Find(cfg.opts, 'W');
    t.Some? && At(cfg.opts, t.value + 1) == ';'
  }

  /** Lines 362-436: `text` is looked up as the name of a long option. */
  function ParseWName(cfg: Config, text: string, rest: seq<string>, advance: nat): Parsed
    requires cfg.longopts.Some?
  {
    match LongMatch(cfg.longopts.value, cfg.longOnly, text[..CutAt(text, '=')])
    case Ambiguous => Parsed(Simple('?' as int, Some(text), None), Some(""), advance + 1)
    case Found(i) => TakeLong(cfg, cfg.longopts.value[i], i, text, rest, Some(text), advance)
    case NotFound => Parsed(Simple('W' as int, Some(text), None), None, advance)
  }

  /** Lines 331-437: `tail` is what follows the 'W' in its own element. */
  function ParseW(cfg: Config, tail: string, rest: seq<string>): Parsed {
    if cfg.longopts.None? then
      Parsed(Simple('W' as int, None, None), None, if tail == "" then 1 else 0)
    else if tail != "" then
      ParseWName(cfg, tail, rest, 1)
    else if rest == [] then
      Parsed(Simple(MissingArgument(cfg), None, Some('W' as int)), Some(""), 1)
    else
      ParseWName(cfg, rest[0], rest[1..], 2)
  }

  /** Lines 317-476: the next character of a cluster of short options. */
  function ParseShort(cfg: Config, text: string, rest: seq<string>): Parsed
    requires text != ""
  {
    var c, tail := text[0], text[1..];
    var t := Find(cfg.opts, c);
    var moved := if tail == "" then 1 else 0;
    if t.None? || c == ':' || c == ';' then
      Parsed(Simple('?' as int, None, Some(c as int)), Some(tail), moved)
    else if c == 'W' && At(cfg.opts, t.value + 1) == ';' then
      ParseW(cfg, tail, rest)
    else if At(cfg.opts, t.value + 1) == ':' then
      if tail != "" then
        Parsed(Simple(c as int, Some(tail), None), None, 1)
      else if At(cfg.opts, t.value + 2) == ':' then
        Parsed(Simple(c as int, None, None), None, 1)
      else if rest == [] then
        Parsed(Simple(MissingArgument(cfg), None, Some(c as int)), None, 1)
      else
        Parsed(Simple(c as int, Some(rest[0]), None), None, 2)
    else
      Parsed(Simple(c as int, None, None), Some(tail), moved)
  }

  /** Lines 187-476: read one option from `text`, the unread part of `elem`. */
  function ParseOption(cfg: Config, elem: string, text: string, rest: seq<string>): Parsed
    requires IsOption(elem) && text != ""
  {
    var long := if TriesLong(cfg, elem) then ParseLong(cfg, elem, text, rest) else None;
    if long.Some? then long.value else ParseShort(cfg, text, rest)
  }

  /** Line 185: where reading of an element starts. */
  function FirstText(cfg: Config, elem: string): (text: string)
    requires IsOption(elem)
    ensures text != ""
  {
    if cfg.longopts.Some? && elem[1] == '-' then elem[2..] else elem[1..]
  }

  function Unread(p: Parsed): string {
    if p.nextchar.Some? then p.nextchar.value else ""
  }

  /** No beginning of an option's name is ambiguous. */
  predicate NoAmbiguousPrefix(longopts: seq<LongOption>, longOnly: bool) {
    forall i, k | 0 <= i < |longopts| && 0 <= k <= |longopts[i].name| ::
      '=' !in longopts[i].name[..k] ==> !LongMatch(longopts, longOnly, longopts[i].name[..k]).Ambiguous?
  }

  /** A `W;` entry is harmless when "-W name" is looked up in a table in which no beginning of a name is
      ambiguous; the empty one counts. */
  predicate WSafe(cfg: Config) {
    HasW(cfg) ==> cfg.longopts.Some? && NoAmbiguousPrefix(cfg.longopts.value, cfg.longOnly)
  }

  /** An ambiguous name begins the name of an option, so these are the only ones to look at. */
  lemma AmbiguousIsPrefix(longopts: seq<LongOption>, longOnly: bool, name: string)
    requires NoAmbiguousPrefix(longopts, longOnly) && '=' !in name
    ensures !LongMatch(longopts, longOnly, name).Ambiguous?
  {
    hide LongMatch;
    forall i | 0 <= i < |longopts| && name <= longopts[i].name
      ensures !LongMatch(longopts, longOnly, name).Ambiguous?
    {
      assert longopts[i].name[..|name|] == name;
    }
  }

  /** If no option has an empty name, the empty beginning decides: the table is safe exactly when the caller could
      not tell any two of its options apart. */
  lemma SafeTableExactly(longopts: seq<LongOption>, longOnly: bool)
    requires forall i :: 0 <= i < |longopts| ==> longopts[i].name != ""
    ensures NoAmbiguousPrefix(longopts, longOnly)
            <==> forall i, j :: 0 <= i < j < |longopts| ==> !Conflict(longopts[i], longopts[j], longOnly)
  {
    if NoAmbiguousPrefix(longopts, longOnly) {
      forall i, j | 0 <= i < j < |longopts| ensures !Conflict(longopts[i], longopts[j], longOnly) {
        AmbiguousIsPrefix(longopts, longOnly, "");
        assert FirstPrefixed(longopts, "") == 0;
        assert !Rivalled(longopts, longOnly, "", 0);
        assert i > 0 ==> !Conflict(longopts[0], longopts[i], longOnly);
        assert !Conflict(longopts[0], longopts[j], longOnly);
      }
    }
  }

  /** Progress of one option: either the element is finished and `optind` stays within `argc`, or
      fewer characters of the same element are left. */
  ghost predicate Progresses(text: string, rest: seq<string>, p: Parsed) {
    if p.advance == 0 then 0 < |Unread(p)| < |text| else Unread(p) == "" && p.advance <= 1 + |rest|
  }

  lemma TakeLongAdvances(cfg: Config, p: LongOption, index: nat, text: string, rest: seq<string>,
                         argIfError: Option<string>, advance: nat)
    ensures var r := TakeLong(cfg, p, index, text, rest, argIfError, advance);
            Unread(r) == "" && advance <= r.advance <= advance + |rest|
  {
  }

  lemma WProgresses(cfg: Config, tail: string, rest: seq<string>)
    requires HasW(cfg) && WSafe(cfg)
    ensures var p := ParseW(cfg, tail, rest); Unread(p) == "" && 1 <= p.advance <= 1 + |rest|
  {
    hide TakeLong, LongMatch;
    if tail != "" {
      WNameProgresses(cfg, tail, rest, 1);
    } else if rest != [] {
      WNameProgresses(cfg, rest[0], rest[1..], 2);
    }
  }

  lemma WNameProgresses(cfg: Config, text: string, rest: seq<string>, advance: nat)
    requires HasW(cfg) && WSafe(cfg)
    ensures var p := ParseWName(cfg, text, rest, advance);
            Unread(p) == "" && advance <= p.advance <= advance + |rest|
  {
    AmbiguousIsPrefix(cfg.longopts.value, cfg.longOnly, text[..CutAt(text, '=')]);
  }

  lemma ShortProgresses(cfg: Config, text: string, rest: seq<string>)
    requires text != "" && WSafe(cfg)
    ensures Progresses(text, rest, ParseShort(cfg, text, rest))
  {
    var t := Find(cfg.opts, text[0]);
    if t.Some? && text[0] == 'W' && At(cfg.opts, t.value + 1) == ';' {
      WProgresses(cfg, text[1..], rest);
    }
  }

  lemma OptionProgresses(cfg: Config, elem: string, text: string, rest: seq<string>)
    requires IsOption(elem) && text != "" && WSafe(cfg)
    ensures Progresses(text, rest, ParseOption(cfg, elem, text, rest))
  {
    ShortProgresses(cfg, text, rest);
    if TriesLong(cfg, elem) {
      var m := LongMatch(cfg.longopts.value, cfg.longOnly, text[..CutAt(text, '=')]);
      if m.Found? {
        TakeLongAdvances(cfg, cfg.longopts.value[m.index], m.index, text, rest, None, 1);
      }
    }
  }

  // ---- the loops of the lookup -------------------------------------------------------------

  /** Lines 201 and 362. */
  method NameEnd(text: string) returns (k: nat)
    ensures k == CutAt(text, '=')
  {
    k := 0;
    while k < |text| && text[k] != '='
      invariant k <= |text| && '=' !in text[..k]
    {
      assert text[..k + 1] == text[..k] + [text[k]];
      k := k + 1;
    }
    CutAtUnique(text, '=', k);
  }

  /** Lines 203-225 and 363-380: the one-pass search, remembering the first candidate and whether
      a later one conflicts with it. */
  method FindLongOption(longopts: seq<LongOption>, longOnly: bool, name: string) returns (m: Match)
    ensures m == LongMatch(longopts, longOnly, name)
  {
    var found: Option<nat> := None;
    var ambiguous := false;
    var i := 0;
    while i < |longopts|
      invariant i <= |longopts|
      invariant forall j :: 0 <= j < i ==> longopts[j].name != name
      invariant found.None? ==> !ambiguous && forall j :: 0 <= j < i ==> !(name <= longopts[j].name)
      invariant found.Some? ==> found.value < i && name <= longopts[found.value].name
                                && forall j :: 0 <= j < found.value ==> !(name <= longopts[j].name)
      invariant found.Some? ==> (ambiguous <==> exists j :: found.value < j < i && name <= longopts[j].name &&
                                                  Conflict(longopts[found.value], longopts[j], longOnly))
    {
      var p := longopts[i];
      if name <= p.name {
        if |name| == |p.name| {
          return Found(i);
        } else if found.None? {
          found := Some(i);
        } else if Conflict(longopts[found.value], p, longOnly) {
          ambiguous := true;
        }
      }
      i := i + 1;
    }
    if found.None? {
      m := NotFound;
    } else {
      m := if ambiguous then Ambiguous else Found(found.value);
    }
  }
}
