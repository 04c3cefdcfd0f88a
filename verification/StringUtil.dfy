/** `ReplaceAll` and `SplitString` of src/common/string_util.cpp. */
module StringUtil {
  import opened Sequences
  import opened Wrappers

  // ---- ReplaceAll --------------------------------------------------------------------------

  /** `s` with every occurrence of `src`, found left to right without overlap, replaced by `dest`; what
      was put in is not searched again. */
  function Replaced(s: string, src: string, dest: string): string
    requires src != ""
  {
    if |s| < |src| then s
    else if src <= s then dest + Replaced(s[|src|..], src, dest)
    else [s[0]] + Replaced(s[1..], src, dest)
  }

  predicate StartsAt(s: string, src: string, i: nat)
    requires i <= |s|
  {
    src <= s[i..]
  }

  /** No occurrence of `src` starts from `from` on before `to`. */
  predicate NoneStarts(s: string, src: string, from: nat, to: nat)
    requires from <= to <= |s| + 1
  {
    forall i :: from <= i < to ==> !StartsAt(s, src, i)
  }

  lemma {:induction false} ReplacedSkips(s: string, src: string, dest: string, from: nat, to: nat)
    requires src != "" && from <= to <= |s| && NoneStarts(s, src, from, to)
    ensures Replaced(s[from..], src, dest) == s[from..to] + Replaced(s[to..], src, dest)
    decreases |s| - from
  {
    if from < to {
      assert !StartsAt(s, src, from);
      ReplacedSkips(s, src, dest, from + 1, to);
      ReplacedPastOne(s, src, dest, from);
      hide Replaced;
      assert s[from..to] == [s[from]] + s[from + 1..to];
    }
  }

  lemma ReplacedPastOne(s: string, src: string, dest: string, from: nat)
    requires src != "" && from < |s| && !StartsAt(s, src, from)
    ensures Replaced(s[from..], src, dest) == [s[from]] + Replaced(s[from + 1..], src, dest)
  {
  }

  /** `std::string::find`. */
  method Find(s: string, src: string, from: nat) returns (pos: Option<nat>)
    requires from <= |s|
    ensures pos.Some? ==> from <= pos.value <= |s| && StartsAt(s, src, pos.value) && NoneStarts(s, src, from, pos.value)
    ensures pos.None? ==> NoneStarts(s, src, from, |s| + 1)
  {
    var i := from;
    while i <= |s|
      invariant from <= i <= |s| + 1 && NoneStarts(s, src, from, i)
    {
      if src <= s[i..] {
        return Some(i);
      }
      i := i + 1;
    }
    return None;
  }

  lemma ReplacedMatch(s: string, src: string, dest: string, pos: nat)
    requires src != "" && pos <= |s| && StartsAt(s, src, pos)
    ensures pos + |src| <= |s|
    ensures Replaced(s[pos..], src, dest) == dest + Replaced(s[pos + |src|..], src, dest)
  {
  }

  /** What one replacement at `pos` leaves to do. */
  lemma ReplaceStep(s: string, src: string, dest: string, from: nat, pos: nat)
    requires src != "" && from <= pos <= |s| && StartsAt(s, src, pos) && NoneStarts(s, src, from, pos)
    ensures pos + |src| <= |s|
    ensures var s' := s[..pos] + dest + s[pos + |src|..];
            s'[..pos + |dest|] + Replaced(s'[pos + |dest|..], src, dest) == s[..from] + Replaced(s[from..], src, dest)
  {
    hide Replaced, StartsAt, NoneStarts;
    ReplacedMatch(s, src, dest, pos);
    ReplacedSkips(s, src, dest, from, pos);
    var s' := s[..pos] + dest + s[pos + |src|..];
    assert s'[pos + |dest|..] == s[pos + |src|..];
    assert s'[..pos + |dest|] == s[..from] + s[from..pos] + dest;
    Associative(s[..from], s[from..pos], dest + Replaced(s[pos + |src|..], src, dest));
    Associative(s[..from] + s[from..pos], dest, Replaced(s[pos + |src|..], src, dest));
  }

  lemma ReplaceDone(s: string, src: string, dest: string, from: nat)
    requires src != "" && from <= |s| && NoneStarts(s, src, from, |s| + 1)
    ensures s[..from] + Replaced(s[from..], src, dest) == s
  {
    ReplacedSkips(s, src, dest, from, |s|);
    assert s[|s|..] == "";
  }

  /** `std::string::find` as a function: the first occurrence that starts at `from` or later. */
  function FirstFrom(s: string, src: string, from: nat): (r: Option<nat>)
    requires from <= |s|
    ensures r.Some? ==> from <= r.value && r.value + |src| <= |s| && StartsAt(s, src, r.value)
    ensures r.Some? ==> NoneStarts(s, src, from, r.value)
    ensures r.None? ==> NoneStarts(s, src, from, |s| + 1)
    decreases |s| - from
  {
    if src <= s[from..] then Some(from) else if from == |s| then None else FirstFrom(s, src, from + 1)
  }

  /** The result of the loop, if it ends within `turns` replacements. */
  function ReplaceLoop(s: string, pos: nat, src: string, dest: string, turns: nat): Option<string>
    requires pos <= |s|
    decreases turns
  {
    var found := FirstFrom(s, src, pos);
    if found.None? then Some(s)
    else if turns == 0 then None
    else
      var at := found.value;
      ReplaceLoop(s[..at] + dest + s[at + |src|..], at + |dest|, src, dest, turns - 1)
  }

  /** The same for the whole function. */
  function ReplaceWithin(s: string, src: string, dest: string, turns: nat): Option<string> {
    if src == dest then Some(s) else ReplaceLoop(s, 0, src, dest, turns)
  }

  /** An empty pattern is found at once, wherever the search starts. */
  lemma {:induction false} EmptyNeverEnds(s: string, pos: nat, dest: string, turns: nat)
    requires pos <= |s|
    ensures ReplaceLoop(s, pos, "", dest, turns) == None
    decreases turns
  {
    assert FirstFrom(s, "", pos) == Some(pos);
    if turns > 0 {
      EmptyNeverEnds(s[..pos] + dest + s[pos..], pos + |dest|, dest, turns - 1);
    }
  }

  lemma {:induction false} LoopEnds(s: string, pos: nat, src: string, dest: string)
    requires pos <= |s| && src != ""
    ensures ReplaceLoop(s, pos, src, dest, |s| - pos) == Some(s[..pos] + Replaced(s[pos..], src, dest))
    decreases |s| - pos
  {
    hide Replaced, FirstFrom;
    var found := FirstFrom(s, src, pos);
    if found.None? {
      ReplaceDone(s, src, dest, pos);
    } else {
      var at := found.value;
      ReplaceStep(s, src, dest, pos, at);
      var s' := s[..at] + dest + s[at + |src|..];
      LoopEnds(s', at + |dest|, src, dest);
      MoreTurns(s', at + |dest|, src, dest, |s'| - (at + |dest|), |s| - pos - 1);
    }
  }

  lemma {:induction false} MoreTurns(s: string, pos: nat, src: string, dest: string, few: nat, many: nat)
    requires pos <= |s| && few <= many && ReplaceLoop(s, pos, src, dest, few).Some?
    ensures ReplaceLoop(s, pos, src, dest, many) == ReplaceLoop(s, pos, src, dest, few)
    decreases few
  {
    hide FirstFrom, StartsAt, NoneStarts;
    var found := FirstFrom(s, src, pos);
    if found.Some? {
      var at := found.value;
      MoreTurns(s[..at] + dest + s[at + |src|..], at + |dest|, src, dest, few - 1, many - 1);
    }
  }

  /** The loop ends, on whatever string, exactly when the pattern is not empty or equals its replacement; when it ends,
      it has replaced every occurrence once. */
  lemma ReplaceEndsExactly(s: string, src: string, dest: string)
    ensures (exists turns: nat :: ReplaceWithin(s, src, dest, turns).Some?) <==> src != "" || src == dest
    ensures forall turns: nat :: ReplaceWithin(s, src, dest, turns).Some? && src != dest ==>
              src != "" && ReplaceWithin(s, src, dest, turns).value == Replaced(s, src, dest)
  {
    hide ReplaceLoop, Replaced;
    if src == dest {
      assert ReplaceWithin(s, src, dest, 0).Some?;
    } else if src == "" {
      forall turns: nat ensures ReplaceWithin(s, src, dest, turns).None? {
        EmptyNeverEnds(s, 0, dest, turns);
      }
    } else {
      LoopEnds(s, 0, src, dest);
      assert s[..0] + Replaced(s[0..], src, dest) == Replaced(s, src, dest) by { assert s[0..] == s; }
      assert ReplaceWithin(s, src, dest, |s|).Some?;
      forall turns: nat | ReplaceWithin(s, src, dest, turns).Some?
        ensures ReplaceWithin(s, src, dest, turns).value == Replaced(s, src, dest)
      {
        if turns <= |s| {
          MoreTurns(s, 0, src, dest, turns, |s|);
        } else {
          MoreTurns(s, 0, src, dest, |s|, turns);
        }
      }
    }
  }

  /** The inputs are those on which the loop ends (`ReplaceEndsExactly`). */
  method ReplaceAll(s: string, src: string, dest: string) returns (result: string)
    requires src != "" || src == dest
    ensures src == dest ==> result == s
    ensures src != dest ==> result == Replaced(s, src, dest)
  {
    result := s;
    var pos: nat := 0;
    if src == dest {
      return;
    }
    assert s[..0] + Replaced(s[0..], src, dest) == Replaced(s, src, dest) by { assert s[0..] == s; }
    while true
      invariant pos <= |result|
      invariant result[..pos] + Replaced(result[pos..], src, dest) == Replaced(s, src, dest)
      decreases |result| - pos
    {
      var found := Find(result, src, pos);
      if found.None? {
        ReplaceDone(result, src, dest, pos);
        return;
      }
      var at := found.value;
      ReplaceStep(result, src, dest, pos, at);
      result := result[..at] + dest + result[at + |src|..];
      pos := at + |dest|;
    }
  }

  // ---- SplitString -------------------------------------------------------------------------

  /** Length of the part of `s` before the first `delim`. */
  function FieldLength(s: string, delim: char): (k: nat)
    ensures k <= |s| && delim !in s[..k] && (k < |s| ==> s[k] == delim)
  {
    if s == "" || s[0] == delim then 0 else
      var k := FieldLength(s[1..], delim);
      assert s[..k + 1] == [s[0]] + s[1..][..k];
      k + 1
  }

  lemma FieldLengthUnique(s: string, delim: char, k: nat)
    requires k <= |s| && delim !in s[..k] && (k < |s| ==> s[k] == delim)
    ensures FieldLength(s, delim) == k
  {
  }

  /** The fields of `s`; an empty field at the very end is not one. */
  function Fields(s: string, delim: char): seq<string>
    decreases |s|
  {
    if s == "" then [] else
      var k := FieldLength(s, delim);
      [s[..k]] + if k == |s| then [] else Fields(s[k + 1..], delim)
  }

  /** Fields, each followed by the delimiter. */
  function Terminated(fields: seq<string>, delim: char): string {
    if fields == [] then "" else fields[0] + [delim] + Terminated(fields[1..], delim)
  }

  /** The fields hold no delimiter, and put together, each with a delimiter behind it, they are the text, if that ends
      with a delimiter or is empty, and otherwise the text and one delimiter. */
  lemma {:induction false} FieldsExactly(s: string, delim: char)
    ensures forall i :: 0 <= i < |Fields(s, delim)| ==> delim !in Fields(s, delim)[i]
    ensures Terminated(Fields(s, delim), delim) == if s == "" || s[|s| - 1] == delim then s else s + [delim]
    decreases |s|
  {
    hide Fields, FieldLength;
    FieldsHead(s, delim);
    var k := FieldLength(s, delim);
    if k < |s| {
      var rest := s[k + 1..];
      FieldsExactly(rest, delim);
      assert Fields(s, delim)[1..] == Fields(rest, delim);
      assert rest != "" ==> rest[|rest| - 1] == s[|s| - 1];
      assert s[..k] + [delim] + (rest + [delim]) == s + [delim];
    }
  }

  /** The first field, and the rest. */
  lemma FieldsHead(s: string, delim: char)
    ensures var k := FieldLength(s, delim);
            && (s == "" ==> Fields(s, delim) == [])
            && (s != "" && k == |s| ==> Fields(s, delim) == [s])
            && (k < |s| ==> Fields(s, delim) == [s[..k]] + Fields(s[k + 1..], delim)
                            && s == s[..k] + [delim] + s[k + 1..])
  {
    hide FieldLength;
    var k := FieldLength(s, delim);
    if k < |s| {
      assert s == s[..k] + [delim] + s[k + 1..];
    } else if s != "" {
      assert s[..k] == s;
    }
  }

  /** `std::getline`: fails when nothing is left, otherwise reads up to the delimiter or the end. */
  method GetLine(s: string, delim: char, from: nat) returns (line: Option<string>, next: nat)
    requires from <= |s|
    ensures from <= next <= |s|
    ensures line.None? <==> from == |s|
    ensures line.Some? ==>
              && from < next
              && Fields(s[from..], delim) == [line.value] + Fields(s[next..], delim)
  {
    hide Fields;
    if from == |s| {
      return None, from;
    }
    var i := from;
    while i < |s| && s[i] != delim
      invariant from <= i <= |s| && delim !in s[from..i]
    {
      assert s[from..i + 1] == s[from..i] + [s[i]];
      i := i + 1;
    }
    FirstField(s, delim, from, i);
    return Some(s[from..i]), if i == |s| then i else i + 1;
  }

  lemma FirstField(s: string, delim: char, from: nat, i: nat)
    requires from < |s| && from <= i <= |s| && delim !in s[from..i] && (i < |s| ==> s[i] == delim)
    ensures var next := if i == |s| then i else i + 1;
            Fields(s[from..], delim) == [s[from..i]] + Fields(s[next..], delim)
  {
    assert s[from..][..i - from] == s[from..i];
    FieldLengthUnique(s[from..], delim, i - from);
    if i == |s| {
      assert s[i..] == "";
    } else {
      assert s[from..][i - from + 1..] == s[i + 1..];
    }
  }

  lemma FieldsOfRest(s: string, delim: char, pos: nat)
    requires pos == |s|
    ensures Fields(s[pos..], delim) == []
  {
  }

  method SplitString(s: string, delim: char) returns (output: seq<string>)
    ensures output == Fields(s, delim)
  {
    hide Fields;
    output := [""];
    var pos: nat := 0;
    assert s[0..] == s;
    assert output[..|output| - 1] + Fields(s[0..], delim) == Fields(s, delim);
    while true
      invariant |output| >= 1 && pos <= |s|
      invariant output[..|output| - 1] + Fields(s[pos..], delim) == Fields(s, delim)
      decreases |s| - pos
    {
      var line, next := GetLine(s, delim, pos);
      if line.None? {
        break;
      }
      ghost var done := output[..|output| - 1];
      output := output[|output| - 1 := line.value];
      output := output + [""];
      assert output[..|output| - 1] == done + [line.value];
      assert done + ([line.value] + Fields(s[next..], delim)) == done + [line.value] + Fields(s[next..], delim);
      pos := next;
    }
    FieldsOfRest(s, delim, pos);
    output := output[..|output| - 1];
  }
}
