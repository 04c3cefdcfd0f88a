/** src/common/param_package.cpp: a map of strings written as "key:value,key:value", with the three
    special characters escaped by three replacement passes. */
module ParamPackage {
  import opened Sequences
  import opened StringUtil

  const KEY_VALUE_SEPARATOR: char := ':'
  const PARAM_SEPARATOR: char := ','
  const ESCAPE_CHARACTER: char := '$'
  const KEY_VALUE_SEPARATOR_ESCAPE := "$0"
  const PARAM_SEPARATOR_ESCAPE := "$1"
  const ESCAPE_CHARACTER_ESCAPE := "$2"
  const EMPTY_PLACEHOLDER := "[empty]"

  // ---- escaping ----------------------------------------------------------------------------

  /** Lines 64-66: three passes over the string. */
  function EscapePasses(s: string): string {
    Replaced(Replaced(Replaced(s, [ESCAPE_CHARACTER], ESCAPE_CHARACTER_ESCAPE),
                      [PARAM_SEPARATOR], PARAM_SEPARATOR_ESCAPE),
             [KEY_VALUE_SEPARATOR], KEY_VALUE_SEPARATOR_ESCAPE)
  }

  /** Lines 44-46: three passes over the string. */
  function UnescapePasses(s: string): string {
    Replaced(Replaced(Replaced(s, KEY_VALUE_SEPARATOR_ESCAPE, [KEY_VALUE_SEPARATOR]),
                      PARAM_SEPARATOR_ESCAPE, [PARAM_SEPARATOR]),
             ESCAPE_CHARACTER_ESCAPE, [ESCAPE_CHARACTER])
  }

  /** One character with the special ones among `$ , :` escaped: all of them at level 3, only `$` and `,`
      at level 2, only `$` at level 1, none at level 0. */
  function EscapedChar(c: char, level: nat): string {
    if c == ESCAPE_CHARACTER && level >= 1 then ESCAPE_CHARACTER_ESCAPE
    else if c == PARAM_SEPARATOR && level >= 2 then PARAM_SEPARATOR_ESCAPE
    else if c == KEY_VALUE_SEPARATOR && level >= 3 then KEY_VALUE_SEPARATOR_ESCAPE
    else [c]
  }

  /** Escaping in a single pass. */
  function Escaped(s: string, level: nat): string {
    if s == "" then "" else EscapedChar(s[0], level) + Escaped(s[1..], level)
  }

  lemma {:induction false} EscapedNothing(s: string)
    ensures Escaped(s, 0) == s
  {
    if s != "" {
      EscapedNothing(s[1..]);
    }
  }

  lemma ReplacedHead(s: string, c: char, dest: string)
    requires s != ""
    ensures Replaced(s, [c], dest) == (if s[0] == c then dest else [s[0]]) + Replaced(s[1..], [c], dest)
  {
  }

  /** Replacing a single character works character by character. */
  lemma {:induction false} ReplacedAppend(a: string, b: string, c: char, dest: string)
    ensures Replaced(a + b, [c], dest) == Replaced(a, [c], dest) + Replaced(b, [c], dest)
  {
    if a == "" {
      assert a + b == b;
    } else {
      hide Replaced;
      assert (a + b)[1..] == a[1..] + b;
      ReplacedHead(a + b, c, dest);
      ReplacedHead(a, c, dest);
      ReplacedAppend(a[1..], b, c, dest);
    }
  }

  /** The character the pass from one level to the next escapes. */
  function LevelChar(level: nat): char
    requires level <= 2
  {
    if level == 0 then ESCAPE_CHARACTER else if level == 1 then PARAM_SEPARATOR else KEY_VALUE_SEPARATOR
  }

  lemma SinglePrefix(c: char, s: string)
    requires s != ""
    ensures [c] <= s <==> s[0] == c
  {
  }

  lemma EscapeCharPass(x: char, level: nat)
    requires level <= 2
    ensures Replaced(EscapedChar(x, level), [LevelChar(level)], EscapedChar(LevelChar(level), 3))
            == EscapedChar(x, level + 1)
  {
    var e, c, d := EscapedChar(x, level), LevelChar(level), EscapedChar(LevelChar(level), 3);
    assert Replaced("", [c], d) == "";
    SinglePrefix(c, e);
    if |e| == 2 {
      assert e[1..] == [e[1]] && e[1..][1..] == "";
      SinglePrefix(c, e[1..]);
    } else {
      assert e == [x] && e[1..] == "";
    }
  }

  lemma {:induction false} EscapePass(s: string, level: nat)
    requires level <= 2
    ensures Replaced(Escaped(s, level), [LevelChar(level)], EscapedChar(LevelChar(level), 3)) == Escaped(s, level + 1)
  {
    if s != "" {
      EscapeCharPass(s[0], level);
      ReplacedAppend(EscapedChar(s[0], level), Escaped(s[1..], level),
                     LevelChar(level), EscapedChar(LevelChar(level), 3));
      EscapePass(s[1..], level);
    }
  }

  /** The three escape passes are one pass. */
  lemma EscapePassesAreOne(s: string)
    ensures EscapePasses(s) == Escaped(s, 3)
  {
    hide Replaced, Escaped;
    EscapedNothing(s);
    EscapePass(s, 0);
    EscapePass(s, 1);
    EscapePass(s, 2);
  }

  /** One character of an unescape pass: an escape sequence of another character is left alone. */
  lemma UnescapeCharPass(x: char, level: nat, rest: string)
    requires level <= 2
    ensures var c := LevelChar(level);
            Replaced(EscapedChar(x, level + 1) + rest, EscapedChar(c, 3), [c])
            == EscapedChar(x, level) + Replaced(rest, EscapedChar(c, 3), [c])
  {
    var c := LevelChar(level);
    var e, src := EscapedChar(x, level + 1), EscapedChar(c, 3);
    var s := e + rest;
    if x == c {
      assert s[2..] == rest && src <= s;
    } else if |e| == 2 {
      assert s[1..] == [e[1]] + rest && s[1..][1..] == rest && s[1] != src[1];
      assert !(src <= s) && !(src <= s[1..]);
      ReplacedPast(s, src, [c]);
      ReplacedPast(s[1..], src, [c]);
      assert [e[0]] + ([e[1]] + Replaced(rest, src, [c])) == e + Replaced(rest, src, [c]);
    } else {
      assert s[1..] == rest && s[0] == x != '$';
      assert !(src <= s);
      ReplacedPast(s, src, [c]);
    }
  }

  lemma ReplacedPast(s: string, src: string, dest: string)
    requires s != "" && src != "" && !(src <= s)
    ensures Replaced(s, src, dest) == [s[0]] + Replaced(s[1..], src, dest)
  {
  }

  lemma {:induction false} UnescapePass(s: string, level: nat)
    requires level <= 2
    ensures Replaced(Escaped(s, level + 1), EscapedChar(LevelChar(level), 3), [LevelChar(level)]) == Escaped(s, level)
  {
    if s != "" {
      UnescapeCharPass(s[0], level, Escaped(s[1..], level + 1));
      UnescapePass(s[1..], level);
    }
  }

  /** The three unescape passes undo the three escape passes, for every string. */
  lemma UnescapeEscape(s: string)
    ensures UnescapePasses(EscapePasses(s)) == s
  {
    hide Replaced, Escaped, EscapePasses;
    EscapePassesAreOne(s);
    UnescapePass(s, 2);
    UnescapePass(s, 1);
    UnescapePass(s, 0);
    EscapedNothing(s);
  }

  lemma {:induction false} EscapedIsClean(s: string)
    ensures KEY_VALUE_SEPARATOR !in Escaped(s, 3) && PARAM_SEPARATOR !in Escaped(s, 3)
    ensures Escaped(s, 3) == "" <==> s == ""
  {
    if s != "" {
      EscapedIsClean(s[1..]);
    }
  }

  /** The escapes themselves. */
  lemma EscapeSigns()
    ensures EscapePasses("$") == "$2" && EscapePasses(",") == "$1" && EscapePasses(":") == "$0"
  {
    hide EscapePasses;
    EscapePassesAreOne("$");
    EscapePassesAreOne(",");
    EscapePassesAreOne(":");
    assert Escaped("", 3) == "" && "$"[1..] == "" && ","[1..] == "" && ":"[1..] == "";
    assert "$2" + "" == "$2" && "$1" + "" == "$1" && "$0" + "" == "$0";
  }

  // ---- serializing -------------------------------------------------------------------------

  function PairText(key: string, value: string): string {
    EscapePasses(key) + [KEY_VALUE_SEPARATOR] + EscapePasses(value)
  }

  /** The pairs in the order the map is iterated, each followed by the separator. */
  function PairsText(data: map<string, string>, order: seq<string>): string
    requires forall key :: key in order ==> key in data
  {
    if order == [] then "" else
      PairsText(data, order[..|order| - 1])
      + PairText(order[|order| - 1], data[order[|order| - 1]]) + [PARAM_SEPARATOR]
  }

  /** `order` lists the keys, each once: some order in which an unordered map may be iterated. */
  ghost predicate IterationOrder(data: map<string, string>, order: seq<string>) {
    && (forall key :: key in order <==> key in data)
    && (forall i, j :: 0 <= i < j < |order| ==> order[i] != order[j])
  }

  function Serialized(data: map<string, string>, order: seq<string>): string
    requires IterationOrder(data, order)
  {
    if order == [] then EMPTY_PLACEHOLDER else
      var text := PairsText(data, order);
      text[..|text| - 1]
  }

  // ---- deserializing -----------------------------------------------------------------------

  /** Lines 36-49 for one pair. */
  function WithPair(data: map<string, string>, pair: string): map<string, string> {
    var parts := Fields(pair, KEY_VALUE_SEPARATOR);
    if |parts| != 2 then data else data[UnescapePasses(parts[0]) := UnescapePasses(parts[1])]
  }

  function WithPairs(data: map<string, string>, pairs: seq<string>): map<string, string> {
    if pairs == [] then data else WithPair(WithPairs(data, pairs[..|pairs| - 1]), pairs[|pairs| - 1])
  }

  function Deserialized(serialized: string): map<string, string> {
    if serialized == EMPTY_PLACEHOLDER then map[] else WithPairs(map[], Fields(serialized, PARAM_SEPARATOR))
  }

  // ---- the round trip ----------------------------------------------------------------------

  lemma FieldsOfOne(s: string, delim: char)
    requires s != "" && delim !in s
    ensures Fields(s, delim) == [s]
  {
    FieldLengthUnique(s, delim, |s|);
    assert s[..|s|] == s;
  }

  lemma FieldsOfTwo(a: string, b: string, delim: char)
    requires delim !in a
    ensures Fields(a + [delim] + b, delim) == [a] + Fields(b, delim)
  {
    var s := a + [delim] + b;
    assert s[..|a|] == a && s[|a| + 1..] == b;
    FieldLengthUnique(s, delim, |a|);
  }

  /** A pair that was written is read back, unless its value is empty: then it is dropped. */
  lemma PairReadsBack(data: map<string, string>, key: string, value: string)
    ensures WithPair(data, PairText(key, value)) == if value == "" then data else data[key := value]
  {
    var k, v := EscapePasses(key), EscapePasses(value);
    hide EscapePasses, UnescapePasses, Fields;
    EscapePassesAreOne(key);
    EscapePassesAreOne(value);
    EscapedIsClean(key);
    EscapedIsClean(value);
    UnescapeEscape(key);
    UnescapeEscape(value);
    FieldsOfTwo(k, v, KEY_VALUE_SEPARATOR);
    if value == "" {
      NoFields(KEY_VALUE_SEPARATOR);
    } else {
      FieldsOfOne(v, KEY_VALUE_SEPARATOR);
    }
  }

  /** What is read from any text: a key and a value that is not empty, or that is closed by another separator. */
  lemma PairTaken(data: map<string, string>, key: string, value: string, closed: bool)
    requires KEY_VALUE_SEPARATOR !in key && KEY_VALUE_SEPARATOR !in value && (value != "" || closed)
    ensures WithPair(data, key + ":" + (value + if closed then ":" else ""))
            == data[UnescapePasses(key) := UnescapePasses(value)]
  {
    hide UnescapePasses, Fields;
    FieldsOfTwo(key, value + if closed then ":" else "", KEY_VALUE_SEPARATOR);
    if closed {
      assert value + ":" == value + [KEY_VALUE_SEPARATOR] + "";
      FieldsOfTwo(value, "", KEY_VALUE_SEPARATOR);
      NoFields(KEY_VALUE_SEPARATOR);
    } else {
      assert value + "" == value;
      FieldsOfOne(value, KEY_VALUE_SEPARATOR);
    }
  }

  /** Anything else is skipped: no separator, nothing behind the only one, or something behind the second. */
  lemma PairSkipped(data: map<string, string>, key: string, value: string, more: string)
    requires KEY_VALUE_SEPARATOR !in key && KEY_VALUE_SEPARATOR !in value && more != ""
    ensures WithPair(data, key) == data && WithPair(data, key + ":") == data
    ensures WithPair(data, key + ":" + (value + ":" + more)) == data
  {
    hide UnescapePasses, Fields;
    NoFields(KEY_VALUE_SEPARATOR);
    if key != "" {
      FieldsOfOne(key, KEY_VALUE_SEPARATOR);
    }
    assert key + ":" == key + [KEY_VALUE_SEPARATOR] + "";
    FieldsOfTwo(key, "", KEY_VALUE_SEPARATOR);
    FieldsOfTwo(key, value + ":" + more, KEY_VALUE_SEPARATOR);
    FieldsOfTwo(value, more, KEY_VALUE_SEPARATOR);
    SomeFields(more, KEY_VALUE_SEPARATOR);
  }

  lemma SomeFields(s: string, delim: char)
    requires s != ""
    ensures Fields(s, delim) != []
  {
  }

  lemma {:induction false} FieldsTrailing(s: string, delim: char)
    ensures Fields(s + [delim], delim)
            == Fields(s, delim) + if s == "" || s[|s| - 1] == delim then [""] else []
    decreases |s|
  {
    hide Fields, FieldLength;
    FieldsHead(s, delim);
    NoFields(delim);
    var k := FieldLength(s, delim);
    if k == |s| {
      assert s[..k] == s;
      assert s + [delim] == s + [delim] + "";
      FieldsOfTwo(s, "", delim);
    } else {
      var rest := s[k + 1..];
      FieldsTrailing(rest, delim);
      assert rest != "" ==> rest[|rest| - 1] == s[|s| - 1];
      assert s + [delim] == s[..k] + [delim] + (rest + [delim]);
      FieldsOfTwo(s[..k], rest + [delim], delim);
      var last := if rest == "" || rest[|rest| - 1] == delim then [""] else [];
      Associative([s[..k]], Fields(rest, delim), last);
    }
  }

  /** Reading on: a text with one more pair behind a separator has that pair put in, over an earlier one with its
      key. */
  lemma DeserializedAppends(s: string, pair: string)
    requires s != EMPTY_PLACEHOLDER && pair != "" && PARAM_SEPARATOR !in pair
    ensures Deserialized(s + "," + pair) == WithPair(Deserialized(s), pair)
  {
    hide Fields, WithPair, WithPairs;
    var text, all := s + [PARAM_SEPARATOR], s + "," + pair;
    assert all == text + pair && all[|s|] == PARAM_SEPARATOR && PARAM_SEPARATOR !in EMPTY_PLACEHOLDER;
    FieldsAppend(text, pair, PARAM_SEPARATOR);
    FieldsOfOne(pair, PARAM_SEPARATOR);
    FieldsTrailing(s, PARAM_SEPARATOR);
    var fields := Fields(s, PARAM_SEPARATOR);
    WithOneMore(map[], fields, "");
    WithOneMore(map[], Fields(text, PARAM_SEPARATOR), pair);
    PairSkipped(WithPairs(map[], fields), "", "", ",");
    assert fields + [] == fields;
  }

  lemma NoFields(delim: char)
    ensures Fields("", delim) == []
  {
  }

  function PairTexts(data: map<string, string>, order: seq<string>): seq<string>
    requires forall key :: key in order ==> key in data
  {
    if order == [] then [] else
      PairTexts(data, order[..|order| - 1]) + [PairText(order[|order| - 1], data[order[|order| - 1]])]
  }

  lemma PairIsField(key: string, value: string)
    ensures PairText(key, value) != "" && PARAM_SEPARATOR !in PairText(key, value)
    ensures KEY_VALUE_SEPARATOR in PairText(key, value)
  {
    hide EscapePasses;
    EscapePassesAreOne(key);
    EscapePassesAreOne(value);
    EscapedIsClean(key);
    EscapedIsClean(value);
    assert PairText(key, value)[|EscapePasses(key)|] == KEY_VALUE_SEPARATOR;
  }

  /** Splitting text that ends in a delimiter and more text after it. */
  lemma {:induction false} FieldsAppend(s: string, t: string, delim: char)
    requires s != "" ==> s[|s| - 1] == delim
    ensures Fields(s + t, delim) == Fields(s, delim) + Fields(t, delim)
    decreases |s|
  {
    if s == "" {
      assert s + t == t;
    } else {
      hide Fields;
      var k := FieldLength(s, delim);
      assert k < |s| by { LastIsDelim(s, delim); }
      var head, tail := s[..k], s[k + 1..];
      assert s == head + [delim] + tail;
      assert tail != "" ==> tail[|tail| - 1] == s[|s| - 1];
      FieldsAppend(tail, t, delim);
      FieldsAppendStep(head, tail, t, delim);
    }
  }

  lemma FieldsAppendStep(head: string, tail: string, t: string, delim: char)
    requires delim !in head && Fields(tail + t, delim) == Fields(tail, delim) + Fields(t, delim)
    ensures Fields(head + [delim] + tail + t, delim) == Fields(head + [delim] + tail, delim) + Fields(t, delim)
  {
    hide Fields;
    assert head + [delim] + tail + t == head + [delim] + (tail + t);
    FieldsOfTwo(head, tail, delim);
    FieldsOfTwo(head, tail + t, delim);
  }

  lemma LastIsDelim(s: string, delim: char)
    requires s != "" && s[|s| - 1] == delim
    ensures FieldLength(s, delim) < |s|
  {
  }

  /** The split recovers the pairs, with or without the last separator. */
  lemma {:induction false} PairsSplit(data: map<string, string>, order: seq<string>)
    requires forall key :: key in order ==> key in data
    ensures Fields(PairsText(data, order), PARAM_SEPARATOR) == PairTexts(data, order)
    ensures order != [] ==>
              var text := PairsText(data, order);
              && text != "" && text[|text| - 1] == PARAM_SEPARATOR
              && Fields(text[..|text| - 1], PARAM_SEPARATOR) == PairTexts(data, order)
  {
    if order != [] {
      hide Fields, PairText;
      var init, last := order[..|order| - 1], order[|order| - 1];
      PairsSplit(data, init);
      PairIsField(last, data[last]);
      OneMoreField(PairsText(data, init), PairText(last, data[last]), PARAM_SEPARATOR);
    }
  }

  lemma OneMoreField(before: string, pair: string, delim: char)
    requires before != "" ==> before[|before| - 1] == delim
    requires pair != "" && delim !in pair
    ensures var text := before + pair + [delim];
            && text[|text| - 1] == delim
            && Fields(text, delim) == Fields(before, delim) + [pair]
            && Fields(text[..|text| - 1], delim) == Fields(before, delim) + [pair]
  {
    hide Fields;
    FieldsOfOne(pair, delim);
    NoFields(delim);
    FieldsOfTwo(pair, "", delim);
    assert pair + [delim] + "" == pair + [delim];
    var text := before + pair + [delim];
    assert text == before + (pair + [delim]) && text[..|text| - 1] == before + pair;
    FieldsAppend(before, pair, delim);
    FieldsAppend(before, pair + [delim], delim);
  }

  /** The entries of the keys in `order` that have a value. */
  function NonEmptyEntries(data: map<string, string>, order: seq<string>): map<string, string>
    requires forall key :: key in order ==> key in data
  {
    map key | key in order && data[key] != "" :: data[key]
  }

  lemma {:induction false} PairsReadBack(data: map<string, string>, order: seq<string>)
    requires forall key :: key in order ==> key in data
    ensures WithPairs(map[], PairTexts(data, order)) == NonEmptyEntries(data, order)
  {
    if order != [] {
      var init, last := order[..|order| - 1], order[|order| - 1];
      var text := PairText(last, data[last]);
      assert order == init + [last];
      assert PairTexts(data, order) == PairTexts(data, init) + [text];
      hide WithPair, WithPairs, PairText, PairTexts, NonEmptyEntries;
      PairsReadBack(data, init);
      WithOneMore(map[], PairTexts(data, init), text);
      PairReadsBack(NonEmptyEntries(data, init), last, data[last]);
      OneMoreEntry(data, init, last);
    }
  }

  lemma WithOneMore(data: map<string, string>, pairs: seq<string>, pair: string)
    ensures WithPairs(data, pairs + [pair]) == WithPair(WithPairs(data, pairs), pair)
  {
  }

  lemma OneMoreEntry(data: map<string, string>, init: seq<string>, last: string)
    requires last in data && forall key :: key in init ==> key in data
    ensures forall key :: key in init + [last] ==> key in data
    ensures var entries := NonEmptyEntries(data, init);
            NonEmptyEntries(data, init + [last]) == if data[last] == "" then entries else entries[last := data[last]]
  {
  }

  /** For every map and every iteration order, deserializing the serialized string gives back exactly
      the entries whose value is not empty. */
  lemma RoundTrip(data: map<string, string>, order: seq<string>)
    requires IterationOrder(data, order)
    ensures Deserialized(Serialized(data, order)) == map key | key in data && data[key] != "" :: data[key]
  {
    if order == [] {
      assert data.Keys == {};
    } else {
      hide PairsText, PairTexts, WithPairs, Fields;
      PairsSplit(data, order);
      PairsReadBack(data, order);
      NotPlaceholder(data, order);
    }
  }

  /** What is written for a map with entries contains a key-value separator, so it is not the
      placeholder. */
  lemma NotPlaceholder(data: map<string, string>, order: seq<string>)
    requires order != [] && forall key :: key in order ==> key in data
    ensures var text := PairsText(data, order); text != "" && text[..|text| - 1] != EMPTY_PLACEHOLDER
  {
    hide PairText;
    var last := order[|order| - 1];
    var before, pair, text := PairsText(data, order[..|order| - 1]), PairText(last, data[last]), PairsText(data, order);
    PairIsField(last, data[last]);
    assert text[..|text| - 1] == before + pair;
    assert KEY_VALUE_SEPARATOR in before + pair;
    assert KEY_VALUE_SEPARATOR !in EMPTY_PLACEHOLDER;
  }

  /** The round trip is the identity exactly for the maps without an empty value. */
  lemma RoundTripExactly(data: map<string, string>, order: seq<string>)
    requires IterationOrder(data, order)
    ensures Deserialized(Serialized(data, order)) == data <==> forall key :: key in data ==> data[key] != ""
  {
    hide Deserialized, Serialized;
    RoundTrip(data, order);
    var kept := map key | key in data && data[key] != "" :: data[key];
    if kept == data {
      assert forall key :: key in data ==> key in kept;
    }
  }

  lemma NoKeys(data: map<string, string>, order: seq<string>)
    requires IterationOrder(data, order)
    ensures |data| == 0 <==> order == []
  {
    if order == [] {
      assert data.Keys == {};
    } else {
      assert order[0] in data.Keys;
    }
  }

  // ---- the class ---------------------------------------------------------------------------

  class ParamPackage {
    var data: map<string, string>

    /** The deserializing constructor. */
    constructor (serialized: string)
      ensures data == Deserialized(serialized)
    {
      data := map[];
      new;
      hide Fields, UnescapePasses;
      if serialized == EMPTY_PLACEHOLDER {
        return;
      }
      var pairs := SplitString(serialized, PARAM_SEPARATOR);
      for i := 0 to |pairs|
        invariant data == WithPairs(map[], pairs[..i])
      {
        assert pairs[..i + 1][..i] == pairs[..i];
        assert WithPairs(map[], pairs[..i + 1]) == WithPair(data, pairs[i]);
        var keyValue := SplitString(pairs[i], KEY_VALUE_SEPARATOR);
        if |keyValue| != 2 {
          continue;
        }
        var key := Unescape(keyValue[0]);
        var value := Unescape(keyValue[1]);
        Set(key, value);
      }
      assert pairs[..|pairs|] == pairs;
    }

    static method Unescape(part: string) returns (r: string)
      ensures r == UnescapePasses(part)
    {
      r := ReplaceAll(part, KEY_VALUE_SEPARATOR_ESCAPE, [KEY_VALUE_SEPARATOR]);
      r := ReplaceAll(r, PARAM_SEPARATOR_ESCAPE, [PARAM_SEPARATOR]);
      r := ReplaceAll(r, ESCAPE_CHARACTER_ESCAPE, [ESCAPE_CHARACTER]);
    }

    static method Escape(part: string) returns (r: string)
      ensures r == EscapePasses(part)
    {
      r := ReplaceAll(part, [ESCAPE_CHARACTER], ESCAPE_CHARACTER_ESCAPE);
      r := ReplaceAll(r, [PARAM_SEPARATOR], PARAM_SEPARATOR_ESCAPE);
      r := ReplaceAll(r, [KEY_VALUE_SEPARATOR], KEY_VALUE_SEPARATOR_ESCAPE);
    }

    /** The entry is read back from whatever `Serialize` makes of the package, unless its value is empty; then it is
        lost, even if there was another value before. */
    method Set(key: string, value: string)
      modifies this
      ensures data == old(data)[key := value]
      ensures forall order :: IterationOrder(data, order) ==>
                var back := Deserialized(Serialized(data, order));
                (key in back <==> value != "") && (value != "" ==> back[key] == value)
    {
      data := data[key := value];
      forall order | IterationOrder(data, order)
        ensures var back := Deserialized(Serialized(data, order));
                (key in back <==> value != "") && (value != "" ==> back[key] == value)
      {
        RoundTrip(data, order);
      }
    }

    /** `order` is the order in which the unordered map happens to be iterated. */
    method Serialize(order: seq<string>) returns (result: string)
      requires IterationOrder(data, order)
      ensures result == Serialized(data, order)
    {
      hide EscapePasses;
      if |data| == 0 {
        NoKeys(data, order);
        return EMPTY_PLACEHOLDER;
      }
      result := "";
      for i := 0 to |order|
        invariant result == PairsText(data, order[..i])
      {
        assert order[..i + 1][..i] == order[..i];
        var key := Escape(order[i]);
        var value := Escape(data[order[i]]);
        result := result + (key + [KEY_VALUE_SEPARATOR] + value + [PARAM_SEPARATOR]);
        assert result == PairsText(data, order[..i]) + PairText(order[i], data[order[i]]) + [PARAM_SEPARATOR];
      }
      assert order[..|order|] == order;
      NoKeys(data, order);
      result := result[..|result| - 1];
    }
  }
}
