/** src/common/multi_level_queue.h: one list per priority and a 64-bit map of the priorities in use.
    The queue is proved to behave as the plain sequence of its lists, whatever the map. */
module MultiLevelQueue {
  import opened Wrappers
  import opened Arithmetic
  import opened Bits

  // ---- the lists ---------------------------------------------------------------------------

  /** All elements, best priority first. */
  function Flatten<T>(levels: seq<seq<T>>): seq<T> {
    if levels == [] then [] else levels[0] + Flatten(levels[1..])
  }

  function IndexOf<T(==)>(list: seq<T>, element: T): (k: nat)
    ensures k <= |list| && element !in list[..k] && (k < |list| ==> list[k] == element)
  {
    if list == [] || list[0] == element then 0 else
      var k := IndexOf(list[1..], element);
      assert list[..k + 1] == [list[0]] + list[1..][..k];
      k + 1
  }

  /** The list without the first occurrence of the element. */
  function Without<T(==)>(list: seq<T>, element: T): (r: seq<T>)
    ensures multiset(r) == multiset(list) - multiset{element}
    ensures element !in list ==> r == list
  {
    var k := IndexOf(list, element);
    if k == |list| then list else
      assert list == list[..k] + [element] + list[k + 1..];
      list[..k] + list[k + 1..]
  }

  /** Whatever stands before and after the first occurrence stays, in order. */
  lemma WithoutFirst<T>(before: seq<T>, element: T, after: seq<T>)
    requires element !in before
    ensures Without(before + [element] + after, element) == before + after
  {
    FirstIndex(before, element, after);
  }

  lemma {:induction false} FirstIndex<T>(before: seq<T>, element: T, after: seq<T>)
    requires element !in before
    ensures IndexOf(before + [element] + after, element) == |before|
  {
    if before != [] {
      assert (before + [element] + after)[1..] == before[1..] + [element] + after;
      FirstIndex(before[1..], element, after);
    }
  }

  /** The first `n` elements move to the back, unless there are no more than `n`. */
  function Shifted<T>(list: seq<T>, n: nat): (r: seq<T>)
    ensures multiset(r) == multiset(list)
  {
    if n >= |list| then list else
      assert list == list[..n] + list[n..];
      list[n..] + list[..n]
  }

  /** A list in two parts, of which the second is not empty, has them exchanged. */
  lemma ShiftedParts<T>(first: seq<T>, rest: seq<T>)
    requires rest != []
    ensures Shifted(first + rest, |first|) == rest + first
  {
  }

  /** The map has the bit of a priority set exactly when that priority's list is not empty. */
  ghost predicate Mapped<T>(levels: seq<seq<T>>, used: nat) {
    && 1 <= |levels| <= WIDTH && used < Pow2(WIDTH)
    && forall p: nat :: Bit(used, p) <==> p < |levels| && levels[p] != []
  }

  // ---- reading the map ---------------------------------------------------------------------

  /** `highest_priority_set`: the best priority in use that is `maxPriority` or worse, or the depth. */
  function HighestPrioritySet<T>(levels: seq<seq<T>>, used: nat, maxPriority: nat): (r: nat)
    requires Mapped(levels, used) && maxPriority < WIDTH
    ensures r <= |levels|
    ensures r < |levels| ==> maxPriority <= r && levels[r] != []
    ensures forall p :: maxPriority <= p < r ==> levels[p] == []
  {
    KeepFrom(used, maxPriority);
    ZeroBits();
    var priorities := if maxPriority == 0 then used else And(used, Not(Shl1(maxPriority) - 1, WIDTH));
    if priorities == 0 then
      assert forall p: nat {:trigger Bit(used, p)} :: maxPriority <= p < |levels| ==> !Bit(used, p);
      |levels|
    else
      var r := CountTrailingZeroes(priorities);
      assert Bit(used, r);
      assert forall p: nat {:trigger Bit(used, p)} :: maxPriority <= p < r ==> !Bit(used, p);
      r
  }

  /** `lowest_priority_set`: the worst priority in use that is `minPriority` or better, or the depth. */
  function LowestPrioritySet<T>(levels: seq<seq<T>>, used: nat, minPriority: nat): (r: nat)
    requires Mapped(levels, used)
    ensures r <= |levels|
    ensures r < |levels| ==> r <= minPriority && levels[r] != []
    ensures forall p :: 0 <= p <= minPriority && p < |levels| && (r == |levels| || r < p) ==> levels[p] == []
  {
    if minPriority >= |levels| - 1 then HighestUsed(levels, used, used, minPriority)
    else
      UpToBits(used, minPriority);
      HighestUsed(levels, used, UpTo(used, minPriority), minPriority)
  }

  /** Line 262. */
  function UpTo(used: nat, minPriority: nat): nat
    requires minPriority + 1 < WIDTH
  {
    And(used, Shl1(minPriority + 1) - 1)
  }

  lemma UpToBits(used: nat, minPriority: nat)
    requires used < Pow2(WIDTH) && minPriority + 1 < WIDTH
    ensures forall p: nat :: Bit(UpTo(used, minPriority), p) <==> Bit(used, p) && p <= minPriority
  {
    hide Bit, And, Pow2;
    KeepBelow(used, minPriority + 1);
    var kept := UpTo(used, minPriority);
    forall p: nat ensures Bit(kept, p) <==> Bit(used, p) && p <= minPriority {
      assert Bit(kept, p) <==> Bit(used, p) && p < minPriority + 1;
    }
  }

  function HighestUsed<T>(levels: seq<seq<T>>, used: nat, priorities: nat, minPriority: nat): (r: nat)
    requires Mapped(levels, used)
    requires forall p: nat :: Bit(priorities, p) <==> Bit(used, p) && p <= minPriority
    ensures r <= |levels|
    ensures r < |levels| ==> r <= minPriority && levels[r] != []
    ensures forall p :: 0 <= p <= minPriority && p < |levels| && (r == |levels| || r < p) ==> levels[p] == []
  {
    ZeroBits();
    if priorities == 0 then
      assert forall p: nat {:trigger Bit(used, p)} :: p <= minPriority ==> !Bit(used, p);
      |levels|
    else
      var r := HighestBit(priorities);
      assert Bit(used, r);
      assert forall p: nat {:trigger Bit(used, p)} :: r < p <= minPriority ==> !Bit(used, p);
      r
  }

  // ---- iterators ---------------------------------------------------------------------------

  /** `iterator_impl`: a priority and a position in its list; the depth as priority is the end. */
  datatype Iterator = Iterator(priority: nat, position: nat)

  predicate OnElement<T>(levels: seq<seq<T>>, it: Iterator) {
    it.priority < |levels| && it.position < |levels[it.priority]|
  }

  predicate ValidIterator<T>(levels: seq<seq<T>>, it: Iterator) {
    it.priority == |levels| || OnElement(levels, it)
  }

  predicate SameIterator<T>(levels: seq<seq<T>>, a: Iterator, b: Iterator) {
    (a.priority == |levels| && b.priority == |levels|) || a == b
  }

  /** Iterators compare equal exactly when both are at the end or both on the same element. */
  lemma ComparedExactly<T>(levels: seq<seq<T>>, a: Iterator, b: Iterator)
    requires ValidIterator(levels, a) && ValidIterator(levels, b)
    ensures SameIterator(levels, a, b)
            <==> (OnElement(levels, a) <==> OnElement(levels, b)) && (OnElement(levels, a) ==> a == b)
  {
  }

  function Begin<T>(levels: seq<seq<T>>, used: nat, maxPriority: nat): (it: Iterator)
    requires Mapped(levels, used) && maxPriority < WIDTH
    ensures ValidIterator(levels, it)
  {
    Iterator(HighestPrioritySet(levels, used, maxPriority), 0)
  }

  function End<T>(levels: seq<seq<T>>, used: nat, minPriority: nat): (it: Iterator)
    requires Mapped(levels, used) && minPriority < |levels|
    ensures ValidIterator(levels, it)
  {
    if minPriority == |levels| - 1 then Iterator(|levels|, 0) else Begin(levels, used, minPriority + 1)
  }

  /** `operator++`; None where the source shifts a 64-bit number by 64, which has no defined result. */
  function Next<T>(levels: seq<seq<T>>, used: nat, it: Iterator): (r: Option<Iterator>)
    requires Mapped(levels, used) && ValidIterator(levels, it)
    ensures r.Some? ==> ValidIterator(levels, r.value)
  {
    if it.priority == |levels| then Some(it)
    else if it.position + 1 < |levels[it.priority]| then Some(it.(position := it.position + 1))
    else if it.priority + 1 == WIDTH then None
    else
      KeepFrom(used, it.priority + 1);
      var prios := And(used, Not(Shl1(it.priority + 1) - 1, WIDTH));
      if prios == 0 then Some(Iterator(|levels|, 0))
      else
        assert Bit(used, CountTrailingZeroes(prios));
        Some(Iterator(CountTrailingZeroes(prios), 0))
  }

  /** What is left to visit from `it` up to the end of priority `b`. */
  function Ahead<T>(levels: seq<seq<T>>, it: Iterator, b: nat): seq<T>
    requires ValidIterator(levels, it) && b < |levels|
  {
    if it.priority > b then [] else levels[it.priority][it.position..] + Flatten(levels[it.priority + 1..b + 1])
  }

  lemma {:induction false} FlattenEmpty<T>(levels: seq<seq<T>>, k: nat)
    requires k <= |levels| && forall p :: 0 <= p < k ==> levels[p] == []
    ensures Flatten(levels) == Flatten(levels[k..])
  {
    if k == 0 {
      assert levels[0..] == levels;
    } else {
      FlattenEmpty(levels[1..], k - 1);
      assert levels[1..][k - 1..] == levels[k..];
    }
  }

  /** The empty priorities between two used ones contribute nothing. */
  lemma FlattenFrom<T>(levels: seq<seq<T>>, from: nat, to: nat, b: nat)
    requires from <= to && from <= b + 1 <= |levels| && to <= |levels|
    requires forall p :: from <= p < to ==> levels[p] == []
    ensures Flatten(levels[from..b + 1])
            == if to > b then [] else levels[to] + Flatten(levels[to + 1..b + 1])
  {
    var part := levels[from..b + 1];
    if to > b {
      FlattenEmpty(part, |part|);
    } else {
      FlattenEmpty(part, to - from);
      assert part[to - from..] == levels[to..b + 1];
      assert levels[to..b + 1][1..] == levels[to + 1..b + 1];
    }
  }

  lemma BeginAhead<T>(levels: seq<seq<T>>, used: nat, a: nat, b: nat)
    requires Mapped(levels, used) && a <= b < |levels|
    ensures Ahead(levels, Begin(levels, used, a), b) == Flatten(levels[a..b + 1])
  {
    FlattenFrom(levels, a, HighestPrioritySet(levels, used, a), b);
  }

  lemma AheadWithin<T>(levels: seq<seq<T>>, it: Iterator, b: nat)
    requires it.priority <= b < |levels| && it.position + 1 < |levels[it.priority]|
    ensures Ahead(levels, it, b)
            == [levels[it.priority][it.position]] + Ahead(levels, it.(position := it.position + 1), b)
  {
  }

  lemma AheadAcross<T>(levels: seq<seq<T>>, it: Iterator, next: nat, b: nat)
    requires it.priority <= b < |levels| && it.position + 1 == |levels[it.priority]|
    requires it.priority < next <= |levels| && (next < |levels| ==> levels[next] != [])
    requires forall p :: it.priority < p < next ==> levels[p] == []
    ensures Ahead(levels, it, b)
            == [levels[it.priority][it.position]] + Ahead(levels, Iterator(next, 0), b)
  {
    hide Flatten;
    FlattenFrom(levels, it.priority + 1, next, b);
    assert levels[it.priority][it.position..] == [levels[it.priority][it.position]];
    assert next <= b ==> levels[next][0..] == levels[next];
  }

  /** `++` moves past exactly the element it stood on, to the next priority in use if need be. */
  lemma NextAhead<T>(levels: seq<seq<T>>, used: nat, it: Iterator, b: nat)
    requires Mapped(levels, used) && OnElement(levels, it) && it.priority <= b < |levels|
    requires Next(levels, used, it).Some?
    ensures Ahead(levels, it, b) == [levels[it.priority][it.position]] + Ahead(levels, Next(levels, used, it).value, b)
  {
    if it.position + 1 < |levels[it.priority]| {
      assert Next(levels, used, it) == Some(it.(position := it.position + 1));
      hide Next, Mapped, Ahead;
      AheadWithin(levels, it, b);
    } else {
      NextIsHighest(levels, used, it);
      var h := HighestPrioritySet(levels, used, it.priority + 1);
      hide Next, Mapped, Ahead, HighestPrioritySet;
      AheadAcross(levels, it, h, b);
    }
  }

  /** At the end of a list, `++` goes where `begin` of the next priority is. */
  lemma NextIsHighest<T>(levels: seq<seq<T>>, used: nat, it: Iterator)
    requires Mapped(levels, used) && OnElement(levels, it) && it.priority + 1 < WIDTH
    requires it.position + 1 == |levels[it.priority]|
    ensures Next(levels, used, it)
            == Some(Iterator(HighestPrioritySet(levels, used, it.priority + 1), 0))
  {
  }

  /** Where a walk up to priority `b` can stand: at or before `b`, or exactly at `end(b)`. */
  ghost predicate OnTheWay<T>(levels: seq<seq<T>>, used: nat, it: Iterator, b: nat)
    requires Mapped(levels, used) && b < |levels|
  {
    && ValidIterator(levels, it)
    && (it.priority <= b <==> !SameIterator(levels, it, End(levels, used, b)))
  }

  lemma BeginOnTheWay<T>(levels: seq<seq<T>>, used: nat, a: nat, b: nat)
    requires Mapped(levels, used) && a <= b < |levels|
    ensures OnTheWay(levels, used, Begin(levels, used, a), b)
  {
  }

  /** If nothing is in use from `a` to `b`, `begin(a)` is `begin(b + 1)`, or the end. */
  lemma HighestSkips<T>(levels: seq<seq<T>>, used: nat, a: nat, b: nat)
    requires Mapped(levels, used) && a <= b < |levels|
    ensures var h := HighestPrioritySet(levels, used, a);
            h > b ==> if b + 1 < |levels| then h == HighestPrioritySet(levels, used, b + 1) else h == |levels|
  {
  }

  lemma NextOnTheWay<T>(levels: seq<seq<T>>, used: nat, it: Iterator, b: nat)
    requires Mapped(levels, used) && OnElement(levels, it) && it.priority <= b < |levels|
    requires OnTheWay(levels, used, it, b) && Next(levels, used, it).Some?
    ensures OnTheWay(levels, used, Next(levels, used, it).value, b)
  {
    if it.position + 1 < |levels[it.priority]| {
      assert Next(levels, used, it) == Some(it.(position := it.position + 1));
    } else {
      NextIsHighest(levels, used, it);
      if it.priority < b {
        HighestSkips(levels, used, it.priority + 1, b);
      }
    }
  }

  /** `for (it = begin(a); it != end(b); ++it)`: it visits the lists of the priorities a to b, one after
      the other, each element once; and it reaches the undefined shift exactly when `b` is priority 63
      and that priority is in use. */
  method Walk<T>(levels: seq<seq<T>>, used: nat, a: nat, b: nat) returns (visited: Option<seq<T>>)
    requires Mapped(levels, used) && a <= b < |levels|
    ensures visited.Some? ==> visited.value == Flatten(levels[a..b + 1])
    ensures visited.None? <==> b == WIDTH - 1 && levels[b] != []
  {
    assert |levels| <= WIDTH;
    hide Mapped, Next, Flatten, Ahead, Begin, End, OnTheWay;
    var it := Begin(levels, used, a);
    BeginAhead(levels, used, a, b);
    BeginOnTheWay(levels, used, a, b);
    if levels[b] != [] {
      BeginBefore(levels, used, a, b);
    }
    var seen := [];
    assert seen + Ahead(levels, it, b) == Ahead(levels, it, b);
    OnTheWayMeaning(levels, used, it, b);
    while !SameIterator(levels, it, End(levels, used, b))
      invariant OnTheWay(levels, used, it, b) && ValidIterator(levels, it)
      invariant it.priority <= b <==> !SameIterator(levels, it, End(levels, used, b))
      invariant seen + Ahead(levels, it, b) == Flatten(levels[a..b + 1])
      invariant b == WIDTH - 1 && levels[b] != [] ==> it.priority <= b
      decreases |Ahead(levels, it, b)|
    {
      var next := Next(levels, used, it);
      NextDefined(levels, used, it, b);
      if next.None? {
        return None;
      }
      WalkStep(levels, used, it, b, seen);
      seen := seen + [levels[it.priority][it.position]];
      it := next.value;
    }
    NothingAhead(levels, it, b);
    return Some(seen);
  }

  lemma OnTheWayMeaning<T>(levels: seq<seq<T>>, used: nat, it: Iterator, b: nat)
    requires Mapped(levels, used) && b < |levels| && OnTheWay(levels, used, it, b)
    ensures ValidIterator(levels, it)
    ensures it.priority <= b <==> !SameIterator(levels, it, End(levels, used, b))
  {
  }

  lemma WalkStep<T>(levels: seq<seq<T>>, used: nat, it: Iterator, b: nat, seen: seq<T>)
    requires Mapped(levels, used) && OnElement(levels, it) && it.priority <= b < |levels|
    requires OnTheWay(levels, used, it, b) && Next(levels, used, it).Some?
    ensures var it' := Next(levels, used, it).value;
            && OnTheWay(levels, used, it', b) && ValidIterator(levels, it')
            && (it'.priority <= b <==> !SameIterator(levels, it', End(levels, used, b)))
            && seen + [levels[it.priority][it.position]] + Ahead(levels, it', b) == seen + Ahead(levels, it, b)
            && |Ahead(levels, it', b)| < |Ahead(levels, it, b)|
  {
    hide Mapped, Next, Flatten, Ahead, End;
    NextAhead(levels, used, it, b);
    NextOnTheWay(levels, used, it, b);
  }

  lemma BeginBefore<T>(levels: seq<seq<T>>, used: nat, a: nat, b: nat)
    requires Mapped(levels, used) && a <= b < |levels| && levels[b] != []
    ensures Begin(levels, used, a).priority <= b
  {
  }

  lemma NothingAhead<T>(levels: seq<seq<T>>, it: Iterator, b: nat)
    requires ValidIterator(levels, it) && b < |levels|
    ensures it.priority > b ==> Ahead(levels, it, b) == []
  {
  }

  lemma NextDefined<T>(levels: seq<seq<T>>, used: nat, it: Iterator, b: nat)
    requires Mapped(levels, used) && OnElement(levels, it) && it.priority <= b < |levels|
    ensures Next(levels, used, it).None? ==> b == WIDTH - 1 && levels[b] != []
    ensures b == WIDTH - 1 && levels[b] != [] && Next(levels, used, it).Some? ==>
              Next(levels, used, it).value.priority <= b
  {
    if Next(levels, used, it).Some? && it.position + 1 == |levels[it.priority]| {
      NextIsHighest(levels, used, it);
    }
  }

  // ---- going back --------------------------------------------------------------------------

  /** `operator--`. From the first element of a list it goes to the best priority in use before it. */
  function Prev<T>(levels: seq<seq<T>>, used: nat, it: Iterator): (r: Iterator)
    requires Mapped(levels, used) && ValidIterator(levels, it)
    ensures ValidIterator(levels, r)
  {
    if it.priority == |levels| then
      if used == 0 then it else
        var p := HighestBit(used);
        Iterator(p, |levels[p]| - 1)
    else if it.position > 0 then it.(position := it.position - 1)
    else
      KeepBelow(used, it.priority);
      var prios := And(used, Shl1(it.priority) - 1);
      if prios == 0 then it else
        var p := CountTrailingZeroes(prios);
        assert Bit(used, p);
        Iterator(p, |levels[p]| - 1)
  }

  /** Where `--` goes from the first element of a list, in terms of the lists. */
  lemma PrevAcross<T>(levels: seq<seq<T>>, used: nat, it: Iterator, p: nat)
    requires Mapped(levels, used) && OnElement(levels, it) && it.position == 0
    requires p < it.priority && levels[p] != []
    ensures Prev(levels, used, it).priority == p <==> forall q :: 0 <= q < p ==> levels[q] == []
  {
    hide Bit, And, CountTrailingZeroes, Pow2;
    LowestBelow(used, it.priority, p);
    var r := CountTrailingZeroes(And(used, Shl1(it.priority) - 1));
    assert Bit(used, p) && Bit(used, r);
    assert forall q: nat {:trigger Bit(used, q)} :: q < r ==> !Bit(used, q);
  }

  /** The best priority in use below another one. */
  lemma LowestBelow(used: nat, n: nat, p: nat)
    requires used < Pow2(WIDTH) && n < WIDTH && p < n && Bit(used, p)
    ensures var prios := And(used, Shl1(n) - 1);
            && prios != 0
            && var r := CountTrailingZeroes(prios);
               Bit(used, r) && r <= p && forall q: nat :: q < r ==> !Bit(used, q)
  {
    hide Pow2, And;
    KeepBelow(used, n);
    ZeroBits();
    var prios := And(used, Shl1(n) - 1);
    assert Bit(prios, p);
    var r := CountTrailingZeroes(prios);
    forall q: nat | q < r ensures !Bit(used, q) {
      assert !Bit(prios, q);
    }
  }

  /** `--` undoes `++` exactly when `++` stayed in its list, reached the end, or left the best priority
      in use: with two priorities in use before a third, going back skips the nearer one. */
  lemma PrevUndoesNextExactly<T>(levels: seq<seq<T>>, used: nat, it: Iterator)
    requires Mapped(levels, used) && OnElement(levels, it) && Next(levels, used, it).Some?
    ensures var it' := Next(levels, used, it).value;
            Prev(levels, used, it') == it <==>
              || it'.priority == it.priority || it'.priority == |levels|
              || forall q :: 0 <= q < it.priority ==> levels[q] == []
  {
    var it' := Next(levels, used, it).value;
    if it.position + 1 == |levels[it.priority]| {
      NextIsHighest(levels, used, it);
      if it'.priority == |levels| {
        LastUsed(levels, used, it.priority);
      } else {
        PrevAcross(levels, used, it', it.priority);
      }
    }
  }

  lemma LastUsed<T>(levels: seq<seq<T>>, used: nat, p: nat)
    requires Mapped(levels, used) && p < |levels| && levels[p] != []
    requires forall q :: p < q < |levels| ==> levels[q] == []
    ensures used != 0 && HighestBit(used) == p
  {
    ZeroBits();
    assert Bit(used, p);
    assert Bit(used, HighestBit(used));
  }

  // ---- size --------------------------------------------------------------------------------

  /** The lengths of the lists whose bit is set in `priorities`. */
  function SizeOf<T>(levels: seq<seq<T>>, priorities: nat, from: nat): nat
    requires from <= |levels|
    decreases |levels| - from
  {
    if from == |levels| then 0 else
      (if Bit(priorities, from) then |levels[from]| else 0) + SizeOf(levels, priorities, from + 1)
  }

  lemma {:induction false} SizeOfAll<T>(levels: seq<seq<T>>, used: nat, from: nat)
    requires Mapped(levels, used) && from <= |levels|
    ensures SizeOf(levels, used, from) == |Flatten(levels[from..])|
    decreases |levels| - from
  {
    if from < |levels| {
      SizeOfAll(levels, used, from + 1);
      assert levels[from..][1..] == levels[from + 1..];
    }
  }

  lemma {:induction false} SizeOfCleared<T>(levels: seq<seq<T>>, w: nat, w': nat, p: nat, from: nat)
    requires from <= |levels| && p < |levels| && Bit(w, p)
    requires forall q: nat :: Bit(w', q) <==> Bit(w, q) && q != p
    ensures SizeOf(levels, w, from) == SizeOf(levels, w', from) + (if from <= p then |levels[p]| else 0)
    decreases |levels| - from
  {
    if from < |levels| {
      SizeOfCleared(levels, w, w', p, from + 1);
    }
  }

  lemma {:induction false} SizeOfNone<T>(levels: seq<seq<T>>, from: nat)
    requires from <= |levels|
    ensures SizeOf(levels, 0, from) == 0
    decreases |levels| - from
  {
    if from < |levels| {
      ZeroBit(from);
      SizeOfNone(levels, from + 1);
    }
  }

  /** `size()`: clears one bit after the other, adding up the lengths. */
  method Size<T>(levels: seq<seq<T>>, used: nat) returns (size: nat)
    requires Mapped(levels, used)
    ensures size == |Flatten(levels)|
  {
    hide Flatten, SizeOf, Pow2, Not, And;
    var priorities: nat := used;
    size := 0;
    SizeOfAll(levels, used, 0);
    assert levels[0..] == levels;
    while priorities != 0
      invariant priorities < Pow2(WIDTH)
      invariant forall q: nat :: Bit(priorities, q) ==> q < |levels|
      invariant size + SizeOf(levels, priorities, 0) == |Flatten(levels)|
      decreases priorities
    {
      var current := CountTrailingZeroes(priorities);
      size := size + |levels[current]|;
      ghost var before := priorities;
      ClearBit(before, current);
      priorities := And(priorities, Not(Shl1(current), WIDTH));
      AndBound(before, Not(Shl1(current), WIDTH));
      SizeOfCleared(levels, before, priorities, current, 0);
    }
    SizeOfNone(levels, 0);
  }

  // ---- the queue ---------------------------------------------------------------------------

  class MultiLevelQueue<T(==)> {
    var levels: seq<seq<T>>
    var used: nat

    ghost predicate Valid()
      reads this
    {
      Mapped(levels, used)
    }

    constructor (depth: nat)
      requires 1 <= depth <= WIDTH
      ensures Valid() && |levels| == depth && forall p :: 0 <= p < depth ==> levels[p] == []
    {
      levels := seq(depth, _ => []);
      used := 0;
      ZeroBits();
    }

    method Add(element: T, priority: nat, sendBack: bool)
      requires Valid() && priority < |levels|
      modifies this
      ensures Valid()
      ensures levels == old(levels)[priority := if sendBack then old(levels[priority]) + [element]
                                                else [element] + old(levels[priority])]
    {
      if sendBack {
        levels := levels[priority := levels[priority] + [element]];
      } else {
        levels := levels[priority := [element] + levels[priority]];
      }
      SetBit(used, priority);
      used := Or(used, Shl1(priority));
    }

    // `ListIterateTo`
    method IterateTo(list: seq<T>, element: T) returns (k: nat)
      ensures k == IndexOf(list, element)
    {
      k := 0;
      while k < |list| && list[k] != element
        invariant k <= |list| && IndexOf(list, element) == k + IndexOf(list[k..], element)
      {
        assert list[k..][1..] == list[k + 1..];
        k := k + 1;
      }
    }

    method Remove(element: T, priority: nat)
      requires Valid() && priority < |levels|
      modifies this
      ensures Valid()
      ensures levels == old(levels)[priority := Without(old(levels[priority]), element)]
    {
      var k := IterateTo(levels[priority], element);
      if k == |levels[priority]| {
        return;
      }
      levels := levels[priority := levels[priority][..k] + levels[priority][k + 1..]];
      DropIfEmpty(priority);
    }

    // Lines 179-181 and 198-200
    method DropIfEmpty(priority: nat)
      requires 1 <= |levels| <= WIDTH && used < Pow2(WIDTH) && priority < |levels| && Bit(used, priority)
      requires forall p: nat :: p != priority ==> (Bit(used, p) <==> p < |levels| && levels[p] != [])
      modifies this`used
      ensures Valid()
    {
      if levels[priority] == [] {
        ClearBit(used, priority);
        used := And(used, Not(Shl1(priority), WIDTH));
      }
    }

    method Adjust(element: T, oldPriority: nat, newPriority: nat, adjustFront: bool)
      requires Valid() && oldPriority < |levels| && newPriority < |levels|
      modifies this
      ensures Valid()
      ensures var removed := old(levels)[oldPriority := Without(old(levels[oldPriority]), element)];
              levels == removed[newPriority := if adjustFront then [element] + removed[newPriority]
                                               else removed[newPriority] + [element]]
    {
      Remove(element, oldPriority);
      Add(element, newPriority, !adjustFront);
    }

    /** `transfer_to_front` and `transfer_to_back`; the element must be there, as the splice demands. */
    method Transfer(element: T, priority: nat, other: MultiLevelQueue<T>, toFront: bool)
      requires Valid() && other.Valid() && |levels| == |other.levels| && priority < |levels|
      requires element in levels[priority]
      modifies this, other
      ensures Valid() && other.Valid()
      ensures var left := old(levels)[priority := Without(old(levels[priority]), element)];
              var there := if other == this then left else old(other.levels);
              && (other != this ==> levels == left)
              && other.levels == there[priority := if toFront then [element] + there[priority]
                                                   else there[priority] + [element]]
    {
      hide Bit, Pow2, Or, Shl1;
      var k := IterateTo(levels[priority], element);
      levels := levels[priority := levels[priority][..k] + levels[priority][k + 1..]];
      var there := other.levels[priority];
      other.levels := other.levels[priority := if toFront then [element] + there else there + [element]];
      SetBit(other.used, priority);
      other.used := Or(other.used, Shl1(priority));
      DropIfEmpty(priority);
    }

    method Yield(priority: nat, n: nat)
      requires Valid() && priority < |levels|
      modifies this`levels
      ensures Valid()
      ensures levels == old(levels)[priority := Shifted(old(levels[priority]), n)]
    {
      if n < |levels[priority]| {
        levels := levels[priority := levels[priority][n..] + levels[priority][..n]];
      }
    }
  }
}
