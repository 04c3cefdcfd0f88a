/** The log walk of externals/microprofile/microprofile.h: 64-bit log entries with a 48-bit tick that
    wraps, the circular interval of a frame, and the stack accounting of inclusive, exclusive and group
    ticks. */
module MicroProfile {
  import opened Arithmetic
  import opened RingIndex
  import opened Wrappers

  // ---- log entries -------------------------------------------------------------------------

  const TICKS: int := 0x1_0000_0000_0000          // 2^48
  const HALF_TICKS: int := 0x8000_0000_0000       // 2^47
  const TIMERS: int := 0x4000                     // 2^14

  /** `MicroProfileMakeLogIndex`: two bits of type, 14 of timer index, 48 of tick; the parts do not
      overlap, so the bitwise or is a sum. */
  function MakeLogIndex(begin: nat, token: nat, tick: int): (e: nat)
    requires begin < 4
    ensures e < WRAP
  {
    begin * 0x4000_0000_0000_0000 + (token % TIMERS) * TICKS + tick % TICKS
  }

  function LogType(e: nat): nat
    requires e < WRAP
  {
    e / 0x4000_0000_0000_0000 % 4
  }

  function LogTimerIndex(e: nat): nat {
    e / TICKS % TIMERS
  }

  function LogTick(e: nat): nat {
    e % TICKS
  }

  /** `MicroProfileLogTickDifference`: subtract after shifting out the upper 16 bits, read the result as a
      signed number, and shift back. */
  function LogTickDifference(start: nat, end: nat): int
    requires start < WRAP && end < WRAP
  {
    var difference := (end * 0x10000 - start * 0x10000) % WRAP;
    var signed := if difference < WRAP / 2 then difference else difference - WRAP;
    signed / 0x10000
  }

  /** What was put into an entry can be read from it. */
  lemma MadeEntryReadsBack(begin: nat, token: nat, tick: int)
    requires begin < 4
    ensures var e := MakeLogIndex(begin, token, tick);
            LogType(e) == begin && LogTimerIndex(e) == token % TIMERS && LogTick(e) == tick % TICKS
  {
    var e := MakeLogIndex(begin, token, tick);
    var low := (token % TIMERS) * TICKS + tick % TICKS;
    assert e == begin * 0x4000_0000_0000_0000 + low && 0 <= low < 0x4000_0000_0000_0000;
    assert e / 0x4000_0000_0000_0000 == begin;
    assert e / TICKS == begin * TIMERS + token % TIMERS;
  }

  /** The difference of two entries is the difference of their ticks, taken modulo 2^48 into the range
      from -2^47 up to 2^47. */
  lemma DifferenceIsSigned(start: nat, end: nat)
    requires start < WRAP && end < WRAP
    ensures var d := LogTickDifference(start, end);
            -HALF_TICKS <= d < HALF_TICKS && (d - (LogTick(end) - LogTick(start))) % TICKS == 0
  {
    var x := end - start;
    var q := x / TICKS;
    assert x == TICKS * q + x % TICKS;
    assert (end * 0x10000 - start * 0x10000) % WRAP == (x % TICKS) * 0x10000 by {
      assert end * 0x10000 - start * 0x10000 == WRAP * q + (x % TICKS) * 0x10000;
    }
    var m := x % TICKS;
    var d := if m < HALF_TICKS then m else m - TICKS;
    assert LogTickDifference(start, end) == d;
    assert d - (LogTick(end) - LogTick(start))
        == TICKS * (end / TICKS - start / TICKS - q + (if m < HALF_TICKS then 0 else -1));
  }

  /** For events at any two times, however often the 48 bits have wrapped, the difference computed from
      the log is the true one exactly when the true one lies from -2^47 up to 2^47. */
  lemma DurationExactly(begin: nat, token: nat, from: int, begin': nat, token': nat, to: int)
    requires begin < 4 && begin' < 4
    ensures LogTickDifference(MakeLogIndex(begin, token, from), MakeLogIndex(begin', token', to)) == to - from
            <==> -HALF_TICKS <= to - from < HALF_TICKS
  {
    var start, end := MakeLogIndex(begin, token, from), MakeLogIndex(begin', token', to);
    MadeEntryReadsBack(begin, token, from);
    MadeEntryReadsBack(begin', token', to);
    DifferenceIsSigned(start, end);
    var d := LogTickDifference(start, end);
    hide LogTickDifference, MakeLogIndex;
    var k := (d - (LogTick(end) - LogTick(start))) / TICKS;
    assert d - (to - from) == TICKS * (k - to / TICKS + from / TICKS) by {
      assert to == TICKS * (to / TICKS) + to % TICKS;
      assert from == TICKS * (from / TICKS) + from % TICKS;
    }
  }

  // ---- the circular interval ---------------------------------------------------------------

  /** `MicroProfileGetRange`; the caller passes ranges of zeros. */
  method GetRange(bufferSize: nat, put: nat, get: nat) returns (r0: (nat, nat), r1: (nat, nat))
    requires put < bufferSize && get < bufferSize
    ensures r0.0 <= r0.1 <= bufferSize && r1.0 <= r1.1 <= bufferSize
    ensures Indices(r0) + Indices(r1) == Interval(bufferSize, get, put)
  {
    hide Interval, Indices;
    r0, r1 := (0, 0), (0, 0);
    if put > get {
      r0 := (get, put);
    } else if put != get {
      var countEnd := bufferSize - get;
      r0 := (get, get + countEnd);
      r1 := (0, put);
    }
    RangesAreInterval(bufferSize, put, get);
  }

  lemma RangesAreInterval(bufferSize: nat, put: nat, get: nat)
    requires put < bufferSize && get < bufferSize
    ensures Interval(bufferSize, get, put)
            == if put > get then Indices((get, put)) + Indices((0, 0))
               else if put != get then Indices((get, bufferSize)) + Indices((0, put))
               else Indices((0, 0)) + Indices((0, 0))
  {
    hide Slot;
    SlotOnce(bufferSize, put - get);
    forall x | 0 <= x < 2 * bufferSize
      ensures Slot(bufferSize, x) == if x < bufferSize then x else x - bufferSize
    {
      SlotOnce(bufferSize, x);
    }
  }

  lemma SlotOnce(n: nat, x: int)
    requires 0 < n && -(n as int) < x < 2 * n
    ensures Slot(n, x) == if x < 0 then x + n else if x < n then x else x - n
  {
  }

  /** The numbers of a half-open range. */
  function Indices(r: (nat, nat)): seq<int> {
    if r.0 <= r.1 then seq(r.1 - r.0, i => r.0 + i) else []
  }

  /** The slots from `get` up to `put`, going round at the end of the buffer. */
  function Interval(bufferSize: nat, get: nat, put: nat): (slots: seq<int>)
    requires put < bufferSize && get < bufferSize
    ensures forall i :: 0 <= i < |slots| ==> 0 <= slots[i] < bufferSize
  {
    var slots := seq(Slot(bufferSize, put - get), i => Slot(bufferSize, get + i));
    assert forall i :: 0 <= i < |slots| ==> slots[i] == Slot(bufferSize, get + i);
    slots
  }

  // ---- the walk ----------------------------------------------------------------------------

  const STACK_MAX: nat := 32

  datatype Kind = Leave | Enter | Meta | GpuExtra

  datatype Entry = Entry(kind: Kind, timer: nat, tick: nat)

  /** The type number of a log entry. */
  function Number(kind: Kind): (n: nat)
    ensures n < 4
  {
    match kind
    case Leave => 0
    case Enter => 1
    case Meta => 2
    case GpuExtra => 3
  }

  /** What the walk reads from a 64-bit log entry. */
  function Decoded(e: nat): Entry
    requires e < WRAP
  {
    var kind := match LogType(e) case 0 => Leave case 1 => Enter case 2 => Meta case _ => GpuExtra;
    Entry(kind, LogTimerIndex(e), LogTick(e))
  }

  /** It is what was logged, up to 14 bits of timer index and 48 of tick. */
  lemma DecodedReadsBack(kind: Kind, token: nat, tick: int)
    ensures Decoded(MakeLogIndex(Number(kind), token, tick)) == Entry(kind, token % TIMERS, tick % TICKS)
  {
    hide MakeLogIndex, LogType, LogTimerIndex, LogTick;
    MadeEntryReadsBack(Number(kind), token, tick);
  }

  /** Per timer: ticks, exclusive ticks and calls; per group: how many of its timers are open and the
      ticks of the outermost ones; per meta counter and timer: the counts. */
  datatype Totals = Totals(ticks: seq<int>, exclusive: seq<int>, counts: seq<int>,
                           groupPos: seq<nat>, groupTicks: seq<int>, meta: seq<seq<int>>)

  /** The open entries, and one child-tick accumulator more than there are open entries. */
  datatype Walker = Walker(stack: seq<Entry>, child: seq<int>, totals: Totals)

  predicate WellFormed(groups: seq<nat>, w: Walker) {
    && |w.child| == |w.stack| + 1 && |w.stack| < STACK_MAX
    && |w.totals.ticks| == |w.totals.exclusive| == |w.totals.counts| == |groups|
    && |w.totals.groupPos| == |w.totals.groupTicks|
    && (forall t :: 0 <= t < |groups| ==> groups[t] < |w.totals.groupPos|)
    && (forall m :: 0 <= m < |w.totals.meta| ==> |w.totals.meta[m]| == |groups|)
    && (forall i :: 0 <= i < |w.stack| ==> w.stack[i].timer < |groups|)
    && (forall g :: 0 <= g < |w.totals.groupPos| ==> w.totals.groupPos[g] < 256)
  }

  predicate KnownEntry(groups: seq<nat>, w: Walker, e: Entry) {
    match e.kind
    case Meta => e.timer < |w.totals.meta|
    case GpuExtra => true
    case _ => e.timer < |groups|
  }

  function TickDiff(start: nat, end: nat): int {
    LogTickDifference(start % TICKS, end % TICKS)
  }

  function AddAt(a: seq<int>, i: nat, d: int): seq<int>
    requires i < |a|
  {
    a[i := a[i] + d]
  }

  /** Lines 1711-1720: the group of a timer that was left. */
  function LeaveGroup(t: Totals, g: nat, ticks: int): Totals
    requires g < |t.groupPos| == |t.groupTicks|
  {
    var pos := t.groupPos[g];
    if pos == 0 then t
    else t.(groupPos := t.groupPos[g := pos - 1],
            groupTicks := if pos == 1 then AddAt(t.groupTicks, g, ticks) else t.groupTicks)
  }

  /** Lines 1667-1722 for one entry; None when the 33rd accumulator would be cleared. */
  function Step(groups: seq<nat>, w: Walker, e: Entry): (r: Option<Walker>)
    requires WellFormed(groups, w) && KnownEntry(groups, w, e)
    ensures r.Some? ==> WellFormed(groups, r.value)
  {
    var n, t := |w.stack|, w.totals;
    match e.kind
    case Enter =>
      if n + 1 >= STACK_MAX then None else
        var g := groups[e.timer];
        Some(Walker(w.stack + [e], w.child + [0], t.(groupPos := t.groupPos[g := (t.groupPos[g] + 1) % 256])))
    case Meta =>
      if n == 0 then Some(w) else
        Some(w.(totals := t.(meta := t.meta[e.timer := AddAt(t.meta[e.timer], w.stack[n - 1].timer, e.tick)])))
    case Leave =>
      if n == 0 then Some(w) else
        var ticks := TickDiff(w.stack[n - 1].tick, e.tick);
        var t' := t.(ticks := AddAt(t.ticks, e.timer, ticks),
                     exclusive := AddAt(t.exclusive, e.timer, ticks - w.child[n]),
                     counts := AddAt(t.counts, e.timer, 1));
        Some(Walker(w.stack[..n - 1], AddAt(w.child[..n], n - 1, ticks), LeaveGroup(t', groups[e.timer], ticks)))
    case GpuExtra => Some(w)
  }

  predicate KnownEntries(groups: seq<nat>, w: Walker, entries: seq<Entry>) {
    forall i :: 0 <= i < |entries| ==> KnownEntry(groups, w, entries[i])
  }

  lemma StepKeepsKnown(groups: seq<nat>, w: Walker, e: Entry, entries: seq<Entry>)
    requires WellFormed(groups, w) && KnownEntry(groups, w, e) && KnownEntries(groups, w, entries)
    ensures Step(groups, w, e).Some? ==> KnownEntries(groups, Step(groups, w, e).value, entries)
  {
  }

  function Walk(groups: seq<nat>, w: Walker, entries: seq<Entry>): (r: Option<Walker>)
    requires WellFormed(groups, w) && KnownEntries(groups, w, entries)
    ensures r.Some? ==> WellFormed(groups, r.value)
    decreases |entries|
  {
    if entries == [] then Some(w) else
      var w' := Step(groups, w, entries[0]);
      if w'.None? then None else
        StepKeepsKnown(groups, w, entries[0], entries[1..]);
        Walk(groups, w'.value, entries[1..])
  }

  // ---- conservation over any log -----------------------------------------------------------

  function Sum(a: seq<int>): int {
    if a == [] then 0 else a[0] + Sum(a[1..])
  }

  lemma {:induction false} SumAddAt(a: seq<int>, i: nat, d: int)
    requires i < |a|
    ensures Sum(AddAt(a, i, d)) == Sum(a) + d
  {
    if i > 0 {
      SumAddAt(a[1..], i - 1, d);
      assert AddAt(a, i, d)[1..] == AddAt(a[1..], i - 1, d);
    } else {
      assert AddAt(a, 0, d)[1..] == a[1..];
    }
  }

  lemma {:induction false} SumSnoc(a: seq<int>, x: int)
    ensures Sum(a + [x]) == Sum(a) + x
  {
    if a != [] {
      SumSnoc(a[1..], x);
      assert (a + [x])[1..] == a[1..] + [x];
    }
  }

  lemma StepConserves(groups: seq<nat>, w: Walker, e: Entry)
    requires WellFormed(groups, w) && KnownEntry(groups, w, e) && Step(groups, w, e).Some?
    ensures var w' := Step(groups, w, e).value;
            Sum(w'.totals.exclusive) - Sum(w'.child) == Sum(w.totals.exclusive) - Sum(w.child)
  {
    var n := |w.stack|;
    if e.kind == Enter {
      SumSnoc(w.child, 0);
    } else if e.kind == Leave && n > 0 {
      var ticks := TickDiff(w.stack[n - 1].tick, e.tick);
      SumAddAt(w.totals.exclusive, e.timer, ticks - w.child[n]);
      assert w.child == w.child[..n] + [w.child[n]];
      SumSnoc(w.child[..n], w.child[n]);
      SumAddAt(w.child[..n], n - 1, ticks);
    }
  }

  // ---- how deep a log goes -----------------------------------------------------------------

  function Depth(depth: nat, e: Entry): nat {
    match e.kind
    case Enter => depth + 1
    case Leave => if depth == 0 then 0 else depth - 1
    case _ => depth
  }

  /** Number of open scopes after the entries. */
  function DepthAfter(depth: nat, entries: seq<Entry>): nat
    decreases |entries|
  {
    if entries == [] then depth else DepthAfter(Depth(depth, entries[0]), entries[1..])
  }

  /** At no point of the log are 32 scopes open. */
  predicate NestingFits(depth: nat, entries: seq<Entry>) {
    forall k :: 0 <= k <= |entries| ==> DepthAfter(depth, entries[..k]) < STACK_MAX
  }

  lemma NestingStep(depth: nat, entries: seq<Entry>)
    requires entries != []
    ensures NestingFits(depth, entries) <==> depth < STACK_MAX && NestingFits(Depth(depth, entries[0]), entries[1..])
  {
    var rest, d := entries[1..], Depth(depth, entries[0]);
    forall k | 0 <= k <= |rest| ensures DepthAfter(d, rest[..k]) == DepthAfter(depth, entries[..k + 1]) {
      assert entries[..k + 1][1..] == rest[..k];
    }
    assert DepthAfter(depth, entries[..0]) == depth;
    if depth < STACK_MAX && NestingFits(d, rest) {
      forall k | 0 <= k <= |entries| ensures DepthAfter(depth, entries[..k]) < STACK_MAX {
        assert k > 0 ==> DepthAfter(depth, entries[..(k - 1) + 1]) == DepthAfter(d, rest[..k - 1]);
      }
    }
  }

  /** For any log, balanced or not: the walk stays inside its stacks exactly when there are never 32 scopes open. */
  lemma {:induction false} WalkFitsExactly(groups: seq<nat>, w: Walker, entries: seq<Entry>)
    requires WellFormed(groups, w) && KnownEntries(groups, w, entries)
    ensures Walk(groups, w, entries).Some? <==> NestingFits(|w.stack|, entries)
    decreases |entries|
  {
    if entries == [] {
      assert entries[..0] == [];
    } else {
      hide NestingFits;
      NestingStep(|w.stack|, entries);
      StepDepth(groups, w, entries[0]);
      hide Step;
      var w' := Step(groups, w, entries[0]);
      if w'.Some? {
        StepKeepsKnown(groups, w, entries[0], entries[1..]);
        WalkFitsExactly(groups, w'.value, entries[1..]);
      } else {
        TooDeep(Depth(|w.stack|, entries[0]), entries[1..]);
      }
    }
  }

  lemma StepDepth(groups: seq<nat>, w: Walker, e: Entry)
    requires WellFormed(groups, w) && KnownEntry(groups, w, e)
    ensures var w', d := Step(groups, w, e), Depth(|w.stack|, e);
            (w'.Some? <==> d < STACK_MAX) && (w'.Some? ==> |w'.value.stack| == d)
  {
  }

  lemma TooDeep(depth: nat, entries: seq<Entry>)
    requires depth >= STACK_MAX
    ensures !NestingFits(depth, entries)
  {
    assert DepthAfter(depth, entries[..0]) == depth;
  }

  /** Scopes that are opened and never closed, as many as there are stack places, do not fit. */
  lemma OpenScopesOverrun(entries: seq<Entry>)
    requires |entries| == STACK_MAX && forall e :: e in entries ==> e.kind == Enter
    ensures !NestingFits(0, entries)
  {
    OpenScopesDepth(0, entries);
    assert entries[..STACK_MAX] == entries;
  }

  lemma {:induction false} OpenScopesDepth(depth: nat, entries: seq<Entry>)
    requires forall e :: e in entries ==> e.kind == Enter
    ensures DepthAfter(depth, entries) == depth + |entries|
    decreases |entries|
  {
    if entries != [] {
      assert entries[0] in entries;
      OpenScopesDepth(depth + 1, entries[1..]);
    }
  }

  /** Over any log that fits, balanced or not: the exclusive ticks added are the growth of the live child-tick
      accumulators. */
  lemma {:induction false} WalkConserves(groups: seq<nat>, w: Walker, entries: seq<Entry>)
    requires WellFormed(groups, w) && KnownEntries(groups, w, entries) && NestingFits(|w.stack|, entries)
    ensures var r := Walk(groups, w, entries);
            && r.Some?
            && Sum(r.value.totals.exclusive) - Sum(w.totals.exclusive) == Sum(r.value.child) - Sum(w.child)
    decreases |entries|
  {
    hide NestingFits, Step;
    WalkFitsExactly(groups, w, entries);
    if entries != [] {
      NestingStep(|w.stack|, entries);
      StepConserves(groups, w, entries[0]);
      StepDepth(groups, w, entries[0]);
      StepKeepsKnown(groups, w, entries[0], entries[1..]);
      WalkConserves(groups, Step(groups, w, entries[0]).value, entries[1..]);
    }
  }

  // ---- which timer is charged --------------------------------------------------------------

  /** A scope as the walk sees it: the entry that opened it and the entry that closed it. */
  datatype Pair = Pair(enter: Entry, leave: Entry)

  /** The scopes closed in any log, balanced or not, with `open` scopes open before: an entry that leaves closes the
      latest one that is open, whatever its timer, and is ignored if there is none. */
  function Pairs(open: seq<Entry>, entries: seq<Entry>): seq<Pair>
    decreases |entries|
  {
    if entries == [] then [] else
      var e, rest := entries[0], entries[1..];
      if e.kind == Enter then Pairs(open + [e], rest)
      else if e.kind == Leave && open != [] then [Pair(open[|open| - 1], e)] + Pairs(open[..|open| - 1], rest)
      else Pairs(open, rest)
  }

  /** The ticks and the number of the scopes that were left under timer `t`. */
  function TicksOf(pairs: seq<Pair>, t: nat): int {
    if pairs == [] then 0 else
      (if pairs[0].leave.timer == t then TickDiff(pairs[0].enter.tick, pairs[0].leave.tick) else 0)
      + TicksOf(pairs[1..], t)
  }

  function CallsOf(pairs: seq<Pair>, t: nat): int {
    if pairs == [] then 0 else (if pairs[0].leave.timer == t then 1 else 0) + CallsOf(pairs[1..], t)
  }

  /** One entry charges the timer that is left, and no other. */
  lemma StepCharges(groups: seq<nat>, w: Walker, e: Entry, t: nat)
    requires WellFormed(groups, w) && KnownEntry(groups, w, e) && Step(groups, w, e).Some? && t < |groups|
    ensures var w' := Step(groups, w, e).value;
            var closes := e.kind == Leave && w.stack != [];
            && w'.stack == (if e.kind == Enter then w.stack + [e]
                            else if closes then w.stack[..|w.stack| - 1] else w.stack)
            && (!closes || t != e.timer ==>
                  && w'.totals.ticks[t] == w.totals.ticks[t] && w'.totals.counts[t] == w.totals.counts[t]
                  && w'.totals.exclusive[t] == w.totals.exclusive[t])
            && (closes && t == e.timer ==>
                  && w'.totals.ticks[t] == w.totals.ticks[t] + TickDiff(w.stack[|w.stack| - 1].tick, e.tick)
                  && w'.totals.counts[t] == w.totals.counts[t] + 1)
  {
    hide TickDiff;
  }

  /** Over any log that fits, balanced or not, every timer gets the ticks and the calls of the scopes that were left
      under it. */
  lemma {:induction false} WalkCharges(groups: seq<nat>, w: Walker, entries: seq<Entry>, t: nat)
    requires WellFormed(groups, w) && KnownEntries(groups, w, entries) && Walk(groups, w, entries).Some? && t < |groups|
    ensures var w' := Walk(groups, w, entries).value;
            && w'.totals.ticks[t] == w.totals.ticks[t] + TicksOf(Pairs(w.stack, entries), t)
            && w'.totals.counts[t] == w.totals.counts[t] + CallsOf(Pairs(w.stack, entries), t)
    decreases |entries|
  {
    if entries != [] {
      hide Step, WellFormed, TickDiff;
      var e, rest := entries[0], entries[1..];
      Lengths(groups, w);
      StepKeepsKnown(groups, w, e, rest);
      StepCharges(groups, w, e, t);
      var w1 := Step(groups, w, e).value;
      WalkCharges(groups, w1, rest, t);
      Lengths(groups, Walk(groups, w1, rest).value);
      if e.kind == Leave && w.stack != [] {
        var first := [Pair(w.stack[|w.stack| - 1], e)];
        assert (first + Pairs(w1.stack, rest))[1..] == Pairs(w1.stack, rest);
      }
    }
  }

  // ---- what the walk means on nested scopes ------------------------------------------------

  /** The part of a time that a log entry keeps. */
  function Stamp(time: nat): nat {
    time % TICKS
  }

  /** The number from -2^47 up to 2^47 that differs from the duration by a multiple of 2^48. */
  function Measured(start: nat, end: nat): int {
    (end - start + HALF_TICKS) % TICKS - HALF_TICKS
  }

  /** What the walk computes from two entries is the duration between them as far as 48 bits can tell. */
  lemma StampedDifference(start: nat, end: nat)
    ensures TickDiff(Stamp(start), Stamp(end)) == Measured(start, end)
  {
    hide LogTickDifference, Stamp;
    StampIsRest(start);
    StampIsRest(end);
    DifferenceIsSigned(Stamp(start), Stamp(end));
    var d := LogTickDifference(Stamp(start), Stamp(end));
    var k := (d - (Stamp(end) - Stamp(start))) / TICKS;
    OneRepresentative(end - start, d, k - end / TICKS + start / TICKS);
  }

  lemma StampIsRest(time: nat)
    ensures time == TICKS * (time / TICKS) + Stamp(time) && LogTick(Stamp(time)) == Stamp(time) < TICKS
  {
  }

  lemma OneRepresentative(x: int, d: int, k: int)
    requires -HALF_TICKS <= d < HALF_TICKS && d - x == TICKS * k
    ensures (x + HALF_TICKS) % TICKS - HALF_TICKS == d
  {
    assert x + HALF_TICKS == TICKS * (-k) + (d + HALF_TICKS);
  }

  /** It is the duration exactly when that lies from -2^47 up to 2^47. */
  lemma MeasuredExactly(start: nat, end: nat)
    ensures Measured(start, end) == end - start <==> -HALF_TICKS <= end - start < HALF_TICKS
    ensures start <= end ==> Measured(start, end) <= end - start
  {
  }

  lemma TickIsStable(e: nat)
    ensures LogTick(e) < TICKS && LogTick(e) % TICKS == LogTick(e) == LogTick(LogTick(e))
  {
  }

  /** The same difference comes out of whole entries. */
  lemma EntriesDiffer(start: nat, end: nat)
    requires start < WRAP && end < WRAP
    ensures LogTickDifference(start, end) == TickDiff(LogTick(start), LogTick(end))
  {
    hide LogTickDifference, LogTick;
    TickIsStable(start);
    TickIsStable(end);
    DifferenceIsSigned(start, end);
    DifferenceIsSigned(LogTick(start), LogTick(end));
    var d, d' := LogTickDifference(start, end), LogTickDifference(LogTick(start), LogTick(end));
    var x := LogTick(end) - LogTick(start);
    OneRepresentative(x, d, (d - x) / TICKS);
    OneRepresentative(x, d', (d' - x) / TICKS);
  }

  /** Nested scopes with the times at which they were entered and left: the first one, what runs inside it, and what
      runs after it; or an entry that neither opens nor closes a scope, and what follows. */
  datatype Scopes =
    | Done
    | Scope(timer: nat, start: nat, end: nat, inner: Scopes, next: Scopes)
    | Other(entry: Entry, next: Scopes)

  /** Without what follows. */
  function First(f: Scopes): Scopes {
    match f
    case Done => Done
    case Scope(timer, start, end, inner, _) => Scope(timer, start, end, inner, Done)
    case Other(entry, _) => Other(entry, Done)
  }

  /** The log the scopes leave. */
  function LogOf(f: Scopes): seq<Entry> {
    match f
    case Done => []
    case Scope(timer, start, end, inner, next) =>
      [Entry(Enter, timer, Stamp(start))] + LogOf(inner) + [Entry(Leave, timer, Stamp(end))] + LogOf(next)
    case Other(entry, next) => [entry] + LogOf(next)
  }

  function Height(f: Scopes): nat {
    match f
    case Done => 0
    case Scope(_, _, _, inner, next) => if 1 + Height(inner) > Height(next) then 1 + Height(inner) else Height(next)
    case Other(_, next) => Height(next)
  }

  predicate KnownTimers(groups: seq<nat>, f: Scopes) {
    match f
    case Done => true
    case Scope(timer, _, _, inner, next) => timer < |groups| && KnownTimers(groups, inner) && KnownTimers(groups, next)
    case Other(entry, next) => (entry.kind == Meta || entry.kind == GpuExtra) && KnownTimers(groups, next)
  }

  predicate KnownMetas(metas: nat, f: Scopes) {
    match f
    case Done => true
    case Scope(_, _, _, inner, next) => KnownMetas(metas, inner) && KnownMetas(metas, next)
    case Other(entry, next) => (entry.kind == Meta ==> entry.timer < metas) && KnownMetas(metas, next)
  }

  /** Duration of the outermost scopes. */
  function Outermost(f: Scopes): int {
    match f
    case Done => 0
    case Scope(_, start, end, _, next) => Measured(start, end) + Outermost(next)
    case Other(_, next) => Outermost(next)
  }

  function Inclusive(f: Scopes, t: nat): int {
    match f
    case Done => 0
    case Scope(timer, start, end, inner, next) =>
      (if timer == t then Measured(start, end) else 0) + Inclusive(inner, t) + Inclusive(next, t)
    case Other(_, next) => Inclusive(next, t)
  }

  /** Durations without what runs directly inside. */
  function Exclusive(f: Scopes, t: nat): int {
    match f
    case Done => 0
    case Scope(timer, start, end, inner, next) =>
      (if timer == t then Measured(start, end) - Outermost(inner) else 0) + Exclusive(inner, t) + Exclusive(next, t)
    case Other(_, next) => Exclusive(next, t)
  }

  function Calls(f: Scopes, t: nat): int {
    match f
    case Done => 0
    case Scope(timer, _, _, inner, next) => (if timer == t then 1 else 0) + Calls(inner, t) + Calls(next, t)
    case Other(_, next) => Calls(next, t)
  }

  /** Durations of the scopes of group `g` that are not inside another scope of the group. */
  function GroupOutermost(groups: seq<nat>, f: Scopes, g: nat, inside: bool): int
    requires KnownTimers(groups, f)
  {
    match f
    case Done => 0
    case Scope(timer, start, end, inner, next) =>
      (if groups[timer] == g && !inside then Measured(start, end) else 0)
      + GroupOutermost(groups, inner, g, inside || groups[timer] == g) + GroupOutermost(groups, next, g, inside)
    case Other(_, next) => GroupOutermost(groups, next, g, inside)
  }

  /** Deepest nesting of scopes of group `g`. */
  function GroupHeight(groups: seq<nat>, f: Scopes, g: nat): (h: nat)
    requires KnownTimers(groups, f)
    ensures h <= Height(f)
  {
    match f
    case Done => 0
    case Scope(timer, _, _, inner, next) =>
      var own := (if groups[timer] == g then 1 else 0) + GroupHeight(groups, inner, g);
      if own > GroupHeight(groups, next, g) then own else GroupHeight(groups, next, g)
    case Other(_, next) => GroupHeight(groups, next, g)
  }

  /** Counts of meta counter `m` noted directly inside scopes of timer `t`; `open` is the scope around. */
  function Metas(f: Scopes, open: Option<nat>, m: nat, t: nat): int {
    match f
    case Done => 0
    case Scope(timer, _, _, inner, next) => Metas(inner, Some(timer), m, t) + Metas(next, open, m, t)
    case Other(entry, next) =>
      (if entry.kind == Meta && entry.timer == m && open == Some(t) then entry.tick else 0) + Metas(next, open, m, t)
  }

  function OpenTimer(w: Walker): Option<nat> {
    if w.stack == [] then None else Some(w.stack[|w.stack| - 1].timer)
  }

  /** The meta counters have grown by what the scopes note. */
  ghost predicate MetasAccounted(f: Scopes, open: Option<nat>, before: seq<seq<int>>, after: seq<seq<int>>) {
    && |after| == |before| && (forall m :: 0 <= m < |before| ==> |after[m]| == |before[m]|)
    && forall m, t {:trigger Metas(f, open, m, t)} {:trigger after[m][t]} ::
         0 <= m < |before| && 0 <= t < |before[m]| ==> after[m][t] == before[m][t] + Metas(f, open, m, t)
  }

  /** So have ticks, exclusive ticks and calls of every timer. */
  ghost predicate TimersAccounted(f: Scopes, before: Totals, after: Totals) {
    && |after.ticks| == |before.ticks| && |after.exclusive| == |before.exclusive| && |after.counts| == |before.counts|
    && (forall t :: 0 <= t < |before.ticks| ==> after.ticks[t] == before.ticks[t] + Inclusive(f, t))
    && (forall t :: 0 <= t < |before.exclusive| ==> after.exclusive[t] == before.exclusive[t] + Exclusive(f, t))
    && (forall t :: 0 <= t < |before.counts| ==> after.counts[t] == before.counts[t] + Calls(f, t))
  }

  /** Where a group's counter of open scopes, which is a byte, ends: at its old value if it has room for the nesting of
      the group, and at zero if it wraps on the way. */
  function CounterAfter(pos: nat, height: nat): nat {
    if pos + height < 256 then pos else 0
  }

  /** A group's counter, and, if the counter has room, the group's ticks. */
  ghost predicate GroupAccounted(groups: seq<nat>, f: Scopes, g: nat, pos: nat, pos': nat, before: int, after: int)
    requires KnownTimers(groups, f)
  {
    && pos' == CounterAfter(pos, GroupHeight(groups, f, g))
    && (pos + GroupHeight(groups, f, g) < 256 ==> after == before + GroupOutermost(groups, f, g, pos > 0))
  }

  ghost predicate GroupsAccounted(
      groups: seq<nat>, f: Scopes, pos: seq<nat>, pos': seq<nat>, before: seq<int>, after: seq<int>)
    requires KnownTimers(groups, f)
  {
    && |pos| == |pos'| == |before| == |after|
    && forall g :: 0 <= g < |pos| ==> GroupAccounted(groups, f, g, pos[g], pos'[g], before[g], after[g])
  }

  /** Walking the log of `f` from `w` leads to `w'`: the stack is as before, the top accumulator has grown
      by the outermost durations, and every total by what the scopes mean. */
  ghost predicate Accounted(groups: seq<nat>, f: Scopes, w: Walker, w': Walker)
    requires WellFormed(groups, w) && WellFormed(groups, w') && KnownTimers(groups, f)
  {
    && w'.stack == w.stack
    && w'.child == AddAt(w.child, |w.stack|, Outermost(f))
    && MetasAccounted(f, OpenTimer(w), w.totals.meta, w'.totals.meta)
    && TimersAccounted(f, w.totals, w'.totals)
    && GroupsAccounted(groups, f, w.totals.groupPos, w'.totals.groupPos, w.totals.groupTicks, w'.totals.groupTicks)
  }

  lemma {:induction false} KnownLog(groups: seq<nat>, w: Walker, f: Scopes)
    requires KnownTimers(groups, f) && KnownMetas(|w.totals.meta|, f)
    ensures KnownEntries(groups, w, LogOf(f))
  {
    match f
    case Done =>
    case Scope(_, _, _, inner, next) =>
      KnownLog(groups, w, inner);
      KnownLog(groups, w, next);
    case Other(_, next) => KnownLog(groups, w, next);
  }

  lemma {:induction false} WalkAppend(groups: seq<nat>, w: Walker, a: seq<Entry>, b: seq<Entry>)
    requires WellFormed(groups, w) && KnownEntries(groups, w, a) && KnownEntries(groups, w, b)
    ensures KnownEntries(groups, w, a + b)
    ensures Walk(groups, w, a).Some? ==> KnownEntries(groups, Walk(groups, w, a).value, b)
    ensures Walk(groups, w, a + b)
            == if Walk(groups, w, a).None? then None else Walk(groups, Walk(groups, w, a).value, b)
    decreases |a|
  {
    if a == [] {
      assert a + b == b;
    } else {
      hide Step;
      assert (a + b)[0] == a[0] && (a + b)[1..] == a[1..] + b;
      var w' := Step(groups, w, a[0]);
      if w'.Some? {
        StepKeepsKnown(groups, w, a[0], a[1..]);
        StepKeepsKnown(groups, w, a[0], b);
        WalkAppend(groups, w'.value, a[1..], b);
      }
    }
  }

  lemma WalkOne(groups: seq<nat>, w: Walker, e: Entry)
    requires WellFormed(groups, w) && KnownEntry(groups, w, e)
    ensures KnownEntries(groups, w, [e]) && Walk(groups, w, [e]) == Step(groups, w, e)
  {
  }

  /** Entering a scope: the counter of its group, a byte, may wrap. */
  lemma EnterStep(groups: seq<nat>, w: Walker, timer: nat, start: nat)
    requires WellFormed(groups, w) && timer < |groups| && |w.stack| + 1 < STACK_MAX
    ensures var g := groups[timer];
            Step(groups, w, Entry(Enter, timer, Stamp(start)))
            == Some(Walker(w.stack + [Entry(Enter, timer, Stamp(start))], w.child + [0],
                           w.totals.(groupPos := w.totals.groupPos[g := (w.totals.groupPos[g] + 1) % 256])))
  {
  }

  /** Leaving it again, after what ran inside has been accounted for: the state that results. */
  lemma LeaveShape(groups: seq<nat>, w: Walker, w1: Walker, w2: Walker, timer: nat, start: nat, end: nat, inner: Scopes)
    requires WellFormed(groups, w) && timer < |groups| && |w.stack| + 1 < STACK_MAX
    requires Step(groups, w, Entry(Enter, timer, Stamp(start))) == Some(w1)
    requires WellFormed(groups, w2) && KnownTimers(groups, inner) && Accounted(groups, inner, w1, w2)
    ensures var ticks := Measured(start, end);
            var t := w2.totals.(ticks := AddAt(w2.totals.ticks, timer, ticks),
                                exclusive := AddAt(w2.totals.exclusive, timer, ticks - Outermost(inner)),
                                counts := AddAt(w2.totals.counts, timer, 1));
            Step(groups, w2, Entry(Leave, timer, Stamp(end)))
            == Some(Walker(w.stack, AddAt(w.child, |w.stack|, ticks), LeaveGroup(t, groups[timer], ticks)))
  {
    hide Measured, TickDiff, LeaveGroup, Accounted, Outermost, Step, AddAt;
    EnterStep(groups, w, timer, start);
    AccountedFrame(groups, inner, w1, w2);
    TopAccumulator(w.child, Outermost(inner));
    StampedDifference(start, end);
    LeaveTop(groups, w2, w.stack, Entry(Enter, timer, Stamp(start)), w.child, Outermost(inner),
             Entry(Leave, timer, Stamp(end)));
  }

  lemma TopAccumulator(child: seq<int>, d: int)
    ensures AddAt(child + [0], |child|, d) == child + [d]
  {
  }

  lemma LeaveTop(groups: seq<nat>, w: Walker, stack: seq<Entry>, open: Entry, child: seq<int>, top: int, e: Entry)
    requires WellFormed(groups, w) && e.kind == Leave && e.timer < |groups|
    requires w.stack == stack + [open] && w.child == child + [top]
    ensures var ticks := TickDiff(open.tick, e.tick);
            var t := w.totals.(ticks := AddAt(w.totals.ticks, e.timer, ticks),
                               exclusive := AddAt(w.totals.exclusive, e.timer, ticks - top),
                               counts := AddAt(w.totals.counts, e.timer, 1));
            Step(groups, w, e)
            == Some(Walker(stack, AddAt(child, |stack|, ticks), LeaveGroup(t, groups[e.timer], ticks)))
  {
  }

  /** The measures of a single scope. */
  lemma OneScope(groups: seq<nat>, f: Scopes)
    requires f.Scope? && f.next.Done? && KnownTimers(groups, f)
    ensures Outermost(f) == Measured(f.start, f.end)
    ensures forall t: nat :: Inclusive(f, t)
              == (if t == f.timer then Measured(f.start, f.end) else 0) + Inclusive(f.inner, t)
    ensures forall t: nat :: Exclusive(f, t)
              == (if t == f.timer then Measured(f.start, f.end) - Outermost(f.inner) else 0) + Exclusive(f.inner, t)
    ensures forall t: nat :: Calls(f, t) == (if t == f.timer then 1 else 0) + Calls(f.inner, t)
  {
  }

  lemma OneOutermost(f: Scopes)
    requires f.Scope? && f.next.Done?
    ensures Outermost(f) == Measured(f.start, f.end)
  {
  }

  lemma LeaveStep(groups: seq<nat>, w: Walker, w1: Walker, w2: Walker, timer: nat, start: nat, end: nat, inner: Scopes)
    requires WellFormed(groups, w) && timer < |groups| && |w.stack| + 1 < STACK_MAX
    requires Step(groups, w, Entry(Enter, timer, Stamp(start))) == Some(w1)
    requires WellFormed(groups, w2) && KnownTimers(groups, inner) && Accounted(groups, inner, w1, w2)
    requires Height(inner) < STACK_MAX
    ensures var r := Step(groups, w2, Entry(Leave, timer, Stamp(end)));
            && r.Some?
            && Accounted(groups, Scope(timer, start, end, inner, Done), w, r.value)
  {
    hide Measured, TickDiff, LeaveGroup, Step, TimersAccounted, GroupsAccounted, MetasAccounted, Outermost, WellFormed;
    EnterStep(groups, w, timer, start);
    LeaveShape(groups, w, w1, w2, timer, start, end, inner);
    Lengths(groups, w);
    Lengths(groups, w2);
    var f := Scope(timer, start, end, inner, Done);
    OneOutermost(f);
    TotalsAfterLeave(groups, f, w.totals, w1.totals, w2.totals);
    assert OpenTimer(w1) == Some(timer);
    MetasAfterLeave(f, OpenTimer(w), w.totals.meta, w2.totals.meta);
    LeaveKeepsMeta(groups, f, w2.totals);
  }

  lemma Lengths(groups: seq<nat>, w: Walker)
    requires WellFormed(groups, w)
    ensures |w.child| == |w.stack| + 1 && |w.totals.ticks| == |w.totals.exclusive| == |w.totals.counts| == |groups|
    ensures |w.totals.groupPos| == |w.totals.groupTicks|
    ensures forall t :: 0 <= t < |groups| ==> groups[t] < |w.totals.groupPos|
    ensures forall g :: 0 <= g < |w.totals.groupPos| ==> w.totals.groupPos[g] < 256
  {
  }

  /** The totals of lines 1705-1720 when the scope `f`, which stands alone, is left. */
  function Left(groups: seq<nat>, f: Scopes, t: Totals): Totals
    requires f.Scope? && f.timer < |groups| && |t.ticks| == |t.exclusive| == |t.counts| == |groups|
    requires groups[f.timer] < |t.groupPos| == |t.groupTicks|
  {
    var ticks := Measured(f.start, f.end);
    LeaveGroup(t.(ticks := AddAt(t.ticks, f.timer, ticks),
                  exclusive := AddAt(t.exclusive, f.timer, ticks - Outermost(f.inner)),
                  counts := AddAt(t.counts, f.timer, 1)), groups[f.timer], ticks)
  }

  lemma LeaveKeepsMeta(groups: seq<nat>, f: Scopes, t: Totals)
    requires f.Scope? && f.timer < |groups| && |t.ticks| == |t.exclusive| == |t.counts| == |groups|
    requires groups[f.timer] < |t.groupPos| == |t.groupTicks|
    ensures Left(groups, f, t).meta == t.meta
  {
  }

  lemma TotalsAfterLeave(groups: seq<nat>, f: Scopes, t0: Totals, t1: Totals, t2: Totals)
    requires f.Scope? && f.next.Done? && KnownTimers(groups, f) && Height(f.inner) < 255
    requires |t2.ticks| == |t2.exclusive| == |t2.counts| == |groups|
    requires groups[f.timer] < |t0.groupPos| && groups[f.timer] < |t2.groupPos| == |t2.groupTicks|
    requires forall g :: 0 <= g < |t0.groupPos| ==> t0.groupPos[g] < 256
    requires t1 == t0.(groupPos := t0.groupPos[groups[f.timer] := (t0.groupPos[groups[f.timer]] + 1) % 256])
    requires TimersAccounted(f.inner, t1, t2)
    requires GroupsAccounted(groups, f.inner, t1.groupPos, t2.groupPos, t1.groupTicks, t2.groupTicks)
    ensures var t3 := Left(groups, f, t2);
            && TimersAccounted(f, t0, t3)
            && GroupsAccounted(groups, f, t0.groupPos, t3.groupPos, t0.groupTicks, t3.groupTicks)
  {
    hide Measured, TickDiff, LeaveGroup, TimersAccounted, GroupsAccounted, Outermost;
    var g, ticks := groups[f.timer], Measured(f.start, f.end);
    var t := t2.(ticks := AddAt(t2.ticks, f.timer, ticks),
                 exclusive := AddAt(t2.exclusive, f.timer, ticks - Outermost(f.inner)),
                 counts := AddAt(t2.counts, f.timer, 1));
    LeaveGroupKeeps(t, g, ticks);
    TimersAfterLeave(groups, f, t0, t1, t2, t, LeaveGroup(t, g, ticks));
    GroupsAfterLeave(groups, f, t0, t1, t);
  }

  lemma TimersAfterLeave(groups: seq<nat>, f: Scopes, t0: Totals, t1: Totals, t2: Totals, t3: Totals, t4: Totals)
    requires f.Scope? && f.next.Done? && KnownTimers(groups, f)
    requires |t2.ticks| == |t2.exclusive| == |t2.counts| == |groups|
    requires t1.ticks == t0.ticks && t1.exclusive == t0.exclusive && t1.counts == t0.counts
    requires TimersAccounted(f.inner, t1, t2)
    requires var ticks := Measured(f.start, f.end);
             t3 == t2.(ticks := AddAt(t2.ticks, f.timer, ticks),
                       exclusive := AddAt(t2.exclusive, f.timer, ticks - Outermost(f.inner)),
                       counts := AddAt(t2.counts, f.timer, 1))
    requires t4.ticks == t3.ticks && t4.exclusive == t3.exclusive && t4.counts == t3.counts
    ensures TimersAccounted(f, t0, t4)
  {
    hide Measured, TickDiff, Outermost, Inclusive, Exclusive, Calls;
    OneScope(groups, f);
  }

  lemma LeaveGroupKeeps(t: Totals, g: nat, ticks: int)
    requires g < |t.groupPos| == |t.groupTicks|
    ensures var t' := LeaveGroup(t, g, ticks);
            t'.ticks == t.ticks && t'.exclusive == t.exclusive && t'.counts == t.counts && t'.meta == t.meta
  {
  }

  /** The group totals around one scope: its own ticks if it is the outermost of its group. */
  lemma GroupsAfterLeave(groups: seq<nat>, f: Scopes, t: Totals, t1: Totals, t2: Totals)
    requires f.Scope? && f.next.Done? && KnownTimers(groups, f) && Height(f.inner) < 255
    requires groups[f.timer] < |t.groupPos| && |t1.groupPos| == |t.groupPos| && t1.groupTicks == t.groupTicks
    requires forall g :: 0 <= g < |t.groupPos| ==> t.groupPos[g] < 256
    requires t1.groupPos == t.groupPos[groups[f.timer] := (t.groupPos[groups[f.timer]] + 1) % 256]
    requires GroupsAccounted(groups, f.inner, t1.groupPos, t2.groupPos, t1.groupTicks, t2.groupTicks)
    ensures var t3 := LeaveGroup(t2, groups[f.timer], Measured(f.start, f.end));
            GroupsAccounted(groups, f, t.groupPos, t3.groupPos, t.groupTicks, t3.groupTicks)
  {
    hide Measured, TickDiff, GroupOutermost, GroupHeight, GroupAccounted;
    var own := groups[f.timer];
    var t3 := LeaveGroup(t2, own, Measured(f.start, f.end));
    forall g | 0 <= g < |t.groupPos|
      ensures GroupAccounted(groups, f, g, t.groupPos[g], t3.groupPos[g], t.groupTicks[g], t3.groupTicks[g])
    {
      if g == own {
        OwnGroupAfterLeave(groups, f, t.groupPos[g], t2.groupPos[g], t.groupTicks[g], t2.groupTicks[g]);
      } else {
        OtherGroupAfterLeave(groups, f, g, t.groupPos[g], t2.groupPos[g], t.groupTicks[g], t2.groupTicks[g]);
      }
    }
  }

  lemma OwnGroupAfterLeave(groups: seq<nat>, f: Scopes, pos: nat, pos2: nat, before: int, inner: int)
    requires f.Scope? && f.next.Done? && KnownTimers(groups, f) && Height(f.inner) < 255 && pos < 256
    requires GroupAccounted(groups, f.inner, groups[f.timer], (pos + 1) % 256, pos2, before, inner)
    ensures GroupAccounted(groups, f, groups[f.timer], pos, if pos2 == 0 then 0 else pos2 - 1, before,
                           if pos2 == 1 then inner + Measured(f.start, f.end) else inner)
  {
    hide Measured, TickDiff, GroupHeight, GroupOutermost;
    OneScopeOfGroup(groups, f, groups[f.timer], pos > 0);
  }

  lemma OtherGroupAfterLeave(groups: seq<nat>, f: Scopes, g: nat, pos: nat, pos2: nat, before: int, inner: int)
    requires f.Scope? && f.next.Done? && KnownTimers(groups, f) && g != groups[f.timer]
    requires GroupAccounted(groups, f.inner, g, pos, pos2, before, inner)
    ensures GroupAccounted(groups, f, g, pos, pos2, before, inner)
  {
    hide Measured, TickDiff, GroupHeight, GroupOutermost;
    OneScopeOfGroup(groups, f, g, pos > 0);
  }

  lemma OneScopeOfGroup(groups: seq<nat>, f: Scopes, g: nat, inside: bool)
    requires f.Scope? && f.next.Done? && KnownTimers(groups, f)
    ensures GroupHeight(groups, f, g) == (if groups[f.timer] == g then 1 else 0) + GroupHeight(groups, f.inner, g)
    ensures GroupOutermost(groups, f, g, inside)
            == (if groups[f.timer] == g && !inside then Measured(f.start, f.end) else 0)
               + GroupOutermost(groups, f.inner, g, inside || groups[f.timer] == g)
  {
    assert GroupHeight(groups, f.next, g) == 0 && GroupOutermost(groups, f.next, g, inside) == 0;
  }

  lemma SplitOfGroup(groups: seq<nat>, f: Scopes, g: nat, inside: bool)
    requires !f.Done? && KnownTimers(groups, f)
    ensures KnownTimers(groups, First(f))
    ensures var first, next := GroupHeight(groups, First(f), g), GroupHeight(groups, f.next, g);
            GroupHeight(groups, f, g) == if first > next then first else next
    ensures GroupOutermost(groups, f, g, inside)
            == GroupOutermost(groups, First(f), g, inside) + GroupOutermost(groups, f.next, g, inside)
  {
    assert GroupHeight(groups, Done, g) == 0 && GroupOutermost(groups, Done, g, inside) == 0;
    if f.Scope? {
      OneScopeOfGroup(groups, First(f), g, inside);
    }
  }

  /** One thing after the other: a counter that wrapped stays at zero. */
  lemma GroupsNext(groups: seq<nat>, f: Scopes, t: Totals, t1: Totals, t2: Totals)
    requires !f.Done? && KnownTimers(groups, f) && Height(f.next) < 256
    requires GroupsAccounted(groups, First(f), t.groupPos, t1.groupPos, t.groupTicks, t1.groupTicks)
    requires GroupsAccounted(groups, f.next, t1.groupPos, t2.groupPos, t1.groupTicks, t2.groupTicks)
    ensures GroupsAccounted(groups, f, t.groupPos, t2.groupPos, t.groupTicks, t2.groupTicks)
  {
    forall g | 0 <= g < |t.groupPos|
      ensures GroupAccounted(groups, f, g, t.groupPos[g], t2.groupPos[g], t.groupTicks[g], t2.groupTicks[g])
    {
      GroupNext(groups, f, g, t.groupPos[g], t1.groupPos[g], t2.groupPos[g],
                t.groupTicks[g], t1.groupTicks[g], t2.groupTicks[g]);
    }
  }

  lemma GroupNext(groups: seq<nat>, f: Scopes, g: nat, pos: nat, pos1: nat, pos2: nat, t: int, t1: int, t2: int)
    requires !f.Done? && KnownTimers(groups, f) && Height(f.next) < 256
    requires GroupAccounted(groups, First(f), g, pos, pos1, t, t1)
    requires GroupAccounted(groups, f.next, g, pos1, pos2, t1, t2)
    ensures GroupAccounted(groups, f, g, pos, pos2, t, t2)
  {
    hide GroupHeight, GroupOutermost;
    SplitOfGroup(groups, f, g, pos > 0);
  }

  lemma MetasAfterLeave(f: Scopes, open: Option<nat>, before: seq<seq<int>>, after: seq<seq<int>>)
    requires f.Scope? && f.next.Done? && MetasAccounted(f.inner, Some(f.timer), before, after)
    ensures MetasAccounted(f, open, before, after)
  {
    forall m, t | 0 <= m < |before| && 0 <= t < |before[m]| ensures after[m][t] == before[m][t] + Metas(f, open, m, t) {
      assert Metas(f, open, m, t) == Metas(f.inner, Some(f.timer), m, t);
    }
  }

  /** Every measure of scopes in a row is the measure of the first plus the measure of the rest. */
  lemma Additive(groups: seq<nat>, f: Scopes)
    requires f.Scope? && KnownTimers(groups, f)
    ensures Outermost(f) == Outermost(First(f)) + Outermost(f.next)
    ensures forall t: nat :: Inclusive(f, t) == Inclusive(First(f), t) + Inclusive(f.next, t)
    ensures forall t: nat :: Exclusive(f, t) == Exclusive(First(f), t) + Exclusive(f.next, t)
    ensures forall t: nat :: Calls(f, t) == Calls(First(f), t) + Calls(f.next, t)
  {
  }

  /** An entry that neither opens nor closes a scope changes one meta counter at most. */
  lemma OtherStep(groups: seq<nat>, w: Walker, f: Scopes)
    requires WellFormed(groups, w) && f.Other? && KnownTimers(groups, f) && KnownMetas(|w.totals.meta|, f)
    ensures KnownEntry(groups, w, f.entry)
    ensures var r := Step(groups, w, f.entry);
            && r.Some? && r.value == w.(totals := w.totals.(meta := r.value.totals.meta))
            && MetasAccounted(First(f), OpenTimer(w), w.totals.meta, r.value.totals.meta)
  {
  }

  lemma AccountedOther(groups: seq<nat>, f: Scopes, w: Walker, w1: Walker, w2: Walker)
    requires f.Other? && KnownTimers(groups, f)
    requires WellFormed(groups, w) && WellFormed(groups, w1) && WellFormed(groups, w2)
    requires w1 == w.(totals := w.totals.(meta := w1.totals.meta))
    requires MetasAccounted(First(f), OpenTimer(w), w.totals.meta, w1.totals.meta)
    requires Accounted(groups, f.next, w1, w2)
    ensures Accounted(groups, f, w, w2)
  {
    hide GroupAccounted;
    OtherGroups(groups, f, w.totals, w2.totals);
    MetasNext(f, OpenTimer(w), w.totals.meta, w1.totals.meta, w2.totals.meta);
    hide MetasAccounted;
  }

  lemma OtherGroups(groups: seq<nat>, f: Scopes, t: Totals, t': Totals)
    requires f.Other? && KnownTimers(groups, f)
    ensures GroupsAccounted(groups, f.next, t.groupPos, t'.groupPos, t.groupTicks, t'.groupTicks)
            ==> GroupsAccounted(groups, f, t.groupPos, t'.groupPos, t.groupTicks, t'.groupTicks)
  {
  }

  lemma MetasSplit(f: Scopes, open: Option<nat>, m: nat, t: nat)
    requires !f.Done?
    ensures Metas(f, open, m, t) == Metas(First(f), open, m, t) + Metas(f.next, open, m, t)
  {
  }

  lemma MetasNext(f: Scopes, open: Option<nat>, before: seq<seq<int>>, middle: seq<seq<int>>, after: seq<seq<int>>)
    requires !f.Done? && MetasAccounted(First(f), open, before, middle) && MetasAccounted(f.next, open, middle, after)
    ensures MetasAccounted(f, open, before, after)
  {
    forall m, t | 0 <= m < |before| && 0 <= t < |before[m]|
      ensures after[m][t] == before[m][t] + Metas(f, open, m, t)
    {
      MetasSplit(f, open, m, t);
      assert |middle[m]| == |before[m]|;
      assert middle[m][t] == before[m][t] + Metas(First(f), open, m, t);
      assert after[m][t] == middle[m][t] + Metas(f.next, open, m, t);
    }
  }

  lemma AccountedNext(groups: seq<nat>, f: Scopes, w: Walker, w3: Walker, w4: Walker)
    requires f.Scope? && KnownTimers(groups, f)
    requires WellFormed(groups, w) && WellFormed(groups, w3) && WellFormed(groups, w4)
    requires Accounted(groups, First(f), w, w3) && Accounted(groups, f.next, w3, w4) && Height(f.next) < STACK_MAX
    ensures Accounted(groups, f, w, w4)
  {
    hide Outermost, Inclusive, Exclusive, Calls, GroupsAccounted, MetasAccounted;
    Additive(groups, f);
    GroupsNext(groups, f, w.totals, w3.totals, w4.totals);
    MetasNext(f, OpenTimer(w), w.totals.meta, w3.totals.meta, w4.totals.meta);
  }

  /** Walking the log of nested scopes computes what they mean: the inclusive ticks of each timer, the exclusive
      ticks, the calls, the meta counts, and for each group whose counter has room the ticks of its outermost scopes. */
  lemma {:induction false} WalkAccounts(groups: seq<nat>, w: Walker, f: Scopes)
    requires WellFormed(groups, w) && KnownTimers(groups, f) && KnownMetas(|w.totals.meta|, f)
    requires |w.stack| + Height(f) < STACK_MAX
    ensures KnownEntries(groups, w, LogOf(f))
    ensures Walk(groups, w, LogOf(f)).Some? && Accounted(groups, f, w, Walk(groups, w, LogOf(f)).value)
    decreases f
  {
    hide Step, Accounted, MetasAccounted, GroupsAccounted, Outermost;
    match f
    case Done => AccountedDone(groups, w);
    case Scope(timer, start, end, inner, next) =>
      EnterStep(groups, w, timer, start);
      var w1 := Step(groups, w, Entry(Enter, timer, Stamp(start))).value;
      WalkAccounts(groups, w1, inner);
      var w2 := Walk(groups, w1, LogOf(inner)).value;
      LeaveStep(groups, w, w1, w2, timer, start, end, inner);
      var w3 := Step(groups, w2, Entry(Leave, timer, Stamp(end))).value;
      AccountedFrame(groups, First(f), w, w3);
      WalkAccounts(groups, w3, next);
      AccountedNext(groups, f, w, w3, Walk(groups, w3, LogOf(next)).value);
      WalkScope(groups, w, f, w1, w2, w3);
    case Other(entry, next) =>
      OtherStep(groups, w, f);
      var w1 := Step(groups, w, entry).value;
      MetasKept(First(f), OpenTimer(w), w.totals.meta, w1.totals.meta);
      WalkAccounts(groups, w1, next);
      AccountedOther(groups, f, w, w1, Walk(groups, w1, LogOf(next)).value);
      WalkOther(groups, w, f, w1);
  }

  lemma AccountedDone(groups: seq<nat>, w: Walker)
    requires WellFormed(groups, w)
    ensures Accounted(groups, Done, w, w)
  {
    assert AddAt(w.child, |w.stack|, 0) == w.child;
  }

  lemma MetasKept(f: Scopes, open: Option<nat>, before: seq<seq<int>>, after: seq<seq<int>>)
    requires MetasAccounted(f, open, before, after)
    ensures |after| == |before|
  {
  }

  lemma WalkOther(groups: seq<nat>, w: Walker, f: Scopes, w1: Walker)
    requires WellFormed(groups, w) && f.Other? && KnownTimers(groups, f) && KnownMetas(|w.totals.meta|, f)
    requires KnownEntry(groups, w, f.entry) && Step(groups, w, f.entry) == Some(w1)
    requires KnownEntries(groups, w1, LogOf(f.next))
    ensures KnownEntries(groups, w, LogOf(f)) && Walk(groups, w, LogOf(f)) == Walk(groups, w1, LogOf(f.next))
  {
    hide Step;
    KnownLog(groups, w, f);
    assert LogOf(f)[0] == f.entry && LogOf(f)[1..] == LogOf(f.next);
  }

  lemma AccountedFrame(groups: seq<nat>, f: Scopes, w: Walker, w': Walker)
    requires WellFormed(groups, w) && WellFormed(groups, w') && KnownTimers(groups, f) && Accounted(groups, f, w, w')
    ensures w'.stack == w.stack
    ensures GroupsAccounted(groups, f, w.totals.groupPos, w'.totals.groupPos, w.totals.groupTicks, w'.totals.groupTicks)
    ensures w'.child == AddAt(w.child, |w.stack|, Outermost(f)) && |w'.totals.meta| == |w.totals.meta|
  {
  }

  /** The log of a scope is walked part by part. */
  lemma WalkScope(groups: seq<nat>, w: Walker, f: Scopes, w1: Walker, w2: Walker, w3: Walker)
    requires WellFormed(groups, w) && f.Scope? && KnownTimers(groups, f) && KnownMetas(|w.totals.meta|, f)
    requires Step(groups, w, Entry(Enter, f.timer, Stamp(f.start))) == Some(w1)
    requires KnownEntries(groups, w1, LogOf(f.inner)) && Walk(groups, w1, LogOf(f.inner)) == Some(w2)
    requires Step(groups, w2, Entry(Leave, f.timer, Stamp(f.end))) == Some(w3)
    requires KnownEntries(groups, w3, LogOf(f.next))
    ensures KnownEntries(groups, w, LogOf(f)) && Walk(groups, w, LogOf(f)) == Walk(groups, w3, LogOf(f.next))
  {
    hide Step, Walk;
    var enter, leave := Entry(Enter, f.timer, Stamp(f.start)), Entry(Leave, f.timer, Stamp(f.end));
    KnownLog(groups, w, f);
    KnownLog(groups, w, f.inner);
    KnownLog(groups, w, f.next);
    WalkOne(groups, w, enter);
    WalkOne(groups, w2, leave);
    WalkAppend(groups, w, [enter], LogOf(f.inner));
    var a := [enter] + LogOf(f.inner);
    WalkAppend(groups, w, a, [leave]);
    WalkAppend(groups, w, a + [leave], LogOf(f.next));
  }

  lemma {:induction false} NestingAppend(depth: nat, a: seq<Entry>, b: seq<Entry>)
    requires depth < STACK_MAX
    ensures DepthAfter(depth, a + b) == DepthAfter(DepthAfter(depth, a), b)
    ensures NestingFits(depth, a + b) <==> NestingFits(depth, a) && NestingFits(DepthAfter(depth, a), b)
    decreases |a|
  {
    if a == [] {
      assert a + b == b;
      assert NestingFits(depth, []);
    } else {
      hide NestingFits;
      assert (a + b)[0] == a[0] && (a + b)[1..] == a[1..] + b;
      NestingStep(depth, a);
      NestingStep(depth, a + b);
      var d := Depth(depth, a[0]);
      if d < STACK_MAX {
        NestingAppend(d, a[1..], b);
      } else {
        TooDeep(d, a[1..]);
        TooDeep(d, a[1..] + b);
        DepthAppend(d, a[1..], b);
      }
    }
  }

  lemma {:induction false} DepthAppend(depth: nat, a: seq<Entry>, b: seq<Entry>)
    ensures DepthAfter(depth, a + b) == DepthAfter(DepthAfter(depth, a), b)
    decreases |a|
  {
    if a == [] {
      assert a + b == b;
    } else {
      assert (a + b)[0] == a[0] && (a + b)[1..] == a[1..] + b;
      DepthAppend(Depth(depth, a[0]), a[1..], b);
    }
  }

  /** The log of nested scopes ends where it began, and fits exactly when their height does. */
  lemma {:induction false} NestedFitsExactly(groups: seq<nat>, depth: nat, f: Scopes)
    requires KnownTimers(groups, f)
    ensures DepthAfter(depth, LogOf(f)) == depth
    ensures depth < STACK_MAX ==> (NestingFits(depth, LogOf(f)) <==> depth + Height(f) < STACK_MAX)
    decreases f
  {
    hide NestingFits, DepthAfter;
    match f
    case Done => NoneDeep(depth);
    case Scope(timer, start, end, inner, next) =>
      NestedFitsExactly(groups, depth + 1, inner);
      NestedFitsExactly(groups, depth, next);
      ScopeDeep(depth, Entry(Enter, timer, Stamp(start)), LogOf(inner), Entry(Leave, timer, Stamp(end)), LogOf(next));
    case Other(entry, next) =>
      NestedFitsExactly(groups, depth, next);
      OneDeep(depth, entry);
      DepthAppend(depth, [entry], LogOf(next));
      if depth < STACK_MAX {
        NestingAppend(depth, [entry], LogOf(next));
      }
  }

  lemma NoneDeep(depth: nat)
    ensures DepthAfter(depth, []) == depth && (NestingFits(depth, []) <==> depth < STACK_MAX)
  {
    assert DepthAfter(depth, [][..0]) == depth;
  }

  /** A scope around `a`, and then `b`, where both end where they began. */
  lemma ScopeDeep(depth: nat, enter: Entry, a: seq<Entry>, leave: Entry, b: seq<Entry>)
    requires enter.kind == Enter && leave.kind == Leave
    requires DepthAfter(depth + 1, a) == depth + 1 && DepthAfter(depth, b) == depth
    ensures DepthAfter(depth, [enter] + a + [leave] + b) == depth
    ensures depth < STACK_MAX ==>
              (NestingFits(depth, [enter] + a + [leave] + b)
               <==> depth + 1 < STACK_MAX && NestingFits(depth + 1, a) && NestingFits(depth, b))
  {
    hide NestingFits, DepthAfter;
    OneDeep(depth, enter);
    OneDeep(depth + 1, leave);
    DepthAppend(depth, [enter], a);
    DepthAppend(depth, [enter] + a, [leave]);
    DepthAppend(depth, [enter] + a + [leave], b);
    if depth < STACK_MAX {
      NestingAppend(depth, [enter], a);
      NestingAppend(depth, [enter] + a, [leave]);
      NestingAppend(depth, [enter] + a + [leave], b);
    }
  }

  lemma OneDeep(depth: nat, e: Entry)
    ensures DepthAfter(depth, [e]) == Depth(depth, e)
    ensures NestingFits(depth, [e]) <==> depth < STACK_MAX && Depth(depth, e) < STACK_MAX
  {
    assert [e][..0] == [] && [e][..1] == [e] && [e][1..] == [];
    assert DepthAfter(depth, [e][..0]) == depth;
    assert DepthAfter(depth, [e][..1]) == Depth(depth, e);
  }

  /** For a balanced log the exclusive ticks of all timers add up to the duration of the outermost scopes. */
  lemma BalancedConserves(groups: seq<nat>, w: Walker, f: Scopes)
    requires WellFormed(groups, w) && KnownTimers(groups, f) && KnownMetas(|w.totals.meta|, f)
    requires |w.stack| + Height(f) < STACK_MAX
    ensures KnownEntries(groups, w, LogOf(f)) && Walk(groups, w, LogOf(f)).Some?
    ensures Sum(Walk(groups, w, LogOf(f)).value.totals.exclusive) == Sum(w.totals.exclusive) + Outermost(f)
  {
    hide Walk, Accounted, NestingFits;
    WalkAccounts(groups, w, f);
    NestedFitsExactly(groups, |w.stack|, f);
    WalkConserves(groups, w, LogOf(f));
    AccountedFrame(groups, f, w, Walk(groups, w, LogOf(f)).value);
    SumAddAt(w.child, |w.stack|, Outermost(f));
  }

  /** The group counters come back to their values exactly when each has room for the nesting of its group. */
  lemma CountersReturnExactly(groups: seq<nat>, w: Walker, f: Scopes)
    requires WellFormed(groups, w) && KnownTimers(groups, f) && KnownMetas(|w.totals.meta|, f)
    requires |w.stack| + Height(f) < STACK_MAX
    ensures KnownEntries(groups, w, LogOf(f)) && Walk(groups, w, LogOf(f)).Some?
    ensures Walk(groups, w, LogOf(f)).value.totals.groupPos == w.totals.groupPos
            <==> forall g :: 0 <= g < |w.totals.groupPos| ==> w.totals.groupPos[g] + GroupHeight(groups, f, g) < 256
  {
    hide Walk, Accounted, WellFormed, GroupHeight, GroupOutermost;
    WalkAccounts(groups, w, f);
    var w' := Walk(groups, w, LogOf(f)).value;
    AccountedFrame(groups, f, w, w');
    var pos, pos' := w.totals.groupPos, w'.totals.groupPos;
    forall g | 0 <= g < |pos| ensures pos'[g] == pos[g] <==> pos[g] + GroupHeight(groups, f, g) < 256 {
      assert GroupAccounted(groups, f, g, pos[g], pos'[g], w.totals.groupTicks[g], w'.totals.groupTicks[g]);
    }
  }

  /** Scopes of one timer that are left under another: `n` of them, one after the other. */
  function Mismatched(entered: nat, left: nat, n: nat): seq<Entry> {
    if n == 0 then [] else [Entry(Enter, entered, 0), Entry(Leave, left, 0)] + Mismatched(entered, left, n - 1)
  }

  /** Each of them leaves the counter of its group one higher, if the other timer is of another group. */
  lemma {:induction false} MismatchedCounts(groups: seq<nat>, w: Walker, entered: nat, left: nat, n: nat)
    requires WellFormed(groups, w) && entered < |groups| && left < |groups| && groups[entered] != groups[left]
    requires |w.stack| + 1 < STACK_MAX && w.totals.groupPos[groups[entered]] + n < 256
    ensures KnownEntries(groups, w, Mismatched(entered, left, n))
    ensures var r := Walk(groups, w, Mismatched(entered, left, n));
            && r.Some? && |r.value.stack| == |w.stack| && groups[entered] < |r.value.totals.groupPos|
            && r.value.totals.groupPos[groups[entered]] == w.totals.groupPos[groups[entered]] + n
    decreases n
  {
    hide Step, WellFormed;
    Lengths(groups, w);
    if n > 0 {
      var enter, leave := Entry(Enter, entered, 0), Entry(Leave, left, 0);
      MismatchedPair(groups, w, entered, left);
      var w1 := Step(groups, w, enter).value;
      var w2 := Step(groups, w1, leave).value;
      MismatchedCounts(groups, w2, entered, left, n - 1);
      var rest, log := Mismatched(entered, left, n - 1), Mismatched(entered, left, n);
      assert log[0] == enter && log[1..] == [leave] + rest && log[1..][1..] == rest;
      MismatchedKnown(groups, w, entered, left, n - 1);
    }
  }

  lemma {:induction false} MismatchedKnown(groups: seq<nat>, w: Walker, entered: nat, left: nat, n: nat)
    requires entered < |groups| && left < |groups|
    ensures KnownEntries(groups, w, Mismatched(entered, left, n))
  {
    if n > 0 {
      MismatchedKnown(groups, w, entered, left, n - 1);
    }
  }

  lemma MismatchedPair(groups: seq<nat>, w: Walker, entered: nat, left: nat)
    requires WellFormed(groups, w) && entered < |groups| && left < |groups| && groups[entered] != groups[left]
    requires |w.stack| + 1 < STACK_MAX && w.totals.groupPos[groups[entered]] + 1 < 256
    ensures var w1 := Step(groups, w, Entry(Enter, entered, 0));
            && w1.Some?
            && var w2 := Step(groups, w1.value, Entry(Leave, left, 0));
               && w2.Some? && |w2.value.stack| == |w.stack| && groups[entered] < |w2.value.totals.groupPos|
               && w2.value.totals.groupPos[groups[entered]] == w.totals.groupPos[groups[entered]] + 1
  {
    hide TickDiff;
  }

  /** From nothing open: 255 of them, and then one scope that is entered and left as it should be, and the counter,
      which stood at 255, stands at zero. */
  lemma CounterIsLost(groups: seq<nat>, w: Walker, entered: nat, left: nat, f: Scopes)
    requires WellFormed(groups, w) && entered < |groups| && left < |groups| && groups[entered] != groups[left]
    requires w.stack == [] && w.totals.groupPos[groups[entered]] == 0 && f == Scope(entered, 0, 0, Done, Done)
    ensures KnownEntries(groups, w, Mismatched(entered, left, 255))
    ensures var w' := Walk(groups, w, Mismatched(entered, left, 255));
            && w'.Some? && w'.value.totals.groupPos[groups[entered]] == 255
            && KnownEntries(groups, w'.value, LogOf(f)) && Walk(groups, w'.value, LogOf(f)).Some?
            && Walk(groups, w'.value, LogOf(f)).value.totals.groupPos[groups[entered]] == 0
  {
    hide Walk, Mismatched, Accounted;
    MismatchedCounts(groups, w, entered, left, 255);
    var w' := Walk(groups, w, Mismatched(entered, left, 255)).value;
    WalkAccounts(groups, w', f);
    AccountedFrame(groups, f, w', Walk(groups, w', LogOf(f)).value);
    OneScopeOfGroup(groups, f, groups[entered], true);
  }

  // ---- true durations ----------------------------------------------------------------------

  /** No scope is left before it is entered. */
  predicate Forward(f: Scopes) {
    match f
    case Done => true
    case Scope(_, start, end, inner, next) => start <= end && Forward(inner) && Forward(next)
    case Other(_, next) => Forward(next)
  }

  /** Every scope takes less than 2^47 ticks. */
  predicate Short(f: Scopes) {
    match f
    case Done => true
    case Scope(_, start, end, inner, next) => end - start < HALF_TICKS && Short(inner) && Short(next)
    case Other(_, next) => Short(next)
  }

  /** So does every outermost one. */
  predicate OutermostShort(f: Scopes) {
    match f
    case Done => true
    case Scope(_, start, end, _, next) => end - start < HALF_TICKS && OutermostShort(next)
    case Other(_, next) => OutermostShort(next)
  }

  function TrueOutermost(f: Scopes): int {
    match f
    case Done => 0
    case Scope(_, start, end, _, next) => end - start + TrueOutermost(next)
    case Other(_, next) => TrueOutermost(next)
  }

  function TrueInclusive(f: Scopes, t: nat): int {
    match f
    case Done => 0
    case Scope(timer, start, end, inner, next) =>
      (if timer == t then end - start else 0) + TrueInclusive(inner, t) + TrueInclusive(next, t)
    case Other(_, next) => TrueInclusive(next, t)
  }

  function TrueExclusive(f: Scopes, t: nat): int {
    match f
    case Done => 0
    case Scope(timer, start, end, inner, next) =>
      (if timer == t then end - start - TrueOutermost(inner) else 0) + TrueExclusive(inner, t) + TrueExclusive(next, t)
    case Other(_, next) => TrueExclusive(next, t)
  }

  function TrueGroupOutermost(groups: seq<nat>, f: Scopes, g: nat, inside: bool): int
    requires KnownTimers(groups, f)
  {
    match f
    case Done => 0
    case Scope(timer, start, end, inner, next) =>
      (if groups[timer] == g && !inside then end - start else 0)
      + TrueGroupOutermost(groups, inner, g, inside || groups[timer] == g)
      + TrueGroupOutermost(groups, next, g, inside)
    case Other(_, next) => TrueGroupOutermost(groups, next, g, inside)
  }

  lemma {:induction false} OutermostTrueExactly(f: Scopes)
    requires Forward(f)
    ensures Outermost(f) <= TrueOutermost(f) && (Outermost(f) == TrueOutermost(f) <==> OutermostShort(f))
  {
    match f
    case Done =>
    case Scope(_, start, end, _, next) =>
      hide Measured;
      MeasuredExactly(start, end);
      OutermostTrueExactly(next);
    case Other(_, next) => OutermostTrueExactly(next);
  }

  lemma {:induction false} ShortIsOutermostShort(f: Scopes)
    requires Short(f)
    ensures OutermostShort(f)
  {
    if !f.Done? {
      ShortIsOutermostShort(f.next);
    }
  }

  lemma {:induction false} InclusiveAtMost(f: Scopes, t: nat)
    requires Forward(f)
    ensures Inclusive(f, t) <= TrueInclusive(f, t) && (Short(f) ==> Inclusive(f, t) == TrueInclusive(f, t))
  {
    match f
    case Done =>
    case Scope(_, start, end, inner, next) =>
      hide Measured;
      MeasuredExactly(start, end);
      InclusiveAtMost(inner, t);
      InclusiveAtMost(next, t);
    case Other(_, next) => InclusiveAtMost(next, t);
  }

  /** A scope that takes longer is missing from the ticks of its timer. */
  lemma {:induction false} LongScopeIsLost(groups: seq<nat>, f: Scopes) returns (t: nat)
    requires Forward(f) && !Short(f) && KnownTimers(groups, f)
    ensures t < |groups| && Inclusive(f, t) < TrueInclusive(f, t)
  {
    match f
    case Scope(timer, start, end, inner, next) =>
      hide Measured;
      MeasuredExactly(start, end);
      if end - start >= HALF_TICKS {
        t := timer;
      } else if !Short(inner) {
        t := LongScopeIsLost(groups, inner);
      } else {
        t := LongScopeIsLost(groups, next);
      }
      InclusiveAtMost(inner, t);
      InclusiveAtMost(next, t);
    case Other(_, next) => t := LongScopeIsLost(groups, next);
  }

  lemma {:induction false} ExclusiveTrue(f: Scopes, t: nat)
    requires Forward(f) && Short(f)
    ensures Exclusive(f, t) == TrueExclusive(f, t)
  {
    match f
    case Done =>
    case Scope(_, start, end, inner, next) =>
      hide Measured;
      MeasuredExactly(start, end);
      ShortIsOutermostShort(inner);
      OutermostTrueExactly(inner);
      ExclusiveTrue(inner, t);
      ExclusiveTrue(next, t);
    case Other(_, next) => ExclusiveTrue(next, t);
  }

  lemma {:induction false} GroupTrue(groups: seq<nat>, f: Scopes, g: nat, inside: bool)
    requires KnownTimers(groups, f) && Forward(f) && Short(f)
    ensures GroupOutermost(groups, f, g, inside) == TrueGroupOutermost(groups, f, g, inside)
  {
    match f
    case Done =>
    case Scope(timer, start, end, inner, next) =>
      hide Measured;
      MeasuredExactly(start, end);
      GroupTrue(groups, inner, g, inside || groups[timer] == g);
      GroupTrue(groups, next, g, inside);
    case Other(_, next) => GroupTrue(groups, next, g, inside);
  }

  /** The totals grow by what really elapsed in the scopes. */
  ghost predicate TrulyAccounted(groups: seq<nat>, f: Scopes, before: Totals, after: Totals)
    requires KnownTimers(groups, f)
  {
    && |after.ticks| == |before.ticks| && |after.exclusive| == |before.exclusive|
    && |before.groupTicks| == |after.groupTicks| == |before.groupPos|
    && (forall t :: 0 <= t < |before.ticks| ==> after.ticks[t] == before.ticks[t] + TrueInclusive(f, t))
    && (forall t :: 0 <= t < |before.exclusive| ==> after.exclusive[t] == before.exclusive[t] + TrueExclusive(f, t))
    && forall g :: 0 <= g < |before.groupPos| && before.groupPos[g] + GroupHeight(groups, f, g) < 256 ==>
         after.groupTicks[g] == before.groupTicks[g] + TrueGroupOutermost(groups, f, g, before.groupPos[g] > 0)
  }

  /** In terms of the times at which the scopes were entered and left, however often the 48 bits wrapped: the walk
      adds what really elapsed to the inclusive, exclusive and group ticks exactly when no scope took 2^47 ticks. */
  lemma WalkIsTrueExactly(groups: seq<nat>, w: Walker, f: Scopes)
    requires WellFormed(groups, w) && KnownTimers(groups, f) && KnownMetas(|w.totals.meta|, f)
    requires |w.stack| + Height(f) < STACK_MAX && Forward(f)
    ensures KnownEntries(groups, w, LogOf(f)) && Walk(groups, w, LogOf(f)).Some?
    ensures TrulyAccounted(groups, f, w.totals, Walk(groups, w, LogOf(f)).value.totals) <==> Short(f)
  {
    hide Walk, Accounted, Inclusive, Exclusive, GroupOutermost, TrueInclusive, TrueExclusive, TrueGroupOutermost;
    WalkAccounts(groups, w, f);
    var w' := Walk(groups, w, LogOf(f)).value;
    AccountedTotals(groups, f, w, w');
    if Short(f) {
      TotalsAreTrue(groups, f, w.totals, w'.totals);
    } else {
      var t := LongScopeIsLost(groups, f);
      assert w'.totals.ticks[t] == w.totals.ticks[t] + Inclusive(f, t);
    }
  }

  lemma AccountedTotals(groups: seq<nat>, f: Scopes, w: Walker, w': Walker)
    requires WellFormed(groups, w) && WellFormed(groups, w') && KnownTimers(groups, f) && Accounted(groups, f, w, w')
    ensures TimersAccounted(f, w.totals, w'.totals) && |w.totals.ticks| == |groups|
    ensures GroupsAccounted(groups, f, w.totals.groupPos, w'.totals.groupPos, w.totals.groupTicks, w'.totals.groupTicks)
  {
  }

  lemma TotalsAreTrue(groups: seq<nat>, f: Scopes, before: Totals, after: Totals)
    requires KnownTimers(groups, f) && Forward(f) && Short(f) && TimersAccounted(f, before, after)
    requires GroupsAccounted(groups, f, before.groupPos, after.groupPos, before.groupTicks, after.groupTicks)
    ensures TrulyAccounted(groups, f, before, after)
  {
    hide Inclusive, Exclusive, GroupOutermost, TrueInclusive, TrueExclusive, TrueGroupOutermost, GroupHeight;
    forall t: nat ensures Inclusive(f, t) == TrueInclusive(f, t) && Exclusive(f, t) == TrueExclusive(f, t) {
      InclusiveAtMost(f, t);
      ExclusiveTrue(f, t);
    }
    forall g | 0 <= g < |before.groupPos| && before.groupPos[g] + GroupHeight(groups, f, g) < 256
      ensures after.groupTicks[g] == before.groupTicks[g] + TrueGroupOutermost(groups, f, g, before.groupPos[g] > 0)
    {
      assert GroupAccounted(groups, f, g, before.groupPos[g], after.groupPos[g],
                            before.groupTicks[g], after.groupTicks[g]);
      GroupTrue(groups, f, g, before.groupPos[g] > 0);
    }
  }

  /** The exclusive ticks of all timers add up to the time spent in the outermost scopes exactly when none of these
      took 2^47 ticks; what runs inside them does not matter. */
  lemma ConservesTrueTimeExactly(groups: seq<nat>, w: Walker, f: Scopes)
    requires WellFormed(groups, w) && KnownTimers(groups, f) && KnownMetas(|w.totals.meta|, f)
    requires |w.stack| + Height(f) < STACK_MAX && Forward(f)
    ensures KnownEntries(groups, w, LogOf(f)) && Walk(groups, w, LogOf(f)).Some?
    ensures Sum(Walk(groups, w, LogOf(f)).value.totals.exclusive) == Sum(w.totals.exclusive) + TrueOutermost(f)
            <==> OutermostShort(f)
  {
    hide Walk, WellFormed;
    BalancedConserves(groups, w, f);
    OutermostTrueExactly(f);
  }

  // ---- the code ----------------------------------------------------------------------------

  /** The entries in the given slots. */
  function EntriesAt(log: seq<Entry>, slots: seq<int>): (r: seq<Entry>)
    requires forall i :: 0 <= i < |slots| ==> 0 <= slots[i] < |log|
    ensures |r| == |slots|
  {
    seq(|slots|, i requires 0 <= i < |slots| => log[slots[i]])
  }

  class ThreadLog {
    const log: array<Entry>
    const stack: array<nat>        // slots of the open entries
    const child: array<int>
    var stackPos: nat
    var totals: Totals

    ghost predicate Valid(groups: seq<nat>)
      reads this, stack, child, log
    {
      && stack.Length == STACK_MAX && child.Length == STACK_MAX && stackPos < STACK_MAX
      && stack as object != child
      && (forall i :: 0 <= i < stackPos ==> stack[i] < log.Length)
      && WellFormed(groups, View())
    }

    ghost function View(): Walker
      requires stack.Length == STACK_MAX && child.Length == STACK_MAX && stackPos < STACK_MAX
      requires forall i :: 0 <= i < stackPos ==> stack[i] < log.Length
      reads this, stack, child, log
    {
      Walker(seq(stackPos, i requires 0 <= i < stackPos reads this, stack, log
                             requires stack.Length == STACK_MAX && stackPos < STACK_MAX && stack[i] < log.Length
                             => log[stack[i]]),
             child[..stackPos + 1], totals)
    }

    // Lines 1667-1679 for an entry that opens a scope
    method EnterScope(groups: seq<nat>, k: nat) returns (ok: bool)
      requires Valid(groups) && k < log.Length && log[k].kind == Enter && log[k].timer < |groups|
      modifies this, stack, child
      ensures ok ==> Valid(groups) && Step(groups, old(View()), log[k]) == Some(View())
      ensures !ok ==> Step(groups, old(View()), log[k]) == None
    {
      ghost var before := View();
      var g := groups[log[k].timer];
      if stackPos + 1 >= STACK_MAX {
        return false;
      }
      totals := totals.(groupPos := totals.groupPos[g := (totals.groupPos[g] + 1) % 256]);
      stack[stackPos] := k;
      stackPos := stackPos + 1;
      child[stackPos] := 0;
      assert View().stack == before.stack + [log[k]];
      assert View().child == before.child + [0];
      return true;
    }

    // Lines 1692-1722 for an entry that closes one
    method LeaveScope(groups: seq<nat>, k: nat)
      requires Valid(groups) && k < log.Length && log[k].kind == Leave && log[k].timer < |groups|
      modifies this, child
      ensures Valid(groups) && Step(groups, old(View()), log[k]) == Some(View())
    {
      hide TickDiff, LeaveGroup;
      ghost var before := View();
      var e := log[k];
      if stackPos > 0 {
        var ticks := TickDiff(log[stack[stackPos - 1]].tick, e.tick);
        var childTicks := child[stackPos];
        stackPos := stackPos - 1;
        child[stackPos] := child[stackPos] + ticks;
        totals := totals.(ticks := AddAt(totals.ticks, e.timer, ticks),
                          exclusive := AddAt(totals.exclusive, e.timer, ticks - childTicks),
                          counts := AddAt(totals.counts, e.timer, 1));
        CloseGroup(groups[e.timer], ticks);
        assert View().stack == before.stack[..stackPos];
        assert View().child == AddAt(before.child[..stackPos + 1], stackPos, ticks);
        assert Step(groups, before, e) == Some(View());
      }
    }

    // Lines 1711-1720
    method CloseGroup(g: nat, ticks: int)
      requires g < |totals.groupPos| == |totals.groupTicks|
      modifies this`totals
      ensures totals == LeaveGroup(old(totals), g, ticks)
    {
      var pos := totals.groupPos[g];
      if pos != 0 {
        pos := pos - 1;
        if pos == 0 {
          totals := totals.(groupTicks := AddAt(totals.groupTicks, g, ticks));
        }
        totals := totals.(groupPos := totals.groupPos[g := pos]);
      }
    }

    method Process(groups: seq<nat>, k: nat) returns (ok: bool)
      requires Valid(groups) && k < log.Length && KnownEntry(groups, View(), log[k])
      modifies this, stack, child
      ensures ok ==> Valid(groups) && Step(groups, old(View()), log[k]) == Some(View())
      ensures !ok ==> Step(groups, old(View()), log[k]) == None
    {
      var e := log[k];
      if e.kind == Enter {
        ok := EnterScope(groups, k);
      } else if e.kind == Meta {
        ghost var before := View();
        if stackPos > 0 {
          var counter := log[stack[stackPos - 1]].timer;
          assert counter == View().stack[stackPos - 1].timer;
          totals := totals.(meta := totals.meta[e.timer := AddAt(totals.meta[e.timer], counter, e.tick)]);
          assert View().stack == before.stack;
        }
        ok := true;
      } else if e.kind == Leave {
        LeaveScope(groups, k);
        ok := true;
      } else {
        ok := true;
      }
    }

    // Lines 1663-1723
    method WalkRange(groups: seq<nat>, start: nat, end: nat) returns (ok: bool)
      requires Valid(groups) && start <= end <= log.Length && KnownEntries(groups, View(), log[..])
      modifies this, stack, child
      ensures KnownEntries(groups, old(View()), log[start..end])
      ensures ok ==> && Valid(groups) && KnownEntries(groups, View(), log[..])
                     && Walk(groups, old(View()), log[start..end]) == Some(View())
      ensures !ok ==> Walk(groups, old(View()), log[start..end]) == None
    {
      hide Step, Walk, WellFormed, KnownEntries;
      ghost var before := View();
      ghost var all := log[..];
      KnownPart(groups, before, all, start, end);
      assert log[start..end] == all[start..end];
      WalkNothing(groups, before, all, start);
      var k := start;
      while k < end
        invariant start <= k <= end && Valid(groups) && KnownEntries(groups, View(), all)
        invariant KnownEntries(groups, before, all[start..k]) && Walk(groups, before, all[start..k]) == Some(View())
      {
        ghost var w := View();
        KnownAt(groups, w, all, k);
        WalkFurther(groups, before, all, start, k, end);
        StepKeepsKnownAll(groups, w, all, k);
        ok := Process(groups, k);
        if !ok {
          return;
        }
        k := k + 1;
      }
      return true;
    }

    /** Lines 1632-1724: the entries written from `get` up to `put`, in the order they were written. */
    method WalkFrame(groups: seq<nat>, put: nat, get: nat) returns (ok: bool)
      requires Valid(groups) && put < log.Length && get < log.Length
      requires KnownEntries(groups, View(), log[..])
      modifies this, stack, child
      ensures KnownEntries(groups, old(View()), EntriesAt(log[..], Interval(log.Length, get, put)))
      ensures ok ==> && Valid(groups)
                     && Walk(groups, old(View()), EntriesAt(log[..], Interval(log.Length, get, put))) == Some(View())
      ensures !ok ==> Walk(groups, old(View()), EntriesAt(log[..], Interval(log.Length, get, put))) == None
      ensures ok <==> NestingFits(old(stackPos), EntriesAt(log[..], Interval(log.Length, get, put)))
    {
      hide Step, Walk, WellFormed, KnownEntries, Interval, EntriesAt, NestingFits;
      var r0, r1 := GetRange(log.Length, put, get);
      ghost var before := View();
      ghost var all := log[..];
      EntriesInTwoParts(all, r0, r1, get, put);
      KnownPart(groups, before, all, r0.0, r0.1);
      KnownPart(groups, before, all, r1.0, r1.1);
      assert log[r0.0..r0.1] == all[r0.0..r0.1] && log[r1.0..r1.1] == all[r1.0..r1.1];
      WalkAppend(groups, before, all[r0.0..r0.1], all[r1.0..r1.1]);
      ok := WalkRange(groups, r0.0, r0.1);
      if ok {
        ok := WalkRange(groups, r1.0, r1.1);
      }
      WalkFitsExactly(groups, before, all[r0.0..r0.1] + all[r1.0..r1.1]);
    }
  }

  lemma KnownPart(groups: seq<nat>, w: Walker, all: seq<Entry>, start: nat, end: nat)
    requires start <= end <= |all| && KnownEntries(groups, w, all)
    ensures KnownEntries(groups, w, all[start..end])
  {
  }

  lemma KnownAt(groups: seq<nat>, w: Walker, all: seq<Entry>, k: nat)
    requires k < |all| && KnownEntries(groups, w, all)
    ensures KnownEntry(groups, w, all[k])
  {
  }

  lemma StepKeepsKnownAll(groups: seq<nat>, w: Walker, all: seq<Entry>, k: nat)
    requires WellFormed(groups, w) && k < |all| && KnownEntries(groups, w, all) && KnownEntry(groups, w, all[k])
    ensures Step(groups, w, all[k]).Some? ==> KnownEntries(groups, Step(groups, w, all[k]).value, all)
  {
  }

  lemma WalkNothing(groups: seq<nat>, w: Walker, all: seq<Entry>, start: nat)
    requires WellFormed(groups, w) && start <= |all|
    ensures KnownEntries(groups, w, all[start..start]) && Walk(groups, w, all[start..start]) == Some(w)
  {
  }

  /** One entry more; and if that overruns, so does everything up to `end`. */
  lemma WalkFurther(groups: seq<nat>, w: Walker, all: seq<Entry>, start: nat, k: nat, end: nat)
    requires WellFormed(groups, w) && start <= k < end <= |all| && KnownEntries(groups, w, all)
    requires KnownEntries(groups, w, all[start..k]) && Walk(groups, w, all[start..k]).Some?
    requires KnownEntry(groups, Walk(groups, w, all[start..k]).value, all[k])
    ensures KnownEntries(groups, w, all[start..k + 1]) && KnownEntries(groups, w, all[start..end])
    ensures Walk(groups, w, all[start..k + 1]) == Step(groups, Walk(groups, w, all[start..k]).value, all[k])
    ensures Walk(groups, w, all[start..k + 1]).None? ==> Walk(groups, w, all[start..end]).None?
  {
    hide Step, Walk, WellFormed;
    var w' := Walk(groups, w, all[start..k]).value;
    WalkOne(groups, w', all[k]);
    assert KnownEntries(groups, w, [all[k]]);
    WalkAppend(groups, w, all[start..k], [all[k]]);
    assert all[start..k] + [all[k]] == all[start..k + 1];
    WalkAppend(groups, w, all[start..k + 1], all[k + 1..end]);
    assert all[start..k + 1] + all[k + 1..end] == all[start..end];
  }

  /** The circular interval is read as two stretches of the log. */
  lemma EntriesInTwoParts(all: seq<Entry>, r0: (nat, nat), r1: (nat, nat), get: nat, put: nat)
    requires get < |all| && put < |all| && r0.0 <= r0.1 <= |all| && r1.0 <= r1.1 <= |all|
    requires Indices(r0) + Indices(r1) == Interval(|all|, get, put)
    ensures EntriesAt(all, Interval(|all|, get, put)) == all[r0.0..r0.1] + all[r1.0..r1.1]
  {
  }
}
