/** src/common/ring_buffer.h with one producer and one consumer running concurrently. A step is a
    single load, a single store or the copy of a single slot; the copies of one `memcpy` may happen
    in any order. Every interleaving of steps is a list of actions. */
module RingBufferConcurrent {
  import opened Arithmetic
  import opened RingIndex

  /** Where a thread stands inside `Push` (lines 41-54). `done` are the slots already copied. */
  datatype Producer<T> =
    | PushIdle
    | PushLoaded(slots: seq<T>, write: nat)
    | PushCopying(slots: seq<T>, write: nat, count: nat, done: set<nat>)

  /** Where a thread stands inside `Pop` (lines 68-81). `out` holds the slots already copied. */
  datatype Consumer<T> =
    | PopIdle
    | PopLoaded(maxSlots: nat, read: nat)
    | PopCopying(read: nat, count: nat, out: map<nat, T>)

  /** The object, the two threads, and the history: the slots whose `Push` has published them and
      the slots whose `Pop` has returned them. */
  datatype State<T> = State(data: seq<T>, readIndex: nat, writeIndex: nat,
                            producer: Producer<T>, consumer: Consumer<T>,
                            pushed: seq<T>, popped: seq<T>)

  datatype Action<T> =
    | LoadWriteForPush(slots: seq<T>)
    | LoadReadForPush
    | CopyIn(k: nat)
    | StoreWrite
    | LoadReadForPop(maxSlots: nat)
    | LoadWriteForPop
    | CopyOut(k: nat)
    | StoreRead

  predicate Initial<T(==)>(capacity: nat, s: State<T>) {
    && |s.data| == capacity && s.readIndex == 0 && s.writeIndex == 0
    && s.producer == PushIdle && s.consumer == PopIdle && s.pushed == [] && s.popped == []
  }

  predicate Enabled<T>(capacity: nat, s: State<T>, a: Action<T>) {
    match a
    case LoadWriteForPush(slots) => s.producer.PushIdle?
    case LoadReadForPush => s.producer.PushLoaded?
    case CopyIn(k) => s.producer.PushCopying? && k < s.producer.count && k !in s.producer.done
    case StoreWrite => s.producer.PushCopying? && forall k :: 0 <= k < s.producer.count ==> k in s.producer.done
    case LoadReadForPop(_) => s.consumer.PopIdle?
    case LoadWriteForPop => s.consumer.PopLoaded?
    case CopyOut(k) => s.consumer.PopCopying? && k < s.consumer.count && k !in s.consumer.out
    case StoreRead => s.consumer.PopCopying? && forall k :: 0 <= k < s.consumer.count ==> k in s.consumer.out
  }

  /** What the object must satisfy for the next step not to index outside its arrays. */
  predicate InBounds<T>(capacity: nat, s: State<T>) {
    && capacity > 0 && |s.data| == capacity && s.readIndex < WRAP && s.writeIndex < WRAP && capacity < WRAP
    && (s.producer.PushLoaded? ==> s.producer.write < WRAP)
    && (s.producer.PushCopying? ==>
          && s.producer.count <= capacity && s.producer.count <= |s.producer.slots|)
    && (s.consumer.PopLoaded? ==> s.consumer.read < WRAP)
    && (s.consumer.PopCopying? ==> s.consumer.count <= capacity)
  }

  function After<T>(capacity: nat, s: State<T>, a: Action<T>): State<T>
    requires InBounds(capacity, s) && Enabled(capacity, s, a)
  {
    match a
    case LoadWriteForPush(slots) => s.(producer := PushLoaded(slots, s.writeIndex))
    case LoadReadForPush =>
      var p := s.producer;
      var slotsFree := WrapSub(capacity + s.readIndex, p.write);
      s.(producer := PushCopying(p.slots, p.write, Min(|p.slots|, slotsFree), {}))
    case CopyIn(k) =>
      var p := s.producer;
      s.(data := s.data[SlotOf(capacity, p.write, p.count, k) := p.slots[k]],
         producer := p.(done := p.done + {k}))
    case StoreWrite =>
      var p := s.producer;
      s.(writeIndex := (p.write + p.count) % WRAP, producer := PushIdle,
         pushed := s.pushed + p.slots[..p.count])
    case LoadReadForPop(maxSlots) => s.(consumer := PopLoaded(maxSlots, s.readIndex))
    case LoadWriteForPop =>
      var c := s.consumer;
      var slotsFilled := WrapSub(s.writeIndex, c.read);
      s.(consumer := PopCopying(c.read, Min(slotsFilled, c.maxSlots), map[]))
    case CopyOut(k) =>
      var c := s.consumer;
      s.(consumer := c.(out := c.out[k := s.data[SlotOf(capacity, c.read, c.count, k)]]))
    case StoreRead =>
      var c := s.consumer;
      s.(readIndex := (c.read + c.count) % WRAP, consumer := PopIdle,
         popped := s.popped + seq(c.count, k requires 0 <= k < c.count => c.out[k]))
  }

  // ---- the invariant -----------------------------------------------------------------------

  /** The indices count the published and the returned slots, modulo 2^64, and never differ by more
      than the capacity. */
  ghost predicate Counted<T>(capacity: nat, s: State<T>) {
    && |s.data| == capacity
    && s.readIndex == |s.popped| % WRAP && s.writeIndex == |s.pushed| % WRAP
    && |s.popped| <= |s.pushed| <= |s.popped| + capacity
  }

  /** Every published and not yet returned slot is in its place. */
  ghost predicate Stored<T>(capacity: nat, s: State<T>)
    requires capacity > 0 && |s.data| == capacity
  {
    forall i :: |s.popped| <= i < |s.pushed| ==> s.data[Slot(capacity, i)] == s.pushed[i]
  }

  /** What the producer has copied lies in slots that are not in use. */
  ghost predicate ProducerOk<T>(capacity: nat, s: State<T>)
    requires capacity > 0 && |s.data| == capacity
  {
    match s.producer
    case PushIdle => true
    case PushLoaded(_, write) => write == s.writeIndex
    case PushCopying(slots, write, count, done) =>
      && write == s.writeIndex && count <= |slots| && |s.pushed| + count <= |s.popped| + capacity
      && forall k :: k in done ==> k < count && s.data[Slot(capacity, |s.pushed| + k)] == slots[k]
  }

  /** What the consumer has copied out are the oldest published slots. */
  ghost predicate ConsumerOk<T>(s: State<T>) {
    match s.consumer
    case PopIdle => true
    case PopLoaded(_, read) => read == s.readIndex
    case PopCopying(read, count, out) =>
      && read == s.readIndex && |s.popped| + count <= |s.pushed|
      && forall k :: k in out ==> k < count && out[k] == s.pushed[|s.popped| + k]
  }

  ghost predicate Inv<T>(capacity: nat, s: State<T>) {
    && 0 < capacity < WRAP / 2 && WRAP % capacity == 0
    && Counted(capacity, s) && s.popped <= s.pushed
    && Stored(capacity, s) && ProducerOk(capacity, s) && ConsumerOk(s)
  }

  lemma InvInBounds<T>(capacity: nat, s: State<T>)
    requires Inv(capacity, s)
    ensures InBounds(capacity, s)
  {
  }

  lemma LoadForPushKeeps<T>(capacity: nat, s: State<T>)
    requires Inv(capacity, s) && InBounds(capacity, s) && s.producer.PushLoaded?
    ensures Inv(capacity, After(capacity, s, LoadReadForPush))
  {
    var r, w := |s.popped|, |s.pushed|;
    WrapDifference(r, w, capacity);
  }

  lemma LoadForPopKeeps<T>(capacity: nat, s: State<T>)
    requires Inv(capacity, s) && InBounds(capacity, s) && s.consumer.PopLoaded?
    ensures Inv(capacity, After(capacity, s, LoadWriteForPop))
  {
    WrapDifference(|s.pushed|, |s.popped|, 0);
  }

  /** The slot the producer is about to write holds no published slot that is still to be popped, and
      no other slot of the same push. */
  lemma CopyInSlot<T>(capacity: nat, s: State<T>, k: nat)
    requires Inv(capacity, s) && s.producer.PushCopying? && k < s.producer.count
    ensures var slot := SlotOf(capacity, s.producer.write, s.producer.count, k);
            && slot == Slot(capacity, |s.pushed| + k)
            && forall i :: |s.popped| <= i < |s.pushed| + s.producer.count && i != |s.pushed| + k ==>
                 Slot(capacity, i) != slot
  {
    hide Slot, SlotOf, Stored, ConsumerOk;
    var target := |s.pushed| + k;
    SlotIsModulo(capacity, |s.pushed|, s.producer.count, k);
    forall i | |s.popped| <= i < |s.pushed| + s.producer.count && i != target
      ensures Slot(capacity, i) != Slot(capacity, target)
    {
      if i < target {
        DistinctSlots(capacity, i, target);
      } else {
        DistinctSlots(capacity, target, i);
      }
    }
  }

  lemma CopyInKeeps<T>(capacity: nat, s: State<T>, k: nat)
    requires Inv(capacity, s) && InBounds(capacity, s) && Enabled(capacity, s, CopyIn(k))
    ensures Inv(capacity, After(capacity, s, CopyIn(k)))
  {
    hide SlotOf, Slot;
    CopyInSlot(capacity, s, k);
  }

  lemma CopyOutKeeps<T>(capacity: nat, s: State<T>, k: nat)
    requires Inv(capacity, s) && InBounds(capacity, s) && Enabled(capacity, s, CopyOut(k))
    ensures Inv(capacity, After(capacity, s, CopyOut(k)))
  {
    hide SlotOf, Slot;
    SlotIsModulo(capacity, |s.popped|, s.consumer.count, k);
  }

  lemma StoreWriteKeeps<T>(capacity: nat, s: State<T>)
    requires Inv(capacity, s) && InBounds(capacity, s) && Enabled(capacity, s, StoreWrite)
    ensures Inv(capacity, After(capacity, s, StoreWrite))
  {
    hide Slot;
    var p, s' := s.producer, After(capacity, s, StoreWrite);
    WrapAdd(|s.pushed|, p.count);
    forall i | |s'.popped| <= i < |s'.pushed| ensures s'.data[Slot(capacity, i)] == s'.pushed[i] {
      if i >= |s.pushed| {
        var k := i - |s.pushed|;
        assert k in p.done;
        assert s'.pushed[i] == p.slots[k];
      }
    }
  }

  lemma StoreReadKeeps<T>(capacity: nat, s: State<T>)
    requires Inv(capacity, s) && InBounds(capacity, s) && Enabled(capacity, s, StoreRead)
    ensures Inv(capacity, After(capacity, s, StoreRead))
  {
    hide Slot;
    var c, s' := s.consumer, After(capacity, s, StoreRead);
    WrapAdd(|s.popped|, c.count);
    forall i | |s.popped| <= i < |s'.popped| ensures s'.popped[i] == s.pushed[i] {
      assert c.out[i - |s.popped|] == s.pushed[i];
    }
  }

  /** Every step of either thread keeps the invariant. */
  lemma StepKeeps<T>(capacity: nat, s: State<T>, a: Action<T>)
    requires Inv(capacity, s) && Enabled(capacity, s, a)
    ensures InBounds(capacity, s) && Inv(capacity, After(capacity, s, a))
  {
    InvInBounds(capacity, s);
    match a
    case LoadWriteForPush(slots) =>
    case LoadReadForPush => LoadForPushKeeps(capacity, s);
    case CopyIn(k) => CopyInKeeps(capacity, s, k);
    case StoreWrite => StoreWriteKeeps(capacity, s);
    case LoadReadForPop(_) =>
    case LoadWriteForPop => LoadForPopKeeps(capacity, s);
    case CopyOut(k) => CopyOutKeeps(capacity, s, k);
    case StoreRead => StoreReadKeeps(capacity, s);
  }

  // ---- every interleaving ------------------------------------------------------------------

  /** `s` is reached by the actions, in order, from an initial state. */
  ghost predicate Reaches<T(!new)>(capacity: nat, actions: seq<Action<T>>, s: State<T>)
    decreases |actions|
  {
    if actions == [] then Initial(capacity, s) else
      var last := actions[|actions| - 1];
      exists prior: State<T> :: Reaches(capacity, actions[..|actions| - 1], prior)
        && InBounds(capacity, prior) && Enabled(capacity, prior, last) && s == After(capacity, prior, last)
  }

  lemma {:induction false} ReachedInv<T(!new)>(capacity: nat, actions: seq<Action<T>>, s: State<T>)
    requires ValidCapacity(capacity) && Reaches(capacity, actions, s)
    ensures Inv(capacity, s)
    decreases |actions|
  {
    if actions == [] {
      CapacityDividesWrap(capacity);
    } else {
      var last := actions[|actions| - 1];
      var prior: State<T> :| Reaches(capacity, actions[..|actions| - 1], prior)
        && InBounds(capacity, prior) && Enabled(capacity, prior, last) && s == After(capacity, prior, last);
      ReachedInv(capacity, actions[..|actions| - 1], prior);
      StepKeeps(capacity, prior, last);
    }
  }

  /** The slots in the ring, oldest first. */
  ghost function InRing<T>(capacity: nat, s: State<T>): seq<T>
    requires 0 < capacity && Counted(capacity, s)
  {
    seq(|s.pushed| - |s.popped|, i requires 0 <= i < |s.pushed| - |s.popped| => s.data[Slot(capacity, |s.popped| + i)])
  }

  lemma RingContents<T>(capacity: nat, s: State<T>)
    requires Inv(capacity, s)
    ensures s.popped + InRing(capacity, s) == s.pushed
    ensures s.readIndex < WRAP && s.writeIndex < WRAP
    ensures WrapSub(s.writeIndex, s.readIndex) == |InRing(capacity, s)| <= capacity
  {
    hide Slot, ProducerOk, ConsumerOk;
    WrapDifference(|s.pushed|, |s.popped|, 0);
    assert InRing(capacity, s) == s.pushed[|s.popped|..];
  }

  /** Under every interleaving, with indices that wrap past 2^64: no step leaves the arrays, the slots
      popped so far followed by the slots in the ring are the slots pushed so far, and at most
      `capacity` slots are in the ring. */
  lemma EveryInterleavingIsFifo<T(!new)>(capacity: nat, actions: seq<Action<T>>, s: State<T>)
    requires ValidCapacity(capacity) && Reaches(capacity, actions, s)
    ensures InBounds(capacity, s) && Counted(capacity, s)
    ensures s.popped + InRing(capacity, s) == s.pushed
    ensures WrapSub(s.writeIndex, s.readIndex) == |InRing(capacity, s)| <= capacity
  {
    hide InRing, InBounds, Reaches;
    ReachedInv(capacity, actions, s);
    InvInBounds(capacity, s);
    RingContents(capacity, s);
  }

  /** Under every interleaving, the slots the producer is still copying into are never slots the
      consumer is still copying out of. */
  lemma EveryInterleavingIsRaceFree<T(!new)>(capacity: nat, actions: seq<Action<T>>, s: State<T>, k: nat, j: nat)
    requires ValidCapacity(capacity) && Reaches(capacity, actions, s)
    requires s.producer.PushCopying? && k < s.producer.count
    requires s.consumer.PopCopying? && j < s.consumer.count
    ensures SlotOf(capacity, s.producer.write, s.producer.count, k)
         != SlotOf(capacity, s.consumer.read, s.consumer.count, j)
  {
    ReachedInv(capacity, actions, s);
    CopyInSlot(capacity, s, k);
    SlotIsModulo(capacity, |s.popped|, s.consumer.count, j);
    assert Slot(capacity, |s.popped| + j) != Slot(capacity, |s.pushed| + k);
  }

  /** Under every interleaving, a push takes as many of its slots as there was room for when it
      looked, and a pop takes as many slots as were in the ring when it looked. */
  lemma EveryTransferIsMaximal<T(!new)>(capacity: nat, actions: seq<Action<T>>, s: State<T>)
    requires ValidCapacity(capacity) && Reaches(capacity, actions, s)
    ensures InBounds(capacity, s) && Counted(capacity, s)
    ensures s.producer.PushLoaded? ==>
              After(capacity, s, LoadReadForPush).producer.count
              == Min(|s.producer.slots|, capacity - |InRing(capacity, s)|)
    ensures s.consumer.PopLoaded? ==>
              After(capacity, s, LoadWriteForPop).consumer.count
              == Min(|InRing(capacity, s)|, s.consumer.maxSlots)
  {
    hide Reaches;
    ReachedInv(capacity, actions, s);
    InvInBounds(capacity, s);
    WrapDifference(|s.popped|, |s.pushed|, capacity);
    WrapDifference(|s.pushed|, |s.popped|, 0);
  }
}
