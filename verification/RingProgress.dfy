/** What the operations of src/common/ring_buffer.h achieve when producer and consumer run concurrently: a push
    appends the first of its slots, at least as many as there was room for when it began, and a pop returns the
    oldest slots, at least as many as there were; neither thread is ever held up. */
module RingProgress {
  import opened Arithmetic
  import opened RingBufferConcurrent
  import opened RingIndex
  import opened Wrappers

  /** The state after the actions, in order; None if one of them is not enabled. */
  ghost function Ran<T>(capacity: nat, s: State<T>, actions: seq<Action<T>>): Option<State<T>>
    decreases |actions|
  {
    if actions == [] then Some(s)
    else if !InBounds(capacity, s) || !Enabled(capacity, s, actions[0]) then None
    else Ran(capacity, After(capacity, s, actions[0]), actions[1..])
  }

  predicate IsPush<T>(a: Action<T>) {
    a.LoadWriteForPush? || a.LoadReadForPush? || a.CopyIn? || a.StoreWrite?
  }

  /** The actions end with the end of a push, the only one among them. */
  predicate EndsPush<T(==)>(actions: seq<Action<T>>) {
    actions != [] && actions[|actions| - 1] == StoreWrite && StoreWrite !in actions[..|actions| - 1]
  }

  predicate EndsPop<T(==)>(actions: seq<Action<T>>) {
    actions != [] && actions[|actions| - 1] == StoreRead && StoreRead !in actions[..|actions| - 1]
  }

  /** The slots offered by the first push that begins. */
  function Offered<T>(actions: seq<Action<T>>): seq<T> {
    if actions == [] then [] else if actions[0].LoadWriteForPush? then actions[0].slots else Offered(actions[1..])
  }

  /** The slots asked for by the first pop that begins. */
  function Asked<T>(actions: seq<Action<T>>): nat {
    if actions == [] then 0 else if actions[0].LoadReadForPop? then actions[0].maxSlots else Asked(actions[1..])
  }

  // ---- a push ------------------------------------------------------------------------------

  /** One step of either thread, as the producer sees it. */
  lemma ProducerSees<T>(capacity: nat, s: State<T>, a: Action<T>)
    requires Inv(capacity, s) && InBounds(capacity, s) && Enabled(capacity, s, a)
    ensures var s', p := After(capacity, s, a), s.producer;
            && |s'.popped| >= |s.popped|
            && (!IsPush(a) ==> s'.producer == p && s'.pushed == s.pushed)
            && (a.LoadWriteForPush? ==>
                  s'.producer.PushLoaded? && s'.producer.slots == a.slots && s'.pushed == s.pushed)
            && (a.LoadReadForPush? ==>
                  && s'.producer.PushCopying? && s'.producer.slots == p.slots && s'.pushed == s.pushed
                  && s'.producer.count == Min(|p.slots|, capacity - (|s.pushed| - |s.popped|)))
            && (a.CopyIn? ==>
                  && s'.producer.PushCopying? && s'.producer.slots == p.slots && s'.producer.count == p.count
                  && s'.pushed == s.pushed)
            && (a.StoreWrite? ==> s'.producer == PushIdle && s'.pushed == s.pushed + p.slots[..p.count])
  {
    hide SlotOf, Slot, Stored, ConsumerOk;
    WrapDifference(|s.popped|, |s.pushed|, capacity);
  }

  lemma {:induction false} PushGoesOn<T>(
      capacity: nat, s: State<T>, actions: seq<Action<T>>, slots: seq<T>, room: nat)
    requires Inv(capacity, s) && Ran(capacity, s, actions).Some? && EndsPush(actions)
    requires slots == if s.producer.PushIdle? then Offered(actions) else s.producer.slots
    requires if s.producer.PushCopying? then Min(|slots|, room) <= s.producer.count
             else room + |s.pushed| - |s.popped| <= capacity
    ensures var s' := Ran(capacity, s, actions).value;
            var n := |s'.pushed| - |s.pushed|;
            && s'.producer == PushIdle && Min(|slots|, room) <= n <= |slots| && s'.pushed == s.pushed + slots[..n]
    decreases |actions|
  {
    hide Inv, InBounds, After;
    var a, rest := actions[0], actions[1..];
    StepKeeps(capacity, s, a);
    ProducerSees(capacity, s, a);
    CopyingFits(capacity, s);
    var s' := After(capacity, s, a);
    if rest != [] {
      assert a != StoreWrite by { assert a in actions[..|actions| - 1]; }
      assert rest[..|rest| - 1] == actions[..|actions| - 1][1..];
      PushGoesOn(capacity, s', rest, slots, room);
    }
  }

  lemma CopyingFits<T>(capacity: nat, s: State<T>)
    requires Inv(capacity, s)
    ensures s.producer.PushCopying? ==> s.producer.count <= |s.producer.slots|
    ensures s.consumer.PopCopying? ==> |s.popped| + s.consumer.count <= |s.pushed|
    ensures s.popped <= s.pushed
  {
  }

  /** From every reachable state without a push under way, whatever the consumer does in between: when a push is
      through, the first of the slots it was offered have been appended, in order, and at least as many as there was
      room for. */
  lemma EveryPushAppends<T(!new)>(capacity: nat, before: seq<Action<T>>, s: State<T>, actions: seq<Action<T>>)
    requires ValidCapacity(capacity) && Reaches(capacity, before, s) && s.producer == PushIdle
    requires Ran(capacity, s, actions).Some? && EndsPush(actions)
    ensures |s.popped| <= |s.pushed| <= |s.popped| + capacity
    ensures var s', slots := Ran(capacity, s, actions).value, Offered(actions);
            var n := |s'.pushed| - |s.pushed|;
            && Min(|slots|, capacity - (|s.pushed| - |s.popped|)) <= n <= |slots|
            && s'.producer == PushIdle && s'.pushed == s.pushed + slots[..n]
  {
    ReachedInv(capacity, before, s);
    hide Inv, InBounds, After, Reaches, Ran;
    InvCounts(capacity, s);
    PushGoesOn(capacity, s, actions, Offered(actions), capacity - (|s.pushed| - |s.popped|));
  }

  lemma InvCounts<T>(capacity: nat, s: State<T>)
    requires Inv(capacity, s)
    ensures |s.popped| <= |s.pushed| <= |s.popped| + capacity
  {
  }

  /** The producer alone can always begin a push, and finish it. */
  lemma {:induction false} PushCanFinish<T>(capacity: nat, s: State<T>, slots: seq<T>, k: nat)
      returns (actions: seq<Action<T>>)
    requires Inv(capacity, s)
    requires s.producer.PushCopying? ==>
               k <= s.producer.count && forall i :: 0 <= i < k ==> i in s.producer.done
    ensures Ran(capacity, s, actions).Some? && EndsPush(actions) && forall a :: a in actions ==> IsPush(a)
    ensures s.producer.PushIdle? ==> Offered(actions) == slots
    decreases if s.producer.PushIdle? then 2 else if s.producer.PushLoaded? then 1 else 0,
              if s.producer.PushCopying? then s.producer.count - k else 0
  {
    hide Inv;
    if s.producer.PushIdle? {
      var a := LoadWriteForPush(slots);
      StepKeeps(capacity, s, a);
      var rest := PushCanFinish(capacity, After(capacity, s, a), slots, 0);
      actions := PushFirst(capacity, s, a, rest);
    } else if s.producer.PushLoaded? {
      var a := LoadReadForPush;
      StepKeeps(capacity, s, a);
      ProducerSees(capacity, s, a);
      var rest := PushCanFinish(capacity, After(capacity, s, a), slots, 0);
      actions := PushFirst(capacity, s, a, rest);
    } else if k == s.producer.count {
      StepKeeps(capacity, s, StoreWrite);
      actions := [StoreWrite];
      assert Ran(capacity, After(capacity, s, StoreWrite), []).Some?;
    } else if k in s.producer.done {
      actions := PushCanFinish(capacity, s, slots, k + 1);
    } else {
      var a := CopyIn(k);
      StepKeeps(capacity, s, a);
      var rest := PushCanFinish(capacity, After(capacity, s, a), slots, k + 1);
      actions := PushFirst(capacity, s, a, rest);
    }
  }

  lemma PushFirst<T>(capacity: nat, s: State<T>, a: Action<T>, rest: seq<Action<T>>) returns (actions: seq<Action<T>>)
    requires InBounds(capacity, s) && Enabled(capacity, s, a) && IsPush(a) && a != StoreWrite
    requires Ran(capacity, After(capacity, s, a), rest).Some? && EndsPush(rest) && forall b :: b in rest ==> IsPush(b)
    ensures Ran(capacity, s, actions).Some? && EndsPush(actions) && forall b :: b in actions ==> IsPush(b)
    ensures actions == [a] + rest
  {
    hide After, InBounds, Enabled;
    actions := [a] + rest;
    assert actions[1..] == rest;
    assert actions[..|actions| - 1] == [a] + rest[..|rest| - 1];
  }

  // ---- a pop -------------------------------------------------------------------------------

  /** One step of either thread, as the consumer sees it. */
  lemma ConsumerSees<T>(capacity: nat, s: State<T>, a: Action<T>)
    requires Inv(capacity, s) && InBounds(capacity, s) && Enabled(capacity, s, a)
    ensures var s', c := After(capacity, s, a), s.consumer;
            && |s'.pushed| >= |s.pushed|
            && (IsPush(a) ==> s'.consumer == c && s'.popped == s.popped)
            && (a.LoadReadForPop? ==>
                  s'.consumer.PopLoaded? && s'.consumer.maxSlots == a.maxSlots && s'.popped == s.popped)
            && (a.LoadWriteForPop? ==>
                  && s'.consumer.PopCopying? && s'.popped == s.popped
                  && s'.consumer.count == Min(|s.pushed| - |s.popped|, c.maxSlots))
            && (a.CopyOut? ==> s'.consumer.PopCopying? && s'.consumer.count == c.count && s'.popped == s.popped)
            && (a.StoreRead? ==> s'.consumer == PopIdle && |s'.popped| == |s.popped| + c.count)
  {
    hide SlotOf, Slot, Stored, ProducerOk;
    WrapDifference(|s.pushed|, |s.popped|, 0);
  }

  lemma {:induction false} PopGoesOn<T>(
      capacity: nat, s: State<T>, actions: seq<Action<T>>, most: nat, least: nat)
    requires Inv(capacity, s) && Ran(capacity, s, actions).Some? && EndsPop(actions)
    requires s.consumer.PopIdle? ==> most == Asked(actions)
    requires s.consumer.PopLoaded? ==> most == s.consumer.maxSlots
    requires if s.consumer.PopCopying? then Min(most, least) <= s.consumer.count <= most
             else least <= |s.pushed| - |s.popped|
    ensures var s' := Ran(capacity, s, actions).value;
            var n := |s'.popped| - |s.popped|;
            s'.consumer == PopIdle && Min(most, least) <= n <= most && s'.popped <= s'.pushed
    decreases |actions|
  {
    hide Inv, InBounds, After;
    var a, rest := actions[0], actions[1..];
    StepKeeps(capacity, s, a);
    ConsumerSees(capacity, s, a);
    var s' := After(capacity, s, a);
    CopyingFits(capacity, s');
    if rest != [] {
      assert a != StoreRead by { assert a in actions[..|actions| - 1]; }
      assert rest[..|rest| - 1] == actions[..|actions| - 1][1..];
      PopGoesOn(capacity, s', rest, most, least);
    }
  }

  /** From every reachable state without a pop under way, whatever the producer does in between: when a pop is
      through, it has returned the oldest slots, in order, at most as many as it asked for and at least as many of
      these as there were. */
  lemma EveryPopTakesOldest<T(!new)>(capacity: nat, before: seq<Action<T>>, s: State<T>, actions: seq<Action<T>>)
    requires ValidCapacity(capacity) && Reaches(capacity, before, s) && s.consumer == PopIdle
    requires Ran(capacity, s, actions).Some? && EndsPop(actions)
    ensures |s.popped| <= |s.pushed|
    ensures var s' := Ran(capacity, s, actions).value;
            var n := |s'.popped| - |s.popped|;
            && s'.consumer == PopIdle && s'.popped <= s'.pushed
            && Min(Asked(actions), |s.pushed| - |s.popped|) <= n <= Asked(actions)
  {
    ReachedInv(capacity, before, s);
    hide Inv, InBounds, After, Reaches, Ran;
    InvCounts(capacity, s);
    PopGoesOn(capacity, s, actions, Asked(actions), |s.pushed| - |s.popped|);
  }

  /** The consumer alone can always begin a pop, and finish it. */
  lemma {:induction false} PopCanFinish<T>(capacity: nat, s: State<T>, maxSlots: nat, k: nat)
      returns (actions: seq<Action<T>>)
    requires Inv(capacity, s)
    requires s.consumer.PopCopying? ==>
               k <= s.consumer.count && forall i :: 0 <= i < k ==> i in s.consumer.out
    ensures Ran(capacity, s, actions).Some? && EndsPop(actions) && forall a :: a in actions ==> !IsPush(a)
    ensures s.consumer.PopIdle? ==> Asked(actions) == maxSlots
    decreases if s.consumer.PopIdle? then 2 else if s.consumer.PopLoaded? then 1 else 0,
              if s.consumer.PopCopying? then s.consumer.count - k else 0
  {
    hide Inv;
    if s.consumer.PopIdle? {
      var a := LoadReadForPop(maxSlots);
      StepKeeps(capacity, s, a);
      var rest := PopCanFinish(capacity, After(capacity, s, a), maxSlots, 0);
      actions := PopFirst(capacity, s, a, rest);
    } else if s.consumer.PopLoaded? {
      var a := LoadWriteForPop;
      StepKeeps(capacity, s, a);
      ConsumerSees(capacity, s, a);
      var rest := PopCanFinish(capacity, After(capacity, s, a), maxSlots, 0);
      actions := PopFirst(capacity, s, a, rest);
    } else if k == s.consumer.count {
      StepKeeps(capacity, s, StoreRead);
      actions := [StoreRead];
      assert Ran(capacity, After(capacity, s, StoreRead), []).Some?;
    } else if k in s.consumer.out {
      actions := PopCanFinish(capacity, s, maxSlots, k + 1);
    } else {
      var a := CopyOut(k);
      StepKeeps(capacity, s, a);
      var rest := PopCanFinish(capacity, After(capacity, s, a), maxSlots, k + 1);
      actions := PopFirst(capacity, s, a, rest);
    }
  }

  lemma PopFirst<T>(capacity: nat, s: State<T>, a: Action<T>, rest: seq<Action<T>>) returns (actions: seq<Action<T>>)
    requires InBounds(capacity, s) && Enabled(capacity, s, a) && !IsPush(a) && a != StoreRead
    requires Ran(capacity, After(capacity, s, a), rest).Some? && EndsPop(rest) && forall b :: b in rest ==> !IsPush(b)
    ensures Ran(capacity, s, actions).Some? && EndsPop(actions) && forall b :: b in actions ==> !IsPush(b)
    ensures actions == [a] + rest
  {
    hide After, InBounds, Enabled;
    actions := [a] + rest;
    assert actions[1..] == rest;
    assert actions[..|actions| - 1] == [a] + rest[..|rest| - 1];
  }
}
