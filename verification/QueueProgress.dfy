/** What the operations of src/common/threadsafe_queue.h achieve, whatever the other thread does meanwhile:
    a pop that looks while `size` is positive returns the oldest value, one that looks at zero returns nothing,
    and a push appends its value and counts it. */
module QueueProgress {
  import opened Wrappers
  import opened ThreadsafeQueue

  /** The state after the actions, in order; None if one of them is not enabled or not safe. */
  function Ran<T>(s: State<T>, actions: seq<Action<T>>): Option<State<T>>
    decreases |actions|
  {
    if actions == [] then Some(s)
    else if !Enabled(s, actions[0]) || !Safe(s, actions[0]) then None
    else Ran(After(s, actions[0]), actions[1..])
  }

  /** Actions of the popper; the others are the pusher's. */
  predicate IsPop<T>(a: Action<T>) {
    a.CheckEmpty? || a.CountDown? || a.LoadRead? || a.MoveRead? || a.TakeValue? || a.ClearNext? || a.Delete?
  }

  function Pops<T>(actions: seq<Action<T>>): (n: nat)
    ensures n <= |actions|
  {
    if actions == [] then 0 else (if IsPop(actions[0]) then 1 else 0) + Pops(actions[1..])
  }

  function Pushes<T>(actions: seq<Action<T>>): nat {
    |actions| - Pops(actions)
  }

  function Ups<T>(actions: seq<Action<T>>): nat {
    if actions == [] then 0 else (if actions[0].CountUp? then 1 else 0) + Ups(actions[1..])
  }

  function Downs<T>(actions: seq<Action<T>>): nat {
    if actions == [] then 0 else (if actions[0].CountDown? then 1 else 0) + Downs(actions[1..])
  }

  /** How many of the seven steps of a pop are done. */
  function PopStage<T>(p: Popper<T>): nat {
    match p
    case PopIdle => 0
    case PopChecked => 1
    case PopCounted => 2
    case PopHolding(_) => 3
    case PopMoved(_) => 4
    case PopTaken(_, _) => 5
    case PopUnlinked(_, _) => 6
  }

  /** How many of the six steps of a push are done. */
  function PushStage<T>(p: Pusher<T>): nat {
    match p
    case PushIdle => 0
    case PushStarted(_) => 1
    case PushWritten(_) => 2
    case PushAllocated(_, _) => 3
    case PushLinked(_) => 4
    case PushAdvanced => 5
  }

  // ---- a pop -------------------------------------------------------------------------------

  /** A pop that looks goes on exactly when there is something to take, and otherwise changes nothing. */
  lemma LookDecides<T>(s: State<T>)
    requires Enabled(s, CheckEmpty)
    ensures s.size > 0 <==> After(s, CheckEmpty).popper.PopChecked?
    ensures s.size == 0 ==> After(s, CheckEmpty) == s
  {
  }

  /** One step of either thread, as the popper sees it. */
  lemma PopperSees<T>(s: State<T>, a: Action<T>)
    requires Inv(s) && Enabled(s, a) && Safe(s, a) && (s.popper.PopIdle? ==> s.size > 0)
    ensures var s', stage := After(s, a), PopStage(s.popper);
            && s.linked <= s'.linked && |s.popped| < |s.linked|
            && (!IsPop(a) ==> s'.popper == s.popper && s'.popped == s.popped && s'.size >= s.size)
            && (IsPop(a) && stage < 6 ==> PopStage(s'.popper) == stage + 1 && s'.popped == s.popped)
            && (IsPop(a) && stage == 6 ==> s'.popper == PopIdle && s'.popped == s.popped + [s.linked[|s.popped|]])
  {
    hide Deleted, Distinct, Owned, NodeOk, PusherOk;
  }

  lemma {:induction false} PopGoesOn<T>(s: State<T>, actions: seq<Action<T>>)
    requires Inv(s) && (s.popper.PopIdle? ==> s.size > 0) && Ran(s, actions).Some?
    requires PopStage(s.popper) + Pops(actions) == 7 && IsPop(actions[|actions| - 1])
    ensures |s.popped| < |s.linked|
    ensures var s' := Ran(s, actions).value;
            s'.popper == PopIdle && s'.popped == s.popped + [s.linked[|s.popped|]]
    decreases |actions|
  {
    hide Inv, After, Enabled, Safe;
    var a, rest := actions[0], actions[1..];
    PopperSees(s, a);
    StepKeeps(s, a);
    if rest != [] {
      assert rest[|rest| - 1] == actions[|actions| - 1];
      LastPopCounts(rest);
      StageIsBounded(s.popper);
      PopGoesOn(After(s, a), rest);
    }
  }

  lemma StageIsBounded<T>(p: Popper<T>)
    ensures PopStage(p) <= 6 && (PopStage(p) == 0 ==> p.PopIdle?)
  {
  }

  lemma {:induction false} LastPopCounts<T>(actions: seq<Action<T>>)
    requires actions != [] && IsPop(actions[|actions| - 1])
    ensures Pops(actions) > 0
  {
    if |actions| > 1 {
      assert actions[1..][|actions| - 2] == actions[|actions| - 1];
      LastPopCounts(actions[1..]);
    }
  }

  /** From every reachable state with `size > 0`, whatever the pusher does in between: when the popper has made
      the seven steps of a pop, it has taken exactly the oldest value, and counted it. */
  lemma EveryPopTakesOldest<T(!new)>(before: seq<Action<T>>, s: State<T>, actions: seq<Action<T>>)
    requires Reaches(before, s) && s.popper.PopIdle? && s.size > 0 && Ran(s, actions).Some?
    requires Pops(actions) == 7 && IsPop(actions[|actions| - 1])
    ensures |s.popped| < |s.linked|
    ensures var s' := Ran(s, actions).value;
            && s'.popper == PopIdle && s'.popped == s.popped + [s.linked[|s.popped|]]
            && s'.size == s.size + Ups(actions) - Downs(actions) && Downs(actions) == 1
  {
    hide Inv, After, Enabled, Safe, Reaches;
    ReachedInv(before, s);
    PopGoesOn(s, actions);
    SizeCounts(s, actions);
    DownsOfPop(s, actions);
  }

  lemma {:induction false} SizeCounts<T>(s: State<T>, actions: seq<Action<T>>)
    requires Ran(s, actions).Some?
    ensures Ran(s, actions).value.size == s.size + Ups(actions) - Downs(actions)
    decreases |actions|
  {
    if actions != [] {
      hide Deleted;
      SizeCounts(After(s, actions[0]), actions[1..]);
    }
  }

  /** A popper counts down once in a pop. */
  lemma {:induction false} DownsOfPop<T>(s: State<T>, actions: seq<Action<T>>)
    requires Inv(s) && (s.popper.PopIdle? ==> s.size > 0) && Ran(s, actions).Some?
    requires PopStage(s.popper) + Pops(actions) == 7
    ensures Downs(actions) == if PopStage(s.popper) <= 1 then 1 else 0
    decreases |actions|
  {
    hide Inv, After, Safe;
    if actions != [] {
      var a, rest := actions[0], actions[1..];
      PopperSees(s, a);
      StepKeeps(s, a);
      if IsPop(a) && PopStage(s.popper) == 6 {
        NoPops(rest);
      } else {
        DownsOfPop(After(s, a), rest);
      }
    }
  }

  lemma {:induction false} NoPops<T>(actions: seq<Action<T>>)
    requires Pops(actions) == 0
    ensures Downs(actions) == 0
  {
    if actions != [] {
      NoPops(actions[1..]);
    }
  }

  function Pop<T>(): seq<Action<T>> {
    [CheckEmpty, CountDown, LoadRead, MoveRead, TakeValue, ClearNext, Delete]
  }

  /** The popper is never held up: from wherever it stands it can finish by its own steps. */
  lemma {:induction false} PopCanFinish<T>(s: State<T>)
    requires Inv(s) && (s.popper.PopIdle? ==> s.size > 0)
    ensures PopStage(s.popper) <= 6 && Ran(s, Pop()[PopStage(s.popper)..]).Some?
    decreases 6 - PopStage(s.popper)
  {
    hide Inv, After, Safe;
    StageIsBounded(s.popper);
    var stage := PopStage(s.popper);
    var a, rest := Pop<T>()[stage], Pop<T>()[stage + 1..];
    StepKeeps(s, a);
    PopperSees(s, a);
    assert Pop<T>()[stage..][0] == a && Pop<T>()[stage..][1..] == rest;
    if stage == 6 {
      assert rest == [];
    } else {
      PopCanFinish(After(s, a));
    }
  }

  // ---- a push ------------------------------------------------------------------------------

  /** One step of either thread, as the pusher sees it. */
  lemma PusherSees<T>(s: State<T>, a: Action<T>)
    requires Inv(s) && Enabled(s, a) && Safe(s, a)
    ensures var s', stage := After(s, a), PushStage(s.pusher);
            && (IsPop(a) ==> s'.pusher == s.pusher && s'.linked == s.linked)
            && (!IsPop(a) && stage == 0 ==> a.StartPush? && s'.pusher == PushStarted(a.value) && s'.linked == s.linked)
            && (!IsPop(a) && 0 < stage < 3 ==>
                  PushStage(s'.pusher) == stage + 1 && Pushed(s'.pusher) == Pushed(s.pusher) && s'.linked == s.linked)
            && (!IsPop(a) && stage == 3 ==> s'.pusher.PushLinked? && s'.linked == s.linked + Pushed(s.pusher))
            && (!IsPop(a) && stage > 3 ==> PushStage(s'.pusher) == (stage + 1) % 6 && s'.linked == s.linked)
  {
    hide Inv, Deleted;
  }

  /** The value that a push under way has still to link. */
  function Pushed<T>(p: Pusher<T>): seq<T> {
    if p.PushStarted? || p.PushWritten? || p.PushAllocated? then [p.value] else []
  }

  /** The value of the first push that starts. */
  function Started<T>(actions: seq<Action<T>>): seq<T> {
    if actions == [] then [] else if actions[0].StartPush? then [actions[0].value] else Started(actions[1..])
  }

  lemma {:induction false} PushGoesOn<T>(s: State<T>, actions: seq<Action<T>>)
    requires Inv(s) && Ran(s, actions).Some? && PushStage(s.pusher) + Pushes(actions) == 6
    ensures var s' := Ran(s, actions).value;
            && s'.pusher == PushIdle
            && s'.linked == s.linked + if s.pusher == PushIdle then Started(actions) else Pushed(s.pusher)
    decreases |actions|
  {
    hide Inv, After, Enabled, Safe;
    PushStageBounded(s.pusher);
    if actions != [] {
      var a, rest := actions[0], actions[1..];
      PusherSees(s, a);
      StepKeeps(s, a);
      if !IsPop(a) && PushStage(s.pusher) == 5 {
        OnlyPops(After(s, a), rest);
      } else {
        PushGoesOn(After(s, a), rest);
      }
    }
  }

  lemma PushStageBounded<T>(p: Pusher<T>)
    ensures PushStage(p) <= 5 && (PushStage(p) == 0 <==> p.PushIdle?)
  {
  }

  lemma {:induction false} OnlyPops<T>(s: State<T>, actions: seq<Action<T>>)
    requires Inv(s) && Ran(s, actions).Some? && Pushes(actions) == 0
    ensures var s' := Ran(s, actions).value; s'.pusher == s.pusher && s'.linked == s.linked
    decreases |actions|
  {
    hide Inv, After, Enabled, Safe;
    if actions != [] {
      PusherSees(s, actions[0]);
      StepKeeps(s, actions[0]);
      OnlyPops(After(s, actions[0]), actions[1..]);
    }
  }

  /** From every reachable state in which no push is under way, whatever the popper does in between: when the pusher
      has made the six steps of a push, its value is the newest in the queue. */
  lemma EveryPushAppends<T(!new)>(before: seq<Action<T>>, s: State<T>, actions: seq<Action<T>>)
    requires Reaches(before, s) && s.pusher == PushIdle && Ran(s, actions).Some? && Pushes(actions) == 6
    ensures var s' := Ran(s, actions).value;
            && s'.pusher == PushIdle && |Started(actions)| == 1 && s'.linked == s.linked + Started(actions)
            && s'.size == s.size + 1 - Downs(actions)
  {
    hide Inv, After, Enabled, Safe, Reaches;
    ReachedInv(before, s);
    PushGoesOn(s, actions);
    SizeCounts(s, actions);
    UpsOfPush(s, actions);
  }

  lemma {:induction false} UpsOfPush<T>(s: State<T>, actions: seq<Action<T>>)
    requires Inv(s) && Ran(s, actions).Some? && PushStage(s.pusher) + Pushes(actions) == 6
    ensures Ups(actions) == 1 && (s.pusher == PushIdle ==> |Started(actions)| == 1)
    decreases |actions|
  {
    hide Inv, After, Safe;
    PushStageBounded(s.pusher);
    if actions != [] {
      var a, rest := actions[0], actions[1..];
      PusherSees(s, a);
      StepKeeps(s, a);
      if !IsPop(a) && PushStage(s.pusher) == 5 {
        NoPushes(rest);
      } else {
        UpsOfPush(After(s, a), rest);
      }
    }
  }

  lemma {:induction false} NoPushes<T>(actions: seq<Action<T>>)
    requires Pushes(actions) == 0
    ensures Ups(actions) == 0
  {
    if actions != [] {
      NoPushes(actions[1..]);
    }
  }

  function Push<T>(value: T, node: Address): seq<Action<T>> {
    [StartPush(value), WriteCurrent, Allocate(node), Link, AdvanceWrite, CountUp]
  }

  /** Nor is the pusher, as long as an address is free. */
  lemma {:induction false} PushCanFinish<T>(s: State<T>, value: T, node: Address)
    requires Inv(s) && (PushStage(s.pusher) <= 2 ==> node !in s.heap)
    ensures PushStage(s.pusher) <= 5 && Ran(s, Push(value, node)[PushStage(s.pusher)..]).Some?
    decreases 5 - PushStage(s.pusher)
  {
    hide Inv, Safe;
    PushStageBounded(s.pusher);
    var stage := PushStage(s.pusher);
    var a, rest := Push(value, node)[stage], Push(value, node)[stage + 1..];
    StepKeeps(s, a);
    PusherSees(s, a);
    assert Push(value, node)[stage..][0] == a && Push(value, node)[stage..][1..] == rest;
    if stage == 5 {
      assert rest == [];
    } else {
      if stage < 2 {
        WriteAddsNothing(s, a);
      }
      PushCanFinish(After(s, a), value, node);
    }
  }

  lemma WriteAddsNothing<T>(s: State<T>, a: Action<T>)
    requires Enabled(s, a) && Safe(s, a) && (a.StartPush? || a.WriteCurrent?)
    ensures After(s, a).heap.Keys == s.heap.Keys
  {
  }

  // ---- both --------------------------------------------------------------------------------

  /** The six steps of a push, and then the seven of a pop, with nothing in between: the value pushed is appended and
      the oldest is returned, and `size` is what it was. */
  lemma PushThenPop<T(!new)>(before: seq<Action<T>>, s: State<T>, value: T, node: Address)
    requires Reaches(before, s) && s.pusher == PushIdle && s.popper == PopIdle && node !in s.heap
    ensures var s1 := Ran(s, Push(value, node));
            && s1.Some? && s1.value.linked == s.linked + [value] && s1.value.size == s.size + 1
            && var s2 := Ran(s1.value, Pop());
               && s2.Some? && |s2.value.popped| == |s.popped| + 1 && s2.value.popped <= s.linked + [value]
               && s2.value.size == s.size
  {
    hide Inv, After, Enabled, Safe, Reaches, Ran;
    ReachedInv(before, s);
    PushCanFinish(s, value, node);
    assert Push(value, node)[0..] == Push(value, node);
    var s1 := Ran(s, Push(value, node)).value;
    RanKeeps(s, Push(value, node));
    PushIsSix(value, node);
    EveryPushAppends(before, s, Push(value, node));
    OnlyPushes(s, Push(value, node));
    PopCanFinish(s1);
    assert Pop<T>()[0..] == Pop<T>();
    PopIsSeven<T>();
    PopGoesOn(s1, Pop());
    RanKeeps(s1, Pop());
    PoppedIsPrefix(Ran(s1, Pop()).value);
    OnlyPops(s1, Pop());
    SizeCounts(s1, Pop());
  }

  lemma PoppedIsPrefix<T>(s: State<T>)
    requires Inv(s)
    ensures s.popped <= s.linked
  {
  }

  lemma PushIsSix<T>(value: T, node: Address)
    ensures var push := Push(value, node);
            Pops(push) == 0 && Pushes(push) == 6 && Ups(push) == 1 && Downs(push) == 0 && Started(push) == [value]
  {
    var p := Push(value, node);
    for k := 6 downto 0
      invariant Pops(p[k..]) == 0 && Ups(p[k..]) == (if k <= 5 then 1 else 0) && Downs(p[k..]) == 0
    {
      assert p[k..][1..] == p[k + 1..];
    }
    assert p[0..] == p;
  }

  lemma PopIsSeven<T>()
    ensures Pops(Pop<T>()) == 7 && Ups(Pop<T>()) == 0 && Downs(Pop<T>()) == 1
  {
    var p := Pop<T>();
    for k := 7 downto 0
      invariant Pops(p[k..]) == 7 - k && Ups(p[k..]) == 0 && Downs(p[k..]) == if k <= 1 then 1 else 0
    {
      assert p[k..][1..] == p[k + 1..];
    }
    assert p[0..] == p;
  }

  lemma {:induction false} RanKeeps<T>(s: State<T>, actions: seq<Action<T>>)
    requires Inv(s) && Ran(s, actions).Some?
    ensures Inv(Ran(s, actions).value)
    decreases |actions|
  {
    if actions != [] {
      hide Inv, After, Enabled, Safe;
      StepKeeps(s, actions[0]);
      RanKeeps(After(s, actions[0]), actions[1..]);
    }
  }

  lemma {:induction false} OnlyPushes<T>(s: State<T>, actions: seq<Action<T>>)
    requires Ran(s, actions).Some? && Pops(actions) == 0
    ensures var s' := Ran(s, actions).value; s'.popper == s.popper && s'.popped == s.popped
    decreases |actions|
  {
    if actions != [] {
      OnlyPushes(After(s, actions[0]), actions[1..]);
    }
  }

  /** When neither thread is at work, `size` is the number of values pushed and not yet popped; so after a whole
      push there is always something for the next pop to find. */
  lemma EveryQuietSizeIsExact<T(!new)>(before: seq<Action<T>>, s: State<T>)
    requires Reaches(before, s) && s.pusher == PushIdle && s.popper == PopIdle
    ensures s.popped <= s.linked && s.size == |s.linked| - |s.popped|
  {
    ReachedInv(before, s);
    hide Reaches;
  }
}
