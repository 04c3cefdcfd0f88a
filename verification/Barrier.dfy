/** `Common::Barrier` of src/common/thread.h, with threads calling `Sync` again and again. What a thread
    does while it holds the mutex is one step; a sleeping thread may wake up without being notified. */
module Barrier {
  import opened Arithmetic

  /** Outside `Sync`; asleep in `condvar.wait`; or awake in it and about to take the mutex and look
      again. `gen` is `current_generation`. */
  datatype Place = Outside | Asleep(gen: nat) | Awake(gen: nat)

  /** How often the thread has entered `Sync` and returned from it. */
  datatype Thread = Thread(place: Place, entered: nat, completed: nat)

  /** The object and its users; `rounds` counts the generations without wrapping, for the proofs. */
  datatype State = State(waiting: nat, generation: nat, threads: seq<Thread>, rounds: nat)

  datatype Action = Enter(i: nat) | WakeSpuriously(i: nat) | LookAgain(i: nat)

  predicate Initial(s: State, n: nat) {
    && s.waiting == 0 && s.generation == 0 && s.rounds == 0
    && |s.threads| == n && forall i :: 0 <= i < n ==> s.threads[i] == Thread(Outside, 0, 0)
  }

  predicate Enabled(s: State, a: Action) {
    && a.i < |s.threads|
    && match a
       case Enter(i) => s.threads[i].place.Outside?
       case WakeSpuriously(i) => s.threads[i].place.Asleep?
       case LookAgain(i) => s.threads[i].place.Awake?
  }

  /** `condvar.notify_all`. */
  function NotifyAll(threads: seq<Thread>): (r: seq<Thread>)
    ensures |r| == |threads|
    ensures forall i :: 0 <= i < |r| ==>
      r[i] == if threads[i].place.Asleep? then threads[i].(place := Awake(threads[i].place.gen)) else threads[i]
  {
    seq(|threads|, i requires 0 <= i < |threads| =>
      if threads[i].place.Asleep? then threads[i].(place := Awake(threads[i].place.gen)) else threads[i])
  }

  function After(count: nat, s: State, a: Action): State
    requires Enabled(s, a)
  {
    var t := s.threads[a.i];
    match a
    case Enter(i) =>
      var waiting := (s.waiting + 1) % WRAP;
      if waiting == count then
        State(0, (s.generation + 1) % WRAP,
              NotifyAll(s.threads)[i := Thread(Outside, t.entered + 1, t.completed + 1)], s.rounds + 1)
      else
        State(waiting, s.generation, s.threads[i := Thread(Asleep(s.generation), t.entered + 1, t.completed)], s.rounds)
    case WakeSpuriously(i) => s.(threads := s.threads[i := t.(place := Awake(t.place.gen))])
    case LookAgain(i) =>
      if t.place.gen != s.generation then
        s.(threads := s.threads[i := Thread(Outside, t.entered, t.completed + 1)])
      else
        s.(threads := s.threads[i := t.(place := Asleep(t.place.gen))])
  }

  ghost predicate Reaches(count: nat, n: nat, actions: seq<Action>, s: State)
    decreases |actions|
  {
    if actions == [] then Initial(s, n) else
      var last := actions[|actions| - 1];
      exists prior :: Reaches(count, n, actions[..|actions| - 1], prior) && Enabled(prior, last)
                      && s == After(count, prior, last)
  }

  // ---- what is promised --------------------------------------------------------------------

  /** No thread has returned from its k-th `Sync` while another has not entered its k-th. */
  predicate Synchronized(s: State) {
    forall i, j :: 0 <= i < |s.threads| && 0 <= j < |s.threads| ==> s.threads[i].completed <= s.threads[j].entered
  }

  /** The thread's next step can take it into `Sync` or out of it. */
  predicate CanProceed(s: State, i: nat) {
    && i < |s.threads|
    && (s.threads[i].place.Outside? || (s.threads[i].place.Awake? && s.threads[i].place.gen != s.generation))
  }

  predicate SomeoneCanProceed(s: State) {
    exists i :: 0 <= i < |s.threads| && CanProceed(s, i)
  }

  // ---- the invariant -----------------------------------------------------------------------

  /** A thread is either between rounds, or waiting for the current round, or has yet to notice that
      the round it waited for is over. */
  predicate ThreadOk(rounds: nat, t: Thread) {
    match t.place
    case Outside => t.entered == t.completed == rounds
    case Asleep(gen) => t.entered == t.completed + 1 && t.completed == rounds && gen == rounds % WRAP
    case Awake(gen) =>
      && t.entered == t.completed + 1 && gen == t.completed % WRAP
      && (t.completed == rounds || t.completed + 1 == rounds)
  }

  /** How many threads have entered the current round. */
  function Arrived(threads: seq<Thread>, rounds: nat): (k: nat)
    ensures k <= |threads|
  {
    if threads == [] then 0 else (if threads[0].entered == rounds + 1 then 1 else 0) + Arrived(threads[1..], rounds)
  }

  ghost predicate Inv(count: nat, s: State) {
    && 1 <= count == |s.threads| < WRAP && s.generation == s.rounds % WRAP
    && (forall i :: 0 <= i < |s.threads| ==> ThreadOk(s.rounds, s.threads[i]))
    && s.waiting == Arrived(s.threads, s.rounds) < count
  }

  lemma {:induction false} ArrivedUpdate(threads: seq<Thread>, rounds: nat, i: nat, t: Thread)
    requires i < |threads|
    ensures Arrived(threads[i := t], rounds)
            == Arrived(threads, rounds) - (if threads[i].entered == rounds + 1 then 1 else 0)
                                        + (if t.entered == rounds + 1 then 1 else 0)
  {
    if i > 0 {
      ArrivedUpdate(threads[1..], rounds, i - 1, t);
      assert threads[i := t][1..] == threads[1..][i - 1 := t];
    } else {
      assert threads[0 := t][1..] == threads[1..];
    }
  }

  /** If all but one have arrived, everyone but the one that has not has arrived. */
  lemma {:induction false} AllButOne(threads: seq<Thread>, rounds: nat, i: nat, j: nat)
    requires i < |threads| && j < |threads| && i != j
    requires Arrived(threads, rounds) >= |threads| - 1 && threads[i].entered != rounds + 1
    ensures threads[j].entered == rounds + 1
  {
    if i > 0 && j > 0 {
      AllButOne(threads[1..], rounds, i - 1, j - 1);
    } else if i == 0 {
      EveryoneArrived(threads[1..], rounds, j - 1);
    } else if threads[0].entered != rounds + 1 {
      EveryoneArrived(threads[1..], rounds, i - 1);
    }
  }

  lemma {:induction false} EveryoneArrived(threads: seq<Thread>, rounds: nat, j: nat)
    requires j < |threads| && Arrived(threads, rounds) == |threads|
    ensures threads[j].entered == rounds + 1
  {
    if j > 0 {
      EveryoneArrived(threads[1..], rounds, j - 1);
    }
  }

  lemma {:induction false} NobodyArrived(threads: seq<Thread>, rounds: nat)
    requires forall i :: 0 <= i < |threads| ==> threads[i].entered != rounds + 1
    ensures Arrived(threads, rounds) == 0
  {
    if threads != [] {
      NobodyArrived(threads[1..], rounds);
    }
  }

  lemma {:induction false} SomeoneMissing(threads: seq<Thread>, rounds: nat) returns (i: nat)
    requires Arrived(threads, rounds) < |threads|
    ensures i < |threads| && threads[i].entered != rounds + 1
  {
    if threads[0].entered != rounds + 1 {
      return 0;
    }
    i := SomeoneMissing(threads[1..], rounds);
    i := i + 1;
  }

  lemma GenerationsDiffer(rounds: nat)
    ensures (rounds + 1) % WRAP != rounds % WRAP
    ensures (rounds % WRAP + 1) % WRAP == (rounds + 1) % WRAP
  {
  }

  /** The last thread to arrive opens the barrier. */
  lemma LastEnterKeeps(count: nat, s: State, i: nat)
    requires Inv(count, s) && Enabled(s, Enter(i)) && s.waiting + 1 == count
    ensures Inv(count, After(count, s, Enter(i)))
  {
    var s' := After(count, s, Enter(i));
    GenerationsDiffer(s.rounds);
    forall j | 0 <= j < |s'.threads|
      ensures ThreadOk(s'.rounds, s'.threads[j]) && s'.threads[j].entered != s'.rounds + 1
    {
      LastEnterThread(count, s, i, j);
    }
    hide ThreadOk;
    NobodyArrived(s'.threads, s'.rounds);
  }

  lemma LastEnterThread(count: nat, s: State, i: nat, j: nat)
    requires Inv(count, s) && Enabled(s, Enter(i)) && s.waiting + 1 == count && j < |s.threads|
    ensures var s' := After(count, s, Enter(i));
            j < |s'.threads| && ThreadOk(s'.rounds, s'.threads[j]) && s'.threads[j].entered != s'.rounds + 1
  {
    GenerationsDiffer(s.rounds);
    if j != i {
      AllButOne(s.threads, s.rounds, i, j);
      assert ThreadOk(s.rounds, s.threads[j]);
    }
  }

  lemma StepKeeps(count: nat, s: State, a: Action)
    requires Inv(count, s) && Enabled(s, a)
    ensures Inv(count, After(count, s, a))
  {
    hide Arrived;
    var s' := After(count, s, a);
    assert ThreadOk(s.rounds, s.threads[a.i]);
    if a.Enter? && s.waiting + 1 == count {
      LastEnterKeeps(count, s, a.i);
    } else {
      ArrivedUpdate(s.threads, s.rounds, a.i, s'.threads[a.i]);
      if a.LookAgain? && s.threads[a.i].completed + 1 == s.rounds {
        GenerationsDiffer(s.threads[a.i].completed);
      }
    }
  }

  lemma {:induction false} ReachedInv(count: nat, actions: seq<Action>, s: State)
    requires 1 <= count < WRAP && Reaches(count, count, actions, s)
    ensures Inv(count, s)
    decreases |actions|
  {
    if actions == [] {
      NobodyArrived(s.threads, 0);
    } else {
      var last := actions[|actions| - 1];
      var prior :| Reaches(count, count, actions[..|actions| - 1], prior) && Enabled(prior, last)
                   && s == After(count, prior, last);
      ReachedInv(count, actions[..|actions| - 1], prior);
      StepKeeps(count, prior, last);
    }
  }

  /** With exactly `count` threads, on every run: no thread leaves a round before all have entered it,
      the numbers of completed rounds differ by at most one, a sleeping thread is waiting for the
      current round, and some thread can always proceed. */
  lemma EveryRunSynchronizes(count: nat, actions: seq<Action>, s: State)
    requires 1 <= count < WRAP && Reaches(count, count, actions, s)
    ensures |s.threads| == count && Synchronized(s) && SomeoneCanProceed(s)
    ensures forall i, j :: 0 <= i < count && 0 <= j < count ==> s.threads[i].completed <= s.threads[j].completed + 1
    ensures forall i :: 0 <= i < count && s.threads[i].place.Asleep? ==> s.threads[i].place.gen == s.generation
  {
    ReachedInv(count, actions, s);
    assert forall i :: 0 <= i < count ==> ThreadOk(s.rounds, s.threads[i]);
    InvProceeds(count, s);
    hide Reaches, Arrived, SomeoneCanProceed;
  }

  lemma InvProceeds(count: nat, s: State)
    requires Inv(count, s)
    ensures SomeoneCanProceed(s)
  {
    var i := SomeoneMissing(s.threads, s.rounds);
    assert ThreadOk(s.rounds, s.threads[i]);
    GenerationsDiffer(s.threads[i].completed);
    assert CanProceed(s, i);
  }

  // ---- exactly when it works ---------------------------------------------------------------

  ghost predicate AlwaysWorks(count: nat, n: nat) {
    forall actions: seq<Action>, s: State :: Reaches(count, n, actions, s) ==> Synchronized(s) && SomeoneCanProceed(s)
  }

  /** Threads 0 .. k-1 have entered and sleep, the others have not moved. */
  predicate FirstAsleep(s: State, n: nat, k: nat) {
    && |s.threads| == n && k <= n && s.waiting == k && s.generation == 0
    && forall i :: 0 <= i < n ==> s.threads[i] == if i < k then Thread(Asleep(0), 1, 0) else Thread(Outside, 0, 0)
  }

  lemma ReachesNext(count: nat, n: nat, actions: seq<Action>, s: State, a: Action)
    requires Reaches(count, n, actions, s) && Enabled(s, a)
    ensures Reaches(count, n, actions + [a], After(count, s, a))
  {
    var longer := actions + [a];
    assert longer[..|longer| - 1] == actions && longer[|longer| - 1] == a;
  }

  lemma FallAsleep(count: nat, n: nat, k: nat, s: State)
    requires k < n < WRAP && (count == 0 || k + 1 < count) && FirstAsleep(s, n, k)
    ensures Enabled(s, Enter(k)) && FirstAsleep(After(count, s, Enter(k)), n, k + 1)
  {
  }

  lemma {:induction false} PutToSleep(count: nat, n: nat, k: nat) returns (actions: seq<Action>, s: State)
    requires k <= n < WRAP && (count == 0 || k < count)
    ensures Reaches(count, n, actions, s) && FirstAsleep(s, n, k)
  {
    if k == 0 {
      actions, s := [], State(0, 0, seq(n, _ => Thread(Outside, 0, 0)), 0);
    } else {
      var actions', s' := PutToSleep(count, n, k - 1);
      hide Reaches, FirstAsleep, After;
      FallAsleep(count, n, k - 1, s');
      actions, s := actions' + [Enter(k - 1)], After(count, s', Enter(k - 1));
      ReachesNext(count, n, actions', s', Enter(k - 1));
    }
  }

  /** The barrier keeps its promises exactly when as many threads use it as it was built for. */
  lemma WorksExactly(count: nat, n: nat)
    requires count < WRAP && 1 <= n < WRAP
    ensures AlwaysWorks(count, n) <==> n == count
  {
    hide Reaches;
    if n == count {
      forall actions: seq<Action>, s: State | Reaches(count, n, actions, s)
        ensures Synchronized(s) && SomeoneCanProceed(s)
      {
        EveryRunSynchronizes(count, actions, s);
      }
    } else if count == 0 || n < count {
      var actions, s := PutToSleep(count, n, n);
      assert !SomeoneCanProceed(s);
    } else {
      var actions, s := PutToSleep(count, n, count - 1);
      var last := Enter(count - 1);
      var s' := After(count, s, last);
      ReachesNext(count, n, actions, s, last);
      assert s'.threads[count - 1].completed == 1 && s'.threads[count].entered == 0;
    }
  }
}
