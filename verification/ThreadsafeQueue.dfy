/** src/common/threadsafe_queue.h: the linked queue with one popper and, through the write lock of
    `MPSCQueue`, any number of pushers taking turns. A step is one access to shared memory. The heap
    is explicit: a node that was deleted is no longer in it, so a step that follows a stale pointer
    is a step that is not `Safe`. */
module ThreadsafeQueue {
  import opened Wrappers
  import opened Arithmetic

  type Address = a: nat | 0 < a < WRAP witness 1

  /** `ElementPtr`; `current` is None until it is assigned. */
  datatype Node<T> = Node(current: Option<T>, next: Option<Address>)

  /** Where the pusher that holds the write lock stands (lines 43-51). */
  datatype Pusher<T> =
    | PushIdle
    | PushStarted(value: T)
    | PushWritten(value: T)
    | PushAllocated(value: T, node: Address)
    | PushLinked(node: Address)
    | PushAdvanced

  /** Where the popper stands (lines 66-76). */
  datatype Popper<T> =
    | PopIdle
    | PopChecked
    | PopCounted
    | PopHolding(tmp: Address)
    | PopMoved(tmp: Address)
    | PopTaken(tmp: Address, value: T)
    | PopUnlinked(tmp: Address, value: T)

  /** The object, the threads, and the history: the values linked in and the values returned.
      `chain` lists the nodes from the oldest that is not deleted to the newest; no step reads it. */
  datatype State<T> = State(heap: map<Address, Node<T>>, writePtr: Address, readPtr: Option<Address>, size: nat,
                            pusher: Pusher<T>, popper: Popper<T>,
                            chain: seq<Address>, linked: seq<T>, popped: seq<T>)

  datatype Action<T> =
    | StartPush(value: T)          // takes the write lock
    | WriteCurrent
    | Allocate(node: Address)
    | Link
    | AdvanceWrite
    | CountUp                      // releases the write lock
    | CheckEmpty
    | CountDown
    | LoadRead
    | MoveRead
    | TakeValue
    | ClearNext
    | Delete

  predicate Initial<T(==)>(s: State<T>) {
    && s.heap == map[s.writePtr := Node(None, None)] && s.readPtr == Some(s.writePtr) && s.size == 0
    && s.pusher == PushIdle && s.popper == PopIdle && s.chain == [s.writePtr] && s.linked == [] && s.popped == []
  }

  predicate Enabled<T>(s: State<T>, a: Action<T>) {
    match a
    case StartPush(_) => s.pusher.PushIdle?
    case WriteCurrent => s.pusher.PushStarted?
    case Allocate(node) => s.pusher.PushWritten? && node !in s.heap
    case Link => s.pusher.PushAllocated?
    case AdvanceWrite => s.pusher.PushLinked?
    case CountUp => s.pusher.PushAdvanced?
    case CheckEmpty => s.popper.PopIdle?
    case CountDown => s.popper.PopChecked?
    case LoadRead => s.popper.PopCounted?
    case MoveRead => s.popper.PopHolding?
    case TakeValue => s.popper.PopMoved?
    case ClearNext => s.popper.PopTaken?
    case Delete => s.popper.PopUnlinked?
  }

  /** The step touches live nodes only, finds what it needs there, and does not wrap the counter. */
  predicate Safe<T>(s: State<T>, a: Action<T>) {
    match a
    case WriteCurrent => s.writePtr in s.heap
    case Link => s.writePtr in s.heap
    case CountUp => s.size + 1 < WRAP
    case CountDown => s.size > 0
    case LoadRead => s.readPtr.Some?
    case MoveRead => s.popper.PopHolding? && s.popper.tmp in s.heap && s.heap[s.popper.tmp].next.Some?
    case TakeValue => s.popper.PopMoved? && s.popper.tmp in s.heap && s.heap[s.popper.tmp].current.Some?
    case ClearNext => s.popper.PopTaken? && s.popper.tmp in s.heap
    case Delete => s.popper.PopUnlinked? && s.popper.tmp in s.heap
    case _ => true
  }

  /** `~ElementPtr`: deleting a node deletes the nodes it links to. */
  function Deleted<T>(heap: map<Address, Node<T>>, node: Address): map<Address, Node<T>>
    requires node in heap
    decreases |heap|
  {
    var rest := heap - {node};
    assert rest.Keys == heap.Keys - {node};
    var next := heap[node].next;
    if next.Some? && next.value in rest then Deleted(rest, next.value) else rest
  }

  function After<T>(s: State<T>, a: Action<T>): State<T>
    requires Enabled(s, a) && Safe(s, a)
  {
    match a
    case StartPush(value) => s.(pusher := PushStarted(value))
    case WriteCurrent =>
      s.(heap := s.heap[s.writePtr := s.heap[s.writePtr].(current := Some(s.pusher.value))],
         pusher := PushWritten(s.pusher.value))
    case Allocate(node) =>
      s.(heap := s.heap[node := Node(None, None)], pusher := PushAllocated(s.pusher.value, node))
    case Link =>
      s.(heap := s.heap[s.writePtr := s.heap[s.writePtr].(next := Some(s.pusher.node))],
         chain := s.chain + [s.pusher.node], linked := s.linked + [s.pusher.value],
         pusher := PushLinked(s.pusher.node))
    case AdvanceWrite => s.(writePtr := s.pusher.node, pusher := PushAdvanced)
    case CountUp => s.(size := s.size + 1, pusher := PushIdle)
    case CheckEmpty => if s.size == 0 then s else s.(popper := PopChecked)
    case CountDown => s.(size := s.size - 1, popper := PopCounted)
    case LoadRead => s.(popper := PopHolding(s.readPtr.value))
    case MoveRead => s.(readPtr := s.heap[s.popper.tmp].next, popper := PopMoved(s.popper.tmp))
    case TakeValue => s.(popper := PopTaken(s.popper.tmp, s.heap[s.popper.tmp].current.value))
    case ClearNext =>
      s.(heap := s.heap[s.popper.tmp := s.heap[s.popper.tmp].(next := None)],
         popper := PopUnlinked(s.popper.tmp, s.popper.value))
    case Delete =>
      s.(heap := Deleted(s.heap, s.popper.tmp), popper := PopIdle,
         chain := if s.chain == [] then [] else s.chain[1..], popped := s.popped + [s.popper.value])
  }

  // ---- the invariant -----------------------------------------------------------------------

  predicate Distinct(chain: seq<Address>) {
    forall i, j :: 0 <= i < j < |chain| ==> chain[i] != chain[j]
  }

  function Uncounted<T>(p: Pusher<T>): nat {
    if p.PushLinked? || p.PushAdvanced? then 1 else 0
  }

  function Claimed<T>(p: Popper<T>): nat {
    if p.PopIdle? || p.PopChecked? then 0 else 1
  }

  /** The `i`-th node of the chain holds its value and links to the next node; a popper cuts the link
      of the first one just before it deletes it. */
  ghost predicate NodeOk<T>(s: State<T>, i: nat)
    requires i + 1 < |s.chain| && |s.popped| + i < |s.linked|
  {
    && s.chain[i] in s.heap
    && s.heap[s.chain[i]].current == Some(s.linked[|s.popped| + i])
    && s.heap[s.chain[i]].next == if i == 0 && s.popper.PopUnlinked? then None else Some(s.chain[i + 1])
  }

  /** The nodes from the oldest to the newest form the list of the values not yet popped. */
  ghost predicate Chained<T>(s: State<T>) {
    && |s.chain| == |s.linked| - |s.popped| + 1 && |s.popped| <= |s.linked|
    && Distinct(s.chain)
    && (forall i :: 0 <= i < |s.chain| - 1 ==> NodeOk(s, i))
    && s.chain[|s.chain| - 1] in s.heap && s.heap[s.chain[|s.chain| - 1]].next == None
  }

  ghost predicate PusherOk<T>(s: State<T>) {
    && |s.chain| >= 1 && (s.pusher.PushLinked? ==> |s.chain| >= 2)
    && s.writePtr == s.chain[|s.chain| - 1 - (if s.pusher.PushLinked? then 1 else 0)]
    && (s.pusher.PushLinked? ==> s.pusher.node == s.chain[|s.chain| - 1])
    && (s.pusher.PushWritten? || s.pusher.PushAllocated? ==>
          s.writePtr in s.heap && s.heap[s.writePtr].current == Some(s.pusher.value))
    && (s.pusher.PushAllocated? ==>
          s.pusher.node in s.heap && s.pusher.node !in s.chain && s.heap[s.pusher.node].next == None)
  }

  ghost predicate PopperOk<T>(s: State<T>) {
    && |s.chain| >= 1 + Claimed(s.popper)
    && s.readPtr == Some(s.chain[if s.popper.PopMoved? || s.popper.PopTaken? || s.popper.PopUnlinked? then 1 else 0])
    && (s.popper.PopHolding? || s.popper.PopMoved? || s.popper.PopTaken? || s.popper.PopUnlinked? ==>
          s.popper.tmp == s.chain[0])
    && (s.popper.PopTaken? || s.popper.PopUnlinked? ==>
          |s.popped| < |s.linked| && s.popper.value == s.linked[|s.popped|])
    && (s.popper.PopChecked? ==> s.size >= 1)
  }

  /** The counter lags the links: it misses a push that is linked but not yet counted, and a pop that is
      counted but not yet unlinked. */
  ghost predicate Lagging<T>(s: State<T>) {
    |s.chain| - 1 == s.size + Uncounted(s.pusher) + Claimed(s.popper)
  }

  /** Every live node is in the chain, or about to be linked into it. */
  ghost predicate Owned<T>(s: State<T>) {
    forall a :: a in s.heap ==> a in s.chain || (s.pusher.PushAllocated? && a == s.pusher.node)
  }

  ghost predicate Inv<T>(s: State<T>) {
    && Chained(s) && Lagging(s) && PusherOk(s) && PopperOk(s)
    && s.popped <= s.linked && Owned(s)
  }

  ghost function Below(n: nat): (r: set<nat>)
    ensures |r| == n && forall a: nat :: a in r <==> a < n
  {
    if n == 0 then {} else Below(n - 1) + {n - 1}
  }

  ghost function Addresses(chain: seq<Address>): (r: set<nat>)
    ensures forall a: nat :: a in r ==> 0 < a < WRAP && exists i :: 0 <= i < |chain| && chain[i] == a
  {
    if chain == [] then {} else {chain[0] as nat} + Addresses(chain[1..])
  }

  lemma {:induction false} DistinctCardinality(chain: seq<Address>)
    requires Distinct(chain)
    ensures |Addresses(chain)| == |chain|
  {
    if chain != [] {
      DistinctCardinality(chain[1..]);
    }
  }

  lemma SubsetCardinality(a: set<nat>, b: set<nat>)
    requires a <= b
    ensures |a| <= |b|
  {
    assert b == a + (b - a);
  }

  /** There are fewer distinct nodes than values of a pointer, so the counter cannot wrap. */
  lemma ChainIsBounded(chain: seq<Address>)
    requires Distinct(chain)
    ensures |chain| < WRAP
  {
    hide Addresses, Below;
    DistinctCardinality(chain);
    var all := Below(WRAP);
    assert Addresses(chain) <= all - {0};
    SubsetCardinality(Addresses(chain), all - {0});
  }

  /** In every state that satisfies the invariant, every enabled step is safe. */
  lemma InvSafe<T>(s: State<T>, a: Action<T>)
    requires Inv(s) && Enabled(s, a)
    ensures Safe(s, a)
  {
    ChainIsBounded(s.chain);
    if |s.chain| >= 2 {
      assert NodeOk(s, 0);
    }
  }

  /** Steps that touch neither the nodes nor the history. */
  lemma ChainedFrame<T>(s: State<T>, s': State<T>)
    requires Chained(s) && s'.heap == s.heap && s'.chain == s.chain && s'.linked == s.linked && s'.popped == s.popped
    requires s'.popper.PopUnlinked? == s.popper.PopUnlinked?
    ensures Chained(s')
  {
    assert forall i :: 0 <= i < |s.chain| - 1 ==> NodeOk(s, i);
    forall i | 0 <= i < |s'.chain| - 1 ensures NodeOk(s', i) {
      assert NodeOk(s, i);
    }
  }

  lemma PushLocalKeeps<T>(s: State<T>, a: Action<T>)
    requires Inv(s) && Enabled(s, a) && Safe(s, a) && (a.StartPush? || a.AdvanceWrite? || a.CountUp?)
    ensures Inv(After(s, a))
  {
    ChainedFrame(s, After(s, a));
    hide Chained;
  }

  lemma PopLocalKeeps<T>(s: State<T>, a: Action<T>)
    requires Inv(s) && Enabled(s, a) && Safe(s, a) && (a.CheckEmpty? || a.CountDown? || a.LoadRead?)
    ensures Inv(After(s, a))
  {
    ChainedFrame(s, After(s, a));
    hide Chained;
  }

  lemma MoveReadKeeps<T>(s: State<T>)
    requires Inv(s) && Enabled(s, MoveRead) && Safe(s, MoveRead)
    ensures Inv(After(s, MoveRead))
  {
    assert NodeOk(s, 0);
    ChainedFrame(s, After(s, MoveRead));
    hide Chained;
  }

  lemma TakeValueKeeps<T>(s: State<T>)
    requires Inv(s) && Enabled(s, TakeValue) && Safe(s, TakeValue)
    ensures Inv(After(s, TakeValue))
  {
    assert NodeOk(s, 0);
    ChainedFrame(s, After(s, TakeValue));
    hide Chained;
  }

  lemma ClearNextChained<T>(s: State<T>)
    requires Inv(s) && Enabled(s, ClearNext) && Safe(s, ClearNext)
    ensures Chained(After(s, ClearNext))
  {
    var s' := After(s, ClearNext);
    forall i | 0 <= i < |s'.chain| - 1 ensures NodeOk(s', i) {
      assert NodeOk(s, i);
      assert i > 0 ==> s.chain[i] != s.chain[0];
    }
    assert s.chain[|s.chain| - 1] != s.chain[0];
  }

  lemma ClearNextKeeps<T>(s: State<T>)
    requires Inv(s) && Enabled(s, ClearNext) && Safe(s, ClearNext)
    ensures Inv(After(s, ClearNext))
  {
    ClearNextChained(s);
    hide Chained;
    assert s.pusher.PushAllocated? ==> s.pusher.node != s.chain[0];
  }

  lemma WriteCurrentKeeps<T>(s: State<T>)
    requires Inv(s) && Enabled(s, WriteCurrent) && Safe(s, WriteCurrent)
    ensures Inv(After(s, WriteCurrent))
  {
    var s' := After(s, WriteCurrent);
    assert Chained(s') by {
      forall i | 0 <= i < |s'.chain| - 1 ensures NodeOk(s', i) {
        assert NodeOk(s, i) && s.chain[i] != s.writePtr;
      }
    }
    hide Chained;
  }

  lemma AllocateKeeps<T>(s: State<T>, node: Address)
    requires Inv(s) && Enabled(s, Allocate(node)) && Safe(s, Allocate(node))
    ensures Inv(After(s, Allocate(node)))
  {
    var s' := After(s, Allocate(node));
    assert Chained(s') && node !in s.chain by {
      forall i | 0 <= i < |s.chain| ensures s.chain[i] != node {
        assert i < |s.chain| - 1 ==> NodeOk(s, i);
      }
      forall i | 0 <= i < |s'.chain| - 1 ensures NodeOk(s', i) {
        assert NodeOk(s, i);
      }
    }
    hide Chained;
  }

  lemma LinkChained<T>(s: State<T>)
    requires Inv(s) && Enabled(s, Link) && Safe(s, Link)
    ensures Chained(After(s, Link))
  {
    var s' := After(s, Link);
    var n := |s.chain| - 1;
    assert Distinct(s'.chain);
    forall i | 0 <= i < |s'.chain| - 1 ensures NodeOk(s', i) {
      if i < n {
        assert NodeOk(s, i) && s.chain[i] != s.writePtr;
      } else {
        assert s.chain[i] == s.writePtr && s'.linked[|s'.popped| + i] == s.pusher.value;
      }
    }
  }

  lemma LinkKeeps<T>(s: State<T>)
    requires Inv(s) && Enabled(s, Link) && Safe(s, Link)
    ensures Inv(After(s, Link))
  {
    LinkChained(s);
    hide Chained;
  }

  /** Because the link was cleared first, deleting the popped node deletes nothing else. */
  lemma DeleteOne<T>(s: State<T>)
    requires Inv(s) && Enabled(s, Delete) && Safe(s, Delete)
    ensures After(s, Delete).heap == s.heap - {s.chain[0]}
    ensures After(s, Delete).chain == s.chain[1..]
    ensures s.popper.value == s.linked[|s.popped|]
  {
    assert NodeOk(s, 0);
  }

  lemma DeleteChained<T>(s: State<T>)
    requires Inv(s) && Enabled(s, Delete) && Safe(s, Delete)
    ensures Chained(After(s, Delete))
  {
    hide Deleted;
    DeleteOne(s);
    var s' := After(s, Delete);
    forall i | 0 <= i < |s'.chain| ensures s'.chain[i] == s.chain[i + 1] && s'.chain[i] != s.chain[0] {
    }
    forall i | 0 <= i < |s'.chain| - 1 ensures NodeOk(s', i) {
      assert NodeOk(s, i + 1);
    }
  }

  lemma DeleteKeeps<T>(s: State<T>)
    requires Inv(s) && Enabled(s, Delete) && Safe(s, Delete)
    ensures Inv(After(s, Delete))
  {
    DeleteOne(s);
    DeleteChained(s);
    DeletePusher(s);
    DeleteOwned(s);
    PrefixGrows(s.popped, s.linked);
    hide Deleted, Chained, Distinct, PusherOk, Owned;
  }

  lemma DeleteOwned<T>(s: State<T>)
    requires Inv(s) && Enabled(s, Delete) && Safe(s, Delete)
    ensures Owned(After(s, Delete))
  {
    DeleteOne(s);
    RestOfChain(s.chain);
    hide Deleted, Chained, Distinct, PusherOk, PopperOk;
    var s' := After(s, Delete);
    forall a | a in s'.heap ensures a in s'.chain || (s'.pusher.PushAllocated? && a == s'.pusher.node) {
      assert a in s.heap;
    }
  }

  lemma PrefixGrows<T>(p: seq<T>, l: seq<T>)
    requires p <= l && |p| < |l|
    ensures p + [l[|p|]] <= l
  {
  }

  lemma DeletePusher<T>(s: State<T>)
    requires Inv(s) && Enabled(s, Delete) && Safe(s, Delete)
    ensures PusherOk(After(s, Delete))
  {
    DeleteOne(s);
    hide Deleted, Distinct;
    var s' := After(s, Delete);
    RestOfChain(s.chain);
    assert s'.chain[|s'.chain| - 1] == s.chain[|s.chain| - 1];
    assert s.writePtr != s.chain[0];
  }

  lemma RestOfChain(chain: seq<Address>)
    requires chain != []
    ensures forall a :: a in chain <==> a in chain[1..] || a == chain[0]
  {
  }

  /** Every step of any thread is safe and keeps the invariant. */
  lemma StepKeeps<T>(s: State<T>, a: Action<T>)
    requires Inv(s) && Enabled(s, a)
    ensures Safe(s, a) && Inv(After(s, a))
  {
    hide Inv, After, Safe;
    InvSafe(s, a);
    match a
    case WriteCurrent => WriteCurrentKeeps(s);
    case Allocate(node) => AllocateKeeps(s, node);
    case Link => LinkKeeps(s);
    case MoveRead => MoveReadKeeps(s);
    case TakeValue => TakeValueKeeps(s);
    case ClearNext => ClearNextKeeps(s);
    case Delete => DeleteKeeps(s);
    case StartPush(_) => PushLocalKeeps(s, a);
    case AdvanceWrite => PushLocalKeeps(s, a);
    case CountUp => PushLocalKeeps(s, a);
    case _ => PopLocalKeeps(s, a);
  }

  // ---- every interleaving ------------------------------------------------------------------

  /** `s` is reached by the actions, in order, from an initial state. */
  ghost predicate Reaches<T(!new)>(actions: seq<Action<T>>, s: State<T>)
    decreases |actions|
  {
    if actions == [] then Initial(s) else
      var last := actions[|actions| - 1];
      exists prior: State<T> :: Reaches(actions[..|actions| - 1], prior)
        && Enabled(prior, last) && Safe(prior, last) && s == After(prior, last)
  }

  lemma {:induction false} ReachedInv<T(!new)>(actions: seq<Action<T>>, s: State<T>)
    requires Reaches(actions, s)
    ensures Inv(s)
    decreases |actions|
  {
    if actions != [] {
      hide Inv, Initial, After;
      var last := actions[|actions| - 1];
      var prior: State<T> :| Reaches(actions[..|actions| - 1], prior)
        && Enabled(prior, last) && Safe(prior, last) && s == After(prior, last);
      ReachedInv(actions[..|actions| - 1], prior);
      StepKeeps(prior, last);
    }
  }

  /** Under every interleaving the next step of any thread touches only live nodes: a popper that saw
      `size > 0` finds a written node with a successor, and the counter neither underflows nor wraps. */
  lemma EveryInterleavingIsSafe<T(!new)>(actions: seq<Action<T>>, s: State<T>, a: Action<T>)
    requires Reaches(actions, s) && Enabled(s, a)
    ensures Safe(s, a)
  {
    ReachedInv(actions, s);
    InvSafe(s, a);
  }

  /** The values of the nodes that are linked and not yet popped, oldest first. */
  ghost function Pending<T>(s: State<T>): seq<T>
    requires Chained(s)
  {
    seq(|s.chain| - 1, i requires 0 <= i < |s.chain| - 1 => assert NodeOk(s, i); s.heap[s.chain[i]].current.value)
  }

  /** Under every interleaving the queue is first-in first-out, and the counter is off from the number
      of linked nodes by exactly the push not yet counted and the pop not yet finished. */
  lemma EveryInterleavingIsFifo<T(!new)>(actions: seq<Action<T>>, s: State<T>)
    requires Reaches(actions, s)
    ensures Chained(s) && s.popped + Pending(s) == s.linked
    ensures |Pending(s)| == s.size + Uncounted(s.pusher) + Claimed(s.popper)
  {
    ReachedInv(actions, s);
    PendingValues(s);
    hide Pending, Chained, Reaches;
  }

  lemma PendingValues<T>(s: State<T>)
    requires Inv(s)
    ensures s.popped + Pending(s) == s.linked && |Pending(s)| == |s.chain| - 1
  {
    var pending := Pending(s);
    forall i | 0 <= i < |pending| ensures pending[i] == s.linked[|s.popped| + i] {
      assert NodeOk(s, i);
    }
    hide Pending, Chained, PusherOk, PopperOk;
    assert pending == s.linked[|s.popped|..];
  }

  /** No node is leaked: once both threads are idle, the live nodes are the pending ones and the
      empty one at the end. */
  lemma EveryInterleavingFreesNodes<T(!new)>(actions: seq<Action<T>>, s: State<T>)
    requires Reaches(actions, s) && s.pusher.PushIdle? && s.popper.PopIdle?
    ensures s.heap.Keys == (set a | a in s.chain) && |s.chain| == s.size + 1
  {
    ReachedInv(actions, s);
    ChainLives(s);
    hide Reaches, Chained, PusherOk, PopperOk;
  }

  lemma ChainLives<T>(s: State<T>)
    requires Chained(s)
    ensures forall a :: a in s.chain ==> a in s.heap
  {
    forall i | 0 <= i < |s.chain| ensures s.chain[i] in s.heap {
      assert i < |s.chain| - 1 ==> NodeOk(s, i);
    }
  }
}
