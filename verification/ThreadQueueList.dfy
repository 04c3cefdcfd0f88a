/** src/common/thread_queue_list.h: one queue per priority, threaded in place by links that skip the
    priorities that were never prepared. */
module ThreadQueueList {
  import opened Wrappers

  /** `next_nonempty`: the unlinked tag, or a pointer to a level (None is null). */
  datatype Link = Unlinked | Linked(next: Option<nat>)

  /** The first linked level at or after `from`, or the number of levels. */
  function NextLinked(links: seq<Link>, from: nat): (k: nat)
    requires from <= |links|
    ensures from <= k <= |links| && (k < |links| ==> links[k].Linked?)
    ensures forall i :: from <= i < k ==> links[i].Unlinked?
    decreases |links| - from
  {
    if from == |links| || links[from].Linked? then from else NextLinked(links, from + 1)
  }

  /** A pointer to level `k`, null past the last level. */
  function PointerTo(links: seq<Link>, k: nat): Option<nat> {
    if k < |links| then Some(k) else None
  }

  /** A linked level points to the next linked one. */
  predicate LinkOk(links: seq<Link>, i: nat)
    requires i < |links|
  {
    links[i].Linked? ==> links[i].next == PointerTo(links, NextLinked(links, i + 1))
  }

  /** `first` points to the first linked level, and each linked level to the next linked one. */
  predicate Threaded(first: Option<nat>, links: seq<Link>) {
    && first == PointerTo(links, NextLinked(links, 0))
    && forall i :: 0 <= i < |links| ==> LinkOk(links, i)
  }

  // ---- the chain ---------------------------------------------------------------------------

  /** The levels met by following the links from `cur`. */
  function Chain(links: seq<Link>, cur: Option<nat>, fuel: nat): seq<nat>
    decreases fuel
  {
    if fuel == 0 || cur.None? || cur.value >= |links| || links[cur.value].Unlinked? then []
    else [cur.value] + Chain(links, links[cur.value].next, fuel - 1)
  }

  /** The linked levels from `from` on, in increasing order. */
  function LinkedLevels(links: seq<Link>, from: nat): seq<nat>
    requires from <= |links|
    decreases |links| - from
  {
    if from == |links| then [] else (if links[from].Linked? then [from] else []) + LinkedLevels(links, from + 1)
  }

  lemma {:induction false} LinkedLevelsSkip(links: seq<Link>, from: nat)
    requires from <= |links|
    ensures var k := NextLinked(links, from);
            LinkedLevels(links, from) == if k == |links| then [] else [k] + LinkedLevels(links, k + 1)
    decreases |links| - from
  {
    if from < |links| && links[from].Unlinked? {
      LinkedLevelsSkip(links, from + 1);
    }
  }

  /** Following the links from any level on visits exactly the linked levels, in increasing order, and
      ends at null. */
  lemma {:induction false} ChainIsLinkedLevels(first: Option<nat>, links: seq<Link>, from: nat, fuel: nat)
    requires Threaded(first, links) && from <= |links| && fuel >= |links| - from
    ensures Chain(links, PointerTo(links, NextLinked(links, from)), fuel) == LinkedLevels(links, from)
    decreases |links| - from
  {
    hide NextLinked, LinkedLevels;
    var k := NextLinked(links, from);
    LinkedLevelsSkip(links, from);
    if k < |links| {
      assert LinkOk(links, k);
      ChainIsLinkedLevels(first, links, k + 1, fuel - 1);
    }
  }

  lemma NextLinkedUnique(links: seq<Link>, from: nat, k: nat)
    requires from <= k <= |links| && (k < |links| ==> links[k].Linked?)
    requires forall i :: from <= i < k ==> links[i].Unlinked?
    ensures NextLinked(links, from) == k
  {
  }

  // ---- searching ---------------------------------------------------------------------------

  /** The first non-empty level at or after `from` among the linked ones, or the number of levels. */
  function FirstLinkedNonEmpty<T>(links: seq<Link>, queues: seq<seq<T>>, from: nat): (k: nat)
    requires from <= |links| == |queues|
    ensures from <= k <= |links| && (k < |links| ==> links[k].Linked? && queues[k] != [])
    ensures forall i :: from <= i < k ==> links[i].Unlinked? || queues[i] == []
    decreases |links| - from
  {
    if from == |links| || (links[from].Linked? && queues[from] != []) then from
    else FirstLinkedNonEmpty(links, queues, from + 1)
  }

  function FirstNonEmpty<T>(queues: seq<seq<T>>, from: nat): (k: nat)
    requires from <= |queues|
    ensures from <= k <= |queues| && (k < |queues| ==> queues[k] != [])
    ensures forall i :: from <= i < k ==> queues[i] == []
    decreases |queues| - from
  {
    if from == |queues| || queues[from] != [] then from else FirstNonEmpty(queues, from + 1)
  }

  /** The levels that have elements have been prepared. */
  predicate Prepared<T>(links: seq<Link>, queues: seq<seq<T>>)
    requires |links| == |queues|
  {
    forall i :: 0 <= i < |queues| && queues[i] != [] ==> links[i].Linked?
  }

  /** A search along the links finds the best element exactly when the level that holds it was prepared;
      in particular always, when levels are prepared before they are pushed to. */
  lemma SearchIsBestExactly<T>(links: seq<Link>, queues: seq<seq<T>>)
    requires |links| == |queues|
    ensures var best := FirstNonEmpty(queues, 0);
            FirstLinkedNonEmpty(links, queues, 0) == best <==> best == |queues| || links[best].Linked?
    ensures Prepared(links, queues) ==> FirstLinkedNonEmpty(links, queues, 0) == FirstNonEmpty(queues, 0)
  {
  }

  /** The step of a search from a linked level. */
  lemma SearchStep<T>(links: seq<Link>, queues: seq<seq<T>>, from: nat)
    requires from <= |links| == |queues|
    ensures var k := NextLinked(links, from);
            FirstLinkedNonEmpty(links, queues, from)
            == if k == |links| then k else if queues[k] != [] then k else FirstLinkedNonEmpty(links, queues, k + 1)
    decreases |links| - from
  {
  }

  // ---- the structure -----------------------------------------------------------------------

  function Remaining<T(==)>(queue: seq<T>, id: T): seq<T> {
    if queue == [] then [] else (if queue[0] == id then [] else [queue[0]]) + Remaining(queue[1..], id)
  }

  /** All occurrences go, and nothing else. */
  lemma {:induction false} RemainingElements<T>(queue: seq<T>, id: T)
    ensures multiset(Remaining(queue, id)) == multiset(queue)[id := 0]
  {
    if queue != [] {
      RemainingElements(queue[1..], id);
      assert queue == [queue[0]] + queue[1..];
    }
  }

  /** What remains of two parts are the remains of the parts, in their order. */
  lemma {:induction false} RemainingParts<T>(a: seq<T>, b: seq<T>, id: T)
    ensures Remaining(a + b, id) == Remaining(a, id) + Remaining(b, id)
  {
    if a == [] {
      assert a + b == b;
    } else {
      assert (a + b)[1..] == a[1..] + b;
      RemainingParts(a[1..], b, id);
    }
  }

  /** Parts without the element stay as they are, in order, wherever it stood. */
  lemma RemainingInOrder<T>(before: seq<T>, id: T, after: seq<T>)
    ensures Remaining(before + [id] + after, id) == Remaining(before, id) + Remaining(after, id)
    ensures id !in before ==> Remaining(before, id) == before
  {
    RemainingParts(before + [id], after, id);
    RemainingParts(before, [id], id);
    OneRemoved(id);
    if id !in before {
      NothingRemoved(before, id);
    }
  }

  lemma OneRemoved<T>(id: T)
    ensures Remaining([id], id) == []
  {
  }

  lemma {:induction false} NothingRemoved<T>(queue: seq<T>, id: T)
    requires id !in queue
    ensures Remaining(queue, id) == queue
  {
    if queue != [] {
      NothingRemoved(queue[1..], id);
    }
  }

  /** `std::remove` and the erasure of what it leaves behind: the others are moved forward, one by one. */
  method RemoveAll<T(==)>(queue: seq<T>, id: T) returns (kept: seq<T>)
    ensures kept == Remaining(queue, id)
  {
    var data, k := queue, 0;
    for i := 0 to |queue|
      invariant 0 <= k <= i && |data| == |queue|
      invariant data[..k] == Remaining(queue[..i], id)
      invariant forall j :: i <= j < |queue| ==> data[j] == queue[j]
    {
      assert queue[..i + 1] == queue[..i] + [queue[i]] && data[i] == queue[i];
      RemainingParts(queue[..i], [queue[i]], id);
      if data[i] != id {
        assert data[k := data[i]][..k + 1] == data[..k] + [data[i]];
        data := data[k := data[i]];
        k := k + 1;
      }
    }
    assert queue[..|queue|] == queue;
    return data[..k];
  }

  /** What `pop_first_better` does: it dereferences null, or finds nothing, or pops an element. */
  datatype Better<T> = NullDereference | Nothing | Popped(id: T)

  /** Linking a level in behind the nearest linked level before it. */
  lemma Relink(first: Option<nat>, links: seq<Link>, p: nat, i: nat)
    requires Threaded(first, links) && i < p < |links| && links[i].Linked? && links[p].Unlinked?
    requires forall j :: i < j < p ==> links[j].Unlinked?
    ensures Threaded(first, links[p := links[i]][i := Linked(Some(p))])
  {
    var links' := links[p := links[i]][i := Linked(Some(p))];
    hide NextLinked;
    forall from | 0 <= from <= |links|
      ensures NextLinked(links', from) == if i < from <= p then p else NextLinked(links, from)
    {
      var k := if i < from <= p then p else NextLinked(links, from);
      NextLinkedUnique(links', from, k);
    }
    NextLinkedUnique(links, i + 1, NextLinked(links, p + 1));
    assert LinkOk(links, i);
    forall j | 0 <= j < |links'| ensures LinkOk(links', j) {
      assert LinkOk(links, j);
    }
  }

  /** Linking a level in before all linked ones. */
  lemma RelinkFirst(first: Option<nat>, links: seq<Link>, p: nat)
    requires Threaded(first, links) && p < |links| && links[p].Unlinked?
    requires forall j :: 0 <= j < p ==> links[j].Unlinked?
    ensures Threaded(Some(p), links[p := Linked(first)])
  {
    var links' := links[p := Linked(first)];
    hide NextLinked;
    forall from | 0 <= from <= |links|
      ensures NextLinked(links', from) == if from <= p then p else NextLinked(links, from)
    {
      NextLinkedUnique(links', from, if from <= p then p else NextLinked(links, from));
    }
    NextLinkedUnique(links, 0, NextLinked(links, p + 1));
    forall j | 0 <= j < |links'| ensures LinkOk(links', j) {
      assert LinkOk(links, j);
    }
  }

  class ThreadQueueList<T(==)> {
    var first: Option<nat>
    var links: seq<Link>
    var queues: seq<seq<T>>

    ghost predicate Valid()
      reads this
    {
      |links| == |queues| && Threaded(first, links)
    }

    constructor (n: nat)
      ensures Valid() && |queues| == n && Prepared(links, queues)
      ensures forall i :: 0 <= i < n ==> links[i].Unlinked? && queues[i] == []
    {
      first := None;
      links := seq(n, _ => Unlinked);
      queues := seq(n, _ => []);
    }

    // `link`
    method LinkLevel(priority: nat)
      requires Valid() && priority < |links| && links[priority].Unlinked?
      modifies this`first, this`links
      ensures Valid() && |links| == |old(links)|
      ensures forall i :: 0 <= i < |links| ==> (links[i].Linked? <==> old(links)[i].Linked? || i == priority)
    {
      ghost var before := links;
      var i: int := priority - 1;
      while i >= 0
        invariant -1 <= i < priority && links == before && first == old(first)
        invariant forall j :: i < j < priority ==> links[j].Unlinked?
      {
        if links[i].Linked? {
          Relink(first, before, priority, i);
          links := links[priority := links[i]];
          links := links[i := Linked(Some(priority))];
          return;
        }
        i := i - 1;
      }
      RelinkFirst(first, before, priority);
      links := links[priority := Linked(first)];
      first := Some(priority);
    }

    // `prepare`
    method Prepare(priority: nat)
      requires Valid() && priority < |links|
      modifies this`first, this`links
      ensures Valid() && |links| == |old(links)| && links[priority].Linked?
      ensures forall i :: 0 <= i < |links| ==> (links[i].Linked? <==> old(links)[i].Linked? || i == priority)
      ensures Prepared(old(links), queues) ==> Prepared(links, queues)
    {
      if links[priority].Unlinked? {
        LinkLevel(priority);
      }
    }

    method PushBack(priority: nat, id: T)
      requires Valid() && priority < |links|
      modifies this`queues
      ensures Valid() && queues == old(queues)[priority := old(queues)[priority] + [id]]
      ensures Prepared(links, old(queues)) && links[priority].Linked? ==> Prepared(links, queues)
    {
      queues := queues[priority := queues[priority] + [id]];
    }

    method PushFront(priority: nat, id: T)
      requires Valid() && priority < |links|
      modifies this`queues
      ensures Valid() && queues == old(queues)[priority := [id] + old(queues)[priority]]
      ensures Prepared(links, old(queues)) && links[priority].Linked? ==> Prepared(links, queues)
    {
      queues := queues[priority := [id] + queues[priority]];
    }

    method Remove(priority: nat, id: T)
      requires Valid() && priority < |links|
      modifies this`queues
      ensures Valid() && queues == old(queues)[priority := Remaining(old(queues)[priority], id)]
      ensures Prepared(links, old(queues)) ==> Prepared(links, queues)
    {
      var kept := RemoveAll(queues[priority], id);
      queues := queues[priority := kept];
      assert Remaining<T>([], id) == [];
    }

    method Move(id: T, oldPriority: nat, newPriority: nat)
      requires Valid() && oldPriority < |links| && newPriority < |links|
      modifies this
      ensures Valid() && |links| == |old(links)| && links[newPriority].Linked?
      ensures var removed := old(queues)[oldPriority := Remaining(old(queues)[oldPriority], id)];
              queues == removed[newPriority := removed[newPriority] + [id]]
      ensures Prepared(old(links), old(queues)) ==> Prepared(links, queues)
    {
      Remove(oldPriority, id);
      Prepare(newPriority);
      PushBack(newPriority, id);
    }

    method Rotate(priority: nat)
      requires Valid() && priority < |links|
      modifies this`queues
      ensures Valid()
      ensures var q := old(queues)[priority];
              queues == old(queues)[priority := if |q| > 1 then q[1..] + [q[0]] else q]
      ensures Prepared(links, old(queues)) ==> Prepared(links, queues)
    {
      if |queues[priority]| > 1 {
        queues := queues[priority := queues[priority] + [queues[priority][0]]];
        queues := queues[priority := queues[priority][1..]];
        assert queues[priority] == old(queues)[priority][1..] + [old(queues)[priority][0]];
      }
    }

    /** `get_first`. */
    method GetFirst() returns (id: Option<T>)
      requires Valid()
      ensures var k := FirstLinkedNonEmpty(links, queues, 0);
              id == if k < |queues| then Some(queues[k][0]) else None
    {
      hide NextLinked, FirstLinkedNonEmpty;
      var cur := first;
      ghost var from: nat := 0;
      while cur.Some?
        invariant from <= |links| && cur == PointerTo(links, NextLinked(links, from))
        invariant FirstLinkedNonEmpty(links, queues, from) == FirstLinkedNonEmpty(links, queues, 0)
        decreases |links| - from
      {
        SearchStep(links, queues, from);
        if queues[cur.value] != [] {
          return Some(queues[cur.value][0]);
        }
        assert LinkOk(links, cur.value);
        from := cur.value + 1;
        cur := links[cur.value].next;
      }
      SearchStep(links, queues, from);
      return None;
    }

    /** `pop_first`. */
    method PopFirst() returns (id: Option<T>)
      requires Valid()
      modifies this`queues
      ensures Valid()
      ensures var k := FirstLinkedNonEmpty(links, old(queues), 0);
              if k < |old(queues)| then
                id == Some(old(queues)[k][0]) && queues == old(queues)[k := old(queues)[k][1..]]
              else
                id == None && queues == old(queues)
      ensures Prepared(links, old(queues)) ==> Prepared(links, queues)
    {
      hide NextLinked, FirstLinkedNonEmpty;
      var cur := first;
      ghost var from: nat := 0;
      while cur.Some?
        invariant from <= |links| && cur == PointerTo(links, NextLinked(links, from)) && queues == old(queues)
        invariant FirstLinkedNonEmpty(links, queues, from) == FirstLinkedNonEmpty(links, queues, 0)
        decreases |links| - from
      {
        SearchStep(links, queues, from);
        if queues[cur.value] != [] {
          id := Some(queues[cur.value][0]);
          queues := queues[cur.value := queues[cur.value][1..]];
          return;
        }
        assert LinkOk(links, cur.value);
        from := cur.value + 1;
        cur := links[cur.value].next;
      }
      SearchStep(links, queues, from);
      return None;
    }

    /** `pop_first_better`: the best element strictly better than the priority. Null compares below every
        level, so the loop dereferences it exactly when there is nothing better to pop and no level from
        the priority on is linked. */
    method PopFirstBetter(priority: nat) returns (result: Better<T>)
      requires Valid() && priority < |links|
      modifies this`queues
      ensures Valid()
      ensures var k := FirstLinkedNonEmpty(links, old(queues), 0);
              && (k < priority ==>
                    result == Popped(old(queues)[k][0]) && queues == old(queues)[k := old(queues)[k][1..]])
              && (k >= priority ==>
                    && queues == old(queues)
                    && result == if NextLinked(links, priority) < |links| then Nothing else NullDereference)
    {
      hide NextLinked, FirstLinkedNonEmpty;
      var cur := first;
      ghost var from: nat := 0;
      while cur.None? || cur.value < priority
        invariant from <= |links| && cur == PointerTo(links, NextLinked(links, from)) && queues == old(queues)
        invariant FirstLinkedNonEmpty(links, queues, from) == FirstLinkedNonEmpty(links, queues, 0)
        invariant from <= priority
        decreases |links| - from
      {
        SearchStep(links, queues, from);
        if cur.None? {
          return NullDereference;
        }
        if queues[cur.value] != [] {
          result := Popped(queues[cur.value][0]);
          queues := queues[cur.value := queues[cur.value][1..]];
          return;
        }
        assert LinkOk(links, cur.value);
        from := cur.value + 1;
        cur := links[cur.value].next;
      }
      SearchStep(links, queues, from);
      return Nothing;
    }
  }
}
