/** src/audio_core/stream.cpp: the life of a buffer from queued over active to released and collected,
    driven by calls and by timed release events; and the tag circulation that
    src/audio_core/audio_renderer.cpp builds on it. A buffer is represented by its tag. */
module AudioStream {
  import opened Sequences
  import opened Wrappers
  import opened Arithmetic

  type Tag = nat

  const MAX_AUDIO_BUFFER_COUNT: nat := 32

  /** The fields of `Stream`; `pendingReleases` counts the scheduled release events that have not fired,
      and `sunk` lists the buffers handed to the sink. */
  datatype State = State(playing: bool, active: Option<Tag>, queued: seq<Tag>, released: seq<Tag>,
                         pendingReleases: nat, sunk: seq<Tag>)

  /** `PlayNextBuffer`. */
  function PlayNext(s: State): State {
    if !s.playing || s.active.Some? || s.queued == [] then s
    else s.(active := Some(s.queued[0]), queued := s.queued[1..],
            pendingReleases := s.pendingReleases + 1, sunk := s.sunk + [s.queued[0]])
  }

  function Played(s: State): State {
    PlayNext(s.(playing := true))
  }

  function Queued(s: State, tag: Tag): (bool, State) {
    if |s.queued| < MAX_AUDIO_BUFFER_COUNT then (true, PlayNext(s.(queued := s.queued + [tag]))) else (false, s)
  }

  /** A release event fires; None is the failure of `ASSERT(active_buffer)`. */
  function Released(s: State): Option<State>
    requires s.pendingReleases > 0
  {
    if s.active.None? then None else
      Some(PlayNext(s.(pendingReleases := s.pendingReleases - 1, active := None,
                       released := s.released + [s.active.value])))
  }

  function Collected(s: State, maxCount: nat): (seq<Tag>, State) {
    var n := Min(maxCount, |s.released|);
    (s.released[..n], s.(released := s.released[n..]))
  }

  class Stream {
    var playing: bool
    var active: Option<Tag>
    var queued: seq<Tag>
    var released: seq<Tag>
    var pendingReleases: nat
    var sunk: seq<Tag>

    ghost function View(): State
      reads this
    {
      State(playing, active, queued, released, pendingReleases, sunk)
    }

    constructor ()
      ensures View() == State(false, None, [], [], 0, [])
    {
      playing, active, queued, released, pendingReleases, sunk := false, None, [], [], 0, [];
    }

    method PlayNextBuffer()
      modifies this
      ensures View() == PlayNext(old(View()))
    {
      if !playing {
        return;
      }
      if active.Some? {
        return;
      }
      if queued == [] {
        return;
      }
      active := Some(queued[0]);
      queued := queued[1..];
      sunk := sunk + [active.value];
      pendingReleases := pendingReleases + 1;
    }

    method Play()
      modifies this
      ensures View() == Played(old(View()))
    {
      playing := true;
      PlayNextBuffer();
    }

    /** The release event: it is only there to fire while it is pending. */
    method ReleaseActiveBuffer() returns (assertHeld: bool)
      requires pendingReleases > 0
      modifies this
      ensures assertHeld == Released(old(View())).Some?
      ensures assertHeld ==> Some(View()) == Released(old(View()))
    {
      if active.None? {
        return false;
      }
      pendingReleases := pendingReleases - 1;
      released := released + [active.value];
      active := None;
      PlayNextBuffer();
      return true;
    }

    method QueueBuffer(tag: Tag) returns (ok: bool)
      modifies this
      ensures (ok, View()) == Queued(old(View()), tag)
    {
      if |queued| < MAX_AUDIO_BUFFER_COUNT {
        queued := queued + [tag];
        PlayNextBuffer();
        return true;
      }
      return false;
    }

    method GetTagsAndReleaseBuffers(maxCount: nat) returns (tags: seq<Tag>)
      modifies this`released
      ensures (tags, View()) == Collected(old(View()), maxCount)
    {
      tags := [];
      var count := 0;
      while count < maxCount && released != []
        invariant count <= maxCount && count == |tags| <= |old(released)|
        invariant tags == old(released)[..count] && released == old(released)[count..]
      {
        tags := tags + [released[0]];
        released := released[1..];
        count := count + 1;
      }
    }
  }

  // ---- every run of a stream ---------------------------------------------------------------

  datatype Action = PlayStream | QueueTag(tag: Tag) | FireRelease | CollectTags(maxCount: nat)

  /** A stream with its history: the tags it accepted and the tags it gave back. */
  datatype History = History(s: State, accepted: seq<Tag>, collected: seq<Tag>)

  predicate Enabled(h: History, a: Action) {
    a.FireRelease? ==> h.s.pendingReleases > 0
  }

  /** None when the assertion of `ReleaseActiveBuffer` fails. */
  function After(h: History, a: Action): Option<History>
    requires Enabled(h, a)
  {
    match a
    case PlayStream => Some(h.(s := Played(h.s)))
    case QueueTag(tag) =>
      var (ok, s) := Queued(h.s, tag);
      Some(h.(s := s, accepted := if ok then h.accepted + [tag] else h.accepted))
    case FireRelease =>
      var s := Released(h.s);
      if s.None? then None else Some(h.(s := s.value))
    case CollectTags(maxCount) =>
      var (tags, s) := Collected(h.s, maxCount);
      Some(h.(s := s, collected := h.collected + tags))
  }

  const NEW_STREAM: History := History(State(false, None, [], [], 0, []), [], [])

  ghost predicate Reaches(actions: seq<Action>, h: History)
    decreases |actions|
  {
    if actions == [] then h == NEW_STREAM else
      var last := actions[|actions| - 1];
      exists prior :: Reaches(actions[..|actions| - 1], prior) && Enabled(prior, last) && After(prior, last) == Some(h)
  }

  function ActiveTags(s: State): seq<Tag> {
    if s.active.Some? then [s.active.value] else []
  }

  /** What every run keeps. */
  predicate Inv(h: History) {
    && h.s.pendingReleases == |ActiveTags(h.s)|
    && (h.s.playing && h.s.active.None? ==> h.s.queued == [])
    && (h.s.active.Some? ==> h.s.playing)
    && |h.s.queued| <= MAX_AUDIO_BUFFER_COUNT
    && h.accepted == h.collected + h.s.released + ActiveTags(h.s) + h.s.queued
    && h.accepted == h.s.sunk + h.s.queued
  }

  /** Starting the next buffer moves the first queued tag to the front of nothing. */
  lemma PlayNextKeeps(s: State, before: seq<Tag>)
    requires s.pendingReleases == |ActiveTags(s)|
    ensures var s' := PlayNext(s);
            && s'.pendingReleases == |ActiveTags(s')| && s'.playing == s.playing && s'.released == s.released
            && before + ActiveTags(s') + s'.queued == before + ActiveTags(s) + s.queued
            && s'.sunk + s'.queued == s.sunk + s.queued && |s'.queued| <= |s.queued|
            && (s'.playing && s'.active.None? ==> s'.queued == [])
            && (s'.active.Some? ==> s.active.Some? || s.playing)
  {
  }

  lemma PlayKeeps(h: History)
    requires Inv(h) && Enabled(h, PlayStream)
    ensures After(h, PlayStream).Some? && Inv(After(h, PlayStream).value)
  {
    hide PlayNext;
    PlayNextKeeps(h.s.(playing := true), h.collected + h.s.released);
  }

  lemma QueueKeeps(h: History, tag: Tag)
    requires Inv(h) && Enabled(h, QueueTag(tag))
    ensures After(h, QueueTag(tag)).Some? && Inv(After(h, QueueTag(tag)).value)
  {
    hide PlayNext;
    if |h.s.queued| < MAX_AUDIO_BUFFER_COUNT {
      var s := h.s.(queued := h.s.queued + [tag]);
      PlayNextKeeps(s, h.collected + h.s.released);
      assert h.accepted + [tag] == h.collected + h.s.released + ActiveTags(s) + s.queued;
      assert h.accepted + [tag] == s.sunk + s.queued;
    }
  }

  lemma ReleaseKeeps(h: History)
    requires Inv(h) && Enabled(h, FireRelease)
    ensures After(h, FireRelease).Some? && Inv(After(h, FireRelease).value)
  {
    hide PlayNext;
    var s := h.s.(pendingReleases := h.s.pendingReleases - 1, active := None,
                  released := h.s.released + [h.s.active.value]);
    PlayNextKeeps(s, h.collected + s.released);
    assert h.collected + s.released + ActiveTags(s) + s.queued
        == h.collected + h.s.released + ActiveTags(h.s) + h.s.queued;
  }

  lemma CollectKeeps(h: History, maxCount: nat)
    requires Inv(h) && Enabled(h, CollectTags(maxCount))
    ensures After(h, CollectTags(maxCount)).Some? && Inv(After(h, CollectTags(maxCount)).value)
  {
    var (tags, s) := Collected(h.s, maxCount);
    assert h.collected + tags + s.released == h.collected + h.s.released;
  }

  /** No step of any run fails the assertion, and every step keeps the invariant. */
  lemma StepKeeps(h: History, a: Action)
    requires Inv(h) && Enabled(h, a)
    ensures After(h, a).Some? && Inv(After(h, a).value)
  {
    hide Inv, Enabled, After;
    match a
    case PlayStream => PlayKeeps(h);
    case QueueTag(tag) => QueueKeeps(h, tag);
    case FireRelease => ReleaseKeeps(h);
    case CollectTags(maxCount) => CollectKeeps(h, maxCount);
  }

  lemma {:induction false} ReachedInv(actions: seq<Action>, h: History)
    requires Reaches(actions, h)
    ensures Inv(h)
    decreases |actions|
  {
    if actions != [] {
      hide Inv, After;
      var last := actions[|actions| - 1];
      var prior :| Reaches(actions[..|actions| - 1], prior) && Enabled(prior, last) && After(prior, last) == Some(h);
      ReachedInv(actions[..|actions| - 1], prior);
      StepKeeps(prior, last);
    }
  }

  /** On every run: exactly one release event is pending while a buffer is active and none otherwise, so
      the assertion holds whenever an event fires; a playing stream without an active buffer has nothing
      queued; and the accepted tags are, in order, the collected, the released, the active and the queued
      ones. Only a full queue refuses a buffer. */
  lemma EveryRunConserves(actions: seq<Action>, h: History)
    requires Reaches(actions, h)
    ensures h.s.pendingReleases == if h.s.active.Some? then 1 else 0
    ensures h.s.pendingReleases > 0 ==> Released(h.s).Some?
    ensures Enabled(h, FireRelease) <==> h.s.active.Some?
    ensures h.s.playing && h.s.active.None? ==> h.s.queued == []
    ensures h.accepted == h.collected + h.s.released + ActiveTags(h.s) + h.s.queued
    ensures h.accepted == h.s.sunk + h.s.queued
    ensures forall tag :: !Queued(h.s, tag).0 <==> |h.s.queued| == MAX_AUDIO_BUFFER_COUNT
  {
    ReachedInv(actions, h);
  }

  function Fires(actions: seq<Action>): nat {
    if actions == [] then 0 else
      Fires(actions[..|actions| - 1]) + if actions[|actions| - 1].FireRelease? then 1 else 0
  }

  lemma StepReleases(h: History, a: Action)
    requires Enabled(h, a) && After(h, a).Some?
    ensures var h' := After(h, a).value;
            && |h'.collected| + |h'.s.released|
               == |h.collected| + |h.s.released| + (if a.FireRelease? then 1 else 0)
            && (h'.s.playing <==> h.s.playing || a.PlayStream?)
  {
  }

  /** On every run as many buffers were released as release events fired, and the stream plays once it was started. */
  lemma {:induction false} EveryRunReleases(actions: seq<Action>, h: History)
    requires Reaches(actions, h)
    ensures |h.collected| + |h.s.released| == Fires(actions)
    ensures h.s.playing <==> PlayStream in actions
    decreases |actions|
  {
    if actions != [] {
      hide After;
      var init, last := actions[..|actions| - 1], actions[|actions| - 1];
      var prior :| Reaches(init, prior) && Enabled(prior, last) && After(prior, last) == Some(h);
      EveryRunReleases(init, prior);
      StepReleases(prior, last);
      assert actions == init + [last];
    }
  }

  /** A collection gives back as many tags as are asked for and released, the oldest first. */
  lemma CollectionIsMaximal(s: State, maxCount: nat)
    ensures var (tags, s') := Collected(s, maxCount);
            && |tags| == (if maxCount < |s.released| then maxCount else |s.released|)
            && tags + s'.released == s.released && s' == s.(released := s'.released)
  {
  }

  // ---- the renderer's tags -----------------------------------------------------------------

  /** The renderer between two of its steps: `toQueue` are the tags it has in hand and will queue next
      (the three of the constructor, or those an update has collected); `refused` is set when the
      stream turned one away. */
  datatype Renderer = Renderer(h: History, toQueue: seq<Tag>, refused: bool)

  datatype RendererAction = QueueMixed | CollectReleased | Fire

  /** Lines 80-87: a new stream, started, and the tags 0, 1, 2 to queue. */
  const NEW_RENDERER: Renderer := Renderer(NEW_STREAM.(s := Played(NEW_STREAM.s)), [0, 1, 2], false)

  predicate RendererEnabled(r: Renderer, a: RendererAction) {
    match a
    case QueueMixed => r.toQueue != []
    case CollectReleased => r.toQueue == []
    case Fire => r.h.s.pendingReleases > 0
  }

  function RendererAfter(r: Renderer, a: RendererAction): Option<Renderer>
    requires RendererEnabled(r, a)
  {
    match a
    case QueueMixed =>
      var h := After(r.h, QueueTag(r.toQueue[0]));
      Some(Renderer(h.value, r.toQueue[1..], r.refused || !Queued(r.h.s, r.toQueue[0]).0))
    case CollectReleased =>
      var h := After(r.h, CollectTags(2));
      Some(r.(h := h.value, toQueue := Collected(r.h.s, 2).0))
    case Fire =>
      var h := After(r.h, FireRelease);
      if h.None? then None else Some(r.(h := h.value))
  }

  ghost predicate RendererReaches(actions: seq<RendererAction>, r: Renderer)
    decreases |actions|
  {
    if actions == [] then r == NEW_RENDERER else
      var last := actions[|actions| - 1];
      exists prior :: RendererReaches(actions[..|actions| - 1], prior) && RendererEnabled(prior, last)
                      && RendererAfter(prior, last) == Some(r)
  }

  /** Everything ever taken in hand is the first three tags and then whatever was collected. */
  predicate RendererInv(r: Renderer) {
    && Inv(r.h) && r.h.s.playing && !r.refused
    && r.h.accepted + r.toQueue == [0, 1, 2] + r.h.collected
  }

  /** Three tags circulate, so a queue of 32 is never full. */
  lemma ThreeInCirculation(r: Renderer)
    requires RendererInv(r)
    ensures |r.h.s.released| + |ActiveTags(r.h.s)| + |r.h.s.queued| + |r.toQueue| == 3
  {
  }

  lemma QueueMixedKeeps(r: Renderer)
    requires RendererInv(r) && RendererEnabled(r, QueueMixed)
    ensures RendererAfter(r, QueueMixed).Some? && RendererInv(RendererAfter(r, QueueMixed).value)
  {
    ThreeInCirculation(r);
    StepKeeps(r.h, QueueTag(r.toQueue[0]));
    assert r.toQueue == [r.toQueue[0]] + r.toQueue[1..];
    assert r.h.accepted + [r.toQueue[0]] + r.toQueue[1..] == r.h.accepted + r.toQueue;
  }

  lemma CollectReleasedKeeps(r: Renderer)
    requires RendererInv(r) && RendererEnabled(r, CollectReleased)
    ensures RendererAfter(r, CollectReleased).Some? && RendererInv(RendererAfter(r, CollectReleased).value)
  {
    StepKeeps(r.h, CollectTags(2));
    var tags := Collected(r.h.s, 2).0;
    assert [0, 1, 2] + (r.h.collected + tags) == r.h.accepted + r.toQueue + tags;
  }

  lemma FireKeeps(r: Renderer)
    requires RendererInv(r) && RendererEnabled(r, Fire)
    ensures RendererAfter(r, Fire).Some? && RendererInv(RendererAfter(r, Fire).value)
  {
    StepKeeps(r.h, FireRelease);
  }

  lemma RendererStepKeeps(r: Renderer, a: RendererAction)
    requires RendererInv(r) && RendererEnabled(r, a)
    ensures RendererAfter(r, a).Some? && RendererInv(RendererAfter(r, a).value)
  {
    hide RendererInv, RendererEnabled, RendererAfter;
    match a
    case QueueMixed => QueueMixedKeeps(r);
    case CollectReleased => CollectReleasedKeeps(r);
    case Fire => FireKeeps(r);
  }

  lemma {:induction false} RendererReachedInv(actions: seq<RendererAction>, r: Renderer)
    requires RendererReaches(actions, r)
    ensures RendererInv(r)
    decreases |actions|
  {
    if actions != [] {
      hide RendererInv, RendererAfter;
      var last := actions[|actions| - 1];
      var prior :| RendererReaches(actions[..|actions| - 1], prior) && RendererEnabled(prior, last)
                   && RendererAfter(prior, last) == Some(r);
      RendererReachedInv(actions[..|actions| - 1], prior);
      RendererStepKeeps(prior, last);
    }
  }

  /** A sequence that repeats its own beginning three places on, and begins 0, 1, 2, is k mod 3. */
  lemma {:induction false} Circulating(all: seq<Tag>, collected: seq<Tag>, k: nat)
    requires all == [0, 1, 2] + collected && collected <= all && k < |all|
    ensures all[k] == k % 3
  {
    if k >= 3 {
      Circulating(all, collected, k - 3);
      assert all[k] == collected[k - 3] == all[k - 3];
    }
  }

  /** On every run of updates and release events: no buffer is refused, the three tags are somewhere
      between in hand, queued, active and released, and the k-th tag queued is k mod 3. */
  lemma EveryRunCirculates(actions: seq<RendererAction>, r: Renderer)
    requires RendererReaches(actions, r)
    ensures !r.refused
    ensures forall k :: 0 <= k < |r.h.accepted| ==> r.h.accepted[k] == k % 3
    ensures multiset(r.h.s.released + ActiveTags(r.h.s) + r.h.s.queued + r.toQueue) == multiset{0, 1, 2}
  {
    RendererReachedInv(actions, r);
    hide RendererReaches;
    AcceptedTags(r);
    LiveTags(r);
  }

  /** The renderer never stands still: while it has tags in hand it can queue one; when it has none it can collect one,
      or a buffer is playing that will be released. */
  lemma EveryRunGoesOn(actions: seq<RendererAction>, r: Renderer)
    requires RendererReaches(actions, r)
    ensures r.toQueue != [] ==>
              && RendererEnabled(r, QueueMixed) && RendererAfter(r, QueueMixed).Some?
              && RendererAfter(r, QueueMixed).value.h.accepted == r.h.accepted + [r.toQueue[0]]
    ensures r.toQueue == [] && r.h.s.released != [] ==>
              && RendererEnabled(r, CollectReleased) && RendererAfter(r, CollectReleased).Some?
              && RendererAfter(r, CollectReleased).value.toQueue != []
    ensures r.toQueue == [] && r.h.s.released == [] ==>
              && RendererEnabled(r, Fire) && RendererAfter(r, Fire).Some?
              && RendererAfter(r, Fire).value.h.s.released == ActiveTags(r.h.s) != []
  {
    RendererReachedInv(actions, r);
    hide RendererReaches;
    ThreeInCirculation(r);
  }

  lemma AcceptedTags(r: Renderer)
    requires RendererInv(r)
    ensures forall k :: 0 <= k < |r.h.accepted + r.toQueue| ==> (r.h.accepted + r.toQueue)[k] == k % 3
    ensures forall k :: 0 <= k < |r.h.accepted| ==> r.h.accepted[k] == k % 3
  {
    var all := r.h.accepted + r.toQueue;
    assert r.h.collected <= all;
    forall k | 0 <= k < |all| ensures all[k] == k % 3 {
      Circulating(all, r.h.collected, k);
    }
    forall k | 0 <= k < |r.h.accepted| ensures r.h.accepted[k] == k % 3 {
      assert r.h.accepted[k] == all[k];
    }
  }

  lemma LiveTags(r: Renderer)
    requires RendererInv(r)
    ensures multiset(r.h.s.released + ActiveTags(r.h.s) + r.h.s.queued + r.toQueue) == multiset{0, 1, 2}
  {
    AcceptedTags(r);
    ThreeInCirculation(r);
    var all := r.h.accepted + r.toQueue;
    var live := r.h.s.released + ActiveTags(r.h.s) + r.h.s.queued + r.toQueue;
    var released, active, queued := r.h.s.released, ActiveTags(r.h.s), r.h.s.queued;
    Associative(r.h.collected, released, active);
    Associative(r.h.collected, released + active, queued);
    Associative(r.h.collected, released + active + queued, r.toQueue);
    assert all == r.h.collected + live;
    hide RendererInv, ActiveTags;
    LastThree(r.h.collected, live);
  }

  lemma LastThree(first: seq<Tag>, last: seq<Tag>)
    requires |last| == 3 && forall k :: 0 <= k < |first + last| ==> (first + last)[k] == k % 3
    ensures multiset(last) == multiset{0, 1, 2}
  {
    var n := |first|;
    assert (first + last)[n] == last[0] && (first + last)[n + 1] == last[1] && (first + last)[n + 2] == last[2];
    assert last == [n % 3, (n + 1) % 3, (n + 2) % 3];
    ThreeInARow(n);
  }

  lemma ThreeInARow(n: nat)
    ensures multiset{n % 3, (n + 1) % 3, (n + 2) % 3} == multiset{0, 1, 2}
  {
  }
}
