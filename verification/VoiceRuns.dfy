/** A voice over its whole life: updates by the guest, which replace its wave buffers at any time, and mixes. */
module VoiceRuns {
  import opened VoiceMixing

  /** The parts of `VoiceInfo` that an update brings. */
  datatype Info = Info(isNew: bool, isInUse: bool, playState: PlayState, waveBufferHead: nat, waves: seq<WaveBuffer>)

  /** Lines 123-126 and 147-155: the new information is copied in, and the voice's state follows it. */
  function AfterUpdate(v: Voice, info: Info): Voice {
    var v1 := Updated(v.(infoInUse := info.isInUse, playState := info.playState, waves := info.waves));
    if info.isInUse && info.isNew then WithWaveIndex(v1, info.waveBufferHead) else v1
  }

  datatype Event = Update(info: Info) | Mix

  predicate ValidEvent(e: Event) {
    e.Update? ==> |e.info.waves| == 4
  }

  /** A voice still alive, or the way its run failed: a write past the mixed buffer, or a chunk of undefined size. */
  datatype Run = Alive(voice: Voice) | Overran | Broken

  function After(v: Voice, e: Event): (r: Run)
    requires WellFormed(v) && ValidEvent(e)
    ensures r.Alive? ==> WellFormed(r.voice)
  {
    match e
    case Update(info) => Alive(AfterUpdate(v, info))
    case Mix =>
      ContributedWellFormed(v, 0, BUFFER_SIZE);
      match Contributes(v, 0, BUFFER_SIZE)
      case Contributed(v', _) => Alive(v')
      case Overrun => Overran
      case Undefined => Broken
  }

  predicate ValidEvents(events: seq<Event>) {
    forall i :: 0 <= i < |events| ==> ValidEvent(events[i])
  }

  function RunOf(v: Voice, events: seq<Event>): Run
    requires WellFormed(v) && ValidEvents(events)
    decreases |events|
  {
    if events == [] then Alive(v) else
      var r := After(v, events[0]);
      if r.Alive? then RunOf(r.voice, events[1..]) else r
  }

  /** A voice as the renderer creates it. */
  const INITIAL: Voice :=
    Voice(false, false, 0, 0, [], 0, 0, false, Started, seq(4, i => WaveBuffer([], false, false)))

  /** The offset is zero while samples are to be loaded, and within the samples once they are. */
  predicate Sound(v: Voice) {
    && WellFormed(v)
    && (v.isRefreshPending ==> v.offset == 0)
    && (!v.isRefreshPending ==> v.offset <= |v.samples|)
  }

  /** The update starts the voice anew in the middle of a wave buffer: the offset is not reset. */
  predicate Restarts(v: Voice, info: Info) {
    info.isInUse && info.isNew && v.offset > 0
  }

  /** A sound voice stays sound under any update, with any wave buffers, exactly unless it is restarted. */
  lemma UpdateKeepsExactly(v: Voice, info: Info)
    requires Sound(v) && |info.waves| == 4
    ensures Sound(AfterUpdate(v, info)) <==> !Restarts(v, info)
  {
  }

  lemma ChunkKeeps(v: Voice, sampleCount: nat)
    requires Sound(v)
    ensures Sound(Dequeue(v, sampleCount).0)
  {
  }

  lemma {:induction false} MixKeeps(v: Voice, written: nat, remaining: nat)
    requires Sound(v) && written <= MIX_LENGTH
    ensures var c := Contributes(v, written, remaining); c.Contributed? ==> Sound(c.voice)
    decreases MIX_LENGTH - written
  {
    hide Dequeue;
    if remaining > 0 {
      ChunkKeeps(v, remaining);
      DequeueBasics(v, remaining);
      var (v', chunk) := Dequeue(v, remaining);
      if chunk.Some? && chunk.value != [] && written + |chunk.value| <= MIX_LENGTH {
        MixKeeps(v', written + |chunk.value|, remaining - |chunk.value| / 2);
      }
    }
  }

  /** No update in the run starts the voice anew in the middle of a wave buffer. */
  predicate Undisturbed(v: Voice, events: seq<Event>)
    requires WellFormed(v) && ValidEvents(events)
    decreases |events|
  {
    events == [] ||
    (&& (events[0].Update? ==> !Restarts(v, events[0].info))
     && var r := After(v, events[0]); (r.Alive? ==> Undisturbed(r.voice, events[1..])))
  }

  lemma {:induction false} RunKeeps(v: Voice, events: seq<Event>)
    requires Sound(v) && ValidEvents(events) && Undisturbed(v, events)
    ensures !RunOf(v, events).Broken?
    ensures RunOf(v, events).Alive? ==> Sound(RunOf(v, events).voice)
    decreases |events|
  {
    hide Contributes, AfterUpdate, Sound, Restarts;
    SoundMeans(v);
    if events != [] {
      match events[0] {
        case Update(info) => UpdateKeepsExactly(v, info);
        case Mix =>
          MixKeeps(v, 0, BUFFER_SIZE);
          OverrunsExactly(v);
      }
      var r := After(v, events[0]);
      if r.Alive? {
        RunKeeps(r.voice, events[1..]);
      }
    }
  }

  lemma SoundMeans(v: Voice)
    requires Sound(v)
    ensures Consistent(v)
  {
  }

  /** No undisturbed run, whatever the updates bring, makes a chunk of undefined size. */
  ghost predicate NeverBreaks(v: Voice)
    requires WellFormed(v)
  {
    forall events: seq<Event> :: ValidEvents(events) && Undisturbed(v, events) ==> !RunOf(v, events).Broken?
  }

  /** An update that starts playing wave buffers without samples, and a mix. */
  function EmptyWaves(): Info {
    Info(false, true, Started, 0, seq(4, i => WaveBuffer([], false, false)))
  }

  lemma UnsoundBreaks(v: Voice)
    requires WellFormed(v) && !Sound(v)
    ensures var events := [Update(EmptyWaves()), Mix];
            ValidEvents(events) && Undisturbed(v, events) && RunOf(v, events).Broken?
  {
    var events := [Update(EmptyWaves()), Mix];
    var v1 := AfterUpdate(v, EmptyWaves());
    assert Dequeue(v1, BUFFER_SIZE).1.None?;
    assert After(v1, Mix) == Broken;
    assert events[1..] == [Mix];
    assert RunOf(v1, [Mix]) == Broken;
    assert Undisturbed(v1, [Mix]);
  }

  /** Soundness is exactly what every future needs. */
  lemma SoundExactly(v: Voice)
    requires WellFormed(v)
    ensures NeverBreaks(v) <==> Sound(v)
  {
    hide RunOf, Undisturbed;
    if Sound(v) {
      forall events: seq<Event> | ValidEvents(events) && Undisturbed(v, events) ensures !RunOf(v, events).Broken? {
        RunKeeps(v, events);
      }
    } else {
      UnsoundBreaks(v);
    }
  }

  /** A voice in its life from the start on, disturbed at most by the last update: it can go on for ever, whatever
      comes, exactly if that update does not start it anew in the middle of a wave buffer. */
  lemma EveryLifeExactly(events: seq<Event>, info: Info)
    requires ValidEvents(events) && |info.waves| == 4 && Undisturbed(INITIAL, events)
    ensures !RunOf(INITIAL, events).Broken?
    ensures var r := RunOf(INITIAL, events);
            r.Alive? ==> Sound(r.voice) && Consistent(r.voice) && WellFormed(AfterUpdate(r.voice, info))
                         && (NeverBreaks(AfterUpdate(r.voice, info)) <==> !Restarts(r.voice, info))
  {
    hide Contributes, NeverBreaks;
    RunKeeps(INITIAL, events);
    var r := RunOf(INITIAL, events);
    if r.Alive? {
      SoundMeans(r.voice);
      UpdateKeepsExactly(r.voice, info);
      SoundExactly(AfterUpdate(r.voice, info));
    }
  }

  // ---- whole frames ------------------------------------------------------------------------

  /** Updates only bring wave buffers of whole frames. */
  predicate WholeEvents(events: seq<Event>) {
    forall i :: 0 <= i < |events| && events[i].Update? ==>
      forall w :: 0 <= w < |events[i].info.waves| ==> |events[i].info.waves[w].content| % 2 == 0
  }

  lemma UpdateKeepsWhole(v: Voice, info: Info)
    requires Sound(v) && WholeFrames(v) && |info.waves| == 4 && !Restarts(v, info)
    requires forall w :: 0 <= w < 4 ==> |info.waves[w].content| % 2 == 0
    ensures WholeFrames(AfterUpdate(v, info))
  {
  }

  /** Over any undisturbed run with whole frames, no mix fails. */
  lemma {:induction false} WholeRunsLive(v: Voice, events: seq<Event>)
    requires Sound(v) && WholeFrames(v) && ValidEvents(events) && Undisturbed(v, events) && WholeEvents(events)
    ensures RunOf(v, events).Alive? && WholeFrames(RunOf(v, events).voice)
    decreases |events|
  {
    hide Contributes, AfterUpdate, Sound, Restarts, WholeFrames;
    SoundMeans(v);
    if events != [] {
      match events[0] {
        case Update(info) =>
          UpdateKeepsExactly(v, info);
          UpdateKeepsWhole(v, info);
        case Mix =>
          MixKeeps(v, 0, BUFFER_SIZE);
          WholeFramesFit(v);
      }
      WholeRunsLive(After(v, events[0]).voice, events[1..]);
    }
  }

  /** In particular from the initial voice on. */
  lemma EveryWholeLifeLives(events: seq<Event>)
    requires ValidEvents(events) && Undisturbed(INITIAL, events) && WholeEvents(events)
    ensures RunOf(INITIAL, events).Alive?
  {
    WholeRunsLive(INITIAL, events);
  }
}
