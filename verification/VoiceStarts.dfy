/** What an update of a voice makes it play, and what the next mixed buffer takes of it: the first samples mixed are
    those of the wave buffer that the guest named, and as many are taken as there are and as fit. */
module VoiceStarts {
  import opened VoiceMixing
  import opened VoiceRuns

  /** The update starts the voice, and nothing of an earlier wave buffer is left over. */
  predicate Starts(v: Voice, info: Info) {
    info.isInUse && info.isNew && v.offset == 0
  }

  /** The samples of the wave buffers that the guest gives, from one of them on. */
  function From(info: Info, w: nat, n: nat): seq<Sample>
    requires |info.waves| == 4
  {
    Playlist(info.waves[w % 4].content, info.waves, w % 4, n)
  }

  /** A voice that is started plays from the wave buffer the guest names; one that is no longer used is set back to
      the first one and counts from zero; any other goes on where it stands, from what it has loaded. */
  lemma UpdateMeans(v: Voice, info: Info, n: nat)
    requires WellFormed(v) && |info.waves| == 4
    ensures var v' := AfterUpdate(v, info);
            && WellFormed(v') && v'.isInUse == info.isInUse && v'.playState == info.playState && v'.waves == info.waves
            && (Starts(v, info) ==> Consistent(v') && Upcoming(v', n) == From(info, info.waveBufferHead, n + 1))
            && (v.isInUse && !info.isInUse ==>
                  && Consistent(v') && Upcoming(v', n) == From(info, 0, n + 1)
                  && v'.playedSampleCount == v'.waveBufferConsumed == 0)
            && (!(v.isInUse && !info.isInUse) ==>
                  v'.playedSampleCount == v.playedSampleCount && v'.waveBufferConsumed == v.waveBufferConsumed)
            && (!(v.isInUse && !info.isInUse) && !(info.isInUse && info.isNew) ==>
                  && v'.waveIndex == v.waveIndex && v'.offset == v.offset && v'.isRefreshPending == v.isRefreshPending
                  && (!v.isRefreshPending ==> Loaded(v') == Loaded(v)))
  {
  }

  /** A whole update of a sound voice that goes on: it finishes what it has loaded, and then plays what the guest
      gives now. */
  lemma UpdateGoesOn(v: Voice, info: Info, n: nat)
    requires Sound(v) && |info.waves| == 4 && !v.isRefreshPending
    requires v.isInUse && info.isInUse && !info.isNew && !info.waves[v.waveIndex].isLooping
    ensures var v' := AfterUpdate(v, info);
            Consistent(v') && Upcoming(v', n) == v.samples[v.offset..] + From(info, v.waveIndex + 1, n)
  {
  }

  // ---- how much a mixed buffer takes -------------------------------------------------------

  function Least(a: nat, b: nat): nat {
    if a <= b then a else b
  }

  lemma {:induction false} MixLength(v: Voice, written: nat, remaining: nat, odd: nat, n: nat)
    requires Consistent(v) && written <= MIX_LENGTH && written + 2 * remaining == MIX_LENGTH + odd
    requires n > MIX_LENGTH - written && Contributes(v, written, remaining).Contributed?
    ensures |Contributes(v, written, remaining).samples| == Least(MIX_LENGTH - written, ReachOf(v, n))
    decreases MIX_LENGTH - written
  {
    hide Dequeue, ReachOf;
    if remaining == 0 {
    } else if !IsPlaying(v) || |Loaded(v)| == v.offset {
      NothingReached(v, n);
      if IsPlaying(v) {
        ChunkOfCurrent(v, remaining);
      } else {
        NotPlayingChunk(v, remaining);
      }
    } else if written + (|Loaded(v)| - v.offset) > MIX_LENGTH {
      LastBuffer(v, written, remaining, odd);
      ChunkOfCurrent(v, remaining);
      DequeueBasics(v, remaining);
      ReachAtLeast(v, n);
      var (v', chunk) := Dequeue(v, remaining);
      assert Contributes(v', MIX_LENGTH, 0) == Contributed(v', []);
    } else {
      OverrunsStep(v, written, remaining, odd);
      ReachStep(v, remaining, n - 1);
      var (v', chunk) := Dequeue(v, remaining);
      var size := |chunk.value|;
      MixLength(v', written + size, remaining - size / 2, odd + size % 2, n - 1);
    }
  }

  /** A voice contributes all that it has to play, up to the end of the mixed buffer. */
  lemma MixTakesAll(v: Voice)
    requires Consistent(v) && Contributes(v, 0, BUFFER_SIZE).Contributed?
    ensures |Contributes(v, 0, BUFFER_SIZE).samples| == Least(MIX_LENGTH, ReachOf(v, ENOUGH))
  {
    hide Contributes, ReachOf;
    MixLength(v, 0, BUFFER_SIZE, 0, ENOUGH);
  }

  /** The counters that are reported to the guest: a frame for every two samples, but not for the odd sample with which
      a wave buffer may end. */
  lemma {:induction false} MixCounts(v: Voice, written: nat, remaining: nat)
    requires Consistent(v) && written <= MIX_LENGTH && Contributes(v, written, remaining).Contributed?
    ensures var c := Contributes(v, written, remaining);
            var frames := c.voice.playedSampleCount - v.playedSampleCount;
            var finished := c.voice.waveBufferConsumed - v.waveBufferConsumed;
            0 <= |c.samples| - 2 * frames <= finished
    decreases MIX_LENGTH - written
  {
    hide Dequeue;
    if remaining > 0 {
      if IsPlaying(v) {
        ChunkOfCurrent(v, remaining);
      } else {
        NotPlayingChunk(v, remaining);
      }
      DequeueBasics(v, remaining);
      var (v', chunk) := Dequeue(v, remaining);
      if chunk.value != [] {
        MixCounts(v', written + |chunk.value|, remaining - |chunk.value| / 2);
      }
    }
  }

  // ---- the first mixed buffer --------------------------------------------------------------

  /** After an update that starts a voice, the next mixed buffer takes the beginning of the wave buffers from the one
      named on: all of the first, if it fits. */
  lemma FirstMixIsHead(v: Voice, info: Info)
    requires WellFormed(v) && |info.waves| == 4 && Starts(v, info) && info.playState == Started
    ensures var c := Contributes(AfterUpdate(v, info), 0, BUFFER_SIZE);
            c.Contributed? ==>
              && c.voice.waveBufferConsumed >= v.waveBufferConsumed
              && c.samples <= From(info, info.waveBufferHead, c.voice.waveBufferConsumed - v.waveBufferConsumed + 1)
              && var content := info.waves[info.waveBufferHead % 4].content;
                 var k := Least(|content|, MIX_LENGTH);
                 k <= |c.samples| && c.samples[..k] == content[..k]
  {
    hide Contributes, AfterUpdate, Playlist, Upcoming;
    var v' := AfterUpdate(v, info);
    StartedVoice(v, info);
    var c := Contributes(v', 0, BUFFER_SIZE);
    if c.Contributed? {
      MixIsPlaylist(v', 0, BUFFER_SIZE, 0);
      var finished := c.voice.waveBufferConsumed - v'.waveBufferConsumed;
      MixIsPlaylist(v', 0, BUFFER_SIZE, finished);
      UpdateMeans(v, info, finished);
      MixTakesAll(v');
      ReachAtLeast(v', ENOUGH);
      HeadFirst(info, finished, c.samples);
    }
  }

  lemma StartedVoice(v: Voice, info: Info)
    requires WellFormed(v) && |info.waves| == 4 && Starts(v, info) && info.playState == Started
    ensures var v' := AfterUpdate(v, info);
            && Consistent(v') && IsPlaying(v') && v'.offset == 0 && v'.waveBufferConsumed == v.waveBufferConsumed
            && Loaded(v') == info.waves[info.waveBufferHead % 4].content
  {
  }

  lemma HeadFirst(info: Info, n: nat, samples: seq<Sample>)
    requires |info.waves| == 4 && samples <= From(info, info.waveBufferHead, n + 1)
    ensures var content := info.waves[info.waveBufferHead % 4].content;
            var k := Least(|content|, |samples|);
            samples[..k] == content[..k]
  {
    var content := info.waves[info.waveBufferHead % 4].content;
    assert content <= From(info, info.waveBufferHead, n + 1);
  }
}
