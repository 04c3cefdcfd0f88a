/** The voices of src/audio_core/audio_renderer.cpp: cutting the samples of four wave buffers, taken in
    turn, into chunks of any requested size, and mixing the chunks of all voices into one buffer. */
module VoiceMixing {
  import opened Wrappers

  /** Frames in a mixed buffer; the stream has two channels, so a frame is two samples. */
  const BUFFER_SIZE: nat := 512
  const MIX_LENGTH: nat := 1024

  type Sample = int

  datatype PlayState = Started | Stopped | Paused

  /** A wave buffer; `content` is what `RefreshBuffer` makes of it: read from guest memory, decoded,
      brought to two channels and to the sample rate of the stream. */
  datatype WaveBuffer = WaveBuffer(content: seq<Sample>, isLooping: bool, endOfStream: bool)

  /** `VoiceState` with the parts of `VoiceInfo` it reads; `infoInUse` is the flag of the latest update. */
  datatype Voice = Voice(isInUse: bool, isRefreshPending: bool, waveIndex: nat, offset: nat, samples: seq<Sample>,
                         playedSampleCount: nat, waveBufferConsumed: nat,
                         infoInUse: bool, playState: PlayState, waves: seq<WaveBuffer>)

  predicate WellFormed(v: Voice) {
    |v.waves| == 4 && v.waveIndex < 4
  }

  predicate IsPlaying(v: Voice) {
    v.isInUse && v.playState == Started
  }

  /** `SetWaveIndex`. */
  function WithWaveIndex(v: Voice, index: nat): Voice {
    v.(waveIndex := index % 4, isRefreshPending := true)
  }

  function Refreshed(v: Voice): Voice
    requires WellFormed(v)
  {
    if v.isRefreshPending then v.(samples := v.waves[v.waveIndex].content, isRefreshPending := false) else v
  }

  /** Lines 217-229: the end of a wave buffer was reached. */
  function Finished(v: Voice): Voice
    requires WellFormed(v)
  {
    var wave := v.waves[v.waveIndex];
    var v1 := v.(offset := 0);
    var v2 := if wave.isLooping then v1 else WithWaveIndex(v1, v1.waveIndex + 1);
    var v3 := v2.(waveBufferConsumed := v2.waveBufferConsumed + 1);
    if wave.endOfStream then v3.(playState := Paused) else v3
  }

  /** `DequeueSamples`: the new state and the chunk; None when `offset` lies past the end of the samples,
      where the source computes a size below zero. */
  function Dequeue(v: Voice, sampleCount: nat): (Voice, Option<seq<Sample>>)
    requires WellFormed(v)
  {
    if !IsPlaying(v) then (v, Some([])) else
      var v1 := Refreshed(v);
      if v1.offset > |v1.samples| then (v1, None) else
        var maxSize := |v1.samples| - v1.offset;
        var size := if sampleCount * 2 > maxSize then maxSize else sampleCount * 2;
        var v2 := v1.(playedSampleCount := v1.playedSampleCount + size / 2, offset := v1.offset + size);
        (if v2.offset == |v2.samples| then Finished(v2) else v2, Some(v1.samples[v1.offset..v1.offset + size]))
  }

  /** `UpdateState`. */
  function Updated(v: Voice): Voice {
    var v1 := if v.isInUse && !v.infoInUse
              then v.(isRefreshPending := true, waveIndex := 0, offset := 0,
                      playedSampleCount := 0, waveBufferConsumed := 0)
              else v;
    v1.(isInUse := v.infoInUse)
  }

  // ---- chunks and wave buffers -------------------------------------------------------------

  function NextIndex(waves: seq<WaveBuffer>, w: nat): nat
    requires |waves| == 4 && w < 4
  {
    if waves[w].isLooping then w else (w + 1) % 4
  }

  /** The samples that play after `loaded`, which are those of wave buffer `w`. */
  function NextLoaded(loaded: seq<Sample>, waves: seq<WaveBuffer>, w: nat): seq<Sample>
    requires |waves| == 4 && w < 4
  {
    if waves[w].isLooping then loaded else waves[(w + 1) % 4].content
  }

  /** The samples of `n` wave buffers in playing order, starting with number `w`, of which `loaded` are loaded. */
  function Playlist(loaded: seq<Sample>, waves: seq<WaveBuffer>, w: nat, n: nat): seq<Sample>
    requires |waves| == 4 && w < 4
    decreases n
  {
    if n == 0 then []
    else loaded + Playlist(NextLoaded(loaded, waves, w), waves, NextIndex(waves, w), n - 1)
  }

  /** The samples of the current wave buffer, as they were loaded or are about to be. */
  function Loaded(v: Voice): seq<Sample>
    requires WellFormed(v)
  {
    if v.isRefreshPending then v.waves[v.waveIndex].content else v.samples
  }

  /** The offset lies within the samples. */
  predicate Consistent(v: Voice) {
    WellFormed(v) && v.offset <= |Loaded(v)|
  }

  /** What is still to be played of the current wave buffer, and then of the next `n`. */
  function Upcoming(v: Voice, n: nat): seq<Sample>
    requires Consistent(v)
  {
    Loaded(v)[v.offset..]
    + Playlist(NextLoaded(Loaded(v), v.waves, v.waveIndex), v.waves, NextIndex(v.waves, v.waveIndex), n)
  }

  /** A chunk of a consistent voice: a piece of the current wave buffer, after which the voice stands
      right behind it, or at the start of the next wave buffer. */
  lemma ChunkOfCurrent(v: Voice, sampleCount: nat)
    requires Consistent(v) && IsPlaying(v)
    ensures var (v', chunk) := Dequeue(v, sampleCount);
            var loaded := Loaded(v);
            var rest := |loaded| - v.offset;
            var end := v.offset + if sampleCount * 2 > rest then rest else sampleCount * 2;
            && chunk == Some(loaded[v.offset..end]) && Consistent(v') && v'.waves == v.waves && v'.isInUse
            && v'.playedSampleCount == v.playedSampleCount + (end - v.offset) / 2
            && (end < |loaded| ==>
                  v'.waveIndex == v.waveIndex && v'.offset == end && v'.waveBufferConsumed == v.waveBufferConsumed
                  && v'.playState == v.playState && Loaded(v') == loaded)
            && (end == |loaded| ==>
                  v'.waveIndex == NextIndex(v.waves, v.waveIndex) && v'.offset == 0
                  && v'.waveBufferConsumed == v.waveBufferConsumed + 1
                  && v'.playState == (if v.waves[v.waveIndex].endOfStream then Paused else Started)
                  && Loaded(v') == NextLoaded(loaded, v.waves, v.waveIndex))
  {
    hide Finished;
    var v1 := Refreshed(v);
    var rest := |v1.samples| - v1.offset;
    var size := if sampleCount * 2 > rest then rest else sampleCount * 2;
    FinishedMeans(v1.(playedSampleCount := v1.playedSampleCount + size / 2, offset := v1.offset + size));
  }

  lemma FinishedMeans(v: Voice)
    requires WellFormed(v) && IsPlaying(v) && !v.isRefreshPending
    ensures var v' := Finished(v);
            && WellFormed(v') && v'.waveIndex == NextIndex(v.waves, v.waveIndex) && v'.offset == 0
            && v'.waves == v.waves && v'.isInUse && v'.playedSampleCount == v.playedSampleCount
            && v'.waveBufferConsumed == v.waveBufferConsumed + 1
            && v'.playState == (if v.waves[v.waveIndex].endOfStream then Paused else Started)
            && Loaded(v') == NextLoaded(v.samples, v.waves, v.waveIndex)
  {
  }

  lemma AheadInBuffer(v: Voice, v': Voice, n: nat)
    requires Consistent(v) && Consistent(v') && v'.waves == v.waves && Loaded(v') == Loaded(v)
    requires v'.waveIndex == v.waveIndex && v.offset <= v'.offset
    ensures Upcoming(v, n) == Loaded(v)[v.offset..v'.offset] + Upcoming(v', n)
  {
  }

  lemma AheadAcrossBuffers(v: Voice, v': Voice, n: nat)
    requires Consistent(v) && Consistent(v') && v'.waves == v.waves && n >= 1
    requires v'.waveIndex == NextIndex(v.waves, v.waveIndex) && v'.offset == 0
    requires Loaded(v') == NextLoaded(Loaded(v), v.waves, v.waveIndex)
    ensures Upcoming(v, n) == Loaded(v)[v.offset..] + Upcoming(v', n - 1)
  {
    assert Loaded(v')[0..] == Loaded(v');
  }

  lemma NotPlayingChunk(v: Voice, sampleCount: nat)
    requires WellFormed(v) && !IsPlaying(v)
    ensures Dequeue(v, sampleCount) == (v, Some([]))
  {
  }

  lemma ConsistentMeans(v: Voice)
    requires Consistent(v)
    ensures WellFormed(v) && v.offset <= |Loaded(v)|
  {
  }

  /** Whatever the size requested, a chunk is the next piece of the wave buffers in playing order. */
  lemma ChunkIsNext(v: Voice, sampleCount: nat, n: nat)
    requires Consistent(v)
    ensures var (v', chunk) := Dequeue(v, sampleCount);
            && Consistent(v') && WellFormed(v') && v'.waves == v.waves && chunk.Some?
            && var finished := v'.waveBufferConsumed - v.waveBufferConsumed;
               && 0 <= finished <= 1
               && (finished <= n ==> Upcoming(v, n) == chunk.value + Upcoming(v', n - finished))
  {
    hide Dequeue, Upcoming, Consistent, NextLoaded, Loaded;
    ConsistentMeans(v);
    var (v', chunk) := Dequeue(v, sampleCount);
    if !IsPlaying(v) {
      NotPlayingChunk(v, sampleCount);
      assert Upcoming(v, n) == [] + Upcoming(v, n);
    } else {
      ChunkOfCurrent(v, sampleCount);
      ConsistentMeans(v');
      if v'.waveBufferConsumed == v.waveBufferConsumed {
        AheadInBuffer(v, v', n);
      } else if n >= 1 {
        AheadAcrossBuffers(v, v', n);
        assert Loaded(v)[v.offset..|Loaded(v)|] == Loaded(v)[v.offset..];
      }
    }
  }

  /** A run of requests: the final state and all chunks put together. */
  function DequeueAll(v: Voice, requests: seq<nat>): (Voice, Option<seq<Sample>>)
    requires WellFormed(v)
    decreases |requests|
  {
    if requests == [] then (v, Some([])) else
      var (v', chunk) := Dequeue(v, requests[0]);
      if chunk.None? then (v', None) else
        assert WellFormed(v');
        var (v'', rest) := DequeueAll(v', requests[1..]);
        (v'', if rest.None? then None else Some(chunk.value + rest.value))
  }

  /** For every run of requests, whatever their sizes, the chunks put together are a beginning of the
      wave buffers in playing order, and what is left follows on. */
  lemma {:induction false} ChunksArePlaylist(v: Voice, requests: seq<nat>, n: nat)
    requires Consistent(v)
    ensures var (v', chunks) := DequeueAll(v, requests);
            && Consistent(v') && v'.waves == v.waves && chunks.Some?
            && var finished := v'.waveBufferConsumed - v.waveBufferConsumed;
               && 0 <= finished
               && (finished <= n ==> Upcoming(v, n) == chunks.value + Upcoming(v', n - finished))
    decreases |requests|
  {
    hide Upcoming, Dequeue, Loaded;
    if requests == [] {
      assert Upcoming(v, n) == [] + Upcoming(v, n);
    } else {
      var (v1, chunk) := Dequeue(v, requests[0]);
      ChunkIsNext(v, requests[0], n);
      hide Consistent;
      var (v', chunks) := DequeueAll(v, requests);
      var rest := DequeueAll(v1, requests[1..]).1;
      var one := v1.waveBufferConsumed - v.waveBufferConsumed;
      ChunksArePlaylist(v1, requests[1..], if one <= n then n - one else 0);
      if v'.waveBufferConsumed - v.waveBufferConsumed <= n {
        var k := n - (v'.waveBufferConsumed - v.waveBufferConsumed);
        assert chunk.value + (rest.value + Upcoming(v', k)) == chunk.value + rest.value + Upcoming(v', k);
      }
    }
  }

  /** Starting another wave buffer in the middle of one: the offset is kept, so the next chunk exists
      exactly when the offset lies within the new buffer, and starts at its beginning only if the
      offset is zero. */
  lemma NewWaveIndexExactly(v: Voice, index: nat, sampleCount: nat)
    requires Consistent(v) && IsPlaying(v)
    ensures var v1 := WithWaveIndex(v, index);
            && (Dequeue(v1, sampleCount).1.Some? <==> v.offset <= |Loaded(v1)|)
            && (v.offset <= |Loaded(v1)| ==> Consistent(v1) && Upcoming(v1, 0) == Loaded(v1)[v.offset..])
  {
  }

  // ---- mixing ------------------------------------------------------------------------------

  /** What one voice contributes to a mixed buffer, as far as lines 326-342 take it: the samples in order, a
      write past the end of the buffer, or a chunk of undefined size. */
  datatype Contribution = Contributed(voice: Voice, samples: seq<Sample>) | Overrun | Undefined

  /** The contribution of a voice that has already contributed `mixed`. */
  function More(mixed: seq<Sample>, c: Contribution): Contribution {
    if c.Contributed? then c.(samples := mixed + c.samples) else c
  }

  function Contributes(v: Voice, written: nat, remaining: nat): Contribution
    requires WellFormed(v) && written <= MIX_LENGTH
    decreases MIX_LENGTH - written
  {
    if remaining == 0 then Contributed(v, []) else
      var (v', chunk) := Dequeue(v, remaining);
      DequeueBasics(v, remaining);
      if chunk.None? then Undefined
      else if chunk.value == [] then Contributed(v', [])
      else if written + |chunk.value| > MIX_LENGTH then Overrun
      else More(chunk.value, Contributes(v', written + |chunk.value|, remaining - |chunk.value| / 2))
  }

  lemma DequeueBasics(v: Voice, sampleCount: nat)
    requires WellFormed(v)
    ensures var (v', chunk) := Dequeue(v, sampleCount);
            WellFormed(v') && (chunk.Some? ==> |chunk.value| <= 2 * sampleCount)
  {
  }

  lemma ContributedWellFormed(v: Voice, written: nat, remaining: nat)
    requires WellFormed(v) && written <= MIX_LENGTH
    ensures var c := Contributes(v, written, remaining); c.Contributed? ==> WellFormed(c.voice)
    decreases MIX_LENGTH - written
  {
    hide Dequeue;
    if remaining > 0 {
      DequeueBasics(v, remaining);
      var (v', chunk) := Dequeue(v, remaining);
      if chunk.Some? && chunk.value != [] && written + |chunk.value| <= MIX_LENGTH {
        ContributedWellFormed(v', written + |chunk.value|, remaining - |chunk.value| / 2);
      }
    }
  }

  /** The voice contributes the beginning of its wave buffers in playing order. */
  predicate Follows(v: Voice, c: Contribution, n: nat) {
    && Consistent(v) && c.Contributed? && Consistent(c.voice) && v.waveBufferConsumed <= c.voice.waveBufferConsumed
    && var finished := c.voice.waveBufferConsumed - v.waveBufferConsumed;
       (finished <= n ==> Upcoming(v, n) == c.samples + Upcoming(c.voice, n - finished))
  }

  lemma FollowsMore(v: Voice, v': Voice, chunk: seq<Sample>, c: Contribution, n: nat)
    requires Consistent(v) && Consistent(v') && 0 <= v'.waveBufferConsumed - v.waveBufferConsumed <= 1
    requires var one := v'.waveBufferConsumed - v.waveBufferConsumed;
             && (one <= n ==> Upcoming(v, n) == chunk + Upcoming(v', n - one))
             && Follows(v', c, if one <= n then n - one else 0)
    ensures Follows(v, More(chunk, c), n)
  {
    hide Upcoming, Loaded;
    var one := v'.waveBufferConsumed - v.waveBufferConsumed;
    var finished := c.voice.waveBufferConsumed - v.waveBufferConsumed;
    if finished <= n {
      var rest := Upcoming(c.voice, n - finished);
      assert chunk + (c.samples + rest) == chunk + c.samples + rest;
    }
  }

  lemma FollowsNothing(v: Voice, n: nat)
    requires Consistent(v)
    ensures Follows(v, Contributed(v, []), n)
  {
  }

  /** What a mixed voice contributes is the beginning of its wave buffers in playing order. */
  lemma {:induction false} MixIsPlaylist(v: Voice, written: nat, remaining: nat, n: nat)
    requires Consistent(v) && written <= MIX_LENGTH && Contributes(v, written, remaining).Contributed?
    ensures Follows(v, Contributes(v, written, remaining), n)
    decreases MIX_LENGTH - written
  {
    hide Upcoming, Dequeue, Consistent, Follows;
    ConsistentMeans(v);
    if remaining == 0 {
      FollowsNothing(v, n);
    } else {
      var (v', chunk) := Dequeue(v, remaining);
      ChunkIsNext(v, remaining, n);
      DequeueBasics(v, remaining);
      var one := v'.waveBufferConsumed - v.waveBufferConsumed;
      var m := if one <= n then n - one else 0;
      if chunk.value == [] {
        FollowsNothing(v', m);
        FollowsMore(v, v', [], Contributed(v', []), n);
        assert [] + [] == chunk.value;
      } else {
        var k := |chunk.value|;
        MixIsPlaylist(v', written + k, remaining - k / 2, m);
        FollowsMore(v, v', chunk.value, Contributes(v', written + k, remaining - k / 2), n);
      }
    }
  }

  // ---- the end of the mixed buffer ---------------------------------------------------------

  /** Number of samples that play until `n` wave buffers are finished or the voice stops, at an end of stream
      or an empty buffer: `rest` of the current buffer, which has `length` samples, and then the others. */
  function Reach(rest: nat, length: nat, waves: seq<WaveBuffer>, w: nat, n: nat): nat
    requires |waves| == 4 && w < 4
    decreases n
  {
    if n == 0 || rest == 0 then 0
    else if waves[w].endOfStream then rest
    else
      var next := if waves[w].isLooping then length else |waves[(w + 1) % 4].content|;
      rest + Reach(next, next, waves, NextIndex(waves, w), n - 1)
  }

  function ReachOf(v: Voice, n: nat): nat
    requires Consistent(v)
  {
    if IsPlaying(v) then Reach(|Loaded(v)| - v.offset, |Loaded(v)|, v.waves, v.waveIndex, n) else 0
  }

  /** More than one mixed buffer is there to play. */
  ghost predicate PlaysPast(v: Voice, written: nat)
    requires Consistent(v)
  {
    exists n: nat :: written + ReachOf(v, n) > MIX_LENGTH
  }

  /** Some wave buffer ends inside the mixed buffer, after an odd number of samples. */
  ghost predicate EndsOdd(v: Voice, written: nat)
    requires Consistent(v)
  {
    exists n: nat :: ReachOf(v, n) % 2 == 1 && written + ReachOf(v, n) < MIX_LENGTH
  }

  /** The samples reached are those left in the current buffer and those reached from the next one. */
  lemma ReachStep(v: Voice, sampleCount: nat, n: nat)
    requires Consistent(v) && IsPlaying(v) && 0 < |Loaded(v)| - v.offset <= 2 * sampleCount
    ensures var (v', chunk) := Dequeue(v, sampleCount);
            && Consistent(v') && chunk.Some? && |chunk.value| == |Loaded(v)| - v.offset
            && ReachOf(v, n + 1) == |chunk.value| + ReachOf(v', n)
  {
    hide Dequeue;
    ChunkOfCurrent(v, sampleCount);
  }

  lemma NothingReached(v: Voice, n: nat)
    requires Consistent(v) && (!IsPlaying(v) || |Loaded(v)| == v.offset)
    ensures ReachOf(v, n) == 0
  {
  }

  lemma ReachAtLeast(v: Voice, n: nat)
    requires Consistent(v) && IsPlaying(v)
    ensures ReachOf(v, 0) == 0 && (n > 0 ==> ReachOf(v, n) >= |Loaded(v)| - v.offset)
    ensures ReachOf(v, 1) == |Loaded(v)| - v.offset
  {
    assert ReachOf(v, 1) == |Loaded(v)| - v.offset by {
      var rest := |Loaded(v)| - v.offset;
      if rest > 0 && !v.waves[v.waveIndex].endOfStream {
        assert Reach(0, 0, v.waves, NextIndex(v.waves, v.waveIndex), 0) == 0;
      }
    }
  }

  /** Both conditions carry over from one wave buffer to the next. */
  lemma ConditionsStep(v: Voice, v': Voice, size: nat, written: nat)
    requires Consistent(v) && Consistent(v') && size > 0 && written + size <= MIX_LENGTH
    requires ReachOf(v, 0) == 0 && ReachOf(v, 1) == size && ReachOf(v', 0) == 0
    requires forall n: nat :: ReachOf(v, n + 1) == size + ReachOf(v', n)
    ensures PlaysPast(v, written) <==> PlaysPast(v', written + size)
    ensures size % 2 == 0 ==> (EndsOdd(v, written) <==> EndsOdd(v', written + size))
    ensures size % 2 == 1 && written % 2 == 0 ==> EndsOdd(v, written)
  {
    hide ReachOf;
    if n: nat :| written + ReachOf(v, n) > MIX_LENGTH {
      assert ReachOf(v, (n - 1) + 1) == size + ReachOf(v', n - 1);
    }
    if n: nat :| written + size + ReachOf(v', n) > MIX_LENGTH {
      assert ReachOf(v, n + 1) == size + ReachOf(v', n);
    }
    if size % 2 == 0 {
      if n: nat :| ReachOf(v, n) % 2 == 1 && written + ReachOf(v, n) < MIX_LENGTH {
        assert ReachOf(v, (n - 1) + 1) == size + ReachOf(v', n - 1);
      }
      if n: nat :| ReachOf(v', n) % 2 == 1 && written + size + ReachOf(v', n) < MIX_LENGTH {
        assert ReachOf(v, n + 1) == size + ReachOf(v', n);
      }
    } else if written % 2 == 0 {
      assert ReachOf(v, 1) % 2 == 1 && written + ReachOf(v, 1) < MIX_LENGTH;
    }
  }

  /** The buffer at hand is longer than the room left: only after an odd buffer is it written past the end. */
  lemma LastBuffer(v: Voice, written: nat, remaining: nat, odd: nat)
    requires Consistent(v) && IsPlaying(v) && written <= MIX_LENGTH && written + 2 * remaining == MIX_LENGTH + odd
    requires remaining > 0 && written + (|Loaded(v)| - v.offset) > MIX_LENGTH
    ensures Contributes(v, written, remaining) == Overrun <==> odd > 0
    ensures Contributes(v, written, remaining) != Undefined
    ensures PlaysPast(v, written) && !EndsOdd(v, written)
  {
    hide Dequeue, ReachOf;
    ChunkOfCurrent(v, remaining);
    DequeueBasics(v, remaining);
    ReachAtLeast(v, 1);
    forall n: nat ensures !(ReachOf(v, n) % 2 == 1 && written + ReachOf(v, n) < MIX_LENGTH) {
      ReachAtLeast(v, n);
    }
    var (v', chunk) := Dequeue(v, remaining);
    if odd == 0 {
      assert |chunk.value| == 2 * remaining;
      assert Contributes(v', MIX_LENGTH, 0) == Contributed(v', []);
    }
  }

  /** Mixing from any point on, where `odd` wave buffers of odd length have ended in this mixed buffer. */
  lemma {:induction false} OverrunsFrom(v: Voice, written: nat, remaining: nat, odd: nat)
    requires Consistent(v) && written <= MIX_LENGTH && written + 2 * remaining == MIX_LENGTH + odd
    ensures Contributes(v, written, remaining) == Overrun <==> PlaysPast(v, written) && (odd > 0 || EndsOdd(v, written))
    ensures Contributes(v, written, remaining) != Undefined
    decreases MIX_LENGTH - written
  {
    hide Dequeue, ReachOf;
    if remaining == 0 {
      assert !EndsOdd(v, written);
    } else if !IsPlaying(v) || |Loaded(v)| == v.offset {
      forall n: nat ensures ReachOf(v, n) == 0 {
        NothingReached(v, n);
      }
      if IsPlaying(v) {
        ChunkOfCurrent(v, remaining);
      } else {
        NotPlayingChunk(v, remaining);
      }
    } else if written + (|Loaded(v)| - v.offset) > MIX_LENGTH {
      LastBuffer(v, written, remaining, odd);
    } else {
      OverrunsStep(v, written, remaining, odd);
      var (v', chunk) := Dequeue(v, remaining);
      var size := |chunk.value|;
      OverrunsFrom(v', written + size, remaining - size / 2, odd + size % 2);
    }
  }

  /** A whole wave buffer is mixed in. */
  lemma OverrunsStep(v: Voice, written: nat, remaining: nat, odd: nat)
    requires Consistent(v) && written <= MIX_LENGTH && written + 2 * remaining == MIX_LENGTH + odd && remaining > 0
    requires IsPlaying(v) && v.offset < |Loaded(v)| && written + (|Loaded(v)| - v.offset) <= MIX_LENGTH
    ensures var (v', chunk) := Dequeue(v, remaining);
            && Consistent(v') && chunk.Some?
            && var size := |chunk.value|;
               && 0 < size <= MIX_LENGTH - written && size / 2 <= remaining
               && Contributes(v, written, remaining)
                  == More(chunk.value, Contributes(v', written + size, remaining - size / 2))
               && (PlaysPast(v, written) <==> PlaysPast(v', written + size))
               && (size % 2 == 0 ==> (EndsOdd(v, written) <==> EndsOdd(v', written + size)))
               && (size % 2 == 1 && odd == 0 ==> EndsOdd(v, written))
  {
    hide Dequeue, ReachOf, PlaysPast, EndsOdd;
    var (v', chunk) := Dequeue(v, remaining);
    DequeueBasics(v, remaining);
    ReachStep(v, remaining, 0);
    forall n: nat ensures ReachOf(v, n + 1) == |chunk.value| + ReachOf(v', n) {
      ReachStep(v, remaining, n);
    }
    ReachAtLeast(v, 1);
    NoneReached(v');
    ConditionsStep(v, v', |chunk.value|, written);
  }

  lemma NoneReached(v: Voice)
    requires Consistent(v)
    ensures ReachOf(v, 0) == 0
  {
  }

  /** As many wave buffers as a mixed buffer can hold the end of: each that ends has at least one sample. */
  const ENOUGH: nat := 1025

  lemma {:induction false} ReachSettles(rest: nat, length: nat, waves: seq<WaveBuffer>, w: nat, m: nat, n: nat)
    requires |waves| == 4 && w < 4 && m <= n
    ensures Reach(rest, length, waves, w, m) >= m
            || Reach(rest, length, waves, w, n) == Reach(rest, length, waves, w, m)
    ensures Reach(rest, length, waves, w, m) <= Reach(rest, length, waves, w, n)
    decreases m
  {
    if m > 0 && rest > 0 && !waves[w].endOfStream {
      var next := if waves[w].isLooping then length else |waves[(w + 1) % 4].content|;
      ReachSettles(next, next, waves, NextIndex(waves, w), m - 1, n - 1);
    }
  }

  lemma ReachOfSettles(v: Voice, n: nat)
    requires Consistent(v)
    ensures n <= ENOUGH ==> ReachOf(v, n) <= ReachOf(v, ENOUGH)
    ensures n > ENOUGH ==> ReachOf(v, n) == ReachOf(v, ENOUGH) || ReachOf(v, n) >= ReachOf(v, ENOUGH) >= ENOUGH
  {
    hide Reach;
    if IsPlaying(v) {
      var rest := |Loaded(v)| - v.offset;
      if n <= ENOUGH {
        ReachSettles(rest, |Loaded(v)|, v.waves, v.waveIndex, n, ENOUGH);
      } else {
        ReachSettles(rest, |Loaded(v)|, v.waves, v.waveIndex, ENOUGH, n);
      }
    }
  }

  /** For every voice whose offset lies within its samples: mixing it writes past the end of the buffer exactly
      when more than 1024 samples are there to play and one of the wave buffers played ends before the end of the
      mixed buffer after an odd number of samples. */
  lemma OverrunsExactly(v: Voice)
    requires Consistent(v)
    ensures Contributes(v, 0, BUFFER_SIZE) == Overrun
            <==> ReachOf(v, ENOUGH) > MIX_LENGTH
                 && exists n: nat :: n <= ENOUGH && ReachOf(v, n) % 2 == 1 && ReachOf(v, n) < MIX_LENGTH
    ensures Contributes(v, 0, BUFFER_SIZE) != Undefined
  {
    hide ReachOf;
    OverrunsFrom(v, 0, BUFFER_SIZE, 0);
    forall n: nat
      ensures ReachOf(v, n) > MIX_LENGTH ==> ReachOf(v, ENOUGH) > MIX_LENGTH
      ensures n > ENOUGH && ReachOf(v, n) < MIX_LENGTH ==> ReachOf(v, n) == ReachOf(v, ENOUGH)
    {
      ReachOfSettles(v, n);
    }
  }

  /** Without looping: three samples, and then two thousand, run over the first mixed buffer. */
  lemma OddBufferOverruns(v: Voice)
    requires Consistent(v) && IsPlaying(v) && v.offset == 0 && |Loaded(v)| == 3 && v.waveIndex == 0
    requires !v.waves[0].isLooping && !v.waves[0].endOfStream && |v.waves[1].content| == 2000
    ensures Contributes(v, 0, BUFFER_SIZE) == Overrun
  {
    OverrunsExactly(v);
    ReachAtLeast(v, 1);
    assert Reach(2000, 2000, v.waves, 1, 1) == 2000;
    assert ReachOf(v, 2) == 2003;
  }

  /** Every wave buffer holds whole frames, and so does the part of the current one already played. */
  predicate WholeFrames(v: Voice) {
    && Consistent(v) && v.offset % 2 == 0 && |Loaded(v)| % 2 == 0
    && forall w :: 0 <= w < 4 ==> |v.waves[w].content| % 2 == 0
  }

  lemma {:induction false} EvenReach(rest: nat, length: nat, waves: seq<WaveBuffer>, w: nat, n: nat)
    requires |waves| == 4 && w < 4 && rest % 2 == 0 && length % 2 == 0
    requires forall i :: 0 <= i < 4 ==> |waves[i].content| % 2 == 0
    ensures Reach(rest, length, waves, w, n) % 2 == 0
    decreases n
  {
    if n > 0 && rest > 0 && !waves[w].endOfStream {
      var w' := (w + 1) % 4;
      assert 0 <= w' < 4 && |waves[w'].content| % 2 == 0;
      var next := if waves[w].isLooping then length else |waves[w'].content|;
      EvenReach(next, next, waves, NextIndex(waves, w), n - 1);
    }
  }

  /** With whole frames a voice never writes past the mixed buffer, and whole frames are left. */
  lemma WholeFramesFit(v: Voice)
    requires WholeFrames(v)
    ensures var c := Contributes(v, 0, BUFFER_SIZE); c.Contributed? && WholeFrames(c.voice)
  {
    hide Contributes, ReachOf;
    forall n: nat ensures ReachOf(v, n) % 2 == 0 {
      WholeReach(v, n);
    }
    EvenReachFits(v);
    FramesStayWhole(v, 0, BUFFER_SIZE);
  }

  lemma WholeReach(v: Voice, n: nat)
    requires WholeFrames(v)
    ensures ReachOf(v, n) % 2 == 0
  {
    EvenReach(|Loaded(v)| - v.offset, |Loaded(v)|, v.waves, v.waveIndex, n);
  }

  lemma EvenReachFits(v: Voice)
    requires Consistent(v) && forall n: nat :: ReachOf(v, n) % 2 == 0
    ensures Contributes(v, 0, BUFFER_SIZE).Contributed?
  {
    hide Contributes, ReachOf;
    OverrunsExactly(v);
  }

  lemma {:induction false} FramesStayWhole(v: Voice, written: nat, remaining: nat)
    requires WholeFrames(v) && written <= MIX_LENGTH && Contributes(v, written, remaining).Contributed?
    ensures WholeFrames(Contributes(v, written, remaining).voice)
    decreases MIX_LENGTH - written
  {
    hide Dequeue;
    if remaining > 0 {
      ChunkIsWholeFrames(v, remaining);
      DequeueBasics(v, remaining);
      var (v', chunk) := Dequeue(v, remaining);
      if chunk.value != [] {
        FramesStayWhole(v', written + |chunk.value|, remaining - |chunk.value| / 2);
      }
    }
  }

  lemma ChunkIsWholeFrames(v: Voice, sampleCount: nat)
    requires WholeFrames(v)
    ensures var (v', chunk) := Dequeue(v, sampleCount); chunk.Some? && WholeFrames(v')
  {
    hide Dequeue;
    if IsPlaying(v) {
      ChunkOfCurrent(v, sampleCount);
    } else {
      NotPlayingChunk(v, sampleCount);
    }
  }

  // ---- looping -----------------------------------------------------------------------------

  /** A voice in the middle of a wave buffer that loops. */
  predicate Loops(v: Voice) {
    && Consistent(v) && IsPlaying(v) && v.offset < |Loaded(v)|
    && v.waves[v.waveIndex].isLooping && !v.waves[v.waveIndex].endOfStream
  }

  lemma LoopsMeans(v: Voice)
    requires Loops(v)
    ensures Consistent(v) && WellFormed(v) && IsPlaying(v) && v.offset < |Loaded(v)|
  {
  }

  lemma LoopingChunk(v: Voice, sampleCount: nat)
    requires Loops(v) && sampleCount > 0
    ensures var (v', chunk) := Dequeue(v, sampleCount);
            var rest := |Loaded(v)| - v.offset;
            var size := if sampleCount * 2 > rest then rest else sampleCount * 2;
            && Loops(v') && WellFormed(v') && Loaded(v') == Loaded(v) && chunk.Some? && |chunk.value| == size > 0
            && v'.offset == if v.offset + size == |Loaded(v)| then 0 else v.offset + size
  {
  }

  lemma {:induction false} LoopReach(rest: nat, length: nat, waves: seq<WaveBuffer>, w: nat, n: nat)
    requires |waves| == 4 && w < 4 && waves[w].isLooping && !waves[w].endOfStream && rest > 0 && length > 0
    ensures Reach(rest, length, waves, w, n) >= n
    ensures n > 0 ==> Reach(rest, length, waves, w, n) == rest + Reach(length, length, waves, w, n - 1)
    decreases n
  {
    if n > 0 {
      LoopReach(length, length, waves, w, n - 1);
    }
  }

  /** A looping voice never runs out, so it overruns as soon as one of its rounds ends odd. */
  lemma LoopOverruns(v: Voice, n: nat)
    requires Loops(v) && ReachOf(v, n) % 2 == 1 && ReachOf(v, n) < MIX_LENGTH
    ensures Contributes(v, 0, BUFFER_SIZE) == Overrun
  {
    hide Contributes, Reach;
    OverrunsExactly(v);
    LoopReach(|Loaded(v)| - v.offset, |Loaded(v)|, v.waves, v.waveIndex, ENOUGH);
    LoopReach(|Loaded(v)| - v.offset, |Loaded(v)|, v.waves, v.waveIndex, n);
  }

  /** With at least that many samples left it just takes 1024 of them. */
  lemma LoopTakes(v: Voice)
    requires Loops(v) && |Loaded(v)| - v.offset >= MIX_LENGTH
    ensures var c := Contributes(v, 0, BUFFER_SIZE);
            && c.Contributed? && Loops(c.voice) && Loaded(c.voice) == Loaded(v)
            && c.voice.offset == if v.offset + MIX_LENGTH == |Loaded(v)| then 0 else v.offset + MIX_LENGTH
  {
    hide Dequeue, Loops;
    LoopsMeans(v);
    LoopingChunk(v, BUFFER_SIZE);
    var (v', chunk) := Dequeue(v, BUFFER_SIZE);
    assert Contributes(v', MIX_LENGTH, 0) == Contributed(v', []);
  }

  /** With fewer left, but more than a round missing to 1024, it takes the rest and the beginning of the next round. */
  lemma LoopTakesTwo(v: Voice)
    requires Loops(v)
    requires var rest := |Loaded(v)| - v.offset; rest < MIX_LENGTH < rest + |Loaded(v)| && rest % 2 == 0
    ensures var c := Contributes(v, 0, BUFFER_SIZE);
            c.Contributed? && Loops(c.voice) && Loaded(c.voice) == Loaded(v)
            && c.voice.offset == MIX_LENGTH - (|Loaded(v)| - v.offset)
  {
    hide Dequeue, Loops;
    LoopsMeans(v);
    LoopingChunk(v, BUFFER_SIZE);
    var (v1, chunk) := Dequeue(v, BUFFER_SIZE);
    LoopsMeans(v1);
    var left := BUFFER_SIZE - |chunk.value| / 2;
    LoopingChunk(v1, left);
    var v2 := Dequeue(v1, left).0;
    assert Contributes(v2, MIX_LENGTH, 0) == Contributed(v2, []);
  }

  /** The voice after `k` mixed buffers; None once one of them was overrun. */
  function AfterMixes(v: Voice, k: nat): Option<Voice>
    requires WellFormed(v)
    decreases k
  {
    if k == 0 then Some(v) else
      ContributedWellFormed(v, 0, BUFFER_SIZE);
      match Contributes(v, 0, BUFFER_SIZE)
      case Contributed(v', _) => AfterMixes(v', k - 1)
      case _ => None
  }

  lemma OneMoreMix(v: Voice, k: nat)
    requires WellFormed(v)
    ensures var c := Contributes(v, 0, BUFFER_SIZE);
            && (c.Contributed? ==> WellFormed(c.voice) && AfterMixes(v, k + 1) == AfterMixes(c.voice, k))
            && (!c.Contributed? ==> AfterMixes(v, k + 1) == None)
  {
    hide Contributes;
    ContributedWellFormed(v, 0, BUFFER_SIZE);
  }

  /** A looping voice with an odd number of samples left to go round is overrun in some mixed buffer. */
  lemma {:induction false} OddRestOverruns(v: Voice) returns (k: nat)
    requires Loops(v) && (|Loaded(v)| - v.offset) % 2 == 1
    ensures AfterMixes(v, k) == None
    decreases |Loaded(v)| - v.offset
  {
    hide Contributes, Loops, AfterMixes, ReachOf, Loaded;
    LoopsMeans(v);
    k := 0;
    if |Loaded(v)| - v.offset < MIX_LENGTH {
      ReachAtLeast(v, 1);
      LoopOverruns(v, 1);
    } else {
      LoopTakes(v);
      k := OddRestOverruns(Contributes(v, 0, BUFFER_SIZE).voice);
    }
    OneMoreMix(v, k);
    k := k + 1;
  }

  /** What is left of the round after a mixed buffer. */
  lemma TakenRest(v: Voice)
    requires Loops(v) && |Loaded(v)| - v.offset >= MIX_LENGTH
    ensures var c := Contributes(v, 0, BUFFER_SIZE);
            && c.Contributed? && Loops(c.voice)
            && var rest, rest' := |Loaded(v)| - v.offset, |Loaded(c.voice)| - c.voice.offset;
               && |Loaded(c.voice)| == |Loaded(v)|
               && (rest == MIX_LENGTH ==> rest' == |Loaded(v)|)
               && (rest > MIX_LENGTH ==> 0 <= rest' < rest && rest' % 2 == rest % 2)
  {
    hide Contributes, Loaded;
    LoopTakes(v);
  }

  /** So is one whose rounds are odd, once the even number of samples left has been played. */
  lemma {:induction false} OddRoundOverruns(v: Voice) returns (k: nat)
    requires Loops(v) && (|Loaded(v)| - v.offset) % 2 == 0 && |Loaded(v)| % 2 == 1
    ensures AfterMixes(v, k) == None
    decreases |Loaded(v)| - v.offset
  {
    hide Contributes, Loops, AfterMixes, ReachOf, Loaded, Consistent, WellFormed, IsPlaying;
    LoopsMeans(v);
    var rest := |Loaded(v)| - v.offset;
    k := 0;
    if rest >= MIX_LENGTH {
      TakenRest(v);
      var v' := Contributes(v, 0, BUFFER_SIZE).voice;
      if rest > MIX_LENGTH {
        k := OddRoundOverruns(v');
      } else {
        k := OddRestOverruns(v');
      }
    } else {
      k := OddRoundEnds(v);
    }
    OneMoreMix(v, k);
    k := k + 1;
  }

  /** The mixed buffer in which the round begun ends. */
  lemma OddRoundEnds(v: Voice) returns (k: nat)
    requires Loops(v) && |Loaded(v)| % 2 == 1
    requires (|Loaded(v)| - v.offset) % 2 == 0 && |Loaded(v)| - v.offset < MIX_LENGTH
    ensures var c := Contributes(v, 0, BUFFER_SIZE);
            c == Overrun || (c.Contributed? && WellFormed(c.voice) && AfterMixes(c.voice, k) == None)
  {
    hide Contributes, Loops, AfterMixes, ReachOf, Loaded;
    LoopsMeans(v);
    k := 0;
    if |Loaded(v)| - v.offset + |Loaded(v)| < MIX_LENGTH {
      TwoRounds(v);
      LoopOverruns(v, 2);
    } else {
      LoopTakesTwo(v);
      var v' := Contributes(v, 0, BUFFER_SIZE).voice;
      LoopsMeans(v');
      k := OddRestOverruns(v');
    }
  }

  lemma TwoRounds(v: Voice)
    requires Loops(v)
    ensures ReachOf(v, 2) == |Loaded(v)| - v.offset + |Loaded(v)|
  {
    LoopReach(|Loaded(v)| - v.offset, |Loaded(v)|, v.waves, v.waveIndex, 2);
    LoopReach(|Loaded(v)|, |Loaded(v)|, v.waves, v.waveIndex, 1);
  }

  /** Even rounds never end odd, whatever the other wave buffers hold. */
  lemma {:induction false} EvenRounds(rest: nat, length: nat, waves: seq<WaveBuffer>, w: nat, n: nat)
    requires |waves| == 4 && w < 4 && waves[w].isLooping && rest % 2 == 0 && length % 2 == 0
    ensures Reach(rest, length, waves, w, n) % 2 == 0
    decreases n
  {
    if n > 0 && rest > 0 && !waves[w].endOfStream {
      EvenRounds(length, length, waves, w, n - 1);
    }
  }

  lemma {:induction false} EvenLoopFits(v: Voice, k: nat)
    requires Loops(v) && v.offset % 2 == 0 && |Loaded(v)| % 2 == 0
    ensures AfterMixes(v, k).Some?
    decreases k
  {
    if k > 0 {
      hide Contributes, AfterMixes, Loops;
      EvenLoopMixes(v);
      EvenLoopFits(Contributes(v, 0, BUFFER_SIZE).voice, k - 1);
      OneMoreMix(v, k - 1);
    }
  }

  lemma EvenLoopMixes(v: Voice)
    requires Loops(v) && v.offset % 2 == 0 && |Loaded(v)| % 2 == 0
    ensures var c := Contributes(v, 0, BUFFER_SIZE);
            c.Contributed? && Loops(c.voice) && c.voice.offset % 2 == 0 && |Loaded(c.voice)| % 2 == 0
  {
    hide Contributes;
    forall n: nat ensures ReachOf(v, n) % 2 == 0 {
      EvenRounds(|Loaded(v)| - v.offset, |Loaded(v)|, v.waves, v.waveIndex, n);
    }
    EvenReachFits(v);
    EvenLoopStays(v, 0, BUFFER_SIZE);
  }

  lemma {:induction false} EvenLoopStays(v: Voice, written: nat, remaining: nat)
    requires Loops(v) && v.offset % 2 == 0 && |Loaded(v)| % 2 == 0
    requires written <= MIX_LENGTH && Contributes(v, written, remaining).Contributed?
    ensures var v' := Contributes(v, written, remaining).voice; Loops(v') && v'.offset % 2 == 0 && |Loaded(v')| % 2 == 0
    decreases MIX_LENGTH - written
  {
    hide Dequeue, Loops;
    LoopsMeans(v);
    if remaining > 0 {
      LoopingChunk(v, remaining);
      DequeueBasics(v, remaining);
      var (v', chunk) := Dequeue(v, remaining);
      EvenLoopStays(v', written + |chunk.value|, remaining - |chunk.value| / 2);
    }
  }

  /** A looping voice stays within every mixed buffer exactly when its rounds, the one begun included, are even. */
  lemma LoopFitsExactly(v: Voice)
    requires Loops(v)
    ensures (forall k: nat :: AfterMixes(v, k).Some?) <==> |Loaded(v)| % 2 == 0 && v.offset % 2 == 0
  {
    hide AfterMixes;
    if |Loaded(v)| % 2 == 0 && v.offset % 2 == 0 {
      forall k: nat ensures AfterMixes(v, k).Some? {
        EvenLoopFits(v, k);
      }
    } else if (|Loaded(v)| - v.offset) % 2 == 1 {
      var k := OddRestOverruns(v);
    } else {
      var k := OddRoundOverruns(v);
    }
  }
}
