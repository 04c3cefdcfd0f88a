/** The voices of src/audio_core/audio_renderer.cpp as objects, and the mixing of all of them. */
module Voices {
  import opened Arithmetic
  import opened VoiceMixing
  import opened VoiceRuns
  import opened VoiceStarts
  import opened Wrappers

  /** A buffer with the samples of `part` added to its beginning, each sum saturated. */
  function Added(buffer: seq<int>, part: seq<int>): (r: seq<int>)
    requires |part| <= |buffer|
    ensures |r| == |buffer|
  {
    seq(|buffer|, i requires 0 <= i < |buffer| => if i < |part| then ClampToS16(buffer[i] + part[i]) else buffer[i])
  }

  /** Parts added one after the other. */
  function Mixed(buffer: seq<int>, parts: seq<seq<int>>): (r: seq<int>)
    requires forall p :: p in parts ==> |p| <= |buffer|
    ensures |r| == |buffer|
    decreases |parts|
  {
    if parts == [] then buffer else Added(Mixed(buffer, parts[..|parts| - 1]), parts[|parts| - 1])
  }

  /** The plain sum of the parts at a position. */
  function SumAt(buffer: seq<int>, parts: seq<seq<int>>, i: nat): int
    requires i < |buffer|
    decreases |parts|
  {
    if parts == [] then buffer[i] else
      var last := parts[|parts| - 1];
      SumAt(buffer, parts[..|parts| - 1], i) + if i < |last| then last[i] else 0
  }

  /** No partial sum at the position leaves the 16-bit range. */
  predicate InRange(buffer: seq<int>, parts: seq<seq<int>>, i: nat)
    requires i < |buffer|
    decreases |parts|
  {
    -32768 <= SumAt(buffer, parts, i) <= 32767 && (parts != [] ==> InRange(buffer, parts[..|parts| - 1], i))
  }

  /** Saturation is only felt where a partial sum leaves the range: elsewhere the mix is the sum. */
  lemma {:induction false} MixIsSum(buffer: seq<int>, parts: seq<seq<int>>, i: nat)
    requires i < |buffer| && InRange(buffer, parts, i) && forall p :: p in parts ==> |p| <= |buffer|
    ensures Mixed(buffer, parts)[i] == SumAt(buffer, parts, i)
    decreases |parts|
  {
    hide Added;
    if parts != [] {
      var init := parts[..|parts| - 1];
      MixIsSum(buffer, init, i);
      AddedInRange(Mixed(buffer, init), parts[|parts| - 1], i);
    }
  }

  lemma AddedInRange(buffer: seq<int>, part: seq<int>, i: nat)
    requires |part| <= |buffer| && i < |buffer|
    requires -32768 <= buffer[i] + (if i < |part| then part[i] else 0) <= 32767
    ensures Added(buffer, part)[i] == buffer[i] + if i < |part| then part[i] else 0
  {
  }

  function Scaled(samples: seq<Sample>, volume: Sample -> int): (r: seq<int>)
    ensures |r| == |samples|
  {
    seq(|samples|, i requires 0 <= i < |samples| => volume(samples[i]))
  }

  /** How the mixing of a voice ended. */
  datatype Status = Done | PastEnd | NoSize

  function StatusOf(c: Contribution): Status {
    match c
    case Contributed(_, _) => Done
    case Overrun => PastEnd
    case Undefined => NoSize
  }

  class VoiceState {
    var isInUse: bool
    var isRefreshPending: bool
    var waveIndex: nat
    var offset: nat
    var samples: seq<Sample>
    var playedSampleCount: nat
    var waveBufferConsumed: nat
    var infoInUse: bool
    var playState: PlayState
    var waves: seq<WaveBuffer>

    ghost function View(): Voice
      reads this
    {
      Voice(isInUse, isRefreshPending, waveIndex, offset, samples, playedSampleCount, waveBufferConsumed,
            infoInUse, playState, waves)
    }

    constructor ()
      ensures View() == INITIAL && Sound(View())
    {
      isInUse, isRefreshPending, waveIndex, offset, samples := false, false, 0, 0, [];
      playedSampleCount, waveBufferConsumed := 0, 0;
      infoInUse, playState := false, Started;
      waves := seq(4, i => WaveBuffer([], false, false));
    }

    method SetWaveIndex(index: nat)
      modifies this
      ensures View() == WithWaveIndex(old(View()), index)
    {
      waveIndex := index % 4;
      isRefreshPending := true;
    }

    /** The samples about to be loaded are those that are loaded: what is to be played does not change. */
    method RefreshBuffer()
      requires WellFormed(View()) && isRefreshPending
      modifies this
      ensures View() == Refreshed(old(View()))
      ensures Loaded(View()) == Loaded(old(View())) && !isRefreshPending
      ensures Consistent(old(View())) ==>
                Consistent(View()) && forall n: nat :: Upcoming(View(), n) == Upcoming(old(View()), n)
    {
      samples := waves[waveIndex].content;
      isRefreshPending := false;
    }

    /** A voice whose use ends is sound whatever it was before, one that stays in use or unused does not move. */
    method UpdateState()
      requires WellFormed(View())
      modifies this
      ensures View() == Updated(old(View()))
      ensures old(isInUse) && !infoInUse ==> Sound(View()) && playedSampleCount == waveBufferConsumed == 0
      ensures !(old(isInUse) && !infoInUse) ==> View() == old(View()).(isInUse := infoInUse)
      ensures Sound(old(View())) ==> Sound(View())
    {
      if isInUse && !infoInUse {
        isRefreshPending := true;
        waveIndex := 0;
        offset := 0;
        playedSampleCount, waveBufferConsumed := 0, 0;
      }
      isInUse := infoInUse;
    }

    /** An update keeps a sound voice sound exactly unless it starts it anew in the middle of a wave buffer. */
    method Update(info: Info)
      requires WellFormed(View()) && |info.waves| == 4
      modifies this
      ensures View() == AfterUpdate(old(View()), info)
      ensures Sound(old(View())) ==> (Sound(View()) <==> !Restarts(old(View()), info))
      ensures Starts(old(View()), info) ==>
                Consistent(View()) && forall n: nat :: Upcoming(View(), n) == From(info, info.waveBufferHead, n + 1)
    {
      forall n: nat {
        UpdateMeans(View(), info, n);
      }
      infoInUse, playState, waves := info.isInUse, info.playState, info.waves;
      UpdateState();
      if !info.isInUse {
        return;
      }
      if info.isNew {
        SetWaveIndex(info.waveBufferHead);
      }
    }

    method DequeueSamples(sampleCount: nat) returns (chunk: Option<seq<Sample>>)
      requires WellFormed(View())
      modifies this
      ensures (View(), chunk) == Dequeue(old(View()), sampleCount)
    {
      hide Finished;
      if !(isInUse && playState == Started) {
        return Some([]);
      }
      if isRefreshPending {
        RefreshBuffer();
      }
      if offset > |samples| {
        return None;
      }
      var maxSize := |samples| - offset;
      var dequeueOffset := offset;
      var size := sampleCount * 2;
      if size > maxSize {
        size := maxSize;
      }
      playedSampleCount := playedSampleCount + size / 2;
      offset := offset + size;
      var loaded := samples;
      if offset == |samples| {
        FinishWaveBuffer();
      }
      return Some(loaded[dequeueOffset..dequeueOffset + size]);
    }

    // Lines 216-228
    method FinishWaveBuffer()
      requires WellFormed(View())
      modifies this
      ensures View() == Finished(old(View()))
    {
      var waveBuffer := waves[waveIndex];
      offset := 0;
      if !waveBuffer.isLooping {
        SetWaveIndex(waveIndex + 1);
      }
      waveBufferConsumed := waveBufferConsumed + 1;
      if waveBuffer.endOfStream {
        playState := Paused;
      }
    }

    /** Lines 326-342: mix this voice into the buffer. The volume is a function of the sample. */
    method MixInto(buffer: array<int>, volume: Sample -> int) returns (status: Status)
      requires WellFormed(View()) && buffer.Length == MIX_LENGTH
      modifies this, buffer
      ensures var c := Contributes(old(View()), 0, BUFFER_SIZE);
              && status == StatusOf(c)
              && (c.Contributed? ==>
                    && View() == c.voice && |c.samples| <= MIX_LENGTH
                    && buffer[..] == Added(old(buffer[..]), Scaled(c.samples, volume)))
    {
      hide Dequeue, More, Added;
      ghost var goal := Contributes(View(), 0, BUFFER_SIZE);
      var position: nat, remaining: nat := 0, BUFFER_SIZE;
      ghost var mixed: seq<Sample> := [];
      MoreThanNothing(goal);
      AddedNothing(buffer[..], volume);
      while remaining > 0
        invariant position == |mixed| <= MIX_LENGTH && WellFormed(View())
        invariant More(mixed, Contributes(View(), position, remaining)) == goal
        invariant buffer[..] == Added(old(buffer[..]), Scaled(mixed, volume))
        decreases MIX_LENGTH - position
      {
        ghost var v := View();
        DequeueBasics(v, remaining);
        var chunk := DequeueSamples(remaining);
        MixedOne(v, position, remaining, mixed);
        if chunk.None? {
          return NoSize;
        }
        if chunk.value == [] {
          return Done;
        }
        if position + |chunk.value| > buffer.Length {
          return PastEnd;
        }
        remaining := remaining - |chunk.value| / 2;
        AddedMore(old(buffer[..]), mixed, chunk.value, volume);
        position := AddChunk(buffer, chunk.value, position, volume);
        mixed := mixed + chunk.value;
      }
      MixedAll(View(), position, mixed);
      return Done;
    }
  }

  lemma MoreThanNothing(c: Contribution)
    ensures More([], c) == c
  {
  }

  lemma MixedAll(v: Voice, written: nat, mixed: seq<Sample>)
    requires WellFormed(v) && written <= MIX_LENGTH
    ensures More(mixed, Contributes(v, written, 0)) == Contributed(v, mixed)
  {
  }

  /** One turn of the mixing loop, seen from what was mixed before. */
  lemma MixedOne(v: Voice, written: nat, remaining: nat, mixed: seq<Sample>)
    requires WellFormed(v) && written <= MIX_LENGTH && remaining > 0
    ensures var (v', chunk) := Dequeue(v, remaining);
            var c := More(mixed, Contributes(v, written, remaining));
            && WellFormed(v') && (chunk.Some? ==> |chunk.value| / 2 <= remaining)
            && c == if chunk.None? then Undefined
                    else if chunk.value == [] then Contributed(v', mixed)
                    else if written + |chunk.value| > MIX_LENGTH then Overrun
                    else More(mixed + chunk.value,
                              Contributes(v', written + |chunk.value|, remaining - |chunk.value| / 2))
  {
    hide Dequeue;
    DequeueBasics(v, remaining);
    var (v', chunk) := Dequeue(v, remaining);
    if chunk.Some? && chunk.value != [] && written + |chunk.value| <= MIX_LENGTH {
      var c := Contributes(v', written + |chunk.value|, remaining - |chunk.value| / 2);
      if c.Contributed? {
        assert mixed + (chunk.value + c.samples) == mixed + chunk.value + c.samples;
      }
    }
  }

  lemma AddedNothing(buffer: seq<int>, volume: Sample -> int)
    ensures Added(buffer, Scaled([], volume)) == buffer
  {
  }

  /** The buffer after one more chunk, position by position. */
  lemma AddedMore(buffer: seq<int>, mixed: seq<Sample>, chunk: seq<Sample>, volume: Sample -> int)
    requires |mixed| + |chunk| <= |buffer|
    ensures var before := Added(buffer, Scaled(mixed, volume));
            var after := Added(buffer, Scaled(mixed + chunk, volume));
            forall i {:trigger after[i]} :: 0 <= i < |buffer| ==>
              after[i] == if |mixed| <= i < |mixed| + |chunk| then ClampToS16(before[i] + volume(chunk[i - |mixed|]))
                          else before[i]
  {
  }

  // Lines 337-341
  method AddChunk(buffer: array<int>, chunk: seq<Sample>, from: nat, volume: Sample -> int) returns (position: nat)
    requires from + |chunk| <= buffer.Length
    modifies buffer
    ensures position == from + |chunk|
    ensures forall i {:trigger buffer[i]} :: 0 <= i < buffer.Length ==>
              buffer[i] == if from <= i < from + |chunk| then ClampToS16(old(buffer[i]) + volume(chunk[i - from]))
                           else old(buffer[i])
  {
    position := from;
    for k := 0 to |chunk|
      invariant position == from + k
      invariant forall i {:trigger buffer[i]} :: 0 <= i < buffer.Length ==>
                  buffer[i] == if from <= i < from + k then ClampToS16(old(buffer[i]) + volume(chunk[i - from]))
                               else old(buffer[i])
    {
      buffer[position] := ClampToS16(buffer[position] + volume(chunk[k]));
      position := position + 1;
    }
  }

  // ---- all voices --------------------------------------------------------------------------

  ghost function Views(voices: seq<VoiceState>): (views: seq<Voice>)
    reads voices
    ensures |views| == |voices| && forall i :: 0 <= i < |voices| ==> views[i] == voices[i].View()
  {
    if voices == [] then [] else Views(voices[..|voices| - 1]) + [voices[|voices| - 1].View()]
  }

  predicate Distinct(voices: seq<VoiceState>) {
    forall i, j :: 0 <= i < j < |voices| ==> voices[i] != voices[j]
  }

  predicate Contributing(v: Voice) {
    WellFormed(v) && Contributes(v, 0, BUFFER_SIZE).Contributed?
  }

  function Contributor(v: Voice): Voice
    requires Contributing(v)
  {
    Contributes(v, 0, BUFFER_SIZE).voice
  }

  predicate AllContribute(views: seq<Voice>) {
    forall i :: 0 <= i < |views| ==> Contributing(views[i])
  }

  /** What the voices contribute, at their volumes. */
  function Parts(views: seq<Voice>, volumes: seq<Sample -> int>): (parts: seq<seq<int>>)
    requires AllContribute(views) && |volumes| == |views|
    ensures |parts| == |views| && forall p :: p in parts ==> |p| <= MIX_LENGTH
  {
    if views == [] then [] else
      var n := |views| - 1;
      ContributionFits(views[n], 0, BUFFER_SIZE);
      Parts(views[..n], volumes[..n]) + [Scaled(Contributes(views[n], 0, BUFFER_SIZE).samples, volumes[n])]
  }

  lemma ContributionFits(v: Voice, written: nat, remaining: nat)
    requires WellFormed(v) && written <= MIX_LENGTH
    ensures var c := Contributes(v, written, remaining); c.Contributed? ==> written + |c.samples| <= MIX_LENGTH
    decreases MIX_LENGTH - written
  {
    hide Dequeue;
    if remaining > 0 {
      DequeueBasics(v, remaining);
      var (v', chunk) := Dequeue(v, remaining);
      if chunk.Some? && chunk.value != [] && written + |chunk.value| <= MIX_LENGTH {
        ContributionFits(v', written + |chunk.value|, remaining - |chunk.value| / 2);
      }
    }
  }

  lemma SilentVoice(v: Voice)
    requires WellFormed(v) && !IsPlaying(v)
    ensures Contributes(v, 0, BUFFER_SIZE) == Contributed(v, [])
  {
  }

  function Silence(): seq<int> {
    seq(MIX_LENGTH, i => 0)
  }

  function MixedOf(views: seq<Voice>, volumes: seq<Sample -> int>): (r: seq<int>)
    requires AllContribute(views) && |volumes| == |views|
    ensures |r| == MIX_LENGTH
  {
    Mixed(Silence(), Parts(views, volumes))
  }

  /** One more voice. */
  lemma MixedNext(views: seq<Voice>, volumes: seq<Sample -> int>, v: Voice, volume: Sample -> int)
    requires |views| == |volumes| && AllContribute(views) && Contributing(v)
    ensures AllContribute(views + [v])
    ensures var part := Scaled(Contributes(v, 0, BUFFER_SIZE).samples, volume);
            |part| <= MIX_LENGTH && MixedOf(views + [v], volumes + [volume]) == Added(MixedOf(views, volumes), part)
  {
    hide Contributes, Added;
    ContributionFits(v, 0, BUFFER_SIZE);
    assert (views + [v])[..|views|] == views && (volumes + [volume])[..|views|] == volumes;
    var part := Scaled(Contributes(v, 0, BUFFER_SIZE).samples, volume);
    var parts := Parts(views, volumes);
    assert Parts(views + [v], volumes + [volume]) == parts + [part];
    assert (parts + [part])[..|parts|] == parts;
  }

  lemma NothingMixed()
    ensures AllContribute([]) && MixedOf([], []) == Silence()
  {
  }

  lemma MixedPrefix(views: seq<Voice>, volumes: seq<Sample -> int>, k: nat)
    requires k < |views| == |volumes| && AllContribute(views[..k]) && Contributing(views[k])
    ensures AllContribute(views[..k + 1])
    ensures var part := Scaled(Contributes(views[k], 0, BUFFER_SIZE).samples, volumes[k]);
            |part| <= MIX_LENGTH
            && MixedOf(views[..k + 1], volumes[..k + 1]) == Added(MixedOf(views[..k], volumes[..k]), part)
  {
    hide Contributing, Added, MixedOf;
    MixedNext(views[..k], volumes[..k], views[k], volumes[k]);
    assert views[..k + 1] == views[..k] + [views[k]] && volumes[..k + 1] == volumes[..k] + [volumes[k]];
  }

  // Lines 321-343 for one voice
  method MixVoice(voice: VoiceState, volume: Sample -> int, buffer: array<int>) returns (status: Status)
    requires WellFormed(voice.View()) && buffer.Length == MIX_LENGTH
    modifies voice, buffer
    ensures var v := old(voice.View());
            && (status.Done? <==> Contributing(v)) && status == StatusOf(Contributes(v, 0, BUFFER_SIZE))
            && (status.Done? ==>
                  var c := Contributes(v, 0, BUFFER_SIZE);
                  && voice.View() == c.voice && |c.samples| <= MIX_LENGTH
                  && buffer[..] == Added(old(buffer[..]), Scaled(c.samples, volume)))
  {
    hide Contributes, Added;
    if !(voice.isInUse && voice.playState == Started) {
      SilentVoice(voice.View());
      AddedNothing(buffer[..], volume);
      return Done;
    }
    status := voice.MixInto(buffer, volume);
  }

  /** `QueueMixedBuffer`: every voice is mixed in, unless one of them fails. */
  method QueueMixedBuffer(voices: seq<VoiceState>, volumes: seq<Sample -> int>)
      returns (buffer: array<int>, status: Status)
    requires |volumes| == |voices| && Distinct(voices) && forall v :: v in voices ==> WellFormed(v.View())
    modifies voices
    ensures status.Done? <==> AllContribute(old(Views(voices)))
    ensures status.Done? ==>
              && buffer[..] == MixedOf(old(Views(voices)), volumes)
              && forall i :: 0 <= i < |voices| ==> voices[i].View() == Contributor(old(Views(voices))[i])
    ensures !status.Done? ==>
              exists i :: 0 <= i < |voices| && status == StatusOf(Contributes(old(Views(voices))[i], 0, BUFFER_SIZE))
  {
    hide Contributes, Added, MixedOf, Views, Contributing, StatusOf;
    ghost var views := Views(voices);
    buffer := new int[MIX_LENGTH](i => 0);
    NothingMixed();
    assert buffer[..] == Silence();
    assert views[..0] == [] && volumes[..0] == [];
    for k := 0 to |voices|
      invariant fresh(buffer) && buffer.Length == MIX_LENGTH && AllContribute(views[..k])
      invariant forall j :: 0 <= j < k ==> Contributing(views[j]) && voices[j].View() == Contributor(views[j])
      invariant forall j :: k <= j < |voices| ==> voices[j].View() == views[j]
      invariant buffer[..] == MixedOf(views[..k], volumes[..k])
    {
      assert voices[k] in voices && WellFormed(views[k]);
      status := MixVoice(voices[k], volumes[k], buffer);
      if !status.Done? {
        return;
      }
      MixedPrefix(views, volumes, k);
    }
    assert views[..|voices|] == views && volumes[..|voices|] == volumes;
    status := Done;
  }

  // ---- an update and the next mixed buffer -------------------------------------------------

  /** The voices after an update, one by one. */
  function AllUpdated(views: seq<Voice>, infos: seq<Info>): (r: seq<Voice>)
    requires |infos| == |views|
    ensures |r| == |views| && forall i :: 0 <= i < |r| ==> r[i] == AfterUpdate(views[i], infos[i])
  {
    seq(|views|, i requires 0 <= i < |views| => AfterUpdate(views[i], infos[i]))
  }

  // Lines 123-126 and 147-155
  method UpdateVoices(voices: seq<VoiceState>, infos: seq<Info>)
    requires |infos| == |voices| && Distinct(voices) && forall v :: v in voices ==> WellFormed(v.View())
    requires forall info :: info in infos ==> |info.waves| == 4
    modifies voices
    ensures Views(voices) == AllUpdated(old(Views(voices)), infos)
    ensures forall v :: v in voices ==> WellFormed(v.View())
  {
    hide AfterUpdate, Views, AllUpdated;
    ghost var views := Views(voices);
    for k := 0 to |voices|
      invariant forall j :: 0 <= j < k ==> voices[j].View() == AfterUpdate(views[j], infos[j])
      invariant forall j :: k <= j < |voices| ==> voices[j].View() == views[j]
      invariant forall v :: v in voices ==> WellFormed(v.View())
    {
      assert voices[k] in voices && infos[k] in infos;
      UpdateMeans(views[k], infos[k], 0);
      voices[k].Update(infos[k]);
    }
  }

  /** An update and the mixed buffer after it: every voice is mixed as the update left it. A voice that the update
      starts begins with the wave buffer that the guest named. */
  method UpdateAndMix(voices: seq<VoiceState>, infos: seq<Info>, volumes: seq<Sample -> int>)
      returns (buffer: array<int>, status: Status)
    requires |infos| == |volumes| == |voices| && Distinct(voices) && forall v :: v in voices ==> WellFormed(v.View())
    requires forall info :: info in infos ==> |info.waves| == 4
    modifies voices
    ensures status.Done? <==> AllContribute(AllUpdated(old(Views(voices)), infos))
    ensures status.Done? ==> buffer[..] == MixedOf(AllUpdated(old(Views(voices)), infos), volumes)
    ensures status.Done? ==> forall i :: 0 <= i < |voices| ==> BeginsWithHead(old(Views(voices))[i], infos[i])
  {
    hide AfterUpdate, Views, MixedOf, Contributing, BeginsWithHead, Contributor, AllUpdated;
    ghost var views := Views(voices);
    UpdateVoices(voices, infos);
    ghost var updated := Views(voices);
    buffer, status := QueueMixedBuffer(voices, volumes);
    if status.Done? {
      forall i | 0 <= i < |voices| ensures BeginsWithHead(views[i], infos[i]) {
        assert Contributing(updated[i]);
        HeadIsMixed(views[i], infos[i]);
      }
    }
  }

  /** If the update starts the voice, what it contributes begins with the wave buffer named. */
  predicate BeginsWithHead(v: Voice, info: Info) {
    WellFormed(v) && |info.waves| == 4 && Starts(v, info) && info.playState == Started ==>
      Contributing(AfterUpdate(v, info))
      && var samples := Contributes(AfterUpdate(v, info), 0, BUFFER_SIZE).samples;
         var content := info.waves[info.waveBufferHead % 4].content;
         var k := Least(|content|, MIX_LENGTH);
         k <= |samples| && samples[..k] == content[..k]
  }

  lemma HeadIsMixed(v: Voice, info: Info)
    requires Contributing(AfterUpdate(v, info))
    ensures BeginsWithHead(v, info)
  {
    hide Contributes, AfterUpdate;
    if WellFormed(v) && |info.waves| == 4 && Starts(v, info) && info.playState == Started {
      FirstMixIsHead(v, info);
    }
  }

  /** One voice alone is heard as it is, at its volume. */
  lemma StartedVoiceIsHeard(v: Voice, info: Info, volume: Sample -> int, i: nat)
    requires WellFormed(v) && |info.waves| == 4 && Starts(v, info) && info.playState == Started
    requires Contributing(AfterUpdate(v, info)) && i < MIX_LENGTH
    requires i < |info.waves[info.waveBufferHead % 4].content|
    ensures MixedOf([AfterUpdate(v, info)], [volume])[i]
            == ClampToS16(volume(info.waves[info.waveBufferHead % 4].content[i]))
  {
    hide Contributes, AfterUpdate, MixedOf;
    HeadIsMixed(v, info);
    var v' := AfterUpdate(v, info);
    NothingMixed();
    MixedNext([], [], v', volume);
    assert [] + [v'] == [v'] && [] + [volume] == [volume];
    var samples := Contributes(v', 0, BUFFER_SIZE).samples;
    var content := info.waves[info.waveBufferHead % 4].content;
    var k := Least(|content|, MIX_LENGTH);
    assert samples[i] == samples[..k][i] == content[..k][i] == content[i];
  }
}
