/** src/audio_core/cubeb_sink.cpp: a sink stream between the audio thread, which enqueues samples, and the
    device, which asks for frames. Samples of all channels alternate in one ring. */
module CubebSink {
  import opened Arithmetic
  import opened RingIndex
  import R = RingBuffer

  const CAPACITY: nat := 0x10000

  /** `n` samples are a whole number of frames of one or two channels. */
  predicate Whole(channels: nat, n: nat) {
    channels == 2 ==> n % 2 == 0
  }

  /** The reads of the downmix stay inside a vector of `n` samples: the last frame is whole, or has at least the
      channels that are kept. */
  predicate ReadsInside(n: nat, source: nat, channels: nat)
    requires 0 < source
  {
    n == 0 || (channels <= n && (source < n ==> ReadsInside(n - source, source, channels)))
  }

  /** The first `channels` samples of every frame of `source` samples. */
  function Downmixed(samples: seq<int>, source: nat, channels: nat): seq<int>
    requires 0 < source && ReadsInside(|samples|, source, channels)
    decreases |samples|
  {
    if samples == [] then []
    else samples[..channels] + Downmixed(samples[Min(source, |samples|)..], source, channels)
  }

  /** The samples of frames, one frame after the other. */
  function Joined(frames: seq<seq<int>>): seq<int> {
    if frames == [] then [] else frames[0] + Joined(frames[1..])
  }

  /** Every frame without the channels that are not kept. */
  function Kept(frames: seq<seq<int>>, channels: nat): seq<seq<int>>
    requires forall f :: f in frames ==> channels <= |f|
  {
    if frames == [] then [] else [frames[0][..channels]] + Kept(frames[1..], channels)
  }

  predicate AreFrames(frames: seq<seq<int>>, source: nat) {
    forall f :: f in frames ==> |f| == source
  }

  /** The downmix of any frames is those frames with their first channels, in order. */
  lemma {:induction false} DownmixKeepsFrames(frames: seq<seq<int>>, source: nat, channels: nat)
    requires 0 < channels <= source && AreFrames(frames, source)
    ensures ReadsInside(|Joined(frames)|, source, channels)
    ensures Downmixed(Joined(frames), source, channels) == Joined(Kept(frames, channels))
  {
    if frames != [] {
      var first, rest := frames[0], Joined(frames[1..]);
      assert first in frames;
      DownmixKeepsFrames(frames[1..], source, channels);
      hide Downmixed, ReadsInside;
      DownmixFirst(first, rest, source, channels);
      assert Kept(frames, channels)[1..] == Kept(frames[1..], channels);
    }
  }

  lemma DownmixFirst(first: seq<int>, rest: seq<int>, source: nat, channels: nat)
    requires 0 < channels <= source == |first| && ReadsInside(|rest|, source, channels)
    ensures ReadsInside(|first + rest|, source, channels)
    ensures Downmixed(first + rest, source, channels) == first[..channels] + Downmixed(rest, source, channels)
  {
    assert (first + rest)[source..] == rest && (first + rest)[..channels] == first[..channels];
  }

  // The loop of lines 70-74
  method Downmix(samples: seq<int>, source: nat, channels: nat) returns (buf: seq<int>)
    requires 0 < source && ReadsInside(|samples|, source, channels)
    ensures buf == Downmixed(samples, source, channels)
  {
    buf := [];
    var i: nat := 0;
    while i < |samples|
      invariant i <= |samples| ==>
                  && ReadsInside(|samples| - i, source, channels)
                  && Downmixed(samples, source, channels) == buf + Downmixed(samples[i..], source, channels)
      invariant i > |samples| ==> buf == Downmixed(samples, source, channels)
    {
      ghost var rest := samples[i..];
      var frame := CopyChannels(samples, i, channels);
      DownmixStep(buf, rest, source, channels);
      buf := buf + frame;
      i := i + source;
      assert i <= |samples| ==> samples[i..] == rest[source..];
    }
  }

  lemma DownmixStep(buf: seq<int>, rest: seq<int>, source: nat, channels: nat)
    requires 0 < source && rest != [] && ReadsInside(|rest|, source, channels)
    ensures buf + Downmixed(rest, source, channels)
         == buf + rest[..channels] + Downmixed(rest[Min(source, |rest|)..], source, channels)
  {
  }

  // The inner loop of lines 71-73
  method CopyChannels(samples: seq<int>, i: nat, channels: nat) returns (frame: seq<int>)
    requires i + channels <= |samples|
    ensures frame == samples[i..][..channels]
  {
    frame := [];
    for ch := 0 to channels
      invariant frame == samples[i..][..ch]
    {
      frame := frame + [samples[i + ch]];
    }
  }

  lemma {:induction false} DownmixedWhole(samples: seq<int>, source: nat, channels: nat)
    requires 0 < source && ReadsInside(|samples|, source, channels) && 1 <= channels <= 2
    ensures Whole(channels, |Downmixed(samples, source, channels)|)
    decreases |samples|
  {
    if samples != [] {
      DownmixedWhole(samples[Min(source, |samples|)..], source, channels);
    }
  }

  /** What `EnqueueSamples` hands to the ring. */
  function Enqueued(samples: seq<int>, source: nat, channels: nat): seq<int>
    requires source > channels ==> ReadsInside(|samples|, source, channels)
  {
    if source > channels then Downmixed(samples, source, channels) else samples
  }

  lemma {:induction false} KeptWhole(frames: seq<seq<int>>, channels: nat)
    requires AreFrames(frames, channels)
    ensures Kept(frames, channels) == frames
  {
    if frames != [] {
      assert frames[0] in frames && frames[0][..channels] == frames[0];
      KeptWhole(frames[1..], channels);
    }
  }

  /** Whole source frames arrive as whole frames if the source has at least the sink's channels: as those frames, in
      order, each with its first channels. */
  lemma WholeFramesStayWhole(frames: seq<seq<int>>, source: nat, channels: nat)
    requires 1 <= channels <= 2 && channels <= source && AreFrames(frames, source)
    ensures source > channels ==> ReadsInside(|Joined(frames)|, source, channels)
    ensures Enqueued(Joined(frames), source, channels) == Joined(Kept(frames, channels))
    ensures Whole(channels, |Enqueued(Joined(frames), source, channels)|)
  {
    if source > channels {
      DownmixKeepsFrames(frames, source, channels);
      DownmixedWhole(Joined(frames), source, channels);
    } else {
      JoinedWhole(frames, channels);
      KeptWhole(frames, channels);
    }
  }

  lemma {:induction false} JoinedWhole(frames: seq<seq<int>>, channels: nat)
    requires 1 <= channels <= 2 && AreFrames(frames, channels)
    ensures Whole(channels, |Joined(frames)|)
  {
    if frames != [] {
      assert frames[0] in frames;
      JoinedWhole(frames[1..], channels);
    }
  }

  /** A mono frame handed to a stereo sink is half a frame there. */
  lemma MonoIsHalfAFrame(sample: int)
    ensures Enqueued([sample], 1, 2) == [sample] && !Whole(2, |Enqueued([sample], 1, 2)|)
  {
  }

  /** The last frame of the samples played, or silence. */
  function LastFrame(played: seq<int>, channels: nat): seq<int> {
    if |played| < channels then seq(channels, i => 0) else played[|played| - channels..]
  }

  /** An index that wraps keeps its channel. */
  lemma WholeWraps(channels: nat, n: nat)
    ensures Whole(channels, n % WRAP) <==> Whole(channels, n)
  {
    assert n == WRAP * (n / WRAP) + n % WRAP;
  }

  lemma WholeSum(channels: nat, a: nat, b: nat)
    requires Whole(channels, a)
    ensures Whole(channels, a + b) <==> Whole(channels, b)
  {
  }

  lemma WholeRoom(channels: nat, n: nat)
    requires n <= CAPACITY && Whole(channels, n)
    ensures Whole(channels, CAPACITY - n)
  {
  }

  /** Between whole contents and a whole capacity, a push of what fits is whole if and only if it is offered
      whole frames or fills the ring. */
  lemma PushAligned(channels: nat, write: nat, played: nat, n: nat, offered: nat)
    requires n <= CAPACITY && Whole(channels, write) && Whole(channels, played) && Whole(channels, played + n)
    ensures
      var count := Min(offered, CAPACITY - n);
      && (Whole(channels, (write + count) % WRAP) <==> Whole(channels, offered) || CAPACITY - n <= offered)
      && (Whole(channels, played + n + count) <==> Whole(channels, offered) || CAPACITY - n <= offered)
  {
    hide Whole;
    var count := Min(offered, CAPACITY - n);
    WholeWraps(channels, write + count);
    WholeSum(channels, write, count);
    WholeSum(channels, played, n);
    WholeSum(channels, played + n, count);
    WholeRoom(channels, n);
  }

  lemma PopAligned(channels: nat, read: nat, count: nat)
    requires Whole(channels, count)
    ensures Whole(channels, (read + count) % WRAP) <==> Whole(channels, read)
  {
    hide Whole;
    WholeWraps(channels, read + count);
    WholeSum(channels, count, read);
  }

  lemma ProductWhole(channels: nat, frames: nat)
    requires 1 <= channels <= 2
    ensures Whole(channels, channels * frames)
  {
  }

  lemma LastFramePlayed(played: seq<int>, samples: seq<int>, channels: nat)
    requires Whole(channels, |samples|) && 1 <= channels <= 2
    ensures Whole(channels, |played + samples|) <==> Whole(channels, |played|)
    ensures |samples| >= channels ==> LastFrame(played + samples, channels) == samples[|samples| - channels..]
    ensures |samples| < channels ==> LastFrame(played + samples, channels) == LastFrame(played, channels)
  {
    WholeSum(channels, |samples|, |played|);
    if |samples| < channels {
      assert played + samples == played;
    }
  }

  lemma Outputs(accepted: seq<int>, played: seq<int>, contents: seq<int>, samples: seq<int>, output: seq<int>)
    requires accepted == played + contents && samples <= contents && samples <= output
    ensures played + samples == accepted[..|played| + |samples|]
    ensures accepted == played + samples + contents[|samples|..]
    ensures forall i | 0 <= i < |samples| :: output[i] == accepted[|played| + i]
  {
  }

  lemma CapacityIsValid()
    ensures ValidCapacity(CAPACITY)
  {
    Pow2Is65536();
  }

  class CubebSinkStream {
    const numChannels: nat
    const queue: R.RingBuffer<int>
    const lastFrame: array<int>

    /** The samples the ring took so far, and those of them that the device got. */
    ghost var accepted: seq<int>
    ghost var played: seq<int>

    ghost predicate Valid()
      reads this, queue, queue.data
    {
      && 1 <= numChannels <= 2 && lastFrame.Length == 2 && lastFrame != queue.data
      && queue.Valid() && queue.capacity == CAPACITY
      && accepted == played + queue.Contents()
    }

    /** Both indices stand at the start of a frame, and the last frame is the last one played. */
    ghost predicate Aligned()
      requires Valid()
      reads this, queue, queue.data, lastFrame
    {
      && Whole(numChannels, queue.readIndex) && Whole(numChannels, queue.writeIndex)
      && Whole(numChannels, |played|) && Whole(numChannels, |accepted|)
      && lastFrame[..numChannels] == LastFrame(played, numChannels)
    }

    constructor (channels: nat)
      requires channels > 0
      ensures Valid() && Aligned() && fresh(queue) && fresh(queue.data) && fresh(lastFrame)
      ensures numChannels == Min(channels, 2) && accepted == played == [] && lastFrame[..] == [0, 0]
    {
      numChannels := Min(channels, 2);
      CapacityIsValid();
      queue := new R.RingBuffer<int>(CAPACITY);
      lastFrame := new int[2](i => 0);
      accepted, played := [], [];
    }

    /** The ring takes what fits. From aligned indices they stay aligned if and only if whole frames are
        enqueued or the ring becomes full. */
    method EnqueueSamples(source: nat, samples: seq<int>)
      requires Valid() && (source > numChannels ==> ReadsInside(|samples|, source, numChannels))
      modifies this`accepted, queue, queue.data
      ensures Valid()
      ensures var free, slots := CAPACITY - |old(queue.Contents())|, Enqueued(samples, source, numChannels);
              && accepted == old(accepted) + slots[..Min(|slots|, free)]
              && (old(Aligned()) ==> (Aligned() <==> Whole(numChannels, |slots|) || free <= |slots|))
    {
      hide R.RingBuffer.Valid, R.RingBuffer.Contents, ReadsInside, Downmixed, LastFrame, Whole;
      var buf := samples;
      if source > numChannels {
        buf := Downmix(samples, source, numChannels);
      }
      ghost var contents := queue.Contents();
      queue.Bounded();
      if Aligned() {
        PushAligned(numChannels, queue.writeIndex, |played|, |contents|, |buf|);
      }
      var count := queue.Push(buf);
      assert played + contents + buf[..count] == played + (contents + buf[..count]);
      accepted := accepted + buf[..count];
    }

    /** From aligned indices the callback's fills end where the output ends, however many frames it asks for. */
    lemma AlignedFits(numFrames: nat)
      requires Valid() && Aligned()
      ensures Whole(numChannels, Min(|queue.Contents()|, numChannels * numFrames))
    {
      hide R.Ring, WrapSub, LastFrame, Whole;
      ProductWhole(numChannels, numFrames);
      WholeSum(numChannels, |played|, |queue.Contents()|);
      assert |accepted| == |played| + |queue.Contents()|;
    }

    /** The callback of the device, without stretching: the samples the ring has, then the last frame again and again,
        each sample on the channel it was enqueued for. The last fill runs over the end of the output exactly when
        what the ring gives is not a whole number of frames. */
    method DataCallback(output: array<int>, numFrames: nat) returns (overran: bool)
      requires Valid() && output.Length == numChannels * numFrames && output != queue.data && output != lastFrame
      modifies this`played, queue, lastFrame, output
      ensures Valid() && (old(Aligned()) ==> !overran && Aligned()) && accepted == old(accepted)
      ensures var n := Min(|old(queue.Contents())|, output.Length);
              && (overran <==> !Whole(numChannels, n))
              && |played| == |old(played)| + n && played == accepted[..|played|]
              && (forall i | 0 <= i < n :: output[i] == accepted[|old(played)| + i])
              && (!overran ==> forall i | n <= i < output.Length :: output[i] == lastFrame[i % numChannels])
    {
      hide R.RingBuffer.Valid, R.RingBuffer.Contents, LastFrame, Whole;
      ghost var contents := queue.Contents();
      ProductWhole(numChannels, numFrames);
      if Aligned() {
        AlignedFits(numFrames);
      }
      var samples := PopFrames(output.Length);
      CopyTo(samples, output);
      overran := Fill(output, |samples|);
      Outputs(accepted, old(played), contents, samples, output[..]);
    }

    // Lines 195-201
    method PopFrames(n: nat) returns (samples: seq<int>)
      requires Valid()
      modifies this`played, queue, lastFrame
      ensures Valid()
      ensures samples == old(queue.Contents())[..Min(|old(queue.Contents())|, n)]
      ensures played == old(played) + samples
      ensures old(Aligned()) && Whole(numChannels, |samples|) ==> Aligned()
    {
      hide R.RingBuffer.Valid, R.RingBuffer.Contents, LastFrame, Whole;
      samples := TakeSamples(n);
      if Whole(numChannels, |samples|) {
        LastFramePlayed(old(played), samples, numChannels);
      }
      if |samples| >= numChannels {
        CopyLast(samples);
      }
    }

    // Line 195
    method TakeSamples(n: nat) returns (samples: seq<int>)
      requires Valid()
      modifies this`played, queue
      ensures Valid() && queue.writeIndex == old(queue.writeIndex)
      ensures samples == old(queue.Contents())[..Min(|old(queue.Contents())|, n)]
      ensures played == old(played) + samples
      ensures Whole(numChannels, |samples|) ==>
                (Whole(numChannels, queue.readIndex) <==> Whole(numChannels, old(queue.readIndex)))
    {
      hide R.RingBuffer.Valid, R.RingBuffer.Contents, Whole;
      ghost var contents := queue.Contents();
      samples := queue.Pop(n);
      ghost var k := Min(|contents|, n);
      assert samples == contents[..k] && |samples| == k;
      if Whole(numChannels, k) {
        PopAligned(numChannels, old(queue.readIndex), k);
      }
      Outputs(accepted, played, contents, samples, samples);
      played := played + samples;
      hide Min;
    }

    method CopyTo(samples: seq<int>, output: array<int>)
      requires |samples| <= output.Length
      modifies output
      ensures output[..|samples|] == samples
    {
      for i := 0 to |samples|
        invariant output[..i] == samples[..i]
      {
        output[i] := samples[i];
      }
    }

    method CopyLast(samples: seq<int>)
      requires 1 <= numChannels <= 2 && lastFrame.Length == 2 && numChannels <= |samples|
      modifies lastFrame
      ensures lastFrame[..numChannels] == samples[|samples| - numChannels..]
    {
      for ch := 0 to numChannels
        invariant lastFrame[..ch] == samples[|samples| - numChannels..][..ch]
      {
        lastFrame[ch] := samples[|samples| - numChannels + ch];
      }
    }

    // Lines 203-206
    method Fill(output: array<int>, start: nat) returns (overran: bool)
      requires 1 <= numChannels <= 2 && lastFrame.Length == 2 && lastFrame != output && start <= output.Length
      requires Whole(numChannels, output.Length)
      modifies output
      ensures overran <==> !Whole(numChannels, start)
      ensures output[..start] == old(output[..start])
      ensures !overran ==> forall i | start <= i < output.Length :: output[i] == lastFrame[i % numChannels]
    {
      var i := start;
      while i < output.Length
        invariant start <= i <= output.Length && (Whole(numChannels, i) <==> Whole(numChannels, start))
        invariant output[..start] == old(output[..start])
        invariant Whole(numChannels, start) ==> forall k | start <= k < i :: output[k] == lastFrame[k % numChannels]
      {
        if i + numChannels > output.Length {
          return true;
        }
        for ch := 0 to numChannels
          invariant output[..start] == old(output[..start])
          invariant Whole(numChannels, start) ==>
                      forall k | start <= k < i + ch :: output[k] == lastFrame[k % numChannels]
        {
          output[i + ch] := lastFrame[ch];
        }
        i := i + numChannels;
      }
      return false;
    }
  }

  /** From a new stereo stream: three samples, which are one frame and a half, and then a request for two frames. */
  method HalfFrameOverruns(samples: seq<int>) returns (overran: bool)
    requires |samples| == 3
    ensures overran
  {
    var sink := new CubebSinkStream(2);
    sink.EnqueueSamples(2, samples);
    var output := new int[4];
    overran := sink.DataCallback(output, 2);
  }
}
