/** The ring of src/audio_core/cubeb_sink.cpp between its two threads: `EnqueueSamples` pushes on one, the device's
    callback pops on the other, and every single load, copy and store may interleave. */
module SinkThreads {
  import opened Arithmetic
  import opened CubebSink
  import opened RingBufferConcurrent
  import opened RingIndex

  type SinkState = RingBufferConcurrent.State<int>
  type SinkAction = RingBufferConcurrent.Action<int>

  /** Pushes offer whole frames, and callbacks ask for whole frames. */
  predicate WholeAction(channels: nat, a: SinkAction) {
    && (a.LoadWriteForPush? ==> Whole(channels, |a.slots|))
    && (a.LoadReadForPop? ==> Whole(channels, a.maxSlots))
  }

  predicate WholeActions(channels: nat, actions: seq<SinkAction>) {
    forall i :: 0 <= i < |actions| ==> WholeAction(channels, actions[i])
  }

  /** What was transferred, and what is being transferred, are whole frames. */
  predicate WholeTransfers(channels: nat, s: SinkState) {
    && Whole(channels, |s.pushed|) && Whole(channels, |s.popped|)
    && (s.producer.PushLoaded? ==> Whole(channels, |s.producer.slots|))
    && (s.producer.PushCopying? ==> Whole(channels, s.producer.count))
    && (s.consumer.PopLoaded? ==> Whole(channels, s.consumer.maxSlots))
    && (s.consumer.PopCopying? ==> Whole(channels, s.consumer.count))
  }

  /** What the decisive loads find: as much room, and as many slots, as the histories say. */
  lemma LoadsAreExact(s: SinkState)
    requires Inv(CAPACITY, s)
    ensures s.readIndex < WRAP && s.writeIndex < WRAP && |s.popped| <= |s.pushed| <= |s.popped| + CAPACITY
    ensures WrapSub(CAPACITY + s.readIndex, s.writeIndex) == CAPACITY - (|s.pushed| - |s.popped|)
    ensures WrapSub(s.writeIndex, s.readIndex) == |s.pushed| - |s.popped|
    ensures s.producer.PushLoaded? ==> s.producer.write == s.writeIndex
    ensures s.consumer.PopLoaded? ==> s.consumer.read == s.readIndex
  {
    WrapDifference(|s.popped|, |s.pushed|, CAPACITY);
    WrapDifference(|s.pushed|, |s.popped|, 0);
  }

  lemma StepIsWhole(channels: nat, s: SinkState, a: SinkAction)
    requires Inv(CAPACITY, s) && InBounds(CAPACITY, s) && Enabled(CAPACITY, s, a)
    requires WholeTransfers(channels, s) && WholeAction(channels, a)
    ensures WholeTransfers(channels, After(CAPACITY, s, a))
  {
    hide Whole, Inv, WrapSub, Slot, SlotOf;
    LoadsAreExact(s);
    var filled := |s.pushed| - |s.popped|;
    WholeSum(channels, |s.popped|, filled);
    WholeRoom(channels, filled);
    if a.StoreWrite? {
      WholeSum(channels, |s.pushed|, s.producer.count);
    } else if a.StoreRead? {
      WholeSum(channels, |s.popped|, s.consumer.count);
    }
  }

  /** Under every interleaving of whole pushes and pops, partial ones included: every transfer is a whole number of
      frames, both indices stand at frame starts, and sample `i` out is sample `i` in, on its channel. */
  lemma {:induction false} EveryTransferIsWhole(channels: nat, actions: seq<SinkAction>, s: SinkState)
    requires Reaches(CAPACITY, actions, s) && WholeActions(channels, actions)
    ensures WholeTransfers(channels, s) && s.popped <= s.pushed
    ensures Whole(channels, s.readIndex) && Whole(channels, s.writeIndex)
    decreases |actions|
  {
    hide Inv;
    CapacityIsValid();
    ReachedInv(CAPACITY, actions, s);
    if actions != [] {
      var init, last := actions[..|actions| - 1], actions[|actions| - 1];
      var prior: SinkState :| Reaches(CAPACITY, init, prior)
        && InBounds(CAPACITY, prior) && Enabled(CAPACITY, prior, last) && s == After(CAPACITY, prior, last);
      ReachedInv(CAPACITY, init, prior);
      EveryTransferIsWhole(channels, init, prior);
      StepIsWhole(channels, prior, last);
    }
    IndicesAreWhole(channels, s);
  }

  lemma IndicesAreWhole(channels: nat, s: SinkState)
    requires Inv(CAPACITY, s) && WholeTransfers(channels, s)
    ensures Whole(channels, s.readIndex) && Whole(channels, s.writeIndex) && s.popped <= s.pushed
  {
    WholeWraps(channels, |s.popped|);
    WholeWraps(channels, |s.pushed|);
  }
}
