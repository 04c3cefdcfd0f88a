/** Which voices stay inside every mixed buffer, decided by the lengths of their wave buffers. */
module VoiceFits {
  import opened VoiceMixing
  import opened Wrappers

  /** The next `n` wave buffers stay inside their mixed buffers: `rest` samples of the current one, which has `length`,
      come next, `position` samples are in the mixed buffer, and `odd` tells whether a buffer has ended in it after an
      odd number of samples. From then on nothing may reach past it. Otherwise only the place in the last mixed buffer
      that is reached matters. An empty wave buffer ends the mixed buffer, an end of stream everything. */
  predicate BuffersFit(
      rest: nat, length: nat, waves: seq<WaveBuffer>, w: nat, position: nat, odd: bool, n: nat)
    requires |waves| == 4 && w < 4
    decreases n
  {
    n == 0 ||
    (&& !(odd && position + rest > MIX_LENGTH)
     && (|| waves[w].endOfStream
         || var next := if waves[w].isLooping then length else |waves[(w + 1) % 4].content|;
            if rest == 0 then BuffersFit(next, next, waves, NextIndex(waves, w), 0, false, n - 1)
            else BuffersFit(next, next, waves, NextIndex(waves, w),
                            if odd then position + rest else (position + rest) % 1024, odd || rest % 2 == 1, n - 1)))
  }

  predicate FitsFrom(v: Voice, position: nat, odd: bool, n: nat)
    requires Consistent(v)
  {
    IsPlaying(v) ==> BuffersFit(|Loaded(v)| - v.offset, |Loaded(v)|, v.waves, v.waveIndex, position, odd, n)
  }

  /** All wave buffers to come fit. */
  ghost predicate AllFit(v: Voice, position: nat, odd: bool)
    requires Consistent(v)
  {
    forall n: nat :: FitsFrom(v, position, odd, n)
  }

  /** A turn of the mixing loop that finds no samples ends the mixed buffer. */
  lemma EmptyTurn(v: Voice, written: nat, remaining: nat, odd: nat, n: nat)
    requires Consistent(v) && written <= MIX_LENGTH && remaining > 0 && IsPlaying(v) && v.offset == |Loaded(v)|
    ensures var v' := Dequeue(v, remaining).0;
            && Consistent(v') && Contributes(v, written, remaining) == Contributed(v', [])
            && FitsFrom(v, written, odd > 0, n + 1) == FitsFrom(v', 0, false, n)
  {
    hide Dequeue;
    ChunkOfCurrent(v, remaining);
  }

  /** A wave buffer that reaches past the mixed buffer: it overruns after an odd one, and is cut otherwise. */
  lemma LongTurn(v: Voice, written: nat, remaining: nat, odd: nat, n: nat)
    requires Consistent(v) && IsPlaying(v) && written <= MIX_LENGTH && remaining > 0
    requires written + 2 * remaining == MIX_LENGTH + odd && written + (|Loaded(v)| - v.offset) > MIX_LENGTH
    ensures odd > 0 ==> Contributes(v, written, remaining) == Overrun && !FitsFrom(v, written, true, 1)
    ensures odd == 0 ==>
              var (v', chunk) := Dequeue(v, remaining);
              && Consistent(v') && IsPlaying(v') && chunk.Some?
              && Contributes(v, written, remaining) == Contributed(v', chunk.value)
              && |Loaded(v')| - v'.offset == |Loaded(v)| - v.offset - (MIX_LENGTH - written)
              && FitsFrom(v, written, false, n) == FitsFrom(v', 0, false, n)
  {
    hide Dequeue;
    LastBuffer(v, written, remaining, odd);
    ChunkOfCurrent(v, remaining);
    DequeueBasics(v, remaining);
    if odd == 0 {
      var (v', chunk) := Dequeue(v, remaining);
      assert Contributes(v', MIX_LENGTH, 0) == Contributed(v', []);
      assert chunk.value + [] == chunk.value;
      var rest := |Loaded(v)| - v.offset;
      SamePlace(written, rest, rest - (MIX_LENGTH - written));
    }
  }

  lemma SamePlace(written: nat, rest: nat, rest': nat)
    requires written % 2 == 0 && written <= MIX_LENGTH && written + rest == MIX_LENGTH + rest'
    ensures (written + rest) % 1024 == rest' % 1024 && rest % 2 == rest' % 2
  {
  }

  /** A wave buffer that ends in the mixed buffer. */
  lemma WholeTurn(v: Voice, written: nat, remaining: nat, odd: nat, n: nat)
    requires Consistent(v) && IsPlaying(v) && written <= MIX_LENGTH && remaining > 0
    requires written + 2 * remaining == MIX_LENGTH + odd
    requires v.offset < |Loaded(v)| && written + (|Loaded(v)| - v.offset) <= MIX_LENGTH
    ensures var (v', chunk) := Dequeue(v, remaining);
            && Consistent(v') && chunk.Some?
            && var size := |chunk.value|;
               var written', remaining', odd' := written + size, remaining - size / 2, odd + size % 2;
               && 0 < size <= MIX_LENGTH - written && remaining' >= 0 && written' + 2 * remaining' == MIX_LENGTH + odd'
               && Contributes(v, written, remaining) == More(chunk.value, Contributes(v', written', remaining'))
               && FitsFrom(v, written, odd > 0, n + 1)
                  == if remaining' > 0 then FitsFrom(v', written', odd' > 0, n) else FitsFrom(v', 0, false, n)
  {
    hide Dequeue;
    ChunkOfCurrent(v, remaining);
    DequeueBasics(v, remaining);
    var rest := |Loaded(v)| - v.offset;
    InPlace(written, remaining, odd, rest);
  }

  lemma InPlace(written: nat, remaining: nat, odd: nat, rest: nat)
    requires written + 2 * remaining == MIX_LENGTH + odd && 0 < rest && written + rest <= MIX_LENGTH
    ensures rest <= 2 * remaining
    ensures remaining - rest / 2 == 0 ==> odd == 0 && rest % 2 == 0 && written + rest == MIX_LENGTH
    ensures remaining - rest / 2 > 0 && odd == 0 ==> (written + rest) % 1024 == written + rest
  {
  }

  /** If some wave buffer does not fit, some mixed buffer is overrun. */
  lemma {:induction false} UnfitOverruns(v: Voice, written: nat, remaining: nat, odd: nat, n: nat) returns (k: nat)
    requires Consistent(v) && written <= MIX_LENGTH && remaining > 0 && written + 2 * remaining == MIX_LENGTH + odd
    requires !FitsFrom(v, written, odd > 0, n)
    ensures var c := Contributes(v, written, remaining);
            c.Contributed? ==> WellFormed(c.voice) && AfterMixes(c.voice, k) == None
    decreases n, |Loaded(v)| - v.offset
  {
    hide Dequeue, Contributes, AfterMixes, Loaded, BuffersFit;
    FitsNone(v, written, odd > 0);
    var rest := |Loaded(v)| - v.offset;
    k := 0;
    if rest == 0 {
      EmptyTurn(v, written, remaining, odd, n - 1);
      var v' := Dequeue(v, remaining).0;
      k := UnfitOverruns(v', 0, BUFFER_SIZE, 0, n - 1);
      OneMoreMix(v', k);
      k := k + 1;
    } else if written + rest > MIX_LENGTH {
      LongTurn(v, written, remaining, odd, n);
      if odd == 0 {
        var v' := Dequeue(v, remaining).0;
        k := UnfitOverruns(v', 0, BUFFER_SIZE, 0, n);
        OneMoreMix(v', k);
        k := k + 1;
      }
    } else {
      WholeTurn(v, written, remaining, odd, n - 1);
      var (v', chunk) := Dequeue(v, remaining);
      var size := |chunk.value|;
      if remaining - size / 2 > 0 {
        k := UnfitOverruns(v', written + size, remaining - size / 2, odd + size % 2, n - 1);
      } else {
        k := UnfitOverruns(v', 0, BUFFER_SIZE, 0, n - 1);
        OneMoreMix(v', k);
        NothingMore(v', MIX_LENGTH);
        k := k + 1;
      }
    }
  }

  lemma FitsNone(v: Voice, position: nat, odd: bool)
    requires Consistent(v)
    ensures FitsFrom(v, position, odd, 0) && (!IsPlaying(v) ==> forall n: nat :: FitsFrom(v, position, odd, n))
  {
  }

  lemma NothingMore(v: Voice, written: nat)
    requires WellFormed(v) && written <= MIX_LENGTH
    ensures Contributes(v, written, 0) == Contributed(v, [])
  {
  }

  /** If all of them fit, every mixed buffer gets through. */
  lemma {:induction false} FitLasts(v: Voice, written: nat, remaining: nat, odd: nat, k: nat)
    requires Consistent(v) && written <= MIX_LENGTH && remaining > 0 && written + 2 * remaining == MIX_LENGTH + odd
    requires AllFit(v, written, odd > 0)
    ensures var c := Contributes(v, written, remaining);
            c.Contributed? && WellFormed(c.voice) && AfterMixes(c.voice, k).Some?
    decreases k, MIX_LENGTH - written
  {
    hide Dequeue, Contributes, AfterMixes, Loaded, FitsFrom;
    var rest := |Loaded(v)| - v.offset;
    if !IsPlaying(v) {
      SilentLasts(v, written, remaining, k);
    } else if rest == 0 {
      EmptyTurn(v, written, remaining, odd, 0);
      var v' := Dequeue(v, remaining).0;
      forall n: nat ensures FitsFrom(v', 0, false, n) {
        EmptyTurn(v, written, remaining, odd, n);
        assert FitsFrom(v, written, odd > 0, n + 1);
      }
      if k > 0 {
        FitLasts(v', 0, BUFFER_SIZE, 0, k - 1);
        OneMoreMix(v', k - 1);
      } else {
        NoMixes(v');
      }
    } else if written + rest > MIX_LENGTH {
      assert FitsFrom(v, written, odd > 0, 1);
      LongTurn(v, written, remaining, odd, 1);
      var v' := Dequeue(v, remaining).0;
      forall n: nat ensures FitsFrom(v', 0, false, n) {
        LongTurn(v, written, remaining, odd, n);
        assert FitsFrom(v, written, odd > 0, n);
      }
      if k > 0 {
        FitLasts(v', 0, BUFFER_SIZE, 0, k - 1);
        OneMoreMix(v', k - 1);
      } else {
        NoMixes(v');
      }
    } else {
      WholeTurn(v, written, remaining, odd, 0);
      var (v', chunk) := Dequeue(v, remaining);
      var size := |chunk.value|;
      if remaining - size / 2 > 0 {
        var written', odd' := written + size, odd + size % 2 > 0;
        forall n: nat ensures FitsFrom(v', written', odd', n) {
          WholeTurn(v, written, remaining, odd, n);
          assert FitsFrom(v, written, odd > 0, n + 1);
        }
        FitLasts(v', written + size, remaining - size / 2, odd + size % 2, k);
      } else {
        forall n: nat ensures FitsFrom(v', 0, false, n) {
          WholeTurn(v, written, remaining, odd, n);
          assert FitsFrom(v, written, odd > 0, n + 1);
        }
        NothingMore(v', MIX_LENGTH);
        if k > 0 {
        FitLasts(v', 0, BUFFER_SIZE, 0, k - 1);
        OneMoreMix(v', k - 1);
      } else {
        NoMixes(v');
      }
      }
    }
  }

  lemma NoMixes(v: Voice)
    requires Consistent(v)
    ensures AfterMixes(v, 0).Some?
  {
  }

  /** A voice that does not play gets through. */
  lemma {:induction false} SilentLasts(v: Voice, written: nat, remaining: nat, k: nat)
    requires Consistent(v) && !IsPlaying(v) && written <= MIX_LENGTH
    ensures Contributes(v, written, remaining) == Contributed(v, []) && AfterMixes(v, k).Some?
    decreases k
  {
    if k > 0 {
      SilentLasts(v, 0, BUFFER_SIZE, k - 1);
    }
  }

  /** For every voice whose offset lies within its samples: it stays inside every mixed buffer, however many are mixed,
      exactly when its wave buffers fit one after the other. */
  lemma StaysInsideExactly(v: Voice)
    requires Consistent(v)
    ensures (forall k: nat :: AfterMixes(v, k).Some?) <==> AllFit(v, 0, false)
  {
    hide Contributes, AfterMixes, FitsFrom;
    if AllFit(v, 0, false) {
      forall k: nat ensures AfterMixes(v, k).Some? {
        if k > 0 {
          FitLasts(v, 0, BUFFER_SIZE, 0, k - 1);
          OneMoreMix(v, k - 1);
        } else {
          NoMixes(v);
        }
      }
    } else {
      var n: nat :| !FitsFrom(v, 0, false, n);
      var k := UnfitOverruns(v, 0, BUFFER_SIZE, 0, n);
      OneMoreMix(v, k);
      assert AfterMixes(v, k + 1).None?;
    }
  }
}
