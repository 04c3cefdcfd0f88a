/** `DecodeADPCM` of src/audio_core/codec.cpp: frames of 8 bytes, a header and fourteen 4-bit samples,
    run through a second-order filter in fixed point. */
module Adpcm {
  import opened Arithmetic

  /** `ADPCMState`: the last two samples. */
  datatype State = State(yn1: int, yn2: int)

  predicate IsS16(x: int) {
    -32768 <= x <= 32767
  }

  predicate IsS32(x: int) {
    -0x8000_0000 <= x <= 0x7fff_ffff
  }

  predicate Bytes(data: seq<int>) {
    forall i :: 0 <= i < |data| ==> 0 <= data[i] < 256
  }

  predicate Coefficients(coeff: seq<int>) {
    |coeff| == 16 && forall i :: 0 <= i < 16 ==> IsS16(coeff[i])
  }

  /** The table SIGNED_NIBBLES. */
  function SignedNibble(n: int): (r: int)
    requires 0 <= n < 16
    ensures -8 <= r <= 7 && (r - n) % 16 == 0
  {
    if n < 8 then n else n - 16
  }

  /** The sum before it is shifted back: x[n] + 0.5 + c1 * y[n-1] + c2 * y[n-2] with 11 fractional bits. */
  function FilterSum(nibble: int, shift: nat, c1: int, c2: int, s: State): int {
    nibble * Pow2(shift) * 2048 + 1024 + c1 * s.yn1 + c2 * s.yn2
  }

  /** Arithmetic on integers, or on 32-bit words. */
  datatype Width = Exact | Wrapping

  /** The 32-bit value that `x` wraps to. */
  function S32(x: int): (r: int)
    ensures IsS32(r)
  {
    (x + 0x8000_0000) % 0x1_0000_0000 - 0x8000_0000
  }

  /** `decode_sample`. */
  function DecodeSample(width: Width, nibble: int, shift: nat, c1: int, c2: int, s: State): (s': State)
    ensures IsS16(s'.yn1) && s'.yn2 == s.yn1
  {
    var sum := FilterSum(nibble, shift, c1, c2, s);
    State(ClampToS16((if width.Exact? then sum else S32(sum)) / 2048), s.yn1)
  }

  /** The two samples of each data byte, high nibble first. */
  function DecodeBytes(width: Width, data: seq<int>, shift: nat, c1: int, c2: int, s: State): (seq<int>, State)
    requires Bytes(data)
  {
    if data == [] then ([], s) else
      var s1 := DecodeSample(width, SignedNibble(data[0] / 16), shift, c1, c2, s);
      var s2 := DecodeSample(width, SignedNibble(data[0] % 16), shift, c1, c2, s1);
      var (rest, s') := DecodeBytes(width, data[1..], shift, c1, c2, s2);
      ([s1.yn1, s2.yn1] + rest, s')
  }

  function DecodeFrame(width: Width, frame: seq<int>, coeff: seq<int>, s: State): (seq<int>, State)
    requires Bytes(frame) && |frame| == 8 && Coefficients(coeff)
  {
    var idx := frame[0] / 16 % 8;
    DecodeBytes(width, frame[1..], frame[0] % 16, coeff[idx * 2], coeff[idx * 2 + 1], s)
  }

  /** The samples of all whole frames; bytes after the last whole frame are ignored. */
  function Decode(width: Width, data: seq<int>, coeff: seq<int>, s: State): (seq<int>, State)
    requires Bytes(data) && Coefficients(coeff)
    decreases |data|
  {
    if |data| < 8 then ([], s) else
      var (first, s1) := DecodeFrame(width, data[..8], coeff, s);
      var (rest, s') := Decode(width, data[8..], coeff, s1);
      (first + rest, s')
  }

  // ---- decoding piece by piece -------------------------------------------------------------

  /** Decoding whole frames and then the rest, with the state carried over, is decoding all at once. */
  lemma {:induction false} DecodeAppend(width: Width, a: seq<int>, b: seq<int>, coeff: seq<int>, s: State)
    requires Bytes(a) && Bytes(b) && Coefficients(coeff) && |a| % 8 == 0
    ensures Bytes(a + b)
    ensures var (first, s1) := Decode(width, a, coeff, s);
            var (second, s2) := Decode(width, b, coeff, s1);
            Decode(width, a + b, coeff, s) == (first + second, s2)
    decreases |a|
  {
    hide DecodeFrame;
    if a == [] {
      assert a + b == b;
      assert [] + Decode(width, b, coeff, s).0 == Decode(width, b, coeff, s).0;
    } else {
      var (frame, s1) := DecodeFrame(width, a[..8], coeff, s);
      assert (a + b)[..8] == a[..8] && (a + b)[8..] == a[8..] + b;
      DecodeAppend(width, a[8..], b, coeff, s1);
      var (rest, s2) := Decode(width, a[8..], coeff, s1);
      assert frame + (rest + Decode(width, b, coeff, s2).0) == frame + rest + Decode(width, b, coeff, s2).0;
    }
  }

  lemma {:induction false} BytesLength(width: Width, data: seq<int>, shift: nat, c1: int, c2: int, s: State)
    requires Bytes(data)
    ensures |DecodeBytes(width, data, shift, c1, c2, s).0| == 2 * |data|
  {
    if data != [] {
      var s1 := DecodeSample(width, SignedNibble(data[0] / 16), shift, c1, c2, s);
      var s2 := DecodeSample(width, SignedNibble(data[0] % 16), shift, c1, c2, s1);
      BytesLength(width, data[1..], shift, c1, c2, s2);
    }
  }

  /** One byte more. */
  lemma {:induction false} BytesSnoc(width: Width, data: seq<int>, b: int, shift: nat, c1: int, c2: int, s: State)
    requires Bytes(data) && 0 <= b < 256
    ensures Bytes(data + [b])
    ensures var (samples, s0) := DecodeBytes(width, data, shift, c1, c2, s);
            var s1 := DecodeSample(width, SignedNibble(b / 16), shift, c1, c2, s0);
            var s2 := DecodeSample(width, SignedNibble(b % 16), shift, c1, c2, s1);
            DecodeBytes(width, data + [b], shift, c1, c2, s) == (samples + [s1.yn1, s2.yn1], s2)
  {
    hide DecodeSample;
    if data == [] {
      assert data + [b] == [b] && [b][1..] == [];
      var s1 := DecodeSample(width, SignedNibble(b / 16), shift, c1, c2, s);
      var s2 := DecodeSample(width, SignedNibble(b % 16), shift, c1, c2, s1);
      assert DecodeBytes(width, [b], shift, c1, c2, s) == ([s1.yn1, s2.yn1] + [], s2);
      assert [] + [s1.yn1, s2.yn1] == [s1.yn1, s2.yn1] + [];
    } else {
      var s1 := DecodeSample(width, SignedNibble(data[0] / 16), shift, c1, c2, s);
      var s2 := DecodeSample(width, SignedNibble(data[0] % 16), shift, c1, c2, s1);
      assert (data + [b])[1..] == data[1..] + [b];
      BytesSnoc(width, data[1..], b, shift, c1, c2, s2);
      var (rest, s0) := DecodeBytes(width, data[1..], shift, c1, c2, s2);
      var t1 := DecodeSample(width, SignedNibble(b / 16), shift, c1, c2, s0);
      var t2 := DecodeSample(width, SignedNibble(b % 16), shift, c1, c2, t1);
      assert [s1.yn1, s2.yn1] + (rest + [t1.yn1, t2.yn1]) == [s1.yn1, s2.yn1] + rest + [t1.yn1, t2.yn1];
    }
  }

  // ---- overflow ----------------------------------------------------------------------------

  /** Every value computed on the way to the sum, in the order of line 47. */
  function Intermediates(nibble: int, shift: nat, c1: int, c2: int, s: State): seq<int> {
    var xn := nibble * Pow2(shift);
    [xn, xn * 2048, xn * 2048 + 1024, c1 * s.yn1, xn * 2048 + 1024 + c1 * s.yn1, c2 * s.yn2,
     FilterSum(nibble, shift, c1, c2, s)]
  }

  ghost predicate NeverOverflows(c1: int, c2: int) {
    forall nibble: int, shift: nat, s: State, i: nat ::
      -8 <= nibble <= 7 && shift < 16 && IsS16(s.yn1) && IsS16(s.yn2) && i < 7 ==>
        IsS32(Intermediates(nibble, shift, c1, c2, s)[i])
  }

  /** The least and the greatest value of c * y for a sample y. */
  function Least(c: int): int {
    if c >= 0 then -32768 * c else 32767 * c
  }

  function Greatest(c: int): int {
    if c >= 0 then 32767 * c else -32768 * c
  }

  lemma ProductBounds(c: int, y: int)
    requires IsS16(y)
    ensures Least(c) <= c * y <= Greatest(c) && Least(c) <= 0 <= Greatest(c)
  {
    var m := if c >= 0 then c else -c;
    NonNegative(m, y + 32768);
    NonNegative(m, 32767 - y);
    assert m * (y + 32768) == m * y + m * 32768 && m * (32767 - y) == m * 32767 - m * y;
    assert c < 0 ==> m * y == -(c * y);
  }

  lemma NonNegative(a: int, b: int)
    requires a >= 0 && b >= 0
    ensures a * b >= 0
  {
  }

  lemma Pow2Of15()
    ensures Pow2(15) == 32768
    ensures forall k: nat :: k < 16 ==> Pow2(k) <= 32768
  {
    hide Pow2;
    Pow2Is65536();
    assert Pow2(16) == 2 * Pow2(15) by { Pow2Successor(15); }
    forall k: nat | k < 16 ensures Pow2(k) <= 32768 {
      if k < 15 {
        Pow2Monotonic(k, 15);
      }
    }
  }

  lemma Pow2Successor(k: nat)
    ensures Pow2(k + 1) == 2 * Pow2(k)
  {
  }

  /** The extreme sums of a pair of coefficients fit 32 bits. */
  predicate SumsFit(c1: int, c2: int) {
    && Least(c1) + Least(c2) >= -0x8000_0000 + 0x2000_0000 - 1024
    && Greatest(c1) + Greatest(c2) <= 0x7fff_ffff - 0x1c00_0000 - 1024
  }

  /** No sample of any data in any state overflows 32 bits, if and only if the extreme sums do not: the
      condition on a pair of coefficients that a caller can check. */
  lemma NeverOverflowsExactly(c1: int, c2: int)
    requires IsS16(c1) && IsS16(c2)
    ensures NeverOverflows(c1, c2) <==> SumsFit(c1, c2)
  {
    if SumsFit(c1, c2) {
      forall nibble: int, shift: nat, s: State, i: nat
        | -8 <= nibble <= 7 && shift < 16 && IsS16(s.yn1) && IsS16(s.yn2) && i < 7
        ensures IsS32(Intermediates(nibble, shift, c1, c2, s)[i])
      {
        SampleFits(nibble, shift, c1, c2, s, i);
      }
    } else {
      var nibble, s := WorstSample(c1, c2);
      assert Intermediates(nibble, 15, c1, c2, s)[6] == FilterSum(nibble, 15, c1, c2, s);
    }
  }

  /** The sample that overflows if any does. */
  lemma WorstSample(c1: int, c2: int) returns (nibble: int, s: State)
    requires !SumsFit(c1, c2)
    ensures nibble in {-8, 7} && IsS16(s.yn1) && IsS16(s.yn2) && !IsS32(FilterSum(nibble, 15, c1, c2, s))
  {
    Pow2Of15();
    if Least(c1) + Least(c2) < -0x8000_0000 + 0x2000_0000 - 1024 {
      nibble, s := -8, State(if c1 >= 0 then -32768 else 32767, if c2 >= 0 then -32768 else 32767);
    } else {
      nibble, s := 7, State(if c1 >= 0 then 32767 else -32768, if c2 >= 0 then 32767 else -32768);
    }
  }

  lemma SampleFits(nibble: int, shift: nat, c1: int, c2: int, s: State, i: nat)
    requires IsS16(c1) && IsS16(c2) && SumsFit(c1, c2)
    requires -8 <= nibble <= 7 && shift < 16 && IsS16(s.yn1) && IsS16(s.yn2) && i < 7
    ensures IsS32(Intermediates(nibble, shift, c1, c2, s)[i])
  {
    Pow2Of15();
    ProductBounds(c1, s.yn1);
    ProductBounds(c2, s.yn2);
    NibbleBounds(nibble, Pow2(shift));
    hide Pow2, Least, Greatest;
  }

  lemma NibbleBounds(nibble: int, p: nat)
    requires -8 <= nibble <= 7 && p <= 32768
    ensures -0x4_0000 <= nibble * p <= 0x3_8000
  {
  }

  /** In particular, coefficients whose magnitudes add up to at most 24 units (49152) never overflow. */
  lemma SmallCoefficientsFit(c1: int, c2: int)
    requires IsS16(c1) && IsS16(c2)
    requires (if c1 >= 0 then c1 else -c1) + (if c2 >= 0 then c2 else -c2) <= 49152
    ensures NeverOverflows(c1, c2)
  {
    NeverOverflowsExactly(c1, c2);
  }

  lemma WordOf(x: int) returns (k: int)
    ensures S32(x) == x + 0x1_0000_0000 * k
  {
    k := -((x + 0x8000_0000) / 0x1_0000_0000);
  }

  lemma SameWord(a: int, b: int, k: int)
    requires a == b + 0x1_0000_0000 * k
    ensures S32(a) == S32(b)
  {
  }

  /** Wrapping at every step is wrapping once at the end. */
  lemma WordSum(x: int, p: int, q: int)
    ensures S32(S32(S32(S32(S32(x) * 2048) + 1024) + S32(p)) + S32(q)) == S32(x * 2048 + 1024 + p + q)
  {
    hide S32;
    var k0 := WordOf(x);
    var k1 := WordOf(S32(x) * 2048);
    var k2 := WordOf(S32(S32(x) * 2048) + 1024);
    var kp := WordOf(p);
    var kq := WordOf(q);
    var k3 := WordOf(S32(S32(S32(x) * 2048) + 1024) + S32(p));
    SameWord(S32(S32(S32(S32(x) * 2048) + 1024) + S32(p)) + S32(q), x * 2048 + 1024 + p + q,
             2048 * k0 + k1 + k2 + kp + k3 + kq);
  }

  /** A sample comes out right on 32-bit words exactly when its sum fits them. */
  lemma SampleAgreesExactly(nibble: int, shift: nat, c1: int, c2: int, s: State)
    requires IsS16(c1) && IsS16(c2) && -8 <= nibble <= 7 && shift < 16 && IsS16(s.yn1) && IsS16(s.yn2)
    ensures DecodeSample(Wrapping, nibble, shift, c1, c2, s) == DecodeSample(Exact, nibble, shift, c1, c2, s)
            <==> IsS32(FilterSum(nibble, shift, c1, c2, s))
  {
    SumBounds(nibble, shift, c1, c2, s);
    hide FilterSum;
  }

  lemma SumBounds(nibble: int, shift: nat, c1: int, c2: int, s: State)
    requires IsS16(c1) && IsS16(c2) && -8 <= nibble <= 7 && shift < 16 && IsS16(s.yn1) && IsS16(s.yn2)
    ensures -0xa000_0000 <= FilterSum(nibble, shift, c1, c2, s) <= 0xa000_0000
  {
    Pow2Of15();
    ProductBounds(c1, s.yn1);
    ProductBounds(c2, s.yn2);
    NibbleBounds(nibble, Pow2(shift));
    hide Pow2;
  }

  predicate AllSumsFit(coeff: seq<int>)
    requires |coeff| == 16
  {
    forall idx {:trigger coeff[idx * 2]} :: 0 <= idx < 8 ==> SumsFit(coeff[idx * 2], coeff[idx * 2 + 1])
  }

  lemma {:induction false} BytesAgree(data: seq<int>, shift: nat, c1: int, c2: int, s: State)
    requires Bytes(data) && IsS16(c1) && IsS16(c2) && SumsFit(c1, c2) && shift < 16 && IsS16(s.yn1) && IsS16(s.yn2)
    ensures DecodeBytes(Wrapping, data, shift, c1, c2, s) == DecodeBytes(Exact, data, shift, c1, c2, s)
    ensures var s' := DecodeBytes(Exact, data, shift, c1, c2, s).1; IsS16(s'.yn1) && IsS16(s'.yn2)
  {
    hide DecodeSample, SumsFit;
    if data != [] {
      var a, b := SignedNibble(data[0] / 16), SignedNibble(data[0] % 16);
      SampleAgrees(a, shift, c1, c2, s);
      var s1 := DecodeSample(Exact, a, shift, c1, c2, s);
      SampleAgrees(b, shift, c1, c2, s1);
      BytesAgree(data[1..], shift, c1, c2, DecodeSample(Exact, b, shift, c1, c2, s1));
    }
  }

  lemma SampleAgrees(nibble: int, shift: nat, c1: int, c2: int, s: State)
    requires IsS16(c1) && IsS16(c2) && SumsFit(c1, c2)
    requires -8 <= nibble <= 7 && shift < 16 && IsS16(s.yn1) && IsS16(s.yn2)
    ensures DecodeSample(Wrapping, nibble, shift, c1, c2, s) == DecodeSample(Exact, nibble, shift, c1, c2, s)
  {
    hide DecodeSample, FilterSum;
    SampleFits(nibble, shift, c1, c2, s, 6);
    SampleAgreesExactly(nibble, shift, c1, c2, s);
  }

  lemma {:induction false} DecodeAgrees(data: seq<int>, coeff: seq<int>, s: State)
    requires Bytes(data) && Coefficients(coeff) && AllSumsFit(coeff) && IsS16(s.yn1) && IsS16(s.yn2)
    ensures Decode(Wrapping, data, coeff, s) == Decode(Exact, data, coeff, s)
    decreases |data|
  {
    hide DecodeBytes, SumsFit;
    if |data| >= 8 {
      var frame := data[..8];
      var idx := frame[0] / 16 % 8;
      BytesAgree(frame[1..], frame[0] % 16, coeff[idx * 2], coeff[idx * 2 + 1], s);
      DecodeAgrees(data[8..], coeff, DecodeFrame(Exact, frame, coeff, s).1);
    }
  }

  lemma FirstSample(width: Width, frame: seq<int>, coeff: seq<int>, s: State)
    requires Bytes(frame) && |frame| == 8 && Coefficients(coeff)
    ensures var idx := frame[0] / 16 % 8;
            var y := Decode(width, frame, coeff, s).0;
            |y| > 0
            && y[0] == DecodeSample(width, SignedNibble(frame[1] / 16), frame[0] % 16,
                                    coeff[idx * 2], coeff[idx * 2 + 1], s).yn1
  {
    hide DecodeSample;
    assert frame[..8] == frame && frame[1..][0] == frame[1];
  }

  /** All data decode alike on 32-bit words and on integers, from all states. */
  ghost predicate AlwaysExact(coeff: seq<int>)
    requires Coefficients(coeff)
  {
    forall data: seq<int>, s: State :: Bytes(data) && IsS16(s.yn1) && IsS16(s.yn2) ==>
      Decode(Wrapping, data, coeff, s) == Decode(Exact, data, coeff, s)
  }

  lemma UnfitPairDiffers(coeff: seq<int>, idx: nat) returns (frame: seq<int>, s: State)
    requires Coefficients(coeff) && idx < 8 && !SumsFit(coeff[idx * 2], coeff[idx * 2 + 1])
    ensures Bytes(frame) && IsS16(s.yn1) && IsS16(s.yn2)
    ensures Decode(Wrapping, frame, coeff, s) != Decode(Exact, frame, coeff, s)
  {
    hide DecodeSample, Decode, FilterSum, SumsFit, SignedNibble;
    var c1, c2 := coeff[idx * 2], coeff[idx * 2 + 1];
    var nibble;
    nibble, s := WorstSample(c1, c2);
    frame := WorstFrame(idx, nibble);
    FirstSample(Wrapping, frame, coeff, s);
    FirstSample(Exact, frame, coeff, s);
    SampleAgreesExactly(nibble, 15, c1, c2, s);
  }

  lemma WorstFrame(idx: nat, nibble: int) returns (frame: seq<int>)
    requires idx < 8 && nibble in {-8, 7}
    ensures Bytes(frame) && |frame| == 8 && frame[0] / 16 % 8 == idx && frame[0] % 16 == 15
    ensures SignedNibble(frame[1] / 16) == nibble
  {
    frame := [idx * 16 + 15, if nibble == -8 then 0x80 else 0x70, 0, 0, 0, 0, 0, 0];
  }

  /** A coefficient table decodes everything right on 32-bit words if and only if the extreme sums of each of its
      pairs fit them. */
  lemma AlwaysExactExactly(coeff: seq<int>)
    requires Coefficients(coeff)
    ensures AlwaysExact(coeff) <==> AllSumsFit(coeff)
  {
    hide Decode, SumsFit;
    if AllSumsFit(coeff) {
      forall data: seq<int>, s: State | Bytes(data) && IsS16(s.yn1) && IsS16(s.yn2)
        ensures Decode(Wrapping, data, coeff, s) == Decode(Exact, data, coeff, s)
      {
        DecodeAgrees(data, coeff, s);
      }
    } else {
      var idx: nat :| idx < 8 && !SumsFit(coeff[idx * 2], coeff[idx * 2 + 1]);
      var frame, s := UnfitPairDiffers(coeff, idx);
    }
  }

  // ---- the filter --------------------------------------------------------------------------

  /** `out` is the nearest sample to x + c1 * y1 + c2 * y2, with coefficients of 11 fractional bits. */
  ghost predicate IsFiltered(x: int, c1: int, c2: int, y1: int, y2: int, out: int) {
    exists r :: out == ClampToS16(r) && 2048 * r - 1024 <= 2048 * x + c1 * y1 + c2 * y2 < 2048 * r + 1024
  }

  /** Sample `n` of the output `y`, where the two samples before the first are those of the state. */
  function Past(y: seq<int>, s: State, n: int): int
    requires -2 <= n < |y|
  {
    if n >= 0 then y[n] else if n == -1 then s.yn1 else s.yn2
  }

  function NibbleAt(bytes: seq<int>, n: nat): int
    requires Bytes(bytes) && n < 2 * |bytes|
  {
    SignedNibble(if n % 2 == 0 then bytes[n / 2] / 16 else bytes[n / 2] % 16)
  }

  lemma SampleIsFiltered(nibble: int, shift: nat, c1: int, c2: int, s: State)
    ensures IsFiltered(nibble * Pow2(shift), c1, c2, s.yn1, s.yn2, DecodeSample(Exact, nibble, shift, c1, c2, s).yn1)
  {
  }

  /** The samples of some bytes satisfy the filter equation, and the state ends with the last two. */
  lemma {:induction false} BytesAreFiltered(data: seq<int>, shift: nat, c1: int, c2: int, s: State, n: nat)
    requires Bytes(data)
    ensures var (y, s') := DecodeBytes(Exact, data, shift, c1, c2, s);
            && |y| == 2 * |data| && s' == State(Past(y, s, |y| - 1), Past(y, s, |y| - 2))
            && (n < |y| ==>
                  IsFiltered(NibbleAt(data, n) * Pow2(shift), c1, c2, Past(y, s, n - 1), Past(y, s, n - 2), y[n]))
  {
    hide IsFiltered, DecodeSample, SignedNibble, Pow2;
    if data != [] {
      var a, b := SignedNibble(data[0] / 16), SignedNibble(data[0] % 16);
      var s1 := DecodeSample(Exact, a, shift, c1, c2, s);
      var s2 := DecodeSample(Exact, b, shift, c1, c2, s1);
      BytesAreFiltered(data[1..], shift, c1, c2, s2, if n < 2 then 0 else n - 2);
      var first, rest := [s1.yn1, s2.yn1], DecodeBytes(Exact, data[1..], shift, c1, c2, s2).0;
      if n == 0 {
        SampleIsFiltered(a, shift, c1, c2, s);
      } else if n == 1 {
        SampleIsFiltered(b, shift, c1, c2, s1);
      } else if n < |first + rest| {
        NibbleShift(data, n);
        PastShift(first, rest, s, s2, n - 1);
        PastShift(first, rest, s, s2, n - 2);
      }
    }
  }

  lemma NibbleShift(data: seq<int>, n: nat)
    requires Bytes(data) && 2 <= n < 2 * |data|
    ensures NibbleAt(data, n) == NibbleAt(data[1..], n - 2)
  {
  }

  /** Samples that follow `first` see its last two samples as their state. */
  lemma PastShift(first: seq<int>, rest: seq<int>, s: State, s': State, n: int)
    requires |first| >= 2 && s' == State(first[|first| - 1], first[|first| - 2]) && |first| - 2 <= n < |first + rest|
    ensures Past(first + rest, s, n) == Past(rest, s', n - |first|)
  {
  }

  /** Sample `n` of a frame follows the filter that the frame's header selects. */
  ghost predicate FilteredInFrame(frame: seq<int>, coeff: seq<int>, n: nat, y1: int, y2: int, out: int)
    requires Bytes(frame) && |frame| == 8 && Coefficients(coeff) && n < 14
  {
    var idx := frame[0] / 16 % 8;
    IsFiltered(NibbleAt(frame[1..], n) * Pow2(frame[0] % 16), coeff[idx * 2], coeff[idx * 2 + 1], y1, y2, out)
  }

  lemma FrameIsFiltered(frame: seq<int>, coeff: seq<int>, s: State, n: nat)
    requires Bytes(frame) && |frame| == 8 && Coefficients(coeff) && n < 14
    ensures var (y, s') := DecodeFrame(Exact, frame, coeff, s);
            && |y| == 14 && s' == State(y[13], y[12])
            && FilteredInFrame(frame, coeff, n, Past(y, s, n - 1), Past(y, s, n - 2), y[n])
  {
    hide IsFiltered, DecodeBytes, SignedNibble;
    var idx := frame[0] / 16 % 8;
    BytesAreFiltered(frame[1..], frame[0] % 16, coeff[idx * 2], coeff[idx * 2 + 1], s, n);
  }

  /** The frame that sample `n` comes from. */
  function FrameOf(data: seq<int>, n: nat): (frame: seq<int>)
    requires n < 14 * (|data| / 8)
    ensures |frame| == 8
  {
    data[8 * (n / 14)..8 * (n / 14) + 8]
  }

  ghost predicate FilteredAt(data: seq<int>, coeff: seq<int>, s: State, y: seq<int>, n: nat)
    requires Bytes(data) && Coefficients(coeff) && n < |y| == 14 * (|data| / 8)
  {
    FilteredInFrame(FrameOf(data, n), coeff, n % 14, Past(y, s, n - 1), Past(y, s, n - 2), y[n])
  }

  /** Every sample of the output, at the start, inside and across frames, is the nearest to the sum of its
      scaled nibble and of the two samples before it, weighted by the coefficients its frame selects. */
  lemma {:induction false} DecodeIsFilter(data: seq<int>, coeff: seq<int>, s: State, n: nat)
    requires Bytes(data) && Coefficients(coeff) && n < 14 * (|data| / 8)
    ensures |Decode(Exact, data, coeff, s).0| == 14 * (|data| / 8)
    ensures FilteredAt(data, coeff, s, Decode(Exact, data, coeff, s).0, n)
    decreases |data|
  {
    hide FilteredInFrame, DecodeFrame;
    var frame, rest := data[..8], data[8..];
    FrameIsFiltered(frame, coeff, s, n % 14);
    var (first, s1) := DecodeFrame(Exact, frame, coeff, s);
    DecodeLength(rest, coeff, s1);
    var y := Decode(Exact, rest, coeff, s1).0;
    if n < 14 {
      assert FrameOf(data, n) == frame;
      assert n >= 1 ==> Past(first + y, s, n - 1) == Past(first, s, n - 1);
      assert n >= 2 ==> Past(first + y, s, n - 2) == Past(first, s, n - 2);
    } else {
      DecodeIsFilter(rest, coeff, s1, n - 14);
      FrameShift(data, n);
      PastShift(first, y, s, s1, n - 1);
      PastShift(first, y, s, s1, n - 2);
    }
  }

  lemma FrameShift(data: seq<int>, n: nat)
    requires 14 <= n < 14 * (|data| / 8)
    ensures n - 14 < 14 * (|data[8..]| / 8)
    ensures FrameOf(data, n) == FrameOf(data[8..], n - 14) && n % 14 == (n - 14) % 14
  {
    var q, r, m := n / 14, n % 14, |data| / 8;
    assert n == 14 * q + r;
    ModUnique(n - 14, 14, q - 1, r);
    ModUnique(|data| - 8, 8, m - 1, |data| % 8);
    assert q < m;
    SliceShift(data, 8 * (q - 1));
  }

  lemma SliceShift(data: seq<int>, at: nat)
    requires at + 16 <= |data|
    ensures data[at + 8..at + 16] == data[8..][at..at + 8]
  {
  }

  lemma {:induction false} DecodeLength(data: seq<int>, coeff: seq<int>, s: State)
    requires Bytes(data) && Coefficients(coeff)
    ensures |Decode(Exact, data, coeff, s).0| == 14 * (|data| / 8)
    decreases |data|
  {
    hide DecodeFrame, FilteredInFrame;
    if |data| >= 8 {
      FrameIsFiltered(data[..8], coeff, s, 0);
      DecodeLength(data[8..], coeff, DecodeFrame(Exact, data[..8], coeff, s).1);
    }
  }

  // ---- the code ----------------------------------------------------------------------------

  /** Lines 42-54, where every operation is one on 32-bit words. */
  function DecodeNibble(nibble: int, shift: nat, c1: int, c2: int, s: State): (s': State)
    ensures s' == DecodeSample(Wrapping, nibble, shift, c1, c2, s)
  {
    var xn := S32(nibble * Pow2(shift));
    var shifted := S32(xn * 2048);
    var val := S32(S32(S32(shifted + 1024) + S32(c1 * s.yn1)) + S32(c2 * s.yn2)) / 2048;
    assert val == S32(FilterSum(nibble, shift, c1, c2, s)) / 2048 by {
      WordSum(nibble * Pow2(shift), c1 * s.yn1, c2 * s.yn2);
    }
    State(ClampToS16(val), s.yn1)
  }

  // Lines 56-68
  method DecodeFrameInto(ret: array<int>, frame: seq<int>, coeff: seq<int>, state: State, at: nat)
      returns (state': State)
    requires Bytes(frame) && |frame| == 8 && Coefficients(coeff) && at + 14 <= ret.Length
    modifies ret
    ensures |DecodeFrame(Wrapping, frame, coeff, state).0| == 14
    ensures (ret[at..at + 14], state') == DecodeFrame(Wrapping, frame, coeff, state)
    ensures ret[..at] == old(ret[..at])
  {
    hide DecodeSample, DecodeNibble;
    var shift := frame[0] % 16;
    var idx := frame[0] / 16 % 8;
    var c1, c2 := coeff[idx * 2], coeff[idx * 2 + 1];
    ghost var bytes := frame[1..];
    BytesLength(Wrapping, bytes, shift, c1, c2, state);
    state' := state;
    var outputi, datai := at, 1;
    assert bytes[..0] == [] && ret[at..at] == [];
    while datai < 8
      invariant 1 <= datai <= 8 && outputi == at + 2 * (datai - 1)
      invariant (ret[at..outputi], state') == DecodeBytes(Wrapping, bytes[..datai - 1], shift, c1, c2, state)
      invariant ret[..at] == old(ret[..at])
    {
      BytesSnoc(Wrapping, bytes[..datai - 1], frame[datai], shift, c1, c2, state);
      assert bytes[..datai] == bytes[..datai - 1] + [frame[datai]];
      ghost var before, i := ret[at..outputi], outputi;
      state' := DecodeNibble(SignedNibble(frame[datai] / 16), shift, c1, c2, state');
      ret[outputi] := state'.yn1;
      outputi := outputi + 1;
      state' := DecodeNibble(SignedNibble(frame[datai] % 16), shift, c1, c2, state');
      ret[outputi] := state'.yn1;
      outputi := outputi + 1;
      datai := datai + 1;
      assert ret[at..i] == before && ret[i..outputi] == [ret[i], ret[i + 1]];
      assert ret[at..outputi] == ret[at..i] + ret[i..outputi];
    }
    assert bytes[..7] == bytes;
  }

  lemma {:induction false} DecodeSnoc(width: Width, data: seq<int>, frame: seq<int>, coeff: seq<int>, s: State)
    requires Bytes(data) && Bytes(frame) && |frame| == 8 && Coefficients(coeff) && |data| % 8 == 0
    ensures Bytes(data + frame)
    ensures var (samples, s1) := Decode(width, data, coeff, s);
            var (more, s2) := DecodeFrame(width, frame, coeff, s1);
            Decode(width, data + frame, coeff, s) == (samples + more, s2)
  {
    hide DecodeFrame;
    DecodeAppend(width, data, frame, coeff, s);
    var s1 := Decode(width, data, coeff, s).1;
    assert frame[..8] == frame && frame[8..] == [];
    var more := DecodeFrame(width, frame, coeff, s1).0;
    assert more + [] == more;
  }

  /** Bytes behind the last whole frame do not matter. */
  lemma {:induction false} DecodeIgnoresRest(width: Width, data: seq<int>, coeff: seq<int>, s: State)
    requires Bytes(data) && Coefficients(coeff)
    ensures var whole := data[..8 * (|data| / 8)];
            Decode(width, whole, coeff, s) == Decode(width, data, coeff, s)
  {
    var n := 8 * (|data| / 8);
    assert data == data[..n] + data[n..];
    DecodeAppend(width, data[..n], data[n..], coeff, s);
    var samples := Decode(width, data[..n], coeff, s).0;
    assert samples + [] == samples;
  }

  // One turn of the loop at lines 31-69
  method DecodeFrameAt(
      ret: array<int>, data: seq<int>, coeff: seq<int>, ghost initial: State, state: State, framei: nat)
      returns (state': State)
    requires Bytes(data) && Coefficients(coeff) && 8 * framei + 8 <= |data| && 14 * framei + 14 <= ret.Length
    requires (ret[..14 * framei], state) == Decode(Wrapping, data[..8 * framei], coeff, initial)
    modifies ret
    ensures (ret[..14 * framei + 14], state') == Decode(Wrapping, data[..8 * framei + 8], coeff, initial)
  {
    hide DecodeFrame, Decode;
    var at, from := 14 * framei, 8 * framei;
    ghost var before := ret[..at];
    var frame := data[from..from + 8];
    DecodeSnoc(Wrapping, data[..from], frame, coeff, initial);
    assert data[..from] + frame == data[..from + 8];
    state' := DecodeFrameInto(ret, frame, coeff, state, at);
    assert ret[..at + 14] == before + ret[at..at + 14];
  }

  lemma FrameCount(n: nat)
    ensures (n * 14) % 2 == 0 && (n * 14 + 13) / 14 == n
  {
    ModUnique(n * 14, 2, n * 7, 0);
    ModUnique(n * 14 + 13, 14, n, 13);
  }

  /** The loop over the frames: all reads and writes are in bounds, and the result is the decoding of the
      whole frames, state included. */
  method DecodeADPCM(data: seq<int>, coeff: seq<int>, state: State) returns (ret: array<int>, state': State)
    requires Bytes(data) && Coefficients(coeff)
    ensures (ret[..], state') == Decode(Wrapping, data, coeff, state)
  {
    hide Decode;
    var sampleCount := (|data| / 8) * 14;
    var retSize := if sampleCount % 2 == 0 then sampleCount else sampleCount + 1;
    ret := new int[retSize];
    state' := state;
    var numFrames := (sampleCount + 13) / 14;
    FrameCount(|data| / 8);
    DecodeNothing(Wrapping, coeff, state);
    assert ret[..0] == [] && data[..0] == [];
    var framei := 0;
    while framei < numFrames
      invariant 0 <= framei <= numFrames
      invariant (ret[..14 * framei], state') == Decode(Wrapping, data[..8 * framei], coeff, state)
    {
      state' := DecodeFrameAt(ret, data, coeff, state, state', framei);
      framei := framei + 1;
    }
    assert ret[..14 * numFrames] == ret[..];
    DecodeIgnoresRest(Wrapping, data, coeff, state);
  }

  lemma DecodeNothing(width: Width, coeff: seq<int>, s: State)
    requires Coefficients(coeff)
    ensures Decode(width, [], coeff, s) == ([], s)
  {
  }
}
