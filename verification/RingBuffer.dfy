/** src/common/ring_buffer.h as it is written, called from one thread: the array, the two free-running
    indices and the two-part copies. */
module RingBuffer {
  import opened Arithmetic
  import opened RingIndex

  /** The `n` slots that start at total `start`. */
  function Ring<T>(capacity: nat, data: seq<T>, start: nat, n: nat): (r: seq<T>)
    requires 0 < capacity == |data|
    ensures |r| == n
  {
    seq(n, i requires 0 <= i < n => data[Slot(capacity, start + i)])
  }

  /** `data'` is `data` with `slots` copied in at totals `start`, `start + 1`, ... */
  ghost predicate Copied<T>(capacity: nat, data: seq<T>, data': seq<T>, start: nat, slots: seq<T>)
    requires capacity > 0
  {
    && |data| == |data'| == capacity
    && (forall t :: start <= t < start + |slots| ==> data'[Slot(capacity, t)] == slots[t - start])
    && (forall x :: 0 <= x < capacity && (forall t :: start <= t < start + |slots| ==> Slot(capacity, t) != x)
                    ==> data'[x] == data[x])
  }

  /** Copying behind the slots in the ring, into free slots only, appends to the ring. */
  lemma CopyAppends<T>(capacity: nat, data: seq<T>, data': seq<T>, start: nat, n: nat, slots: seq<T>)
    requires capacity > 0 && n + |slots| <= capacity && Copied(capacity, data, data', start + n, slots)
    ensures Ring(capacity, data', start, n + |slots|) == Ring(capacity, data, start, n) + slots
  {
    hide Slot;
    forall t | start <= t < start + n ensures data'[Slot(capacity, t)] == data[Slot(capacity, t)] {
      forall u | start + n <= u < start + n + |slots| ensures Slot(capacity, u) != Slot(capacity, t) {
        DistinctSlots(capacity, t, u);
      }
    }
  }

  lemma WrappedTotal(capacity: nat, start: nat, i: nat)
    requires capacity > 0 && WRAP % capacity == 0
    ensures Slot(capacity, start % WRAP + i) == Slot(capacity, start + i)
  {
    WrapAdd(start, i);
    WrappedSlot(capacity, start % WRAP + i);
    WrappedSlot(capacity, start + i);
  }

  /** The indices only matter modulo 2^64. */
  lemma RingWraps<T>(capacity: nat, data: seq<T>, start: nat, n: nat)
    requires 0 < capacity == |data| && WRAP % capacity == 0
    ensures Ring(capacity, data, start % WRAP, n) == Ring(capacity, data, start, n)
  {
    hide Slot;
    var a, b := Ring(capacity, data, start % WRAP, n), Ring(capacity, data, start, n);
    forall i | 0 <= i < n ensures a[i] == b[i] {
      WrappedTotal(capacity, start, i);
    }
  }

  /** The two ranges of the two-part copy are exactly the slots of consecutive totals. */
  lemma TwoPartCopy<T>(capacity: nat, data: seq<T>, data': seq<T>, total: nat, slots: seq<T>)
    requires 0 < capacity == |data| == |data'| && |slots| <= capacity && WRAP % capacity == 0
    requires var pos := (total % WRAP) % capacity;
             var firstCopy := Min(capacity - pos, |slots|);
             forall x {:trigger data'[x]} :: 0 <= x < capacity ==>
               data'[x] == if pos <= x < pos + firstCopy then slots[x - pos]
                           else if x < |slots| - firstCopy then slots[x + firstCopy]
                           else data[x]
    ensures Copied(capacity, data, data', total, slots)
  {
    hide Slot;
    var index := total % WRAP;
    var pos := index % capacity;
    var firstCopy := Min(capacity - pos, |slots|);
    forall t | total <= t < total + |slots| ensures data'[Slot(capacity, t)] == slots[t - total] {
      SlotIsModulo(capacity, total, |slots|, t - total);
    }
    forall x | 0 <= x < capacity && (forall t :: total <= t < total + |slots| ==> Slot(capacity, t) != x)
      ensures data'[x] == data[x]
    {
      if pos <= x < pos + firstCopy {
        SlotIsModulo(capacity, total, |slots|, x - pos);
      } else if x < |slots| - firstCopy {
        SlotIsModulo(capacity, total, |slots|, x + firstCopy);
      }
    }
  }

  /** And read in that order, they are the slots of consecutive totals. */
  lemma TwoPartRead<T>(capacity: nat, data: seq<T>, index: nat, count: nat)
    requires 0 < capacity == |data| && count <= capacity && WRAP % capacity == 0 && index < WRAP
    ensures var pos := index % capacity;
            var firstCopy := Min(capacity - pos, count);
            data[pos..pos + firstCopy] + data[0..count - firstCopy] == Ring(capacity, data, index, count)
  {
    hide Slot;
    var pos := index % capacity;
    var firstCopy := Min(capacity - pos, count);
    var read, ring := data[pos..pos + firstCopy] + data[0..count - firstCopy], Ring(capacity, data, index, count);
    forall k | 0 <= k < count ensures read[k] == ring[k] {
      SlotIsModulo(capacity, index, count, k);
    }
  }

  lemma RingSplit<T>(capacity: nat, data: seq<T>, start: nat, n: nat, k: nat)
    requires 0 < capacity == |data| && k <= n
    ensures Ring(capacity, data, start, n)[..k] == Ring(capacity, data, start, k)
    ensures Ring(capacity, data, start, n)[k..] == Ring(capacity, data, start + k, n - k)
  {
  }

  /** The total the write index stands for, seen from the read index, and the free slots. */
  lemma WriteTotal(capacity: nat, read: nat, write: nat)
    requires read < WRAP && write < WRAP && WrapSub(write, read) <= capacity < WRAP
    ensures var n := WrapSub(write, read);
            (read + n) % WRAP == write && WrapSub(capacity + read, write) == capacity - n
  {
  }

  lemma PushedIndex(read: nat, write: nat, count: nat)
    requires read < WRAP && write < WRAP && WrapSub(write, read) + count < WRAP
    ensures WrapSub((write + count) % WRAP, read) == WrapSub(write, read) + count
  {
  }

  lemma PoppedIndex(read: nat, write: nat, count: nat)
    requires read < WRAP && write < WRAP && count <= WrapSub(write, read)
    ensures WrapSub(write, (read + count) % WRAP) == WrapSub(write, read) - count
  {
  }

  class RingBuffer<T(0)> {
    const capacity: nat
    const data: array<T>
    var readIndex: nat
    var writeIndex: nat

    ghost predicate Valid()
      reads this
    {
      && 0 < capacity < WRAP / 2 && WRAP % capacity == 0 && data.Length == capacity
      && readIndex < WRAP && writeIndex < WRAP && WrapSub(writeIndex, readIndex) <= capacity
    }

    /** The slots in the ring, oldest first. */
    ghost function Contents(): seq<T>
      requires Valid()
      reads this, data
    {
      Ring(capacity, data[..], readIndex, WrapSub(writeIndex, readIndex))
    }

    constructor (capacity: nat)
      requires ValidCapacity(capacity)
      ensures Valid() && this.capacity == capacity && fresh(data) && Contents() == []
      ensures readIndex == writeIndex == 0
    {
      CapacityDividesWrap(capacity);
      this.capacity := capacity;
      data := new T[capacity];
      readIndex, writeIndex := 0, 0;
    }

    lemma Bounded()
      requires Valid()
      ensures |Contents()| <= capacity
    {
    }

    // `std::memcpy` of `n` slots into the array
    method CopyIn(slots: seq<T>, first: nat, pos: nat, n: nat)
      requires first + n <= |slots| && pos + n <= data.Length
      modifies data
      ensures forall x {:trigger data[x]} :: 0 <= x < data.Length ==>
                data[x] == if pos <= x < pos + n then slots[first + (x - pos)] else old(data[x])
    {
      for k := 0 to n
        invariant forall x {:trigger data[x]} :: 0 <= x < data.Length ==>
                    data[x] == if pos <= x < pos + k then slots[first + (x - pos)] else old(data[x])
      {
        data[pos + k] := slots[first + k];
      }
    }

    // Lines 45-52
    method CopyAround(slots: seq<T>, index: nat, ghost total: nat)
      requires 0 < capacity == data.Length && |slots| <= capacity && WRAP % capacity == 0 && index == total % WRAP
      modifies data
      ensures Copied(capacity, old(data[..]), data[..], total, slots)
    {
      hide Copied;
      var pos := index % capacity;
      var firstCopy := Min(capacity - pos, |slots|);
      var secondCopy := |slots| - firstCopy;
      CopyIn(slots, 0, pos, firstCopy);
      CopyIn(slots, firstCopy, 0, secondCopy);
      TwoPartCopy(capacity, old(data[..]), data[..], total, slots);
    }

    method Push(slots: seq<T>) returns (pushCount: nat)
      requires Valid()
      modifies this`writeIndex, data
      ensures Valid()
      ensures pushCount == Min(|slots|, capacity - |old(Contents())|)
      ensures Contents() == old(Contents()) + slots[..pushCount]
      ensures writeIndex == (old(writeIndex) + pushCount) % WRAP
    {
      hide Ring, Copied, WrapSub;
      ghost var n := WrapSub(writeIndex, readIndex);
      WriteTotal(capacity, readIndex, writeIndex);
      var slotsFree := WrapSub(capacity + readIndex, writeIndex);
      pushCount := Min(|slots|, slotsFree);
      CopyAround(slots[..pushCount], writeIndex, readIndex + n);
      CopyAppends(capacity, old(data[..]), data[..], readIndex, n, slots[..pushCount]);
      PushedIndex(readIndex, writeIndex, pushCount);
      writeIndex := (writeIndex + pushCount) % WRAP;
    }

    // `std::memcpy` of `n` slots out of the array
    method CopyOut(pos: nat, n: nat) returns (out: seq<T>)
      requires pos + n <= data.Length
      ensures out == data[pos..pos + n]
    {
      out := [];
      for k := 0 to n
        invariant out == data[pos..pos + k]
      {
        out := out + [data[pos + k]];
      }
    }

    // Lines 72-79
    method CopyOutAround(index: nat, count: nat) returns (out: seq<T>)
      requires 0 < capacity == data.Length && count <= capacity && WRAP % capacity == 0 && index < WRAP
      ensures out == Ring(capacity, data[..], index, count)
    {
      hide Ring;
      var pos := index % capacity;
      var firstCopy := Min(capacity - pos, count);
      var secondCopy := count - firstCopy;
      var first := CopyOut(pos, firstCopy);
      var second := CopyOut(0, secondCopy);
      out := first + second;
      TwoPartRead(capacity, data[..], index, count);
      assert first == data[..][pos..pos + firstCopy] && second == data[..][0..secondCopy];
    }

    method Pop(maxSlots: nat) returns (out: seq<T>)
      requires Valid()
      modifies this`readIndex
      ensures Valid()
      ensures out == old(Contents())[..Min(|old(Contents())|, maxSlots)]
      ensures Contents() == old(Contents())[Min(|old(Contents())|, maxSlots)..]
      ensures readIndex == (old(readIndex) + |out|) % WRAP
    {
      hide Ring, WrapSub;
      var slotsFilled := WrapSub(writeIndex, readIndex);
      var popCount := Min(slotsFilled, maxSlots);
      out := CopyOutAround(readIndex, popCount);
      RingSplit(capacity, data[..], readIndex, slotsFilled, popCount);
      RingWraps(capacity, data[..], readIndex + popCount, slotsFilled - popCount);
      PoppedIndex(readIndex, writeIndex, popCount);
      readIndex := (readIndex + popCount) % WRAP;
    }

    // Lines 86-91
    method PopVector(maxSlots: nat) returns (out: seq<T>)
      requires Valid()
      modifies this`readIndex
      ensures Valid()
      ensures out == old(Contents())[..Min(|old(Contents())|, maxSlots)]
      ensures Contents() == old(Contents())[Min(|old(Contents())|, maxSlots)..]
    {
      out := Pop(Min(maxSlots, capacity));
    }

    method Size() returns (n: nat)
      requires Valid()
      ensures n == |Contents()|
    {
      n := WrapSub(writeIndex, readIndex);
    }
  }
}
