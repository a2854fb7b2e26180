/**
 A window on a circular array: the cells from a wrapped read index up to a wrapped write
 index. Both queues of the program keep their elements this way.
 */
module RingWindow {
  import opened Words

  /** The elements between the two indices, read out of memory as pop would meet them. */
  ghost function View<T>(storage: seq<T>, capacity: nat, readIndex: u32, writeIndex: u32): (q: seq<T>)
    requires 0 < capacity == |storage|
    ensures |q| == Sub32(writeIndex, readIndex)
  {
    seq(Sub32(writeIndex, readIndex), (i: nat) => storage[Slot(Add32(readIndex, i), capacity)])
  }

  lemma SlotAfter(r: nat, i: nat, capacity: nat)
    requires 0 < capacity && U32 % capacity == 0
    ensures Slot(Add32(Index(r), i), capacity) == Slot(r + i, capacity)
  {
    AddIndex(r, i);
    SlotOfIndex(r + i, capacity);
  }

  lemma WindowOf(read: u32, write: u32)
    ensures Add32(read, Sub32(write, read)) == write
  {
    ModShift(write, U32, if write < read then 1 else 0);
  }

  lemma WindowSlot(read: u32, i: nat, n: nat, capacity: nat)
    requires 0 < capacity && U32 % capacity == 0 && i < n < capacity
    ensures Slot(Add32(read, i), capacity) != Slot(Add32(read, n), capacity)
  {
    hide *;
    SlotAfter(read, i, capacity);
    SlotAfter(read, n, capacity);
    SlotsDiffer(read + i, read + n, capacity);
    IndexOfSum(read, 0);
  }

  lemma IndexOfSum(read: u32, n: nat)
    ensures Index(read + n) == Add32(read, n) && Index(read) == Add32(read, 0) == read
  {
  }

  lemma IndexGrows(read: u32, write: u32)
    requires Sub32(write, read) + 1 < U32
    ensures Sub32(Add32(write, 1), read) == Sub32(write, read) + 1
  {
    hide *;
    var n := Sub32(write, read);
    WindowOf(read, write);
    IndexOfSum(read, n);
    AddIndex(read + n, 1);
    SubIndex(read + n + 1, read);
  }

  /** Advancing the write index while fewer than `capacity` elements are stored. */
  lemma WindowGrows(read: u32, write: u32, capacity: nat)
    requires 0 < capacity < U32 && U32 % capacity == 0 && Sub32(write, read) < capacity
    ensures Sub32(Add32(write, 1), read) == Sub32(write, read) + 1
    ensures forall i :: 0 <= i < Sub32(write, read) ==> Slot(Add32(read, i), capacity) != Slot(write, capacity)
  {
    IndexGrows(read, write);
    WindowOf(read, write);
    hide Slot, Add32, Sub32;
    forall i | 0 <= i < Sub32(write, read) ensures Slot(Add32(read, i), capacity) != Slot(write, capacity) {
      WindowSlot(read, i, Sub32(write, read), capacity);
    }
  }

  lemma NotEmpty(read: u32, write: u32)
    requires read != write
    ensures 0 < Sub32(write, read) < U32
  {
  }

  /** Advancing the read index past the head. */
  lemma WindowShrinks(read: u32, write: u32)
    requires read != write
    ensures Sub32(write, Add32(read, 1)) == Sub32(write, read) - 1
    ensures forall i :: 0 <= i ==> Add32(Add32(read, 1), i) == Add32(read, i + 1)
  {
    hide *;
    var n := Sub32(write, read);
    NotEmpty(read, write);
    WindowOf(read, write);
    IndexOfSum(read, n);
    AddIndex(read, 1);
    SubIndex(read + n, read + 1);
    forall i | 0 <= i ensures Add32(Add32(read, 1), i) == Add32(read, i + 1) {
      AddIndex(read + 1, i);
      AddIndex(read, i + 1);
    }
  }

  /** No stored element sits in the next slot: always when the capacity divides 2^32, else while the window does not wrap. */
  lemma NextSlotIsFree(read: u32, write: u32, capacity: nat)
    requires 0 < capacity < U32 && Sub32(write, read) < capacity
    requires U32 % capacity == 0 || read <= write
    ensures forall i :: 0 <= i < Sub32(write, read) ==> Slot(Add32(read, i), capacity) != Slot(write, capacity)
  {
    if U32 % capacity == 0 {
      WindowGrows(read, write, capacity);
    } else {
      forall i | 0 <= i < Sub32(write, read) ensures Slot(Add32(read, i), capacity) != Slot(write, capacity) {
        assert Sub32(write, read) == write - read && Add32(read, i) == read + i;
        SlotsDiffer(read + i, write, capacity);
      }
    }
  }

  /** What a push makes of the window, for any capacity: elements whose slot it reuses are overwritten. */
  lemma ViewAfterAnyPush<T>(storage: seq<T>, capacity: nat, read: u32, write: u32, e: T)
    requires 0 < capacity == |storage| < U32 && Sub32(write, read) < capacity
    ensures Sub32(Add32(write, 1), read) == Sub32(write, read) + 1
    ensures var before, n := View(storage, capacity, read, write), Sub32(write, read);
      var after := View(storage[Slot(write, capacity) := e], capacity, read, Add32(write, 1));
      && after[n] == e
      && forall i :: 0 <= i < n ==>
          after[i] == if Slot(Add32(read, i), capacity) == Slot(write, capacity) then e else before[i]
  {
    WindowOf(read, write);
    IndexGrows(read, write);
    hide Add32, Sub32, Slot;
  }

  lemma ViewAfterPush<T>(storage: seq<T>, capacity: nat, read: u32, write: u32, e: T)
    requires 0 < capacity == |storage| < U32 && Sub32(write, read) < capacity
    requires U32 % capacity == 0 || read <= write
    ensures Sub32(Add32(write, 1), read) == Sub32(write, read) + 1
    ensures View(storage[Slot(write, capacity) := e], capacity, read, Add32(write, 1))
         == View(storage, capacity, read, write) + [e]
  {
    ViewAfterAnyPush(storage, capacity, read, write, e);
    NextSlotIsFree(read, write, capacity);
    hide Add32, Sub32, Slot;
    var before := View(storage, capacity, read, write);
    var after := View(storage[Slot(write, capacity) := e], capacity, read, Add32(write, 1));
    hide View;
    assert after == before + [e];
  }

  lemma ViewAfterPop<T>(storage: seq<T>, capacity: nat, read: u32, write: u32)
    requires 0 < capacity == |storage| < U32 && read != write
    ensures Sub32(write, Add32(read, 1)) == Sub32(write, read) - 1
    ensures View(storage, capacity, read, write)
         == [storage[Slot(read, capacity)]] + View(storage, capacity, Add32(read, 1), write)
  {
    hide Add32, Sub32, Slot;
    WindowShrinks(read, write);
    IndexOfSum(read, 0);
    var before, after := View(storage, capacity, read, write), View(storage, capacity, Add32(read, 1), write);
    forall i | 0 <= i < |after| ensures before[i + 1] == after[i] {
      assert Add32(Add32(read, 1), i) == Add32(read, i + 1);
    }
    assert before == [storage[Slot(read, capacity)]] + after;
  }
}
