/** The fixed ring of 16 slots that the two pipeline threads share, as a value
    and as the array the program updates in place. */
module RingBuffer {
  const CAPACITY := 16

  function Slot(tail: nat, k: nat): nat { (tail + k) % CAPACITY }

  lemma SlotNext(tail: nat, k: nat)
    ensures Slot((tail + 1) % CAPACITY, k) == Slot(tail, k + 1)
  {
  }

  datatype Ring<T> = Ring(slots: seq<T>, head: nat, tail: nat, size: nat) {
    predicate Valid() {
      |slots| == CAPACITY && head < CAPACITY && tail < CAPACITY && size <= CAPACITY && head == Slot(tail, size)
    }

    /** The queued elements, oldest first. */
    function Contents(): seq<T>
      requires Valid()
    {
      seq(size, k requires 0 <= k < size => slots[Slot(tail, k)])
    }

    function Put(x: T): Ring<T>
      requires Valid() && size < CAPACITY
    {
      Ring(slots[head := x], (head + 1) % CAPACITY, tail, size + 1)
    }

    function Take(): Ring<T>
      requires Valid() && size > 0
    {
      Ring(slots, head, (tail + 1) % CAPACITY, size - 1)
    }

    lemma PutAppends(x: T)
      requires Valid() && size < CAPACITY
      ensures Put(x).Valid() && Put(x).Contents() == Contents() + [x]
    {
      assert forall k | 0 <= k < size :: Slot(tail, k) != head;
    }

    lemma TakeDropsOldest()
      requires Valid() && size > 0
      ensures Take().Valid() && [slots[tail]] + Take().Contents() == Contents()
    {
      var t := Take();
      assert t.Valid();
      forall k | 0 <= k < size - 1 ensures t.Contents()[k] == Contents()[k + 1] { SlotNext(tail, k); }
      assert Contents()[0] == slots[tail];
    }
  }

  /** The in-place queue: both critical sections' updates to the shared fields. */
  class Queue<T(0)> {
    const chunks: array<T>
    var head: nat
    var tail: nat
    var queueSize: nat

    ghost function View(): Ring<T>
      reads this, chunks
    {
      Ring(chunks[..], head, tail, queueSize)
    }

    constructor ()
      ensures fresh(chunks) && chunks.Length == 16 && View().Valid() && View().Contents() == []
    {
      chunks := new T[CAPACITY];
      head, tail, queueSize := 0, 0, 0;
    }

    method PushChunk(x: T)
      requires View().Valid() && queueSize < CAPACITY
      modifies this, chunks
      ensures View() == old(View()).Put(x) && View().Valid()
      ensures View().Contents() == old(View().Contents()) + [x]
    {
      old(View()).PutAppends(x);
      chunks[head] := x;
      head := (head + 1) % CAPACITY;
      queueSize := queueSize + 1;
    }

    method PopChunk() returns (x: T)
      requires View().Valid() && queueSize > 0
      modifies `tail, `queueSize
      ensures View() == old(View()).Take() && View().Valid()
      ensures [x] + View().Contents() == old(View().Contents())
    {
      old(View()).TakeDropsOldest();
      x := chunks[tail];
      tail := (tail + 1) % CAPACITY;
      queueSize := queueSize - 1;
    }
  }
}
