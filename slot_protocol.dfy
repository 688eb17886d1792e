/** The per-slot sequence protocol that both multi-producer/multi-consumer
    rings share (the compact ring of mpmc_queue.hpp and the padded ring of
    mpmc_queue_v1.hpp): every slot carries a sequence counter, and the
    counter alone says whether the slot is waiting for the next write or
    holds a value waiting to be read. */
module SlotProtocol {
  import opened RingIndex

  /** One ring cell: its sequence counter and its payload. */
  datatype Slot<T> = Slot(sequence: nat, value: T)

  /** The slot-sequence invariant of a ring of |slots| slots with consumer
      cursor `head` and producer cursor `tail`, holding `items` oldest first.
      Every logical position p in [head, tail) has been written and not yet
      read: its slot has sequence == p + 1 and holds items[p - head]. Every
      position p in [tail, head + |slots|) is free for the write of p: its
      slot has sequence == p. */
  ghost predicate Holds<T>(slots: seq<Slot<T>>, head: nat, tail: nat, items: seq<T>)
  {
    |slots| > 0 && head <= tail <= head + |slots| && |items| == tail - head &&
    (forall p :: head <= p < tail ==>
       slots[p % |slots|].sequence == p + 1 && slots[p % |slots|].value == items[p - head]) &&
    (forall p :: tail <= p < head + |slots| ==> slots[p % |slots|].sequence == p)
  }

  /** A freshly built ring (slot i has sequence == i, both cursors at 0) satisfies the invariant and is empty. */
  lemma InitialHolds<T>(slots: seq<Slot<T>>)
    requires |slots| > 0
    requires forall i :: 0 <= i < |slots| ==> slots[i].sequence == i
    ensures Holds(slots, 0, 0, [])
  {
    forall p | 0 <= p < |slots| ensures slots[p % |slots|].sequence == p {
      DivModUnique(p, |slots|, 0, p);
    }
  }

  /** What a producer at the true tail reads: the slot of `tail` waits for
      the write of `tail` unless the ring is full, in which case it still
      holds the oldest item, written at `head`. */
  lemma SlotAtTail<T>(slots: seq<Slot<T>>, head: nat, tail: nat, items: seq<T>)
    requires Holds(slots, head, tail, items)
    ensures tail < head + |slots| ==> slots[tail % |slots|].sequence == tail
    ensures tail == head + |slots| ==> slots[tail % |slots|].sequence == head + 1
  {
    if tail == head + |slots| {
      ModLap(head, |slots|);
    }
  }

  /** What a consumer at the true head reads: the oldest item, published
      with sequence == head + 1, unless the ring is empty, in which case the
      slot still waits for the write of `head`. */
  lemma SlotAtHead<T>(slots: seq<Slot<T>>, head: nat, tail: nat, items: seq<T>)
    requires Holds(slots, head, tail, items)
    ensures head < tail ==> slots[head % |slots|].sequence == head + 1 && slots[head % |slots|].value == items[0]
    ensures head == tail ==> slots[head % |slots|].sequence == head
  {
  }

  /** A successful push (store the item in the slot of `tail`, publish
      sequence == tail + 1, advance tail) keeps the invariant and appends the item. */
  lemma PushKeepsHolds<T>(slots: seq<Slot<T>>, head: nat, tail: nat, items: seq<T>, x: T)
    requires Holds(slots, head, tail, items) && tail < head + |slots|
    ensures Holds(slots[tail % |slots| := Slot(tail + 1, x)], head, tail + 1, items + [x])
  {
    var c := |slots|;
    var slots' := slots[tail % c := Slot(tail + 1, x)];
    var items' := items + [x];
    forall p | head <= p < tail + 1
      ensures slots'[p % c].sequence == p + 1 && slots'[p % c].value == items'[p - head]
    {
      if p < tail {
        ModDistinct(tail, p, c);
      }
    }
    forall p | tail + 1 <= p < head + c
      ensures slots'[p % c].sequence == p
    {
      ModDistinct(p, tail, c);
    }
  }

  /** A successful pop (take the item from the slot of `head`, republish it
      with sequence == head + |slots| for the write one lap later, advance head)
      keeps the invariant and drops the oldest item. */
  lemma PopKeepsHolds<T>(slots: seq<Slot<T>>, head: nat, tail: nat, items: seq<T>)
    requires Holds(slots, head, tail, items) && head < tail
    ensures Holds(slots[head % |slots| := slots[head % |slots|].(sequence := head + |slots|)], head + 1, tail, items[1..])
  {
    var c := |slots|;
    var slots' := slots[head % c := slots[head % c].(sequence := head + c)];
    forall p | head + 1 <= p < tail
      ensures slots'[p % c].sequence == p + 1 && slots'[p % c].value == items[1..][p - (head + 1)]
    {
      ModDistinct(p, head, c);
    }
    forall p | tail <= p < head + 1 + c
      ensures slots'[p % c].sequence == p
    {
      if p == head + c {
        ModLap(head, c);
      } else {
        ModDistinct(p, head, c);
      }
    }
  }
}
