/** The compact multi-producer/multi-consumer ring (mpmc_queue.hpp): any
    capacity, slot chosen by `cursor % capacity`, and the sequence test done
    on the signed difference of the slot's counter and the cursor.

    Every push and pop is modelled as one atomic step: the cursor a call
    loads is the shared cursor, so its compare-and-swap succeeds and the
    back-off branch of the retry loop is never reached (the `assert false`
    in each method proves this). */
module MpmcCompact {
  import opened RingIndex
  import opened SlotProtocol

  datatype Option<T> = None | Some(value: T)

  /** What push decides from the signed difference `sequence - tail`:
      0 claims the slot, negative means full, positive means back off.
      In a ring of at least two slots that satisfies the invariant, push
      claims exactly when the ring is not full and reports full exactly
      when it is; the back-off case never arises. */
  lemma PushBranchByCount<T>(slots: seq<Slot<T>>, head: nat, tail: nat, items: seq<T>)
    requires Holds(slots, head, tail, items) && |slots| >= 2
    ensures slots[tail % |slots|].sequence - tail == 0 <==> tail - head < |slots|
    ensures slots[tail % |slots|].sequence - tail < 0 <==> tail - head == |slots|
  {
    SlotAtTail(slots, head, tail, items);
  }

  /** What pop decides from the signed difference `sequence - (head + 1)`:
      0 claims the oldest item, negative means empty, positive means back
      off. Pop claims exactly when the ring is non-empty and reports empty
      exactly when it is empty; the back-off case never arises. */
  lemma PopBranchByCount<T>(slots: seq<Slot<T>>, head: nat, tail: nat, items: seq<T>)
    requires Holds(slots, head, tail, items)
    ensures slots[head % |slots|].sequence - (head + 1) == 0 <==> head < tail
    ensures slots[head % |slots|].sequence - (head + 1) < 0 <==> head == tail
  {
    SlotAtHead(slots, head, tail, items);
  }

  /** With capacity 1 the full test cannot fire. One push of x makes the
      ring full, yet a second push still computes a difference of 0 and
      claims the slot: it overwrites x with y and publishes sequence 2.
      The ring no longer satisfies the invariant, and a pop now computes a
      positive difference, so it backs off on every retry. */
  lemma CapacityOneOverwrites<T>(x: T, y: T)
    ensures var full := [Slot(1, x)];
            Holds(full, 0, 1, [x]) && full[1 % 1].sequence - 1 == 0 &&
            var after := full[1 % 1 := Slot(1 + 1, y)];
            after[0 % 1].value == y && !Holds(after, 0, 2, [x, y]) &&
            after[0 % 1].sequence - (0 + 1) > 0
  {
  }

  class MPMCQueue<T(0)> {
    const capacity: nat
    const buffer: array<Slot<T>>
    var head: nat
    var tail: nat
    /** The items in the queue, oldest first. */
    ghost var Contents: seq<T>

    ghost predicate Valid()
      reads this, buffer
    {
      capacity >= 2 && buffer.Length == capacity &&
      Holds(buffer[..], head, tail, Contents)
    }

    /** A ring of `capacity` slots, slot i waiting for the write of position i. */
    constructor (capacity: nat)
      requires capacity >= 2
      ensures Valid() && fresh(buffer)
      ensures this.capacity == capacity && head == 0 && tail == 0 && Contents == []
      ensures forall i :: 0 <= i < capacity ==> buffer[i].sequence == i
    {
      var slots := new Slot<T>[capacity];
      for i := 0 to capacity
        invariant forall j :: 0 <= j < i ==> slots[j].sequence == j
      {
        slots[i] := slots[i].(sequence := i);
      }
      InitialHolds(slots[..]);
      this.capacity := capacity;
      buffer := slots;
      head, tail := 0, 0;
      Contents := [];
    }

    /** Accepts `item` unless the queue already holds `capacity` items. */
    method Push(item: T) returns (ok: bool)
      requires Valid()
      modifies this, buffer
      ensures Valid()
      ensures ok <==> old(|Contents|) < capacity
      ensures head == old(head)
      ensures ok ==> tail == old(tail) + 1 && Contents == old(Contents) + [item] &&
                     buffer[..] == old(buffer[..])[old(tail) % capacity := Slot(old(tail) + 1, item)]
      ensures !ok ==> tail == old(tail) && Contents == old(Contents) && buffer[..] == old(buffer[..])
    {
      var t := tail;
      var i := t % capacity;
      var slot := buffer[i];
      var diff: int := slot.sequence - t;
      ghost var slots := buffer[..];
      PushBranchByCount(slots, head, tail, Contents);
      if diff == 0 {
        // The compare-and-swap of the shared tail from t to t + 1 succeeds: tail == t.
        PushKeepsHolds(slots, head, t, Contents, item);
        tail := t + 1;
        buffer[i] := slot.(value := item);
        buffer[i] := buffer[i].(sequence := t + 1);
        assert buffer[..] == slots[i := Slot(t + 1, item)];
        Contents := Contents + [item];
        ok := true;
      } else if diff < 0 {
        ok := false;
      } else {
        assert false;
      }
    }

    /** Removes and returns the oldest item, or reports an empty queue. */
    method Pop() returns (r: Option<T>)
      requires Valid()
      modifies this, buffer
      ensures Valid()
      ensures r.Some? <==> old(Contents) != []
      ensures tail == old(tail)
      ensures r.Some? ==> r.value == old(Contents)[0] && Contents == old(Contents)[1..] &&
                          head == old(head) + 1 &&
                          buffer[..] == old(buffer[..])[old(head) % capacity :=
                                          old(buffer[head % capacity]).(sequence := old(head) + capacity)]
      ensures r.None? ==> head == old(head) && Contents == old(Contents) && buffer[..] == old(buffer[..])
    {
      var h := head;
      var i := h % capacity;
      var slot := buffer[i];
      var diff: int := slot.sequence - (h + 1);
      PopBranchByCount(buffer[..], head, tail, Contents);
      if diff == 0 {
        // The compare-and-swap of the shared head from h to h + 1 succeeds: head == h.
        SlotAtHead(buffer[..], head, tail, Contents);
        PopKeepsHolds(buffer[..], head, tail, Contents);
        head := h + 1;
        var value := slot.value;
        buffer[i] := slot.(sequence := h + capacity);
        Contents := Contents[1..];
        r := Some(value);
      } else if diff < 0 {
        r := None;
      } else {
        assert false;
      }
    }
  }

  /** Two pushes into a ring of four are accepted and come back out in order; a third pop finds it empty. */
  method BasicPushPop() returns (pushed10: bool, pushed20: bool, first: Option<int>, second: Option<int>, third: Option<int>)
    ensures pushed10 && pushed20
    ensures first == Some(10) && second == Some(20) && third == None
  {
    var q := new MPMCQueue<int>(4);
    pushed10 := q.Push(10);
    pushed20 := q.Push(20);
    first := q.Pop();
    second := q.Pop();
    third := q.Pop();
  }

  /** A ring of two accepts two pushes and rejects the third. */
  method FullQueue() returns (pushed1: bool, pushed2: bool, pushed3: bool)
    ensures pushed1 && pushed2 && !pushed3
  {
    var q := new MPMCQueue<int>(2);
    pushed1 := q.Push(1);
    pushed2 := q.Push(2);
    pushed3 := q.Push(3);
  }

  /** Popping a fresh ring reports it empty. */
  method EmptyQueue() returns (r: Option<int>)
    ensures r == None
  {
    var q := new MPMCQueue<int>(2);
    r := q.Pop();
  }
}
