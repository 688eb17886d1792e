/** The single-threaded circular queue (single.hpp): a power-of-two ring
    whose head and tail are slot indices kept in [0, capacity) by masking.
    One slot always stays empty so that a full ring can be told from an
    empty one: the queue holds at most capacity - 1 items. Prefetch hints
    and cache-line padding change no state and are not modelled. */
module SingleQueue {
  import opened RingIndex

  /** The number of items between head and tail: (tail - head) mod c. */
  function Count(head: nat, tail: nat, c: nat): nat
    requires c > 0
  {
    (tail - head) % c
  }

  /** Push's full test: the slot after tail is head exactly when the ring
      already holds c - 1 items. */
  lemma FullTest(head: nat, tail: nat, c: nat)
    requires c > 0 && head < c && tail < c
    ensures (tail + 1) % c == head <==> Count(head, tail, c) == c - 1
  {
    ModNear(tail + 1, c);
    ModNear(tail - head, c);
  }

  /** Pop's empty test: head meets tail exactly when the ring holds nothing. */
  lemma EmptyTest(head: nat, tail: nat, c: nat)
    requires c > 0 && head < c && tail < c
    ensures head == tail <==> Count(head, tail, c) == 0
  {
    ModNear(tail - head, c);
  }

  /** Counting on from head by the item count lands on tail; every earlier
      item sits in a different slot from tail. */
  lemma ItemsEndAtTail(head: nat, tail: nat, c: nat, i: nat)
    requires c > 0 && head < c && tail < c && i < Count(head, tail, c)
    ensures (head + Count(head, tail, c)) % c == tail
    ensures (head + i) % c != tail
  {
    ModNear(tail - head, c);
    ModNear(head + Count(head, tail, c), c);
    ModDistinct(head + Count(head, tail, c), head + i, c);
  }

  /** Moving tail one slot on adds one item, unless the ring was full. */
  lemma PushCount(head: nat, tail: nat, c: nat)
    requires c > 0 && head < c && tail < c && Count(head, tail, c) < c - 1
    ensures Count(head, (tail + 1) % c, c) == Count(head, tail, c) + 1
  {
    ModNear(tail + 1, c);
    ModNear(tail - head, c);
    ModNear((tail + 1) % c - head, c);
  }

  /** Moving head one slot on removes one item from a non-empty ring, and
      item i + 1 counted from the old head is item i counted from the new one. */
  lemma PopCount(head: nat, tail: nat, c: nat, i: nat)
    requires c > 0 && head < c && tail < c && head != tail
    ensures Count((head + 1) % c, tail, c) == Count(head, tail, c) - 1
    ensures ((head + 1) % c + i) % c == (head + 1 + i) % c
  {
    ModNear(head + 1, c);
    ModNear(tail - head, c);
    ModNear(tail - (head + 1) % c, c);
    if head + 1 == c {
      ModLap(i, c);
    }
  }

  /** The ring invariant: head and tail are slot indices, the ring holds
      Count(head, tail) items, and item i sits in slot (head + i) mod c. */
  ghost predicate RingHolds<T>(slots: seq<T>, head: nat, tail: nat, items: seq<T>)
  {
    |slots| > 0 && head < |slots| && tail < |slots| &&
    |items| == Count(head, tail, |slots|) &&
    forall i :: 0 <= i < |items| ==> items[i] == slots[(head + i) % |slots|]
  }

  /** Storing x at tail and moving tail one slot on appends x, when the ring
      is not full. */
  lemma PushKeepsRing<T>(slots: seq<T>, head: nat, tail: nat, items: seq<T>, x: T)
    requires RingHolds(slots, head, tail, items) && |items| < |slots| - 1
    ensures RingHolds(slots[tail := x], head, (tail + 1) % |slots|, items + [x])
  {
    var c := |slots|;
    forall i | 0 <= i < |items| ensures items[i] == slots[tail := x][(head + i) % c] {
      ItemsEndAtTail(head, tail, c, i);
    }
    if |items| > 0 {
      ItemsEndAtTail(head, tail, c, 0);
    } else {
      EmptyTest(head, tail, c);
    }
    PushCount(head, tail, c);
  }

  /** Moving head one slot on drops the oldest item, which is the one in
      the slot at head, when the ring is not empty. */
  lemma PopKeepsRing<T>(slots: seq<T>, head: nat, tail: nat, items: seq<T>)
    requires RingHolds(slots, head, tail, items) && head != tail
    ensures items != [] && items[0] == slots[head]
    ensures RingHolds(slots, (head + 1) % |slots|, tail, items[1..])
  {
    var c := |slots|;
    EmptyTest(head, tail, c);
    ModNear(head, c);
    forall i | 0 <= i < |items| - 1
      ensures items[1..][i] == slots[((head + 1) % c + i) % c]
    {
      PopCount(head, tail, c, i);
    }
    PopCount(head, tail, c, 0);
  }

  class CircularQueue<T(0)> {
    const capacity: nat
    const buffer: array<T>
    var head: nat
    var tail: nat
    /** capacity == 2^log. */
    ghost const log: nat
    /** The items in the queue, oldest first. */
    ghost var Contents: seq<T>

    ghost predicate Valid()
      reads this, buffer
    {
      capacity == Pow2(log) && buffer.Length == capacity &&
      RingHolds(buffer[..], head, tail, Contents)
    }

    /** A ring of the requested capacity rounded up to a power of two
        (`1 << ceil(log2(requested))`), empty. */
    constructor (requested: nat)
      requires 1 <= requested <= MAX_CAPACITY
      ensures Valid() && fresh(buffer)
      ensures capacity == Pow2(CeilLog2(requested)) && capacity >= requested
      ensures capacity == 1 || capacity / 2 < requested
      ensures head == 0 && tail == 0 && Contents == []
    {
      CeilLog2Bounds(requested);
      capacity := Pow2(CeilLog2(requested));
      log := CeilLog2(requested);
      buffer := new T[Pow2(CeilLog2(requested))];
      head, tail := 0, 0;
      Contents := [];
    }

    /** Stores `item` at tail unless the slot after tail is head. */
    method Push(item: T) returns (ok: bool)
      requires Valid()
      modifies this, buffer
      ensures Valid()
      ensures ok <==> (old(tail) + 1) % capacity != old(head)
      ensures ok <==> old(|Contents|) < capacity - 1
      ensures |Contents| <= capacity - 1 && head == old(head)
      ensures ok ==> tail == (old(tail) + 1) % capacity && Contents == old(Contents) + [item] &&
                     buffer[..] == old(buffer[..])[old(tail) := item]
      ensures !ok ==> tail == old(tail) && Contents == old(Contents) && buffer[..] == old(buffer[..])
    {
      var t := tail;
      var next := And(t + 1, capacity - 1);
      MaskIsMod(t + 1, log);
      FullTest(head, t, capacity);
      if next == head {
        return false;
      }
      PushKeepsRing(buffer[..], head, t, Contents, item);
      buffer[t] := item;
      tail := next;
      Contents := Contents + [item];
      ok := true;
    }

    /** `pop(T& out)`: `out` is the caller's variable on entry and `result`
        its value on return. Takes the item at head into it, or reports an
        empty queue and leaves it alone. */
    method Pop(out: T) returns (ok: bool, result: T)
      requires Valid()
      modifies this
      ensures Valid()
      ensures ok <==> old(head) != old(tail)
      ensures ok <==> old(Contents) != []
      ensures tail == old(tail) && buffer[..] == old(buffer[..])
      ensures ok ==> result == old(buffer[head]) && result == old(Contents)[0] &&
                     head == (old(head) + 1) % capacity && Contents == old(Contents)[1..]
      ensures !ok ==> result == out && head == old(head) && Contents == old(Contents)
    {
      result := out;
      var h := head;
      EmptyTest(h, tail, capacity);
      if h == tail {
        return false, result;
      }
      PopKeepsRing(buffer[..], h, tail, Contents);
      result := buffer[h];
      head := And(h + 1, capacity - 1);
      MaskIsMod(h + 1, log);
      Contents := Contents[1..];
      ok := true;
    }
  }

  /** A ring asked for one slot gets exactly one, and keeping one slot empty
      leaves no room: every push is refused. */
  method CapacityOneRejects() returns (capacity: nat, pushed: bool)
    ensures capacity == 1 && !pushed
  {
    var q := new CircularQueue<int>(1);
    capacity := q.capacity;
    pushed := q.Push(7);
  }

  /** Items come out in the order they went in, and a ring of four holds three. */
  method FirstInFirstOut() returns (pushes: seq<bool>, first: int, second: int, third: int, empty: bool)
    ensures pushes == [true, true, true, false]
    ensures first == 1 && second == 2 && third == 3 && empty
  {
    var q := new CircularQueue<int>(4);
    var a := q.Push(1);
    var b := q.Push(2);
    var c := q.Push(3);
    var d := q.Push(4);
    pushes := [a, b, c, d];
    var ok: bool;
    var last: int;
    ok, first := q.Pop(0);
    ok, second := q.Pop(0);
    ok, third := q.Pop(0);
    ok, last := q.Pop(0);
    empty := !ok;
  }
}
