/** The padded multi-producer/multi-consumer ring (mpmc_queue_v1.hpp): the
    requested capacity is rounded up to a power of two, the slot of a
    cursor is `cursor & mask`, and the sequence test is done on the
    unsigned (size_t) difference, so "full" and "empty" show up as a
    difference that has wrapped past the capacity.

    As in the compact ring, every push and pop is one atomic step whose
    compare-and-swap succeeds; the back-off branch is proved unreachable.
    Cache-line padding and prefetch hints change no state and are not
    modelled. */
module MpmcPadded {
  import opened RingIndex
  import opened SlotProtocol

  /** size_t subtraction: the difference of a and b modulo 2^64. */
  function Minus(a: nat, b: nat): nat
  {
    (a - b) % WORD
  }

  /** Only the residues of the operands modulo 2^64 matter to Minus, so
      computing the difference from unbounded cursors gives the value the
      source computes from its wrapped 64-bit cursors. */
  lemma MinusIgnoresWrap(a: nat, b: nat)
    ensures Minus(a % WORD, b % WORD) == Minus(a, b)
  {
    var d := a % WORD - b % WORD;
    assert a == WORD * (a / WORD) + a % WORD && b == WORD * (b / WORD) + b % WORD;
    assert d == WORD * (d / WORD) + d % WORD;
    assert a - b == WORD * (a / WORD - b / WORD + d / WORD) + d % WORD;
    DivModUnique(a - b, WORD, a / WORD - b / WORD + d / WORD, d % WORD);
  }

  /** The slot chosen by masking a wrapped 64-bit cursor is the slot of the
      unbounded cursor: for a power-of-two capacity up to 2^64,
      `(t mod 2^64) & (2^k - 1) == t % 2^k`. */
  lemma MaskIgnoresWrap(t: nat, k: nat)
    requires k <= 64
    ensures And(t % WORD, Pow2(k) - 1) == t % Pow2(k)
  {
    Pow2Add(k, 64 - k);
    ModOfMultiple(t, Pow2(k), Pow2(64 - k));
    MaskIsMod(t % WORD, k);
  }

  /** size_t `x << 1`: doubling modulo 2^64. */
  function Shl1(x: nat): nat
  {
    (2 * x) % WORD
  }

  /** `round_up_pow2`: double x from 1 until it reaches n. The result is the
      smallest power of two that is at least n (1 for n == 0). The doubling
      never wraps, because n is at most 2^63. */
  method RoundUpPow2(n: nat) returns (x: nat)
    requires n <= MAX_CAPACITY
    ensures x == Pow2(CeilLog2(n)) && x <= MAX_CAPACITY
    ensures x >= n && (x == 1 || x / 2 < n)
  {
    CeilLog2Bounds(n);
    CeilLog2Least(n, 63);
    x := 1;
    ghost var k: nat := 0;
    while x < n
      invariant x == Pow2(k) && k <= CeilLog2(n)
      decreases n - x
    {
      Pow2Below(n, k);
      Pow2Monotone(k + 1, 63);
      DivModUnique(2 * x, WORD, 0, 2 * x);
      x := Shl1(x);
      k := k + 1;
    }
    CeilLog2Least(n, k);
    Pow2Monotone(k, 63);
  }

  /** The value of x after k doublings from 1 in size_t arithmetic. */
  function Doubled(k: nat): nat
  {
    if k == 0 then 1 else Shl1(Doubled(k - 1))
  }

  lemma {:induction false} DoubledValue(k: nat)
    ensures Doubled(k) == if k <= 63 then Pow2(k) else 0
  {
    if k > 0 {
      DoubledValue(k - 1);
      if k <= 63 {
        Pow2Monotone(k, 63);
        DivModUnique(Pow2(k), WORD, 0, Pow2(k));
      } else if k == 64 {
        DivModUnique(Pow2(k), WORD, 1, 0);
      } else {
        DivModUnique(0, WORD, 0, 0);
      }
    }
  }

  /** A request above 2^63 that still fits in a size_t is never reached:
      x climbs to 2^63, the next shift wraps it to 0, and 0 stays 0, so every
      value x takes is below n and `while (x < n)` never exits. */
  lemma OversizeRequestNeverRoundsUp(n: nat, k: nat)
    requires MAX_CAPACITY < n < WORD
    ensures Doubled(k) < n
  {
    DoubledValue(k);
    if k <= 63 {
      Pow2Monotone(k, 63);
    }
  }

  /** What push decides from the unsigned difference `sequence - tail`: 0
      claims the slot, a value above the capacity means full, anything in
      between means back off. In a ring of 2 to 2^63 slots that satisfies
      the invariant, push claims exactly when the ring is not full and
      reports full exactly when it is (the difference has wrapped to
      2^64 + 1 - capacity); the back-off case never arises. */
  lemma PushBranchByCount<T>(slots: seq<Slot<T>>, head: nat, tail: nat, items: seq<T>)
    requires Holds(slots, head, tail, items) && 2 <= |slots| <= MAX_CAPACITY
    ensures Minus(slots[tail % |slots|].sequence, tail) == 0 <==> tail - head < |slots|
    ensures Minus(slots[tail % |slots|].sequence, tail) > |slots| <==> tail - head == |slots|
  {
    var c := |slots|;
    SlotAtTail(slots, head, tail, items);
    if tail == head + c {
      DivModUnique(1 - c, WORD, -1, WORD + 1 - c);
    } else {
      DivModUnique(0, WORD, 0, 0);
    }
  }

  /** What pop decides from the unsigned difference `sequence - (head + 1)`:
      pop claims exactly when the ring is non-empty, and on an empty ring the
      difference wraps to 2^64 - 1, above any capacity, which reports empty. */
  lemma PopBranchByCount<T>(slots: seq<Slot<T>>, head: nat, tail: nat, items: seq<T>)
    requires Holds(slots, head, tail, items) && |slots| <= MAX_CAPACITY
    ensures Minus(slots[head % |slots|].sequence, head + 1) == 0 <==> head < tail
    ensures head == tail ==> Minus(slots[head % |slots|].sequence, head + 1) == WORD - 1
    ensures Minus(slots[head % |slots|].sequence, head + 1) > |slots| <==> head == tail
  {
    SlotAtHead(slots, head, tail, items);
    if head == tail {
      DivModUnique(-1, WORD, -1, WORD - 1);
    } else {
      DivModUnique(0, WORD, 0, 0);
    }
  }

  /** Requests 0 and 1 both round up to a ring of one slot, where the full
      test cannot fire: after one push of x the ring is full, yet a second
      push sees an unsigned difference of 0 and claims the slot,
      overwriting x; a pop then sees a difference of 1, not above the
      capacity, and backs off on every retry. */
  lemma SmallRequestOverwrites<T>(x: T, y: T)
    ensures Pow2(CeilLog2(0)) == 1 && Pow2(CeilLog2(1)) == 1
    ensures var full := [Slot(1, x)];
            Holds(full, 0, 1, [x]) && Minus(full[And(1, 0)].sequence, 1) == 0 &&
            var after := full[And(1, 0) := Slot(1 + 1, y)];
            after[And(0, 0)].value == y && !Holds(after, 0, 2, [x, y]) &&
            0 < Minus(after[And(0, 0)].sequence, 0 + 1) <= 1
  {
    DivModUnique(0, WORD, 0, 0);
    DivModUnique(1, WORD, 0, 1);
  }

  class MPMCQueue<T(0)> {
    const capacity: nat
    const mask: nat
    const buffer: array<Slot<T>>
    var head: nat
    var tail: nat
    /** capacity == 2^log. */
    ghost const log: nat
    /** The items in the queue, oldest first. */
    ghost var Contents: seq<T>

    ghost predicate Valid()
      reads this, buffer
    {
      capacity == Pow2(log) && 2 <= capacity <= MAX_CAPACITY && mask == capacity - 1 &&
      buffer.Length == capacity && Holds(buffer[..], head, tail, Contents)
    }

    /** A ring of the requested capacity rounded up to a power of two, with
        slot i waiting for the write of position i. Requests below 2 are
        refused: they round to a single slot, which loses items. */
    constructor (requested: nat)
      requires 2 <= requested <= MAX_CAPACITY
      ensures Valid() && fresh(buffer)
      ensures capacity == Pow2(CeilLog2(requested)) && capacity >= requested
      ensures capacity / 2 < requested && mask == capacity - 1 && And(capacity, mask) == 0
      ensures head == 0 && tail == 0 && Contents == []
      ensures forall i :: 0 <= i < capacity ==> buffer[i].sequence == i
    {
      var c := RoundUpPow2(requested);
      PowerOfTwoAnd(CeilLog2(requested));
      assert And(c, c - 1) == 0;
      var slots := new Slot<T>[c];
      for i := 0 to c
        invariant forall j :: 0 <= j < i ==> slots[j].sequence == j
      {
        slots[i] := slots[i].(sequence := i);
      }
      InitialHolds(slots[..]);
      capacity := c;
      mask := c - 1;
      log := CeilLog2(requested);
      buffer := slots;
      head, tail := 0, 0;
      Contents := [];
    }

    /** Accepts `item` unless the queue already holds `capacity` items. */
    method Push(item: T) returns (ok: bool)
      requires Valid()
      modifies this, buffer
      ensures Valid()
      ensures ok <==> old(|Contents|) < capacity
      ensures head == old(head)
      ensures ok ==> tail == old(tail) + 1 && Contents == old(Contents) + [item] &&
                     buffer[..] == old(buffer[..])[old(tail) % capacity := Slot(old(tail) + 1, item)]
      ensures !ok ==> tail == old(tail) && Contents == old(Contents) && buffer[..] == old(buffer[..])
    {
      var t := tail;
      var i := And(t, mask);
      MaskIsMod(t, log);
      var slot := buffer[i];
      var diff := Minus(slot.sequence, t);
      ghost var slots := buffer[..];
      PushBranchByCount(slots, head, tail, Contents);
      if diff == 0 {
        // The compare-and-swap of the shared tail from t to t + 1 succeeds: tail == t.
        PushKeepsHolds(slots, head, t, Contents, item);
        tail := t + 1;
        buffer[i] := slot.(value := item);
        buffer[i] := buffer[i].(sequence := t + 1);
        assert buffer[..] == slots[i := Slot(t + 1, item)];
        Contents := Contents + [item];
        ok := true;
      } else if diff > capacity {
        ok := false;
      } else {
        assert false;
      }
    }

    /** `pop(T& out)`: `out` is the caller's variable on entry and `result`
        its value on return. Takes the oldest item into it, or reports an
        empty queue and leaves it alone. */
    method Pop(out: T) returns (ok: bool, result: T)
      requires Valid()
      modifies this, buffer
      ensures Valid()
      ensures ok <==> old(Contents) != []
      ensures tail == old(tail)
      ensures ok ==> result == old(Contents)[0] && Contents == old(Contents)[1..] &&
                     head == old(head) + 1 &&
                     buffer[..] == old(buffer[..])[old(head) % capacity :=
                                     old(buffer[head % capacity]).(sequence := old(head) + capacity)]
      ensures !ok ==> result == out && head == old(head) && Contents == old(Contents) &&
                      buffer[..] == old(buffer[..])
    {
      result := out;
      var h := head;
      var i := And(h, mask);
      MaskIsMod(h, log);
      var slot := buffer[i];
      var diff := Minus(slot.sequence, h + 1);
      PopBranchByCount(buffer[..], head, tail, Contents);
      if diff == 0 {
        // The compare-and-swap of the shared head from h to h + 1 succeeds: head == h.
        SlotAtHead(buffer[..], head, tail, Contents);
        PopKeepsHolds(buffer[..], head, tail, Contents);
        head := h + 1;
        result := slot.value;
        buffer[i] := slot.(sequence := h + capacity);
        Contents := Contents[1..];
        ok := true;
      } else if diff > capacity {
        ok := false;
      } else {
        assert false;
      }
    }
  }

  /** A request for 10 slots gets 16: sixteen pushes are accepted, the
      seventeenth is refused, and after one pop (which returns the first
      item) a push is accepted again. */
  method RequestTenRoundsToSixteen() returns (capacity: nat, accepted: nat, seventeenth: bool,
                                              popped: bool, first: int, afterPop: bool)
    ensures capacity == 16 && accepted == 16 && !seventeenth
    ensures popped && first == 0 && afterPop
  {
    assert CeilLog2(2) == 1 && CeilLog2(3) == 2 && CeilLog2(5) == 3 && CeilLog2(10) == 4;
    assert Pow2(4) == 16;
    var q := new MPMCQueue<int>(10);
    capacity := q.capacity;
    accepted := 0;
    for i := 0 to 16
      invariant q.Valid() && fresh(q.buffer) && q.capacity == 16
      invariant accepted == i && |q.Contents| == i && (i > 0 ==> q.Contents[0] == 0)
    {
      var ok := q.Push(i);
      if ok {
        accepted := accepted + 1;
      }
    }
    seventeenth := q.Push(16);
    popped, first := q.Pop(-1);
    afterPop := q.Push(17);
  }
}
