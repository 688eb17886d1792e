# Bounded ring queues: the slot-sequence protocol and the circular queue

This project models the three ring buffers of the `mpmc_queue` library and
proves what they promise:

- the **compact** multi-producer/multi-consumer queue (`mpmc_queue.hpp`). It takes
  any capacity, picks a slot with `cursor % capacity` and decides from the
  signed difference between a slot's sequence counter and the cursor;
- the **padded** multi-producer/multi-consumer queue (`mpmc_queue_v1.hpp`). It
  rounds the capacity up to a power of two with `round_up_pow2`, picks a slot
  with `cursor & mask` and decides from the unsigned `size_t` difference, so
  "full" and "empty" show up as a difference that has wrapped past the
  capacity;
- the single-threaded **`CircularQueue`** (`single.hpp`). It uses masked head and
  tail indices and keeps one slot empty.

Each queue is a Dafny `class` whose fields are the source's fields. The
fields are a fixed `array` of slots and the two cursors, and a ghost
`Contents` sequence holds the items oldest first. `push` and `pop` are
methods that update the array and the cursors in place. Their
postconditions give the new state exactly, and tie it to `Contents`: a
push appends and a pop removes the oldest item, so the queues are FIFO.

The two multi-producer queues share the slot-sequence invariant
(`SlotProtocol.Holds`). For every logical position p in [head, tail), the
slot `p mod C` has sequence `p + 1` and holds item `p - head`. For every p in
[tail, head + C), that slot has sequence `p`. Every push and pop is modelled
as one atomic step. The cursor a call loads is then the shared cursor, so
its compare-and-swap succeeds. Under the invariant, the sequence difference
is 0 exactly when the call can claim the slot. It signals full or empty
exactly when the queue is full or empty. The back-off branch of the retry
loop is proved unreachable: each method has `assert false` there.

Files:
- `ring_index.dfy` (module `RingIndex`): powers of two, `CeilLog2`, bitwise
  AND on naturals, and the facts that a mask equals a remainder and that
  nearby positions fall into different slots.
- `slot_protocol.dfy` (module `SlotProtocol`): the slot datatype, the
  slot-sequence invariant, and its preservation by push and pop.
- `mpmc_queue.dfy` (module `MpmcCompact`): the compact queue.
- `mpmc_queue_v1.dfy` (module `MpmcPadded`): `round_up_pow2` and the padded queue.
- `single.dfy` (module `SingleQueue`): the circular queue.

The sequential tests open the padded queue's namespace, but they call `pop()` as returning `std::optional`. That is the compact queue's interface, so `BasicPushPop`, `FullQueue` and `EmptyQueue` are stated against the compact model.

## Model

| member | source | states |
|---|---|---|
| `RingIndex.CeilLog2Bounds` | mpmc_queue/include/single.hpp:27 | `2^CeilLog2(n)` is at least n, and the next lower power of two is below n |
| `RingIndex.CeilLog2Least` | mpmc_queue/include/single.hpp:27 | no power of two with a smaller exponent than `CeilLog2(n)` reaches n, so `1 << ceil(log2(n))` is the smallest power of two >= n |
| `RingIndex.MaskIsMod` | mpmc_queue/include/mpmc_queue_v1.hpp:73 | `x & (2^k - 1) == x % 2^k`, so masked slot selection agrees with the compact queue's `%` |
| `RingIndex.PowerOfTwoAnd` | mpmc_queue/include/mpmc_queue_v1.hpp:58 | `c & (c - 1) == 0` for every power of two c, so the constructor's assert always holds |
| `RingIndex.ModDistinct` | mpmc_queue/include/mpmc_queue.hpp:50 | two different cursor positions fewer than C apart select different slots |
| `SlotProtocol.InitialHolds` | mpmc_queue/include/mpmc_queue.hpp:27-36 | slot i with sequence i and both cursors at 0 satisfy the slot-sequence invariant with no items |
| `SlotProtocol.SlotAtTail` | mpmc_queue/include/mpmc_queue.hpp:50-52 | the tail slot has sequence `tail` when the ring is not full, and `head + 1` (the oldest item's) when it is full |
| `SlotProtocol.SlotAtHead` | mpmc_queue/include/mpmc_queue.hpp:93-97 | the head slot has sequence `head + 1` and holds the oldest item when the ring is non-empty, and sequence `head` when it is empty |
| `SlotProtocol.PushKeepsHolds` | mpmc_queue/include/mpmc_queue.hpp:54-63 | storing the item at slot `tail % C`, publishing `tail + 1` and advancing tail keeps the invariant and appends the item |
| `SlotProtocol.PopKeepsHolds` | mpmc_queue/include/mpmc_queue.hpp:97-106 | republishing the head slot as `head + C` and advancing head keeps the invariant and drops exactly the oldest item |
| `MpmcCompact.PushBranchByCount` | mpmc_queue/include/mpmc_queue.hpp:49-82 | for C >= 2 under the invariant, `sequence - tail` is 0 iff the queue is not full and negative iff it is full, so push never backs off |
| `MpmcCompact.PopBranchByCount` | mpmc_queue/include/mpmc_queue.hpp:92-125 | under the invariant, `sequence - (head + 1)` is 0 iff the queue is non-empty and negative iff it is empty, so pop never backs off |
| `MpmcCompact.CapacityOneOverwrites` | mpmc_queue/include/mpmc_queue.hpp:27-36 | with capacity 1, a push on the full ring sees difference 0 and overwrites the item; the next pop sees a positive difference |
| `MpmcCompact.MPMCQueue.constructor` | mpmc_queue/include/mpmc_queue.hpp:27-36 | head == tail == 0, slot i has sequence i, the invariant holds and the queue is empty |
| `MpmcCompact.MPMCQueue.Push` | mpmc_queue/include/mpmc_queue.hpp:43-84 | accepted iff fewer than C items. On success: slot `tail % C` becomes (tail + 1, item), tail advances, the item is appended, head and the other slots are unchanged. On failure: nothing changes |
| `MpmcCompact.MPMCQueue.Pop` | mpmc_queue/include/mpmc_queue.hpp:86-127 | returns the oldest item iff the queue is non-empty. Its slot's sequence becomes `head + C` and head advances. An empty queue gives `nullopt` with nothing changed |
| `MpmcCompact.BasicPushPop` | mpmc_queue/tests/mpmc_tests.cpp:10-20 | capacity 4: push 10 and 20 succeed and pops return 10 then 20; beyond the test, a third pop finds the queue empty |
| `MpmcCompact.FullQueue` | mpmc_queue/tests/mpmc_tests.cpp:22-27 | capacity 2: the third push is rejected |
| `MpmcCompact.EmptyQueue` | mpmc_queue/tests/mpmc_tests.cpp:29-32 | a pop on a fresh queue returns `nullopt` |
| `MpmcPadded.MinusIgnoresWrap` | mpmc_queue/include/mpmc_queue_v1.hpp:75 | the `size_t` difference of cursors reduced modulo 2^64 equals the difference of the unbounded cursors modulo 2^64 |
| `MpmcPadded.MaskIgnoresWrap` | mpmc_queue/include/mpmc_queue_v1.hpp:73 | masking a wrapped 64-bit cursor selects the slot of the unbounded cursor |
| `MpmcPadded.RoundUpPow2` | mpmc_queue/include/mpmc_queue_v1.hpp:44-48 | the result is the smallest power of two >= n, and 1 for n == 0. The doubling never wraps for n <= 2^63 |
| `MpmcPadded.DoubledValue` | mpmc_queue/include/mpmc_queue_v1.hpp:44-48 | after k wrapping doublings `x <<= 1` from 1, x is 2^k for k <= 63 and 0 for every k >= 64 |
| `MpmcPadded.OversizeRequestNeverRoundsUp` | mpmc_queue/include/mpmc_queue_v1.hpp:44-48 | for 2^63 < n < 2^64, every value x takes in `round_up_pow2`'s loop is below n, so the loop never exits |
| `MpmcPadded.PushBranchByCount` | mpmc_queue/include/mpmc_queue_v1.hpp:73-93 | for 2 <= C <= 2^63 under the invariant, the unsigned `sequence - tail` is 0 iff the queue is not full, and above C iff it is full |
| `MpmcPadded.PopBranchByCount` | mpmc_queue/include/mpmc_queue_v1.hpp:109-129 | under the invariant, the unsigned `sequence - (head + 1)` is 0 iff the queue is non-empty. On an empty queue it is 2^64 - 1, above C |
| `MpmcPadded.SmallRequestOverwrites` | mpmc_queue/include/mpmc_queue_v1.hpp:44-62 | requests 0 and 1 give one slot. There a push on the full ring sees difference 0 and overwrites the item, and the next pop sees difference 1 and backs off |
| `MpmcPadded.MPMCQueue.constructor` | mpmc_queue/include/mpmc_queue_v1.hpp:51-62 | capacity is the smallest power of two >= the request, `mask == capacity - 1`, `capacity & mask == 0`, slot i has sequence i, the queue is empty |
| `MpmcPadded.MPMCQueue.Push` | mpmc_queue/include/mpmc_queue_v1.hpp:68-102 | accepted iff fewer than capacity items. On success: the slot `tail & mask` becomes (tail + 1, item), tail advances, the item is appended. On failure: nothing changes |
| `MpmcPadded.MPMCQueue.Pop` | mpmc_queue/include/mpmc_queue_v1.hpp:104-138 | true iff non-empty. `out` gets the oldest item, the slot's sequence becomes `head + capacity` and head advances. When empty, `out` and the state are untouched |
| `MpmcPadded.RequestTenRoundsToSixteen` | mpmc_queue/include/mpmc_queue_v1.hpp:44-62 | a request of 10 gives capacity 16. Sixteen pushes succeed, the 17th fails, a pop returns the first item, and a push then succeeds |
| `SingleQueue.FullTest` | mpmc_queue/include/single.hpp:32-34 | `(tail + 1) mod C == head` iff the queue holds C - 1 items |
| `SingleQueue.EmptyTest` | mpmc_queue/include/single.hpp:45-46 | `head == tail` iff the queue holds no items |
| `SingleQueue.PushKeepsRing` | mpmc_queue/include/single.hpp:39-40 | storing at `buffer_[tail]` and moving tail one slot on keeps the ring invariant and appends the item |
| `SingleQueue.PopKeepsRing` | mpmc_queue/include/single.hpp:51-52 | the item at `buffer_[head]` is the oldest, and moving head one slot on keeps the invariant and drops it |
| `SingleQueue.CircularQueue.constructor` | mpmc_queue/include/single.hpp:26-28 | capacity is `1 << ceil(log2(requested))`, a power of two, and the queue is empty with head == tail == 0 |
| `SingleQueue.CircularQueue.Push` | mpmc_queue/include/single.hpp:30-42 | false iff `(tail + 1) & (C - 1) == head`, which happens iff C - 1 items are held; nothing changes then. On success the item goes to `buffer_[tail]`, tail moves on, head is unchanged and the item is appended |
| `SingleQueue.CircularQueue.Pop` | mpmc_queue/include/single.hpp:44-54 | false iff `head == tail`, leaving `out` and the state untouched. Otherwise it returns `buffer_[head]`, the oldest item, and head moves on modulo C |
| `SingleQueue.CapacityOneRejects` | mpmc_queue/include/single.hpp:26-34 | a request of 1 gives one slot, and its push is rejected |
| `SingleQueue.FirstInFirstOut` | mpmc_queue/include/single.hpp:30-54 | capacity 4 holds three items: the fourth push is rejected, the pops return 1, 2, 3, and then the queue is empty |

## Left out

- Concurrency is not modelled: memory orderings (acquire, release, relaxed), interleavings of compare-and-swap between threads, and spurious failure of the weak compare-and-swap. Each `push` and `pop` is one atomic step.
- The `while (true)` retry loops of `push` and `pop` in both multi-producer queues are modelled as their one sequential iteration. The compare-and-swap is modelled as succeeding, and the back-off branch is proved unreachable (`assert false`).
- The back-off stages (20/100/1000 retries and a 1 ns sleep in mpmc_queue_v1.hpp:96-99; 10/100 and 50 ns in mpmc_queue.hpp:73-81) are timing only.
- Prefetch hints (`_mm_prefetch`, `__builtin_prefetch`), cache-line padding and `alignas` affect layout and speed only.
- `single.hpp` computes the capacity with floating-point `std::ceil(std::log2(capacity))`. The model uses the integer `CeilLog2`. They differ for a request of 2^k + 1 with k >= 49: the double `log2` rounds to exactly k, so the source builds a ring of 2^k slots, below the request, while `SingleQueue.CircularQueue.constructor` ensures `capacity >= requested`.
- `SingleQueue.CircularQueue.constructor`: requires 1 <= requested <= 2^63. `log2(0)` has no finite value, and `1ULL << 64` is undefined.
- `MpmcCompact.MPMCQueue.constructor`: requires capacity >= 2. Capacity 0 divides by zero at the first push or pop. Capacity 1 loses items (see Findings).
- `MpmcPadded.MPMCQueue.constructor`: requires 2 <= requested <= 2^63. Requests 0 and 1 give one slot, which loses items. Larger requests never return from `round_up_pow2` (see Findings).
- `MpmcPadded.RoundUpPow2`: requires n <= 2^63, because a larger request never returns.
- Cursors are unbounded naturals. For the compact queue the model matches its `size_t` cursors and signed `intptr_t` difference only while cursors stay below 2^63, that is, for fewer than 2^63 operations. For the padded queue, `MinusIgnoresWrap` and `MaskIgnoresWrap` show that the wrapped difference and the wrapped mask agree with the unbounded ones.
- `pop(T& out)` is modelled with `out` as an input and its final value as a result.
- The payload type's copy is a plain value assignment.
- The benchmark programs (thread pools, timing, throughput arithmetic, console output, other queue libraries) are not modelled.
- The multi-threaded tests are not modelled. Their "no loss, no duplication" outcome is covered by the FIFO postconditions of `Push` and `Pop`.

## Findings

| source | as written | input that shows it | evidently intended | confidence | as-written member | corrected member |
|---|---|---|---|---|---|---|
| mpmc_queue/include/mpmc_queue.hpp:27-36 | the constructor accepts capacity 1, and push treats only a negative difference as full | capacity 1: push x, then push y | a second push is rejected as full, so x is kept; capacities below 2 are refused | high (not executed): the second push sees difference 0, overwrites x, and every later pop backs off forever | `MpmcCompact.CapacityOneOverwrites` | `MpmcCompact.PushBranchByCount` |
| mpmc_queue/include/mpmc_queue_v1.hpp:44-62 | `round_up_pow2` maps requests 0 and 1 to a one-slot ring | request 1: push x, then push y | a second push is rejected as full; small requests get at least two slots | high (not executed): the second push sees unsigned difference 0 and overwrites x | `MpmcPadded.SmallRequestOverwrites` | `MpmcPadded.PushBranchByCount` |
| mpmc_queue/include/mpmc_queue_v1.hpp:44-48 | `x <<= 1` wraps to 0 once x passes 2^63 | request 2^63 + 1 | an unrepresentable request is refused at construction | medium (not executed): the loop never exits | `MpmcPadded.OversizeRequestNeverRoundsUp` | `MpmcPadded.RoundUpPow2` |
