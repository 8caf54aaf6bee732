# threadsafe_queue — a verified sequential model

This project models `threadsafe_queue<T>` from `threadsafe_queue.h`: a bounded FIFO
built as a singly linked chain of nodes. The chain always ends in an empty sentinel
node. `head` points at the oldest item and `tail` at the sentinel, which is the next
insertion point. The queue is empty exactly when `head == tail`. Free capacity is a
byte counter `size_`. It starts at `sizeof(node) * count_size`. A push uses up one
node's worth of bytes and a pop gives one back.

The model has three files:

- `wrappers.dfy` holds an `Option` type. It stands for a possibly-null owning pointer.
- `queue_spec.dfy` (module `QueueSpec`) is the abstract queue. It holds the queued
  payloads, oldest first, and the free capacity counted in node slots. It defines push,
  the blocking pop and `try_pop` as functions. It also defines single-threaded runs of
  these operations, and it proves FIFO order, conservation of items and capacity,
  backpressure, and how byte capacity relates to slot capacity.
- `threadsafe_queue.dfy` (module `BlockingQueue`) is the data structure itself. Class
  `Node` has `data` and `next`. Class `ThreadsafeQueue` has `head`, `tail`, `sizeNode`
  and the byte counter `size`, which its methods update in place. Its invariant
  `Valid()` states the sentinel invariant and the byte bookkeeping
  `size + sizeNode * |Contents| == sizeNode * count_size`. Each method's contract ties
  the new abstract state `Model()` to the matching `QueueSpec` function of the old one.

The waits on condition variables become preconditions. `wait_and_push` requires
`size != 0`. The blocking pops require a non-empty queue, i.e. `head != tail`. The
`try_*` forms are total. `try_pop()` returns an `Option` (None for the null pointer).
`try_pop(T&)` takes the caller's current value and returns it unchanged when the queue
is empty. A `T&` that is always assigned becomes a returned value.

Three places where the model keeps the code's own choices, or their evident meaning:

- Capacity is counted in bytes (`sizeof(node)` per slot), not as a plain slot count.
  The lemma `QueueSpec.BytesAsSlots` shows the two views agree.
- `empty()` is declared `void` but returns the comparison. It is modelled as
  returning a `bool`.
- `bool try_pop(T&)` ends with `return old_head;`. The conversion of a `unique_ptr` to
  `bool` is explicit, so that line would not compile once the member is instantiated.
  The model takes its evident meaning: the result is true exactly when a node was
  popped.

## Model

| member | source | states |
|---|---|---|
| `BlockingQueue.Node.constructor` | threadsafe_queue.h:10-14 | a new node holds no payload and has no successor |
| `BlockingQueue.ThreadsafeQueue.Model` | threadsafe_queue.h:22-23 | the abstract queue's items are the chain's payloads; the free bytes are `sizeNode` times the free slots; free slots plus queued items equal `count_size` |
| `BlockingQueue.ThreadsafeQueue.constructor` | threadsafe_queue.h:90-95 | a new queue has one sentinel that is both head and tail, no items, and `nodeSize * countSize` free bytes, i.e. `count_size` free slots |
| `BlockingQueue.ThreadsafeQueue.WaitAndPush` | threadsafe_queue.h:99-112 | needs nonzero free capacity; the value is appended at the back; the old sentinel now holds it and links to a fresh, empty sentinel, which becomes the tail; head is unchanged; exactly `sizeNode` bytes are used up; the sentinel invariant still holds |
| `BlockingQueue.ThreadsafeQueue.PopHead` | threadsafe_queue.h:31-37 | needs a non-empty queue; detaches the old head, which holds the front payload and whose link is now null; its former successor becomes the head; the rest stay in order; tail is unchanged; exactly `sizeNode` bytes are given back |
| `BlockingQueue.ThreadsafeQueue.WaitPopHead` | threadsafe_queue.h:56-60 | with the wait as a precondition, returns the detached old head, whose link is now null and which carries the front payload, and leaves the rest as a pop does |
| `BlockingQueue.ThreadsafeQueue.WaitPopHeadInto` | threadsafe_queue.h:62-67 | with the wait as a precondition, yields the front payload and returns the detached old head, whose link is now null, leaving the rest as a pop does |
| `BlockingQueue.ThreadsafeQueue.TryPopHead` | threadsafe_queue.h:69-77 | returns null exactly when head == tail, and then nothing changes; otherwise it returns the detached old head, whose link is now null and which carries the front payload, and the rest is left as a pop leaves it |
| `BlockingQueue.ThreadsafeQueue.TryPopHeadInto` | threadsafe_queue.h:79-88 | on an empty queue returns null and leaves the queue and the value unchanged; otherwise it yields the front payload and returns the detached old head, whose link is now null |
| `BlockingQueue.ThreadsafeQueue.WaitAndPop` | threadsafe_queue.h:114-119 | needs a non-empty queue; returns the front payload and the remaining items in their original order, with one slot given back |
| `BlockingQueue.ThreadsafeQueue.WaitAndPopInto` | threadsafe_queue.h:121-124 | the same as `WaitAndPop`, with the value delivered through the out-parameter |
| `BlockingQueue.ThreadsafeQueue.TryPop` | threadsafe_queue.h:126-131 | None exactly when the queue is empty, and then no state changes; otherwise it behaves like the blocking pop |
| `BlockingQueue.ThreadsafeQueue.TryPopInto` | threadsafe_queue.h:133-138 | false exactly when the queue is empty, and then the queue and the value are unchanged; otherwise true, with the front payload removed like a blocking pop |
| `BlockingQueue.ThreadsafeQueue.PushProceedsExactly` | threadsafe_queue.h:104 | the byte-level wait predicate `size != 0` holds exactly when the abstract queue lets a push proceed |
| `BlockingQueue.ThreadsafeQueue.PopProceedsExactly` | threadsafe_queue.h:42-52 | the wait predicate `head != tail` holds exactly when the abstract queue lets a blocking pop proceed |
| `BlockingQueue.ThreadsafeQueue.Empty` | threadsafe_queue.h:140-144 | true exactly when no item is queued (head == tail) |
| `QueueSpec.PushAllAppends` | threadsafe_queue.h:99-112 | pushing a sequence appends it, in order, at the back and uses up one slot per value |
| `QueueSpec.PopNTakesPrefix` | threadsafe_queue.h:114-119 | n blocking pops return the first n items in order, leave the rest, and give back n slots |
| `QueueSpec.FifoOrder` | threadsafe_queue.h:99-124 | pushing values and then popping everything returns the earlier items followed by the pushed values, in push order, and frees all their slots |
| `QueueSpec.PushThenPopOnEmpty` | threadsafe_queue.h:99-119 | on an empty queue, a pop after a push returns the pushed value and restores the queue exactly |
| `QueueSpec.FullAfterCountSizePushes` | threadsafe_queue.h:104-110 | after `count_size` pushes onto a new queue, a further push cannot proceed; one pop lets exactly one more push proceed |
| `QueueSpec.StepConserves` | threadsafe_queue.h:99-138 | a single push, pop or try_pop that does not block: what it yields, followed by what is then queued, equals what was queued followed by what it pushed; free plus queued slots are unchanged |
| `QueueSpec.RunConserves` | threadsafe_queue.h:99-138 | in any run that does not block, the popped values followed by what is still queued equal the initial items followed by the pushed values, so nothing is lost or duplicated and order is FIFO; free plus queued slots stay constant |
| `QueueSpec.CapacityInvariant` | threadsafe_queue.h:90-112 | from a new queue, every reachable state has free slots plus queued items equal to `count_size`, and popped-then-queued equals everything pushed |
| `QueueSpec.BytesAsSlots` | threadsafe_queue.h:104-110 | if free bytes plus `sizeNode` per queued item equal `sizeNode * count_size`, the free bytes are a whole number of slots; they are nonzero exactly when a slot is free, and then at least one node's worth |

## Left out

- Locking and signalling: the head and tail mutexes, `get_tail`'s locking, both
  condition variables and every `notify_one`. Waits become preconditions. The model is
  single-threaded, so it does not cover interleavings of concurrent producers and
  consumers.
- Data race on `size_`: `pop_head` adds to it while holding only the head mutex
  (threadsafe_queue.h:35), while `wait_and_push` reads and subtracts from it under the
  tail mutex (threadsafe_queue.h:104, 110). The single-threaded bookkeeping proved by
  `QueueSpec.CapacityInvariant` and `Valid()` assumes these updates never overlap. It
  says nothing about a lost update when they do.
- `BlockingQueue.ThreadsafeQueue.constructor`: `size_` is a `size_t`, so
  `sizeof(node) * count_size` wraps modulo 2^64 for very large `count_size`. The model
  uses unbounded integers.
- `sizeof(node)` is a compile-time constant in the source. Here it is the constructor
  parameter `nodeSize`, required to be positive.
- Ownership: `shared_ptr` payloads and `unique_ptr` links are plain references. Node
  deletion is modelled as the node leaving the queue's footprint `Repr`.
- `wait_for_data` and `get_tail` have no member of their own. Their effect is the
  precondition `Contents != []`, and the `head == tail` test inside the methods.
- The interrupt flag, interruptible wait, `ThreadWrapper` (`Concurency/thread_wrapper.h`,
  `Concurency/thread_wrapper.cpp`, `Concurency/ThreadWrapper.cpp`): thread plumbing
  with atomics, thread-local state, futures and cross-thread exceptions. They are not
  part of this model.
- The demo programs (`Main.cpp`, `Concurency/Main.cpp`) and the test scaffolding
  (`Concurency_tests/test.cpp`) are not part of this model.
