/**
 * The bounded linked-list FIFO of threadsafe_queue.h, single-threaded.
 *
 * The chain of nodes runs from `head` (oldest item) to `tail`, an empty sentinel
 * that is the next insertion point. Free capacity is the byte counter `size`,
 * which starts at `sizeNode * countSize` and moves by `sizeNode` per node.
 *
 * The two mutexes, the two condition variables and every notify are left out:
 * the wait of wait_and_push becomes `requires size != 0`, the wait of the blocking
 * pops (wait_for_data) becomes `requires Contents != []`, i.e. head != tail.
 * Two signalling quirks of the source are therefore not modelled: the wait predicate
 * of wait_for_data signals the capacity condition whenever it finds the queue empty,
 * although nothing was freed, and wait_and_pop(T&) frees a slot without signalling
 * the capacity condition at all.
 */
module BlockingQueue {
  import opened Wrappers
  import QueueSpec

  /** A storage cell: an optional payload and the owned link to the next cell. */
  class Node<T> {
    var data: Option<T>
    var next: Node?<T>

    /** `new node`: no payload, no successor. */
    constructor ()
      ensures data == None && next == null
    {
      data := None;
      next := null;
    }
  }

  class ThreadsafeQueue<T> {
    var head: Node<T>
    var tail: Node<T>
    /** sizeof(node): the bytes one slot stands for. */
    const sizeNode: nat
    /** Free capacity in bytes (`size_`). */
    var size: nat

    /** The chain from head to tail, sentinel included. */
    ghost var nodes: seq<Node<T>>
    /** The queued payloads, oldest first. */
    ghost var Contents: seq<T>
    /** `count_size`, the number of slots the queue was built with. */
    ghost var capacity: nat
    ghost var Repr: set<object>

    /**
     * The sentinel invariant and the capacity bookkeeping: every node from head up
     * to tail holds a payload and links to the next, the tail holds none and ends
     * the chain, and free bytes plus `sizeNode` per queued item make `sizeNode`
     * times the slot count.
     */
    ghost predicate Valid()
      reads this, Repr
    {
      this in Repr &&
      |nodes| == |Contents| + 1 &&
      nodes[0] == head && nodes[|nodes| - 1] == tail &&
      (forall i :: 0 <= i < |nodes| ==> nodes[i] in Repr) &&
      (forall i, j :: 0 <= i < j < |nodes| ==> nodes[i] != nodes[j]) &&
      (forall i :: 0 <= i < |Contents| ==>
        nodes[i].data == Some(Contents[i]) && nodes[i].next == nodes[i + 1]) &&
      tail.data == None && tail.next == null &&
      sizeNode > 0 &&
      |Contents| <= capacity &&
      size + sizeNode * |Contents| == sizeNode * capacity
    }

    /** The abstract queue: the payloads and the free capacity in slots. */
    ghost function Model(): (m: QueueSpec.Queue<T>)
      reads this, Repr
      requires Valid()
      ensures m.items == Contents
      ensures size == sizeNode * m.free
      ensures m.free + |m.items| == capacity
    {
      QueueSpec.BytesAsSlots(sizeNode, size, |Contents|, capacity);
      QueueSpec.Queue(Contents, capacity - |Contents|)
    }

    /**
     * The wait predicate of wait_and_push, `size != 0`, holds exactly when the
     * abstract queue lets a push proceed.
     */
    lemma PushProceedsExactly(x: T)
      requires Valid()
      ensures QueueSpec.Step(Model(), QueueSpec.PushOp(x)).Some? <==> size != 0
    {
      // Model()'s own ensures carry the byte/slot correspondence this needs.
    }

    /**
     * The wait predicate of wait_for_data, `head != tail`, holds exactly when the
     * abstract queue lets a blocking pop proceed.
     */
    lemma PopProceedsExactly()
      requires Valid()
      ensures QueueSpec.Step(Model(), QueueSpec.PopOp).Some? <==> head != tail
    {
      // Valid() keeps the chain's nodes distinct, so head == tail only for a lone sentinel.
    }

    /**
     * threadsafe_queue(count_size): one sentinel that is both head and tail, and
     * `nodeSize * countSize` free bytes.
     */
    constructor (countSize: nat, nodeSize: nat)
      requires nodeSize > 0
      ensures Valid() && fresh(Repr)
      ensures head == tail && sizeNode == nodeSize && size == nodeSize * countSize
      ensures Model() == QueueSpec.Init(countSize)
    {
      var sentinel := new Node<T>();
      head := sentinel;
      tail := sentinel;
      sizeNode := nodeSize;
      size := nodeSize * countSize;
      nodes := [sentinel];
      Contents := [];
      capacity := countSize;
      Repr := {this, sentinel};
    }

    /**
     * wait_and_push once `size != 0`: the payload goes into the old sentinel, a
     * fresh sentinel is linked after it and becomes the tail, and one node's worth
     * of bytes is used up.
     */
    method WaitAndPush(newValue: T)
      requires Valid()
      requires size != 0
      modifies Repr
      ensures Valid() && fresh(Repr - old(Repr))
      ensures QueueSpec.CanPush(old(Model()))
      ensures Model() == QueueSpec.Push(old(Model()), newValue)
      ensures Contents == old(Contents) + [newValue]
      ensures head == old(head) && fresh(tail)
      ensures old(tail).data == Some(newValue) && old(tail).next == tail
      ensures tail.data == None && tail.next == null
      ensures size == old(size) - sizeNode && capacity == old(capacity)
    {
      QueueSpec.BytesAsSlots(sizeNode, size, |Contents|, capacity);
      var p := new Node<T>();
      tail.data := Some(newValue);
      tail.next := p;
      tail := p;
      size := size - sizeNode;
      nodes := nodes + [p];
      Contents := Contents + [newValue];
      Repr := Repr + {p};
      assert sizeNode * |Contents| == sizeNode * (|Contents| - 1) + sizeNode;
    }

    /**
     * pop_head: detaches the head node (its link is moved out, leaving it null),
     * makes its successor the head and gives back one node's worth of bytes.
     */
    method PopHead() returns (oldHead: Node<T>)
      requires Valid()
      requires Contents != []
      modifies Repr
      ensures Valid() && Repr == old(Repr) - {oldHead}
      ensures oldHead == old(head) && oldHead.next == null && head == old(head.next)
      ensures oldHead.data == Some(old(Contents)[0])
      ensures Model() == QueueSpec.Pop(old(Model())).1
      ensures Contents == old(Contents)[1..]
      ensures tail == old(tail) && size == old(size) + sizeNode && capacity == old(capacity)
    {
      oldHead := head;
      assert oldHead.next == nodes[1];
      head := oldHead.next;
      oldHead.next := null;
      size := size + sizeNode;
      nodes := nodes[1..];
      Contents := Contents[1..];
      Repr := Repr - {oldHead};
      assert sizeNode * old(|Contents|) == sizeNode * |Contents| + sizeNode;
    }

    /** wait_pop_head(): wait_for_data (here, its precondition) then pop_head. */
    method WaitPopHead() returns (oldHead: Node<T>)
      requires Valid()
      requires Contents != []
      modifies Repr
      ensures Valid() && Repr == old(Repr) - {oldHead}
      ensures oldHead == old(head) && oldHead.next == null
      ensures oldHead.data == Some(old(Contents)[0])
      ensures Model() == QueueSpec.Pop(old(Model())).1
    {
      oldHead := PopHead();
    }

    /** wait_pop_head(T&): moves the head's payload into `value`, then pop_head. */
    method WaitPopHeadInto() returns (value: T, oldHead: Node<T>)
      requires Valid()
      requires Contents != []
      modifies Repr
      ensures Valid() && Repr == old(Repr) - {oldHead}
      ensures oldHead == old(head) && oldHead.next == null
      ensures value == old(Contents)[0] && oldHead.data == Some(value)
      ensures Model() == QueueSpec.Pop(old(Model())).1
    {
      value := head.data.value;
      oldHead := PopHead();
    }

    /** try_pop_head(): null when head == tail, otherwise pop_head. */
    method TryPopHead() returns (oldHead: Node?<T>)
      requires Valid()
      modifies Repr
      ensures Valid() && Repr <= old(Repr)
      ensures oldHead == null <==> old(Contents) == []
      ensures oldHead == null ==> unchanged(this) && unchanged(old(Repr))
      ensures oldHead != null ==>
        oldHead == old(head) && oldHead.next == null &&
        oldHead.data == Some(old(Contents)[0]) &&
        Model() == QueueSpec.Pop(old(Model())).1
    {
      if head == tail {
        return null;
      }
      oldHead := PopHead();
    }

    /**
     * try_pop_head(T&): on an empty queue neither the queue nor `value` changes;
     * otherwise `value` gets the head's payload and the head is popped.
     */
    method TryPopHeadInto(value: T) returns (newValue: T, oldHead: Node?<T>)
      requires Valid()
      modifies Repr
      ensures Valid() && Repr <= old(Repr)
      ensures oldHead == null <==> old(Contents) == []
      ensures oldHead == null ==> newValue == value && unchanged(this) && unchanged(old(Repr))
      ensures oldHead != null ==>
        oldHead == old(head) && oldHead.next == null &&
        newValue == old(Contents)[0] && oldHead.data == Some(newValue) &&
        Model() == QueueSpec.Pop(old(Model())).1
    {
      newValue := value;
      if head == tail {
        return newValue, null;
      }
      newValue := head.data.value;
      oldHead := PopHead();
    }

    /** wait_and_pop(): the front payload, removed from the queue. */
    method WaitAndPop() returns (value: T)
      requires Valid()
      requires Contents != []
      modifies Repr
      ensures Valid() && fresh(Repr - old(Repr))
      ensures (value, Model()) == QueueSpec.Pop(old(Model()))
      ensures Contents == old(Contents)[1..]
    {
      var oldHead := WaitPopHead();
      value := oldHead.data.value;
    }

    /**
     * wait_and_pop(T&). Unlike the other three pop forms (threadsafe_queue.h:117,
     * 129, 136) it never signals the capacity-available condition; this
     * single-threaded model has no conditions.
     */
    method WaitAndPopInto() returns (value: T)
      requires Valid()
      requires Contents != []
      modifies Repr
      ensures Valid() && fresh(Repr - old(Repr))
      ensures (value, Model()) == QueueSpec.Pop(old(Model()))
      ensures Contents == old(Contents)[1..]
    {
      var oldHead;
      value, oldHead := WaitPopHeadInto();
    }

    /**
     * try_pop(): the front payload if there is one (a null pointer if not), removed.
     * The source signals the capacity condition in both cases.
     */
    method TryPop() returns (value: Option<T>)
      requires Valid()
      modifies Repr
      ensures Valid() && fresh(Repr - old(Repr))
      ensures (value, Model()) == QueueSpec.TryPop(old(Model()))
      ensures value == None <==> old(Contents) == []
      ensures value == None ==> unchanged(this) && unchanged(old(Repr))
    {
      var oldHead := TryPopHead();
      value := if oldHead != null then oldHead.data else None;
    }

    /**
     * try_pop(T&): false and nothing changed on an empty queue, otherwise true with
     * the front payload, which is removed.
     */
    method TryPopInto(value: T) returns (popped: bool, newValue: T)
      requires Valid()
      modifies Repr
      ensures Valid() && fresh(Repr - old(Repr))
      ensures popped <==> old(Contents) != []
      ensures !popped ==> newValue == value && unchanged(this) && unchanged(old(Repr))
      ensures popped ==> (newValue, Model()) == QueueSpec.Pop(old(Model()))
    {
      var oldHead;
      newValue, oldHead := TryPopHeadInto(value);
      popped := oldHead != null;
    }

    /**
     * empty(): head == tail, which holds exactly when nothing is queued. The source
     * declares it `void` yet returns the comparison; it is modelled as returning it.
     */
    method Empty() returns (isEmpty: bool)
      requires Valid()
      ensures isEmpty <==> Contents == []
      ensures isEmpty <==> QueueSpec.IsEmpty(Model())
    {
      isEmpty := head == tail;
    }
  }
}
