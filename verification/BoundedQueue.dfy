/** The dispatch queue: a ring buffer that refines a bounded first-in first-out sequence. */
module BoundedQueue {
  import opened Errors

  datatype DropPolicy = DropOldest | DropNewest | Block

  datatype Pushed<T> = Pushed(queue: seq<T>, accepted: bool, evicted: seq<T>)

  /** push, once its wait is over. */
  function Push<T>(policy: DropPolicy, capacity: nat, closed: bool, q: seq<T>, x: T): Pushed<T> {
    if closed then Pushed(q, false, [])
    else if |q| < capacity then Pushed(q + [x], true, [])
    else if policy == DropOldest && q != [] then Pushed(q[1..] + [x], true, [q[0]])
    else Pushed(q, false, [])
  }

  /** Refused only by a closed or full queue, evicted only the oldest of a full one, and otherwise appended. */
  lemma PushLaw<T>(policy: DropPolicy, capacity: nat, closed: bool, q: seq<T>, x: T)
    requires capacity > 0 && |q| <= capacity
    ensures var out := Push(policy, capacity, closed, q, x);
      && (!out.accepted <==> closed || (|q| == capacity && policy != DropOldest))
      && (out.evicted != [] <==> !closed && |q| == capacity && policy == DropOldest)
      && |out.evicted| <= 1 && |out.queue| <= capacity
      && out.evicted + out.queue == if out.accepted then q + [x] else q
  {
    if q != [] { assert [q[0]] + (q[1..] + [x]) == q + [x]; }
  }

  /** Block waits while the queue is full and open. */
  predicate CanPush(policy: DropPolicy, capacity: nat, closed: bool, size: nat) {
    policy == Block ==> size < capacity || closed
  }

  /** Ring position i places after head. */
  function Slot(head: nat, i: nat, capacity: nat): (s: nat)
    requires head < capacity && i <= capacity
    ensures s < capacity
  {
    if head + i < capacity then head + i else head + i - capacity
  }

  function Next(at: nat, capacity: nat): (n: nat)
    requires at < capacity
    ensures n < capacity && n == Slot(at, 1, capacity)
  {
    (at + 1) % capacity
  }

  class Queue<T> {
    const capacity: nat
    const policy: DropPolicy
    const blank: T
    const buffer: array<T>
    var head: nat
    var tail: nat
    var size: nat
    var closed: bool
    var enqueued: nat
    var dequeued: nat
    var dropped: nat
    ghost var contents: seq<T>
    ghost var rejected: nat

    ghost predicate Valid()
      reads this, buffer
    {
      && capacity > 0 && buffer.Length == capacity
      && head < capacity && size <= capacity && tail == Slot(head, size, capacity)
      && |contents| == size
      && (forall i :: 0 <= i < size ==> buffer[Slot(head, i, capacity)] == contents[i])
      && enqueued + rejected == dequeued + size + dropped
    }

    constructor (capacity: nat, policy: DropPolicy, blank: T)
      ensures Valid() && fresh(buffer) && this.policy == policy && contents == [] && !closed
      ensures this.capacity == if capacity > 0 then capacity else 1
    {
      var n := if capacity > 0 then capacity else 1;
      this.capacity := n;
      this.policy := policy;
      this.blank := blank;
      buffer := new T[n](_ => blank);
      head, tail, size, closed := 0, 0, 0, false;
      enqueued, dequeued, dropped := 0, 0, 0;
      contents, rejected := [], 0;
    }

    /** Takes the oldest element off the ring. */
    method Drop() returns (x: T)
      requires Valid() && size > 0
      modifies this`head, this`size, this`contents, this`dequeued, buffer
      ensures Valid() && x == old(contents)[0] && contents == old(contents)[1..] && size == old(size) - 1
      ensures dequeued == old(dequeued) + 1
    {
      x := buffer[head];
      buffer[head] := blank;
      head := Next(head, capacity);
      size := size - 1;
      dequeued := dequeued + 1;
      contents := contents[1..];
    }

    method Put(x: T)
      requires Valid() && size < capacity
      modifies this`tail, this`size, this`contents, this`enqueued, buffer
      ensures Valid() && contents == old(contents) + [x] && size == old(size) + 1
      ensures enqueued == old(enqueued) + 1
    {
      buffer[tail] := x;
      tail := Next(tail, capacity);
      size := size + 1;
      enqueued := enqueued + 1;
      contents := contents + [x];
    }

    /** push after its wait; false exactly when the element was refused. */
    method TryEnter(x: T) returns (ok: bool)
      requires Valid() && CanPush(policy, capacity, closed, size)
      modifies this, buffer
      ensures Valid() && closed == old(closed)
      ensures var p := Push(policy, capacity, closed, old(contents), x);
        contents == p.queue && ok == p.accepted && dequeued == old(dequeued)
        && enqueued == old(enqueued) + (if ok then 1 else 0)
        && dropped == old(dropped) + (if !closed && old(size) == capacity then 1 else 0)
    {
      if closed { return false; }
      if size >= capacity {
        if policy == DropOldest {
          var gone := Drop();
          dequeued := dequeued - 1;
          dropped := dropped + 1;
        } else {
          dropped := dropped + 1;
          rejected := rejected + 1;
          return false;
        }
      }
      Put(x);
      return true;
    }

    /** pop after its wait: the oldest element, or nothing from a closed and drained queue. */
    method Pop() returns (r: Option<T>)
      requires Valid() && (size > 0 || closed)
      modifies this, buffer
      ensures Valid() && closed == old(closed)
      ensures r.None? <==> old(contents) == []
      ensures r.None? ==> contents == [] && closed
      ensures r.Some? ==> [r.value] + contents == old(contents)
      ensures dequeued == old(dequeued) + (if r.Some? then 1 else 0) && enqueued == old(enqueued) && dropped == old(dropped)
    {
      if size == 0 { return None; }
      var x := Drop();
      return Some(x);
    }

    method Close()
      requires Valid()
      modifies this`closed
      ensures Valid() && closed
    {
      closed := true;
    }
  }
}
