/**
 * The report queues of the HID devices: rings that drop the oldest entry when full
 * (hw/usb/dev-hid.c, hw/usb/dev-hid-apple-trackpad.c).
 */
module Rings {

  /** A queue of bounded capacity to which one entry is added; a full queue loses its oldest entry. */
  function Push<T>(queue: seq<T>, capacity: nat, x: T): (queue': seq<T>)
    requires 0 < capacity && |queue| <= capacity
    ensures |queue'| <= capacity
  {
    if |queue| == capacity then queue[1..] + [x] else queue + [x]
  }

  function Lost<T>(queue: seq<T>, capacity: nat): (lost: seq<T>)
    requires 0 < capacity && |queue| <= capacity
    ensures lost != [] <==> |queue| == capacity
  {
    if |queue| == capacity then [queue[0]] else []
  }

  function PushAll<T>(queue: seq<T>, capacity: nat, xs: seq<T>): (queue': seq<T>)
    requires 0 < capacity && |queue| <= capacity
    ensures |queue'| <= capacity
    decreases |xs|
  {
    if xs == [] then queue else PushAll(Push(queue, capacity, xs[0]), capacity, xs[1..])
  }

  function LostAll<T>(queue: seq<T>, capacity: nat, xs: seq<T>): seq<T>
    requires 0 < capacity && |queue| <= capacity
    decreases |xs|
  {
    if xs == [] then [] else Lost(queue, capacity) + LostAll(Push(queue, capacity, xs[0]), capacity, xs[1..])
  }

  /** Nothing is reordered or duplicated: what was lost, then what is queued, is what was queued and then added. */
  lemma {:induction false} PushAllKeepsOrder<T>(queue: seq<T>, capacity: nat, xs: seq<T>)
    requires 0 < capacity && |queue| <= capacity
    ensures LostAll(queue, capacity, xs) + PushAll(queue, capacity, xs) == queue + xs
    decreases |xs|
  {
    hide Push, Lost;
    if xs != [] {
      var queue1 := Push(queue, capacity, xs[0]);
      PushAllKeepsOrder(queue1, capacity, xs[1..]);
      PushKeepsOrder(queue, capacity, xs[0]);
      var lost, later, kept := Lost(queue, capacity), LostAll(queue1, capacity, xs[1..]), PushAll(queue1, capacity, xs[1..]);
      assert (lost + later) + kept == lost + (later + kept) == (lost + queue1) + xs[1..];
      assert (queue + [xs[0]]) + xs[1..] == queue + xs;
    }
  }

  lemma PushKeepsOrder<T>(queue: seq<T>, capacity: nat, x: T)
    requires 0 < capacity && |queue| <= capacity
    ensures Lost(queue, capacity) + Push(queue, capacity, x) == queue + [x]
  {
  }

  /** Entries are lost only for want of room: as many as there are too many, and the oldest ones. */
  lemma LostExactly<T>(queue: seq<T>, capacity: nat, xs: seq<T>)
    requires 0 < capacity && |queue| <= capacity
    ensures var lost, excess := LostAll(queue, capacity, xs), |queue| + |xs| - capacity;
      |lost| == (if excess > 0 then excess else 0) && lost == (queue + xs)[..|lost|]
  {
    PushAllFills(queue, capacity, xs);
    PushAllKeepsOrder(queue, capacity, xs);
    var lost, kept := LostAll(queue, capacity, xs), PushAll(queue, capacity, xs);
    assert |lost + kept| == |queue + xs| && (lost + kept)[..|lost|] == lost;
  }

  lemma {:induction false} PushAllFills<T>(queue: seq<T>, capacity: nat, xs: seq<T>)
    requires 0 < capacity && |queue| <= capacity
    ensures |PushAll(queue, capacity, xs)| == if |queue| + |xs| <= capacity then |queue| + |xs| else capacity
    decreases |xs|
  {
    if xs != [] {
      PushAllFills(Push(queue, capacity, xs[0]), capacity, xs[1..]);
    }
  }

  lemma {:induction false} PushAllOneMore<T>(queue: seq<T>, capacity: nat, xs: seq<T>, x: T)
    requires 0 < capacity && |queue| <= capacity
    ensures PushAll(queue, capacity, xs + [x]) == Push(PushAll(queue, capacity, xs), capacity, x)
    decreases |xs|
  {
    if xs != [] {
      assert (xs + [x])[1..] == xs[1..] + [x];
      PushAllOneMore(Push(queue, capacity, xs[0]), capacity, xs[1..], x);
    }
  }

  // ----- indices of a ring -----

  /** The slot `i` places after `from`, for `i` up to one turn. */
  function Slot(depth: nat, from: nat, i: nat): (k: nat)
    requires from < depth && i <= depth
    ensures k < depth
  {
    if from + i < depth then from + i else from + i - depth
  }

  lemma NextSlot(depth: nat, from: nat)
    requires from < depth
    ensures (from + 1) % depth == Slot(depth, from, 1)
  {
  }

  lemma Distance(depth: nat, head: nat, tail: nat)
    requires head < depth && tail < depth
    ensures (head - tail) % depth == if head >= tail then head - tail else head - tail + depth
  {
    if head < tail {
      assert (head - tail) + depth * 1 == head - tail + depth;
      assert (head - tail) / depth == -1;
    }
  }

  function Entries<T>(slots: seq<T>, tail: nat, count: nat): (c: seq<T>)
    requires tail < |slots| && count < |slots|
    ensures |c| == count
  {
    seq(count, i requires 0 <= i < count => slots[Slot(|slots|, tail, i)])
  }

  lemma EntriesAdd<T>(slots: seq<T>, tail: nat, count: nat, x: T)
    requires tail < |slots| && count + 1 < |slots|
    ensures Entries(slots[Slot(|slots|, tail, count) := x], tail, count + 1) == Entries(slots, tail, count) + [x]
  {
  }

  lemma EntriesDrop<T>(slots: seq<T>, tail: nat, count: nat)
    requires tail < |slots| && 0 < count < |slots|
    ensures Entries(slots, Slot(|slots|, tail, 1), count - 1) == Entries(slots, tail, count)[1..]
    ensures Entries(slots, tail, count)[0] == slots[tail]
  {
  }

  /** One slot always stays free, so that equal indices mean empty. */
  class Ring<T(0)> {
    const slots: array<T>
    var head: nat
    var tail: nat

    ghost predicate Valid()
      reads this
    {
      2 <= slots.Length && head < slots.Length && tail < slots.Length
    }

    ghost function Capacity(): (c: nat)
      requires Valid()
      reads this
    {
      slots.Length - 1
    }

    /** `(q_head - q_tail) & (DEPTH - 1)` in unsigned arithmetic, for a depth that is a power of two. */
    function Count(): (n: nat)
      requires Valid()
      reads this
      ensures n <= Capacity()
      ensures n == 0 <==> head == tail
      ensures head == Slot(slots.Length, tail, n)
    {
      Distance(slots.Length, head, tail);
      (head - tail) % slots.Length
    }

    /** The queued entries, oldest first. */
    ghost function Contents(): (c: seq<T>)
      requires Valid()
      reads this, slots
      ensures |c| == Count() <= Capacity()
    {
      Entries(slots[..], tail, Count())
    }

    constructor (depth: nat)
      requires 2 <= depth
      ensures Valid() && Contents() == [] && slots.Length == depth && fresh(slots)
    {
      slots := new T[depth];
      head, tail := 0, 0;
    }

    method Clear()
      requires Valid()
      modifies this
      ensures Valid() && Contents() == []
    {
      head, tail := 0, 0;
    }

    method Enqueue(x: T)
      requires Valid()
      modifies this, slots
      ensures Valid() && Contents() == Push(old(Contents()), Capacity(), x)
    {
      hide Entries, Slot;
      if Count() == slots.Length - 1 {
        DropOldest();
      }
      ghost var before, count := slots[..], Count();
      slots[head] := x;
      NextSlot(slots.Length, head);
      head := (head + 1) % slots.Length;
      EntriesAdd(before, tail, count, x);
      Longer(slots.Length, tail, count);
      assert slots[..] == before[Slot(slots.Length, tail, count) := x];
    }

    method DropOldest()
      requires Valid() && Count() > 0
      modifies this`tail
      ensures Valid() && Contents() == old(Contents())[1..]
    {
      hide Entries;
      EntriesDrop(slots[..], tail, Count());
      Shorter(slots.Length, head, tail);
      NextSlot(slots.Length, tail);
      tail := (tail + 1) % slots.Length;
    }

    method Dequeue() returns (x: T)
      requires Valid() && Contents() != []
      modifies this`tail
      ensures Valid() && [x] + Contents() == old(Contents())
    {
      hide Entries;
      EntriesDrop(slots[..], tail, Count());
      x := slots[tail];
      DropOldest();
    }
  }

  lemma Longer(depth: nat, tail: nat, count: nat)
    requires tail < depth && count + 1 < depth
    ensures (Slot(depth, Slot(depth, tail, count), 1) - tail) % depth == count + 1
  {
    Distance(depth, Slot(depth, Slot(depth, tail, count), 1), tail);
  }

  lemma Shorter(depth: nat, head: nat, tail: nat)
    requires head < depth && tail < depth && (head - tail) % depth > 0
    ensures (head - Slot(depth, tail, 1)) % depth == (head - tail) % depth - 1
  {
    Distance(depth, head, tail);
    Distance(depth, head, Slot(depth, tail, 1));
  }
}
