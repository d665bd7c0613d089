/**
 * The head/tail ring used twice by the relay firmware: the 256-byte RX ring
 * filled by the UART receive interrupt and the 16-slot ROME transmit queue.
 *
 * `head` is the next slot to write and `tail` the next slot to read; the ring
 * is empty when they are equal and full when advancing `head` would reach
 * `tail`, so one slot always stays unused and at most `capacity - 1`
 * elements are pending.
 */
module RingBuffer {
  datatype Ring<T> = Ring(slots: seq<T>, head: nat, tail: nat)

  predicate Valid<T>(r: Ring<T>) {
    |r.slots| > 0 && r.head < |r.slots| && r.tail < |r.slots|
  }

  /** `(i + 1) % capacity` */
  function Next(i: nat, capacity: nat): (j: nat)
    requires i < capacity
    ensures j < capacity
    ensures j == (i + 1) % capacity
  {
    if i + 1 == capacity then
      assert (i + 1) % capacity == 0 by { assert i + 1 == 1 * capacity; }
      0
    else
      assert (i + 1) % capacity == i + 1 by { assert i + 1 == 0 * capacity + (i + 1); }
      i + 1
  }

  /** The slot `k` places after `tail`, wrapping once. */
  function SlotAfter(tail: nat, k: nat, capacity: nat): (s: nat)
    requires tail < capacity && k < capacity
    ensures s < capacity
    ensures s == (tail + k) % capacity
  {
    if tail + k < capacity then
      assert (tail + k) % capacity == tail + k by { assert tail + k == 0 * capacity + (tail + k); }
      tail + k
    else
      assert (tail + k) % capacity == tail + k - capacity by {
        assert tail + k == 1 * capacity + (tail + k - capacity);
      }
      tail + k - capacity
  }

  /** How many elements are pending: the distance from `tail` forward to `head`. */
  function Count<T>(r: Ring<T>): (n: nat)
    requires Valid(r)
    ensures n < |r.slots|
    ensures SlotAfter(r.tail, n, |r.slots|) == r.head
  {
    if r.head >= r.tail then r.head - r.tail else r.head + |r.slots| - r.tail
  }

  /** The pending elements, oldest first. */
  function Pending<T>(r: Ring<T>): (p: seq<T>)
    requires Valid(r)
    ensures |p| == Count(r) && |p| < |r.slots|
  {
    seq(Count(r), k requires 0 <= k < Count(r) => r.slots[SlotAfter(r.tail, k, |r.slots|)])
  }

  /** The writer's full test `next_head == tail`. */
  predicate Full<T>(r: Ring<T>)
    requires Valid(r)
  {
    Next(r.head, |r.slots|) == r.tail
  }

  /** The full test holds exactly when `capacity - 1` elements are pending. */
  lemma FullIffAtCapacity<T>(r: Ring<T>)
    requires Valid(r)
    ensures Full(r) <==> Count(r) == |r.slots| - 1
  {
  }

  /** Store `x` at `head` and advance it, unless the ring is full, in which
      case the element is dropped and nothing changes. */
  function Push<T>(r: Ring<T>, x: T): (r': Ring<T>)
    requires Valid(r)
    ensures Valid(r') && |r'.slots| == |r.slots| && r'.tail == r.tail
    ensures Full(r) ==> r' == r
    ensures !Full(r) ==> Pending(r') == Pending(r) + [x]
  {
    if Full(r) then r
    else
      var r' := Ring(r.slots[r.head := x], Next(r.head, |r.slots|), r.tail);
      PushAppends(r, x, r');
      r'
  }

  lemma PushAppends<T>(r: Ring<T>, x: T, r': Ring<T>)
    requires Valid(r) && !Full(r)
    requires r' == Ring(r.slots[r.head := x], Next(r.head, |r.slots|), r.tail)
    ensures Valid(r') && Pending(r') == Pending(r) + [x]
  {
    var n := Count(r);
    FullIffAtCapacity(r);
    assert Count(r') == n + 1;
    forall k | 0 <= k < n
      ensures Pending(r')[k] == Pending(r)[k]
    {
      assert SlotAfter(r.tail, k, |r.slots|) != r.head;
    }
  }

  /** The element `Process_RX_Buffer` and `Process_ROME_Queue` read: the slot at `tail`. */
  function Front<T>(r: Ring<T>): (x: T)
    requires Valid(r)
    ensures Count(r) > 0 ==> x == Pending(r)[0]
  {
    r.slots[r.tail]
  }

  /** `tail = (tail + 1) % capacity`. The firmware's transmit-complete
      callback advances without looking at `head`, so this is total; on a
      non-empty ring it removes exactly the oldest element. */
  function Advance<T>(r: Ring<T>): (r': Ring<T>)
    requires Valid(r)
    ensures Valid(r') && r'.slots == r.slots && r'.head == r.head
    ensures Count(r) > 0 ==> Pending(r') == Pending(r)[1..]
  {
    var r' := r.(tail := Next(r.tail, |r.slots|));
    if Count(r) > 0 then AdvanceDrops(r, r'); r' else r'
  }

  lemma AdvanceDrops<T>(r: Ring<T>, r': Ring<T>)
    requires Valid(r) && Count(r) > 0
    requires r' == r.(tail := Next(r.tail, |r.slots|))
    ensures Valid(r') && Pending(r') == Pending(r)[1..]
  {
    assert Count(r') == Count(r) - 1;
    forall k | 0 <= k < Count(r')
      ensures Pending(r')[k] == Pending(r)[k + 1]
    {
      assert SlotAfter(r'.tail, k, |r.slots|) == SlotAfter(r.tail, k + 1, |r.slots|);
    }
  }

  /** Zeroing both indices empties the ring; the slot contents stay. */
  function Reset<T>(r: Ring<T>): (r': Ring<T>)
    requires Valid(r)
    ensures Valid(r') && r'.slots == r.slots && Pending(r') == []
  {
    r.(head := 0, tail := 0)
  }

  /** Pushing a whole sequence in order: the pending elements grow by the
      prefix that fits, in arrival order, and every later element is dropped. */
  function PushAll<T>(r: Ring<T>, xs: seq<T>): (r': Ring<T>)
    requires Valid(r)
    ensures Valid(r') && |r'.slots| == |r.slots| && r'.tail == r.tail
    decreases |xs|
  {
    if xs == [] then r else PushAll(Push(r, xs[0]), xs[1..])
  }

  /** The ring keeps the arrivals that fit and drops the rest: after pushing
      `xs`, the pending elements are the old ones followed by the first
      `min(|xs|, room)` elements of `xs`. */
  lemma {:induction false} PushAllKeepsPrefix<T>(r: Ring<T>, xs: seq<T>)
    requires Valid(r)
    ensures var room := |r.slots| - 1 - Count(r);
      var kept := if |xs| <= room then |xs| else room;
      Pending(PushAll(r, xs)) == Pending(r) + xs[..kept]
    decreases |xs|
  {
    FullIffAtCapacity(r);
    if xs != [] {
      var r1 := Push(r, xs[0]);
      assert PushAll(r, xs) == PushAll(r1, xs[1..]);
      if Full(r) {
        PushAllKeepsPrefix(r, xs[1..]);
        assert xs[..0] == xs[1..][..0];
      } else {
        PushAllKeepsPrefix(r1, xs[1..]);
        KeptAfterOnePush(r, xs);
      }
    }
  }

  /** The step of `PushAllKeepsPrefix` when the first element fits. */
  lemma KeptAfterOnePush<T>(r: Ring<T>, xs: seq<T>)
    requires Valid(r) && !Full(r) && xs != []
    requires var r1 := Push(r, xs[0]);
      var room1 := |r.slots| - 1 - Count(r1);
      var kept1 := if |xs| - 1 <= room1 then |xs| - 1 else room1;
      Pending(PushAll(r1, xs[1..])) == Pending(r1) + xs[1..][..kept1]
    ensures var room := |r.slots| - 1 - Count(r);
      var kept := if |xs| <= room then |xs| else room;
      Pending(PushAll(Push(r, xs[0]), xs[1..])) == Pending(r) + xs[..kept]
  {
    var r1 := Push(r, xs[0]);
    FullIffAtCapacity(r);
    assert Pending(r1) == Pending(r) + [xs[0]];
    assert Count(r1) == Count(r) + 1;
    var room := |r.slots| - 1 - Count(r);
    var kept := if |xs| <= room then |xs| else room;
    assert kept >= 1;
    var rest := xs[1..][..kept - 1];
    assert xs[..kept] == [xs[0]] + rest;
    assert Pending(PushAll(r1, xs[1..])) == Pending(r1) + rest;
    assert Pending(r1) + rest == Pending(r) + ([xs[0]] + rest);
  }
}
