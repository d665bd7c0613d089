/**
 * The firmware's ROME transmit queue: 16 four-byte packets in a head/tail
 * ring plus a busy flag that is set while one packet is on the wire.
 */
module RomeQueue {
  import opened Bytes
  import opened Wrappers
  import RingBuffer

  /** `ROME_QUEUE_SIZE` */
  const QueueSize: nat := 16
  const RomeHeader: byte := 0xBB

  datatype Queue = Queue(ring: RingBuffer.Ring<seq<byte>>, busy: bool)

  /** Sixteen slots, and a packet is only ever in flight while one is pending. */
  predicate Valid(q: Queue) {
    RingBuffer.Valid(q.ring) && |q.ring.slots| == QueueSize
    && (q.busy ==> RingBuffer.Count(q.ring) > 0)
  }

  /** The packets waiting, oldest first; the front one may be in flight. */
  function Pending(q: Queue): (p: seq<seq<byte>>)
    requires Valid(q)
    ensures |p| < QueueSize
  {
    RingBuffer.Pending(q.ring)
  }

  /** The packet `Queue_ROME` writes into a slot. */
  function RomePacket(id: byte, d1: byte, d2: byte): (p: seq<byte>)
    ensures |p| == 4 && p[0] == RomeHeader && p[1] == id && p[2] == d1 && p[3] == d2
  {
    [RomeHeader, id, d1, d2]
  }

  /** `Queue_ROME`: append the packet, or drop it when the queue is full
      (15 pending). The busy flag is untouched. */
  function Enqueue(q: Queue, id: byte, d1: byte, d2: byte): (q': Queue)
    requires Valid(q)
    ensures Valid(q') && q'.busy == q.busy
    ensures |Pending(q)| < QueueSize - 1 ==> Pending(q') == Pending(q) + [RomePacket(id, d1, d2)]
    ensures |Pending(q)| == QueueSize - 1 ==> q' == q
  {
    RingBuffer.FullIffAtCapacity(q.ring);
    Queue(RingBuffer.Push(q.ring, RomePacket(id, d1, d2)), q.busy)
  }

  /** `Process_ROME_Queue`: when idle and something is pending, mark busy and
      hand the front packet to the UART; otherwise do nothing. */
  function StartTransmit(q: Queue): (r: (Queue, Option<seq<byte>>))
    requires Valid(q)
    ensures Valid(r.0) && Pending(r.0) == Pending(q)
    ensures r.1.Some? <==> !q.busy && Pending(q) != []
    ensures r.1.Some? ==> r.1.value == Pending(q)[0] && r.0.busy
    ensures r.1.None? ==> r.0 == q
  {
    if q.busy then (q, None)
    else if q.ring.tail != q.ring.head then
      (q.(busy := true), Some(RingBuffer.Front(q.ring)))
    else (q, None)
  }

  /** `HAL_UART_TxCpltCallback` for the ROME UART: advance the tail and clear
      busy. With a packet in flight this removes exactly that packet. */
  function TxComplete(q: Queue): (q': Queue)
    requires Valid(q)
    ensures Valid(q') && !q'.busy
    ensures q.busy ==> Pending(q') == Pending(q)[1..]
  {
    Queue(RingBuffer.Advance(q.ring), false)
  }

  /** The callback does not look at the queue: one arriving while nothing is
      pending moves the tail past the head, and the queue then reads as full. */
  lemma TxCompleteOnEmptyWraps(q: Queue)
    requires Valid(q) && Pending(q) == []
    ensures |Pending(TxComplete(q))| == QueueSize - 1
  {
    assert q.ring.head == q.ring.tail;
  }

  /** The index and flag reset of `Reset_UART_State`. */
  function Reset(q: Queue): (q': Queue)
    requires Valid(q)
    ensures Valid(q') && Pending(q') == [] && !q'.busy
  {
    Queue(RingBuffer.Reset(q.ring), false)
  }

  /** Packets leave in the order they were queued: a packet queued behind
      others is transmitted after them. Transmitting and completing the front
      packet leaves the rest, in order, with the newly queued one last. */
  lemma {:induction false} FifoOrder(q: Queue, id: byte, d1: byte, d2: byte)
    requires Valid(q) && !q.busy && |Pending(q)| < QueueSize - 1
    ensures var q1 := Enqueue(q, id, d1, d2);
      var (q2, sent) := StartTransmit(q1);
      && sent == Some(Pending(q1)[0])
      && Pending(TxComplete(q2)) == (Pending(q) + [RomePacket(id, d1, d2)])[1..]
  {
    var q1 := Enqueue(q, id, d1, d2);
    assert Pending(q1) == Pending(q) + [RomePacket(id, d1, d2)];
    var (q2, sent) := StartTransmit(q1);
    assert q2.busy && Pending(q2) == Pending(q1);
  }
}
