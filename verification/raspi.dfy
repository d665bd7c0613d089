/**
 * The relay firmware's receive-and-forward path: bytes from the Raspberry Pi
 * UART enter the RX ring in the receive interrupt; the main loop drains the
 * ring through the packet window, drives the relays from every packet and
 * forwards the five device words of a data packet to the ROME UART queue.
 *
 * The interrupt and the main loop are modelled as sequential events on one
 * state record; the hardware writes become the list of relay masks passed to
 * `Relay_Update`, in order.
 */
module Raspi {
  import opened Bytes
  import opened Wrappers
  import RingBuffer
  import PacketWindow
  import RomeQueue
  import Relay
  import FrameScanner

  /** `RX_BUF_SIZE` */
  const RxBufferSize: nat := 256
  /** Number of ROME devices a data packet carries. */
  const DeviceCount: nat := 5

  /** What the main loop has done to the outside world: the masks written to
      the relays, in order, and the ROME transmit queue. */
  datatype Outputs = Outputs(relayWrites: seq<bv32>, rome: RomeQueue.Queue)

  datatype Firmware = Firmware(rx: RingBuffer.Ring<byte>, window: seq<byte>, out: Outputs)

  predicate Valid(fw: Firmware) {
    && RingBuffer.Valid(fw.rx) && |fw.rx.slots| == RxBufferSize
    && |fw.window| < PacketWindow.WindowSize
    && RomeQueue.Valid(fw.out.rome)
  }

  /** `HAL_UART_RxCpltCallback`: store the byte in the ring, or drop it when
      255 bytes are already waiting. */
  function RxCallback(fw: Firmware, b: byte): (fw': Firmware)
    requires Valid(fw)
    ensures Valid(fw') && fw'.window == fw.window && fw'.out == fw.out
    ensures |RingBuffer.Pending(fw.rx)| < RxBufferSize - 1 ==>
      RingBuffer.Pending(fw'.rx) == RingBuffer.Pending(fw.rx) + [b]
    ensures |RingBuffer.Pending(fw.rx)| == RxBufferSize - 1 ==> fw' == fw
  {
    RingBuffer.FullIffAtCapacity(fw.rx);
    fw.(rx := RingBuffer.Push(fw.rx, b))
  }

  /** The receive interrupt once per byte, in arrival order. */
  function ReceiveAll(fw: Firmware, bs: seq<byte>): (fw': Firmware)
    requires Valid(fw)
    ensures Valid(fw') && fw'.window == fw.window && fw'.out == fw.out
    ensures fw'.rx == RingBuffer.PushAll(fw.rx, bs)
    decreases |bs|
  {
    if bs == [] then fw else ReceiveAll(RxCallback(fw, bs[0]), bs[1..])
  }

  /** Bytes arriving faster than the main loop drains them are kept up to
      255 pending and the rest dropped: the ring then holds what it held
      followed by the arrivals that fitted. */
  lemma ReceiveAllKeepsPrefix(fw: Firmware, bs: seq<byte>)
    requires Valid(fw)
    ensures var room := RxBufferSize - 1 - |RingBuffer.Pending(fw.rx)|;
      var kept := if |bs| <= room then |bs| else room;
      RingBuffer.Pending(ReceiveAll(fw, bs).rx) == RingBuffer.Pending(fw.rx) + bs[..kept]
  {
    RingBuffer.PushAllKeepsPrefix(fw.rx, bs);
  }

  /** The relay mask of a data packet: discrete A, B and C as bits 0..7, 8..15
      and 16..23. */
  function DataMask(frame: seq<byte>): (m: bv32)
    requires |frame| == FrameScanner.FrameLength
    ensures m < 0x100_0000
    ensures m & 0xFF == frame[2] as bv32
    ensures (m >> 8) & 0xFF == frame[3] as bv32
    ensures (m >> 16) & 0xFF == frame[4] as bv32
  {
    var a := frame[2] as bv32;
    var b := frame[3] as bv32;
    var c := frame[4] as bv32;
    assert a < 256 && b < 256 && c < 256;
    a | (b << 8) | (c << 16)
  }

  /** The five ROME packets `Parse_Data_Packet` queues: device `i + 1` gets
      frame bytes `5 + 2i` and `6 + 2i`. */
  function DevicePackets(frame: seq<byte>): (ps: seq<seq<byte>>)
    requires |frame| == FrameScanner.FrameLength
    ensures |ps| == DeviceCount
    ensures forall i :: 0 <= i < DeviceCount ==>
      ps[i] == RomeQueue.RomePacket(i + 1, frame[5 + 2 * i], frame[6 + 2 * i])
  {
    seq(DeviceCount, i requires 0 <= i < DeviceCount =>
      RomeQueue.RomePacket(i + 1, frame[5 + 2 * i], frame[6 + 2 * i]))
  }

  /** The five `Queue_ROME` calls in order, each dropping its packet when the
      queue is full. */
  function QueueDevices(q: RomeQueue.Queue, frame: seq<byte>): (q': RomeQueue.Queue)
    requires RomeQueue.Valid(q) && |frame| == FrameScanner.FrameLength
    ensures RomeQueue.Valid(q') && q'.busy == q.busy
    ensures var room := RomeQueue.QueueSize - 1 - |RomeQueue.Pending(q)|;
      var kept := if DeviceCount <= room then DeviceCount else room;
      RomeQueue.Pending(q') == RomeQueue.Pending(q) + DevicePackets(frame)[..kept]
  {
    var ps := DevicePackets(frame);
    assert ps[0..] == ps;
    RingBuffer.PushAllKeepsPrefix(q.ring, ps);
    QueueFrom(q, frame, 0)
  }

  /** `Queue_ROME(i + 1, ...)` for `i` from `from` to 4. */
  function QueueFrom(q: RomeQueue.Queue, frame: seq<byte>, from: nat): (q': RomeQueue.Queue)
    requires RomeQueue.Valid(q) && |frame| == FrameScanner.FrameLength && from <= DeviceCount
    ensures RomeQueue.Valid(q') && q'.busy == q.busy
    ensures q'.ring == RingBuffer.PushAll(q.ring, DevicePackets(frame)[from..])
    decreases DeviceCount - from
  {
    if from == DeviceCount then
      assert DevicePackets(frame)[from..] == [];
      q
    else
      var q1 := RomeQueue.Enqueue(q, from + 1, frame[5 + 2 * from], frame[6 + 2 * from]);
      var q' := QueueFrom(q1, frame, from + 1);
      assert DevicePackets(frame)[from..][0] == DevicePackets(frame)[from];
      assert DevicePackets(frame)[from..][1..] == DevicePackets(frame)[from + 1..];
      q'
  }

  /** The relay mask a dispatched packet writes: a status packet's byte, or
      the three discrete bytes of a data packet. */
  function MaskOf(d: PacketWindow.Dispatch): bv32
    requires d.Data? ==> |d.frame| == FrameScanner.FrameLength
  {
    match d
    case Status(v) => v as bv32
    case Data(f) => DataMask(f)
  }

  /** What one dispatched packet does: a status packet writes its byte as the
      relay mask; a data packet writes the three discrete bytes as the mask
      and queues the five device words. */
  function Apply(out: Outputs, d: PacketWindow.Dispatch): (out': Outputs)
    requires RomeQueue.Valid(out.rome)
    requires d.Data? ==> |d.frame| == FrameScanner.FrameLength
    ensures RomeQueue.Valid(out'.rome)
    ensures d.Status? ==> out' == Outputs(out.relayWrites + [d.value as bv32], out.rome)
    ensures d.Data? ==> out'.relayWrites == out.relayWrites + [DataMask(d.frame)]
    ensures d.Data? ==> out'.rome == QueueDevices(out.rome, d.frame)
  {
    match d
    case Status(v) => Outputs(out.relayWrites + [v as bv32], out.rome)
    case Data(f) => Outputs(out.relayWrites + [DataMask(f)], QueueDevices(out.rome, f))
  }

  /** Every dispatched data packet is a frame (so `Apply` may read its bytes). */
  predicate WellFormed(ds: seq<PacketWindow.Dispatch>) {
    forall k :: 0 <= k < |ds| && ds[k].Data? ==> FrameScanner.IsFrame(ds[k].frame)
  }

  /** The masks of the packets, in dispatch order. */
  function Masks(ds: seq<PacketWindow.Dispatch>): (ms: seq<bv32>)
    requires WellFormed(ds)
    ensures |ms| == |ds|
    decreases |ds|
  {
    if ds == [] then []
    else
      assert WellFormed(ds[..|ds| - 1]);
      Masks(ds[..|ds| - 1]) + [MaskOf(ds[|ds| - 1])]
  }

  /** Mask `k` is the `k`-th packet's. */
  lemma {:induction false} MasksInOrder(ds: seq<PacketWindow.Dispatch>)
    requires WellFormed(ds)
    ensures forall k :: 0 <= k < |ds| ==> Masks(ds)[k] == MaskOf(ds[k])
    decreases |ds|
  {
    if ds != [] {
      var ds' := ds[..|ds| - 1];
      assert WellFormed(ds');
      MasksInOrder(ds');
      assert Masks(ds) == Masks(ds') + [MaskOf(ds[|ds| - 1])];
      forall k | 0 <= k < |ds| ensures Masks(ds)[k] == MaskOf(ds[k]) {
        if k < |ds'| {
          assert ds'[k] == ds[k];
        }
      }
    }
  }

  /** The packets applied in order: the relays receive one mask per packet,
      in dispatch order, after the masks already written. */
  function ApplyAll(out: Outputs, ds: seq<PacketWindow.Dispatch>): (out': Outputs)
    requires RomeQueue.Valid(out.rome) && WellFormed(ds)
    ensures RomeQueue.Valid(out'.rome) && out'.rome.busy == out.rome.busy
    ensures out'.relayWrites == out.relayWrites + Masks(ds)
    decreases |ds|
  {
    if ds == [] then
      assert Masks(ds) == [];
      out
    else
      var ds' := ds[..|ds| - 1];
      assert WellFormed(ds');
      var prev := ApplyAll(out, ds');
      ApplyWritesMask(prev, ds[|ds| - 1]);
      Apply(prev, ds[|ds| - 1])
  }

  /** Every packet writes its own mask and leaves the busy flag alone. */
  lemma ApplyWritesMask(out: Outputs, d: PacketWindow.Dispatch)
    requires RomeQueue.Valid(out.rome)
    requires d.Data? ==> |d.frame| == FrameScanner.FrameLength
    ensures Apply(out, d).relayWrites == out.relayWrites + [MaskOf(d)]
    ensures Apply(out, d).rome.busy == out.rome.busy
  {
  }

  /** The device packets of the data packets among `ds`, in dispatch order. */
  function DeviceTraffic(ds: seq<PacketWindow.Dispatch>): (ps: seq<seq<byte>>)
    requires WellFormed(ds)
    decreases |ds|
  {
    if ds == [] then []
    else
      assert WellFormed(ds[..|ds| - 1]);
      var last := ds[|ds| - 1];
      DeviceTraffic(ds[..|ds| - 1]) + (if last.Data? then DevicePackets(last.frame) else [])
  }

  /** The first `n` elements of `s`, or all of it when it is shorter. */
  function Take<T>(s: seq<T>, n: nat): (r: seq<T>)
    ensures |r| <= n && |r| <= |s|
    ensures |s| <= n ==> r == s
  {
    if |s| <= n then s else s[..n]
  }

  /** Applying packets only ever queues: the ROME queue holds what it held
      followed by the device packets of every data packet, in order, up to
      the 15 it can hold; everything beyond is dropped. */
  lemma {:induction false} ApplyAllQueues(out: Outputs, ds: seq<PacketWindow.Dispatch>)
    requires RomeQueue.Valid(out.rome) && WellFormed(ds)
    ensures RomeQueue.Pending(ApplyAll(out, ds).rome) ==
      Take(RomeQueue.Pending(out.rome) + DeviceTraffic(ds), RomeQueue.QueueSize - 1)
    decreases |ds|
  {
    if ds == [] {
      assert RomeQueue.Pending(out.rome) + [] == RomeQueue.Pending(out.rome);
    } else {
      assert WellFormed(ds[..|ds| - 1]);
      ApplyAllQueues(out, ds[..|ds| - 1]);
      if ds[|ds| - 1].Data? {
        var f := ds[|ds| - 1].frame;
        LastStepData(out, ds);
        QueueStep(ApplyAll(out, ds[..|ds| - 1]).rome, f, RomeQueue.Pending(out.rome) + DeviceTraffic(ds[..|ds| - 1]));
        SeqAssoc(RomeQueue.Pending(out.rome), DeviceTraffic(ds[..|ds| - 1]), DevicePackets(f));
      } else {
        QueuesAfterStatus(out, ds);
      }
    }
  }

  /** The inductive step of `ApplyAllQueues` at a last status packet. */
  lemma QueuesAfterStatus(out: Outputs, ds: seq<PacketWindow.Dispatch>)
    requires RomeQueue.Valid(out.rome) && WellFormed(ds) && ds != [] && ds[|ds| - 1].Status?
    requires WellFormed(ds[..|ds| - 1])
    requires RomeQueue.Pending(ApplyAll(out, ds[..|ds| - 1]).rome) ==
      Take(RomeQueue.Pending(out.rome) + DeviceTraffic(ds[..|ds| - 1]), RomeQueue.QueueSize - 1)
    ensures RomeQueue.Pending(ApplyAll(out, ds).rome) ==
      Take(RomeQueue.Pending(out.rome) + DeviceTraffic(ds), RomeQueue.QueueSize - 1)
  {
    assert ApplyAll(out, ds).rome == ApplyAll(out, ds[..|ds| - 1]).rome;
    assert DeviceTraffic(ds) == DeviceTraffic(ds[..|ds| - 1]) + [];
    assert DeviceTraffic(ds[..|ds| - 1]) + [] == DeviceTraffic(ds[..|ds| - 1]);
  }

  lemma SeqAssoc<T>(a: seq<T>, b: seq<T>, c: seq<T>)
    ensures (a + b) + c == a + (b + c)
  {
  }

  /** `ApplyAll` and `DeviceTraffic` unfolded at a last data packet. */
  lemma LastStepData(out: Outputs, ds: seq<PacketWindow.Dispatch>)
    requires RomeQueue.Valid(out.rome) && WellFormed(ds) && ds != [] && ds[|ds| - 1].Data?
    ensures WellFormed(ds[..|ds| - 1]) && |ds[|ds| - 1].frame| == FrameScanner.FrameLength
    ensures ApplyAll(out, ds).rome == QueueDevices(ApplyAll(out, ds[..|ds| - 1]).rome, ds[|ds| - 1].frame)
    ensures DeviceTraffic(ds) == DeviceTraffic(ds[..|ds| - 1]) + DevicePackets(ds[|ds| - 1].frame)
  {
    assert WellFormed(ds[..|ds| - 1]);
  }

  /** Queueing a data packet's device packets behind a capped queue caps the
      longer list. */
  lemma QueueStep(q: RomeQueue.Queue, frame: seq<byte>, xs: seq<seq<byte>>)
    requires RomeQueue.Valid(q) && |frame| == FrameScanner.FrameLength
    requires RomeQueue.Pending(q) == Take(xs, RomeQueue.QueueSize - 1)
    ensures RomeQueue.Pending(QueueDevices(q, frame)) == Take(xs + DevicePackets(frame), RomeQueue.QueueSize - 1)
  {
    QueueAfterTake(xs, DevicePackets(frame), RomeQueue.Pending(q),
      RomeQueue.Pending(QueueDevices(q, frame)), RomeQueue.QueueSize - 1);
  }

  /** Appending as much of `ys` as fits behind a capped prefix of `xs` is
      capping `xs + ys`. */
  lemma QueueAfterTake<T>(xs: seq<T>, ys: seq<T>, before: seq<T>, after: seq<T>, cap: nat)
    requires before == Take(xs, cap)
    requires after == before + ys[..if |ys| <= cap - |before| then |ys| else cap - |before|]
    ensures after == Take(xs + ys, cap)
  {
    if |xs| >= cap {
      assert ys[..0] == [];
      assert (xs + ys)[..cap] == xs[..cap];
    } else {
      var kept := if |ys| <= cap - |xs| then |ys| else cap - |xs|;
      assert (xs + ys)[..|xs| + kept] == xs + ys[..kept];
    }
  }

  /** `Process_RX_Buffer`: drain the ring through the packet window, acting on
      every packet. The result is the window fed with all pending bytes and
      the outputs with all its packets applied. */
  method ProcessRxBuffer(fw: Firmware) returns (fw': Firmware)
    requires Valid(fw)
    ensures Valid(fw')
    ensures RingBuffer.Pending(fw'.rx) == []
    ensures var fed := PacketWindow.Feed(fw.window, RingBuffer.Pending(fw.rx));
      && fw'.window == fed.0
      && WellFormed(fed.1)
      && fw'.out == ApplyAll(fw.out, fed.1)
  {
    var pending := RingBuffer.Pending(fw.rx);
    var rx := fw.rx;
    var window := fw.window;
    var out := fw.out;
    var i := 0;
    while rx.tail != rx.head
      invariant 0 <= i <= |pending|
      invariant RingBuffer.Valid(rx) && |rx.slots| == RxBufferSize
      invariant RingBuffer.Pending(rx) == pending[i..]
      invariant |window| < PacketWindow.WindowSize && RomeQueue.Valid(out.rome)
      invariant window == PacketWindow.Feed(fw.window, pending[..i]).0
      invariant WellFormed(PacketWindow.Feed(fw.window, pending[..i]).1)
      invariant out == ApplyAll(fw.out, PacketWindow.Feed(fw.window, pending[..i]).1)
      decreases RingBuffer.Count(rx)
    {
      var b := RingBuffer.Front(rx);
      rx := RingBuffer.Advance(rx);
      assert b == pending[i];
      assert pending[..i + 1] == pending[..i] + [b];
      ApplyOneByte(fw.out, fw.window, pending[..i], b);
      var step := PacketWindow.Step(window, b);
      window := step.0;
      if step.1.Some? {
        out := Apply(out, step.1.value);
      }
      i := i + 1;
    }
    assert i == |pending|;
    assert pending[..i] == pending;
    fw' := Firmware(rx, window, out);
  }

  /** One more byte through the window and its packet, if any, applied:
      the loop body of `Process_RX_Buffer` in terms of `Feed` and `ApplyAll`. */
  lemma ApplyOneByte(out: Outputs, w: seq<byte>, prefix: seq<byte>, b: byte)
    requires RomeQueue.Valid(out.rome) && |w| < PacketWindow.WindowSize
    requires WellFormed(PacketWindow.Feed(w, prefix).1)
    ensures var prev := PacketWindow.Feed(w, prefix);
      var step := PacketWindow.Step(prev.0, b);
      var next := PacketWindow.Feed(w, prefix + [b]);
      && next.0 == step.0
      && WellFormed(next.1)
      && (step.1.Some? ==> |next.1| == |prev.1| + 1 && next.1[|prev.1|] == step.1.value)
      && ApplyAll(out, next.1) ==
           (if step.1.Some? then Apply(ApplyAll(out, prev.1), step.1.value) else ApplyAll(out, prev.1))
  {
    var prev := PacketWindow.Feed(w, prefix);
    var step := PacketWindow.Step(prev.0, b);
    PacketWindow.StepCases(prev.0, b);
    assert (prefix + [b])[..|prefix + [b]| - 1] == prefix;
    var next := PacketWindow.Feed(w, prefix + [b]);
    if step.1.Some? {
      assert next.1 == prev.1 + [step.1.value];
      assert next.1[..|next.1| - 1] == prev.1;
    } else {
      assert next.1 == prev.1 + [];
      assert next.1 == prev.1;
    }
  }

  /** `Tx_Raspy`, the main-loop step: process the received bytes, then start
      a ROME transmission if the queue is idle. */
  method TxRaspy(fw: Firmware) returns (fw': Firmware, sent: Option<seq<byte>>)
    requires Valid(fw)
    ensures Valid(fw') && RingBuffer.Pending(fw'.rx) == []
    ensures fw'.window == PacketWindow.Feed(fw.window, RingBuffer.Pending(fw.rx)).0
    ensures var fed := PacketWindow.Feed(fw.window, RingBuffer.Pending(fw.rx));
      && WellFormed(fed.1)
      && var a := ApplyAll(fw.out, fed.1);
      && fw'.out.relayWrites == a.relayWrites
      && (fw'.out.rome, sent) == RomeQueue.StartTransmit(a.rome)
    ensures sent.Some? ==> fw'.out.rome.busy && sent.value == RomeQueue.Pending(fw'.out.rome)[0]
    ensures sent.None? ==> fw'.out.rome.busy || RomeQueue.Pending(fw'.out.rome) == []
  {
    var processed := ProcessRxBuffer(fw);
    var (rome, s) := RomeQueue.StartTransmit(processed.out.rome);
    fw' := processed.(out := processed.out.(rome := rome));
    sent := s;
  }

  /** `Reset_UART_State`: both rings empty and the ROME UART idle. The packet
      window is a static of `Process_RX_Buffer` and is not reset. */
  function ResetUartState(fw: Firmware): (fw': Firmware)
    requires Valid(fw)
    ensures Valid(fw')
    ensures RingBuffer.Pending(fw'.rx) == [] && RomeQueue.Pending(fw'.out.rome) == []
    ensures !fw'.out.rome.busy
    ensures fw'.window == fw.window && fw'.out.relayWrites == fw.out.relayWrites
  {
    Firmware(RingBuffer.Reset(fw.rx), fw.window, Outputs(fw.out.relayWrites, RomeQueue.Reset(fw.out.rome)))
  }
}
