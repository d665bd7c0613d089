/**
 * End-to-end properties across the link: frames built by the simulators,
 * read by the host monitors and by the relay firmware, and the device words
 * the firmware forwards, read back by the UART test monitor.
 */
module RoundTrips {
  import opened Bytes
  import FrameScanner
  import TelemetryCodec
  import PacketWindow
  import RingBuffer
  import RomeQueue
  import Raspi
  import Relay
  import RelayUartTest
  import Simulators

  /** A frame the telemetry simulator builds from five 16-bit values is a
      15-byte frame with zero discretes whose device words are those values. */
  lemma SimulatedFrameShape(values: seq<int>)
    requires |values| == 5 && forall i :: 0 <= i < 5 ==> 0 <= values[i] < 0x1_0000
    ensures var p := Simulators.CreateDevicePacket(values);
      && FrameScanner.IsFrame(p) && p[2] == 0 && p[3] == 0 && p[4] == 0
      && forall i :: 0 <= i < 5 ==> Word16(p[5 + 2 * i], p[6 + 2 * i]) == values[i]
  {
    var p := Simulators.CreateDevicePacket(values);
    assert p[..5] == Simulators.DeviceHeader;
    assert p[0] == p[..5][0] && p[1] == p[..5][1] && p[2] == p[..5][2];
    assert p[3] == p[..5][3] && p[4] == p[..5][4];
    forall i | 0 <= i < 5
      ensures Word16(p[5 + 2 * i], p[6 + 2 * i]) == values[i]
    {
      Simulators.DeviceWordsRoundTrip(values, i);
    }
  }

  /** A simulated telemetry frame sent in one read: the monitor's scanner
      extracts exactly that frame and keeps nothing. */
  lemma MonitorScansSimulatedFrame(values: seq<int>)
    requires |values| == 5 && forall i :: 0 <= i < 5 ==> 0 <= values[i] < 0x1_0000
    ensures var p := Simulators.CreateDevicePacket(values);
      FrameScanner.Feed([], p) == FrameScanner.ScanResult([p], [])
  {
    var p := Simulators.CreateDevicePacket(values);
    SimulatedFrameShape(values);
    FrameScanner.SingleFrameScan(p);
    assert [] + p == p;
  }

  /** Zero discretes read as EADI mode, INS navigation, TNI AU and GPS. */
  lemma ZeroDiscretesDecode(f: seq<byte>)
    requires |f| == FrameScanner.FrameLength && f[3] == 0 && f[4] == 0
    ensures var t := TelemetryCodec.Decode(f);
      && t.mode == TelemetryCodec.EADI && t.navSource == TelemetryCodec.INS
      && t.country == TelemetryCodec.TniAu && t.positioning == TelemetryCodec.GpsFix
  {
    assert f[3] as bv8 == 0 && f[4] as bv8 == 0;
    TelemetryCodec.ModeFromLowBits(0);
    TelemetryCodec.NavFromBits3And2(0);
    TelemetryCodec.CountryFromLowBits(0);
  }

  /** Decoding a simulated frame recovers the five device values, and its
      zero discretes read as EADI mode, INS navigation, TNI AU and GPS. */
  lemma MonitorDecodesSimulatedFrame(values: seq<int>)
    requires |values| == 5 && forall i :: 0 <= i < 5 ==> 0 <= values[i] < 0x1_0000
    ensures var p := Simulators.CreateDevicePacket(values);
      var t := TelemetryCodec.Decode(p);
      && t.raws == values
      && t.mode == TelemetryCodec.EADI && t.navSource == TelemetryCodec.INS
      && t.country == TelemetryCodec.TniAu && t.positioning == TelemetryCodec.GpsFix
  {
    var p := Simulators.CreateDevicePacket(values);
    SimulatedFrameShape(values);
    ZeroDiscretesDecode(p);
    DecodedRaws(p, values);
  }

  /** A frame whose device words are `values` decodes to those raw values. */
  lemma DecodedRaws(f: seq<byte>, values: seq<int>)
    requires |f| == FrameScanner.FrameLength && |values| == 5
    requires forall i :: 0 <= i < 5 ==> Word16(f[5 + 2 * i], f[6 + 2 * i]) == values[i]
    ensures TelemetryCodec.Decode(f).raws == values
  {
    var raws := TelemetryCodec.Decode(f).raws;
    forall i | 0 <= i < 5
      ensures raws[i] == values[i]
    {
      assert Word16(f[5 + 2 * i], f[6 + 2 * i]) == values[i];
    }
  }

  /** The same frame reaching the relay firmware is dispatched as one data
      packet; its relay mask is 0 and device `i + 1` is forwarded the two
      bytes of value `i`, which the 3-byte monitor reads back as that value
      and a tenth of it in degrees. */
  lemma FirmwareForwardsSimulatedFrame(values: seq<int>, i: nat)
    requires |values| == 5 && forall k :: 0 <= k < 5 ==> 0 <= values[k] < 0x1_0000
    requires i < 5
    ensures var p := Simulators.CreateDevicePacket(values);
      && PacketWindow.Feed([], p) == ([], [PacketWindow.Data(p)])
      && Raspi.DataMask(p) == 0
      && Raspi.DevicePackets(p)[i] == RomeQueue.RomePacket(i + 1, Msb(values[i]), Lsb(values[i]))
      && RelayUartTest.ClassifyPacket(Raspi.DevicePackets(p)[i][1..])
         == RelayUartTest.RomePacket(i + 1, values[i], RelayUartTest.RomeAngle(values[i]))
  {
    var p := Simulators.CreateDevicePacket(values);
    SimulatedFrameShape(values);
    PacketWindow.FrameDispatched(p);
    var pkt := Raspi.DevicePackets(p)[i];
    assert pkt[1..] == [i + 1, p[5 + 2 * i], p[6 + 2 * i]];
  }

  /** A relay-control frame makes the firmware write the mask
      `a | b << 8 | c << 16` and queue `[0xBB, i, 0, 0]` for every device. */
  lemma FirmwareAppliesRelayFrame(a: byte, b: byte, c: byte)
    ensures var p := Simulators.CreateRelayPacket(a, b, c);
      && PacketWindow.Feed([], p) == ([], [PacketWindow.Data(p)])
      && Raspi.DataMask(p) == (a as bv32) | (b as bv32 << 8) | (c as bv32 << 16)
      && forall i :: 0 <= i < 5 ==> Raspi.DevicePackets(p)[i] == RomeQueue.RomePacket(i + 1, 0, 0)
  {
    var p := Simulators.CreateRelayPacket(a, b, c);
    assert p[..5] == [Simulators.Sync0, Simulators.Sync1, a, b, c];
    assert p[0] == 0xA5 && p[1] == 0x99 && p[2] == a && p[3] == b && p[4] == c;
    PacketWindow.FrameDispatched(p);
  }

  /** Command `1` sets the pins of exactly the even mask bits (relays 1, 3,
      5, ... 23): the mask is 0x555555. Command `0` writes mask 0, resetting
      every relay pin. */
  lemma CommandsDriveRelays()
    ensures var p := Simulators.CommandAction("1").packet;
      Raspi.DataMask(p) == 0x55_5555
    ensures var p := Simulators.CommandAction("0").packet;
      Raspi.DataMask(p) == 0
    ensures forall k: bv32 :: k < 24 ==> (Relay.Bit(0x55_5555, k) <==> k % 2 == 0)
  {
    CommandOneMask();
    CommandZeroMask();
    AlternateRelays();
  }

  lemma CommandOneMask()
    ensures Raspi.DataMask(Simulators.CommandAction("1").packet) == 0x55_5555
  {
    var p := Simulators.CreateRelayPacket(0x55, 0x55, 0x55);
    assert Simulators.CommandAction("1").packet == p;
    FirmwareAppliesRelayFrame(0x55, 0x55, 0x55);
    assert (0x55 as bv32) | (0x55 as bv32 << 8) | (0x55 as bv32 << 16) == 0x55_5555;
  }

  lemma CommandZeroMask()
    ensures Raspi.DataMask(Simulators.CommandAction("0").packet) == 0
  {
    var p := Simulators.CreateRelayPacket(0, 0, 0);
    assert Simulators.CommandAction("0").packet == p;
    FirmwareAppliesRelayFrame(0, 0, 0);
    assert (0 as bv32) | (0 as bv32 << 8) | (0 as bv32 << 16) == 0;
  }

  /** The bits of 0x555555 alternate, starting set at bit 0. */
  lemma AlternateRelays()
    ensures forall k: bv32 :: k < 24 ==> (Relay.Bit(0x55_5555, k) <==> k % 2 == 0)
  {
    forall k: bv32 | k < 24
      ensures Relay.Bit(0x55_5555, k) <==> k % 2 == 0
    {
      AlternateBit(k);
    }
  }

  lemma AlternateBit(k: bv32)
    requires k < 24
    ensures Relay.Bit(0x55_5555, k) <==> k % 2 == 0
  {
  }

  /** A data frame applied to outputs whose ROME queue has room for all five
      device packets: one relay write, and the five packets queued in device
      order behind those already waiting. */
  lemma DataFrameApplied(out: Raspi.Outputs, f: seq<byte>)
    requires RomeQueue.Valid(out.rome) && FrameScanner.IsFrame(f)
    requires |RomeQueue.Pending(out.rome)| <= RomeQueue.QueueSize - 1 - Raspi.DeviceCount
    ensures Raspi.WellFormed([PacketWindow.Data(f)])
    ensures var out' := Raspi.ApplyAll(out, [PacketWindow.Data(f)]);
      && out'.relayWrites == out.relayWrites + [Raspi.DataMask(f)]
      && RomeQueue.Pending(out'.rome) == RomeQueue.Pending(out.rome) + Raspi.DevicePackets(f)
  {
    var ds := [PacketWindow.Data(f)];
    assert ds[..0] == [];
    assert Raspi.ApplyAll(out, ds) == Raspi.Apply(out, PacketWindow.Data(f));
    var ps := Raspi.DevicePackets(f);
    assert ps[..Raspi.DeviceCount] == ps;
  }

  /** The whole firmware path for one simulated frame: received into an
      empty ring by the interrupt and drained by the main loop from an empty
      window, it writes mask 0 to the relays and, with room in the ROME
      queue, queues the five device packets behind whatever was waiting. */
  method FirmwareEndToEnd(fw: Raspi.Firmware, values: seq<int>) returns (fw': Raspi.Firmware)
    requires Raspi.Valid(fw) && RingBuffer.Pending(fw.rx) == [] && fw.window == []
    requires |RomeQueue.Pending(fw.out.rome)| <= RomeQueue.QueueSize - 1 - Raspi.DeviceCount
    requires |values| == 5 && forall k :: 0 <= k < 5 ==> 0 <= values[k] < 0x1_0000
    ensures Raspi.Valid(fw')
    ensures fw'.window == [] && RingBuffer.Pending(fw'.rx) == []
    ensures fw'.out.relayWrites == fw.out.relayWrites + [0]
    ensures RomeQueue.Pending(fw'.out.rome) ==
      RomeQueue.Pending(fw.out.rome) + Raspi.DevicePackets(Simulators.CreateDevicePacket(values))
  {
    var p := Simulators.CreateDevicePacket(values);
    var received := Raspi.ReceiveAll(fw, p);
    Raspi.ReceiveAllKeepsPrefix(fw, p);
    assert p[..|p|] == p;
    assert RingBuffer.Pending(received.rx) == p;
    FirmwareForwardsSimulatedFrame(values, 0);
    SimulatedFrameShape(values);
    DataFrameApplied(fw.out, p);
    fw' := Raspi.ProcessRxBuffer(received);
  }
}
