/**
 * The manual ROME controller: encoding an operator's angle into the 16-bit
 * value a ROME device expects, packing it as `[0xBB, id, MSB, LSB]`, the
 * interactive calibration that finds the zero offset, and auto-rotation.
 *
 * Angles are exact reals; Python's `int()` truncates toward zero.
 */
module RomeControl {
  import opened Bytes
  import opened Wrappers

  const ControlHeader: byte := 0xBB
  /** The device whose encoding is offset by 179.9 degrees (EHSI relative course). */
  const RelativeCourseDevice: int := 5

  /** Python's `int(x)` on a float: truncation toward zero. */
  function Trunc(x: real): (r: int)
    ensures x >= 0.0 ==> 0 <= r && r as real <= x < r as real + 1.0
    ensures x < 0.0 ==> r <= 0 && r as real - 1.0 < x <= r as real
  {
    if x >= 0.0 then x.Floor else -((-x).Floor)
  }

  /** `calculate_raw_data`: device 5 sends `int((angle + 179.9) * 10)` with a
      negative result folded into 16 bits; every other id sends
      `int(angle * 10)` unmasked, so it may be negative or exceed 65535. */
  function CalculateRawData(deviceId: int, angle: real): (r: int)
    ensures deviceId != RelativeCourseDevice ==> r == Trunc(angle * 10.0)
    ensures deviceId == RelativeCourseDevice ==>
      && r >= 0
      && r % 0x1_0000 == Trunc((angle + 179.9) * 10.0) % 0x1_0000
      && (Trunc((angle + 179.9) * 10.0) >= 0 ==> r == Trunc((angle + 179.9) * 10.0))
      && (Trunc((angle + 179.9) * 10.0) < 0 ==> r == Trunc((angle + 179.9) * 10.0) % 0x1_0000 && r < 0x1_0000)
      && (-0x1_0000 <= Trunc((angle + 179.9) * 10.0) < 0 ==> r == Trunc((angle + 179.9) * 10.0) + 0x1_0000)
  {
    if deviceId == RelativeCourseDevice then
      var v := Trunc((angle + 179.9) * 10.0);
      if v < 0 then v % 0x1_0000 else v
    else
      Trunc(angle * 10.0)
  }

  /** The worked values: 36 degrees on device 1 is 360 (0x0168), 0 degrees
      is 0; on device 5, 0 degrees is 1799 and -180 degrees wraps -1 to 0xFFFF;
      truncation (not rounding) sends 12.39 degrees on device 1 as 123. */
  lemma EncodingExamples()
    ensures CalculateRawData(1, 36.0) == 360 && CalculateRawData(1, 0.0) == 0
    ensures CalculateRawData(5, 0.0) == 1799
    ensures CalculateRawData(5, -180.0) == 0xFFFF
    ensures CalculateRawData(1, 12.39) == 123 && CalculateRawData(2, -0.05) == 0
  {
    assert (0.0 + 179.9) * 10.0 == 1799.0;
    assert (-180.0 + 179.9) * 10.0 == -1.0;
    assert 12.39 * 10.0 == 123.9;
    assert -0.05 * 10.0 == -0.5;
  }

  datatype PackError = DeviceIdNotAByte

  /** `bytearray([0xBB, device_id, (raw >> 8) & 0xFF, raw & 0xFF])`; building
      the bytearray raises `ValueError` for an id outside 0..255. */
  function ControlPacket(deviceId: int, raw: int): (r: Result<seq<byte>, PackError>)
    ensures r.Success? <==> 0 <= deviceId < 256
    ensures r.Success? ==>
      && |r.value| == 4
      && r.value[0] == ControlHeader
      && r.value[1] == deviceId
      && Word16(r.value[2], r.value[3]) == raw % 0x1_0000
  {
    if 0 <= deviceId < 256 then
      WordOfSplit(raw);
      Success([ControlHeader, deviceId, Msb(raw), Lsb(raw)])
    else
      Failure(DeviceIdNotAByte)
  }

  /** A typed angle: encode it for the device and build the packet. */
  function EncodeCommand(deviceId: int, angle: real): (r: Result<seq<byte>, PackError>)
    ensures r.Success? <==> 0 <= deviceId < 256
    ensures r.Success? ==>
      && |r.value| == 4
      && r.value[0] == ControlHeader
      && r.value[1] == deviceId
      && Word16(r.value[2], r.value[3]) == CalculateRawData(deviceId, angle) % 0x1_0000
  {
    ControlPacket(deviceId, CalculateRawData(deviceId, angle))
  }

  /** The firmware offset `(65536 - raw) & 0xFFFF` that makes the raw value
      sent at the physical zero read as 0. */
  function OffsetNeeded(raw: int): (r: int)
    ensures 0 <= r < 0x1_0000
    ensures (raw + r) % 0x1_0000 == 0
  {
    (0x1_0000 - raw) % 0x1_0000
  }

  /** The offset is the only 16-bit value that cancels `raw` modulo 65536. */
  lemma OffsetUnique(raw: int, o: int)
    requires 0 <= o < 0x1_0000 && (raw + o) % 0x1_0000 == 0
    ensures o == OffsetNeeded(raw)
  {
    var r := OffsetNeeded(raw);
    assert (o - r) % 0x1_0000 == 0 by {
      assert o - r == (raw + o) - (raw + r);
    }
  }

  /** The angle change of one calibration key: w/s are +/-10, d/a +/-1,
      e/q +/-0.1, anything else 0. */
  function CalibDelta(key: string): real {
    if key == "w" then 10.0
    else if key == "s" then -10.0
    else if key == "d" then 1.0
    else if key == "a" then -1.0
    else if key == "e" then 0.1
    else if key == "q" then -0.1
    else 0.0
  }

  /** One calibration adjustment: add the key's delta, then the two wrap
      tests (subtract 360 once, add 360 once). A start in [0, 360) stays there,
      so 0.0 then `q` gives 359.9 and 355.0 then `w` gives 5.0. */
  function CalibStep(angle: real, key: string): (r: real)
    ensures 0.0 <= angle < 360.0 ==> 0.0 <= r < 360.0
    ensures 0.0 <= angle < 360.0 && 0.0 <= angle + CalibDelta(key) < 360.0 ==> r == angle + CalibDelta(key)
    ensures r == angle + CalibDelta(key) || r == angle + CalibDelta(key) - 360.0 || r == angle + CalibDelta(key) + 360.0
  {
    var a := angle + CalibDelta(key);
    var a' := if a >= 360.0 then a - 360.0 else a;
    if a' < 0.0 then a' + 360.0 else a'
  }

  /** The wrap cases: stepping below 0 or past 360 comes back in range. */
  lemma CalibWrapExamples()
    ensures CalibStep(0.0, "q") == 359.9
    ensures CalibStep(355.0, "w") == 5.0
  {
  }

  /** The calibration angle after the keys, starting from 0.0. */
  function CalibAngle(keys: seq<string>): (r: real)
    ensures 0.0 <= r < 360.0
  {
    if keys == [] then 0.0 else CalibStep(CalibAngle(keys[..|keys| - 1]), keys[|keys| - 1])
  }

  /** During calibration the raw value always fits 16 bits (device 5 sends
      1799..5398, the others 0..3599), so the offset identity applies to it. */
  lemma CalibrationRawInRange(deviceId: int, angle: real)
    requires 0.0 <= angle < 360.0
    ensures 0 <= CalculateRawData(deviceId, angle) < 0x1_0000
  {
  }

  datatype CalibrationError = PacketRejected | InputEnded

  /** What a finished calibration reports: every packet written, the raw
      value of the last one, and the offset to compile into the firmware. */
  datatype Calibration = Calibration(packets: seq<seq<byte>>, rawSent: int, offset: int)

  /** Packet `k` is the one built for the angle reached after the first `k` keys. */
  predicate SentInOrder(deviceId: int, keys: seq<string>, packets: seq<seq<byte>>) {
    && |packets| <= |keys| + 1
    && forall k :: 0 <= k < |packets| ==>
         ControlPacket(deviceId, CalculateRawData(deviceId, CalibAngle(keys[..k]))) == Success(packets[k])
  }

  /** The calibration loop: send the packet for the current angle, read a
      key, stop on an empty line, otherwise adjust and wrap. `keys` are the
      operator's lines in order; running out of them is `InputEnded`. */
  method Calibrate(deviceId: int, keys: seq<string>) returns (r: Result<Calibration, CalibrationError>)
    ensures r == Failure(PacketRejected) <==> !(0 <= deviceId < 256)
    ensures 0 <= deviceId < 256 && (forall k :: 0 <= k < |keys| ==> keys[k] != "") ==> r == Failure(InputEnded)
    ensures 0 <= deviceId < 256 && (exists k :: 0 <= k < |keys| && keys[k] == "") ==> r.Success?
    ensures r.Success? ==> SentInOrder(deviceId, keys, r.value.packets)
    ensures r.Success? ==>
      && 1 <= |r.value.packets| <= |keys|
      && keys[|r.value.packets| - 1] == ""
      && (forall k :: 0 <= k < |r.value.packets| - 1 ==> keys[k] != "")
    ensures r.Success? ==>
      && r.value.rawSent == CalculateRawData(deviceId, CalibAngle(keys[..|r.value.packets| - 1]))
      && 0 <= r.value.rawSent < 0x1_0000
      && r.value.offset == OffsetNeeded(r.value.rawSent)
  {
    var angle := 0.0;
    var packets: seq<seq<byte>> := [];
    var i := 0;
    while true
      invariant 0 <= i <= |keys|
      invariant |packets| == i
      invariant angle == CalibAngle(keys[..i])
      invariant forall k :: 0 <= k < i ==> keys[k] != ""
      invariant SentInOrder(deviceId, keys, packets)
      invariant i > 0 ==> 0 <= deviceId < 256
      decreases |keys| - i
    {
      var raw := CalculateRawData(deviceId, angle);
      var packet := ControlPacket(deviceId, raw);
      if packet.Failure? {
        return Failure(PacketRejected);
      }
      SentInOrderExtend(deviceId, keys, packets, packet.value);
      packets := packets + [packet.value];
      if i == |keys| {
        assert !exists k :: 0 <= k < |keys| && keys[k] == "";
        return Failure(InputEnded);
      }
      var key := keys[i];
      if key == "" {
        CalibrationRawInRange(deviceId, angle);
        return Success(Calibration(packets, raw, OffsetNeeded(raw)));
      }
      assert keys[..i + 1][..i] == keys[..i];
      angle := CalibStep(angle, key);
      i := i + 1;
    }
  }

  /** The packet for the angle after the first `|packets|` keys continues the record. */
  lemma SentInOrderExtend(deviceId: int, keys: seq<string>, packets: seq<seq<byte>>, p: seq<byte>)
    requires |packets| <= |keys| && SentInOrder(deviceId, keys, packets)
    requires ControlPacket(deviceId, CalculateRawData(deviceId, CalibAngle(keys[..|packets|]))) == Success(p)
    ensures SentInOrder(deviceId, keys, packets + [p])
  {
    var ps := packets + [p];
    forall k | 0 <= k < |ps|
      ensures ControlPacket(deviceId, CalculateRawData(deviceId, CalibAngle(keys[..k]))) == Success(ps[k])
    {
      if k < |packets| {
        assert ps[k] == packets[k];
      }
    }
  }

  /** The last packet of a calibration carries exactly the raw value the
      offset was computed from. */
  lemma CalibrationOffsetFromLastPacket(deviceId: int, keys: seq<string>, c: Calibration)
    requires 1 <= |c.packets| <= |keys| + 1
    requires SentInOrder(deviceId, keys, c.packets)
    requires c.rawSent == CalculateRawData(deviceId, CalibAngle(keys[..|c.packets| - 1]))
    requires 0 <= c.rawSent < 0x1_0000
    ensures |c.packets[|c.packets| - 1]| == 4
    ensures Word16(c.packets[|c.packets| - 1][2], c.packets[|c.packets| - 1][3]) == c.rawSent
  {
    var n := |c.packets| - 1;
    assert ControlPacket(deviceId, c.rawSent) == Success(c.packets[n]);
    PacketCarriesRaw(deviceId, c.rawSent, c.packets[n]);
  }

  /** A built packet carries a 16-bit raw value unchanged in its last two bytes. */
  lemma PacketCarriesRaw(deviceId: int, raw: int, packet: seq<byte>)
    requires ControlPacket(deviceId, raw) == Success(packet) && 0 <= raw < 0x1_0000
    ensures |packet| == 4 && Word16(packet[2], packet[3]) == raw
  {
    assert ControlPacket(deviceId, raw).value == packet;
    assert raw % 0x1_0000 == raw;
  }

  /** One auto-rotate increment: add the step, subtract 360 at most once. */
  function AutoStep(angle: real, step: real): (r: real)
    ensures 0.0 <= angle < 360.0 && 0.0 <= step < 360.0 ==> 0.0 <= r < 360.0
    ensures r == angle + step || r == angle + step - 360.0
  {
    var a := angle + step;
    if a >= 360.0 then a - 360.0 else a
  }

  /** The angle of the `n`-th auto-rotate packet (the first is sent at 0.0). */
  function AutoRotateAngle(step: real, n: nat): (r: real)
    ensures 0.0 <= step < 360.0 ==> 0.0 <= r < 360.0
  {
    if n == 0 then 0.0 else AutoStep(AutoRotateAngle(step, n - 1), step)
  }

  /** With a step in [0, 360) every auto-rotate packet carries a raw value
      that fits 16 bits, so no auto-rotate packet is truncated by packing. */
  lemma AutoRotateRawInRange(deviceId: int, step: real, n: nat)
    requires 0.0 <= step < 360.0
    ensures 0 <= CalculateRawData(deviceId, AutoRotateAngle(step, n)) < 0x1_0000
  {
    CalibrationRawInRange(deviceId, AutoRotateAngle(step, n));
  }
}
