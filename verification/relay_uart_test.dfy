/**
 * The UART test monitor for the relay board's 3-byte output: classification
 * of each packet, packet/error counting, the interval history and the final
 * statistics.
 *
 * Timestamps are the `time.time()` values passed in as exact reals; the
 * console output is left out.
 */
module RelayUartTest {
  import opened Bytes
  import opened Wrappers
  import History
  import RomeControl

  const PacketLength: nat := 3
  /** The interval list keeps at most this many entries. */
  const IntervalCap: nat := 100
  const StatusSync0: byte := 0x99
  const StatusSync1: byte := 0xA5
  const FirstDevice: byte := 1
  const LastDevice: byte := 5

  datatype PacketClass =
    | StatusPacket(value: byte)
    | RomePacket(deviceId: byte, raw: nat, angle: real)
    | UnknownPacket

  /** The 3-byte ROME scale: tenths of a degree. */
  function RomeAngle(raw: int): (angle: real)
    ensures angle * 10.0 == raw as real
  {
    raw as real / 10.0
  }

  /** A full 3-byte packet: `99 A5 v` is a status packet, a first byte 1..5 a
      ROME device word, anything else unknown. */
  function ClassifyPacket(data: seq<byte>): (c: PacketClass)
    requires |data| == PacketLength
    ensures c.StatusPacket? <==> data[0] == StatusSync0 && data[1] == StatusSync1
    ensures c.StatusPacket? ==> c.value == data[2]
    ensures c.RomePacket? <==>
      !(data[0] == StatusSync0 && data[1] == StatusSync1) && FirstDevice <= data[0] <= LastDevice
    ensures c.RomePacket? ==>
      && c.deviceId == data[0]
      && c.raw < 0x1_0000 && c.raw / 256 == data[1] && c.raw % 256 == data[2]
      && c.angle * 10.0 == c.raw as real
    ensures c.UnknownPacket? <==>
      !(data[0] == StatusSync0 && data[1] == StatusSync1) && !(FirstDevice <= data[0] <= LastDevice)
  {
    if data[0] == StatusSync0 && data[1] == StatusSync1 then StatusPacket(data[2])
    else if FirstDevice <= data[0] <= LastDevice then
      var raw := Word16(data[1], data[2]);
      RomePacket(data[0], raw, RomeAngle(raw))
    else UnknownPacket
  }

  /** The 3-byte decoding inverts the manual controller's encoding to within
      its truncation: for devices 1..4 and an angle whose encoding fits 16
      bits, the id/MSB/LSB bytes of the control packet classify as that
      device, and the decoded angle is at most 0.1 degree below the original. */
  lemma RomeScaleInvertsEncoding(deviceId: byte, angle: real)
    requires FirstDevice <= deviceId < LastDevice && 0.0 <= angle
    requires RomeControl.CalculateRawData(deviceId, angle) < 0x1_0000
    ensures var raw := RomeControl.CalculateRawData(deviceId, angle);
      var packet := RomeControl.ControlPacket(deviceId, raw);
      && packet.Success?
      && ClassifyPacket(packet.value[1..]) == RomePacket(deviceId, raw, RomeAngle(raw))
      && RomeAngle(raw) <= angle < RomeAngle(raw) + 0.1
  {
    var raw := RomeControl.CalculateRawData(deviceId, angle);
    var packet := RomeControl.ControlPacket(deviceId, raw);
    var data := packet.value[1..];
    assert |data| == 3 && data[0] == deviceId;
    assert Word16(data[1], data[2]) == raw;
  }

  datatype Stats = Stats(packetCount: nat, errorCount: nat, lastTime: Option<real>, intervals: seq<real>)

  predicate Valid(s: Stats) {
    |s.intervals| <= IntervalCap
  }

  /** One read of up to three bytes at time `now`. The interval since the
      previous read (in milliseconds) is recorded whenever there was a
      previous read, even when this one is short; the read time is always
      kept; a full read is counted and classified, a short one is an error. */
  function OnRead(s: Stats, data: seq<byte>, now: real): (r: (Stats, Option<PacketClass>))
    requires Valid(s) && |data| <= PacketLength
    ensures Valid(r.0)
    ensures r.0.lastTime == Some(now)
    ensures s.lastTime.None? ==> r.0.intervals == s.intervals
    ensures s.lastTime.Some? ==>
      r.0.intervals == History.Newest(s.intervals + [(now - s.lastTime.value) * 1000.0], IntervalCap)
    ensures |data| == PacketLength ==>
      r.0.packetCount == s.packetCount + 1 && r.0.errorCount == s.errorCount
      && r.1 == Some(ClassifyPacket(data))
    ensures |data| < PacketLength ==>
      r.0.packetCount == s.packetCount && r.0.errorCount == s.errorCount + 1 && r.1.None?
  {
    var intervals :=
      if s.lastTime.Some? then
        History.BoundedAppendsAgree(s.intervals, (now - s.lastTime.value) * 1000.0, IntervalCap);
        History.AppendThenTrim(s.intervals, (now - s.lastTime.value) * 1000.0, IntervalCap)
      else s.intervals;
    if |data| == PacketLength then
      (Stats(s.packetCount + 1, s.errorCount, Some(now), intervals), Some(ClassifyPacket(data)))
    else
      (Stats(s.packetCount, s.errorCount + 1, Some(now), intervals), None)
  }

  function Sum(xs: seq<real>): real
    decreases |xs|
  {
    if xs == [] then 0.0 else Sum(xs[..|xs| - 1]) + xs[|xs| - 1]
  }

  /** Python's `min` of a non-empty list. */
  function Min(xs: seq<real>): (m: real)
    requires xs != []
    ensures m in xs && forall k :: 0 <= k < |xs| ==> m <= xs[k]
    decreases |xs|
  {
    if |xs| == 1 then xs[0]
    else
      var m := Min(xs[..|xs| - 1]);
      assert forall k :: 0 <= k < |xs| - 1 ==> xs[..|xs| - 1][k] == xs[k];
      if xs[|xs| - 1] < m then xs[|xs| - 1] else m
  }

  /** Python's `max` of a non-empty list. */
  function Max(xs: seq<real>): (m: real)
    requires xs != []
    ensures m in xs && forall k :: 0 <= k < |xs| ==> xs[k] <= m
    decreases |xs|
  {
    if |xs| == 1 then xs[0]
    else
      var m := Max(xs[..|xs| - 1]);
      assert forall k :: 0 <= k < |xs| - 1 ==> xs[..|xs| - 1][k] == xs[k];
      if xs[|xs| - 1] > m then xs[|xs| - 1] else m
  }

  /** The sum lies between `n` times any lower bound and `n` times any upper
      bound of the elements. */
  lemma {:induction false} SumBetween(xs: seq<real>, lo: real, hi: real)
    requires forall k :: 0 <= k < |xs| ==> lo <= xs[k] <= hi
    ensures |xs| as real * lo <= Sum(xs) <= |xs| as real * hi
    decreases |xs|
  {
    if xs != [] {
      var init := xs[..|xs| - 1];
      assert forall k :: 0 <= k < |init| ==> init[k] == xs[k];
      SumBetween(init, lo, hi);
      assert |xs| as real * lo == |init| as real * lo + lo;
      assert |xs| as real * hi == |init| as real * hi + hi;
    }
  }

  /** Dividing bounds `n * lo <= a <= n * hi` by a positive `n`. */
  lemma DivBetween(n: real, lo: real, a: real, hi: real)
    requires n > 0.0 && n * lo <= a <= n * hi
    ensures lo <= a / n <= hi
  {
    assert a / n - lo == (a - n * lo) / n;
    assert hi - a / n == (n * hi - a) / n;
  }

  /** `sum(xs) / len(xs)` */
  function Average(xs: seq<real>): (avg: real)
    requires xs != []
    ensures avg * |xs| as real == Sum(xs)
  {
    Sum(xs) / |xs| as real
  }

  /** The average of a non-empty list lies between its minimum and maximum. */
  lemma AverageBetween(xs: seq<real>)
    requires xs != []
    ensures Min(xs) <= Average(xs) <= Max(xs)
  {
    var lo, hi := Min(xs), Max(xs);
    SumBetween(xs, lo, hi);
    DivBetween(|xs| as real, lo, Sum(xs), hi);
  }

  /** The success rate `packet_count / (packet_count + error_count) * 100`,
      printed only when some read happened: a percentage of the reads that
      were full packets. */
  function SuccessRate(packets: nat, errors: nat): (r: Option<real>)
    ensures r.Some? <==> packets + errors > 0
    ensures r.Some? ==>
      && 0.0 <= r.value <= 100.0
      && r.value * (packets + errors) as real == packets as real * 100.0
  {
    if packets + errors > 0 then
      var t := (packets + errors) as real;
      var q := packets as real / t;
      DivBetween(t, 0.0, packets as real, 1.0);
      assert q * t == packets as real;
      Some(q * 100.0)
    else None
  }

  /** `1000.0 / avg_interval if avg_interval > 0 else 0`: the rate in Hz of
      an average interval in milliseconds. */
  function Frequency(averageMs: real): (hz: real)
    ensures averageMs > 0.0 ==> hz > 0.0 && hz * averageMs == 1000.0
    ensures averageMs <= 0.0 ==> hz == 0.0
  {
    if averageMs > 0.0 then 1000.0 / averageMs else 0.0
  }

  /** The summary printed on exit. */
  datatype Summary = Summary(
    average: real, minimum: real, maximum: real, frequency: real, successRate: Option<real>)

  /** `calculate_stats`: nothing without intervals; the frequency only when
      the average interval is positive; the success rate only when some read
      happened. */
  function Statistics(s: Stats): (r: Option<Summary>)
    ensures r.Some? <==> |s.intervals| > 0
    ensures r.Some? ==>
      && r.value.minimum == Min(s.intervals) && r.value.maximum == Max(s.intervals)
      && r.value.minimum in s.intervals && r.value.maximum in s.intervals
      && r.value.minimum <= r.value.average <= r.value.maximum
      && r.value.average == Average(s.intervals)
      && r.value.frequency == Frequency(r.value.average)
      && r.value.successRate == SuccessRate(s.packetCount, s.errorCount)
  {
    if |s.intervals| == 0 then None
    else
      var average := Average(s.intervals);
      AverageBetween(s.intervals);
      Some(Summary(average, Min(s.intervals), Max(s.intervals), Frequency(average),
        SuccessRate(s.packetCount, s.errorCount)))
  }
}
