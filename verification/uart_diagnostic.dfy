/**
 * The stuck detector of the UART diagnostic tool. Each iteration of its loop
 * checks for a stall, reads one 3-byte packet when enough bytes wait, and
 * once per interval computes the packet rate.
 *
 * Timestamps are the `time.time()` values the loop reads, passed in as
 * exact reals; the console output is left out, the classifications it prints
 * are returned instead.
 */
module UartDiagnostic {
  import opened Bytes
  import opened Wrappers
  import History

  /** `STUCK_TIMEOUT`, in seconds. */
  const StuckTimeout: real := 5.0
  /** `MIN_RATE_WARNING`, in Hz. */
  const MinRateWarning: real := 50.0
  /** `RATE_CHECK_INTERVAL`, in seconds. */
  const RateCheckInterval: real := 1.0
  /** `maxlen` of `packet_times`. */
  const PacketTimesCap: nat := 1000
  const PacketLength: nat := 3

  /** The possible cause printed first, by how many packets arrived before the stall. */
  datatype StuckCause =
    | UartNotInitialised
    | EarlyCrash
    | CallbackLogicError
    | UartErrorUnhandled
    | LongTermStability

  /** The bucket boundaries, ascending. */
  const Thresholds: seq<int> := [100, 1000, 10000, 100000]

  /** Position of a cause in the bucket order. */
  function CauseRank(c: StuckCause): nat {
    match c
    case UartNotInitialised => 0
    case EarlyCrash => 1
    case CallbackLogicError => 2
    case UartErrorUnhandled => 3
    case LongTermStability => 4
  }

  /** How many of the boundaries `total` has reached. */
  function Reached(total: int, ts: seq<int>): (n: nat)
    ensures n <= |ts|
  {
    if ts == [] then 0 else (if ts[0] <= total then 1 else 0) + Reached(total, ts[1..])
  }

  /** `Reached` on the four boundaries, one by one. */
  lemma ThresholdsUnfold(total: int)
    ensures Reached(total, Thresholds) ==
      (if 100 <= total then 1 else 0) + (if 1000 <= total then 1 else 0)
      + (if 10000 <= total then 1 else 0) + (if 100000 <= total then 1 else 0)
  {
    var t4: seq<int> := [100000];
    var t3 := [10000] + t4;
    var t2 := [1000] + t3;
    assert Thresholds == [100] + t2;
    assert Reached(total, t4) == (if 100000 <= total then 1 else 0) by {
      assert t4[1..] == [];
    }
    assert t3[1..] == t4 && t2[1..] == t3 && Thresholds[1..] == t2;
    assert Reached(total, t3) == (if 10000 <= total then 1 else 0) + Reached(total, t4);
    assert Reached(total, t2) == (if 1000 <= total then 1 else 0) + Reached(total, t3);
    assert Reached(total, Thresholds) == (if 100 <= total then 1 else 0) + Reached(total, t2);
  }

  /** The `if total_packets < 100 ... elif ... else` chain of `analyze_stuck_cause`. */
  function ClassifyStuckCause(total: int): (c: StuckCause)
    ensures CauseRank(c) == Reached(total, Thresholds)
  {
    ThresholdsUnfold(total);
    if total < 100 then UartNotInitialised
    else if total < 1000 then EarlyCrash
    else if total < 10000 then CallbackLogicError
    else if total < 100000 then UartErrorUnhandled
    else LongTermStability
  }

  /** More packets before the stall never moves the diagnosis to an earlier bucket. */
  lemma {:induction false} ReachedMonotone(total: int, total': int, ts: seq<int>)
    requires total <= total'
    ensures Reached(total, ts) <= Reached(total', ts)
  {
    if ts != [] {
      ReachedMonotone(total, total', ts[1..]);
    }
  }

  lemma StuckCauseMonotone(total: int, total': int)
    requires total <= total'
    ensures CauseRank(ClassifyStuckCause(total)) <= CauseRank(ClassifyStuckCause(total'))
  {
    ReachedMonotone(total, total', Thresholds);
  }

  /** The average rate before a stall: the number of recorded times over
      the span they cover, or 0 when there are fewer than two or the span is
      not positive. */
  function AverageRate(times: seq<real>): (rate: real)
    ensures rate > 0.0 <==> |times| > 1 && times[|times| - 1] - times[0] > 0.0
    ensures rate > 0.0 ==> rate * (times[|times| - 1] - times[0]) == |times| as real
    ensures rate <= 0.0 ==> rate == 0.0
  {
    if |times| > 1 then
      var span := times[|times| - 1] - times[0];
      if span > 0.0 then |times| as real / span else 0.0
    else 0.0
  }

  datatype Diagnostic = Diagnostic(
    totalPackets: nat,
    sinceLastCheck: nat,
    lastPacketTime: Option<real>,
    packetTimes: seq<real>,
    lastRateCheck: real)

  predicate Valid(d: Diagnostic) {
    |d.packetTimes| <= PacketTimesCap
  }

  /** The start state after connecting at time `start`. */
  function Start(start: real): (d: Diagnostic)
    ensures Valid(d) && d.totalPackets == 0 && d.lastPacketTime.None?
  {
    Diagnostic(0, 0, None, [], start)
  }

  /** What a stall report prints. */
  datatype StuckReport = StuckReport(
    timeSinceLast: real, totalPackets: nat, averageRate: real, cause: StuckCause)

  /** The stall check: report when a packet time is known and at least
      `STUCK_TIMEOUT` seconds have passed since it, then forget that time. */
  function CheckStuck(d: Diagnostic, now: real): (r: (Diagnostic, Option<StuckReport>))
    ensures r.1.Some? <==> d.lastPacketTime.Some? && now - d.lastPacketTime.value >= StuckTimeout
    ensures r.1.Some? ==>
      && r.0 == d.(lastPacketTime := None)
      && r.1.value.timeSinceLast >= StuckTimeout
      && r.1.value.totalPackets == d.totalPackets
      && r.1.value.cause == ClassifyStuckCause(d.totalPackets)
      && r.1.value.averageRate == AverageRate(d.packetTimes)
    ensures r.1.None? ==> r.0 == d
  {
    match d.lastPacketTime
    case None => (d, None)
    case Some(last) =>
      var since := now - last;
      if since >= StuckTimeout then
        (d.(lastPacketTime := None),
         Some(StuckReport(since, d.totalPackets, AverageRate(d.packetTimes), ClassifyStuckCause(d.totalPackets))))
      else (d, None)
  }

  /** One read of up to three bytes: a complete packet is counted and its
      arrival time recorded; a short read changes nothing. */
  function OnRead(d: Diagnostic, data: seq<byte>, now: real): (d': Diagnostic)
    requires Valid(d)
    ensures Valid(d')
    ensures |data| == PacketLength ==>
      && d'.totalPackets == d.totalPackets + 1
      && d'.sinceLastCheck == d.sinceLastCheck + 1
      && d'.lastPacketTime == Some(now)
      && d'.packetTimes == History.Newest(d.packetTimes + [now], PacketTimesCap)
      && d'.lastRateCheck == d.lastRateCheck
    ensures |data| != PacketLength ==> d' == d
  {
    if |data| == PacketLength then
      History.BoundedAppendsAgree(d.packetTimes, now, PacketTimesCap);
      Diagnostic(d.totalPackets + 1, d.sinceLastCheck + 1, Some(now),
        History.DequeAppend(d.packetTimes, now, PacketTimesCap), d.lastRateCheck)
    else d
  }

  datatype RateStatus = NoPackets | LowRate | RateOk

  /** The status printed for a rate. */
  function ClassifyRate(rate: real): (s: RateStatus)
    ensures s == NoPackets <==> rate == 0.0
    ensures s == LowRate <==> rate != 0.0 && rate < MinRateWarning
    ensures s == RateOk <==> rate >= MinRateWarning
  {
    if rate == 0.0 then NoPackets
    else if rate < MinRateWarning then LowRate
    else RateOk
  }

  /** The periodic rate check: once `RATE_CHECK_INTERVAL` has passed, the
      packets counted since the last check over the interval is the rate,
      and the count starts again. */
  function CheckRate(d: Diagnostic, now: real): (r: (Diagnostic, Option<(real, RateStatus)>))
    ensures r.1.Some? <==> now - d.lastRateCheck >= RateCheckInterval
    ensures r.1.Some? ==>
      && r.1.value.0 * RateCheckInterval == d.sinceLastCheck as real
      && r.1.value.1 == ClassifyRate(r.1.value.0)
      && r.0 == d.(sinceLastCheck := 0, lastRateCheck := now)
    ensures r.1.None? ==> r.0 == d
  {
    if now - d.lastRateCheck >= RateCheckInterval then
      var rate := d.sinceLastCheck as real / RateCheckInterval;
      (d.(sinceLastCheck := 0, lastRateCheck := now), Some((rate, ClassifyRate(rate))))
    else (d, None)
  }

  /** One pass of the monitoring loop at `now`: the stall check, the read
      (`read` is `None` when fewer than three bytes wait, otherwise what
      `ser.read(3)` returned at `readTime`), and the rate check. */
  function Iteration(d: Diagnostic, now: real, read: Option<seq<byte>>, readTime: real)
    : (r: (Diagnostic, Option<StuckReport>, Option<(real, RateStatus)>))
    requires Valid(d)
    ensures Valid(r.0)
    ensures r.0.totalPackets ==
      d.totalPackets + (if read.Some? && |read.value| == PacketLength then 1 else 0)
  {
    var (d1, stuck) := CheckStuck(d, now);
    var d2 := if read.Some? then OnRead(d1, read.value, readTime) else d1;
    var (d3, rate) := CheckRate(d2, now);
    (d3, stuck, rate)
  }

  /** One pass of the loop: the time it starts and what it read, if anything. */
  datatype Pass = Pass(now: real, read: Option<seq<byte>>, readTime: real)

  /** The pass read no complete packet. */
  predicate ShortRead(p: Pass) {
    p.read.None? || |p.read.value| != PacketLength
  }

  /** The state after the passes, in order. */
  function Run(d: Diagnostic, ps: seq<Pass>): (d': Diagnostic)
    requires Valid(d)
    ensures Valid(d')
    decreases |ps|
  {
    if ps == [] then d
    else
      var p := ps[|ps| - 1];
      Iteration(Run(d, ps[..|ps| - 1]), p.now, p.read, p.readTime).0
  }

  /** Without a known packet time, passes that read no complete packet keep
      it unknown. */
  lemma {:induction false} QuietPassesForget(d: Diagnostic, ps: seq<Pass>)
    requires Valid(d) && d.lastPacketTime.None?
    requires forall k :: 0 <= k < |ps| ==> ShortRead(ps[k])
    ensures Run(d, ps).lastPacketTime.None?
    decreases |ps|
  {
    if ps != [] {
      QuietPassesForget(d, ps[..|ps| - 1]);
    }
  }

  /** A stall is reported once: after a report, no later pass reports again
      until a complete packet has been read. */
  lemma StallReportedOnce(d: Diagnostic, first: Pass, later: seq<Pass>)
    requires Valid(d)
    requires Iteration(d, first.now, first.read, first.readTime).1.Some?
    requires ShortRead(first)
    requires forall k :: 0 <= k < |later| ==> ShortRead(later[k])
    ensures forall k :: 0 <= k < |later| ==>
      var before := Run(Iteration(d, first.now, first.read, first.readTime).0, later[..k]);
      Iteration(before, later[k].now, later[k].read, later[k].readTime).1.None?
  {
    var d1 := Iteration(d, first.now, first.read, first.readTime).0;
    forall k | 0 <= k < |later|
      ensures Iteration(Run(d1, later[..k]), later[k].now, later[k].read, later[k].readTime).1.None?
    {
      QuietPassesForget(d1, later[..k]);
    }
  }

  /** A stall is reported once the timeout has passed since the last packet,
      whatever happened in between without packets. */
  lemma StallDetectedAfterTimeout(d: Diagnostic, now: real, read: Option<seq<byte>>, readTime: real)
    requires Valid(d) && d.lastPacketTime.Some?
    requires now >= d.lastPacketTime.value + StuckTimeout
    ensures Iteration(d, now, read, readTime).1 ==
      Some(StuckReport(now - d.lastPacketTime.value, d.totalPackets,
        AverageRate(d.packetTimes), ClassifyStuckCause(d.totalPackets)))
  {
  }

  /** The worked example: 5000 packets before a stall point at the callback
      logic, and each boundary opens the next bucket. */
  lemma StuckCauseExamples()
    ensures ClassifyStuckCause(5000) == CallbackLogicError
    ensures ClassifyStuckCause(99) == UartNotInitialised && ClassifyStuckCause(100) == EarlyCrash
    ensures ClassifyStuckCause(99999) == UartErrorUnhandled && ClassifyStuckCause(100000) == LongTermStability
  {
  }
}
