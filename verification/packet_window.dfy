/**
 * The firmware's packet recogniser in `Process_RX_Buffer`: a 20-byte window
 * (`pkt_buf` with `pkt_idx` bytes in use) fed one byte at a time.
 *
 * After each byte the window is tested, in this order, for a status packet
 * `99 A5 v` (at least 3 bytes), a data packet `A5 99` + 13 bytes (at least
 * 15 bytes), and, once it holds 20 bytes without either, a resynchronisation
 * that shifts it to the first later header pair in either byte order.
 */
module PacketWindow {
  import opened Bytes
  import opened Wrappers
  import FrameScanner

  /** `sizeof(pkt_buf)` */
  const WindowSize: nat := 20
  const StatusLength: nat := 3
  const StatusSync0: byte := 0x99
  const StatusSync1: byte := 0xA5

  /** What one byte makes the firmware do besides updating the window. */
  datatype Dispatch =
    | Status(value: byte)
    | Data(frame: seq<byte>)

  /** A header pair in either order, `99 A5` or `A5 99`, starts at `i`. */
  predicate PairAt(w: seq<byte>, i: int) {
    0 <= i < |w| - 1
    && ((w[i] == StatusSync0 && w[i + 1] == StatusSync1)
        || (w[i] == FrameScanner.Sync0 && w[i + 1] == FrameScanner.Sync1))
  }

  predicate StartsStatus(w: seq<byte>) {
    |w| >= StatusLength && w[0] == StatusSync0 && w[1] == StatusSync1
  }

  predicate StartsData(w: seq<byte>) {
    |w| >= FrameScanner.FrameLength && w[0] == FrameScanner.Sync0 && w[1] == FrameScanner.Sync1
  }

  /** The shift loop `for (i = 1; i < pkt_idx - 1; i++)` from `from`: the
      first index where a pair in either order starts. */
  function FirstPair(w: seq<byte>, from: nat): (r: Option<nat>)
    requires from <= |w|
    decreases |w| - from
    ensures r.Some? ==> from <= r.value < |w| - 1 && PairAt(w, r.value)
    ensures r.Some? ==> forall j :: from <= j < r.value ==> !PairAt(w, j)
    ensures r.None? ==> forall j :: from <= j ==> !PairAt(w, j)
  {
    if from + 1 >= |w| then None
    else if PairAt(w, from) then Some(from)
    else FirstPair(w, from + 1)
  }

  /** The sliding-window step on a full window: keep the bytes from the first
      pair at index 1 or later, or clear the window when there is none. */
  function Resync(w: seq<byte>): (w': seq<byte>)
    requires |w| >= 1
    ensures |w'| < |w|
    ensures w' == [] || (PairAt(w', 0) && w' == w[|w| - |w'|..])
    ensures w' != [] ==> forall j :: 1 <= j < |w| - |w'| ==> !PairAt(w, j)
    ensures w' == [] <==> forall j :: 1 <= j ==> !PairAt(w, j)
  {
    match FirstPair(w, 1)
    case None => []
    case Some(i) => w[i..]
  }

  /** One byte through the state machine, from a window of at most 20 bytes.
      The byte is appended only while the window has room. */
  function Step(w: seq<byte>, b: byte): (r: (seq<byte>, Option<Dispatch>))
    requires |w| <= WindowSize
    ensures |r.0| < WindowSize
  {
    var w1 := if |w| < WindowSize then w + [b] else w;
    if StartsStatus(w1) then ([], Some(Status(w1[2])))
    else if StartsData(w1) then ([], Some(Data(w1[..FrameScanner.FrameLength])))
    else if |w1| >= WindowSize then (Resync(w1), None)
    else (w1, None)
  }

  /** What `Step` promises, case by case: a status packet is dispatched exactly
      when the grown window starts `99 A5` with 3 bytes, carrying byte 2; a
      data packet exactly when it does not but starts `A5 99` with 15 bytes,
      carrying those 15 bytes as a frame; otherwise the window keeps growing
      until 20 bytes and is then resynchronised. */
  lemma StepCases(w: seq<byte>, b: byte)
    requires |w| < WindowSize
    ensures var w1 := w + [b];
      var r := Step(w, b);
      && (r.1.Some? && r.1.value.Status? <==> StartsStatus(w1))
      && (StartsStatus(w1) ==> r == ([], Some(Status(w1[2]))))
      && (r.1.Some? && r.1.value.Data? <==> !StartsStatus(w1) && StartsData(w1))
      && (r.1.Some? && r.1.value.Data? ==>
            r.0 == [] && r.1.value.frame == w1[..15] && FrameScanner.IsFrame(r.1.value.frame))
      && (r.1.None? && |w1| < WindowSize ==> r.0 == w1)
      && (r.1.None? && |w1| == WindowSize ==> r.0 == Resync(w1))
  {
  }

  /** The window never reaches 20 bytes between bytes, so the firmware's
      `pkt_idx < sizeof(pkt_buf)` guard always passes and no byte is lost. */
  lemma StepNeverDrops(w: seq<byte>, b: byte)
    requires |w| < WindowSize
    ensures var r := Step(w, b);
      r.1.None? ==> r.0 == w + [b] || (|w| + 1 == WindowSize && r.0 == Resync(w + [b]))
  {
  }

  /** The effect of a sequence of bytes on a window: the final window and
      the packets dispatched, in order. */
  function Feed(w: seq<byte>, bs: seq<byte>): (r: (seq<byte>, seq<Dispatch>))
    requires |w| < WindowSize
    ensures |r.0| < WindowSize
    ensures |r.1| <= |bs|
    decreases |bs|
  {
    if bs == [] then (w, [])
    else
      var prev := Feed(w, bs[..|bs| - 1]);
      var step := Step(prev.0, bs[|bs| - 1]);
      (step.0, prev.1 + (if step.1.Some? then [step.1.value] else []))
  }

  /** Every data packet dispatched, after any history of bytes, is a
      well-formed telemetry frame: 15 bytes opening with `A5 99`. */
  lemma {:induction false} FeedDispatchesFrames(w: seq<byte>, bs: seq<byte>)
    requires |w| < WindowSize
    ensures forall k :: 0 <= k < |Feed(w, bs).1| && Feed(w, bs).1[k].Data? ==>
      FrameScanner.IsFrame(Feed(w, bs).1[k].frame)
    decreases |bs|
  {
    if bs != [] {
      var prev := Feed(w, bs[..|bs| - 1]);
      FeedDispatchesFrames(w, bs[..|bs| - 1]);
      StepCases(prev.0, bs[|bs| - 1]);
    }
  }

  /** Feeding bytes in two pieces is feeding them at once: the window carries
      all the state between calls of `Process_RX_Buffer`. */
  lemma {:induction false} FeedConcat(w: seq<byte>, xs: seq<byte>, ys: seq<byte>)
    requires |w| < WindowSize
    ensures Feed(w, xs + ys) ==
      (Feed(Feed(w, xs).0, ys).0, Feed(w, xs).1 + Feed(Feed(w, xs).0, ys).1)
    decreases |ys|
  {
    if ys == [] {
      assert xs + ys == xs;
      assert Feed(w, xs).1 + [] == Feed(w, xs).1;
    } else {
      var ys' := ys[..|ys| - 1];
      var b := ys[|ys| - 1];
      assert (xs + ys)[..|xs + ys| - 1] == xs + ys';
      assert (xs + ys)[|xs + ys| - 1] == b;
      FeedConcat(w, xs, ys');
      var mid := Feed(w, xs);
      var inner := Feed(mid.0, ys');
      var step := Step(inner.0, b);
      var extra := if step.1.Some? then [step.1.value] else [];
      assert Feed(w, xs + ys') == (inner.0, mid.1 + inner.1);
      assert Feed(w, xs + ys) == (step.0, (mid.1 + inner.1) + extra);
      assert Feed(mid.0, ys) == (step.0, inner.1 + extra);
      assert (mid.1 + inner.1) + extra == mid.1 + (inner.1 + extra);
    }
  }

  /** The prefix of a telemetry frame short of its last byte only grows the
      window: `A5` never opens a status packet and fewer than 15 bytes never
      complete a data packet. */
  lemma {:induction false} FramePrefixAccumulates(f: seq<byte>, k: nat)
    requires FrameScanner.IsFrame(f) && k < FrameScanner.FrameLength
    ensures Feed([], f[..k]) == (f[..k], [])
  {
    if k > 0 {
      FramePrefixAccumulates(f, k - 1);
      assert f[..k][..k - 1] == f[..k - 1];
      assert f[..k - 1] + [f[k - 1]] == f[..k];
    }
  }

  /** A telemetry frame arriving at an empty window is dispatched whole as one
      data packet and leaves the window empty. */
  lemma FrameDispatched(f: seq<byte>)
    requires FrameScanner.IsFrame(f)
    ensures Feed([], f) == ([], [Data(f)])
  {
    FramePrefixAccumulates(f, 14);
    assert f[..|f| - 1] == f[..14];
    assert f[..14] + [f[14]] == f;
    assert !StartsStatus(f) && StartsData(f) && f[..15] == f;
    assert Step(f[..14], f[14]) == ([], Some(Data(f)));
    var prev: seq<Dispatch> := [];
    assert Feed([], f) == ([], prev + [Data(f)]);
    assert prev + [Data(f)] == [Data(f)];
  }

  /** A status packet `99 A5 v` arriving at an empty window dispatches `v`. */
  lemma StatusDispatched(v: byte)
    ensures Feed([], [StatusSync0, StatusSync1, v]) == ([], [Status(v)])
  {
    var p := [StatusSync0, StatusSync1, v];
    var none: seq<Dispatch> := [];
    var p1 := [StatusSync0];
    var p2 := [StatusSync0, StatusSync1];
    assert p1[..0] == [] && p2[..1] == p1 && p[..2] == p2;
    assert Feed([], p1[..0]) == ([], none);
    assert [] + [StatusSync0] == p1 && p1 + [StatusSync1] == p2 && p2 + [v] == p;
    assert Step([], StatusSync0) == (p1, None);
    assert Feed([], p1) == (p1, none + none);
    assert Step(p1, StatusSync1) == (p2, None);
    assert Feed([], p2) == (p2, none + none);
    assert p[..|p| - 1] == p2 && p[|p| - 1] == v;
    assert Step(p2, v) == ([], Some(Status(v)));
    assert Feed([], p) == ([], none + [Status(v)]);
    assert none + [Status(v)] == [Status(v)];
  }

  /** Bytes behind a noise byte that cannot open a status packet, and whose
      second byte cannot complete a data header, only grow the window until
      it holds 19 bytes. */
  lemma {:induction false} NoisyPrefixAccumulates(x: seq<byte>, k: nat)
    requires |x| >= WindowSize && x[0] != StatusSync0 && x[1] == FrameScanner.Sync0
    requires k < WindowSize
    ensures Feed([], x[..k]) == (x[..k], [])
  {
    if k > 0 {
      NoisyPrefixAccumulates(x, k - 1);
      assert x[..k][..k - 1] == x[..k - 1];
      assert x[..k - 1] + [x[k - 1]] == x[..k];
      assert !StartsStatus(x[..k]) && !StartsData(x[..k]);
    }
  }

  /** Fewer than 15 bytes into an empty window never dispatch a data packet. */
  lemma {:induction false} ShortFeedNoData(xs: seq<byte>)
    requires |xs| < FrameScanner.FrameLength
    ensures |Feed([], xs).0| <= |xs|
    ensures forall k :: 0 <= k < |Feed([], xs).1| ==> Feed([], xs).1[k].Status?
    decreases |xs|
  {
    if xs != [] {
      var prev := Feed([], xs[..|xs| - 1]);
      ShortFeedNoData(xs[..|xs| - 1]);
      StepCases(prev.0, xs[|xs| - 1]);
    }
  }

  /** After a stray byte, a header `A5 99` fills the window to 20 bytes and
      the resynchronisation drops just the stray byte. */
  lemma StrayFillsWindow(g: byte, y: seq<byte>)
    requires |y| >= WindowSize && g != StatusSync0
    requires y[0] == FrameScanner.Sync0 && y[1] == FrameScanner.Sync1
    ensures Feed([], ([g] + y)[..20]) == (y[..19], [])
  {
    var x := [g] + y;
    NoisyPrefixAccumulates(x, 19);
    assert x[..20][..19] == x[..19] && x[..19] + [x[19]] == x[..20];
    assert PairAt(x[..20], 1);
    assert FirstPair(x[..20], 1) == Some(1);
    assert x[..20][1..] == y[..19];
    var none: seq<Dispatch> := [];
    assert Step(x[..19], x[19]) == (y[..19], None);
    assert Feed([], x[..20]) == (y[..19], none + none);
  }

  /** The next byte completes the data test on the shifted window: its first
      15 bytes are dispatched and the whole window is cleared. */
  lemma FirstFrameClearsWindow(g: byte, y: seq<byte>)
    requires |y| >= WindowSize + 1 && g != StatusSync0
    requires y[0] == FrameScanner.Sync0 && y[1] == FrameScanner.Sync1
    ensures Feed([], ([g] + y)[..21]) == ([], [Data(y[..15])])
  {
    var x := [g] + y;
    StrayFillsWindow(g, y);
    assert x[..21][..20] == x[..20] && x[..21][20] == y[19];
    assert y[..19] + [y[19]] == y[..20];
    assert y[..20][..FrameScanner.FrameLength] == y[..15];
    assert Step(y[..19], y[19]) == ([], Some(Data(y[..15])));
    var none: seq<Dispatch> := [];
    assert Feed([], x[..21]) == ([], none + [Data(y[..15])]);
    assert none + [Data(y[..15])] == [Data(y[..15])];
  }

  /** One stray byte ahead of two back-to-back frames costs the second frame:
      the window fills to 20 bytes, resynchronises onto the first frame, and
      dispatching it clears the window together with the five bytes of the
      second frame already behind it. Only the first frame is dispatched as
      data; the second frame's remaining ten bytes arrive without a header. */
  lemma StrayByteLosesSecondFrame(g: byte, f1: seq<byte>, f2: seq<byte>)
    requires FrameScanner.IsFrame(f1) && FrameScanner.IsFrame(f2) && g != StatusSync0
    ensures Feed([], [g] + f1 + f2).1 == [Data(f1)] + Feed([], f2[5..]).1
    ensures forall k :: 0 <= k < |Feed([], [g] + f1 + f2).1| && Feed([], [g] + f1 + f2).1[k].Data? ==> k == 0
  {
    var y := f1 + f2;
    var x := [g] + y;
    assert [g] + f1 + f2 == x;
    assert y[..15] == f1;
    FirstFrameClearsWindow(g, y);
    assert x[..21] + x[21..] == x;
    assert x[21..] == f2[5..];
    FeedConcat([], x[..21], x[21..]);
    ShortFeedNoData(f2[5..]);
  }
}
