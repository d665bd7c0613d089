/**
 * The host-side telemetry frame scanner shared by the two monitor scripts.
 *
 * Bytes read from the serial port are appended to an accumulator. While the
 * accumulator holds at least 15 bytes, the scanner looks for the earliest
 * `A5 99` pair: without one it keeps only the last byte (a header may be split
 * across reads); with one it drops the noise before it and, when 15 bytes are
 * available from there, cuts out one frame and repeats on the remainder.
 */
module FrameScanner {
  import opened Bytes
  import opened Wrappers

  const FrameLength: nat := 15
  const Sync0: byte := 0xA5
  const Sync1: byte := 0x99

  /** An `A5 99` header pair starts at index `i`. */
  predicate HeaderAt(buf: seq<byte>, i: int) {
    0 <= i < |buf| - 1 && buf[i] == Sync0 && buf[i + 1] == Sync1
  }

  /** No header pair starts before index `n`. */
  predicate NoHeaderBefore(buf: seq<byte>, n: int) {
    forall j :: 0 <= j < n ==> !HeaderAt(buf, j)
  }

  /** The buffer contains no `A5 99` pair at all. */
  predicate NoHeader(buf: seq<byte>) {
    NoHeaderBefore(buf, |buf|)
  }

  /** A telemetry frame: 15 bytes opening with the `A5 99` header. */
  predicate IsFrame(f: seq<byte>) {
    |f| == FrameLength && f[0] == Sync0 && f[1] == Sync1
  }

  /** The header search `for i in range(len(buffer) - 1)` started at `from`:
      the first index at or after `from` where a header pair starts. */
  function EarliestHeader(buf: seq<byte>, from: nat): (r: Option<nat>)
    requires from <= |buf|
    decreases |buf| - from
    ensures r.Some? ==> from <= r.value && HeaderAt(buf, r.value)
    ensures r.Some? ==> forall j :: from <= j < r.value ==> !HeaderAt(buf, j)
    ensures r.None? ==> forall j :: from <= j ==> !HeaderAt(buf, j)
  {
    if from + 1 >= |buf| then None
    else if buf[from] == Sync0 && buf[from + 1] == Sync1 then Some(from)
    else EarliestHeader(buf, from + 1)
  }

  /** Frames cut out of the accumulator and the bytes it keeps afterwards. */
  datatype ScanResult = ScanResult(frames: seq<seq<byte>>, rest: seq<byte>)

  /** `rest` is a suffix of `buf`. */
  predicate IsSuffix(rest: seq<byte>, buf: seq<byte>) {
    |rest| <= |buf| && rest == buf[|buf| - |rest|..]
  }

  /** The `while len(buffer) >= 15` loop run on one accumulator. */
  function Scan(buf: seq<byte>): (r: ScanResult)
    decreases |buf|
    ensures forall k :: 0 <= k < |r.frames| ==> IsFrame(r.frames[k])
    ensures |r.rest| < FrameLength
    ensures IsSuffix(r.rest, buf)
    ensures |buf| < FrameLength ==> r == ScanResult([], buf)
    ensures |buf| >= FrameLength && NoHeader(buf) ==> r == ScanResult([], [buf[|buf| - 1]])
  {
    if |buf| < FrameLength then ScanResult([], buf)
    else
      match EarliestHeader(buf, 0)
      case None => ScanResult([], buf[|buf| - 1..])
      case Some(i) =>
        var tail := buf[i..];
        if |tail| < FrameLength then ScanResult([], tail)
        else
          var more := Scan(tail[FrameLength..]);
          CutFrame(buf, i, more);
          ScanResult([tail[..FrameLength]] + more.frames, more.rest)
  }

  /** Cutting a frame at header `i` and scanning on: the cut bytes are a
      frame, and the rest kept after the later frames is still a suffix. */
  lemma CutFrame(buf: seq<byte>, i: nat, more: ScanResult)
    requires HeaderAt(buf, i) && i + FrameLength <= |buf|
    requires IsSuffix(more.rest, buf[i..][FrameLength..])
    requires forall k :: 0 <= k < |more.frames| ==> IsFrame(more.frames[k])
    ensures IsSuffix(more.rest, buf)
    ensures var frames := [buf[i..][..FrameLength]] + more.frames;
      forall k :: 0 <= k < |frames| ==> IsFrame(frames[k])
  {
    var d := i + FrameLength;
    assert buf[i..][FrameLength..] == buf[d..];
    assert buf[d..][|buf| - d - |more.rest|..] == buf[|buf| - |more.rest|..];
  }

  /** `buf` consists of `n` bytes of noise in which no header pair starts,
      followed by the frame `f`. */
  predicate NoiseThenFrame(buf: seq<byte>, n: nat, f: seq<byte>) {
    n + FrameLength <= |buf| && buf[n..n + FrameLength] == f && NoHeaderBefore(buf, n)
  }

  /** What the scanner consumed: the accumulator splits into, per frame, a
      stretch of header-free noise and the frame itself, then bytes that were
      dropped (again with no header pair starting among them) and the kept rest. */
  ghost predicate Explains(buf: seq<byte>, frames: seq<seq<byte>>, rest: seq<byte>)
    decreases |frames|
  {
    if frames == [] then
      IsSuffix(rest, buf) && NoHeaderBefore(buf, |buf| - |rest|)
    else
      exists n: nat {:trigger NoiseThenFrame(buf, n, frames[0])} ::
        NoiseThenFrame(buf, n, frames[0]) && Explains(buf[n + FrameLength..], frames[1..], rest)
  }

  /** Every frame the scanner returns is preceded only by header-free noise
      (the earliest header wins), and the dropped bytes before the kept rest
      hold no header either. */
  lemma {:induction false} ScanExplains(buf: seq<byte>)
    ensures Explains(buf, Scan(buf).frames, Scan(buf).rest)
    decreases |buf|
  {
    if |buf| < FrameLength {
      assert Scan(buf).rest == buf;
    } else {
      match EarliestHeader(buf, 0)
      case None =>
        assert NoHeaderBefore(buf, |buf| - 1);
      case Some(i) =>
        if |buf| - i < FrameLength {
          assert Scan(buf).rest == buf[i..];
          assert NoHeaderBefore(buf, i);
        } else {
          var more := Scan(buf[i + FrameLength..]);
          ScanExplains(buf[i + FrameLength..]);
          FirstFrameCut(buf, i);
          assert NoiseThenFrame(buf, i, buf[i..i + FrameLength]);
          ExplainsCons(buf, i, buf[i..i + FrameLength], more.frames, more.rest);
        }
    }
  }

  /** The step of `Scan` at the earliest header `i` when a whole frame
      follows it: the frame is cut at `i` and the scan goes on after it. */
  lemma FirstFrameCut(buf: seq<byte>, i: nat)
    requires |buf| >= FrameLength && EarliestHeader(buf, 0) == Some(i) && |buf| - i >= FrameLength
    ensures var more := Scan(buf[i + FrameLength..]);
      Scan(buf) == ScanResult([buf[i..i + FrameLength]] + more.frames, more.rest)
  {
    var tail := buf[i..];
    assert tail[FrameLength..] == buf[i + FrameLength..];
    assert tail[..FrameLength] == buf[i..i + FrameLength];
  }

  /** Noise of length `n` and the frame `f`, followed by what explains the
      rest, explain the whole buffer. */
  lemma ExplainsCons(buf: seq<byte>, n: nat, f: seq<byte>, frames: seq<seq<byte>>, rest: seq<byte>)
    requires NoiseThenFrame(buf, n, f) && Explains(buf[n + FrameLength..], frames, rest)
    ensures Explains(buf, [f] + frames, rest)
  {
    assert ([f] + frames)[0] == f && ([f] + frames)[1..] == frames;
  }

  /** Noise without a header followed by a frame: the scanner returns that
      frame and then scans the remainder exactly as if it had arrived alone. */
  lemma NoiseThenFrameScan(noise: seq<byte>, f: seq<byte>, tail: seq<byte>)
    requires NoHeader(noise) && IsFrame(f)
    ensures Scan(noise + f + tail) == ScanResult([f] + Scan(tail).frames, Scan(tail).rest)
  {
    var buf := noise + f + tail;
    var n := |noise|;
    assert HeaderAt(buf, n);
    forall j | 0 <= j < n
      ensures !HeaderAt(buf, j)
    {
      if j < n - 1 {
        assert !HeaderAt(noise, j);
      } else {
        assert buf[j + 1] == f[0];
      }
    }
    var e := EarliestHeader(buf, 0);
    assert e == Some(n);
    assert buf[n..][..FrameLength] == f;
    assert buf[n..][FrameLength..] == tail;
  }

  /** A single frame on its own is extracted and leaves an empty accumulator. */
  lemma SingleFrameScan(f: seq<byte>)
    requires IsFrame(f)
    ensures Scan(f) == ScanResult([f], [])
  {
    NoiseThenFrameScan([], f, []);
    assert [] + f + [] == f;
  }

  /** Noise, a frame, more noise and a second frame in one read yield exactly
      the two frames, in order and byte for byte, and an empty accumulator. */
  lemma TwoFramesScan(noise1: seq<byte>, f1: seq<byte>, noise2: seq<byte>, f2: seq<byte>)
    requires NoHeader(noise1) && NoHeader(noise2) && IsFrame(f1) && IsFrame(f2)
    ensures Scan(noise1 + f1 + noise2 + f2) == ScanResult([f1, f2], [])
  {
    NoiseThenFrameScan(noise2, f2, []);
    assert noise2 + f2 + [] == noise2 + f2;
    assert Scan([]) == ScanResult([], []);
    assert Scan(noise2 + f2) == ScanResult([f2], []);
    NoiseThenFrameScan(noise1, f1, noise2 + f2);
    assert noise1 + f1 + noise2 + f2 == noise1 + f1 + (noise2 + f2);
    assert [f1] + [f2] == [f1, f2];
  }

  /** One serial read: append the chunk and run the scan loop. */
  function Feed(acc: seq<byte>, chunk: seq<byte>): (r: ScanResult)
    ensures forall k :: 0 <= k < |r.frames| ==> IsFrame(r.frames[k])
    ensures |r.rest| < FrameLength
    ensures |acc + chunk| < FrameLength ==> r == ScanResult([], acc + chunk)
  {
    Scan(acc + chunk)
  }

  /** A header split across two reads survives: when the first read ends in a
      lone `A5` after header-free noise, the single kept byte joins the next
      read and the frame is recovered whole. */
  lemma {:induction false} SplitHeaderRecovered(noise: seq<byte>, f: seq<byte>, tail: seq<byte>)
    requires NoHeader(noise) && |noise| >= FrameLength - 1 && IsFrame(f)
    ensures Feed(noise, [f[0]]).frames == []
    ensures Feed(noise, [f[0]]).rest == [f[0]]
    ensures Feed(Feed(noise, [f[0]]).rest, f[1..] + tail)
         == ScanResult([f] + Scan(tail).frames, Scan(tail).rest)
  {
    LoneSync0Kept(noise, f[0]);
    SecondReadRecovers(f, tail);
  }

  /** The second read of `SplitHeaderRecovered`: the kept `A5` completes the
      header, and the frame is cut before the rest is scanned. */
  lemma SecondReadRecovers(f: seq<byte>, tail: seq<byte>)
    requires IsFrame(f)
    ensures Feed([f[0]], f[1..] + tail) == ScanResult([f] + Scan(tail).frames, Scan(tail).rest)
  {
    var buf := f + tail;
    assert [f[0]] + (f[1..] + tail) == buf;
    assert [] + f + tail == buf;
    NoiseThenFrameScan([], f, tail);
  }

  /** The first read of `SplitHeaderRecovered`: no frame, only the `A5` kept. */
  lemma LoneSync0Kept(noise: seq<byte>, b: byte)
    requires NoHeader(noise) && |noise| >= FrameLength - 1 && b == Sync0
    ensures Feed(noise, [b]) == ScanResult([], [b])
  {
    var first := noise + [b];
    NoHeaderThenSync0(noise, b);
    assert first[|first| - 1] == b;
  }

  /** A lone `A5` after header-free noise forms no header: it has no
      successor yet, and no noise byte pairs with it as a second byte. */
  lemma NoHeaderThenSync0(noise: seq<byte>, b: byte)
    requires NoHeader(noise) && b == Sync0
    ensures NoHeader(noise + [b])
  {
    var first := noise + [b];
    forall j | 0 <= j < |first|
      ensures !HeaderAt(first, j)
    {
      if j < |noise| - 1 {
        assert !HeaderAt(noise, j);
      } else if j < |first| - 1 {
        assert first[j + 1] == Sync0;
      }
    }
  }

  /** The bytes of successive reads, in arrival order. */
  function Flatten(chunks: seq<seq<byte>>): seq<byte>
  {
    if chunks == [] then [] else chunks[0] + Flatten(chunks[1..])
  }

  /** Successive serial reads into one accumulator: the frames of every read,
      in order, and the bytes kept after the last read. */
  function FeedAll(acc: seq<byte>, chunks: seq<seq<byte>>): (r: ScanResult)
    decreases |chunks|
    ensures forall k :: 0 <= k < |r.frames| ==> IsFrame(r.frames[k])
    ensures |acc| < FrameLength || chunks != [] ==> |r.rest| < FrameLength
  {
    if chunks == [] then ScanResult([], acc)
    else
      var first := Feed(acc, chunks[0]);
      var more := FeedAll(first.rest, chunks[1..]);
      ScanResult(first.frames + more.frames, more.rest)
  }

  /** The earliest header is the one with no header before it. */
  lemma EarliestIs(buf: seq<byte>, i: nat)
    requires HeaderAt(buf, i) && NoHeaderBefore(buf, i)
    ensures EarliestHeader(buf, 0) == Some(i)
  {
  }

  /** The step of `Scan` when no header is found: only the last byte stays. */
  lemma ScanNoHeader(buf: seq<byte>)
    requires |buf| >= FrameLength && EarliestHeader(buf, 0).None?
    ensures Scan(buf) == ScanResult([], buf[|buf| - 1..])
  {
  }

  /** The step of `Scan` when fewer than 15 bytes follow the earliest header:
      the noise before it is dropped and the scan stops. */
  lemma ScanPartial(buf: seq<byte>, i: nat)
    requires |buf| >= FrameLength && EarliestHeader(buf, 0) == Some(i) && |buf| - i < FrameLength
    ensures Scan(buf) == ScanResult([], buf[i..])
  {
  }

  /** Dropping bytes in which no header starts from the front of the
      accumulator changes none of the frames the scan finds, and cannot turn
      an empty kept rest into a non-empty one. */
  lemma DropNoise(buf: seq<byte>, d: nat)
    requires d <= |buf| && NoHeaderBefore(buf, d)
    ensures Scan(buf[d..]).frames == Scan(buf).frames
    ensures Scan(buf).rest == [] ==> Scan(buf[d..]).rest == []
  {
    var t := buf[d..];
    if |buf| >= FrameLength {
      match EarliestHeader(buf, 0)
      case None =>
        ScanNoHeader(buf);
        if |t| >= FrameLength {
          DropNoiseNoHeader(buf, d);
        }
      case Some(h) =>
        assert h >= d;
        if |t| >= FrameLength {
          DropNoiseAtHeader(buf, d, h);
        } else {
          ScanPartial(buf, h);
        }
    }
  }

  /** `DropNoise` when the accumulator holds no header at all. */
  lemma DropNoiseNoHeader(buf: seq<byte>, d: nat)
    requires d + FrameLength <= |buf| && EarliestHeader(buf, 0).None?
    ensures Scan(buf[d..]) == ScanResult([], buf[|buf| - 1..])
  {
    var t := buf[d..];
    forall j | 0 <= j < |t|
      ensures !HeaderAt(t, j)
    {
      assert !HeaderAt(buf, j + d);
    }
    assert EarliestHeader(t, 0).None?;
    ScanNoHeader(t);
    assert t[|t| - 1..] == buf[|buf| - 1..];
  }

  /** `DropNoise` when the earliest header `h` lies among the kept bytes and
      at least 15 bytes are kept: both scans start at that header. */
  lemma DropNoiseAtHeader(buf: seq<byte>, d: nat, h: nat)
    requires d <= h && d + FrameLength <= |buf| && EarliestHeader(buf, 0) == Some(h)
    ensures Scan(buf[d..]) == Scan(buf)
  {
    EarliestAfterDrop(buf, d, h);
    SameHeaderSameScan(buf, h, buf[d..], h - d);
  }

  /** After dropping `d` header-free bytes the earliest header `h` sits at
      `h - d`, with the same bytes from there on. */
  lemma EarliestAfterDrop(buf: seq<byte>, d: nat, h: nat)
    requires d <= h && d <= |buf| && EarliestHeader(buf, 0) == Some(h)
    ensures EarliestHeader(buf[d..], 0) == Some(h - d)
    ensures buf[d..][h - d..] == buf[h..]
  {
    var t := buf[d..];
    forall j | 0 <= j < h - d
      ensures !HeaderAt(t, j)
    {
      assert !HeaderAt(buf, j + d);
    }
    EarliestIs(t, h - d);
  }

  /** Two accumulators of at least 15 bytes whose earliest headers are
      followed by the same bytes scan alike. */
  lemma SameHeaderSameScan(buf: seq<byte>, h: nat, t: seq<byte>, k: nat)
    requires |buf| >= FrameLength && |t| >= FrameLength
    requires EarliestHeader(buf, 0) == Some(h) && EarliestHeader(t, 0) == Some(k)
    requires h <= |buf| && k <= |t| && t[k..] == buf[h..]
    ensures Scan(t) == Scan(buf)
  {
  }

  /** Scanning two reads' worth of bytes at once finds the frames of the
      first read, then those found after the kept rest is joined by the
      second read; an empty rest at once means an empty rest read by read. */
  lemma {:induction false} ScanSplit(x: seq<byte>, y: seq<byte>)
    ensures Scan(x + y).frames == Scan(x).frames + Scan(Scan(x).rest + y).frames
    ensures Scan(x + y).rest == [] ==> Scan(Scan(x).rest + y).rest == []
    decreases |x|
  {
    if |x| < FrameLength {
      ScanSplitDrop(x, y, 0);
    } else {
      match EarliestHeader(x, 0)
      case None =>
        ScanNoHeader(x);
        ScanSplitDrop(x, y, |x| - 1);
      case Some(i) =>
        if |x| - i < FrameLength {
          ScanPartial(x, i);
          ScanSplitDrop(x, y, i);
        } else {
          ScanSplit(x[i + FrameLength..], y);
          ScanSplitCut(x, y, i);
        }
    }
  }

  /** Dropping the first `i` bytes of one read commutes with appending the next. */
  lemma DropAppend(x: seq<byte>, y: seq<byte>, i: nat)
    requires i <= |x|
    ensures x[i..] + y == (x + y)[i..]
  {
  }

  /** No header starts before `n` in `x`, nor therefore in `x + y` as long as
      both bytes of every pair before `n` lie in `x`. */
  lemma NoHeaderExtends(x: seq<byte>, y: seq<byte>, n: nat)
    requires n < |x| && NoHeaderBefore(x, n)
    ensures NoHeaderBefore(x + y, n)
  {
    forall j | 0 <= j < n
      ensures !HeaderAt(x + y, j)
    {
      assert !HeaderAt(x, j);
    }
  }

  /** Header-free bytes at the front of one read stay header-free when the
      next read is appended, so dropping them from both reads together
      changes no frame and keeps an empty rest empty. */
  lemma DropNoiseAcross(x: seq<byte>, y: seq<byte>, n: nat)
    requires n < |x| && NoHeaderBefore(x, n)
    ensures Scan((x + y)[n..]).frames == Scan(x + y).frames
    ensures Scan(x + y).rest == [] ==> Scan((x + y)[n..]).rest == []
  {
    NoHeaderExtends(x, y, n);
    DropNoise(x + y, n);
  }

  /** `ScanSplit` when the first read yields no frame and keeps its bytes
      from `n` on, none of the dropped ones starting a header: a short read
      (`n` is 0), a read without a header (`n` is its last byte) or a read
      whose earliest header has fewer than 15 bytes after it. */
  lemma ScanSplitDrop(x: seq<byte>, y: seq<byte>, n: nat)
    requires n <= |x| && (n < |x| || x == []) && NoHeaderBefore(x, n)
    requires Scan(x) == ScanResult([], x[n..])
    ensures Scan(x + y).frames == Scan(x).frames + Scan(Scan(x).rest + y).frames
    ensures Scan(x + y).rest == [] ==> Scan(Scan(x).rest + y).rest == []
  {
    if x == [] {
      assert x + y == y && x[n..] + y == y;
      DropAssemble(x, y, x[n..], y);
    } else {
      DropNoiseAcross(x, y, n);
      DropAppend(x, y, n);
      DropAssemble(x, y, x[n..], (x + y)[n..]);
    }
  }

  /** The bookkeeping of `ScanSplitDrop`: the first read finds nothing and
      keeps `a`, and `a` followed by the second read is `t`, which scans to
      what both reads together do. */
  lemma DropAssemble(x: seq<byte>, y: seq<byte>, a: seq<byte>, t: seq<byte>)
    requires Scan(x) == ScanResult([], a) && a + y == t
    requires Scan(t).frames == Scan(x + y).frames
    requires Scan(x + y).rest == [] ==> Scan(t).rest == []
    ensures Scan(x + y).frames == Scan(x).frames + Scan(Scan(x).rest + y).frames
    ensures Scan(x + y).rest == [] ==> Scan(Scan(x).rest + y).rest == []
  {
  }

  /** `ScanSplit` when the first read holds a whole frame at its earliest
      header `i`: both scans cut that frame and go on with what follows. */
  lemma ScanSplitCut(x: seq<byte>, y: seq<byte>, i: nat)
    requires |x| >= FrameLength && EarliestHeader(x, 0) == Some(i) && |x| - i >= FrameLength
    requires var x' := x[i + FrameLength..];
      Scan(x' + y).frames == Scan(x').frames + Scan(Scan(x').rest + y).frames
      && (Scan(x' + y).rest == [] ==> Scan(Scan(x').rest + y).rest == [])
    ensures Scan(x + y).frames == Scan(x).frames + Scan(Scan(x).rest + y).frames
    ensures Scan(x + y).rest == [] ==> Scan(Scan(x).rest + y).rest == []
  {
    FirstFrameCut(x, i);
    CutAcross(x, y, i);
    DropAppend(x, y, i + FrameLength);
    ScanSplitAfterCut(x, y, x[i..i + FrameLength], x[i + FrameLength..], (x + y)[i + FrameLength..]);
  }

  /** The frame cut at the first read's earliest header `i` is also the
      first frame cut from both reads together. */
  lemma CutAcross(x: seq<byte>, y: seq<byte>, i: nat)
    requires |x| >= FrameLength && EarliestHeader(x, 0) == Some(i) && |x| - i >= FrameLength
    ensures Scan(x + y) == ScanResult([x[i..i + FrameLength]] + Scan((x + y)[i + FrameLength..]).frames,
                                      Scan((x + y)[i + FrameLength..]).rest)
  {
    NoHeaderExtends(x, y, i);
    EarliestIs(x + y, i);
    FirstFrameCut(x + y, i);
    SliceAppend(x, y, i, i + FrameLength);
  }

  /** A slice lying inside one read is unchanged when the next is appended. */
  lemma SliceAppend(x: seq<byte>, y: seq<byte>, i: nat, j: nat)
    requires i <= j <= |x|
    ensures (x + y)[i..j] == x[i..j]
  {
  }

  /** The bookkeeping of `ScanSplitCut`: the first read cuts `f` and leaves
      `a`, both reads together cut `f` and leave `b`, which is `a` followed
      by the second read. */
  lemma ScanSplitAfterCut(x: seq<byte>, y: seq<byte>, f: seq<byte>, a: seq<byte>, b: seq<byte>)
    requires Scan(x) == ScanResult([f] + Scan(a).frames, Scan(a).rest)
    requires Scan(x + y) == ScanResult([f] + Scan(b).frames, Scan(b).rest)
    requires a + y == b
    requires Scan(a + y).frames == Scan(a).frames + Scan(Scan(a).rest + y).frames
    requires Scan(a + y).rest == [] ==> Scan(Scan(a).rest + y).rest == []
    ensures Scan(x + y).frames == Scan(x).frames + Scan(Scan(x).rest + y).frames
    ensures Scan(x + y).rest == [] ==> Scan(Scan(x).rest + y).rest == []
  {
    FramesAssoc([f], Scan(a).frames, Scan(Scan(a).rest + y).frames);
  }

  /** Frame lists concatenate associatively. */
  lemma FramesAssoc(p: seq<seq<byte>>, q: seq<seq<byte>>, r: seq<seq<byte>>)
    ensures p + q + r == p + (q + r)
  {
  }

  /** However a stream is cut into reads, the reads together find exactly
      the frames one read of the whole stream would; when that read keeps
      nothing, neither do the reads. */
  lemma {:induction false} FeedAllMatchesScan(acc: seq<byte>, chunks: seq<seq<byte>>)
    requires |acc| < FrameLength
    ensures FeedAll(acc, chunks).frames == Scan(acc + Flatten(chunks)).frames
    ensures Scan(acc + Flatten(chunks)).rest == [] ==> FeedAll(acc, chunks).rest == []
    decreases |chunks|
  {
    if chunks == [] {
      assert acc + Flatten(chunks) == acc;
    } else {
      var first := Feed(acc, chunks[0]);
      FeedAllMatchesScan(first.rest, chunks[1..]);
      ScanSplit(acc + chunks[0], Flatten(chunks[1..]));
      FeedAllStep(acc, chunks);
    }
  }

  /** The bookkeeping of `FeedAllMatchesScan` for a first read `chunks[0]`. */
  lemma FeedAllStep(acc: seq<byte>, chunks: seq<seq<byte>>)
    requires chunks != []
    requires var first := Feed(acc, chunks[0]);
      var later := Flatten(chunks[1..]);
      FeedAll(first.rest, chunks[1..]).frames == Scan(first.rest + later).frames
      && (Scan(first.rest + later).rest == [] ==> FeedAll(first.rest, chunks[1..]).rest == [])
      && Scan(acc + chunks[0] + later).frames == first.frames + Scan(first.rest + later).frames
      && (Scan(acc + chunks[0] + later).rest == [] ==> Scan(first.rest + later).rest == [])
    ensures FeedAll(acc, chunks).frames == Scan(acc + Flatten(chunks)).frames
    ensures Scan(acc + Flatten(chunks)).rest == [] ==> FeedAll(acc, chunks).rest == []
  {
    FlattenCons(acc, chunks);
  }

  /** The stream after the accumulator is the first read, then the rest. */
  lemma FlattenCons(acc: seq<byte>, chunks: seq<seq<byte>>)
    requires chunks != []
    ensures acc + Flatten(chunks) == acc + chunks[0] + Flatten(chunks[1..])
  {
  }

  /** Noise, a frame, more noise and a second frame yield exactly the two
      frames and an empty accumulator, however the stream is cut into reads. */
  lemma TwoFramesAnyChunking(noise1: seq<byte>, f1: seq<byte>, noise2: seq<byte>, f2: seq<byte>,
                             chunks: seq<seq<byte>>)
    requires NoHeader(noise1) && NoHeader(noise2) && IsFrame(f1) && IsFrame(f2)
    requires Flatten(chunks) == noise1 + f1 + noise2 + f2
    ensures FeedAll([], chunks) == ScanResult([f1, f2], [])
  {
    FeedAllMatchesScan([], chunks);
    TwoFramesScan(noise1, f1, noise2, f2);
    assert [] + Flatten(chunks) == Flatten(chunks);
  }
}
