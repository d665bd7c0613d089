/**
 * Bounded histories of the link monitors: `deque(maxlen=1000)` of packet
 * times in the stuck detector and the interval list capped at 100 by
 * append-then-`pop(0)` in the UART test monitor. Both keep the most recent
 * entries.
 */
module History {
  /** `deque.append` on a deque with `maxlen`: when full, the oldest entry
      falls off the left end. */
  function DequeAppend<T>(h: seq<T>, x: T, maxLen: nat): (h': seq<T>)
    requires 0 < maxLen && |h| <= maxLen
    ensures |h'| <= maxLen && |h'| > 0 && h'[|h'| - 1] == x
  {
    if |h| == maxLen then h[1..] + [x] else h + [x]
  }

  /** `list.append(x)` followed by `if len(list) > cap: list.pop(0)`. */
  function AppendThenTrim<T>(h: seq<T>, x: T, cap: nat): (h': seq<T>)
    requires 0 < cap && |h| <= cap
    ensures |h'| <= cap && |h'| > 0 && h'[|h'| - 1] == x
  {
    var h1 := h + [x];
    if |h1| > cap then h1[1..] else h1
  }

  /** The last `n` elements of `xs` (all of them when there are fewer). */
  function Newest<T>(xs: seq<T>, n: nat): (r: seq<T>)
    ensures |r| == if |xs| <= n then |xs| else n
  {
    if |xs| <= n then xs else xs[|xs| - n..]
  }

  /** The two ways of bounding a history are the same operation: both keep
      the newest `cap` entries of the history with `x` appended. */
  lemma BoundedAppendsAgree<T>(h: seq<T>, x: T, cap: nat)
    requires 0 < cap && |h| <= cap
    ensures DequeAppend(h, x, cap) == AppendThenTrim(h, x, cap) == Newest(h + [x], cap)
  {
    if |h| == cap {
      assert (h + [x])[1..] == h[1..] + [x];
    }
  }

  /** The history after appending every element of `xs`, in order, to an
      empty history. */
  function Record<T>(xs: seq<T>, cap: nat): (h: seq<T>)
    requires 0 < cap
    ensures |h| <= cap
    decreases |xs|
  {
    if xs == [] then [] else AppendThenTrim(Record(xs[..|xs| - 1], cap), xs[|xs| - 1], cap)
  }

  /** However many entries arrive, the history holds exactly the newest `cap`
      of them, oldest first. */
  lemma {:induction false} RecordKeepsNewest<T>(xs: seq<T>, cap: nat)
    requires 0 < cap
    ensures Record(xs, cap) == Newest(xs, cap)
    decreases |xs|
  {
    if xs != [] {
      var init := xs[..|xs| - 1];
      var x := xs[|xs| - 1];
      RecordKeepsNewest(init, cap);
      assert xs == init + [x];
      NewestStep(init, x, cap);
    }
  }

  /** Appending to the newest `cap` entries and trimming keeps the newest
      `cap` entries of the longer history. */
  lemma NewestStep<T>(init: seq<T>, x: T, cap: nat)
    requires 0 < cap
    ensures AppendThenTrim(Newest(init, cap), x, cap) == Newest(init + [x], cap)
  {
    var xs := init + [x];
    if |init| >= cap {
      assert Newest(init, cap) + [x] == xs[|xs| - 1 - cap..];
      assert (Newest(init, cap) + [x])[1..] == xs[|xs| - cap..];
    }
  }
}
