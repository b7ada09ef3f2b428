/** The fixed-length window of recent raw distances kept by the main loop.
    Each tick rotates the window one place to the left and overwrites the last
    slot with the new reading, so the oldest reading drops out. */
module History {

  /** Number of readings the window holds. */
  const WindowSize: nat := 5

  /** Value every slot starts with: far away, so nobody is present. */
  const InitialFillCm: real := 200.0

  /** The window before the first reading. */
  function Initial(): seq<real> {
    seq(WindowSize, _ => InitialFillCm)
  }

  /** Rotation one place to the left: slot i receives what was in slot i + 1,
      and the first slot wraps round to the end. */
  function RollLeft<T>(h: seq<T>): (r: seq<T>)
    ensures |r| == |h|
    ensures forall i :: 0 <= i < |h| - 1 ==> r[i] == h[i + 1]
    ensures |h| > 0 ==> r[|h| - 1] == h[0]
  {
    if |h| == 0 then h else h[1..] + [h[0]]
  }

  /** One tick's update: rotate left, then overwrite the last slot. Indexing the
      last slot needs a non-empty window. */
  function Push(h: seq<real>, x: real): (r: seq<real>)
    requires |h| > 0
    ensures |r| == |h|
    ensures r[|r| - 1] == x
    ensures forall i :: 0 <= i < |h| - 1 ==> r[i] == h[i + 1]
  {
    RollLeft(h)[|h| - 1 := x]
  }

  /** The update is a shift-and-append: drop the oldest, add the newest. */
  lemma PushIsShiftAppend(h: seq<real>, x: real)
    requires |h| > 0
    ensures Push(h, x) == h[1..] + [x]
  {
  }

  /** The window after the readings `xs` have been pushed in order. */
  function PushAll(h: seq<real>, xs: seq<real>): (r: seq<real>)
    requires |h| > 0
    ensures |r| == |h|
    decreases |xs|
  {
    if |xs| == 0 then h
    else Push(PushAll(h, xs[..|xs| - 1]), xs[|xs| - 1])
  }

  /** Dropping the first element of a suffix and appending `x` is the
      corresponding suffix of the sequence with `x` appended. */
  lemma SuffixShift(a: seq<real>, x: real, n: nat)
    requires n < |a|
    ensures a[n..][1..] + [x] == (a + [x])[n + 1..]
  {
  }

  /** After any run of readings the window is the last |h| entries of the old
      window followed by the readings. */
  lemma {:induction false} PushAllKeepsLatest(h: seq<real>, xs: seq<real>)
    requires |h| > 0
    ensures PushAll(h, xs) == (h + xs)[|xs|..]
    decreases |xs|
  {
    if |xs| > 0 {
      var p, x := xs[..|xs| - 1], xs[|xs| - 1];
      var w := PushAll(h, p);
      PushAllKeepsLatest(h, p);
      PushIsShiftAppend(w, x);
      SuffixShift(h + p, x, |p|);
      assert xs == p + [x];
      assert h + xs == (h + p) + [x];
    }
  }

  /** Once at least a window's worth of readings has arrived, the window holds
      exactly the most recent readings, oldest first. */
  lemma WindowHoldsLatestReadings(h: seq<real>, xs: seq<real>)
    requires |h| == WindowSize
    requires |xs| >= WindowSize
    ensures PushAll(h, xs) == xs[|xs| - WindowSize..]
  {
    PushAllKeepsLatest(h, xs);
    assert (h + xs)[|xs|..] == xs[|xs| - WindowSize..];
  }
}
