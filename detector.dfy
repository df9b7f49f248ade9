/** The frame detector as a pure state machine: `findPattern`
    (lab3.c:197-218) and the sampling step of `GPIOEdgeHandler`
    (lab3.c:300-328) over the globals `buffer`, `number`, `i` and `detected`.
    The class `Device.FrameDetector` runs the same steps on arrays and is
    specified by these functions. */
module Detector {
  import opened Frame
  import opened Keypad

  /** Capacity of `buffer[]` and `number[]` (lab3.c:88-89). */
  const SampleCapacity := 100

  /** The detector's share of the globals. Before a preamble is found the
      samples go to `buffer`; afterwards they go to `number`. */
  datatype State = State(buffer: seq<int>, number: seq<int>, i: int, detected: bool)

  /** The array sizes, a cursor within the arrays and samples that are 0 or 1. */
  predicate Wf(d: State)
  {
    && |d.buffer| == SampleCapacity && |d.number| == SampleCapacity
    && 0 <= d.i <= SampleCapacity
    && IsBits(d.buffer) && IsBits(d.number)
  }

  /** The sample a gap of `delta` ticks stands for: more than three ticks is a 1. */
  function Bit(delta: int): (b: int)
    ensures b == 0 || b == 1
    ensures b == 1 <==> delta > 3
  {
    if delta > 3 then 1 else 0
  }

  /** The samples of a run of edges, the k-th preceded by `gaps[k]` ticks. */
  function Bits(gaps: seq<int>): (s: seq<int>)
    ensures |s| == |gaps| && IsBits(s)
  {
    seq(|gaps|, k requires 0 <= k < |gaps| => Bit(gaps[k]))
  }

  /** The samples of a run split around its n-th edge. */
  lemma BitsSplit(gaps: seq<int>, n: int)
    requires 0 <= n < |gaps|
    ensures Bits(gaps[..n + 1]) == Bits(gaps[..n]) + [Bit(gaps[n])]
    ensures Bits(gaps[n..])[0] == Bit(gaps[n]) && Bits(gaps[n..])[1..] == Bits(gaps[n + 1..])
  {
  }

  /** `findPattern`: on the first preamble below i - 16, move the samples
      behind it to the front of `number`, make them the cursor's count and
      mark the frame detected; otherwise change nothing. */
  function FindPattern(d: State): (r: State)
    requires Wf(d)
    ensures Wf(r) && r.buffer == d.buffer
    ensures FindPreamble(d.buffer, d.i, 0).None? ==> r == d
    ensures FindPreamble(d.buffer, d.i, 0).Some? ==>
              var m := FindPreamble(d.buffer, d.i, 0).value;
              && r.detected && r.i == d.i - m - FrameBits && r.i >= 1
              && r.number[..r.i] == d.buffer[m + FrameBits..d.i]
              && r.number[r.i..] == d.number[r.i..]
  {
    match FindPreamble(d.buffer, d.i, 0)
    case None => d
    case Some(m) =>
      var k := d.i - m - FrameBits;
      var number := d.buffer[m + FrameBits..d.i] + d.number[k..];
      assert IsBits(number) by {
        forall t | 0 <= t < SampleCapacity
          ensures number[t] == 0 || number[t] == 1
        {
          if t < k {
            assert number[t] == d.buffer[m + FrameBits + t];
          } else {
            assert number[t] == d.number[t];
          }
        }
      }
      d.(number := number, i := k, detected := true)
  }

  /** When the search stops at m, `findPattern` moves the samples behind
      the preamble to the front of `number` and keeps the rest. */
  lemma FindPatternMoves(d: State, m: int)
    requires Wf(d) && FindPreamble(d.buffer, d.i, 0) == Some(m)
    ensures var k := d.i - m - FrameBits;
            FindPattern(d) == d.(number := d.buffer[m + FrameBits..d.i] + d.number[k..],
                                 i := k, detected := true)
  {
  }

  /** The C writes `buffer[i]` or `number[i]` after the search, so `i` must
      lie inside the arrays unless the search is about to move it back. */
  predicate CanEdge(d: State)
    requires Wf(d)
  {
    d.i < SampleCapacity || (!d.detected && FindPreamble(d.buffer, d.i, 0).Some?)
  }

  /** A falling edge with sample `bit`: search while no frame is detected
      and at least 16 samples are buffered, then store the sample at the
      cursor, in `buffer` before detection and in `number` after it. */
  function Edge(d: State, bit: int): (r: State)
    requires Wf(d) && CanEdge(d) && (bit == 0 || bit == 1)
    ensures Wf(r) && r.i <= d.i + 1
    ensures r.detected <==> d.detected || (d.i >= FrameBits && FindPreamble(d.buffer, d.i, 0).Some?)
  {
    var s := if d.i >= FrameBits && !d.detected then FindPattern(d) else d;
    if !s.detected then
      s.(buffer := s.buffer[s.i := bit], i := s.i + 1)
    else
      s.(number := s.number[s.i := bit], i := s.i + 1)
  }

  /** An edge that does not find a preamble appends its sample to the
      array in use: `buffer` before detection, `number` after it. */
  lemma EdgeStores(d: State, bit: int)
    requires Wf(d) && CanEdge(d) && (bit == 0 || bit == 1)
    ensures var r := Edge(d, bit);
            && (!r.detected ==> r.i == d.i + 1 && r.buffer == d.buffer[d.i := bit] && r.number == d.number)
            && (d.detected ==> r.i == d.i + 1 && r.number == d.number[d.i := bit] && r.buffer == d.buffer)
  {
  }

  /** The edge that finds the preamble at offset m moves the samples behind
      it to the front of `number` and appends its own sample there. */
  lemma EdgeDetects(d: State, bit: int)
    requires Wf(d) && CanEdge(d) && (bit == 0 || bit == 1)
    requires !d.detected && Edge(d, bit).detected
    ensures FindPreamble(d.buffer, d.i, 0).Some?
    ensures var m := FindPreamble(d.buffer, d.i, 0).value;
            var r := Edge(d, bit);
            && r.buffer == d.buffer && r.i == d.i - m - FrameBits + 1 && r.i >= 2
            && r.number[..r.i] == d.buffer[m + FrameBits..d.i] + [bit]
            && r.number[r.i..] == d.number[r.i..]
  {
    var s := FindPattern(d);
    assert s.number[s.i := bit][..s.i + 1] == s.number[..s.i] + [bit];
  }

  /** The samples of a run the C handles without writing outside the
      arrays: each edge finds room at the cursor, if need be because its
      search moves the samples back. */
  predicate CanFeed(d: State, samples: seq<int>)
    requires Wf(d)
    decreases |samples|
  {
    || samples == []
    || (&& (samples[0] == 0 || samples[0] == 1)
        && CanEdge(d)
        && CanFeed(Edge(d, samples[0]), samples[1..]))
  }

  /** The state after one edge per sample, in order. */
  function Feed(d: State, samples: seq<int>): (r: State)
    requires Wf(d) && CanFeed(d, samples)
    ensures Wf(r) && r.i <= d.i + |samples|
    decreases |samples|
  {
    if samples == [] then d else Feed(Edge(d, samples[0]), samples[1..])
  }

  /** Every run that fits in the arrays from the cursor on is safe; longer
      runs can be safe too, when a detection moves the samples back. */
  lemma {:induction false} CanFeedWithinCapacity(d: State, s: seq<int>)
    requires Wf(d) && IsBits(s) && d.i + |s| <= SampleCapacity
    ensures CanFeed(d, s)
    decreases |s|
  {
    if s != [] {
      CanFeedWithinCapacity(Edge(d, s[0]), s[1..]);
    }
  }

  /** Feeding two runs of samples is feeding the first, then the second,
      and the whole run is safe exactly when both parts are. */
  lemma {:induction false} FeedConcat(d: State, a: seq<int>, b: seq<int>)
    requires Wf(d)
    ensures CanFeed(d, a + b) <==> CanFeed(d, a) && CanFeed(Feed(d, a), b)
    ensures CanFeed(d, a + b) ==> Feed(d, a + b) == Feed(Feed(d, a), b)
    decreases |a|
  {
    if a == [] {
      assert a + b == b;
    } else {
      assert (a + b)[0] == a[0] && (a + b)[1..] == a[1..] + b;
      if (a[0] == 0 || a[0] == 1) && CanEdge(d) {
        FeedConcat(Edge(d, a[0]), a[1..], b);
      }
    }
  }

  /** Feeding one more sample is one more edge. */
  lemma FeedSnoc(d: State, s: seq<int>, b: int)
    requires Wf(d)
    ensures CanFeed(d, s + [b]) <==> CanFeed(d, s) && (b == 0 || b == 1) && CanEdge(Feed(d, s))
    ensures CanFeed(d, s + [b]) ==> Feed(d, s + [b]) == Edge(Feed(d, s), b)
  {
    FeedConcat(d, s, [b]);
    assert [b][1..] == [];
  }

  /** A sample that finds no preamble behind it is appended to `buffer`. */
  lemma CollectStep(d: State, bit: int)
    requires Wf(d) && !d.detected && d.i < SampleCapacity && (bit == 0 || bit == 1)
    requires FindPreamble(d.buffer, d.i, 0).None?
    ensures Edge(d, bit) == d.(buffer := d.buffer[d.i := bit], i := d.i + 1)
  {
  }

  /** Samples collect in `buffer` as long as they fit and no search finds
      the preamble: the searches that run examine only offsets below
      i - 16, so a preamble is found only once a sample lies behind it. */
  lemma {:induction false} FeedCollects(d: State, s: seq<int>)
    requires Wf(d) && !d.detected && IsBits(s) && d.i + |s| <= SampleCapacity
    requires forall m :: 0 <= m < d.i + |s| - FrameBits - 1 ==> !PreambleAt(d.buffer[..d.i] + s, m)
    ensures CanFeed(d, s)
    ensures var r := Feed(d, s);
            && !r.detected && r.i == d.i + |s| && r.number == d.number
            && (forall t :: 0 <= t < d.i ==> r.buffer[t] == d.buffer[t])
            && (forall t :: d.i <= t < r.i ==> r.buffer[t] == s[t - d.i])
    decreases |s|
  {
    if s != [] {
      NothingFoundYet(d, d.buffer[..d.i] + s);
      CollectStep(d, s[0]);
      var e := Edge(d, s[0]);
      CollectedPrefix(d.buffer, d.i, s);
      FeedCollects(e, s[1..]);
      var r := Feed(e, s[1..]);
      assert Feed(d, s) == r;
      forall t | d.i <= t < r.i
        ensures r.buffer[t] == s[t - d.i]
      {
        if t == d.i {
          assert r.buffer[t] == e.buffer[t];
        } else {
          assert r.buffer[t] == s[1..][t - e.i];
        }
      }
    }
  }

  /** A search over samples that are a prefix of w finds nothing when no
      offset of w below i - 16 holds the preamble. */
  lemma NothingFoundYet(d: State, w: seq<int>)
    requires Wf(d) && d.i <= |w| && w[..d.i] == d.buffer[..d.i]
    requires forall m :: 0 <= m < d.i - FrameBits ==> !PreambleAt(w, m)
    ensures FindPreamble(d.buffer, d.i, 0).None?
  {
    forall m | 0 <= m < d.i - FrameBits
      ensures !PreambleAt(d.buffer, m)
    {
      PreambleAtPrefix(d.buffer, w, d.i, m);
    }
  }

  /** Storing the next sample at the cursor extends the buffered prefix. */
  lemma CollectedPrefix(buf: seq<int>, i: int, s: seq<int>)
    requires 0 <= i < |buf| && s != []
    ensures buf[i := s[0]][..i + 1] + s[1..] == buf[..i] + s
  {
    assert buf[i := s[0]][..i + 1] == buf[..i] + [s[0]];
  }

  /** Once a frame is detected the search no longer runs, so the edge
      appends its sample to `number`. */
  lemma AppendStep(d: State, bit: int)
    requires Wf(d) && d.detected && d.i < SampleCapacity && (bit == 0 || bit == 1)
    ensures Edge(d, bit) == d.(number := d.number[d.i := bit], i := d.i + 1)
  {
  }

  /** Once a frame is detected, every sample is appended to `number`, and
      a run is safe exactly when it fits behind the cursor. */
  lemma {:induction false} FeedAppends(d: State, s: seq<int>)
    requires Wf(d) && d.detected && IsBits(s) && d.i + |s| <= SampleCapacity
    ensures CanFeed(d, s)
    ensures var r := Feed(d, s);
            && r.detected && r.i == d.i + |s| && r.buffer == d.buffer
            && (forall t :: 0 <= t < d.i ==> r.number[t] == d.number[t])
            && (forall t :: d.i <= t < r.i ==> r.number[t] == s[t - d.i])
    decreases |s|
  {
    if s != [] {
      AppendStep(d, s[0]);
      FeedAppends(Edge(d, s[0]), s[1..]);
    }
  }

  /** From an empty buffer, samples that hold no preamble below offset
      |junk|, then the preamble and one more sample, are buffered without a
      detection, and the next search stops at the preamble. */
  lemma BufferPreamble(d: State, junk: seq<int>, x: int)
    requires Wf(d) && !d.detected && d.i == 0 && (x == 0 || x == 1)
    requires IsBits(junk) && |junk| + FrameBits + 1 <= SampleCapacity
    requires forall m :: 0 <= m < |junk| ==> !PreambleAt(junk + Preamble, m)
    ensures CanFeed(d, junk + Preamble + [x])
    ensures var r := Feed(d, junk + Preamble + [x]);
            && !r.detected && r.i == |junk| + FrameBits + 1 && r.buffer[r.i - 1] == x
            && FindPreamble(r.buffer, r.i, 0) == Some(|junk|)
  {
    var head := junk + Preamble + [x];
    PreambleBehind(junk, x);
    assert d.buffer[..0] + head == head;
    FeedCollects(d, head);
    var r := Feed(d, head);
    FindPreambleAfter(r.buffer, junk, x, r.i);
  }

  /** Samples holding no preamble below offset |junk|, then the preamble and
      a 16-sample frame, sent to a detector with an empty buffer, leave
      exactly that frame in `number[0..16)`, marked detected and ready for
      the main loop. The run is safe even when it is longer than the
      arrays. The preamble is found on the second sample after it, so the
      first sample of the frame travels through `buffer` and the move of
      `findPattern`. */
  lemma ReceiveFrame(d: State, junk: seq<int>, frame: seq<int>)
    requires Wf(d) && !d.detected && d.i == 0
    requires IsBits(junk) && |junk| + FrameBits + 1 <= SampleCapacity
    requires forall m :: 0 <= m < |junk| ==> !PreambleAt(junk + Preamble, m)
    requires |frame| == FrameBits && IsBits(frame)
    ensures CanFeed(d, junk + Preamble + frame)
    ensures var r := Feed(d, junk + Preamble + frame);
            r.detected && r.i == FrameBits && r.number[..FrameBits] == frame
  {
    var head, tail := junk + Preamble + [frame[0]], frame[1..];
    assert junk + Preamble + frame == head + tail;
    // the junk, the preamble and the frame's first sample are buffered
    BufferPreamble(d, junk, frame[0]);
    // the frame's second sample finds the preamble behind the junk
    DetectAndAppend(Feed(d, head), frame);
    FeedConcat(d, head, tail);
  }

  /** With the preamble found just before the newest sample, the next edge
      detects it: that sample moves to `number[0]`, the edge's own sample
      follows it, and the cursor is 2. */
  lemma DetectStep(d: State, bit: int)
    requires Wf(d) && !d.detected && FrameBits < d.i && (bit == 0 || bit == 1)
    requires FindPreamble(d.buffer, d.i, 0) == Some(d.i - FrameBits - 1)
    ensures var r := Edge(d, bit);
            && r.detected && r.i == 2 && r.number[0] == d.buffer[d.i - 1] && r.number[1] == bit
  {
    EdgeDetects(d, bit);
    var r := Edge(d, bit);
    assert r.number[..2] == d.buffer[d.i - 1..d.i] + [bit];
    assert r.number[0] == r.number[..2][0] && r.number[1] == r.number[..2][1];
  }

  /** With the preamble found just before the newest sample, the rest of a
      frame whose first sample is that newest one lands behind it in
      `number`: the search moves the first sample, the edge stores the
      second, and the remaining 14 are appended. */
  lemma DetectAndAppend(d: State, frame: seq<int>)
    requires Wf(d) && !d.detected && FrameBits < d.i
    requires FindPreamble(d.buffer, d.i, 0) == Some(d.i - FrameBits - 1)
    requires |frame| == FrameBits && IsBits(frame) && d.buffer[d.i - 1] == frame[0]
    ensures CanFeed(d, frame[1..])
    ensures var r := Feed(d, frame[1..]);
            r.detected && r.i == FrameBits && r.number[..FrameBits] == frame
  {
    var tail := frame[1..];
    DetectStep(d, tail[0]);
    var d2 := Edge(d, tail[0]);
    AppendFrame(d2, frame);
    assert tail[1..] == frame[2..];
    assert CanFeed(d, tail) && Feed(d, tail) == Feed(d2, frame[2..]);
  }

  /** With the first two samples of a frame at the front of `number`, the
      other 14 are appended behind them, completing the frame. */
  lemma AppendFrame(d: State, frame: seq<int>)
    requires Wf(d) && d.detected && d.i == 2
    requires |frame| == FrameBits && IsBits(frame)
    requires d.number[0] == frame[0] && d.number[1] == frame[1]
    ensures CanFeed(d, frame[2..])
    ensures var r := Feed(d, frame[2..]);
            r.detected && r.i == FrameBits && r.number[..FrameBits] == frame
  {
    FeedAppends(d, frame[2..]);
    var r := Feed(d, frame[2..]);
    forall t | 0 <= t < FrameBits
      ensures r.number[t] == frame[t]
    {
      if t >= 2 {
        assert r.number[t] == frame[2..][t - 2];
      }
    }
    assert r.number[..FrameBits] == frame;
  }

  /** The whole receive path: after samples holding no preamble below
      offset |junk|, the remote's preamble followed by the 16-bit code of a
      button leaves a frame that the main loop decodes and classifies as
      that button. */
  lemma ReceiveButton(d: State, junk: seq<int>, k: Key)
    requires Wf(d) && !d.detected && d.i == 0 && k != Unknown
    requires IsBits(junk) && |junk| + FrameBits + 1 <= SampleCapacity
    requires forall m :: 0 <= m < |junk| ==> !PreambleAt(junk + Preamble, m)
    ensures CanFeed(d, junk + Preamble + Encode(ButtonCode(k), FrameBits))
    ensures var r := Feed(d, junk + Preamble + Encode(ButtonCode(k), FrameBits));
            && r.detected && r.i >= FrameBits
            && Value(r.number[..FrameBits]) == ButtonCode(k)
            && Classify(Value(r.number[..FrameBits])) == k
  {
    var frame := Encode(ButtonCode(k), FrameBits);
    EncodeIsBits(ButtonCode(k), FrameBits);
    ReceiveFrame(d, junk, frame);
    Pow2Sixteen();
    DecodeEncode(ButtonCode(k), FrameBits);
    ClassifyButtonCode(k);
  }

  /** Up to 83 samples of 1 hold no preamble, so a frame behind them is
      received: with 80 of them the run is 112 samples long, more than the
      arrays hold, and the move of `findPattern` keeps every write in bounds. */
  lemma ReceiveAfterOnes(d: State, n: nat, frame: seq<int>)
    requires Wf(d) && !d.detected && d.i == 0 && n + FrameBits + 1 <= SampleCapacity
    requires |frame| == FrameBits && IsBits(frame)
    ensures var ones := seq(n, _ => 1);
            && CanFeed(d, ones + Preamble + frame)
            && |ones + Preamble + frame| == n + 2 * FrameBits
            && Feed(d, ones + Preamble + frame).number[..FrameBits] == frame
  {
    var ones := seq(n, _ => 1);
    forall m | 0 <= m < n
      ensures !PreambleAt(ones + Preamble, m)
    {
      assert (ones + Preamble)[m] == 1 != Preamble[0];
    }
    ReceiveFrame(d, ones, frame);
  }
}
