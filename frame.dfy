/** The pure half of the frame detector and the code decoder: the preamble,
    the search `findPattern` performs over the sample buffer (lab3.c:187-218),
    and the most-significant-bit-first packing of a data frame into a code
    (lab3.c:433-436). */
module Frame {

  datatype Option<T> = None | Some(value: T)

  /** Samples in the preamble and in a data frame. */
  const FrameBits := 16

  /** The preamble 0000 0010 1111 1101 (lab3.c:199-202). */
  const Preamble: seq<int> := [0, 0, 0, 0, 0, 0, 1, 0, 1, 1, 1, 1, 1, 1, 0, 1]

  /** Every sample is 0 or 1. */
  predicate IsBits(s: seq<int>)
  {
    forall k :: 0 <= k < |s| ==> s[k] == 0 || s[k] == 1
  }

  /** `sameArray(buf + m, pattern)`: the 16 samples from offset m equal the
      preamble, compared one sample at a time. */
  predicate PreambleAt(buf: seq<int>, m: int): (r: bool)
    ensures r <==> 0 <= m && m + FrameBits <= |buf| && forall t :: 0 <= t < FrameBits ==> buf[m + t] == Preamble[t]
  {
    0 <= m && m + FrameBits <= |buf| && buf[m..m + FrameBits] == Preamble
  }

  /** The offset `findPattern` stops at when `n` samples are buffered: the
      lowest m with from <= m < n - 16 holding the preamble. The bound is
      strict, so the window that ends exactly at the last sample is not
      examined. */
  function FindPreamble(buf: seq<int>, n: int, from: nat): (r: Option<nat>)
    requires n <= |buf|
    ensures r.Some? ==> from <= r.value < n - FrameBits && PreambleAt(buf, r.value)
    ensures r.Some? ==> forall m :: from <= m < r.value ==> !PreambleAt(buf, m)
    ensures r.None? ==> forall m :: from <= m < n - FrameBits ==> !PreambleAt(buf, m)
    decreases n - from
  {
    if from >= n - FrameBits then None
    else if PreambleAt(buf, from) then Some(from)
    else FindPreamble(buf, n, from + 1)
  }

  /** Whether a window holds the preamble depends only on its samples. */
  lemma PreambleAtPrefix(a: seq<int>, b: seq<int>, n: int, m: int)
    requires 0 <= n <= |a| && n <= |b| && a[..n] == b[..n] && m + FrameBits <= n
    ensures PreambleAt(a, m) == PreambleAt(b, m)
  {
    forall p | 0 <= p < n
      ensures a[p] == b[p]
    {
      assert a[p] == a[..n][p];
    }
  }

  /** The search stops at the first offset that holds the preamble. */
  lemma FindPreambleFirst(buf: seq<int>, n: int, j: int)
    requires n <= |buf| && 0 <= j < n - FrameBits && PreambleAt(buf, j)
    requires forall m :: 0 <= m < j ==> !PreambleAt(buf, m)
    ensures FindPreamble(buf, n, 0) == Some(j)
  {
  }

  /** A buffer that holds samples with no preamble in them, then the
      preamble, then one more sample x: the search stops where the preamble
      starts. */
  lemma FindPreambleAfter(buf: seq<int>, junk: seq<int>, x: int, n: int)
    requires n == |junk| + FrameBits + 1 <= |buf|
    requires forall t :: 0 <= t < n ==> buf[t] == (junk + Preamble + [x])[t]
    requires forall m :: 0 <= m < |junk| ==> !PreambleAt(junk + Preamble, m)
    ensures buf[n - 1] == x && FindPreamble(buf, n, 0) == Some(|junk|)
  {
    var j, w := |junk|, junk + Preamble;
    assert buf[n - 1] == (w + [x])[n - 1];
    forall t | 0 <= t < j + FrameBits
      ensures buf[t] == w[t]
    {
      assert buf[t] == (w + [x])[t];
    }
    assert buf[..j + FrameBits] == w[..j + FrameBits] == w;
    forall m | 0 <= m <= j
      ensures PreambleAt(buf, m) == PreambleAt(w, m)
    {
      PreambleAtPrefix(buf, w, j + FrameBits, m);
    }
    assert PreambleAt(w, j) by {
      assert w[j..j + FrameBits] == Preamble;
    }
    FindPreambleFirst(buf, n, j);
  }

  /** Appending the preamble and one sample to bits that hold no preamble
      gives bits in which no preamble starts before the appended one. */
  lemma PreambleBehind(junk: seq<int>, x: int)
    requires IsBits(junk) && (x == 0 || x == 1)
    requires forall m :: 0 <= m < |junk| ==> !PreambleAt(junk + Preamble, m)
    ensures IsBits(junk + Preamble + [x])
    ensures forall m :: 0 <= m < |junk| ==> !PreambleAt(junk + Preamble + [x], m)
  {
    var j, w, head := |junk|, junk + Preamble, junk + Preamble + [x];
    forall t | 0 <= t < |head|
      ensures head[t] == 0 || head[t] == 1
    {
      if t < j {
        assert head[t] == junk[t];
      } else if t < j + FrameBits {
        assert head[t] == Preamble[t - j];
      }
    }
    assert head[..j + FrameBits] == w[..j + FrameBits];
    forall m | 0 <= m < j
      ensures !PreambleAt(head, m)
    {
      PreambleAtPrefix(head, w, j + FrameBits, m);
    }
  }

  /** The strict bound only postpones a detection by one edge: a preamble
      that ends at the last buffered sample is found by the next search,
      once one more sample has been appended behind it. */
  lemma FindPreambleOneEdgeLater(buf: seq<int>, n: int, b: int)
    requires FrameBits <= n < |buf|
    requires FindPreamble(buf, n, 0).None?
    requires PreambleAt(buf, n - FrameBits)
    ensures FindPreamble(buf[n := b], n + 1, 0) == Some(n - FrameBits)
  {
    var buf' := buf[n := b];
    forall m | 0 <= m <= n - FrameBits
      ensures PreambleAt(buf', m) == PreambleAt(buf, m)
    {
      assert buf'[m..m + FrameBits] == buf[m..m + FrameBits];
    }
  }

  function Pow2(e: nat): (p: nat)
    ensures p >= 1
  {
    if e == 0 then 1 else 2 * Pow2(e - 1)
  }

  /** The main loop's `sum`: s[0] * 2^(|s|-1) + ... + s[|s|-1] * 2^0, so the
      first sample is the most significant bit. A frame of n samples decodes
      to a value in [0, 2^n); for a 16-sample frame that is [0, 65535]. */
  function Value(s: seq<int>): (v: int)
    ensures IsBits(s) ==> 0 <= v < Pow2(|s|)
  {
    if s == [] then 0 else s[0] * Pow2(|s| - 1) + Value(s[1..])
  }

  /** The n-bit frame that carries code c, most significant bit first: the
      inverse of Value. */
  function Encode(c: nat, n: nat): (s: seq<int>)
    ensures |s| == n
  {
    if n == 0 then [] else Encode(c / 2, n - 1) + [c % 2]
  }

  /** An encoded frame holds only 0 and 1 samples. */
  lemma {:induction false} EncodeIsBits(c: nat, n: nat)
    ensures IsBits(Encode(c, n))
  {
    if n > 0 {
      EncodeIsBits(c / 2, n - 1);
    }
  }

  /** Appending a sample doubles the value and adds the sample. */
  lemma {:induction false} ValueSnoc(s: seq<int>, b: int)
    ensures Value(s + [b]) == 2 * Value(s) + b
  {
    if s != [] {
      assert (s + [b])[1..] == s[1..] + [b];
      ValueSnoc(s[1..], b);
      var p := Pow2(|s| - 1);
      assert Pow2(|s|) == 2 * p;
      MulTwice(s[0], p);
    }
  }

  lemma MulTwice(x: int, p: int)
    ensures x * (2 * p) == 2 * (x * p)
  {
  }

  /** Encoding a code and decoding the frame gives the code back. */
  lemma {:induction false} DecodeEncode(c: nat, n: nat)
    requires c < Pow2(n)
    ensures Value(Encode(c, n)) == c
  {
    if n > 0 {
      DecodeEncode(c / 2, n - 1);
      ValueSnoc(Encode(c / 2, n - 1), c % 2);
    }
  }

  /** Decoding a frame and encoding the code gives the frame back: distinct
      frames decode to distinct codes. */
  lemma {:induction false} EncodeDecode(s: seq<int>)
    requires IsBits(s)
    ensures Value(s) >= 0 && Encode(Value(s), |s|) == s
  {
    if s != [] {
      var t, b := s[..|s| - 1], s[|s| - 1];
      assert s == t + [b];
      ValueSnoc(t, b);
      EncodeDecode(t);
    }
  }

  lemma Pow2Sixteen()
    ensures Pow2(FrameBits) == 65536
  {
    assert Pow2(4) == 16;
    assert Pow2(8) == 256;
    assert Pow2(12) == 4096;
  }

  /** The preamble is the 16-bit encoding of 0x02FD. */
  lemma EncodePreamble()
    ensures Encode(0x02FD, FrameBits) == Preamble
  {
    assert Encode(0x02, 8) == [0, 0, 0, 0, 0, 0, 1, 0];
  }

  /** The preamble is itself an NEC word: address byte 0x02 followed by its
      complement 0xFD. */
  lemma PreambleValue()
    ensures Value(Preamble) == 0x02FD
  {
    Pow2Sixteen();
    DecodeEncode(0x02FD, FrameBits);
    EncodePreamble();
  }

  lemma EncodeExample()
    ensures Encode(0x827C, FrameBits) == [1, 0, 0, 0, 0, 0, 1, 0, 0, 1, 1, 1, 1, 1, 0, 0]
  {
    assert Encode(0x82, 8) == [1, 0, 0, 0, 0, 0, 1, 0];
  }

  /** A worked example of the packing: 1000 0010 0111 1100 is 0x827C. */
  lemma DecodeExample()
    ensures Value([1, 0, 0, 0, 0, 0, 1, 0, 0, 1, 1, 1, 1, 1, 0, 0]) == 0x827C
  {
    Pow2Sixteen();
    DecodeEncode(0x827C, FrameBits);
    EncodeExample();
  }
}
