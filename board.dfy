/** The program's globals as three objects, one per concern, and its event
    handlers as their methods: the frame detector (`TimerCountHandler`,
    `GPIOEdgeHandler`, `findPattern`, `sameArray`), the text composer
    (`Process`, the main loop's switch, `ResetButton`) and the receive buffer
    (`UARTIntHandler`, `PrintBottom`). One pass of the main loop connects the
    first two. Each handler is one atomic step. */
module Device {
  import opened Frame
  import opened Keypad
  import Detector
  import MultiTap

  /** `sameArray(a + off, b)`: the 16 elements of a from offset off equal b. */
  method SameArray(a: array<int>, off: int, b: seq<int>) returns (same: bool)
    requires 0 <= off && off + FrameBits <= a.Length && |b| == FrameBits
    ensures same <==> a[off..off + FrameBits] == b
  {
    var index := 0;
    while index < FrameBits
      invariant 0 <= index <= FrameBits
      invariant forall j :: 0 <= j < index ==> a[off + j] == b[j]
    {
      if a[off + index] != b[index] {
        return false;
      }
      index := index + 1;
    }
    assert a[off..off + FrameBits] == b;
    return true;
  }

  /** The main loop's `sum` over `number[0..16)` (lab3.c:433-436), in exact
      integer arithmetic. */
  method DecodeFrame(number: array<int>) returns (sum: int)
    requires number.Length >= FrameBits
    ensures sum == Value(number[..FrameBits])
  {
    sum := 0;
    var k := 0;
    assert number[0..FrameBits] == number[..FrameBits];
    while k < FrameBits
      invariant 0 <= k <= FrameBits
      invariant sum + Value(number[k..FrameBits]) == Value(number[..FrameBits])
    {
      assert number[k..FrameBits][1..] == number[k + 1..FrameBits];
      sum := sum + number[k] * Pow2(FrameBits - 1 - k);
      k := k + 1;
    }
  }

  /** The frame detector's globals `buffer`, `number`, `i`, `detected` and
      `delta` (lab3.c:88-93). */
  class FrameDetector {
    const buffer: array<int>
    const number: array<int>
    var i: int
    var detected: bool
    var delta: int

    /** Two distinct arrays, a non-negative tick count and a well-formed
        detector state. */
    ghost predicate Valid()
      reads this, buffer, number
    {
      buffer != number && 0 <= delta && Detector.Wf(State())
    }

    /** The detector's view of the globals. */
    ghost function State(): Detector.State
      reads this, buffer, number
    {
      Detector.State(buffer[..], number[..], i, detected)
    }

    /** The zero-initialised statics. */
    constructor ()
      ensures Valid() && fresh(buffer) && fresh(number) && delta == 0
      ensures State() == Detector.State(seq(Detector.SampleCapacity, _ => 0),
                                        seq(Detector.SampleCapacity, _ => 0), 0, false)
    {
      buffer := new int[Detector.SampleCapacity](_ => 0);
      number := new int[Detector.SampleCapacity](_ => 0);
      i, detected, delta := 0, false, 0;
      new;
      assert buffer[..] == seq(Detector.SampleCapacity, _ => 0);
      assert number[..] == seq(Detector.SampleCapacity, _ => 0);
    }

    /** `TimerCountHandler`: one tick of the fast timer between two edges. */
    method Tick()
      requires Valid()
      modifies this`delta
      ensures Valid() && delta == old(delta) + 1
    {
      delta := delta + 1;
    }

    /** `findPattern`: look for the preamble at the offsets below i - 16; on
        the first match move the samples behind it to the front of `number`
        and mark the frame detected. */
    method FindPattern()
      requires Valid()
      modifies this`i, this`detected, number
      ensures Valid() && State() == Detector.FindPattern(old(State()))
    {
      ghost var d := State();
      var index := 0;
      var find := false;
      while index < i - FrameBits
        modifies {}
        invariant 0 <= index && (index == 0 || index <= i - FrameBits)
        invariant FindPreamble(d.buffer, i, 0) == FindPreamble(d.buffer, i, index)
        invariant !find
      {
        var same := SameArray(buffer, index, Preamble);
        if same {
          find := true;
          break;
        }
        index := index + 1;
      }
      if find {
        assert FindPreamble(d.buffer, i, 0) == Some(index);
        Detector.FindPatternMoves(d, index);
        MoveFrame(index);
        assert State() == Detector.FindPattern(d);
      }
    }

    /** The second half of `findPattern` (lab3.c:210-216): copy the samples
        behind the preamble at `index` to the front of `number`, set
        `detected` and make the count of copied samples the new cursor. */
    method MoveFrame(index: int)
      requires Valid() && 0 <= index && index + FrameBits < i
      modifies this`i, this`detected, number
      ensures detected && i == old(i) - index - FrameBits && buffer[..] == old(buffer[..])
      ensures number[..] == buffer[index + FrameBits..old(i)] + old(number[..])[i..]
    {
      var j, k := index + FrameBits, 0;
      while j < i
        modifies number
        invariant index + FrameBits <= j <= i && k == j - index - FrameBits
        invariant forall t :: 0 <= t < k ==> number[t] == buffer[index + FrameBits + t]
        invariant forall t :: k <= t < number.Length ==> number[t] == old(number[t])
      {
        number[k] := buffer[j];
        j, k := j + 1, k + 1;
      }
      ghost var moved := buffer[index + FrameBits..i] + old(number[..])[k..];
      forall t | 0 <= t < number.Length
        ensures number[t] == moved[t]
      {
        if t < k {
          assert moved[t] == buffer[index + FrameBits + t];
        } else {
          assert moved[t] == old(number[..])[t];
        }
      }
      assert number[..] == moved;
      detected := true;
      i := k;
    }

    /** `GPIOEdgeHandler` without its register calls: a pulse longer than
        three ticks is a 1; search for the preamble while none is detected;
        store the bit in `buffer`, or in `number` once a frame is detected. */
    method Edge()
      requires Valid() && Detector.CanEdge(State())
      modifies this`i, this`detected, this`delta, buffer, number
      ensures Valid() && delta == 0
      ensures State() == Detector.Edge(old(State()), Detector.Bit(old(delta)))
    {
      ghost var d := State();
      var value := if delta > 3 then 1 else 0;
      delta := 0;
      if i >= FrameBits && !detected {
        FindPattern();
      }
      ghost var s := State();
      if !detected {
        buffer[i] := value;
        assert buffer[..] == s.buffer[s.i := value] && number[..] == s.number;
      } else {
        number[i] := value;
        assert number[..] == s.number[s.i := value] && buffer[..] == s.buffer;
      }
      i := i + 1;
      assert State() == Detector.Edge(d, value);
    }
  }

  /** The composer's globals: `keyBuffer`, `lastkey`, `start` and the
      `message` record, whose fields `message.message` and `message.index`
      are `message` and `index` here (lab3.c:94-95, 108, 114). */
  class TextComposer {
    const keyBuffer: array<int>
    var lastkey: char
    var start: bool
    const message: array<char>
    var index: int

    /** A full-size message and a well-formed composer state. */
    ghost predicate Valid()
      reads this, keyBuffer, message
    {
      message.Length == MultiTap.MessageSize && MultiTap.Wf(State())
    }

    /** The composer's view of the globals. */
    ghost function State(): MultiTap.Composer
      reads this, keyBuffer, message
    {
      MultiTap.Composer(keyBuffer[..], lastkey, start, message[..], index)
    }

    /** The zero-initialised statics and `message.index = 0` of `main`. */
    constructor ()
      ensures Valid() && fresh(keyBuffer) && fresh(message)
      ensures State() == MultiTap.Initial()
    {
      keyBuffer := new int[10](_ => 0);
      message := new char[MultiTap.MessageSize](_ => '\0');
      lastkey, start, index := '\0', false, 0;
      new;
      assert keyBuffer[..] == seq(10, _ => 0);
      assert message[..] == seq(MultiTap.MessageSize, _ => '\0');
    }

    /** `ResetButton`: the key-reset timeout clears `lastkey` (lab3.c:229). */
    method ResetButton()
      requires Valid()
      modifies this`lastkey
      ensures Valid() && State() == MultiTap.ResetButton(old(State()))
    {
      lastkey := '\0';
    }

    /** `Process(key, keyIndex, numKeys)` (lab3.c:233-287) without the drawing. */
    method Process(key: char, keyIndex: int, numKeys: int)
      requires Valid()
      requires 2 <= keyIndex < 10 && numKeys == MultiTap.KeyCount(keyIndex)
      requires 0 <= MultiTap.Slot(State(), key) < MultiTap.MessageSize
      modifies this`lastkey, this`start, this`index, keyBuffer, message
      ensures Valid()
      ensures State() == MultiTap.Process(old(State()), key, keyIndex, numKeys)
    {
      ghost var c := State();
      if lastkey != key {
        keyBuffer[keyIndex] := 0;
        if start {
          index := index + 1;
        } else {
          start := true;
        }
      }
      if keyBuffer[keyIndex] == numKeys {
        keyBuffer[keyIndex] := 0;
      }
      var taps := keyBuffer[keyIndex];
      assert 0 <= taps < numKeys && index == MultiTap.Slot(c, key);
      if numKeys == 3 {
        if taps == 0 || taps == 1 || taps == 2 {
          message[index] := MultiTap.KeySet[keyIndex][taps];
        }
      } else {
        if taps == 0 || taps == 1 || taps == 2 || taps == 3 {
          message[index] := MultiTap.KeySet[keyIndex][taps];
        }
      }
      assert message[..] == c.message[index := MultiTap.KeySet[keyIndex][taps]];
      keyBuffer[keyIndex] := keyBuffer[keyIndex] + 1;
      lastkey := key;
      assert keyBuffer[..] == c.keyBuffer[keyIndex := taps + 1];
      assert State() == MultiTap.Process(c, key, keyIndex, numKeys);
    }

    /** The main loop's `switch(sum)` on a classified code (lab3.c:444-509)
        without the drawing; returns the bytes written to the UART. */
    method Press(k: Key) returns (tx: seq<char>)
      requires Valid() && MultiTap.CanPress(State(), k)
      modifies this`lastkey, this`start, this`index, keyBuffer, message
      ensures Valid()
      ensures var step := MultiTap.Press(old(State()), k);
              State() == step.next && tx == step.sent
    {
      tx := [];
      match k {
        case Digit(d) =>
          if d == 0 {
            index := index + 1;
            message[index] := ' ';
            lastkey := '0';
          } else if d == 1 {
            lastkey := '1';
          } else {
            Process(MultiTap.DigitChar(d), d, MultiTap.KeyCount(d));
          }
        case Delete =>
          lastkey := 'd';
          message[index] := '\0';
          index := index - 1;
        case Enter =>
          lastkey := 'e';
          index := index + 1;
          message[index] := '\0';
          var k := 0;
          while k < index
            invariant 0 <= k <= index
            invariant tx == message[..k]
          {
            tx := tx + [message[k]];
            k := k + 1;
          }
          index := 0;
          message[index] := '\0';
          start := false;
        case Unknown =>
          lastkey := 'u';
      }
    }
  }

  /** The receive buffer `rmsg`, a `Msg` record of 160 characters and a
      cursor (lab3.c:115). */
  class ReceiveBuffer {
    const message: array<char>
    var index: int

    /** A full-size buffer and a cursor within it. */
    ghost predicate Valid()
      reads this
    {
      message.Length == MultiTap.MessageSize && 0 <= index <= MultiTap.MessageSize
    }

    /** The zero-initialised static. */
    constructor ()
      ensures Valid() && fresh(message) && index == 0
      ensures message[..] == seq(MultiTap.MessageSize, _ => '\0')
    {
      message := new char[MultiTap.MessageSize](_ => '\0');
      index := 0;
    }

    /** `UARTIntHandler`: append a received character. */
    method RxChar(c: char)
      requires Valid() && index < MultiTap.MessageSize
      modifies this`index, message
      ensures Valid() && index == old(index) + 1
      ensures message[..] == old(message[..])[old(index) := c]
      ensures message[..index] == old(message[..index]) + [c]
    {
      message[index] := c;
      index := index + 1;
    }

    /** `PrintBottom`: terminate the buffer, hand the string before the
        terminator to the display, and clear the buffer. */
    method PrintBottom() returns (shown: seq<char>)
      requires Valid() && index < MultiTap.MessageSize
      modifies this`index, message
      ensures Valid() && index == 0 && message[0] == '\0'
      ensures shown == old(message[..index])
      ensures message[..] == old(message[..])[old(index) := '\0'][0 := '\0']
    {
      message[index] := '\0';
      shown := message[..index];
      message[0] := '\0';
      index := 0;
    }
  }

  /** One pass of the main loop once `detected && i >= 16` holds
      (lab3.c:429-513): decode `number[0..16)`, classify, act, and re-arm
      the detector. Returns the bytes written to the UART. */
  method Dispatch(det: FrameDetector, comp: TextComposer) returns (tx: seq<char>)
    requires det.Valid() && comp.Valid() && det.detected && det.i >= FrameBits
    requires comp.keyBuffer != det.buffer && comp.keyBuffer != det.number
    requires MultiTap.CanPress(comp.State(), Classify(Value(det.number[..FrameBits])))
    modifies det`i, det`detected, comp`lastkey, comp`start, comp`index, comp.keyBuffer, comp.message
    ensures det.Valid() && comp.Valid()
    ensures det.State() == old(det.State()).(i := 0, detected := false)
    ensures 0 <= Value(old(det.number[..FrameBits])) < 65536
    ensures var step := MultiTap.Press(old(comp.State()), Classify(Value(old(det.number[..FrameBits]))));
            comp.State() == step.next && tx == step.sent
  {
    var sum := DecodeFrame(det.number);
    Pow2Sixteen();
    tx := comp.Press(Classify(sum));
    det.i := 0;
    det.detected := false;
  }

  /** A run of edges: before the k-th, the fast timer ticks `gaps[k]` times.
      The run must be one the C handles within its arrays. */
  method Receive(det: FrameDetector, gaps: seq<nat>)
    requires det.Valid() && det.delta == 0 && Detector.CanFeed(det.State(), Detector.Bits(gaps))
    modifies det`i, det`detected, det`delta, det.buffer, det.number
    ensures det.Valid() && det.delta == 0
    ensures det.State() == Detector.Feed(old(det.State()), Detector.Bits(gaps))
  {
    ghost var d0 := det.State();
    var n := 0;
    assert gaps[n..] == gaps;
    while n < |gaps|
      invariant 0 <= n <= |gaps| && det.Valid() && det.delta == 0
      invariant Detector.CanFeed(d0, Detector.Bits(gaps[..n]))
      invariant det.State() == Detector.Feed(d0, Detector.Bits(gaps[..n]))
      invariant Detector.CanFeed(det.State(), Detector.Bits(gaps[n..]))
    {
      Detector.BitsSplit(gaps, n);
      var t := 0;
      while t < gaps[n]
        invariant 0 <= t <= gaps[n] && det.Valid() && det.delta == t
        invariant det.State() == Detector.Feed(d0, Detector.Bits(gaps[..n]))
      {
        det.Tick();
        t := t + 1;
      }
      det.Edge();
      Detector.FeedSnoc(d0, Detector.Bits(gaps[..n]), Detector.Bit(gaps[n]));
      n := n + 1;
    }
    assert gaps[..n] == gaps;
  }

  /** The remote sends some samples that hold no preamble before their end,
      then the preamble and the code of button k; the main loop then takes
      exactly the composer step of k and sends what it sends. */
  method ReceiveKey(det: FrameDetector, comp: TextComposer, gaps: seq<nat>, k: Key,
                    ghost junk: seq<int>)
    returns (tx: seq<char>)
    requires det.Valid() && comp.Valid()
    requires comp.keyBuffer != det.buffer && comp.keyBuffer != det.number
    requires !det.detected && det.i == 0 && det.delta == 0 && k != Unknown
    requires Detector.Bits(gaps) == junk + Preamble + Encode(ButtonCode(k), FrameBits)
    requires IsBits(junk) && |junk| + FrameBits + 1 <= Detector.SampleCapacity
    requires forall m :: 0 <= m < |junk| ==> !PreambleAt(junk + Preamble, m)
    requires MultiTap.CanPress(comp.State(), k)
    modifies det`i, det`detected, det`delta, det.buffer, det.number
    modifies comp`lastkey, comp`start, comp`index, comp.keyBuffer, comp.message
    ensures det.Valid() && comp.Valid() && !det.detected && det.i == 0
    ensures var step := MultiTap.Press(old(comp.State()), k);
            comp.State() == step.next && tx == step.sent
  {
    ghost var d := det.State();
    Detector.ReceiveButton(d, junk, k);
    Receive(det, gaps);
    tx := Dispatch(det, comp);
  }

  /** Characters received one by one and then flushed are shown as one
      string, after whatever was pending, in arrival order. */
  method ReceiveAndFlush(b: ReceiveBuffer, s: seq<char>) returns (shown: seq<char>)
    requires b.Valid() && b.index + |s| < MultiTap.MessageSize
    modifies b`index, b.message
    ensures b.Valid() && b.index == 0
    ensures shown == old(b.message[..b.index]) + s
  {
    var k := 0;
    while k < |s|
      invariant 0 <= k <= |s| && b.Valid()
      invariant b.index == old(b.index) + k
      invariant b.message[..b.index] == old(b.message[..b.index]) + s[..k]
    {
      b.RxChar(s[k]);
      assert s[..k + 1] == s[..k] + [s[k]];
      k := k + 1;
    }
    assert s[..k] == s;
    shown := b.PrintBottom();
  }

  /** Enter on one board, the bytes received by another, then its flush:
      the receiver shows exactly slots 0..index of the sender's message. */
  method Transmit(sender: TextComposer, receiver: ReceiveBuffer) returns (shown: seq<char>)
    requires sender.Valid() && receiver.Valid() && sender.message != receiver.message
    requires MultiTap.CanPress(sender.State(), Enter)
    requires receiver.index == 0
    modifies sender`lastkey, sender`start, sender`index, sender.keyBuffer, sender.message
    modifies receiver`index, receiver.message
    ensures shown == old(sender.message[..sender.index + 1])
  {
    var tx := sender.Press(Enter);
    shown := ReceiveAndFlush(receiver, tx);
  }
}
