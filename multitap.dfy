/** The multi-tap composer as a pure state machine: `Process` (lab3.c:233-287),
    the digit, delete, enter and unknown branches of the main loop's switch
    (lab3.c:444-509) and the `lastkey` reset of `ResetButton` (lab3.c:229).
    The class `Device.TextComposer` runs the same steps on arrays and is
    specified by these functions. */
module MultiTap {
  import opened Keypad

  /** Capacity of `message.message`. */
  const MessageSize := 160

  /** `keySet`: the letters of each key, one character per tap position;
      '\0' stands for the empty strings of the C table (lab3.c:97-107). */
  const KeySet: seq<seq<char>> := [
    "\0\0\0\0", "\0\0\0\0", "ABC\0", "DEF\0", "GHI\0",
    "JKL\0", "MNO\0", "PQRS", "TUV\0", "WXYZ"]

  /** The `numKeys` the main loop passes to `Process` for each key
      (lab3.c:455-476): the number of letters on the key in `keySet`, which
      are the characters before its first '\0'. Keys 0 and 1 carry none and
      never reach `Process`. */
  function KeyCount(k: int): (n: int)
    ensures 0 <= k < 10 ==> 0 <= n <= |KeySet[k]|
    ensures 0 <= k < 10 ==> forall t :: 0 <= t < n ==> KeySet[k][t] != '\0'
    ensures 0 <= k < 10 && n < |KeySet[k]| ==> KeySet[k][n] == '\0'
    ensures 2 <= k < 10 ==> n >= 3
  {
    if k == 7 || k == 9 then 4 else if 2 <= k <= 9 then 3 else 0
  }

  /** The character `Process` stores in `lastkey` for digit key d. */
  function DigitChar(d: DigitValue): (c: char)
    ensures '0' <= c <= '9' && c as int - '0' as int == d
  {
    (48 + d) as char
  }

  /** The composer's share of the globals: `keyBuffer`, `lastkey`, `start`,
      `message.message` and `message.index`. */
  datatype Composer = Composer(keyBuffer: seq<int>, lastkey: char, start: bool,
                               message: seq<char>, index: int)

  /** The state every step preserves: the array sizes, each key's tap count
      within its letter count, and a message index no lower than the -1 a
      delete on slot 0 leaves behind. */
  predicate Wf(c: Composer)
  {
    && |c.keyBuffer| == 10
    && |c.message| == MessageSize
    && -1 <= c.index < MessageSize
    && forall k :: 0 <= k < 10 ==> 0 <= c.keyBuffer[k] <= KeyCount(k)
  }

  /** The state after `message.index = 0` at start-up, with the statics zeroed. */
  function Initial(): (c: Composer)
    ensures Wf(c)
  {
    Composer(seq(10, _ => 0), '\0', false, seq(MessageSize, _ => '\0'), 0)
  }

  /** The slot `Process` writes: a key other than the last one opens the
      next slot, except for the first key of a message. */
  function Slot(c: Composer, key: char): (j: int)
    ensures c.lastkey == key ==> j == c.index
    ensures !c.start ==> j == c.index
    ensures c.start && c.lastkey != key ==> j == c.index + 1
  {
    if c.lastkey != key && c.start then c.index + 1 else c.index
  }

  /** `Process(key, keyIndex, numKeys)`. */
  function Process(c: Composer, key: char, keyIndex: int, numKeys: int): (r: Composer)
    requires Wf(c) && 2 <= keyIndex < 10 && numKeys == KeyCount(keyIndex)
    requires 0 <= Slot(c, key) < MessageSize
    ensures Wf(r) && r.lastkey == key
    ensures r.start == (c.start || c.lastkey != key)
    ensures r.index == Slot(c, key)
    ensures c.lastkey != key ==> r.keyBuffer[keyIndex] == 1
    ensures c.lastkey == key ==> r.keyBuffer[keyIndex] == c.keyBuffer[keyIndex] % numKeys + 1
    ensures r.message[r.index] == KeySet[keyIndex][r.keyBuffer[keyIndex] - 1]
    ensures forall j :: 0 <= j < MessageSize && j != r.index ==> r.message[j] == c.message[j]
    ensures forall k :: 0 <= k < 10 && k != keyIndex ==> r.keyBuffer[k] == c.keyBuffer[k]
  {
    // a new key restarts its count and moves to the next slot (lab3.c:235-241)
    var taps0 := if c.lastkey != key then 0 else c.keyBuffer[keyIndex];
    var index := Slot(c, key);
    // the count wraps once every letter has been shown (lab3.c:242-247)
    var taps := if taps0 == numKeys then 0 else taps0;
    // so the switch's default branches (lab3.c:262, 281) are never taken
    assert 0 <= taps < numKeys;
    // the switch stores the letter for counts below numKeys (lab3.c:248-284)
    var message :=
      if (numKeys == 3 && taps <= 2) || (numKeys != 3 && taps <= 3)
      then c.message[index := KeySet[keyIndex][taps]]
      else c.message;
    Composer(c.keyBuffer[keyIndex := taps + 1], key, c.start || c.lastkey != key, message, index)
  }

  /** `ResetButton`: forget the last key so that its next press opens a new slot. */
  function ResetButton(c: Composer): (r: Composer)
    ensures r.lastkey == '\0'
    ensures r.keyBuffer == c.keyBuffer && r.start == c.start
    ensures r.message == c.message && r.index == c.index
  {
    c.(lastkey := '\0')
  }

  /** The bounds the C relies on for each key: the slot it writes must lie
      inside `message.message`. */
  predicate CanPress(c: Composer, k: Key)
    requires Wf(c)
  {
    match k
    case Digit(d) =>
      if d == 0 then c.index < MessageSize - 1
      else if d == 1 then true
      else 0 <= Slot(c, DigitChar(d)) < MessageSize
    case Delete => 0 <= c.index
    case Enter => c.index < MessageSize - 1
    case Unknown => true
  }

  /** A step of the composer: the new state and the bytes written to the UART. */
  datatype Step = Step(next: Composer, sent: seq<char>)

  /** One pass of the main loop's switch on a classified code. */
  function Press(c: Composer, k: Key): (r: Step)
    requires Wf(c) && CanPress(c, k)
    ensures Wf(r.next)
    ensures |r.sent| == if k == Enter then c.index + 1 else 0
    ensures k == Enter ==> r.sent == c.message[..c.index + 1]
    ensures k == Enter ==> r.next.index == 0 && r.next.message[0] == '\0'
                            && !r.next.start && r.next.keyBuffer == c.keyBuffer
    ensures (k.Digit? && k.d >= 2) || r.next.keyBuffer == c.keyBuffer
    ensures k.Digit? && k.d >= 2 ==> r.next == Process(c, DigitChar(k.d), k.d, KeyCount(k.d))
    ensures k == Digit(0) ==>
              && r.next.index == c.index + 1 && r.next.message[c.index + 1] == ' '
              && (forall j :: 0 <= j < MessageSize && j != c.index + 1 ==> r.next.message[j] == c.message[j])
              && r.next.start == c.start && r.next.lastkey == '0'
    ensures k == Digit(1) ==> r.next == c.(lastkey := '1')
    ensures k == Delete ==>
              && r.next.index == c.index - 1 && r.next.message[c.index] == '\0'
              && (forall j :: 0 <= j < MessageSize && j != c.index ==> r.next.message[j] == c.message[j])
              && r.next.start == c.start && r.next.lastkey == 'd'
    ensures k == Enter ==>
              && r.next.lastkey == 'e'
              && (forall j :: 0 < j < MessageSize && j != c.index + 1 ==> r.next.message[j] == c.message[j])
              && (c.index >= 0 ==> r.next.message[c.index + 1] == '\0')
    ensures k == Unknown ==> r.next == c.(lastkey := 'u')
  {
    match k
    case Digit(d) =>
      if d == 0 then
        // a space in the slot after the current one (lab3.c:445-449)
        Step(c.(message := c.message[c.index + 1 := ' '], index := c.index + 1, lastkey := '0'), [])
      else if d == 1 then
        Step(c.(lastkey := '1'), [])
      else
        Step(Process(c, DigitChar(d), d, KeyCount(d)), [])
    case Delete =>
      // clear the current slot, then step back with no lower bound (lab3.c:478-485)
      Step(c.(message := c.message[c.index := '\0'], index := c.index - 1, lastkey := 'd'), [])
    case Enter =>
      // terminate after the current slot, send slots 0..index, clear (lab3.c:486-504)
      var m := c.message[c.index + 1 := '\0'];
      Step(c.(message := m[0 := '\0'], index := 0, start := false, lastkey := 'e'),
           m[..c.index + 1])
    case Unknown =>
      Step(c.(lastkey := 'u'), [])
  }

  /** n consecutive presses of letter key d, the first of which follows some
      other key (or a reset). */
  function PressRepeated(c: Composer, d: DigitValue, n: nat): (r: Composer)
    requires Wf(c) && 2 <= d && n >= 1
    requires c.lastkey != DigitChar(d) && 0 <= Slot(c, DigitChar(d)) < MessageSize
    ensures Wf(r) && r.lastkey == DigitChar(d) && r.start
    ensures r.index == Slot(c, DigitChar(d))
    ensures r.keyBuffer[d] == (n - 1) % KeyCount(d) + 1
    ensures r.message[r.index] == KeySet[d][(n - 1) % KeyCount(d)]
    ensures forall j :: 0 <= j < MessageSize && j != r.index ==> r.message[j] == c.message[j]
    decreases n
  {
    if n == 1 then Process(c, DigitChar(d), d, KeyCount(d))
    else
      var p := PressRepeated(c, d, n - 1);
      var k := KeyCount(d);
      TapStep(n - 1, k);
      var r := Process(p, DigitChar(d), d, k);
      assert r.index == p.index;
      assert r.keyBuffer[d] == p.keyBuffer[d] % k + 1 == (n - 1) % k + 1;
      r
  }

  /** One more tap advances the letter index by one, modulo the letter count. */
  lemma TapStep(m: nat, k: int)
    requires m >= 1 && (k == 3 || k == 4)
    ensures ((m - 1) % k + 1) % k == m % k
  {
    if k == 3 {
      assert ((m - 1) % 3 + 1) % 3 == m % 3;
    } else {
      assert ((m - 1) % 4 + 1) % 4 == m % 4;
    }
  }

  /** Pressing a key four times cycles through its letters and back:
      key 2 gives A, B, C, A. */
  lemma CycleExample(c: Composer)
    requires Wf(c) && c.lastkey != '2' && 0 <= Slot(c, '2') < MessageSize
    ensures PressRepeated(c, 2, 1).message[Slot(c, '2')] == 'A'
    ensures PressRepeated(c, 2, 2).message[Slot(c, '2')] == 'B'
    ensures PressRepeated(c, 2, 3).message[Slot(c, '2')] == 'C'
    ensures PressRepeated(c, 2, 4).message[Slot(c, '2')] == 'A'
  {
  }

  /** After `ResetButton`, the same key opens the next slot with its first letter. */
  lemma ResetOpensNewSlot(c: Composer, d: DigitValue, n: nat)
    requires Wf(c) && 2 <= d && n >= 1
    requires c.lastkey != DigitChar(d) && 0 <= Slot(c, DigitChar(d)) < MessageSize - 1
    ensures var s := Slot(c, DigitChar(d));
            var r := Press(ResetButton(PressRepeated(c, d, n)), Digit(d)).next;
            && r.index == s + 1
            && r.message[s + 1] == KeySet[d][0]
            && r.message[s] == KeySet[d][(n - 1) % KeyCount(d)]
  {
  }

  /** Delete undoes the slot advance of key 0: the index returns and the
      space is replaced by a terminator. */
  lemma DeleteUndoesZero(c: Composer)
    requires Wf(c) && c.index < MessageSize - 1
    ensures var r := Press(Press(c, Digit(0)).next, Delete).next;
            r.index == c.index && r.message == c.message[c.index + 1 := '\0']
  {
  }

  /** After enter, the next letter key starts the new message in slot 0. */
  lemma EnterRestartsMessage(c: Composer, d: DigitValue)
    requires Wf(c) && c.index < MessageSize - 1 && 2 <= d
    ensures var e := Press(c, Enter).next;
            var r := Press(e, Digit(d)).next;
            r.index == 0 && r.message[0] == KeySet[d][0]
  {
  }

  /** Key 2 once gives A in slot 0; a second press before the reset
      replaces it by B. */
  lemma ScenarioSameKeyReplaces()
    ensures Press(Initial(), Digit(2)).next.message[0] == 'A'
    ensures var r := Press(Press(Initial(), Digit(2)).next, Digit(2)).next;
            r.index == 0 && r.message[0] == 'B'
  {
  }

  /** Key 2, reset, key 2 gives "AA". */
  lemma ScenarioResetBetween()
    ensures var r := Press(ResetButton(Press(Initial(), Digit(2)).next), Digit(2)).next;
            r.index == 1 && r.message[..2] == "AA"
  {
  }

  /** Keys 2, 6, 6 and enter send "AN". */
  lemma ScenarioSendAN()
    ensures var s1 := Press(Initial(), Digit(2)).next;
            var s2 := Press(s1, Digit(6)).next;
            var s3 := Press(s2, Digit(6)).next;
            Press(s3, Enter).sent == "AN"
  {
  }

  /** Enter on a fresh message still sends one byte, the terminator in slot 0. */
  lemma ScenarioEmptyEnter()
    ensures Press(Initial(), Enter).sent == "\0"
  {
  }

  /** Delete on a fresh message leaves the index at -1, below the first
      slot; since the message has not started, the next letter key would
      write that slot, outside `message.message`. */
  lemma ScenarioDeleteOnEmpty(d: DigitValue)
    requires 2 <= d
    ensures var r := Press(Initial(), Delete).next;
            r.index == -1 && Slot(r, DigitChar(d)) == -1 && !CanPress(r, Digit(d))
  {
  }
}
