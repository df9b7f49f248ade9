# Board-to-board texting over an infrared remote, in Dafny

`lab3.c` runs on a CC3200 board. An infrared receiver produces falling edges.
A fast timer counts ticks between edges, and each gap becomes a bit: more than
3 ticks is a 1, otherwise a 0. The bits collect in `buffer[]` until the 16-bit
preamble 0000 0010 1111 1101 appears. The bits after it are moved to
`number[]`. Once 16 data bits are there, the main loop packs them into a code,
most significant bit first, and switches on it. The switch knows the twelve
buttons of the remote. Letter keys 2 to 9 compose text by multi-tap (`Process`),
0 types a space, LAST deletes, and MUTE sends the message over the UART. A 1 s
timer (`ResetButton`) forgets the last key. Characters arriving on the UART are
collected in `rmsg` and flushed to the screen by a second 1 s timer
(`PrintBottom`).

The model has five modules:

- `Keypad` (keypad.dfy): the button codes and the exact-match classification.
- `Frame` (frame.dfy): the preamble search as a function, and the decode sum
  `Value` with its inverse `Encode`.
- `Detector` (detector.dfy): the detector's globals (`buffer`, `number`, `i`,
  `detected`) as a datatype. `FindPattern` and one edge (`Edge`) are pure
  functions over it, and `Feed` runs one edge per sample. `CanFeed` says
  which runs stay inside the arrays. The lemmas follow a preamble and a
  frame through the detector, after any samples that hold no preamble.
- `MultiTap` (multitap.dfy): the composer's globals (`keyBuffer`, `lastkey`,
  `start`, `message`, `message.index`) as a datatype. `Process`, the switch
  (`Press`) and the reset are pure functions over it.
- `Device` (board.dfy): the globals as three objects, with one method per
  event:
  - `FrameDetector`: `Tick`, `Edge` and `FindPattern` (its copy loop is the
    method `MoveFrame`).
  - `TextComposer`: `Process`, `Press` and `ResetButton`.
  - `ReceiveBuffer`, which is `rmsg`: `RxChar` and `PrintBottom`.

  `sameArray` and the main loop's sum are the module-level methods
  `SameArray` and `DecodeFrame`. Each method runs as one atomic step.
  `FindPattern`, `Edge`, `Process`, `Press` and `ResetButton` are proved
  equal to the pure functions of the same names in `Detector` and
  `MultiTap`. `Tick`, `MoveFrame`, `SameArray`, `DecodeFrame`, `RxChar` and
  `PrintBottom` state their effect directly. `Dispatch` is one pass of the
  main loop. The client methods connect the pieces:
  - `Receive`: a run of ticks and edges.
  - `ReceiveKey`: the remote's preamble and the code of a button, then
    `Dispatch`.
  - `ReceiveAndFlush` and `Transmit`: enter on one board, receive and flush
    on another.

The model follows the code as written:

- `findPattern` examines only offsets below `i - 16`, so a preamble ending at
  the newest sample is found one edge later. `FindPreambleOneEdgeLater` proves
  that the next search returns that same offset. The preamble is therefore
  found on the second sample after it. The first
  sample of the frame reaches `number[0]` through the copy of `findPattern`,
  and `ReceiveFrame` proves that the 16 data samples still arrive intact.
- Delete has no lower bound. On a message that has not started it leaves
  `message.index` at -1, and the next letter key would write `message[-1]`.
  `ScenarioDeleteOnEmpty` shows this.
- Enter on a fresh message still sends one byte, the `'\0'` in slot 0.
- After a reset, the tap count of a key is kept, but the next press of that key
  opens a new slot and starts again from its first letter.
- The bits 1000 0010 0111 1100 decode to 0x827C (`DecodeExample`).

C writes outside an array are undefined behaviour. The model excludes each one
with a `requires`:
- `Detector.CanEdge`: an edge needs `i < 100` unless the search is about to
  move the samples back. `Detector.CanFeed` asks this of every edge of a
  run, so a run longer than the arrays is allowed when a detection makes
  room.
- `MultiTap.CanPress`: for each key, the slot the switch writes must lie
  inside the message.
- `RxChar` and `PrintBottom` need the `rmsg` cursor below 160.

## Model

| member | source | states |
|---|---|---|
| `Keypad.ButtonCode` | lab3.c:46-57 | every button code is a 16-bit NEC word: its low byte is the complement of its high byte |
| `Keypad.Classify` | lab3.c:444-509 | a code is classified as a button exactly when it equals that button's code; it is unknown exactly when no button has that code |
| `Keypad.ClassifyButtonCode` | lab3.c:444-509 | classifying the code of any button gives back that button |
| `Keypad.ButtonCodesDistinct` | lab3.c:46-57 | no two buttons share a code |
| `Frame.PreambleAt` | lab3.c:187-195 | the window at offset m holds the preamble exactly when it lies inside the buffer and each of its 16 samples equals the preamble's sample at the same position, as `sameArray` compares them |
| `Frame.PreambleAtPrefix` | lab3.c:187-195 | whether a window holds the preamble depends only on the samples inside it |
| `Frame.FindPreamble` | lab3.c:197-209 | the result is the lowest offset m < n - 16 where the 16 samples equal the preamble; None means no offset below n - 16 holds it |
| `Frame.FindPreambleFirst` | lab3.c:204-209 | when offset j holds the preamble, lies below n - 16 and no lower offset holds it, the search returns j |
| `Frame.PreambleBehind` | lab3.c:187-209 | samples of 0 and 1 in which no preamble starts, followed by the preamble and one more sample, still hold only 0 and 1 and no earlier preamble |
| `Frame.FindPreambleAfter` | lab3.c:204-209 | with such samples buffered, the last one is the extra sample and the search stops exactly where the preamble starts |
| `Frame.FindPreambleOneEdgeLater` | lab3.c:204 | a preamble ending at the newest sample, missed because of the strict bound, is found at the same offset by the search after the next edge |
| `Frame.Encode` | lab3.c:433-436 | the frame that carries a code has exactly n samples |
| `Frame.Value` | lab3.c:433-436 | a frame of n samples, each 0 or 1, decodes to a value in [0, 2^n), so a 16-bit frame gives [0, 65535] |
| `Frame.EncodeIsBits` | lab3.c:433-436 | an encoded frame holds only 0 and 1 samples |
| `Frame.ValueSnoc` | lab3.c:433-436 | appending a sample doubles the decoded value and adds the sample |
| `Frame.DecodeEncode` | lab3.c:433-436 | decoding the n-bit encoding of any code below 2^n gives that code back |
| `Frame.EncodeDecode` | lab3.c:433-436 | encoding the decoded value of a bit frame gives the frame back, so distinct frames decode to distinct codes |
| `Frame.EncodePreamble` | lab3.c:199-202 | the preamble is the 16-bit encoding of 0x02FD |
| `Frame.PreambleValue` | lab3.c:199-202 | the preamble decodes to 0x02FD, an NEC address byte followed by its complement |
| `Frame.DecodeExample` | lab3.c:433-436 | the bits 1000 0010 0111 1100 decode to 0x827C, with the first bit most significant |
| `Detector.Bit` | lab3.c:308-311 | the sample is 0 or 1, and it is 1 exactly when more than 3 ticks passed since the last edge |
| `Detector.BitsSplit` | lab3.c:300-328 | the samples of a run of gaps split at any edge into the samples before it, its own sample and the samples after it |
| `Detector.FindPattern` | lab3.c:197-218 | `buffer` is never changed; with no preamble below i - 16 nothing changes; on the first match m, `number[0..k)` becomes `buffer[m+16..i)`, the rest of `number` is kept, `detected` is set and `i = k = i-m-16 >= 1` |
| `Detector.Edge` | lab3.c:300-328 | the state stays well formed and `i` grows by at most one; afterwards a frame is detected exactly when one was before, or when at least 16 samples were buffered and the search found a preamble |
| `Detector.EdgeStores` | lab3.c:318-324 | an edge that ends undetected appends its sample to `buffer` at `i`; an edge after detection appends it to `number` at `i`; the other array is unchanged and `i` grows by one |
| `Detector.EdgeDetects` | lab3.c:315-324 | the edge that finds the preamble at m leaves `buffer` unchanged, puts `buffer[m+16..i)` followed by its own sample at the front of `number`, keeps the rest of `number`, and sets `i` to i-m-15 >= 2 |
| `Detector.Feed` | lab3.c:300-328 | one edge per sample, on a run in which every edge has room, keeps the state well formed and advances `i` by at most the number of samples |
| `Detector.CanFeedWithinCapacity` | lab3.c:318-321 | every run of samples that fits between the cursor and the end of the arrays has room for every edge |
| `Detector.FeedConcat` | lab3.c:300-328 | a run is safe exactly when its first part is safe and its second part is safe from the state the first part leaves; feeding it is feeding the two parts in turn |
| `Detector.FeedSnoc` | lab3.c:300-328 | a run extended by one sample is safe exactly when the run is safe, the sample is a bit and the state after the run has room for one more edge; feeding it is one more edge |
| `Detector.CollectStep` | lab3.c:315-321 | when the search finds no preamble and no frame is detected, the edge appends its sample to `buffer` at `i` |
| `Detector.AppendStep` | lab3.c:315-324 | once a frame is detected, the search no longer runs and the edge appends its sample to `number` |
| `Detector.FeedCollects` | lab3.c:300-328 | samples that fit in `buffer` and hold no preamble at any offset the searches examine are safe and are stored in order behind the samples already there, with no detection and `number` unchanged |
| `Detector.FeedAppends` | lab3.c:318-324 | after detection, every run that fits behind the cursor is safe and is stored in order in `number` behind the samples already there |
| `Detector.DetectStep` | lab3.c:300-328 | when the search stops at the offset just before the newest sample, the edge detects the preamble: the newest sample moves to `number[0]`, the edge's own sample to `number[1]`, and `i` becomes 2 |
| `Detector.DetectAndAppend` | lab3.c:300-328 | in that state, the remaining 15 samples of a frame whose first sample is the newest one are safe and leave the whole frame in `number[0..16)`, with `detected` set and `i = 16` |
| `Detector.AppendFrame` | lab3.c:318-324 | with the first two samples of a frame at the front of `number` after a detection, the other 14 are a safe run that completes the frame in `number[0..16)` with `i = 16` |
| `Detector.BufferPreamble` | lab3.c:300-328 | from an empty buffer, samples in which no preamble starts, then the preamble and one more sample, are safe and buffered without a detection, and the next search stops where the preamble starts |
| `Detector.ReceiveFrame` | lab3.c:300-328 | up to 83 samples in which no preamble starts, then the preamble and a 16-sample frame, fed to an empty detector, form a safe run that leaves the frame in `number[0..16)` with `detected` set and `i = 16`, so the main loop's guard holds |
| `Detector.ReceiveButton` | lab3.c:429-509 | after such samples, the preamble followed by the 16-bit code of a button is a safe run that leaves a frame decoding to that code and classified as that button |
| `Detector.ReceiveAfterOnes` | lab3.c:300-328 | up to 83 samples of 1 before the preamble still let a frame through intact; with 80 of them the safe run is 112 samples long, longer than the arrays |
| `MultiTap.Initial` | lab3.c:94-108 | the start-up composer state is well formed: all tap counts 0, no last key, not started, index 0 |
| `MultiTap.KeyCount` | lab3.c:455-476 | the `numKeys` passed for each key is the number of letters of its `keySet` row, the characters before its first '\0', and at least 3 for keys 2 to 9 |
| `MultiTap.Slot` | lab3.c:235-241 | a repeated key stays in slot `index`, the first key of a message writes slot `index`, and any other new key writes slot `index + 1` |
| `MultiTap.Process` | lab3.c:233-287 | a new key restarts its count at 1 and opens the next slot, or slot `index` for the first key of a message; a repeated key advances its count modulo numKeys in the same slot; the slot then holds letter count-1 of the key; the count stays within 1..numKeys; no other slot or count changes |
| `MultiTap.ResetButton` | lab3.c:229 | only `lastkey` changes, to '\0'; counts, message, index and start are kept |
| `MultiTap.Press` | lab3.c:444-509 | each branch keeps the state well formed; a letter key is `Process` with its `numKeys`; key 0 moves `index` up by one and writes a space there; key 1 only sets `lastkey`; delete clears slot `index` and moves `index` down by one with no lower bound; enter sends slots 0..index in order (index+1 bytes), terminates after slot `index` and clears slot 0, and leaves index 0, start false and the counts as they were; every other slot is kept; only letter keys change the counts; only enter sends bytes; an unknown code changes only `lastkey` to 'u' |
| `MultiTap.PressRepeated` | lab3.c:242-286 | the n-th consecutive press of a letter key with K letters writes letter (n-1) mod K in one fixed slot, with count (n-1) mod K + 1, and leaves every other slot as it was |
| `MultiTap.CycleExample` | lab3.c:99 | pressing key 2 four times shows A, B, C, then A again |
| `MultiTap.ResetOpensNewSlot` | lab3.c:229 | after the reset, the same key writes its first letter in the next slot and keeps the letter it left behind |
| `MultiTap.DeleteUndoesZero` | lab3.c:478-485 | delete right after key 0 restores the index and leaves a terminator where the space was |
| `MultiTap.EnterRestartsMessage` | lab3.c:486-504 | after enter, the next letter key writes its first letter in slot 0 |
| `MultiTap.ScenarioSameKeyReplaces` | lab3.c:233-287 | key 2 once puts A in slot 0; a second press before the reset replaces it with B |
| `MultiTap.ScenarioResetBetween` | lab3.c:229 | key 2, a reset, then key 2 again compose "AA" |
| `MultiTap.ScenarioSendAN` | lab3.c:486-497 | keys 2, 6, 6 and enter send exactly "AN" |
| `MultiTap.ScenarioEmptyEnter` | lab3.c:490-497 | enter on a fresh message sends one byte, '\0' |
| `MultiTap.ScenarioDeleteOnEmpty` | lab3.c:484 | delete on a fresh message leaves index -1, and the next letter key would write slot -1 |
| `Device.SameArray` | lab3.c:187-195 | true exactly when the 16 elements at the offset equal the pattern |
| `Device.DecodeFrame` | lab3.c:433-436 | the sum equals `Value` of `number[0..16)` |
| `Device.FrameDetector.constructor` | lab3.c:88-93 | both arrays zeroed and fresh, `i` and `delta` 0, nothing detected |
| `Device.FrameDetector.Tick` | lab3.c:342-346 | `delta` increases by one and nothing else changes |
| `Device.FrameDetector.FindPattern` | lab3.c:197-218 | the arrays and fields become `Detector.FindPattern` of the old state |
| `Device.FrameDetector.MoveFrame` | lab3.c:210-217 | `number` becomes the samples behind the preamble followed by its old tail, `detected` is set and `i` is the count of copied samples |
| `Device.FrameDetector.Edge` | lab3.c:300-328 | `delta` becomes 0, and the arrays and fields become `Detector.Edge` of the old state with the bit 1 exactly when `delta > 3` |
| `Device.TextComposer.constructor` | lab3.c:94-114 | all counts 0, message cleared, no last key, not started, index 0: `MultiTap.Initial` |
| `Device.TextComposer.ResetButton` | lab3.c:221-231 | the composer state becomes `MultiTap.ResetButton` of the old one |
| `Device.TextComposer.Process` | lab3.c:233-287 | the arrays and fields become `MultiTap.Process` of the old state |
| `Device.TextComposer.Press` | lab3.c:444-509 | the arrays and fields become `MultiTap.Press` of the old state, and the bytes written to the UART are the ones it sends |
| `Device.ReceiveBuffer.constructor` | lab3.c:115 | the buffer is cleared and the cursor is 0 |
| `Device.ReceiveBuffer.RxChar` | lab3.c:289-298 | the character is stored at the cursor, the cursor grows by one, and no other slot changes |
| `Device.ReceiveBuffer.PrintBottom` | lab3.c:329-340 | the shown string is the buffer before the cursor; the cursor becomes 0 and slot 0 the terminator |
| `Device.Dispatch` | lab3.c:428-513 | the decoded code lies in [0, 65535]; the composer steps by `Press` on its classification; the detector keeps its arrays, with `i` 0 and `detected` false |
| `Device.Receive` | lab3.c:300-346 | a safe run of ticks and edges takes the detector to `Detector.Feed` of its old state on the bits of the gaps |
| `Device.ReceiveKey` | lab3.c:428-513 | after the remote sends samples in which no preamble starts, then the preamble and the code of button k, the main loop takes exactly the composer step `MultiTap.Press` of k and sends what it sends, and the detector is re-armed |
| `Device.ReceiveAndFlush` | lab3.c:289-340 | characters received one by one and then flushed are shown as one string, in arrival order, after whatever was pending |
| `Device.Transmit` | lab3.c:486-504 | the receiving board shows exactly slots 0..index of the sending board's message |

## Left out

- Peripheral and board set-up (`BoardInit`, pin mux, timer, GPIO, SPI and UART configuration, interrupt registration): driver calls with no logic.
- Drawing and logging (`fillRect`, `deleteChar`, `setCursor`, `Outstr`, `Report`, `DisplayBanner`) and the `top`/`bot` pixel coordinates that feed them. The UART bytes of enter are the return value of `Press`/`Dispatch`, and the flushed string is the return value of `PrintBottom`.
- Device.ReceiveBuffer.PrintBottom: returns the characters before the cursor. The display stops at the first '\0', so a received '\0' would cut the shown text short.
- Timer enable, disable and reload, and the real periods (1000 ms, 0.5 ms): ticks and timeouts are explicit calls of `Tick`, `ResetButton` and `PrintBottom`, and a gap between edges is a count of ticks.
- Concurrency between the interrupt handlers and the busy-waiting main loop: each handler is one atomic step, and `Dispatch` is called when its guard `detected && i >= 16` holds.
- Floating-point `pow` in the decode sum: the sum is computed in exact integer arithmetic, which gives the same value for 16 bits.
- Device.FrameDetector.Tick: `delta` is unbounded; the 32-bit `int` would overflow only after about 2^31 ticks with no edge.
- Behaviour past the array bounds or at a negative `message.index`: undefined in C, excluded by the preconditions above.
- The global `value` is only a temporary of `GPIOEdgeHandler` and is a local of `Edge`; `detected` and `start` are `bool` where the C uses `int` 0/1. The globals are grouped into three objects, which never share an array.
