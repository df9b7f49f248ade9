/** The remote's buttons: the twelve 16-bit codes the main loop switches on
    (lab3.c:46-57, 444-509) and the classification of a decoded code. */
module Keypad {

  /** A digit printed on the remote, 0 to 9. */
  type DigitValue = d: int | 0 <= d < 10

  /** What a decoded code means to the main loop: one of the ten digit
      buttons, LAST (delete), MUTE (enter), or a code it does not know. */
  datatype Key = Digit(d: DigitValue) | Delete | Enter | Unknown

  const ButtonZero := 255
  const ButtonOne := 32895
  const ButtonTwo := 16575
  const ButtonThree := 49215
  const ButtonFour := 8415
  const ButtonFive := 41055
  const ButtonSix := 24735
  const ButtonSeven := 57375
  const ButtonEight := 4335
  const ButtonNine := 36975
  const ButtonLast := 765
  const ButtonMute := 2295

  /** True when the low byte of a 16-bit word is the bitwise complement of its
      high byte, the check byte of the NEC infrared convention. */
  predicate IsNecWord(c: int)
  {
    0 <= c < 65536 && c % 256 == 255 - c / 256
  }

  /** The code a button sends. */
  function ButtonCode(k: Key): (c: int)
    requires k != Unknown
    ensures IsNecWord(c)
  {
    match k
    case Digit(d) =>
      if d == 0 then ButtonZero
      else if d == 1 then ButtonOne
      else if d == 2 then ButtonTwo
      else if d == 3 then ButtonThree
      else if d == 4 then ButtonFour
      else if d == 5 then ButtonFive
      else if d == 6 then ButtonSix
      else if d == 7 then ButtonSeven
      else if d == 8 then ButtonEight
      else ButtonNine
    case Delete => ButtonLast
    case Enter => ButtonMute
  }

  /** The `switch(sum)` of the main loop: an exact match against the twelve
      button codes, anything else is unknown. */
  function Classify(code: int): (k: Key)
    ensures k != Unknown ==> ButtonCode(k) == code
    ensures k == Unknown <==> forall b: Key :: b != Unknown ==> ButtonCode(b) != code
  {
    if code == ButtonZero then Digit(0)
    else if code == ButtonOne then Digit(1)
    else if code == ButtonTwo then Digit(2)
    else if code == ButtonThree then Digit(3)
    else if code == ButtonFour then Digit(4)
    else if code == ButtonFive then Digit(5)
    else if code == ButtonSix then Digit(6)
    else if code == ButtonSeven then Digit(7)
    else if code == ButtonEight then Digit(8)
    else if code == ButtonNine then Digit(9)
    else if code == ButtonLast then Delete
    else if code == ButtonMute then Enter
    else Unknown
  }

  /** Every button is recognised as itself; in particular the twelve codes
      are pairwise distinct. */
  lemma ClassifyButtonCode(k: Key)
    requires k != Unknown
    ensures Classify(ButtonCode(k)) == k
  {
  }

  /** Two buttons never share a code. */
  lemma ButtonCodesDistinct(k1: Key, k2: Key)
    requires k1 != Unknown && k2 != Unknown && k1 != k2
    ensures ButtonCode(k1) != ButtonCode(k2)
  {
    ClassifyButtonCode(k1);
    ClassifyButtonCode(k2);
  }
}
