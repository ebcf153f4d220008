/** Edge detection on button masks (IO.cpp, ButtonsPressed and
    ButtonPressed): a button is pressed when it is held now and was not held
    at the poll before. */
module Edges {
  import opened Wire

  /** The buttons of `held` that `last` did not hold. */
  function Pressed(held: bv32, last: bv32): bv32
  {
    held & !last
  }

  /** Whether any button of `button` lies in `mask`. */
  predicate Any(mask: bv32, button: bv32)
  {
    mask & button != 0
  }

  /** Only held buttons are pressed, never one held before, and a button
      is pressed exactly when it is held now and was not before. */
  lemma PressedWithin(held: bv32, last: bv32)
    ensures Pressed(held, last) & !held == 0
    ensures Pressed(held, last) & last == 0
  {
  }

  /** A single button is pressed exactly when it is held now and was not
      held before. */
  lemma PressedIff(held: bv32, last: bv32, button: bv32)
    ensures SingleBit(button) ==> (Any(Pressed(held, last), button) <==> Any(held, button) && !Any(last, button))
  {
  }

  /** The pressed test written out on the masks. */
  lemma PressedMask(held: bv32, last: bv32, button: bv32)
    ensures Any(Pressed(held, last), button) <==> held & !last & button != 0
  {
    assert Pressed(held, last) == held & !last;
  }

  /** A pressed button is a held one. */
  lemma PressedAny(held: bv32, last: bv32, button: bv32)
    ensures Any(Pressed(held, last), button) ==> Any(held, button)
  {
  }
}
