/** Mouse events and modifier decoding of the selection window.

    The numeric codes are OpenCV's HighGUI constants: the event kinds that the
    two mouse handlers look at, and the three modifier bits the main handler
    masks out of the event flags. */
module Events {

  /** OpenCV mouse event kinds. */
  const EVENT_MOUSEMOVE: int := 0
  const EVENT_LBUTTONDOWN: int := 1
  const EVENT_LBUTTONUP: int := 4

  /** OpenCV modifier bits of the `flags` argument of a mouse callback. */
  const CTRL: bv32 := 8
  const SHIFT: bv32 := 16
  const ALT: bv32 := 32

  /** A pointer coordinate as the callbacks receive it: column x, row y. */
  datatype Point = Point(x: int, y: int)

  /** The pixelwise set operations that combine the region mask with a fresh flood fill. */
  datatype SetOp = Replace | Union | Intersect | Subtract

  /** What a left-button press on the main window does. */
  datatype Edit = Select(op: SetOp) | LineCut

  /** The modifier bits the handler keeps: `flags & (ALT + SHIFT + CTRL)`. */
  function Modifier(flags: bv32): bv32 {
    flags & (ALT + SHIFT + CTRL)
  }

  /** The if/elif chain of the main mouse handler. Every combination that is
      not exactly Alt+Shift, Shift, Alt or Ctrl falls through to Replace. */
  function Decode(flags: bv32): (e: Edit)
    ensures e == Select(Intersect) <==> flags & ALT != 0 && flags & SHIFT != 0 && flags & CTRL == 0
    ensures e == Select(Union) <==> flags & SHIFT != 0 && flags & ALT == 0 && flags & CTRL == 0
    ensures e == Select(Subtract) <==> flags & ALT != 0 && flags & SHIFT == 0 && flags & CTRL == 0
    ensures e == LineCut <==> flags & CTRL != 0 && flags & ALT == 0 && flags & SHIFT == 0
    ensures e == Select(Replace) <==>
              (flags & (ALT | SHIFT | CTRL) == 0) || (flags & CTRL != 0 && flags & (ALT | SHIFT) != 0)
  {
    var m := Modifier(flags);
    if m == ALT + SHIFT then Select(Intersect)
    else if m == SHIFT then Select(Union)
    else if m == ALT then Select(Subtract)
    else if m == CTRL then LineCut
    else Select(Replace)
  }

  /** Bits outside the three modifiers (the button bits OpenCV also sets) never change the edit. */
  lemma DecodeIgnoresOtherBits(flags: bv32, other: bv32)
    requires other & (ALT | SHIFT | CTRL) == 0
    ensures Decode(flags | other) == Decode(flags)
  {
  }
}
