/** The class-colour table and the key dispatch of the window's event loop. */
module Keys {

  /** One pixel of the colour layer, and a class colour, in OpenCV's channel order: blue, green, red. */
  datatype Color = Color(b: bv8, g: bv8, r: bv8)

  /** The colour the eraser paints. */
  const BLACK: Color := Color(0, 0, 0)

  /** Character codes the loop compares against. */
  const KEY_ESC: int := 0x1B
  const KEY_ZERO: int := 0x30
  const KEY_C: int := 0x63
  const KEY_Q: int := 0x71

  /** What one key press does. `BadClassTable` is the loop's failure when some
      class id is not a single decimal digit: the character code of its
      decimal string cannot be taken. */
  datatype KeyAction = Quit | Commit(classId: int) | Reset | Ignore | BadClassTable

  /** A class id whose decimal string is one character. */
  predicate IsDigitClass(id: int) {
    0 <= id <= 9
  }

  /** The key byte the loop works with: `waitKey() & 0xFF`. For Python's
      integers this is the floored remainder, which is Dafny's `%` for a
      positive divisor. */
  function KeyByte(code: int): (k: int)
    ensures 0 <= k < 256
    ensures (code - k) % 256 == 0
  {
    code % 256
  }

  /** One pass of the event loop's if-chain on key byte `k`: q or Esc quits
      before anything else; a class key commits the selection under that class;
      `c` resets; everything else, backspace included, is ignored. */
  function Dispatch(k: int, classIds: set<int>): (a: KeyAction)
    ensures a == Quit <==> k == KEY_Q || k == KEY_ESC
    ensures a == BadClassTable <==>
              k != KEY_Q && k != KEY_ESC && exists id :: id in classIds && !IsDigitClass(id)
    ensures a.Commit? <==>
              k != KEY_Q && k != KEY_ESC && (forall id :: id in classIds ==> IsDigitClass(id)) &&
              k - KEY_ZERO in classIds
    ensures a.Commit? ==> a.classId in classIds && IsDigitClass(a.classId) && k == KEY_ZERO + a.classId
    ensures a == Reset <==>
              k == KEY_C && forall id :: id in classIds ==> IsDigitClass(id)
  {
    if k == KEY_Q || k == KEY_ESC then Quit
    else if exists id :: id in classIds && !IsDigitClass(id) then BadClassTable
    else if k - KEY_ZERO in classIds then Commit(k - KEY_ZERO)
    else if k == KEY_C then Reset
    else Ignore
  }
}
