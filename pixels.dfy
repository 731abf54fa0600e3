/** Values of the single-channel uint8 buffers (region mask, flood scratch,
    line mask) and the pixelwise operations the selection edits apply to them.

    A byte is a `bv8`, so OpenCV's `bitwise_and`, `bitwise_or` and
    `bitwise_not` on uint8 images are exactly `&`, `|` and `!` per pixel. */
module Pixels {
  import opened Events

  const ON: bv8 := 255
  const OFF: bv8 := 0

  /** The region-mask invariant, per pixel: the value is 0 or 255. */
  predicate IsBinary(v: bv8) {
    v == OFF || v == ON
  }

  /** Set semantics of each edit on membership flags: `inMask` is "selected
      before the click", `inFill` is "reached by the flood fill". */
  predicate Selected(op: SetOp, inMask: bool, inFill: bool) {
    match op
    case Replace => inFill
    case Union => inMask || inFill
    case Intersect => inMask && inFill
    case Subtract => inMask && !inFill
  }

  /** One pixel of an edit: the OpenCV bitwise call that the handler makes for
      `op`, applied to the current mask value and the cropped flood value.
      On binary inputs the result is binary and is 255 exactly when the pixel
      belongs to the set the edit describes. */
  function Combine(op: SetOp, cur: bv8, fill: bv8): (r: bv8)
    ensures IsBinary(cur) && IsBinary(fill) ==>
              IsBinary(r) && (r == ON <==> Selected(op, cur == ON, fill == ON))
  {
    match op
    case Replace => fill
    case Union => cur | fill
    case Intersect => cur & fill
    case Subtract => cur & !fill
  }

  /** OpenCV flood-fill flag bits used by the window. */
  const FLOODFILL_FIXED_RANGE: bv32 := 0x1_0000
  const FLOODFILL_MASK_ONLY: bv32 := 0x2_0000

  /** `connectivity | FLOODFILL_FIXED_RANGE | FLOODFILL_MASK_ONLY | 255 << 8`:
      the low byte carries the connectivity and bits 8..15 carry the value the
      fill writes into the scratch mask. */
  function FloodFlags(connectivity: bv32): (f: bv32)
    ensures f & 0xFF == connectivity & 0xFF
    ensures FillValue(f) == ON
    ensures f & FLOODFILL_FIXED_RANGE != 0 && f & FLOODFILL_MASK_ONLY != 0
  {
    connectivity | FLOODFILL_FIXED_RANGE | FLOODFILL_MASK_ONLY | (255 << 8)
  }

  /** The byte OpenCV writes into the mask for a mask-only fill: bits 8..15 of the flags. */
  function FillValue(flags: bv32): bv8 {
    ((flags >> 8) & 0xFF) as bv8
  }

  /** The value OpenCV writes on the one-pixel frame of the padded mask before
      it fills, so that the fill never leaves the image. */
  const BORDER: bv8 := 1

  /** Whether `cv.floodFill` raises before it fills anything: the connectivity
      in the low byte of the flags is not 0 (read as 4), 4 or 8, a tolerance
      channel is negative, or the seed (column x, row y) lies outside the
      h x w image. */
  predicate FloodRaises(flags: bv32, tol: (int, int, int), seed: Point, h: int, w: int) {
    var c := flags & 0xFF;
    || (c != 0 && c != 4 && c != 8)
    || tol.0 < 0 || tol.1 < 0 || tol.2 < 0
    || !(0 <= seed.x < w && 0 <= seed.y < h)
  }

  /** A window built with connectivity 4 or 8 and a non-negative tolerance
      fills exactly from the seeds inside the image. */
  lemma FloodAcceptsInsideSeeds(connectivity: bv32, t: int, seed: Point, h: int, w: int)
    requires connectivity == 4 || connectivity == 8
    requires t >= 0
    ensures FloodRaises(FloodFlags(connectivity), (t, t, t), seed, h, w) <==> !(0 <= seed.x < w && 0 <= seed.y < h)
  {
  }

  /** Clicking twice with Shift at two seeds gives the same mask in either order,
      and so does clicking twice with Alt+Shift. */
  lemma UnionAndIntersectOrderFree(m: bv8, a: bv8, b: bv8)
    ensures Combine(Union, Combine(Union, m, a), b) == Combine(Union, Combine(Union, m, b), a)
    ensures Combine(Intersect, Combine(Intersect, m, a), b) == Combine(Intersect, Combine(Intersect, m, b), a)
  {
  }

  /** A repeated click at the same seed with the same fill changes nothing for
      every edit: each set operation is idempotent. */
  lemma RepeatedClickIdempotent(op: SetOp, m: bv8, f: bv8)
    ensures Combine(op, Combine(op, m, f), f) == Combine(op, m, f)
  {
    match op
    case Replace =>
    case Union => assert (m | f) | f == m | f;
    case Intersect => assert (m & f) & f == m & f;
    case Subtract => assert (m & !f) & !f == m & !f;
  }
}
