/** In-place whole-image operations on the window's buffers: the numpy slice
    assignments and OpenCV bitwise calls of the selection window, one pixel
    at a time in row-major order. */
module Raster {
  import opened Events
  import opened Pixels
  import opened Cut
  import opened Keys

  /** `a[:] = v`. */
  method Fill(a: array2<bv8>, v: bv8)
    modifies a
    ensures forall i, j :: 0 <= i < a.Length0 && 0 <= j < a.Length1 ==> a[i, j] == v
  {
    var i := 0;
    while i < a.Length0
      invariant 0 <= i <= a.Length0
      invariant forall r, c :: 0 <= r < i && 0 <= c < a.Length1 ==> a[r, c] == v
    {
      var j := 0;
      while j < a.Length1
        invariant 0 <= j <= a.Length1
        invariant forall r, c :: 0 <= r < i && 0 <= c < a.Length1 ==> a[r, c] == v
        invariant forall c :: 0 <= c < j ==> a[i, c] == v
      {
        a[i, j] := v;
        j := j + 1;
      }
      i := i + 1;
    }
  }

  /** A rasteriser writing value `v` at the cells of `shape` and leaving the others. */
  method Paint(a: array2<bv8>, shape: set<Cell>, v: bv8)
    modifies a
    ensures forall i, j :: 0 <= i < a.Length0 && 0 <= j < a.Length1 ==>
              a[i, j] == if (i, j) in shape then v else old(a[i, j])
  {
    var i := 0;
    while i < a.Length0
      invariant 0 <= i <= a.Length0
      invariant forall r, c :: 0 <= r < i && 0 <= c < a.Length1 ==>
                  a[r, c] == if (r, c) in shape then v else old(a[r, c])
      invariant forall r, c :: i <= r < a.Length0 && 0 <= c < a.Length1 ==> a[r, c] == old(a[r, c])
    {
      var j := 0;
      while j < a.Length1
        invariant 0 <= j <= a.Length1
        invariant forall r, c :: 0 <= r < i && 0 <= c < a.Length1 ==>
                    a[r, c] == if (r, c) in shape then v else old(a[r, c])
        invariant forall c :: 0 <= c < j ==> a[i, c] == if (i, c) in shape then v else old(a[i, c])
        invariant forall r, c :: i <= r < a.Length0 && 0 <= c < a.Length1 && (r > i || c >= j) ==>
                    a[r, c] == old(a[r, c])
      {
        a[i, j] := if (i, j) in shape then v else a[i, j];
        j := j + 1;
      }
      i := i + 1;
    }
  }

  /** The cell (i, j) of a rows x cols padded mask after a mask-only flood
      fill that reaches `region` and writes `v`: the frame is `BORDER`, a
      reached inner cell is `v`, any other cell keeps its value `prev`. */
  function FloodCell(rows: int, cols: int, region: set<Cell>, v: bv8, i: int, j: int, prev: bv8): bv8 {
    if i == 0 || j == 0 || i == rows - 1 || j == cols - 1 then BORDER
    else if (i, j) in region then v
    else prev
  }

  /** What a mask-only `cv.floodFill` does to its padded mask `a`. */
  method FloodInto(a: array2<bv8>, region: set<Cell>, v: bv8)
    modifies a
    ensures forall i, j :: 0 <= i < a.Length0 && 0 <= j < a.Length1 ==>
              a[i, j] == FloodCell(a.Length0, a.Length1, region, v, i, j, old(a[i, j]))
  {
    var i := 0;
    while i < a.Length0
      invariant 0 <= i <= a.Length0
      invariant forall r, c :: 0 <= r < i && 0 <= c < a.Length1 ==>
                  a[r, c] == FloodCell(a.Length0, a.Length1, region, v, r, c, old(a[r, c]))
      invariant forall r, c :: i <= r < a.Length0 && 0 <= c < a.Length1 ==> a[r, c] == old(a[r, c])
    {
      var j := 0;
      while j < a.Length1
        invariant 0 <= j <= a.Length1
        invariant forall r, c :: 0 <= r < i && 0 <= c < a.Length1 ==>
                    a[r, c] == FloodCell(a.Length0, a.Length1, region, v, r, c, old(a[r, c]))
        invariant forall c :: 0 <= c < j ==> a[i, c] == FloodCell(a.Length0, a.Length1, region, v, i, c, old(a[i, c]))
        invariant forall r, c :: i <= r < a.Length0 && 0 <= c < a.Length1 && (r > i || c >= j) ==>
                    a[r, c] == old(a[r, c])
      {
        a[i, j] := FloodCell(a.Length0, a.Length1, region, v, i, j, a[i, j]);
        j := j + 1;
      }
      i := i + 1;
    }
  }

  /** One selection edit: every mask pixel becomes `Combine(op, mask, flood)`,
      where the flood value is read from the padded scratch one row and one
      column in (`scratch[1:-1, 1:-1]`). */
  method ApplyOp(mask: array2<bv8>, scratch: array2<bv8>, op: SetOp)
    requires scratch.Length0 == mask.Length0 + 2 && scratch.Length1 == mask.Length1 + 2
    modifies mask
    ensures forall i, j :: 0 <= i < mask.Length0 && 0 <= j < mask.Length1 ==>
              mask[i, j] == Combine(op, old(mask[i, j]), scratch[i + 1, j + 1])
  {
    var i := 0;
    while i < mask.Length0
      invariant 0 <= i <= mask.Length0
      invariant forall r, c :: 0 <= r < i && 0 <= c < mask.Length1 ==>
                  mask[r, c] == Combine(op, old(mask[r, c]), scratch[r + 1, c + 1])
      invariant forall r, c :: i <= r < mask.Length0 && 0 <= c < mask.Length1 ==> mask[r, c] == old(mask[r, c])
    {
      var j := 0;
      while j < mask.Length1
        invariant 0 <= j <= mask.Length1
        invariant forall r, c :: 0 <= r < i && 0 <= c < mask.Length1 ==>
                    mask[r, c] == Combine(op, old(mask[r, c]), scratch[r + 1, c + 1])
        invariant forall c :: 0 <= c < j ==> mask[i, c] == Combine(op, old(mask[i, c]), scratch[i + 1, c + 1])
        invariant forall r, c :: i <= r < mask.Length0 && 0 <= c < mask.Length1 && (r > i || c >= j) ==>
                    mask[r, c] == old(mask[r, c])
      {
        mask[i, j] := Combine(op, mask[i, j], scratch[i + 1, j + 1]);
        j := j + 1;
      }
      i := i + 1;
    }
  }

  /** The slice zeroing of the line cut: pixels on the far side of the
      boundary become 0, the others keep their value. */
  method CutAlong(mask: array2<bv8>, anchor: Point, e: Extent)
    modifies mask
    ensures forall i, j :: 0 <= i < mask.Length0 && 0 <= j < mask.Length1 ==>
              mask[i, j] == if Kept(anchor, e, i, j) then old(mask[i, j]) else OFF
  {
    var i := 0;
    while i < mask.Length0
      invariant 0 <= i <= mask.Length0
      invariant forall r, c :: 0 <= r < i && 0 <= c < mask.Length1 ==>
                  mask[r, c] == if Kept(anchor, e, r, c) then old(mask[r, c]) else OFF
      invariant forall r, c :: i <= r < mask.Length0 && 0 <= c < mask.Length1 ==> mask[r, c] == old(mask[r, c])
    {
      var j := 0;
      while j < mask.Length1
        invariant 0 <= j <= mask.Length1
        invariant forall r, c :: 0 <= r < i && 0 <= c < mask.Length1 ==>
                    mask[r, c] == if Kept(anchor, e, r, c) then old(mask[r, c]) else OFF
        invariant forall c :: 0 <= c < j ==> mask[i, c] == if Kept(anchor, e, i, c) then old(mask[i, c]) else OFF
        invariant forall r, c :: i <= r < mask.Length0 && 0 <= c < mask.Length1 && (r > i || c >= j) ==>
                    mask[r, c] == old(mask[r, c])
      {
        if !Kept(anchor, e, i, j) {
          mask[i, j] := OFF;
        }
        j := j + 1;
      }
      i := i + 1;
    }
  }

  /** `rgb[mask == 255, k] = color[k]` for the three channels: the selected
      pixels take the colour, the others keep theirs. */
  method PaintSelection(rgb: array2<Color>, mask: array2<bv8>, color: Color)
    requires rgb.Length0 == mask.Length0 && rgb.Length1 == mask.Length1
    requires rgb as object != mask as object
    modifies rgb
    ensures forall i, j :: 0 <= i < rgb.Length0 && 0 <= j < rgb.Length1 ==>
              rgb[i, j] == if mask[i, j] == ON then color else old(rgb[i, j])
  {
    var i := 0;
    while i < rgb.Length0
      invariant 0 <= i <= rgb.Length0
      invariant forall r, c :: 0 <= r < i && 0 <= c < rgb.Length1 ==>
                  rgb[r, c] == if mask[r, c] == ON then color else old(rgb[r, c])
      invariant forall r, c :: i <= r < rgb.Length0 && 0 <= c < rgb.Length1 ==> rgb[r, c] == old(rgb[r, c])
    {
      var j := 0;
      while j < rgb.Length1
        invariant 0 <= j <= rgb.Length1
        invariant forall r, c :: 0 <= r < i && 0 <= c < rgb.Length1 ==>
                    rgb[r, c] == if mask[r, c] == ON then color else old(rgb[r, c])
        invariant forall c :: 0 <= c < j ==> rgb[i, c] == if mask[i, c] == ON then color else old(rgb[i, c])
        invariant forall r, c :: i <= r < rgb.Length0 && 0 <= c < rgb.Length1 && (r > i || c >= j) ==>
                    rgb[r, c] == old(rgb[r, c])
      {
        rgb[i, j] := if mask[i, j] == ON then color else rgb[i, j];
        j := j + 1;
      }
      i := i + 1;
    }
  }

  /** A filled disc drawn in black (`cv.circle(..., (0, 0, 0), -1)`): the disc's pixels become black. */
  method EraseDisc(rgb: array2<Color>, disc: set<Cell>)
    modifies rgb
    ensures forall i, j :: 0 <= i < rgb.Length0 && 0 <= j < rgb.Length1 ==>
              rgb[i, j] == if (i, j) in disc then BLACK else old(rgb[i, j])
  {
    var i := 0;
    while i < rgb.Length0
      invariant 0 <= i <= rgb.Length0
      invariant forall r, c :: 0 <= r < i && 0 <= c < rgb.Length1 ==>
                  rgb[r, c] == if (r, c) in disc then BLACK else old(rgb[r, c])
      invariant forall r, c :: i <= r < rgb.Length0 && 0 <= c < rgb.Length1 ==> rgb[r, c] == old(rgb[r, c])
    {
      var j := 0;
      while j < rgb.Length1
        invariant 0 <= j <= rgb.Length1
        invariant forall r, c :: 0 <= r < i && 0 <= c < rgb.Length1 ==>
                    rgb[r, c] == if (r, c) in disc then BLACK else old(rgb[r, c])
        invariant forall c :: 0 <= c < j ==> rgb[i, c] == if (i, c) in disc then BLACK else old(rgb[i, c])
        invariant forall r, c :: i <= r < rgb.Length0 && 0 <= c < rgb.Length1 && (r > i || c >= j) ==>
                    rgb[r, c] == old(rgb[r, c])
      {
        rgb[i, j] := if (i, j) in disc then BLACK else rgb[i, j];
        j := j + 1;
      }
      i := i + 1;
    }
  }
}
