/** The selection window: the region mask and the class-colour layer of one
    image, and the mouse, key and trackbar handlers that edit them in place.

    What the OpenCV primitives compute is an input here: a flood fill is the
    set of padded-scratch cells it reaches, and line and disc drawing are
    functions from their geometric arguments to the image cells they cover
    (cells are (row, column)). */
module Selection {
  import opened Wrappers
  import opened Events
  import opened Pixels
  import opened Cut
  import opened Keys
  import Raster

  /** What a press on the main window did about the line cut. `FillRaised`
      when the flood fill raised before any edit; `NoCut` for any other event
      or for a set edit; `Pending` for the first click of a pair; after the
      second click, `NoIntersection` and `NoAnchor` are the two points where
      the cut raises (empty crossing, no anchor click yet), and `Done(ext)`
      carries the crossing's extent. A raise inside a handler ends that
      handler only: the window lives on with the state reached so far. */
  datatype CutOutcome = FillRaised | NoCut | Pending | NoIntersection | NoAnchor | Done(ext: Extent)

  /** The cells `lineOf` draws between the last two cut points (none while
      there are fewer than two). */
  function LastLine(points: seq<Point>, lineOf: (Point, Point) -> set<Cell>): set<Cell> {
    if |points| < 2 then {} else lineOf(points[|points| - 2], points[|points| - 1])
  }

  class SelectionWindow {
    /** Image height (rows) and width (columns). */
    const h: nat
    const w: nat
    /** Flood-fill flags: connectivity, fixed range, mask only, fill value 255. */
    const floodFlags: bv32
    /** Class id to class colour. */
    const classColor: map<int, Color>

    /** The binary region mask (h x w). */
    const mask: array2<bv8>
    /** The accumulated class-colour layer (h x w). */
    const rgbMask: array2<Color>
    /** Scratch raster the cut line is drawn on (h x w). */
    const lineMask: array2<bv8>
    /** The flood fill's padded output mask ((h + 2) x (w + 2)). */
    const floodScratch: array2<bv8>

    /** Per-channel flood-fill tolerance. */
    var tolerance: (int, int, int)
    /** Eraser disc radius. */
    var eraserSize: int
    /** The last anchor click; None before the first one and after a reset. */
    var clickPoint: Option<Point>
    /** The Ctrl-clicks so far, in order. */
    var cutPoints: seq<Point>
    /** Whether the left button is held down on the colour-layer window. */
    var drawing: bool

    /** The buffers have the image's shape (the scratch one pixel larger on each side). */
    ghost predicate Shaped()
    {
      && mask.Length0 == h && mask.Length1 == w
      && rgbMask.Length0 == h && rgbMask.Length1 == w
      && lineMask.Length0 == h && lineMask.Length1 == w
      && floodScratch.Length0 == h + 2 && floodScratch.Length1 == w + 2
    }

    /** The window's invariant: shapes, separate buffers, a fill value of 255
        and a binary region mask. */
    ghost predicate Valid()
      reads mask
    {
      && Shaped()
      && mask != lineMask && mask != floodScratch && lineMask != floodScratch
      && mask as object != rgbMask && lineMask as object != rgbMask && floodScratch as object != rgbMask
      && FillValue(floodFlags) == ON
      && forall i, j :: 0 <= i < h && 0 <= j < w ==> IsBinary(mask[i, j])
    }

    /** The crossing of the mask with the line mask once `line` is drawn on it. */
    ghost function CrossingAfterDrawing(line: set<Cell>): set<Cell>
      reads mask, lineMask
      requires Shaped()
    {
      set i, j | 0 <= i < h && 0 <= j < w &&
                 Crosses(mask[i, j], if (i, j) in line then ON else lineMask[i, j]) :: (i, j)
    }

    /** All buffers zero, no anchor, no cut points, eraser up, tolerance
        `tol` on each channel and eraser radius 1. */
    constructor (height: nat, width: nat, classes: map<int, Color>, connectivity: bv32, tol: int)
      ensures Valid()
      ensures h == height && w == width && classColor == classes && floodFlags == FloodFlags(connectivity)
      ensures fresh(mask) && fresh(rgbMask) && fresh(lineMask) && fresh(floodScratch)
      ensures forall i, j :: 0 <= i < h && 0 <= j < w ==>
                mask[i, j] == OFF && lineMask[i, j] == OFF && rgbMask[i, j] == BLACK
      ensures forall i, j :: 0 <= i < h + 2 && 0 <= j < w + 2 ==> floodScratch[i, j] == OFF
      ensures clickPoint == None && cutPoints == [] && !drawing
      ensures tolerance == (tol, tol, tol) && eraserSize == 1
    {
      h, w := height, width;
      classColor := classes;
      floodFlags := FloodFlags(connectivity);
      mask := new bv8[height, width]((i, j) => OFF);
      rgbMask := new Color[height, width]((i, j) => BLACK);
      lineMask := new bv8[height, width]((i, j) => OFF);
      floodScratch := new bv8[height + 2, width + 2]((i, j) => OFF);
      tolerance := (tol, tol, tol);
      eraserSize := 1;
      clickPoint := None;
      cutPoints := [];
      drawing := false;
    }

    /** The tolerance trackbar: every channel takes the new position. */
    method TrackbarCallback(pos: int)
      modifies this`tolerance
      ensures tolerance == (pos, pos, pos)
    {
      tolerance := (pos, pos, pos);
    }

    /** The eraser-size trackbar. */
    method EraserSizeCallback(size: int)
      modifies this`eraserSize
      ensures eraserSize == size
    {
      eraserSize := size;
    }

    /** The mouse handler of the colour-layer window. A press raises the
        eraser flag and a release lowers it; a move to (x, y) while the flag
        is up blacks out the disc `discOf` draws around the pointer with
        radius `eraserSize` (a negative radius makes `cv.circle` raise, and
        nothing is erased). The region mask is never touched. */
    method MouseRgbCallback(event: int, x: int, y: int, discOf: (Point, int) -> set<Cell>)
      requires Valid()
      modifies this`drawing, rgbMask
      ensures Valid()
      ensures drawing == if event == EVENT_LBUTTONDOWN then true
                         else if event == EVENT_LBUTTONUP then false
                         else old(drawing)
      ensures forall i, j :: 0 <= i < h && 0 <= j < w ==>
                rgbMask[i, j] == if event == EVENT_MOUSEMOVE && old(drawing) && eraserSize >= 0 &&
                                    (i, j) in discOf(Point(x, y), eraserSize)
                                 then BLACK else old(rgbMask[i, j])
      ensures unchanged(mask)
    {
      if event == EVENT_LBUTTONDOWN {
        drawing := true;
      } else if event == EVENT_MOUSEMOVE {
        if drawing && eraserSize >= 0 {
          Raster.EraseDisc(rgbMask, discOf(Point(x, y), eraserSize));
        }
      } else if event == EVENT_LBUTTONUP {
        drawing := false;
      }
    }

    /** Commits the selection under the class whose digit key is `key`: every
        selected pixel of the colour layer takes the class colour, every other
        pixel and the region mask stay as they are. */
    method SetSegmentClass(key: int)
      requires Valid()
      requires KEY_ZERO <= key <= KEY_ZERO + 9 && key - KEY_ZERO in classColor
      modifies rgbMask
      ensures Valid()
      ensures forall i, j :: 0 <= i < h && 0 <= j < w ==>
                rgbMask[i, j] == if mask[i, j] == ON then classColor[key - KEY_ZERO] else old(rgbMask[i, j])
      ensures unchanged(mask)
    {
      Raster.PaintSelection(rgbMask, mask, classColor[key - KEY_ZERO]);
    }

    /** Clears the transient state: the region mask, the line mask and the
        flood scratch become zero, the anchor and the cut points are
        forgotten and the eraser flag drops. The colour layer is kept. */
    method ResetWindow()
      requires Valid()
      modifies this`clickPoint, this`cutPoints, this`drawing, mask, lineMask, floodScratch
      ensures Valid()
      ensures forall i, j :: 0 <= i < h && 0 <= j < w ==> mask[i, j] == OFF && lineMask[i, j] == OFF
      ensures forall i, j :: 0 <= i < h + 2 && 0 <= j < w + 2 ==> floodScratch[i, j] == OFF
      ensures clickPoint == None && cutPoints == [] && !drawing
      ensures unchanged(rgbMask)
    {
      Raster.Fill(mask, OFF);
      Raster.Fill(floodScratch, OFF);
      Raster.Fill(lineMask, OFF);
      clickPoint := None;
      cutPoints := [];
      drawing := false;
    }

    /** One key press of the event loop (`code` as `waitKey` returns it). A
        class key commits, `c` resets, q and Esc ask to quit, anything else
        leaves the state alone. */
    method HandleKey(code: int) returns (a: KeyAction)
      requires Valid()
      modifies this`clickPoint, this`cutPoints, this`drawing, mask, lineMask, floodScratch, rgbMask
      ensures Valid()
      ensures a == Dispatch(KeyByte(code), classColor.Keys)
      ensures a.Commit? ==>
                && clickPoint == old(clickPoint) && cutPoints == old(cutPoints) && drawing == old(drawing)
                && unchanged(mask, lineMask, floodScratch)
                && forall i, j :: 0 <= i < h && 0 <= j < w ==>
                     rgbMask[i, j] == if mask[i, j] == ON then classColor[a.classId] else old(rgbMask[i, j])
      ensures a == Reset ==>
                && (forall i, j :: 0 <= i < h && 0 <= j < w ==> mask[i, j] == OFF && lineMask[i, j] == OFF)
                && (forall i, j :: 0 <= i < h + 2 && 0 <= j < w + 2 ==> floodScratch[i, j] == OFF)
                && clickPoint == None && cutPoints == [] && !drawing
                && unchanged(rgbMask)
      ensures !a.Commit? && a != Reset ==>
                && clickPoint == old(clickPoint) && cutPoints == old(cutPoints) && drawing == old(drawing)
                && unchanged(mask, lineMask, floodScratch, rgbMask)
    {
      a := Dispatch(KeyByte(code), classColor.Keys);
      match a
      case Commit(id) =>
        SetSegmentClass(KEY_ZERO + id);
      case Reset =>
        ResetWindow();
      case _ =>
    }

    /** The mouse handler of the main window. Only a left-button press acts:
        the scratch is cleared and filled from the click, then the modifier
        bits pick the edit. When the fill raises (seed off the image, bad
        connectivity, negative tolerance) the cleared scratch is all that
        changes. Otherwise a set edit combines the mask with the cropped fill
        pixel by pixel and makes the click the anchor; Ctrl hands the click to
        the line cut and leaves the anchor alone. `region` holds the padded
        scratch cells the flood fill reaches from (x, y); `lineOf` draws a
        line between two points. */
    method MouseCallback(event: int, x: int, y: int, flags: bv32, region: set<Cell>,
                         lineOf: (Point, Point) -> set<Cell>)
      returns (outcome: CutOutcome)
      requires Valid()
      modifies this`clickPoint, this`cutPoints, mask, lineMask, floodScratch
      ensures Valid()
      ensures event != EVENT_LBUTTONDOWN ==>
                && outcome == NoCut && clickPoint == old(clickPoint) && cutPoints == old(cutPoints)
                && unchanged(mask, lineMask, floodScratch)
      ensures event == EVENT_LBUTTONDOWN && FloodRaises(floodFlags, tolerance, Point(x, y), h, w) ==>
                && outcome == FillRaised && clickPoint == old(clickPoint) && cutPoints == old(cutPoints)
                && unchanged(mask, lineMask)
                && forall i, j :: 0 <= i < h + 2 && 0 <= j < w + 2 ==> floodScratch[i, j] == OFF
      ensures event == EVENT_LBUTTONDOWN && !FloodRaises(floodFlags, tolerance, Point(x, y), h, w) ==>
                forall i, j :: 0 <= i < h + 2 && 0 <= j < w + 2 ==>
                  floodScratch[i, j] == Raster.FloodCell(h + 2, w + 2, region, ON, i, j, OFF)
      ensures (event == EVENT_LBUTTONDOWN && !FloodRaises(floodFlags, tolerance, Point(x, y), h, w) &&
               Decode(flags).Select?) ==>
                && outcome == NoCut && clickPoint == Some(Point(x, y)) && cutPoints == old(cutPoints)
                && unchanged(lineMask)
                && forall i, j :: 0 <= i < h && 0 <= j < w ==>
                     (mask[i, j] == ON <==> Selected(Decode(flags).op, old(mask[i, j]) == ON, (i + 1, j + 1) in region))
      ensures (event == EVENT_LBUTTONDOWN && !FloodRaises(floodFlags, tolerance, Point(x, y), h, w) &&
               Decode(flags) == LineCut) ==> CutApplied(x, y, lineOf, outcome)
    {
      if event != EVENT_LBUTTONDOWN {
        return NoCut;
      }
      Raster.Fill(floodScratch, OFF);
      if FloodRaises(floodFlags, tolerance, Point(x, y), h, w) {
        return FillRaised;
      }
      Raster.FloodInto(floodScratch, region, FillValue(floodFlags));
      match Decode(flags)
      case Select(op) =>
        Raster.ApplyOp(mask, floodScratch, op);
        forall i, j | 0 <= i < h && 0 <= j < w
          ensures IsBinary(mask[i, j])
          ensures mask[i, j] == ON <==> Selected(op, old(mask[i, j]) == ON, (i + 1, j + 1) in region)
        {
          assert IsBinary(floodScratch[i + 1, j + 1]);
        }
        clickPoint := Some(Point(x, y));
        outcome := NoCut;
      case LineCut =>
        outcome := CutSelectedArea(x, y, lineOf);
    }

    /** The line a Ctrl-click at (x, y) would draw: `lineOf` between the last
        cut point and (x, y) when the click completes a pair. */
    ghost function NextLine(x: int, y: int, lineOf: (Point, Point) -> set<Cell>): set<Cell>
      reads this
    {
      LastLine(cutPoints + [Point(x, y)], lineOf)
    }

    /** The crossing a Ctrl-click at (x, y) would measure once its line is drawn. */
    ghost function NextCrossing(x: int, y: int, lineOf: (Point, Point) -> set<Cell>): set<Cell>
      reads this, mask, lineMask
      requires Shaped()
    {
      CrossingAfterDrawing(NextLine(x, y, lineOf))
    }

    /** The effect of one Ctrl-click at (x, y), relating the state before and
        after it. The click is appended to the cut points and the anchor is
        kept. An odd number of cut points changes nothing else. On an even
        number, the line `lineOf` draws from the previous cut point to (x, y) is drawn on the line mask and the crossing of mask and
        line is taken: if it is empty, or there is no anchor yet, the source
        raises there, so the mask is unchanged and the line stays drawn;
        otherwise the pixels off the anchor's side of the crossing's extreme
        column (along Y) or row (along X) become 0, the others keep their
        value, and the line mask is cleared. */
    twostate predicate CutApplied(x: int, y: int, lineOf: (Point, Point) -> set<Cell>, outcome: CutOutcome)
      reads this, mask, lineMask
      requires Shaped()
    {
      && cutPoints == old(cutPoints) + [Point(x, y)]
      && clickPoint == old(clickPoint)
      && outcome != NoCut && outcome != FillRaised
      && (outcome == Pending <==> |cutPoints| % 2 == 1)
      && (outcome == Pending ==> unchanged(mask, lineMask))
      && (outcome == NoIntersection <==> |cutPoints| % 2 == 0 && old(NextCrossing(x, y, lineOf)) == {})
      && (outcome == NoAnchor <==>
            |cutPoints| % 2 == 0 && old(NextCrossing(x, y, lineOf)) != {} && old(clickPoint) == None)
      && (outcome == NoIntersection || outcome == NoAnchor ==>
            && unchanged(mask)
            && forall i, j :: 0 <= i < h && 0 <= j < w ==>
                 lineMask[i, j] == if (i, j) in old(NextLine(x, y, lineOf)) then ON else old(lineMask[i, j]))
      && (outcome.Done? ==>
            && old(clickPoint).Some?
            && IsExtent(outcome.ext, old(NextCrossing(x, y, lineOf)))
            && (forall i, j :: 0 <= i < h && 0 <= j < w ==>
                  mask[i, j] == if Kept(old(clickPoint).value, outcome.ext, i, j) then old(mask[i, j]) else OFF)
            && forall i, j :: 0 <= i < h && 0 <= j < w ==> lineMask[i, j] == OFF)
    }

    /** Draws `line` on the line mask and measures the crossing of the mask
        with it: None when they do not cross, otherwise the crossing's extent. */
    method DrawLine(line: set<Cell>) returns (crossing: Option<Extent>)
      requires Valid()
      modifies lineMask
      ensures Valid()
      ensures forall i, j :: 0 <= i < h && 0 <= j < w ==>
                lineMask[i, j] == if (i, j) in line then ON else old(lineMask[i, j])
      ensures crossing.None? <==> old(CrossingAfterDrawing(line)) == {}
      ensures crossing.Some? ==> IsExtent(crossing.value, old(CrossingAfterDrawing(line)))
    {
      ghost var before := CrossingAfterDrawing(line);
      Raster.Paint(lineMask, line, ON);
      RoiMembers(mask, lineMask);
      assert Roi(mask, lineMask) == before;
      crossing := Cut.RoiExtent(mask, lineMask);
    }

    /** A Ctrl-click: records the point and, on every second one, cuts the
        mask along the line `lineOf` draws through the last two points. */
    method CutSelectedArea(x: int, y: int, lineOf: (Point, Point) -> set<Cell>) returns (outcome: CutOutcome)
      requires Valid()
      modifies this`cutPoints, mask, lineMask
      ensures Valid()
      ensures CutApplied(x, y, lineOf, outcome)
    {
      ghost var next := NextLine(x, y, lineOf);
      cutPoints := cutPoints + [Point(x, y)];
      if |cutPoints| % 2 == 1 {
        return Pending;
      }
      var line := LastLine(cutPoints, lineOf);
      assert line == next;
      var crossing := DrawLine(line);
      if crossing.None? {
        return NoIntersection;
      }
      if clickPoint.None? {
        return NoAnchor;
      }
      Raster.CutAlong(mask, clickPoint.value, crossing.value);
      Raster.Fill(lineMask, OFF);
      outcome := Done(crossing.value);
    }
  }
}
