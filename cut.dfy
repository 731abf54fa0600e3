/** The two-click line cut: where the drawn line crosses the region, which
    axis the crossing runs along, and which side of it is kept. */
module Cut {
  import opened Events
  import opened Pixels
  import opened Wrappers

  /** A pixel position as (row, column), the order numpy indexes in. */
  type Cell = (int, int)

  /** Row and column extent of a non-empty set of cells: the minima and maxima
      numpy takes over the index arrays that `np.where` returns. */
  datatype Extent = Extent(minRow: int, maxRow: int, minCol: int, maxCol: int)

  /** The axis the crossing runs along. */
  datatype Axis = X | Y

  /** A mask pixel and a line pixel cross when their bitwise and is 255. */
  predicate Crosses(maskValue: bv8, lineValue: bv8) {
    maskValue & lineValue == ON
  }

  /** The cells where `m & l` is 255: the crossing of mask and line. */
  ghost function Roi(m: array2<bv8>, l: array2<bv8>): set<Cell>
    reads m, l
    requires m.Length0 == l.Length0 && m.Length1 == l.Length1
  {
    set i, j | 0 <= i < m.Length0 && 0 <= j < m.Length1 && Crosses(m[i, j], l[i, j]) :: (i, j)
  }

  /** Membership in the crossing, cell by cell. */
  lemma RoiMembers(m: array2<bv8>, l: array2<bv8>)
    requires m.Length0 == l.Length0 && m.Length1 == l.Length1
    ensures forall c :: c in Roi(m, l) <==>
              0 <= c.0 < m.Length0 && 0 <= c.1 < m.Length1 && Crosses(m[c.0, c.1], l[c.0, c.1])
  {
  }

  /** `e` is the exact extent of the cells in `r`: every cell lies inside it
      and each of its four bounds is attained by some cell. */
  ghost predicate IsExtent(e: Extent, r: set<Cell>) {
    && (forall c :: c in r ==> e.minRow <= c.0 <= e.maxRow && e.minCol <= c.1 <= e.maxCol)
    && (exists c :: c in r && c.0 == e.minRow)
    && (exists c :: c in r && c.0 == e.maxRow)
    && (exists c :: c in r && c.1 == e.minCol)
    && (exists c :: c in r && c.1 == e.maxCol)
  }

  /** A set has at most one extent, so the cut does not depend on how it is found. */
  lemma ExtentUnique(e1: Extent, e2: Extent, r: set<Cell>)
    requires IsExtent(e1, r) && IsExtent(e2, r)
    ensures e1 == e2
  {
  }

  /** "Y" when the crossing spans more rows than columns, otherwise "X". */
  function AxisOf(e: Extent): Axis {
    if e.maxRow - e.minRow > e.maxCol - e.minCol then Y else X
  }

  /** Whether the cut keeps the cell at (row, col). Along Y the boundary is the
      column `maxCol`: an anchor left of it keeps the columns left of it,
      otherwise the columns from it on are kept. Along X the same with rows
      and `maxRow`. */
  predicate Kept(anchor: Point, e: Extent, row: int, col: int) {
    match AxisOf(e)
    case Y => if anchor.x < e.maxCol then col < e.maxCol else col >= e.maxCol
    case X => if anchor.y < e.maxRow then row < e.maxRow else row >= e.maxRow
  }

  /** The cut keeps the side the anchor is on: a cell is kept exactly when it
      lies on the same side of the boundary as the anchor. */
  lemma KeptIsAnchorSide(anchor: Point, e: Extent, row: int, col: int)
    ensures AxisOf(e) == Y ==> (Kept(anchor, e, row, col) <==> (col < e.maxCol <==> anchor.x < e.maxCol))
    ensures AxisOf(e) == X ==> (Kept(anchor, e, row, col) <==> (row < e.maxRow <==> anchor.y < e.maxRow))
  {
  }

  /** Whatever the crossing, the anchor's own pixel (row y, column x) survives the cut. */
  lemma AnchorPixelKept(anchor: Point, e: Extent)
    ensures Kept(anchor, e, anchor.y, anchor.x)
  {
  }

  /** The crossing's extreme column (along Y) or row (along X) is removed when
      the anchor lies before it and kept otherwise: the boundary line belongs to
      the far side. */
  lemma BoundaryBelongsToFarSide(anchor: Point, e: Extent, r: set<Cell>)
    requires IsExtent(e, r)
    ensures AxisOf(e) == Y ==>
              exists c :: c in r && c.1 == e.maxCol && (Kept(anchor, e, c.0, c.1) <==> anchor.x >= e.maxCol)
    ensures AxisOf(e) == X ==>
              exists c :: c in r && c.0 == e.maxRow && (Kept(anchor, e, c.0, c.1) <==> anchor.y >= e.maxRow)
  {
  }

  /** Scans the mask and line row by row for pixels where `m & l` is 255 and
      returns their extent, or None when there is none (where the source's
      `np.min` raises on an empty index array). */
  method RoiExtent(m: array2<bv8>, l: array2<bv8>) returns (r: Option<Extent>)
    requires m.Length0 == l.Length0 && m.Length1 == l.Length1
    ensures r.None? <==> Roi(m, l) == {}
    ensures r.Some? ==> IsExtent(r.value, Roi(m, l))
  {
    ghost var roi := Roi(m, l);
    RoiMembers(m, l);
    var found := false;
    var e := Extent(0, 0, 0, 0);
    ghost var lo, hi, left, right: Cell := (0, 0), (0, 0), (0, 0), (0, 0);
    var i := 0;
    while i < m.Length0
      invariant 0 <= i <= m.Length0
      invariant forall c :: c in roi && c.0 < i ==>
                  found && e.minRow <= c.0 <= e.maxRow && e.minCol <= c.1 <= e.maxCol
      invariant found ==> lo in roi && lo.0 == e.minRow && hi in roi && hi.0 == e.maxRow
      invariant found ==> left in roi && left.1 == e.minCol && right in roi && right.1 == e.maxCol
      invariant found ==> e.minRow <= e.maxRow < i
    {
      var j := 0;
      while j < m.Length1
        invariant 0 <= j <= m.Length1
        invariant forall c :: c in roi && (c.0 < i || (c.0 == i && c.1 < j)) ==>
                    found && e.minRow <= c.0 <= e.maxRow && e.minCol <= c.1 <= e.maxCol
        invariant found ==> lo in roi && lo.0 == e.minRow && hi in roi && hi.0 == e.maxRow
        invariant found ==> left in roi && left.1 == e.minCol && right in roi && right.1 == e.maxCol
        invariant found ==> e.minRow <= e.maxRow <= i
      {
        if Crosses(m[i, j], l[i, j]) {
          if !found {
            found := true;
            e := Extent(i, i, j, j);
            lo, hi, left, right := (i, j), (i, j), (i, j), (i, j);
          } else {
            e := e.(maxRow := i);
            hi := (i, j);
            if j < e.minCol {
              e := e.(minCol := j);
              left := (i, j);
            }
            if j > e.maxCol {
              e := e.(maxCol := j);
              right := (i, j);
            }
          }
        }
        j := j + 1;
      }
      i := i + 1;
    }
    if found {
      r := Some(e);
    } else {
      r := None;
    }
  }
}
