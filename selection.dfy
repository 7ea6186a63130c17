/** The rectangular selection: every cell in the bounding box of the drag-start
    cell and the current cell, listed row by row. */
module Selection {
  import opened Board

  function Min(a: int, b: int): int { if a <= b then a else b }
  function Max(a: int, b: int): int { if a <= b then b else a }

  /** The cells (r, cMin), ..., (r, cLast) of one row, left to right. */
  function RowCells(r: int, cMin: int, cLast: int): (s: seq<Cell>)
    ensures |s| == if cLast < cMin then 0 else cLast - cMin + 1
    decreases cLast - cMin
  {
    if cLast < cMin then [] else RowCells(r, cMin, cLast - 1) + [(r, cLast)]
  }

  /** The rows rMin..rLast of the box with columns cMin..cMax, top to bottom. */
  function BoxCells(rMin: int, rLast: int, cMin: int, cMax: int): (s: seq<Cell>)
    ensures cMin <= cMax ==>
      |s| == if rLast < rMin then 0 else (rLast - rMin + 1) * (cMax - cMin + 1)
    decreases rLast - rMin
  {
    if rLast < rMin then [] else BoxCells(rMin, rLast - 1, cMin, cMax) + RowCells(rLast, cMin, cMax)
  }

  /** The selection a drag from `start` to `end` makes. */
  function Rectangle(start: Cell, end: Cell): (s: seq<Cell>)
    ensures start in s && end in s
  {
    var rMin, rMax, cMin, cMax := Min(start.0, end.0), Max(start.0, end.0), Min(start.1, end.1), Max(start.1, end.1);
    BoxCellsMembership(rMin, rMax, cMin, cMax);
    BoxCells(rMin, rMax, cMin, cMax)
  }

  /** The cell in the bounding box of `start` and `end`. */
  predicate InBox(x: Cell, start: Cell, end: Cell) {
    Min(start.0, end.0) <= x.0 <= Max(start.0, end.0) &&
    Min(start.1, end.1) <= x.1 <= Max(start.1, end.1)
  }

  /** Row-major order: by row first, then by column. */
  predicate Before(a: Cell, b: Cell) {
    a.0 < b.0 || (a.0 == b.0 && a.1 < b.1)
  }

  /** Strictly increasing in row-major order (hence also free of repeats). */
  predicate RowMajor(s: seq<Cell>) {
    forall i, j :: 0 <= i < j < |s| ==> Before(s[i], s[j])
  }

  lemma {:induction false} RowCellsShape(r: int, cMin: int, cLast: int)
    ensures forall i :: 0 <= i < |RowCells(r, cMin, cLast)| ==> RowCells(r, cMin, cLast)[i] == (r, cMin + i)
    decreases cLast - cMin
  {
    if cMin <= cLast {
      RowCellsShape(r, cMin, cLast - 1);
    }
  }

  lemma {:induction false} BoxCellsMembership(rMin: int, rLast: int, cMin: int, cMax: int)
    ensures forall x :: x in BoxCells(rMin, rLast, cMin, cMax) <==>
      rMin <= x.0 <= rLast && cMin <= x.1 <= cMax
    decreases rLast - rMin
  {
    if rMin <= rLast {
      BoxCellsMembership(rMin, rLast - 1, cMin, cMax);
      RowCellsShape(rLast, cMin, cMax);
      var row := RowCells(rLast, cMin, cMax);
      forall x: Cell | rLast == x.0 && cMin <= x.1 <= cMax ensures x in row {
        assert row[x.1 - cMin] == x;
      }
    }
  }

  lemma {:induction false} BoxCellsRowMajor(rMin: int, rLast: int, cMin: int, cMax: int)
    ensures RowMajor(BoxCells(rMin, rLast, cMin, cMax))
    decreases rLast - rMin
  {
    if rMin <= rLast {
      var top := BoxCells(rMin, rLast - 1, cMin, cMax);
      var row := RowCells(rLast, cMin, cMax);
      BoxCellsRowMajor(rMin, rLast - 1, cMin, cMax);
      BoxCellsMembership(rMin, rLast - 1, cMin, cMax);
      RowCellsShape(rLast, cMin, cMax);
      var s := top + row;
      forall i, j | 0 <= i < j < |s| ensures Before(s[i], s[j]) {
        if j < |top| {
        } else if i < |top| {
          assert s[i] in top;
        } else {
          assert s[i] == row[i - |top|] && s[j] == row[j - |top|];
        }
      }
    }
  }

  /** The selection holds exactly the cells of the bounding box. */
  lemma RectangleMembership(start: Cell, end: Cell)
    ensures forall x :: x in Rectangle(start, end) <==> InBox(x, start, end)
  {
    BoxCellsMembership(Min(start.0, end.0), Max(start.0, end.0), Min(start.1, end.1), Max(start.1, end.1));
  }

  /** The selection lists its cells in row-major order with no repeats. */
  lemma RectangleRowMajor(start: Cell, end: Cell)
    ensures RowMajor(Rectangle(start, end))
    ensures forall i, j :: 0 <= i < j < |Rectangle(start, end)| ==> Rectangle(start, end)[i] != Rectangle(start, end)[j]
  {
    BoxCellsRowMajor(Min(start.0, end.0), Max(start.0, end.0), Min(start.1, end.1), Max(start.1, end.1));
  }

  /** The selection has (rows of the box) x (columns of the box) cells. */
  lemma RectangleLength(start: Cell, end: Cell)
    ensures |Rectangle(start, end)| ==
      (Max(start.0, end.0) - Min(start.0, end.0) + 1) * (Max(start.1, end.1) - Min(start.1, end.1) + 1)
  {
  }

  /** Dragging from `end` back to `start` selects the same cells in the same
      order as dragging from `start` to `end`. */
  lemma RectangleSymmetric(start: Cell, end: Cell)
    ensures Rectangle(start, end) == Rectangle(end, start)
  {
  }

  /** A press selects just the cell pressed. */
  lemma RectangleSingle(cell: Cell)
    ensures Rectangle(cell, cell) == [cell]
  {
  }

  /** A drag between two cells of the board selects only cells of the board. */
  lemma RectangleInBounds(start: Cell, end: Cell)
    requires InBounds(start) && InBounds(end)
    ensures AllInBounds(Rectangle(start, end))
  {
    RectangleMembership(start, end);
  }
}
