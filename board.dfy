/** The 15x15 board of the apple game as a value: cells, digits, selection sums
    and the "pop" that clears a selection and counts the apples it removed. */
module Board {

  /** Side length of the square board (AppleGame.GRID_SIZE). */
  const GridSize: int := 15
  /** The sum an accepted selection must reach. */
  const TargetSum: int := 10
  /** The smallest and largest digit a fresh board holds. */
  const MinDigit: int := 1
  const MaxDigit: int := 9

  /** A (row, column) coordinate. */
  type Cell = (int, int)

  /** The grid as rows of columns; 0 marks a cleared cell. */
  type Grid = seq<seq<int>>

  predicate InBounds(cell: Cell) {
    0 <= cell.0 < GridSize && 0 <= cell.1 < GridSize
  }

  predicate AllInBounds(cells: seq<Cell>) {
    forall x :: x in cells ==> InBounds(x)
  }

  /** The grid has the fixed 15x15 shape. */
  predicate IsGrid(g: Grid) {
    |g| == GridSize && forall r :: 0 <= r < |g| ==> |g[r]| == GridSize
  }

  function At(g: Grid, cell: Cell): int
    requires IsGrid(g) && InBounds(cell)
  {
    g[cell.0][cell.1]
  }

  /** Every cell holds a value in [lo, hi]. */
  predicate AllIn(g: Grid, lo: int, hi: int)
    requires IsGrid(g)
  {
    forall r, c :: 0 <= r < GridSize && 0 <= c < GridSize ==> lo <= g[r][c] <= hi
  }

  /** A board as a new game deals it: every cell a digit 1..9. */
  predicate FreshBoard(g: Grid) {
    IsGrid(g) && AllIn(g, MinDigit, MaxDigit)
  }

  /** A board during play: every cell a digit or 0 (cleared). */
  predicate PlayBoard(g: Grid) {
    IsGrid(g) && AllIn(g, 0, MaxDigit)
  }

  /** Two grids that agree on every cell are the same grid. */
  lemma GridExt(a: Grid, b: Grid)
    requires IsGrid(a) && IsGrid(b)
    requires forall r, c :: 0 <= r < GridSize && 0 <= c < GridSize ==> a[r][c] == b[r][c]
    ensures a == b
  {
    forall r | 0 <= r < GridSize
      ensures a[r] == b[r]
    {
      assert forall c :: 0 <= c < GridSize ==> a[r][c] == b[r][c];
    }
  }

  /** The grid with one cell set to 0; every other cell keeps its value. */
  function ClearCell(g: Grid, cell: Cell): (r: Grid)
    requires IsGrid(g) && InBounds(cell)
    ensures IsGrid(r)
    ensures At(r, cell) == 0
    ensures forall x :: InBounds(x) && x != cell ==> At(r, x) == At(g, x)
  {
    g[cell.0 := g[cell.0][cell.1 := 0]]
  }

  /** Sum of the values at the selected cells, in selection order, a cell
      listed twice counted twice (the generator sum of the selection). */
  function SelectionSum(g: Grid, sel: seq<Cell>): (s: int)
    requires IsGrid(g) && AllInBounds(sel)
    ensures PlayBoard(g) ==> 0 <= s <= MaxDigit * |sel|
  {
    if sel == [] then 0
    else SelectionSum(g, sel[..|sel| - 1]) + At(g, sel[|sel| - 1])
  }

  /** The pop rule: a selection is accepted exactly when its values sum to 10
      and it holds at least 2 cells. */
  predicate Accepts(g: Grid, sel: seq<Cell>)
    requires IsGrid(g) && AllInBounds(sel)
    ensures Accepts(g, sel) ==> NonZeroCells(g, sel) != {}
  {
    if SelectionSum(g, sel) == TargetSum then
      NonZeroSumHasApple(g, sel);
      |sel| >= 2
    else
      false
  }

  /** The clearing walk over the selection, left to right: each cell adds 1
      to the count if it is still non-zero, and is then set to 0.
      Returns the new grid and the count, which never exceeds the length of
      the selection. */
  function Pop(g: Grid, sel: seq<Cell>): (r: (Grid, int))
    requires IsGrid(g) && AllInBounds(sel)
    ensures IsGrid(r.0)
    ensures 0 <= r.1 <= |sel|
  {
    if sel == [] then (g, 0)
    else
      var prev := Pop(g, sel[..|sel| - 1]);
      var last := sel[|sel| - 1];
      (ClearCell(prev.0, last), prev.1 + (if At(prev.0, last) != 0 then 1 else 0))
  }

  /** The distinct selected cells that hold an apple. */
  function NonZeroCells(g: Grid, sel: seq<Cell>): set<Cell>
    requires IsGrid(g) && AllInBounds(sel)
  {
    set x | x in sel && At(g, x) != 0
  }

  /** After the pop every selected cell is 0. */
  lemma {:induction false} PopClearsSelection(g: Grid, sel: seq<Cell>)
    requires IsGrid(g) && AllInBounds(sel)
    ensures forall x :: x in sel ==> At(Pop(g, sel).0, x) == 0
  {
    if sel != [] {
      var init := sel[..|sel| - 1];
      var last := sel[|sel| - 1];
      PopClearsSelection(g, init);
      assert sel == init + [last];
      forall x | x in sel ensures At(Pop(g, sel).0, x) == 0 {
        if x != last {
          assert x in init;
        }
      }
    }
  }

  /** The pop never touches a cell outside the selection. */
  lemma {:induction false} PopKeepsOthers(g: Grid, sel: seq<Cell>)
    requires IsGrid(g) && AllInBounds(sel)
    ensures forall x :: InBounds(x) && x !in sel ==> At(Pop(g, sel).0, x) == At(g, x)
  {
    if sel != [] {
      var init := sel[..|sel| - 1];
      var last := sel[|sel| - 1];
      PopKeepsOthers(g, init);
      assert sel == init + [last];
      forall x | InBounds(x) && x !in sel ensures At(Pop(g, sel).0, x) == At(g, x) {
        assert x !in init;
      }
    }
  }

  /** The count returned by the pop is the number of distinct selected cells
      that were non-zero before it; a cell listed twice is counted once. */
  lemma {:induction false} PopCount(g: Grid, sel: seq<Cell>)
    requires IsGrid(g) && AllInBounds(sel)
    ensures Pop(g, sel).1 == |NonZeroCells(g, sel)|
  {
    if sel != [] {
      var init := sel[..|sel| - 1];
      var last := sel[|sel| - 1];
      var prev := Pop(g, init);
      assert sel == init + [last];
      PopCount(g, init);
      PopClearsSelection(g, init);
      PopKeepsOthers(g, init);
      var before := NonZeroCells(g, init);
      var after := NonZeroCells(g, sel);
      if At(prev.0, last) != 0 {
        assert last !in init;
        assert At(g, last) != 0;
        assert after == before + {last};
        assert last !in before;
      } else {
        assert last in init || At(g, last) == 0;
        assert after == before;
      }
    }
  }

  /** A selection with a non-zero sum holds at least one apple. */
  lemma {:induction false} NonZeroSumHasApple(g: Grid, sel: seq<Cell>)
    requires IsGrid(g) && AllInBounds(sel)
    requires SelectionSum(g, sel) != 0
    ensures NonZeroCells(g, sel) != {}
  {
    var init := sel[..|sel| - 1];
    var last := sel[|sel| - 1];
    assert sel == init + [last];
    if At(g, last) != 0 {
      assert last in NonZeroCells(g, sel);
    } else {
      NonZeroSumHasApple(g, init);
      var x :| x in NonZeroCells(g, init);
      assert x in NonZeroCells(g, sel);
    }
  }

  /** An accepted selection always scores: the pop clears at least one apple. */
  lemma AcceptedPopScores(g: Grid, sel: seq<Cell>)
    requires IsGrid(g) && AllInBounds(sel)
    requires Accepts(g, sel)
    ensures Pop(g, sel).1 > 0
  {
    NonZeroSumHasApple(g, sel);
    PopCount(g, sel);
  }

  /** A pop only writes 0, so a board of digits and zeros stays one. */
  lemma PopKeepsPlayBoard(g: Grid, sel: seq<Cell>)
    requires PlayBoard(g) && AllInBounds(sel)
    ensures PlayBoard(Pop(g, sel).0)
  {
  }

  /** Popping the same selection twice: the second pop changes nothing and
      counts nothing (clearing is idempotent). */
  lemma PopIdempotent(g: Grid, sel: seq<Cell>)
    requires IsGrid(g) && AllInBounds(sel)
    ensures Pop(Pop(g, sel).0, sel) == (Pop(g, sel).0, 0)
  {
    var h := Pop(g, sel).0;
    PopClearsSelection(g, sel);
    PopClearsSelection(h, sel);
    PopKeepsOthers(h, sel);
    PopCount(h, sel);
    var h2 := Pop(h, sel).0;
    forall r, c | 0 <= r < GridSize && 0 <= c < GridSize
      ensures h2[r][c] == h[r][c]
    {
      assert At(h2, (r, c)) == At(h, (r, c));
    }
    GridExt(h2, h);
    assert NonZeroCells(h, sel) == {};
  }
}
