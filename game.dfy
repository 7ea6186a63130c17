/** The game session of the apple game widget: the board, the selection being
    dragged, the score and the countdown, changed in place by the widget's
    event handlers. Pixels, labels, colours and dialogs are not modelled: a
    pointer event arrives here as the board cell under the pointer, or None
    when the pointer is over no visible cell. */
module Game {
  import opened Board
  import opened Selection
  import opened Timer

  datatype Option<T> = None | Some(value: T)

  class AppleGame {
    /** The board, row by row; 0 is a cleared cell. */
    var grid: array2<int>
    var score: int
    /** Seconds left on the countdown. */
    var timeLeft: int
    /** Whether the one-second timer is active. */
    var running: bool
    /** The cells of the current selection, in the order they were listed. */
    var selected: seq<Cell>
    var isDragging: bool
    /** The cell the current drag started on, if any. */
    var dragStart: Option<Cell>

    /** The board as a value. */
    ghost function BoardValue(): (g: Grid)
      reads this`grid, grid
      requires grid.Length0 == GridSize && grid.Length1 == GridSize
      ensures IsGrid(g)
      ensures forall r, c :: 0 <= r < GridSize && 0 <= c < GridSize ==> g[r][c] == grid[r, c]
    {
      var a := grid;
      seq(GridSize, r requires 0 <= r < GridSize reads a =>
        seq(GridSize, c requires 0 <= c < GridSize reads a => a[r, c]))
    }

    /** The countdown as a value. */
    ghost function ClockValue(): Clock
      reads this
    {
      Clock(timeLeft, running)
    }

    /** The session invariant: a 15x15 board of digits and zeros, a selection
        and a drag start on the board, a drag only while the timer runs and
        only from a start cell, a score that is never negative, and an active
        timer with time left. */
    ghost predicate Valid()
      reads this, grid
      ensures Valid() && isDragging ==> dragStart.Some? && InBounds(dragStart.value) && timeLeft > 0
    {
      grid.Length0 == GridSize && grid.Length1 == GridSize &&
      PlayBoard(BoardValue()) &&
      AllInBounds(selected) &&
      (dragStart.Some? ==> InBounds(dragStart.value)) &&
      (isDragging ==> dragStart.Some? && running) &&
      score >= 0 &&
      (running ==> 0 < timeLeft <= GameTime)
    }

    /** The state right after a selection check that started from board `g0`,
        selection `sel0` and score `score0`: the selection is emptied; an
        accepted selection is popped and its count added to the score; a
        rejected one leaves board and score as they were. */
    ghost predicate CheckedFrom(g0: Grid, sel0: seq<Cell>, score0: int)
      reads this, grid
      requires grid.Length0 == GridSize && grid.Length1 == GridSize
      requires IsGrid(g0) && AllInBounds(sel0)
    {
      selected == [] &&
      if Accepts(g0, sel0) then BoardValue() == Pop(g0, sel0).0 && score == score0 + Pop(g0, sel0).1
      else BoardValue() == g0 && score == score0
    }

    /** Creating the widget starts a new game on the dealt board `digits`. */
    constructor (digits: Grid)
      requires FreshBoard(digits)
      ensures Valid() && fresh(grid)
      ensures BoardValue() == digits
      ensures score == 0 && ClockValue() == Start()
      ensures selected == [] && !isDragging && dragStart == None
    {
      grid := new int[0, 0];
      score, timeLeft, running := 0, 0, false;
      selected, isDragging, dragStart := [], false, None;
      new;
      NewGame(digits);
    }

    /** Resets the session: score 0, full time, no selection, no drag, the
        freshly dealt board `digits` (every cell 1..9), and the timer started. */
    method NewGame(digits: Grid)
      requires FreshBoard(digits)
      modifies this
      ensures Valid() && fresh(grid)
      ensures BoardValue() == digits
      ensures score == 0 && ClockValue() == Start()
      ensures selected == [] && !isDragging && dragStart == None
    {
      var g := new int[GridSize, GridSize];
      var r := 0;
      while r < GridSize
        invariant 0 <= r <= GridSize
        invariant forall i, j :: 0 <= i < r && 0 <= j < GridSize ==> g[i, j] == digits[i][j]
      {
        var c := 0;
        while c < GridSize
          invariant 0 <= c <= GridSize
          invariant forall i, j :: 0 <= i < r && 0 <= j < GridSize ==> g[i, j] == digits[i][j]
          invariant forall j :: 0 <= j < c ==> g[r, j] == digits[r][j]
        {
          g[r, c] := digits[r][c];
          c := c + 1;
        }
        r := r + 1;
      }
      score := 0;
      timeLeft := GameTime;
      selected := [];
      isDragging := false;
      dragStart := None;
      grid := g;
      running := true;
      GridExt(BoardValue(), digits);
    }

    /** Press: with the left button, while the timer runs, on a cell, a drag
        starts there and selects that one cell; otherwise nothing changes. */
    method Press(leftButton: bool, cell: Option<Cell>)
      requires Valid()
      requires cell.Some? ==> InBounds(cell.value)
      modifies this`isDragging, this`dragStart, this`selected
      ensures Valid()
      ensures if leftButton && running && cell.Some? then
          isDragging && dragStart == cell && selected == [cell.value]
        else
          isDragging == old(isDragging) && dragStart == old(dragStart) && selected == old(selected)
    {
      if leftButton && running && cell.Some? {
        isDragging := true;
        dragStart := cell;
        selected := [];
        UpdateRectangleSelection(cell.value);
        RectangleSingle(cell.value);
      }
    }

    /** Move: during a drag, over a cell, the selection becomes the rectangle
        from the drag start to that cell; otherwise nothing changes. */
    method Move(cell: Option<Cell>)
      requires Valid()
      requires cell.Some? ==> InBounds(cell.value)
      modifies this`selected
      ensures Valid()
      ensures if isDragging && cell.Some? then
          selected == Rectangle(dragStart.value, cell.value)
        else
          selected == old(selected)
    {
      if isDragging && cell.Some? {
        UpdateRectangleSelection(cell.value);
      }
    }

    /** Release: with the left button during a drag, the drag ends, the
        selection is checked (and popped if it is accepted) and the drag start
        is forgotten; otherwise nothing changes. */
    method Release(leftButton: bool)
      requires Valid()
      modifies this`isDragging, this`dragStart, this`selected, this`score, grid
      ensures Valid()
      ensures if leftButton && old(isDragging) then
          !isDragging && dragStart == None && CheckedFrom(old(BoardValue()), old(selected), old(score))
        else
          isDragging == old(isDragging) && dragStart == old(dragStart) &&
          selected == old(selected) && score == old(score) && BoardValue() == old(BoardValue())
      ensures score >= old(score)
    {
      if leftButton && isDragging {
        isDragging := false;
        CheckSelection();
        dragStart := None;
      }
    }

    /** Rebuilds the selection from the drag start to `end`: the rectangle
        between them, or nothing when no drag start is set. */
    method UpdateRectangleSelection(end: Cell)
      requires Valid()
      requires InBounds(end)
      modifies this`selected
      ensures Valid()
      ensures selected == if dragStart.Some? then Rectangle(dragStart.value, end) else []
    {
      selected := [];
      if dragStart.None? {
        return;
      }
      var start := dragStart.value;
      var rMin, rMax := Min(start.0, end.0), Max(start.0, end.0);
      var cMin, cMax := Min(start.1, end.1), Max(start.1, end.1);
      var r := rMin;
      while r < rMax + 1
        invariant rMin <= r <= rMax + 1
        invariant selected == BoxCells(rMin, r - 1, cMin, cMax)
      {
        var c := cMin;
        while c < cMax + 1
          invariant cMin <= c <= cMax + 1
          invariant selected == BoxCells(rMin, r - 1, cMin, cMax) + RowCells(r, cMin, c - 1)
        {
          selected := selected + [(r, c)];
          c := c + 1;
        }
        r := r + 1;
      }
      RectangleInBounds(start, end);
    }

    /** The sum of the board values at the selected cells. */
    method SumSelected() returns (s: int)
      requires Valid()
      ensures s == SelectionSum(BoardValue(), selected)
    {
      s := 0;
      var i := 0;
      while i < |selected|
        invariant 0 <= i <= |selected|
        invariant s == SelectionSum(BoardValue(), selected[..i])
      {
        var cell := selected[i];
        assert cell in selected;
        assert selected[..i + 1][..i] == selected[..i];
        s := s + grid[cell.0, cell.1];
        i := i + 1;
      }
      assert selected[..i] == selected;
    }

    /** The pop rule. An empty selection changes nothing. A selection summing
        to 10 with at least 2 cells has every cell set to 0 and the score
        raised by the number of its cells that held an apple; any other
        selection leaves board and score alone. The selection ends empty. */
    method CheckSelection()
      requires Valid()
      modifies this`selected, this`score, grid
      ensures Valid()
      ensures CheckedFrom(old(BoardValue()), old(selected), old(score))
      ensures score >= old(score)
    {
      if selected == [] {
        return;
      }
      var total := SumSelected();
      if total == TargetSum && |selected| >= 2 {
        ghost var g0 := BoardValue();
        var cleared := ClearSelected();
        PopKeepsPlayBoard(g0, selected);
        AcceptedPopScores(g0, selected);
        if cleared > 0 {
          score := score + cleared;
        }
      }
      selected := [];
    }

    /** The clearing walk of an accepted selection: every selected cell set to
        0 in turn, counting the cells that still held an apple when reached. */
    method ClearSelected() returns (cleared: int)
      requires grid.Length0 == GridSize && grid.Length1 == GridSize
      requires AllInBounds(selected)
      modifies grid
      ensures BoardValue() == Pop(old(BoardValue()), selected).0
      ensures cleared == Pop(old(BoardValue()), selected).1
    {
      ghost var g0 := BoardValue();
      cleared := 0;
      var i := 0;
      while i < |selected|
        invariant 0 <= i <= |selected|
        invariant BoardValue() == Pop(g0, selected[..i]).0
        invariant cleared == Pop(g0, selected[..i]).1
      {
        var cell := selected[i];
        assert cell in selected;
        ghost var before := BoardValue();
        assert selected[..i + 1][..i] == selected[..i];
        if grid[cell.0, cell.1] != 0 {
          cleared := cleared + 1;
        }
        grid[cell.0, cell.1] := 0;
        ClearCellAt(before, cell);
        i := i + 1;
      }
      assert selected[..i] == selected;
    }

    /** Writing 0 at `cell` turns the board `before` into ClearCell(before, cell). */
    lemma ClearCellAt(before: Grid, cell: Cell)
      requires grid.Length0 == GridSize && grid.Length1 == GridSize
      requires IsGrid(before) && InBounds(cell)
      requires grid[cell.0, cell.1] == 0
      requires forall r, c :: 0 <= r < GridSize && 0 <= c < GridSize && (r, c) != cell ==> grid[r, c] == before[r][c]
      ensures BoardValue() == ClearCell(before, cell)
    {
      var after := ClearCell(before, cell);
      forall r, c | 0 <= r < GridSize && 0 <= c < GridSize
        ensures BoardValue()[r][c] == after[r][c]
      {
        assert At(after, (r, c)) == after[r][c];
        assert At(before, (r, c)) == before[r][c];
      }
      GridExt(BoardValue(), after);
    }

    /** One call of the timer callback: one second less; at 0 or below the
        timer stops and the drag is cancelled (game over). */
    method UpdateTimer()
      requires Valid()
      modifies this`timeLeft, this`running, this`isDragging
      ensures Valid()
      ensures ClockValue() == Tick(old(ClockValue()))
      ensures timeLeft == old(timeLeft) - 1
      ensures running == (old(running) && timeLeft > 0)
      ensures isDragging == (old(isDragging) && timeLeft > 0)
    {
      timeLeft := timeLeft - 1;
      if timeLeft <= 0 {
        running := false;
        isDragging := false;
      }
    }
  }
}
