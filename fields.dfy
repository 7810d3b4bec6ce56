/**
  The game field: a rows x cols grid of cells, the cursor, and the three
  counters of flagged cells, correctly flagged bombs and bombs.  The methods
  of class Field are the field operations of the game; the functions and
  lemmas outside it are the value-level specifications they are proved
  against.
 */
module Fields {
  import opened Types

  // ---------------------------------------------------------------------
  // Neighbour count: the 3x3 window around a cell
  // ---------------------------------------------------------------------

  /** The nine positions of the 3x3 window centred on (row, col), row by row,
      in the order in which the loops of the neighbour count visit them. */
  function Window(row: int, col: int): seq<Position>
  {
    seq(9, k => (row + k / 3 - 1, col + k % 3 - 1))
  }

  /** The number of entries of ps that lie in bombs. */
  function CountIn(bombs: set<Position>, ps: seq<Position>): nat
  {
    if ps == [] then 0
    else CountIn(bombs, ps[..|ps| - 1]) + (if ps[|ps| - 1] in bombs then 1 else 0)
  }

  /** The number of bombs in the 3x3 window centred on (row, col); the centre counts too. */
  function NborCount(bombs: set<Position>, row: int, col: int): nat
  {
    CountIn(bombs, Window(row, col))
  }

  lemma {:induction false} CountInBounds(bombs: set<Position>, ps: seq<Position>)
    ensures CountIn(bombs, ps) <= |ps|
    ensures CountIn(bombs, ps) == 0 <==> forall k :: 0 <= k < |ps| ==> ps[k] !in bombs
    ensures CountIn(bombs, ps) == |ps| <==> forall k :: 0 <= k < |ps| ==> ps[k] in bombs
  {
    if ps != [] {
      var init := ps[..|ps| - 1];
      CountInBounds(bombs, init);
      assert forall k :: 0 <= k < |init| ==> init[k] == ps[k];
    }
  }

  lemma CountInSnoc(bombs: set<Position>, ps: seq<Position>, k: nat)
    requires k < |ps|
    ensures CountIn(bombs, ps[..k + 1]) == CountIn(bombs, ps[..k]) + (if ps[k] in bombs then 1 else 0)
  {
    assert ps[..k + 1][..k] == ps[..k];
  }

  /** Entry 3 * (dr + 1) + (dc + 1) of the window is the cell at offset (dr, dc). */
  lemma WindowAt(row: int, col: int, dr: int, dc: int)
    requires -1 <= dr <= 1 && -1 <= dc <= 1
    ensures Window(row, col)[3 * (dr + 1) + dc + 1] == (row + dr, col + dc)
  {
    var k := 3 * (dr + 1) + dc + 1;
    assert k / 3 == dr + 1 && k % 3 == dc + 1;
  }

  /** The bombs among the first n positions of the window: what the neighbour-count loop has seen
      after n steps. */
  function PartialCount(bombs: set<Position>, row: int, col: int, n: nat): nat
    requires n <= 9
  {
    CountIn(bombs, Window(row, col)[..n])
  }

  /** The step of the neighbour-count loop at offset (dr, dc) adds one exactly for a bomb there. */
  lemma PartialCountStep(bombs: set<Position>, row: int, col: int, dr: int, dc: int)
    requires -1 <= dr <= 1 && -1 <= dc <= 1
    ensures var n := 3 * (dr + 1) + dc + 1;
      PartialCount(bombs, row, col, n + 1) == PartialCount(bombs, row, col, n) + (if (row + dr, col + dc) in bombs then 1 else 0)
  {
    var n := 3 * (dr + 1) + dc + 1;
    CountInSnoc(bombs, Window(row, col), n);
    WindowAt(row, col, dr, dc);
  }

  /** Nothing is seen before the first step, and the whole window after the ninth. */
  lemma PartialCountEnds(bombs: set<Position>, row: int, col: int)
    ensures PartialCount(bombs, row, col, 0) == 0
    ensures PartialCount(bombs, row, col, 9) == NborCount(bombs, row, col)
  {
    var w := Window(row, col);
    assert w[..0] == [];
    assert w[..9] == w;
  }

  /** The count lies in [0, 9], and in [0, 8] when the centre is not a bomb. */
  lemma NborCountRange(bombs: set<Position>, row: int, col: int)
    ensures NborCount(bombs, row, col) <= 9
    ensures (row, col) !in bombs ==> NborCount(bombs, row, col) <= 8
  {
    var w := Window(row, col);
    CountInBounds(bombs, w);
    assert w[4] == (row, col);
  }

  /** The count is zero exactly when no position of the window is a bomb. */
  lemma NborCountZero(bombs: set<Position>, row: int, col: int)
    ensures NborCount(bombs, row, col) == 0 <==>
      forall i, j :: row - 1 <= i <= row + 1 && col - 1 <= j <= col + 1 ==> (i, j) !in bombs
  {
    var w := Window(row, col);
    CountInBounds(bombs, w);
    if NborCount(bombs, row, col) == 0 {
      forall i, j | row - 1 <= i <= row + 1 && col - 1 <= j <= col + 1
        ensures (i, j) !in bombs
      {
        var k := 3 * (i - row + 1) + (j - col + 1);
        assert w[k] == (i, j);
      }
    }
  }

  // ---------------------------------------------------------------------
  // Bomb placement by rejection sampling
  // ---------------------------------------------------------------------

  /** C's a / 100, which truncates toward zero where Dafny's / rounds down: 100 times the quotient
      is the multiple of 100 nearest to a on the side of zero. */
  function TruncDiv100(a: int): (q: int)
    ensures 0 <= a ==> 0 <= 100 * q <= a < 100 * q + 100
    ensures a < 0 ==> 100 * q - 100 < a <= 100 * q <= 0
  {
    if 0 <= a then a / 100 else -((-a) / 100)
  }

  /** For a grid and a percentage that are not negative, C's share of the cells is Dafny's. */
  lemma PercentOfCells(rows: int, cols: int, percent: int)
    requires 0 <= rows && 0 <= cols && 0 <= percent
    ensures TruncDiv100(rows * cols * percent) == rows * cols * percent / 100
  {
    assert 0 <= rows * cols;
    assert 0 <= rows * cols * percent;
  }

  /** The cell a pair of raw random numbers selects: the first modulo rows, the second modulo cols. */
  function Pick(raw: (nat, nat), rows: int, cols: int): Position
    requires 0 < rows && 0 < cols
  {
    (raw.0 % rows, raw.1 % cols)
  }

  /** A bomb may go at p: p is not a bomb yet and shares neither the row nor the column of the cursor. */
  predicate Eligible(bombs: set<Position>, p: Position, cursor: Position)
  {
    p !in bombs && p.0 != cursor.0 && p.1 != cursor.1
  }

  /** The placement loop run from bombs, with setBombs bombs placed so far, drawing picks in order:
      each draw adds the drawn cell when it is eligible, and the loop stops after the first draw
      that brings setBombs to totalBombs.  The result is the bombs at the end, the number of picks
      drawn, and whether the loop stopped (false: the picks ran out first). */
  function Placement(bombs: set<Position>, setBombs: int, totalBombs: int, picks: seq<(nat, nat)>,
                     rows: int, cols: int, cursor: Position): (set<Position>, nat, bool)
    requires 0 < rows && 0 < cols
    decreases |picks|
  {
    if picks == [] then (bombs, 0, false)
    else
      var p := Pick(picks[0], rows, cols);
      var bombs' := if Eligible(bombs, p, cursor) then bombs + {p} else bombs;
      var setBombs' := if Eligible(bombs, p, cursor) then setBombs + 1 else setBombs;
      if setBombs' == totalBombs then (bombs', 1, true)
      else
        var r := Placement(bombs', setBombs', totalBombs, picks[1..], rows, cols, cursor);
        (r.0, r.1 + 1, r.2)
  }

  /** The placement loop only adds bombs, each inside the grid and outside the cursor's row and column. */
  lemma {:induction false} PlacementAdds(bombs: set<Position>, setBombs: int, totalBombs: int, picks: seq<(nat, nat)>,
                                         rows: int, cols: int, cursor: Position)
    requires 0 < rows && 0 < cols
    decreases |picks|
    ensures var after := Placement(bombs, setBombs, totalBombs, picks, rows, cols, cursor).0;
      bombs <= after &&
      forall p :: p in after && p !in bombs ==> 0 <= p.0 < rows && 0 <= p.1 < cols && p.0 != cursor.0 && p.1 != cursor.1
  {
    if picks != [] {
      var p := Pick(picks[0], rows, cols);
      var bombs' := if Eligible(bombs, p, cursor) then bombs + {p} else bombs;
      var setBombs' := if Eligible(bombs, p, cursor) then setBombs + 1 else setBombs;
      if setBombs' != totalBombs {
        PlacementAdds(bombs', setBombs', totalBombs, picks[1..], rows, cols, cursor);
      }
    }
  }

  /** The placement loop draws at most all the picks, and all of them when it does not stop; when it
      stops, it has drawn at least one and placed exactly totalBombs - setBombs new bombs. */
  lemma {:induction false} PlacementCounts(bombs: set<Position>, setBombs: int, totalBombs: int, picks: seq<(nat, nat)>,
                                           rows: int, cols: int, cursor: Position)
    requires 0 < rows && 0 < cols
    decreases |picks|
    ensures var (after, used, finished) := Placement(bombs, setBombs, totalBombs, picks, rows, cols, cursor);
      && used <= |picks| && (finished || used == |picks|)
      && (finished ==> 1 <= used && |after| == |bombs| + totalBombs - setBombs)
  {
    if picks != [] {
      var p := Pick(picks[0], rows, cols);
      var eligible := Eligible(bombs, p, cursor);
      var bombs' := if eligible then bombs + {p} else bombs;
      var setBombs' := if eligible then setBombs + 1 else setBombs;
      assert |bombs'| == |bombs| + setBombs' - setBombs;
      if setBombs' != totalBombs {
        PlacementCounts(bombs', setBombs', totalBombs, picks[1..], rows, cols, cursor);
      }
    }
  }

  /** On a grid of one row or one column every cell shares the cursor's row or column, so no bomb
      is ever placed; with bombs still to place the loop never stops, however many picks it draws. */
  lemma {:induction false} NoRoomOnOneLine(bombs: set<Position>, setBombs: int, totalBombs: int, picks: seq<(nat, nat)>,
                                           rows: int, cols: int, cursor: Position)
    requires 0 < rows && 0 < cols && 0 <= cursor.0 < rows && 0 <= cursor.1 < cols
    requires rows == 1 || cols == 1
    requires setBombs != totalBombs
    decreases |picks|
    ensures Placement(bombs, setBombs, totalBombs, picks, rows, cols, cursor) == (bombs, |picks|, false)
  {
    if picks != [] {
      NoRoomOnOneLine(bombs, setBombs, totalBombs, picks[1..], rows, cols, cursor);
    }
  }

  /** Off one-line grids the guard leaves room: the (rows - 1) * (cols - 1) cells outside the cursor's
      row and column are at least the BombPercentage share of all cells. */
  lemma RoomOffCursorLines(rows: int, cols: int)
    requires 2 <= rows && 2 <= cols
    ensures rows * cols * BombPercentage / 100 <= (rows - 1) * (cols - 1)
  {
    var a, b := rows - 2, cols - 2;
    assert rows * cols == 4 + 2 * a + 2 * b + a * b;
    assert (rows - 1) * (cols - 1) == 1 + a + b + a * b;
    assert 0 <= a * b;
    assert rows * cols * BombPercentage / 100 <= rows * cols / 4;
  }

  // ---------------------------------------------------------------------
  // Flagging and cursor movement
  // ---------------------------------------------------------------------

  /** Flagging p, not yet flagged, adds one flag, and one correct flag when p is a bomb. */
  lemma FlagAdded(flagged: set<Position>, bombs: set<Position>, p: Position)
    requires p !in flagged
    ensures |flagged + {p}| == |flagged| + 1
    ensures |(flagged + {p}) * bombs| == |flagged * bombs| + (if p in bombs then 1 else 0)
  {
    if p in bombs {
      assert (flagged + {p}) * bombs == (flagged * bombs) + {p};
    } else {
      assert (flagged + {p}) * bombs == flagged * bombs;
    }
  }

  /** Unflagging a flagged p removes one flag, and one correct flag when p is a bomb. */
  lemma FlagRemoved(flagged: set<Position>, bombs: set<Position>, p: Position)
    requires p in flagged
    ensures |flagged - {p}| == |flagged| - 1
    ensures |(flagged - {p}) * bombs| == |flagged * bombs| - (if p in bombs then 1 else 0)
  {
    assert flagged == (flagged - {p}) + {p};
    if p in bombs {
      assert flagged * bombs == ((flagged - {p}) * bombs) + {p};
    } else {
      assert flagged * bombs == (flagged - {p}) * bombs;
    }
  }

  /** The positions of a grid of the given size. */
  ghost function Grid(rows: int, cols: int): (grid: set<Position>)
    ensures forall p :: p in grid <==> 0 <= p.0 < rows && 0 <= p.1 < cols
  {
    set i, j | 0 <= i < rows && 0 <= j < cols :: (i, j)
  }

  /** The flag toggle on one cell, with the counters (totalFlagged, correctlyFlagged):
      Open cells are left alone, Closed and Flagged swap, and the counters follow. */
  function Toggle(cell: Cell, flagged: int, correct: int): (Cell, int, int)
  {
    match cell.state
    case Open => (cell, flagged, correct)
    case Flagged => (cell.(state := Closed), flagged - 1, if cell.ctype == Bomb then correct - 1 else correct)
    case Closed => (cell.(state := Flagged), flagged + 1, if cell.ctype == Bomb then correct + 1 else correct)
  }

  /** Toggling twice restores the cell and both counters. */
  lemma ToggleTwice(cell: Cell, flagged: int, correct: int)
    ensures var (c, f, k) := Toggle(cell, flagged, correct); Toggle(c, f, k) == (cell, flagged, correct)
  {
  }

  /** The row and column steps of a direction. */
  function DeltaRow(d: Direction): int
  {
    match d
    case Up => -1
    case Down => 1
    case _ => 0
  }

  function DeltaCol(d: Direction): int
  {
    match d
    case Left => -1
    case Right => 1
    case _ => 0
  }

  /** The cursor at (row, col) is on the edge of a rows x cols grid that faces d. */
  predicate AtEdge(row: int, col: int, rows: int, cols: int, d: Direction)
  {
    match d
    case Up => row == 0
    case Down => row == rows - 1
    case Left => col == 0
    case Right => col == cols - 1
  }

  /** Where the cursor goes: one step in direction d, or nowhere at the edge facing d. */
  function Moved(row: int, col: int, rows: int, cols: int, d: Direction): (p: Position)
    requires 0 <= row < rows && 0 <= col < cols
    ensures 0 <= p.0 < rows && 0 <= p.1 < cols
    ensures p == (row, col) <==> AtEdge(row, col, rows, cols, d)
    ensures p != (row, col) ==> p == (row + DeltaRow(d), col + DeltaCol(d))
  {
    match d
    case Up => if row != 0 then (row - 1, col) else (row, col)
    case Down => if row != rows - 1 then (row + 1, col) else (row, col)
    case Left => if col != 0 then (row, col - 1) else (row, col)
    case Right => if col != cols - 1 then (row, col + 1) else (row, col)
  }

  /** One cell step of the flood fill: a Closed Empty cell may become Open; nothing else changes. */
  predicate Opens(before: Cell, after: Cell)
  {
    after == before || (before == ClosedEmpty && after == Cell(Open, Empty))
  }

  // ---------------------------------------------------------------------
  // The field
  // ---------------------------------------------------------------------

  class Field {
    const rows: int
    const cols: int
    var cursorRow: int
    var cursorCol: int
    const cells: array2<Cell>
    /** How many cells are flagged, how many of those are bombs, and how many bombs were placed. */
    var totalFlagged: int
    var correctlyFlagged: int
    var totalBombs: int

    /** The grid has the field's dimensions and the cursor is on it. */
    ghost predicate Valid()
      reads this
    {
      0 < rows && 0 < cols && cells.Length0 == rows && cells.Length1 == cols &&
      0 <= cursorRow < rows && 0 <= cursorCol < cols
    }

    /** The positions of the cells that hold a bomb. */
    ghost function BombCells(): set<Position>
      reads cells
    {
      set p | p in Grid(cells.Length0, cells.Length1) && cells[p.0, p.1].ctype == Bomb
    }

    /** The positions of the flagged cells. */
    ghost function FlaggedCells(): set<Position>
      reads cells
    {
      set p | p in Grid(cells.Length0, cells.Length1) && cells[p.0, p.1].state == Flagged
    }

    /** The positions of the cells that are not Open; the flood fill makes it smaller. */
    ghost function NonOpen(): set<Position>
      reads cells
    {
      set p | p in Grid(cells.Length0, cells.Length1) && cells[p.0, p.1].state != Open
    }

    /** The two flag counters agree with the grid. */
    ghost predicate CountersAgree()
      reads this, cells
    {
      totalFlagged == |FlaggedCells()| && correctlyFlagged == |FlaggedCells() * BombCells()|
    }

    /** fieldInit: an all-Closed, all-Empty grid with the cursor in the top left corner.
        The counters start at zero, as the globals of the game do. */
    constructor (rows: int, cols: int)
      requires 0 < rows && 0 < cols
      ensures Valid() && fresh(cells)
      ensures this.rows == rows && this.cols == cols && cursorRow == 0 && cursorCol == 0
      ensures forall i, j :: 0 <= i < rows && 0 <= j < cols ==> cells[i, j] == ClosedEmpty
      ensures totalFlagged == 0 && correctlyFlagged == 0 && totalBombs == 0
      ensures BombCells() == {} && FlaggedCells() == {} && CountersAgree()
    {
      var grid := new Cell[rows, cols];
      for row := 0 to rows
        invariant forall i, j :: 0 <= i < row && 0 <= j < cols ==> grid[i, j] == ClosedEmpty
      {
        for col := 0 to cols
          invariant forall i, j :: 0 <= i < row && 0 <= j < cols ==> grid[i, j] == ClosedEmpty
          invariant forall j :: 0 <= j < col ==> grid[row, j] == ClosedEmpty
        {
          grid[row, col] := ClosedEmpty;
        }
      }
      this.rows := rows;
      this.cols := cols;
      cursorRow, cursorCol := 0, 0;
      cells := grid;
      totalFlagged, correctlyFlagged, totalBombs := 0, 0, 0;
    }

    /** isInField: (row, col) indexes a cell of the grid. */
    function IsInField(row: int, col: int): (b: bool)
      reads this
      ensures Valid() ==> (b <==> 0 <= row < cells.Length0 && 0 <= col < cells.Length1)
    {
      (row >= 0) && (row < rows) && (col >= 0) && (col < cols)
    }

    /** fieldCellGetNborBombsCount: the bombs among the in-field cells of the 3x3 window. */
    method NborBombsCount(row: int, col: int) returns (mineCount: int)
      requires Valid()
      ensures mineCount == NborCount(BombCells(), row, col)
    {
      ghost var bombs := BombCells();
      PartialCountEnds(bombs, row, col);
      mineCount := 0;
      for rowDelta := -1 to 2
        invariant mineCount == PartialCount(bombs, row, col, 3 * (rowDelta + 1))
      {
        for colDelta := -1 to 2
          invariant mineCount == PartialCount(bombs, row, col, 3 * (rowDelta + 1) + colDelta + 1)
        {
          PartialCountStep(bombs, row, col, rowDelta, colDelta);
          if !IsInField(row + rowDelta, col + colDelta) {
            assert (row + rowDelta, col + colDelta) !in bombs;
            continue;
          }
          assert (row + rowDelta, col + colDelta) in bombs <==> cells[row + rowDelta, col + colDelta].ctype == Bomb;
          if cells[row + rowDelta, col + colDelta].ctype == Bomb {
            mineCount := mineCount + 1;
          }
        }
      }
    }

    /** No cell of the 3x3 window around (row, col) is still Closed, bombs apart. */
    ghost predicate Settled(row: int, col: int)
      reads cells
    {
      forall i, j ::
        (0 <= i < cells.Length0 && 0 <= j < cells.Length1 && row - 1 <= i <= row + 1 && col - 1 <= j <= col + 1) ==>
        cells[i, j].ctype == Bomb || cells[i, j].state != Closed
    }

    /** Around a settled cell with no bomb in its window, every in-field neighbour is an Empty cell
        that is Open or Flagged: the flood fill has revealed all it may. */
    lemma SettledZeroRevealed(row: int, col: int)
      requires Valid() && Settled(row, col) && NborCount(BombCells(), row, col) == 0
      ensures forall i, j ::
        (0 <= i < rows && 0 <= j < cols && row - 1 <= i <= row + 1 && col - 1 <= j <= col + 1) ==>
        cells[i, j].ctype == Empty && (cells[i, j].state == Open || cells[i, j].state == Flagged)
    {
      NborCountZero(BombCells(), row, col);
      forall i, j | 0 <= i < rows && 0 <= j < cols && row - 1 <= i <= row + 1 && col - 1 <= j <= col + 1
        ensures cells[i, j].ctype == Empty
      {
        assert (i, j) !in BombCells();
      }
    }

    /** Since the old state, cells have only gone from Closed Empty to Open Empty. */
    twostate predicate OnlyOpened()
      reads cells
    {
      forall i, j :: 0 <= i < cells.Length0 && 0 <= j < cells.Length1 ==> Opens(old(cells[i, j]), cells[i, j])
    }

    /** Every cell opened since the old state that has no bomb around it has its window settled. */
    twostate predicate OpenedAreSettled()
      reads cells
    {
      forall i, j ::
        (0 <= i < cells.Length0 && 0 <= j < cells.Length1 &&
         old(cells[i, j].state) != Open && cells[i, j].state == Open && NborCount(BombCells(), i, j) == 0) ==>
        Settled(i, j)
    }

    /** Since the old state, every bomb has been opened and nothing else has changed. */
    twostate predicate BombsShown()
      reads cells
    {
      forall i, j :: 0 <= i < cells.Length0 && 0 <= j < cells.Length1 ==>
        cells[i, j] == if old(cells[i, j].ctype) == Bomb then Cell(Open, Bomb) else old(cells[i, j])
    }

    /** fieldRandomizeBombs: totalBombs becomes rows * cols * bombPercentage / 100 in C's arithmetic, and the loop of
        Placement runs from the current bombs; the picks stand for the successive rand() values. */
    method RandomizeBombs(bombPercentage: int, picks: seq<(nat, nat)>) returns (finished: bool, used: nat)
      requires Valid()
      modifies this`totalBombs, cells
      ensures Valid()
      ensures totalBombs == TruncDiv100(rows * cols * bombPercentage)
      ensures var placement := Placement(old(BombCells()), 0, totalBombs, picks, rows, cols, (cursorRow, cursorCol));
        BombCells() == placement.0 && used == placement.1 && finished == placement.2
      ensures forall i, j :: 0 <= i < rows && 0 <= j < cols ==> cells[i, j].state == old(cells[i, j].state)
    {
      ghost var cursor := (cursorRow, cursorCol);
      SetTotalBombs(bombPercentage);
      ghost var result := Placement(BombCells(), 0, totalBombs, picks, rows, cols, cursor);
      var setBombs := 0;
      finished, used := false, 0;
      while !finished && used < |picks|
        invariant 0 <= used <= |picks|
        invariant finished ==> result.0 == BombCells() && result.1 == used && result.2
        invariant !finished ==> var rest := Placement(BombCells(), setBombs, totalBombs, picks[used..], rows, cols, cursor);
          result.0 == rest.0 && result.1 == rest.1 + used && result.2 == rest.2
        invariant forall i, j :: 0 <= i < rows && 0 <= j < cols ==> cells[i, j].state == old(cells[i, j].state)
        modifies cells
        decreases |picks| - used
      {
        var randRow := picks[used].0 % rows;
        var randCol := picks[used].1 % cols;
        assert picks[used..][0] == picks[used] && picks[used..][1..] == picks[used + 1..];
        var placed := PlaceBomb(randRow, randCol);
        if placed {
          setBombs := setBombs + 1;
        }
        used := used + 1;
        finished := setBombs == totalBombs;
      }
      if !finished {
        assert picks[used..] == [];
      }
    }

    /** The bomb total of fieldRandomizeBombs: bombPercentage percent of the cells, truncated toward zero. */
    method SetTotalBombs(bombPercentage: int)
      modifies this`totalBombs
      ensures totalBombs == TruncDiv100(rows * cols * bombPercentage)
    {
      var totalCells := cols * rows;
      totalBombs := TruncDiv100(totalCells * bombPercentage);
      assert totalCells == rows * cols;
    }

    /** One pass of the placement loop at (r, c): a bomb goes there exactly when the cell is eligible. */
    method PlaceBomb(r: int, c: int) returns (placed: bool)
      requires Valid() && 0 <= r < rows && 0 <= c < cols
      modifies cells
      ensures placed == Eligible(old(BombCells()), (r, c), (cursorRow, cursorCol))
      ensures BombCells() == if placed then old(BombCells()) + {(r, c)} else old(BombCells())
      ensures forall i, j :: 0 <= i < rows && 0 <= j < cols ==> cells[i, j].state == old(cells[i, j].state)
    {
      assert (r, c) in BombCells() <==> cells[r, c].ctype == Bomb;
      placed := cells[r, c].ctype != Bomb && r != cursorRow && c != cursorCol;
      if placed {
        SetBomb(r, c);
      }
    }

    /** The assignment of the placement loop: the cell at (r, c) becomes a bomb and keeps its state. */
    method SetBomb(r: int, c: int)
      requires 0 <= r < cells.Length0 && 0 <= c < cells.Length1 && cells[r, c].ctype != Bomb
      modifies cells
      ensures cells[r, c] == old(cells[r, c]).(ctype := Bomb)
      ensures forall i, j :: 0 <= i < cells.Length0 && 0 <= j < cells.Length1 && (i, j) != (r, c) ==>
        cells[i, j] == old(cells[i, j])
      ensures BombCells() == old(BombCells()) + {(r, c)}
    {
      cells[r, c] := cells[r, c].(ctype := Bomb);
    }

    /** The assignment of the reveal: the cell at (r, c), not Open yet, becomes Open and keeps its type. */
    method SetOpen(r: int, c: int)
      requires 0 <= r < cells.Length0 && 0 <= c < cells.Length1 && cells[r, c].state != Open
      modifies cells
      ensures cells[r, c] == old(cells[r, c]).(state := Open)
      ensures forall i, j :: 0 <= i < cells.Length0 && 0 <= j < cells.Length1 && (i, j) != (r, c) ==>
        cells[i, j] == old(cells[i, j])
      ensures BombCells() == old(BombCells())
      ensures NonOpen() == old(NonOpen()) - {(r, c)} && (r, c) in old(NonOpen())
    {
      cells[r, c] := cells[r, c].(state := Open);
    }

    /** fieldShowAllBombs: every bomb is opened; the redraw that follows is not part of this model. */
    method ShowAllBombs()
      requires Valid()
      modifies cells
      ensures BombsShown()
    {
      for row := 0 to rows
        invariant forall i, j :: 0 <= i < rows && 0 <= j < cols ==>
          cells[i, j] == if i < row && old(cells[i, j].ctype) == Bomb then Cell(Open, Bomb) else old(cells[i, j])
      {
        for col := 0 to cols
          invariant forall i, j :: 0 <= i < rows && 0 <= j < cols ==>
            cells[i, j] == if (i < row || (i == row && j < col)) && old(cells[i, j].ctype) == Bomb
                           then Cell(Open, Bomb) else old(cells[i, j])
        {
          if cells[row, col].ctype == Bomb {
            cells[row, col] := cells[row, col].(state := Open);
          }
        }
      }
    }

    /** fieldOpenCell: on a bomb (Flagged or not) every bomb is shown and the game is lost;
        on a non-Open cell the cell opens, and the flood fill runs when no bomb is around it;
        on an Open cell nothing happens. */
    method OpenCell(row: int, col: int) returns (exploded: bool)
      requires Valid() && 0 <= row < rows && 0 <= col < cols
      modifies cells
      decreases NonOpen(), 0
      ensures exploded <==> old(cells[row, col].ctype) == Bomb
      ensures exploded ==> BombsShown()
      ensures !exploded ==> cells[row, col] == Cell(Open, Empty)
      ensures !exploded ==> forall i, j :: 0 <= i < rows && 0 <= j < cols && (i, j) != (row, col) ==>
        Opens(old(cells[i, j]), cells[i, j])
      ensures !exploded && old(cells[row, col].state) == Open ==>
        forall i, j :: 0 <= i < rows && 0 <= j < cols ==> cells[i, j] == old(cells[i, j])
      ensures !exploded && NborCount(BombCells(), row, col) != 0 ==>
        forall i, j :: 0 <= i < rows && 0 <= j < cols && (i, j) != (row, col) ==> cells[i, j] == old(cells[i, j])
      ensures !exploded ==> BombCells() == old(BombCells()) && NonOpen() <= old(NonOpen())
      ensures !exploded ==> OpenedAreSettled()
    {
      if cells[row, col].ctype == Bomb {
        ShowAllBombs();
        return true;
      }
      exploded := false;
      if cells[row, col].state != Open {
        SetOpen(row, col);
        var count := NborBombsCount(row, col);
        if count == 0 {
          OpenAdjacentCells(row, col);
        }
      }
    }

    /** fieldOpenCellAtCursor. */
    method OpenCellAtCursor() returns (exploded: bool)
      requires Valid()
      modifies cells
      ensures exploded <==> old(cells[cursorRow, cursorCol].ctype) == Bomb
      ensures exploded ==> BombsShown()
      ensures !exploded ==> cells[cursorRow, cursorCol] == Cell(Open, Empty)
      ensures !exploded ==> forall i, j :: 0 <= i < rows && 0 <= j < cols && (i, j) != (cursorRow, cursorCol) ==>
        Opens(old(cells[i, j]), cells[i, j])
      ensures !exploded && old(cells[cursorRow, cursorCol].state) == Open ==>
        forall i, j :: 0 <= i < rows && 0 <= j < cols ==> cells[i, j] == old(cells[i, j])
      ensures !exploded && NborCount(BombCells(), cursorRow, cursorCol) != 0 ==>
        forall i, j :: 0 <= i < rows && 0 <= j < cols && (i, j) != (cursorRow, cursorCol) ==> cells[i, j] == old(cells[i, j])
      ensures !exploded ==> BombCells() == old(BombCells()) && OpenedAreSettled()
    {
      exploded := OpenCell(cursorRow, cursorCol);
    }

    /** fieldOpenAdjacentCells: visit the in-field cells of the 3x3 window around (row, col).
        Afterwards no cell of the window is Closed unless it is a bomb. */
    method OpenAdjacentCells(row: int, col: int)
      requires Valid()
      modifies cells
      decreases NonOpen(), 3
      ensures OnlyOpened() && OpenedAreSettled()
      ensures BombCells() == old(BombCells()) && NonOpen() <= old(NonOpen())
      ensures Settled(row, col)
    {
      for rowDelta := -1 to 2
        invariant OnlyOpened() && OpenedAreSettled()
        invariant BombCells() == old(BombCells()) && NonOpen() <= old(NonOpen())
        invariant forall i, j ::
          (0 <= i < rows && 0 <= j < cols && row - 1 <= i < row + rowDelta && col - 1 <= j <= col + 1) ==>
          cells[i, j].ctype == Bomb || cells[i, j].state != Closed
      {
        OpenAdjacentInRow(row + rowDelta, col);
      }
    }

    /** One pass of the outer loop of fieldOpenAdjacentCells: the inner loop over the three columns
        around col in row currentRow.  Afterwards none of those cells is Closed unless it is a bomb. */
    method OpenAdjacentInRow(currentRow: int, col: int)
      requires Valid()
      modifies cells
      decreases NonOpen(), 2
      ensures OnlyOpened() && OpenedAreSettled()
      ensures BombCells() == old(BombCells()) && NonOpen() <= old(NonOpen())
      ensures forall j :: 0 <= currentRow < rows && 0 <= j < cols && col - 1 <= j <= col + 1 ==>
        cells[currentRow, j].ctype == Bomb || cells[currentRow, j].state != Closed
    {
      for colDelta := -1 to 2
        invariant OnlyOpened() && OpenedAreSettled()
        invariant BombCells() == old(BombCells()) && NonOpen() <= old(NonOpen())
        invariant forall j :: 0 <= currentRow < rows && 0 <= j < cols && col - 1 <= j < col + colDelta ==>
          cells[currentRow, j].ctype == Bomb || cells[currentRow, j].state != Closed
      {
        var currentCol := col + colDelta;
        if !IsInField(currentRow, currentCol) {
          continue;
        }
        OpenNeighbour(currentRow, currentCol);
      }
    }

    /** The body of the loop in fieldOpenAdjacentCells for one in-field cell: a Closed Empty cell
        with no bomb around it opens and its own window is visited; any other non-bomb, unflagged
        cell with a bomb around it is opened with fieldOpenCell. */
    method OpenNeighbour(row: int, col: int)
      requires Valid() && 0 <= row < rows && 0 <= col < cols
      modifies cells
      decreases NonOpen(), 1
      ensures OnlyOpened() && OpenedAreSettled()
      ensures BombCells() == old(BombCells()) && NonOpen() <= old(NonOpen())
      ensures cells[row, col].ctype == Bomb || cells[row, col].state != Closed
    {
      var count := NborBombsCount(row, col);
      var cell := cells[row, col];
      if cell.ctype == Empty && cell.state == Closed && count == 0 {
        SetOpen(row, col);
        OpenAdjacentCells(row, col);
      } else if cell.ctype != Bomb && cell.state != Flagged && count != 0 {
        var exploded := OpenCell(row, col);
      }
    }

    /** The assignment of the flag toggle: the cell at (r, c) gets state st (Closed or Flagged) and keeps its type. */
    method SetFlagState(r: int, c: int, st: State)
      requires 0 <= r < cells.Length0 && 0 <= c < cells.Length1 && st != Open
      modifies cells
      ensures cells[r, c] == old(cells[r, c]).(state := st)
      ensures forall i, j :: 0 <= i < cells.Length0 && 0 <= j < cells.Length1 && (i, j) != (r, c) ==>
        cells[i, j] == old(cells[i, j])
      ensures BombCells() == old(BombCells())
      ensures FlaggedCells() == if st == Flagged then old(FlaggedCells()) + {(r, c)} else old(FlaggedCells()) - {(r, c)}
    {
      cells[r, c] := cells[r, c].(state := st);
    }

    /** fieldFlagCellAtCursor: see Toggle; the rest of the grid is left alone. */
    method FlagCellAtCursor()
      requires Valid()
      modifies this`totalFlagged, this`correctlyFlagged, cells
      ensures var toggled := Toggle(old(cells[cursorRow, cursorCol]), old(totalFlagged), old(correctlyFlagged));
        cells[cursorRow, cursorCol] == toggled.0 && totalFlagged == toggled.1 && correctlyFlagged == toggled.2
      ensures forall i, j :: 0 <= i < rows && 0 <= j < cols && (i, j) != (cursorRow, cursorCol) ==>
        cells[i, j] == old(cells[i, j])
      ensures BombCells() == old(BombCells())
      ensures old(CountersAgree()) ==> CountersAgree()
    {
      var cell := cells[cursorRow, cursorCol];
      ghost var agreed, flagged, bombs, p := CountersAgree(), FlaggedCells(), BombCells(), (cursorRow, cursorCol);
      assert p in bombs <==> cell.ctype == Bomb;

      if cell.state == Open {
        return;
      }

      if cell.state == Flagged {
        SetFlagState(cursorRow, cursorCol, Closed);
        totalFlagged := totalFlagged - 1;

        if cell.ctype == Bomb {
          correctlyFlagged := correctlyFlagged - 1;
        }

        if agreed {
          assert FlaggedCells() == flagged - {p};
          FlagRemoved(flagged, bombs, p);
        }
        return;
      }

      SetFlagState(cursorRow, cursorCol, Flagged);
      totalFlagged := totalFlagged + 1;

      if cell.ctype == Bomb {
        correctlyFlagged := correctlyFlagged + 1;
      }

      if agreed {
        assert FlaggedCells() == flagged + {p};
        FlagAdded(flagged, bombs, p);
      }
    }

    /** fieldMoveCursor: see Moved. */
    method MoveCursor(direction: Direction)
      requires Valid()
      modifies this`cursorRow, this`cursorCol
      ensures Valid()
      ensures (cursorRow, cursorCol) == Moved(old(cursorRow), old(cursorCol), rows, cols, direction)
    {
      match direction
      case Up =>
        if cursorRow != 0 {
          cursorRow := cursorRow - 1;
        }
      case Down =>
        if cursorRow != rows - 1 {
          cursorRow := cursorRow + 1;
        }
      case Left =>
        if cursorCol != 0 {
          cursorCol := cursorCol - 1;
        }
      case Right =>
        if cursorCol != cols - 1 {
          cursorCol := cursorCol + 1;
        }
    }
  }
}
