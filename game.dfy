/**
  The game around the field: the choice of grid size from the -r and -c
  options, and one step of the main loop, which reads a key, applies the
  matching field operation and then checks for a win.  Where the program
  ends the process (a bomb, a win, 'q') the step returns an outcome instead.
 */
module Game {
  import opened Types
  import opened Fields

  datatype Option<T> = None | Some(value: T)

  /** How a step of the main loop ends.  PicksExhausted stands for the placement loop still
      running when the recorded rand() values run out. */
  datatype Outcome = Continue | Won | Lost | Quit | PicksExhausted

  /** The grid size main passes to fieldInit, from the values atoi gave for -r and -c (None when the
      option is absent).  A value that is not positive is rejected (None: the program exits with an
      error); an absent option takes the default. */
  function Dimensions(rowsOption: Option<int>, colsOption: Option<int>): (dims: Option<(int, int)>)
    ensures dims.None? <==> (rowsOption.Some? && rowsOption.value <= 0) || (colsOption.Some? && colsOption.value <= 0)
    ensures dims.Some? ==>
      && dims.value.0 == (if rowsOption.Some? then rowsOption.value else DefaultRows)
      && dims.value.1 == (if colsOption.Some? then colsOption.value else DefaultCols)
      && 0 < dims.value.0 && 0 < dims.value.1
  {
    var rowsFromFlag := if rowsOption.Some? then rowsOption.value else 0;
    var colsFromFlag := if colsOption.Some? then colsOption.value else 0;
    if rowsOption.Some? && rowsFromFlag <= 0 then None
    else if colsOption.Some? && colsFromFlag <= 0 then None
    else if colsFromFlag > 0 && rowsFromFlag > 0 then Some((rowsFromFlag, colsFromFlag))
    else if colsFromFlag > 0 && rowsFromFlag == 0 then Some((DefaultRows, colsFromFlag))
    else if colsFromFlag == 0 && rowsFromFlag > 0 then Some((rowsFromFlag, DefaultCols))
    else Some((DefaultRows, DefaultCols))
  }

  /** Without options the game is 10 x 10 and the placement aims for 25 bombs. */
  lemma DefaultGame()
    ensures Dimensions(None, None) == Some((10, 10))
    ensures DefaultRows * DefaultCols * BombPercentage / 100 == 25
  {
  }

  /** The direction a movement key selects. */
  function KeyDirection(key: char): (d: Option<Direction>)
    ensures d.Some? <==> key in {'w', 's', 'a', 'd'}
    ensures d == Some(Up) <==> key == 'w'
    ensures d == Some(Down) <==> key == 's'
    ensures d == Some(Left) <==> key == 'a'
    ensures d == Some(Right) <==> key == 'd'
  {
    match key
    case 'w' => Some(Up)
    case 's' => Some(Down)
    case 'a' => Some(Left)
    case 'd' => Some(Right)
    case _ => None
  }

  /** One pass of the main loop for the key read.  first is true until the first space, which places
      the bombs (drawing from picks, the rand() values) before opening the cursor cell; firstAfter is
      the flag for the next pass. */
  method Step(field: Field, first: bool, key: char, picks: seq<(nat, nat)>) returns (outcome: Outcome, firstAfter: bool)
    requires field.Valid()
    requires first ==> field.BombCells() == {}
    modifies field, field.cells
    ensures field.Valid()
    ensures firstAfter == (first && key != ' ')
    ensures firstAfter ==> field.BombCells() == {}
    ensures !first ==> field.totalBombs == old(field.totalBombs)
    ensures !first && outcome != Lost ==> field.BombCells() == old(field.BombCells())
    ensures key != ' ' ==> field.totalBombs == old(field.totalBombs)
    ensures key in {'f', ' '} ==> field.cursorRow == old(field.cursorRow) && field.cursorCol == old(field.cursorCol)
    // the keys
    ensures outcome == Quit <==> key == 'q'
    ensures KeyDirection(key).Some? ==>
      && (field.cursorRow, field.cursorCol) == Moved(old(field.cursorRow), old(field.cursorCol), field.rows, field.cols, KeyDirection(key).value)
      && (forall i, j :: 0 <= i < field.rows && 0 <= j < field.cols ==> field.cells[i, j] == old(field.cells[i, j]))
      && field.totalFlagged == old(field.totalFlagged) && field.correctlyFlagged == old(field.correctlyFlagged)
    ensures key == 'f' ==>
      && (var toggled := Toggle(old(field.cells[field.cursorRow, field.cursorCol]), old(field.totalFlagged), old(field.correctlyFlagged));
          field.cells[field.cursorRow, field.cursorCol] == toggled.0 && field.totalFlagged == toggled.1 && field.correctlyFlagged == toggled.2)
      && (forall i, j :: 0 <= i < field.rows && 0 <= j < field.cols && (i, j) != (field.cursorRow, field.cursorCol) ==>
            field.cells[i, j] == old(field.cells[i, j]))
      && (old(field.CountersAgree()) ==> field.CountersAgree())
    ensures key == 'q' || (key !in {'w', 's', 'a', 'd', 'f', ' '}) ==>
      && (forall i, j :: 0 <= i < field.rows && 0 <= j < field.cols ==> field.cells[i, j] == old(field.cells[i, j]))
      && field.cursorRow == old(field.cursorRow) && field.cursorCol == old(field.cursorCol)
      && field.totalFlagged == old(field.totalFlagged) && field.correctlyFlagged == old(field.correctlyFlagged)
    // the space key
    ensures outcome == Lost <==> key == ' ' && !first && old(field.cells[field.cursorRow, field.cursorCol].ctype) == Bomb
    ensures key == ' ' ==> field.totalFlagged == old(field.totalFlagged) && field.correctlyFlagged == old(field.correctlyFlagged)
    ensures outcome == Lost ==> field.BombsShown()
    ensures outcome == PicksExhausted ==> key == ' ' && first
    ensures key == ' ' && outcome !in {Lost, PicksExhausted} ==> field.cells[field.cursorRow, field.cursorCol] == Cell(Open, Empty)
    ensures key == ' ' && !first && outcome != Lost ==>
      && (forall i, j :: 0 <= i < field.rows && 0 <= j < field.cols && (i, j) != (field.cursorRow, field.cursorCol) ==>
            Opens(old(field.cells[i, j]), field.cells[i, j]))
      && field.OpenedAreSettled()
    ensures key == ' ' && !first && outcome != Lost && old(field.cells[field.cursorRow, field.cursorCol].state) == Open ==>
      forall i, j :: 0 <= i < field.rows && 0 <= j < field.cols ==> field.cells[i, j] == old(field.cells[i, j])
    ensures key == ' ' && !first && outcome != Lost && NborCount(field.BombCells(), field.cursorRow, field.cursorCol) != 0 ==>
      forall i, j :: 0 <= i < field.rows && 0 <= j < field.cols && (i, j) != (field.cursorRow, field.cursorCol) ==>
        field.cells[i, j] == old(field.cells[i, j])
    ensures key == ' ' && first && outcome !in {Lost, PicksExhausted} && NborCount(field.BombCells(), field.cursorRow, field.cursorCol) != 0 ==>
      forall i, j :: 0 <= i < field.rows && 0 <= j < field.cols && (i, j) != (field.cursorRow, field.cursorCol) ==>
        field.cells[i, j].state == old(field.cells[i, j].state)
    ensures key == ' ' && first && outcome != PicksExhausted ==>
      && (forall i, j :: 0 <= i < field.rows && 0 <= j < field.cols && (i, j) != (field.cursorRow, field.cursorCol) ==>
            field.cells[i, j].state == old(field.cells[i, j].state) ||
            (old(field.cells[i, j].state) == Closed && field.cells[i, j] == Cell(Open, Empty)))
      && field.OpenedAreSettled()
      && field.totalBombs == field.rows * field.cols * BombPercentage / 100
      && |field.BombCells()| == field.totalBombs
      && (forall p :: p in field.BombCells() ==> p.0 != field.cursorRow && p.1 != field.cursorCol)
      && field.cells[field.cursorRow, field.cursorCol] == Cell(Open, Empty)
    // the win check
    ensures outcome in {Continue, Won} ==> (outcome == Won <==> !firstAfter && field.correctlyFlagged == field.totalBombs)
  {
    firstAfter := first;
    outcome := Continue;
    match key {
      case 'w' =>
        field.MoveCursor(Up);
      case 's' =>
        field.MoveCursor(Down);
      case 'a' =>
        field.MoveCursor(Left);
      case 'd' =>
        field.MoveCursor(Right);
      case 'f' =>
        field.FlagCellAtCursor();
      case ' ' =>
        outcome, firstAfter := PressSpace(field, first, picks);
        if outcome != Continue {
          return;
        }
      case 'q' =>
        return Quit, firstAfter;
      case _ =>
    }

    if !firstAfter && field.correctlyFlagged == field.totalBombs {
      return Won, firstAfter;
    }
  }

  /** The space key: on the first one the bombs are placed (drawing from picks, the rand() values),
      then the cursor cell is opened.  The outcome is Continue, Lost or PicksExhausted. */
  method PressSpace(field: Field, first: bool, picks: seq<(nat, nat)>) returns (outcome: Outcome, firstAfter: bool)
    requires field.Valid()
    requires first ==> field.BombCells() == {}
    modifies field, field.cells
    ensures field.Valid()
    ensures !firstAfter && outcome in {Continue, Lost, PicksExhausted}
    ensures field.cursorRow == old(field.cursorRow) && field.cursorCol == old(field.cursorCol)
    ensures field.totalFlagged == old(field.totalFlagged) && field.correctlyFlagged == old(field.correctlyFlagged)
    ensures !first ==> field.totalBombs == old(field.totalBombs)
    ensures !first && outcome != Lost ==> field.BombCells() == old(field.BombCells())
    ensures outcome == Lost <==> !first && old(field.cells[field.cursorRow, field.cursorCol].ctype) == Bomb
    ensures outcome == Lost ==> field.BombsShown()
    ensures outcome == PicksExhausted ==> first
    ensures outcome == Continue ==> field.cells[field.cursorRow, field.cursorCol] == Cell(Open, Empty)
    ensures !first && outcome != Lost ==>
      && (forall i, j :: 0 <= i < field.rows && 0 <= j < field.cols && (i, j) != (field.cursorRow, field.cursorCol) ==>
            Opens(old(field.cells[i, j]), field.cells[i, j]))
      && field.OpenedAreSettled()
    ensures !first && outcome != Lost && old(field.cells[field.cursorRow, field.cursorCol].state) == Open ==>
      forall i, j :: 0 <= i < field.rows && 0 <= j < field.cols ==> field.cells[i, j] == old(field.cells[i, j])
    ensures !first && outcome != Lost && NborCount(field.BombCells(), field.cursorRow, field.cursorCol) != 0 ==>
      forall i, j :: 0 <= i < field.rows && 0 <= j < field.cols && (i, j) != (field.cursorRow, field.cursorCol) ==>
        field.cells[i, j] == old(field.cells[i, j])
    ensures first && outcome == Continue && NborCount(field.BombCells(), field.cursorRow, field.cursorCol) != 0 ==>
      forall i, j :: 0 <= i < field.rows && 0 <= j < field.cols && (i, j) != (field.cursorRow, field.cursorCol) ==>
        field.cells[i, j].state == old(field.cells[i, j].state)
    ensures first && outcome != PicksExhausted ==>
      && (forall i, j :: 0 <= i < field.rows && 0 <= j < field.cols && (i, j) != (field.cursorRow, field.cursorCol) ==>
            field.cells[i, j].state == old(field.cells[i, j].state) ||
            (old(field.cells[i, j].state) == Closed && field.cells[i, j] == Cell(Open, Empty)))
      && field.OpenedAreSettled()
      && field.totalBombs == field.rows * field.cols * BombPercentage / 100
      && |field.BombCells()| == field.totalBombs
      && (forall p :: p in field.BombCells() ==> p.0 != field.cursorRow && p.1 != field.cursorCol)
  {
    firstAfter := first;
    outcome := Continue;
    if firstAfter {
      ghost var cursor := (field.cursorRow, field.cursorCol);
      var finished, used := field.RandomizeBombs(BombPercentage, picks);
      PercentOfCells(field.rows, field.cols, BombPercentage);
      PlacementAdds({}, 0, field.totalBombs, picks, field.rows, field.cols, cursor);
      PlacementCounts({}, 0, field.totalBombs, picks, field.rows, field.cols, cursor);
      firstAfter := false;
      if !finished {
        return PicksExhausted, firstAfter;
      }
      assert cursor !in field.BombCells();
    }
    var exploded := field.OpenCellAtCursor();
    if exploded {
      outcome := Lost;
    }
  }

  /** The main loop over the keys read, from a field with no bombs yet: steps until one ends the
      game, or until the keys run out (Continue).  read is the number of keys consumed. */
  method Play(field: Field, keys: seq<char>, picks: seq<(nat, nat)>) returns (outcome: Outcome, read: nat)
    requires field.Valid() && field.BombCells() == {}
    modifies field, field.cells
    ensures field.Valid()
    ensures read <= |keys|
    ensures outcome == Continue ==> read == |keys| && 'q' !in keys
    ensures outcome != Continue ==> 1 <= read && 'q' !in keys[..read - 1]
    ensures outcome == Quit ==> keys[read - 1] == 'q'
    ensures outcome == Quit <==> 'q' in keys[..read]
    ensures outcome == Lost ==> keys[read - 1] == ' ' && ' ' in keys[..read - 1]
    ensures outcome == PicksExhausted ==> keys[read - 1] == ' ' && ' ' !in keys[..read - 1]
    ensures outcome == Won ==> field.correctlyFlagged == field.totalBombs && ' ' in keys[..read]
  {
    var first := true;
    outcome, read := Continue, 0;
    while read < |keys|
      invariant field.Valid()
      invariant read <= |keys|
      invariant first <==> ' ' !in keys[..read]
      invariant first ==> field.BombCells() == {}
      invariant 'q' !in keys[..read]
      invariant outcome == Continue
      decreases |keys| - read
    {
      var key := keys[read];
      assert keys[..read + 1] == keys[..read] + [key];
      outcome, first := Step(field, first, key, picks);
      read := read + 1;
      if outcome != Continue {
        return;
      }
    }
    assert keys[..read] == keys;
  }
}
