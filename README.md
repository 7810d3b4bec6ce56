# Minesweeper field, modelled in Dafny

This project models the game logic of a terminal Minesweeper written in C (`minesweeper.c`, with its types in `minesweeper.h`).
The game keeps a `Field`: a `rows x cols` grid of cells, each Open, Closed or Flagged and each Empty or a Bomb, plus a cursor.
Three global counters go with it: `totalFlagged`, `correctlyFlagged` and `totalBombs`.
The player moves the cursor with `w`/`a`/`s`/`d`, toggles a flag with `f`, opens the cursor cell with space and quits with `q`.
The first space places the bombs by rejection sampling before opening the cell.
Opening an Empty cell with no bomb around it flood-fills its neighbourhood.
The game is won once bombs are placed and `correctlyFlagged == totalBombs` after a command. Because of the counter drift described below, this is not the same as every bomb being flagged.

Files:

- `types.dfy` (module `Types`): the cell states and types, the directions, `Cell`, and the constants `DefaultRows`, `DefaultCols` and `BombPercentage` (`DEFAULT_ROWS`, `DEFAULT_COLS` and `BOMB_PERCENTAGE` of `minesweeper.h`).
- `fields.dfy` (module `Fields`):
  - class `Field` holds the grid as an `array2<Cell>`, the cursor, and the three counters, which become fields of the class.
  - Each field operation of the C file is a method of the class; the bounds check `isInField` is a function.
  - Each method is proved against functions on values: the 3x3 window count `NborCount`, the placement loop `Placement` and the flag toggle `Toggle`.
  - Class-level ghost sets are proved against those functions too: the bomb positions, the flagged positions and the non-Open positions.
- `display.dfy` (module `Display`): the glyph `fieldPrint` writes for one cell, as a pure function.
- `game.dfy` (module `Game`): the grid size chosen from the `-r`/`-c` options, one pass of the main loop (`Step`), and the main loop over a sequence of keys (`Play`).

Modelling choices:

- `rand()` becomes a sequence `picks` of pairs of naturals, one pair per pass of the placement loop. The pair is reduced `% rows` and `% cols` as in the C code; without negative operands, Dafny's `%` and C's agree.
  - If the picks run out before the loop stops, the model reports that (`finished == false`, outcome `PicksExhausted`).
  - The C loop would keep drawing.
- `exit()` becomes the outcomes `Won`, `Lost` and `Quit` of a step.
- C's `/` truncates toward zero and Dafny's rounds down. The bomb total uses `TruncDiv100`, C's division by 100, so a negative percentage gives C's result; for the program's own percentage (25) the two agree (`PercentOfCells`).
- The flood fill keeps the C code's mutual recursion between `fieldOpenCell` and `fieldOpenAdjacentCells`. It terminates on the lexicographic measure (set of non-Open cells, rank).
  - The loop body of `fieldOpenAdjacentCells` is the method `OpenNeighbour`.
  - Its inner loop is the method `OpenAdjacentInRow`.
- The counter invariant (`totalFlagged` is the number of Flagged cells, `correctlyFlagged` the number of Flagged bombs) is `CountersAgree`. It is proved to be preserved by the flag toggle, and it is not a class invariant, because the C code breaks it in two places:
  - opening a Flagged Empty cell (minesweeper.c:144-145) leaves `totalFlagged` unchanged;
  - placing a bomb under a flag (minesweeper.c:52-53) leaves `correctlyFlagged` unchanged.
  - A consequence: on a 2 x 2 grid, flagging (1, 1) before the first space and then pressing space at (0, 0) puts the only bomb under the flag. `correctlyFlagged` stays 0 while `totalBombs` is 1, and unflagging and reflagging give -1 and 0, so no win is ever reported.
- Bomb placement excludes the cursor's whole row and whole column, as the `&&` on minesweeper.c:51 does, not only the cursor cell.
  - On a grid with one row or one column, no cell is eligible, so the C loop never ends once at least one bomb is due. `NoRoomOnOneLine` proves this: the model draws every pick and never finishes.
  - On grids with at least two rows and two columns, `RoomOffCursorLines` shows that the eligible cells are enough for the 25 % share.

## Model

| member | source | states |
|---|---|---|
| Fields.Field.constructor | minesweeper.c:17-32 | the new grid has the given size, every cell is Closed and Empty, the cursor is at (0, 0), there are no bombs and no flags, and the counters agree with the grid |
| Fields.Field.IsInField | minesweeper.c:59-61 | true exactly when 0 <= row < rows and 0 <= col < cols |
| Fields.Field.NborBombsCount | minesweeper.c:63-77 | the loop's count equals the number of bomb cells in the 3x3 window around (row, col), centre included; cells outside the grid are skipped |
| Fields.NborCountRange | minesweeper.c:63-77 | the count is at most 9, and at most 8 when the centre is not a bomb |
| Fields.NborCountZero | minesweeper.c:63-77 | the count is 0 exactly when no position of the window holds a bomb |
| Fields.Field.RandomizeBombs | minesweeper.c:41-57 | totalBombs becomes rows * cols * bombPercentage / 100 in C's truncating division; the bombs, the number of rand() pairs drawn and whether the loop stopped are those of Placement from the current bombs; no cell state changes |
| Fields.Field.SetTotalBombs | minesweeper.c:42-43 | totalBombs is bombPercentage percent of rows * cols, truncated toward zero as C's `/` does |
| Fields.TruncDiv100 | minesweeper.c:43 | C's division by 100: 100 times the quotient is the multiple of 100 nearest to the dividend on the side of zero, for negative dividends too |
| Fields.PercentOfCells | minesweeper.c:42-43 | for a grid and a non-negative percentage, C's share of the cells is the rounded-down quotient |
| Fields.Field.PlaceBomb | minesweeper.c:47-54 | a bomb goes at the drawn cell exactly when it is not a bomb yet and lies outside the cursor's row and column; no state changes |
| Fields.Field.SetBomb | minesweeper.c:52 | the cell becomes a bomb and keeps its state; the bomb set gains exactly that cell |
| Fields.PlacementAdds | minesweeper.c:46-56 | the placement loop only adds bombs, each inside the grid and outside the cursor's row and column |
| Fields.PlacementCounts | minesweeper.c:46-56 | the loop draws at most all the pairs, all of them unless it stops, and stops only after adding exactly totalBombs - setBombs bombs |
| Fields.NoRoomOnOneLine | minesweeper.c:46-56 | with one row or one column and a bomb still due, the loop adds nothing and never stops, however many pairs it draws |
| Fields.RoomOffCursorLines | minesweeper.c:42-51 | with at least two rows and two columns, the (rows - 1) * (cols - 1) cells off the cursor's lines are at least the 25 % bomb share |
| Fields.Field.ShowAllBombs | minesweeper.c:127-135 | every bomb cell becomes Open; every other cell is unchanged |
| Fields.Field.OpenCell | minesweeper.c:137-149 | a bomb, even a Flagged one, explodes and all bombs are shown, and nothing else changes; otherwise the cell ends Open and Empty, other cells only go from Closed Empty to Open Empty, nothing changes when it was Open already, nothing else changes when its count is not 0, and every newly opened zero-count cell has no Closed non-bomb neighbour |
| Fields.Field.OpenCellAtCursor | minesweeper.c:151-153 | fieldOpenCell at the cursor: it explodes exactly on a bomb and then all bombs are shown; otherwise the cursor cell ends Open and Empty, other cells only go from Closed Empty to Open Empty, nothing changes when the cursor cell was Open already, nothing else changes when its count is not 0, and every newly opened zero-count cell is settled |
| Fields.Field.OpenAdjacentCells | minesweeper.c:155-174 | only Closed Empty cells become Open; bombs and Flagged cells are never opened; no cell type changes; afterwards no in-field cell of the window is Closed unless it is a bomb, and the same holds around every zero-count cell it opened |
| Fields.Field.OpenAdjacentInRow | minesweeper.c:156-173 | one row of that window: afterwards none of its in-field cells is Closed unless it is a bomb |
| Fields.Field.OpenNeighbour | minesweeper.c:163-171 | the cell ends as a bomb or not Closed; the flood-fill guarantees hold |
| Fields.Field.SetOpen | minesweeper.c:145 | the cell becomes Open and keeps its type; it leaves the non-Open set, which is all that changes; the same assignment on line 167 of the flood fill goes through it too |
| Fields.Field.SettledZeroRevealed | minesweeper.c:146-147 | around a settled cell with no bomb in its window, every in-field neighbour is an Empty cell that is Open or Flagged |
| Fields.Field.FlagCellAtCursor | minesweeper.c:176-197 | the cursor cell and the counters become Toggle of their old values: nothing on an Open cell, Closed and Flagged swap, totalFlagged moves by one and correctlyFlagged by one only on a bomb; no other cell and no type changes, and agreeing counters stay agreeing |
| Fields.Field.SetFlagState | minesweeper.c:182-196 | the cell takes the new state and keeps its type; the flagged set gains or loses exactly that cell |
| Fields.FlagAdded | minesweeper.c:192-196 | flagging an unflagged cell adds one flag, and one correct flag exactly when it is a bomb |
| Fields.FlagRemoved | minesweeper.c:182-189 | unflagging a flagged cell removes one flag, and one correct flag exactly when it is a bomb |
| Fields.ToggleTwice | minesweeper.c:176-197 | toggling twice restores the cell and both counters |
| Fields.Moved | minesweeper.c:199-218 | the moved cursor stays in the grid; it stays put exactly at the edge of the direction, and otherwise moves by exactly one in that direction |
| Fields.Field.MoveCursor | minesweeper.c:199-218 | the cursor becomes Moved of the old cursor; nothing else changes |
| Display.Digits | minesweeper.c:96 | the text of "%d": at least one character, all decimal digits, with a leading '0' only for 0 |
| Display.DigitsValue | minesweeper.c:96 | reading the digits back gives the number |
| Display.Glyph | minesweeper.c:89-107 | the four glyphs mark exactly their cases: "." exactly the Closed cells, "!" exactly the Flagged ones, "*" exactly the Open bombs, a blank exactly the Open Empty cells with count 0, and the decimal digits of the count (starting with a digit) for the other Open Empty cells |
| Display.CellText | minesweeper.c:83-112 | the glyph framed by "[" and "]" at the cursor and by spaces elsewhere |
| Display.GlyphHidesUnopened | minesweeper.c:101-106 | a Closed or Flagged cell shows the same glyph whatever its type and count |
| Display.GlyphWidth | minesweeper.c:89-107 | with a count of at most 9, every glyph is one character and every cell's text three |
| Display.GlyphShowsVisible | minesweeper.c:89-107 | equal glyphs mean the same state, the same type for Open cells, and the same count for Open Empty cells |
| Game.Dimensions | minesweeper.c:235-273 | the size is rejected exactly when a given -r or -c value is not positive; otherwise each given value is used and each absent one takes the default |
| Game.DefaultGame | minesweeper.h:3-5 | with no options the grid is 10 x 10 and the placement aims for 25 bombs |
| Game.KeyDirection | minesweeper.c:281-291 | a direction is chosen exactly for w, s, a and d, which select Up, Down, Left and Right respectively |
| Game.Step | minesweeper.c:277-313 | for each key: a movement key moves the cursor as Moved and changes nothing else; f toggles the cursor cell as Toggle, keeps the cursor, and leaves every other cell alone; q quits; any other key changes nothing. Only a space can change totalBombs, and a space never changes the cursor or the flag counters. Bombs are placed once: the first space places them, and after it the bomb set and totalBombs never change unless the game is lost. The space results are those of PressSpace, including that a cursor cell with a non-zero count opens alone. A win is reported exactly when bombs are placed and correctlyFlagged == totalBombs after a command that did not quit, lose or run out of draws |
| Game.PressSpace | minesweeper.c:296-302 | the first space places the right number of bombs, none on the cursor's lines, and then opens the cursor cell, which is therefore never a bomb; other cells only change state from Closed to Open Empty, and every newly opened zero-count cell is settled, and when the cursor cell's count is not 0 no other cell changes state. A later space loses exactly on a bomb, and then all bombs are shown; otherwise the cursor cell ends Open and Empty, other cells only go from Closed Empty to Open Empty, every newly opened zero-count cell is settled, nothing changes when the cursor cell was Open already, and no other cell changes when its count is not 0. The cursor and both flag counters never change |
| Game.Play | minesweeper.c:277-313 | the loop runs until a step ends the game or the keys run out; the outcome is Quit exactly when a q is among the keys read, and then it is the last one; a loss happens only on a space after an earlier space; running out of rand() pairs happens only on the first space; a win needs an earlier or final space and correctlyFlagged == totalBombs at the end |

## Left out

- Terminal handling: `resetTermState`, `tcgetattr`/`tcsetattr`, `atexit`, hiding the cursor and the `isatty` check (minesweeper.c:12-15, 230-233, 254-264). These are platform I/O.
- Printing: `fieldPrint`/`fieldRePrint` write the header line, the ANSI colour of the flag and the cursor-movement escapes. Only the per-cell glyph choice is modelled.
- Reading keys: `read` of one byte becomes the `key` parameter of `Step` and the `keys` sequence of `Play`.
- Option parsing: `getopt` and `atoi` are library calls. `Dimensions` takes one value per option. A repeated option is not modelled: the C code exits at the first non-positive value and otherwise keeps the last one.
- Randomness: `srand(time(NULL))` and `rand()` are replaced by the `picks` sequence. The model cannot state the C loop's running forever. It states instead that the loop does not finish within the given picks (`NoRoomOnOneLine`).
- Fields.Field.RandomizeBombs: that the C loop ends with probability 1 when enough cells are eligible is a statement about `rand()` and is not made. The model states what a given sequence of draws does, and `RoomOffCursorLines` shows that enough cells are eligible on grids with at least two rows and two columns.
- Memory: `malloc`/`free` in `fieldInit`/`fieldFree` are replaced by a Dafny `array2`. The `sizeof(Cell *)` row allocation in `fieldInit` is not modelled.
- Integer overflow: C `int` is 32-bit and Dafny's `int` is unbounded. `rows * cols * bombPercentage` overflows at the program's 25 % only past about 85.9 million cells (about 21.5 million for a 100 % share), which the model does not consider.
- Display.Glyph: `fieldPrint` passes the cell's neighbour count (minesweeper.c:92). The model takes that count as a parameter and does not read the field.
- Fields.Field.OpenCell: the model proves that the flood fill only opens cells and leaves no Closed cell around a zero-count cell it opened. It does not prove the converse, that every cell it opens is reachable from the start through zero-count cells.
- Fields.Field.OpenAdjacentCells: the same converse (every opened cell reachable through zero-count cells) is not proved.
- Fields.Field.OpenAdjacentInRow: the same converse is not proved.
- Fields.Field.OpenNeighbour: the same converse is not proved.
- Game.Play: that no step before the last one ended the game is stated only for q. The loop's stopping at the first Won, Lost or PicksExhausted step is in its code but not in its contract, because the conditions refer to intermediate states.
