/**
  The text fieldPrint shows for one cell: a glyph for its state, framed by
  brackets at the cursor and by spaces elsewhere.  An Open Empty cell shows
  its neighbour count in decimal (blank for zero), an Open bomb "*", a
  Closed cell "." and a Flagged cell "!".  Only the choice of characters is
  modelled: writing to the terminal and the colour of the flag are not.
 */
module Display {
  import opened Types

  /** The decimal digit character of d. */
  function DigitChar(d: nat): (c: char)
    requires d < 10
    ensures IsDigit(c) && c as int - 48 == d
  {
    (48 + d) as char
  }

  /** c is one of '0' .. '9' (character codes 48 .. 57). */
  predicate IsDigit(c: char)
  {
    48 <= c as int <= 57
  }

  /** The decimal text printf's "%d" produces for n: digits only, no leading zero. */
  function Digits(n: nat): (s: string)
    ensures 1 <= |s|
    ensures forall k :: 0 <= k < |s| ==> IsDigit(s[k])
    ensures s[0] == '0' <==> n == 0
  {
    if n < 10 then [DigitChar(n)] else Digits(n / 10) + [DigitChar(n % 10)]
  }

  /** The number a string of decimal digits denotes. */
  function Value(s: string): nat
    requires forall k :: 0 <= k < |s| ==> IsDigit(s[k])
  {
    if s == [] then 0
    else
      var init := s[..|s| - 1];
      assert forall k :: 0 <= k < |init| ==> init[k] == s[k];
      assert IsDigit(s[|s| - 1]);
      10 * Value(init) + (s[|s| - 1] as int - 48)
  }

  /** Reading the digits back gives n: the text of a count determines the count. */
  lemma {:induction false} DigitsValue(n: nat)
    ensures Value(Digits(n)) == n
  {
    if n >= 10 {
      var s := Digits(n);
      assert s[..|s| - 1] == Digits(n / 10);
      DigitsValue(n / 10);
    }
  }

  /** A count below ten takes one character. */
  lemma DigitsOfDigit(n: nat)
    requires n < 10
    ensures Digits(n) == [DigitChar(n)]
  {
  }

  /** The glyph of a cell whose neighbour count is bombCount (the switch in fieldPrint). */
  function Glyph(cell: Cell, bombCount: nat): (g: string)
    ensures g == "." <==> cell.state == Closed
    ensures g == "!" <==> cell.state == Flagged
    ensures g == "*" <==> cell == Cell(Open, Bomb)
    ensures g == " " <==> cell == Cell(Open, Empty) && bombCount == 0
    ensures cell == Cell(Open, Empty) && bombCount != 0 ==> g == Digits(bombCount) && IsDigit(g[0])
  {
    match cell.state
    case Open =>
      if cell.ctype == Empty then
        if bombCount == 0 then " "
        else
          var digits := Digits(bombCount);
          assert IsDigit(digits[0]);
          digits
      else
        assert cell.ctype == Bomb;
        "*"
    case Closed => "."
    case Flagged => "!"
  }

  /** The text of one cell: the glyph between "[" and "]" at the cursor, between spaces elsewhere. */
  function CellText(cell: Cell, bombCount: nat, atCursor: bool): (text: string)
    ensures |text| == |Glyph(cell, bombCount)| + 2
    ensures text[1..|text| - 1] == Glyph(cell, bombCount)
    ensures text[0] == (if atCursor then '[' else ' ') && text[|text| - 1] == (if atCursor then ']' else ' ')
  {
    (if atCursor then "[" else " ") + Glyph(cell, bombCount) + (if atCursor then "]" else " ")
  }

  /** The display hides what a cell holds until it is opened: a Closed or Flagged cell shows the
      same glyph whatever its type and count. */
  lemma GlyphHidesUnopened(s: State, t1: CellType, t2: CellType, n1: nat, n2: nat)
    requires s != Open
    ensures Glyph(Cell(s, t1), n1) == Glyph(Cell(s, t2), n2)
  {
  }

  /** With a count of at most 9, every glyph takes exactly one character,
      so every cell's text is three characters wide. */
  lemma GlyphWidth(cell: Cell, bombCount: nat)
    requires bombCount <= 9
    ensures |Glyph(cell, bombCount)| == 1
    ensures |CellText(cell, bombCount, true)| == 3 && |CellText(cell, bombCount, false)| == 3
  {
    if bombCount != 0 {
      DigitsOfDigit(bombCount);
    }
  }

  /** The glyph tells the player all that is visible: the state, and for an Open cell whether it is
      a bomb and, if not, its neighbour count. */
  lemma {:induction false} GlyphShowsVisible(c1: Cell, n1: nat, c2: Cell, n2: nat)
    requires Glyph(c1, n1) == Glyph(c2, n2)
    ensures c1.state == c2.state
    ensures c1.state == Open ==> c1.ctype == c2.ctype
    ensures c1.state == Open && c1.ctype == Empty ==> n1 == n2
  {
    var g := Glyph(c1, n1);
    if c1.state == Open && c1.ctype == Empty && n1 != 0 {
      assert IsDigit(g[0]);
    }
    if c2.state == Open && c2.ctype == Empty && n2 != 0 {
      assert IsDigit(g[0]);
    }
    if c1.state == Open && c1.ctype == Empty && n1 != 0 && n2 != 0 {
      DigitsValue(n1);
      DigitsValue(n2);
    }
  }
}
