/** One square of the crossword grid (model/Case.java). */
module Cells {

  /** Everything a Case holds, as a value. */
  datatype CellInfo = CellInfo(row: int, col: int, currentChar: char, isPartOfWord: bool, wordNumber: int)

  /** A grid square: its position is fixed, its letter and its role in a word are not. */
  class Case {
    const row: int
    const col: int
    var currentChar: char
    var isPartOfWord: bool
    var wordNumber: int

    function View(): CellInfo
      reads this
    {
      CellInfo(row, col, currentChar, isPartOfWord, wordNumber)
    }

    /** A new square at (row, col): blank, blocked and not numbered. */
    constructor (row: int, col: int)
      ensures View() == CellInfo(row, col, ' ', false, -1)
    {
      this.row := row;
      this.col := col;
      this.currentChar := ' ';
      this.isPartOfWord := false;
      this.wordNumber := -1;
    }

    method SetCurrentChar(c: char)
      modifies this`currentChar
      ensures View() == old(View()).(currentChar := c)
    {
      currentChar := c;
    }

    method SetPartOfWord(partOfWord: bool, number: int)
      modifies this`isPartOfWord, this`wordNumber
      ensures View() == old(View()).(isPartOfWord := partOfWord, wordNumber := number)
    {
      isPartOfWord := partOfWord;
      wordNumber := number;
    }
  }

  /** The values held by a list of squares, in list order. */
  function CellViews(cells: seq<Case>): seq<CellInfo>
    reads cells
  {
    seq(|cells|, i requires 0 <= i < |cells| reads cells => cells[i].View())
  }

  /** The values of two lists of squares put together are the values of each, put together. */
  lemma CellViewsAppend(a: seq<Case>, b: seq<Case>)
    ensures CellViews(a + b) == CellViews(a) + CellViews(b)
  {
  }
}
