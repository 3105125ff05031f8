/**
 * The engine's loops as MinesweeperService.cs writes them, where they differ from what the
 * engine evidently means. The rest of the model (module Service) uses the corrected loops; the
 * lemmas here show, for each deviation, an input on which the code as written goes wrong.
 */
module AsWritten {
  import opened Board

  /** How a loop of the source ends: its guard fails, its body leaves the method, or it reads outside the grid. */
  datatype LoopEnd = Finished | Left | OutOfRange

  /** How the win check ends: it returns won, or it reads outside the grid (IndexOutOfRangeException). */
  datatype WinOutcome = Returns(won: bool) | ReadsOutside

  /** The inner-loop guard of lines 111 and 133: it tests r, not c, against Min(Width - 1, c + 1). */
  predicate BlockColumnGuard(r: int, c: int, width: int) {
    r <= Min(width - 1, c + 1)
  }

  /**
   * The inner loop of lines 111-117 and 133-139 as written, on row r from column c: it goes on
   * while BlockColumnGuard holds, reading column c of the grid each time.
   */
  function BlockRowScan(r: int, c: int, width: int): LoopEnd
    decreases width - c
  {
    if !BlockColumnGuard(r, c, width) then Finished
    else if c < 0 || c >= width then OutOfRange
    else BlockRowScan(r, c + 1, width)
  }

  /**
   * On a row r below Width, a scan that starts no further left than column r - 1 runs off the
   * board: the guard holds at every column from there on. A turn on (0, 0) is such a case on any
   * board, so counting its mines reads Mines[0, Width].
   */
  lemma {:induction false} BlockRowScanOverruns(r: int, c: int, width: int)
    requires 0 <= r < width && r - 1 <= c && 0 <= c <= width
    ensures BlockRowScan(r, c, width) == OutOfRange
    decreases width - c
  {
    if c < width {
      BlockRowScanOverruns(r, c + 1, width);
    }
  }

  /**
   * On a row r more than one below the scan's first column c, the guard fails at once: the scan
   * reads nothing, and that row of the block is skipped. A turn on (5, 0) of a 10x10 board skips
   * rows 4 to 6.
   */
  lemma BlockRowScanSkips(r: int, c: int, width: int)
    requires c + 1 < r
    ensures BlockRowScan(r, c, width) == Finished
  {
  }

  /**
   * The count of line 135 (with the loop bounds corrected): the cells around (row, col), itself
   * included, that hold no mine.
   */
  function SafeCount(mines: set<Cell>, height: int, width: int, row: int, col: int): nat {
    |Neighbourhood(height, width, row, col) - mines|
  }

  /**
   * SafeCount and the mine count split the neighbourhood between them, and a safe cell always
   * counts itself, so its label is never "0" and the flood fill never starts.
   */
  lemma SafeCountNeverZero(mines: set<Cell>, height: int, width: int, row: int, col: int)
    requires InBounds(height, width, (row, col)) && (row, col) !in mines
    ensures SafeCount(mines, height, width, row, col) + AdjacentMines(mines, height, width, row, col)
         == |Neighbourhood(height, width, row, col)|
    ensures SafeCount(mines, height, width, row, col) >= 1
  {
    var block := Neighbourhood(height, width, row, col);
    AdjacentMinesCountsNeighbourhood(mines, height, width, row, col);
    assert block == (block - mines) + (block * mines);
    DisjointUnionCardinality(block - mines, block * mines);
    assert (row, col) in block - mines;
  }

  /**
   * The inner loop of lines 149-155 and 165-171 as written, on row from column col: its guard
   * compares row, not col, with the width, so it does not depend on col; its body reads column
   * col and leaves the method at the columns in exits.
   */
  function RowLoop(row: int, width: int, col: int, exits: set<int>): LoopEnd
    decreases width - col
  {
    if !(row < width) then Finished
    else if col < 0 || col >= width then OutOfRange
    else if col in exits then Left
    else RowLoop(row, width, col + 1, exits)
  }

  /** On a row below Width the loop never finishes: it leaves the method at an exit column, or reads column Width. */
  lemma {:induction false} RowLoopNeverFinishes(row: int, width: int, col: int, exits: set<int>)
    requires 0 <= row < width && 0 <= col <= width
    ensures RowLoop(row, width, col, exits) != Finished
    ensures (forall c :: col <= c < width ==> c !in exits) ==> RowLoop(row, width, col, exits) == OutOfRange
    decreases width - col
  {
    if col < width && col !in exits {
      RowLoopNeverFinishes(row, width, col + 1, exits);
    }
  }

  /** The columns of row at which the win check's body returns false: the hidden cells without a mine. */
  function HiddenColumns(hidden: set<Cell>, row: int, width: int): set<int> {
    set c | 0 <= c < width && (row, c) in hidden
  }

  /**
   * CheckWinCondition (lines 145-159) as written, from row onward, where hidden holds the cells
   * that have neither a mine nor been revealed.
   */
  function WinCheck(hidden: set<Cell>, height: int, width: int, row: int): WinOutcome
    decreases height - row
  {
    if row >= height then Returns(true)
    else
      match RowLoop(row, width, 0, HiddenColumns(hidden, row, width))
      case Left => Returns(false)
      case OutOfRange => ReadsOutside
      case Finished => WinCheck(hidden, height, width, row + 1)
  }

  /**
   * As written, the win check never reports a win: row 0 is below Width, so its loop either
   * finds a hidden safe cell or reads column Width. On a board whose safe cells are all revealed
   * it always reads outside the grid.
   */
  lemma WinCheckNeverWins(hidden: set<Cell>, height: int, width: int)
    requires 1 <= height && 1 <= width
    ensures WinCheck(hidden, height, width, 0) != Returns(true)
    ensures hidden == {} ==> WinCheck(hidden, height, width, 0) == ReadsOutside
  {
    RowLoopNeverFinishes(0, width, 0, HiddenColumns(hidden, 0, width));
  }

  /**
   * The text line 169 writes, as written, to a cell whose mine flag is mine and which shows
   * shown: the test of line 167 picks the cells without a mine.
   */
  function MineText(mine: bool, completed: bool, shown: string): string {
    if !mine then (if completed then Mine else Hit) else shown
  }

  /**
   * As written, a completed game keeps its hidden mines blank and paints Mine over every safe
   * cell, the revealed counts included.
   */
  lemma MineTextMissesMines(shown: string)
    ensures MineText(true, true, Blank) == Blank
    ensures MineText(false, true, shown) == Mine
  {
  }
}
