/** The state of one game (Models/Game.cs) and the snapshot handed to callers (Models/GameInfoResponse.cs). */
module Models {
  import opened Board

  /** Stands for System.Guid: an opaque identifier drawn from an unbounded supply. */
  type Guid = nat

  /** A copy of a game's public state; Field[r][c] is the text of cell (r, c). */
  datatype GameInfoResponse = GameInfoResponse(
    GameId: Guid,
    Width: int,
    Height: int,
    MinesCount: int,
    Completed: bool,
    Field: seq<seq<string>>)

  /** The positions of the true cells of a grid. */
  ghost function TrueCells(grid: array2<bool>): (s: set<Cell>)
    reads grid
    ensures forall cell :: cell in s <==> InBounds(grid.Length0, grid.Length1, cell) && grid[cell.0, cell.1]
  {
    set cell | cell in Cells(grid.Length0, grid.Length1) && grid[cell.0, cell.1]
  }

  /**
   * One game. Field, Revealed and Mines are Height-by-Width grids indexed [row, col]; the engine
   * writes their cells in place. Only Completed is ever reassigned: every other property is set
   * when the game is created and never changes, so it is a const here.
   */
  class Game {
    const GameId: Guid
    const Width: int
    const Height: int
    const MinesCount: int
    var Completed: bool
    const Field: array2<string>
    const Revealed: array2<bool>
    const Mines: array2<bool>
    /** The positions of the mines: the abstract value of the Mines grid. */
    ghost var MineCells: set<Cell>

    constructor (gameId: Guid, width: int, height: int, minesCount: int, completed: bool,
                 field: array2<string>, revealed: array2<bool>, mines: array2<bool>)
      ensures GameId == gameId && Width == width && Height == height && MinesCount == minesCount
      ensures Completed == completed && Field == field && Revealed == revealed && Mines == mines
      ensures MineCells == TrueCells(mines)
    {
      GameId := gameId;
      Width := width;
      Height := height;
      MinesCount := minesCount;
      Completed := completed;
      Field := field;
      Revealed := revealed;
      Mines := mines;
      MineCells := TrueCells(mines);
    }

    /** The objects that make up this game. */
    ghost function Footprint(): set<object>
    {
      {this, Field, Revealed, Mines}
    }

    /** The dimensions are in the accepted range, there is a mine to place, and every grid is Height by Width. */
    ghost predicate Shaped()
    {
      1 <= Width <= MaxSide && 1 <= Height <= MaxSide && 1 <= MinesCount &&
      Field.Length0 == Height && Field.Length1 == Width &&
      Revealed.Length0 == Height && Revealed.Length1 == Width &&
      Mines.Length0 == Height && Mines.Length1 == Width &&
      Revealed != Mines
    }

    /** MineCells lists exactly the true cells of Mines. */
    ghost predicate MinesMatch()
      reads `MineCells, Mines
    {
      (forall cell :: cell in MineCells ==> InBounds(Mines.Length0, Mines.Length1, cell)) &&
      forall r, c :: 0 <= r < Mines.Length0 && 0 <= c < Mines.Length1 ==> (Mines[r, c] <==> (r, c) in MineCells)
    }

    /** The number of mines around (row, col). */
    ghost function Count(row: int, col: int): nat
      reads `MineCells
    {
      AdjacentMines(MineCells, Height, Width, row, col)
    }

    /**
     * log lists cells of the board in an order a flood can reveal them: every cell after the first
     * touches an earlier cell, its parent, that has no mine around it.
     */
    ghost predicate FloodLog(log: seq<Cell>, parent: seq<int>)
      reads `MineCells
    {
      |parent| == |log| &&
      (forall i :: 0 <= i < |log| ==> InBounds(Height, Width, log[i])) &&
      forall i :: 0 < i < |log| ==>
        0 <= parent[i] < i && Touch(log[i], log[parent[i]]) && Count(log[parent[i]].0, log[parent[i]].1) == 0
    }

    /**
     * A flood from start reaches every cell of cells within cells: each lies at the end of a chain
     * of touching cells of cells that begins at start and whose cells, but the last, have no mine
     * around them. The chain is read off a flood log by following parents.
     */
    ghost predicate FloodReaches(start: Cell, cells: set<Cell>)
      reads `MineCells
    {
      exists log: seq<Cell>, parent: seq<int> {:trigger FloodLog(log, parent)} ::
        FloodLog(log, parent) && |log| > 0 && log[0] == start &&
        (forall cell :: cell in cells ==> cell in log) &&
        forall i :: 0 < i < |log| && log[i] in cells ==> log[parent[i]] in cells
    }

    /** Every cell of cells with no mine around it has all its neighbours in cells. */
    ghost predicate FloodClosed(cells: set<Cell>)
      reads `MineCells
    {
      forall r, c :: (r, c) in cells && Count(r, c) == 0 ==>
        forall r', c' :: 0 <= r' < Height && 0 <= c' < Width && Touch((r', c'), (r, c)) ==> (r', c') in cells
    }

    /** Every revealed cell was in before or is on log: a flood that began with before revealed has revealed only logged cells. */
    ghost predicate RevealedWithin(before: set<Cell>, log: seq<Cell>)
      reads Revealed
      requires Shaped()
    {
      forall r, c :: 0 <= r < Height && 0 <= c < Width && Revealed[r, c] ==> (r, c) in before || (r, c) in log
    }

    /** No mine is ever marked revealed. */
    ghost predicate SafeRevealed()
      reads Revealed, Mines
      requires Shaped()
    {
      forall r, c :: 0 <= r < Height && 0 <= c < Width && Revealed[r, c] ==> !Mines[r, c]
    }

    /** Every revealed cell shows the decimal text of the number of mines around it. */
    ghost predicate Labelled()
      reads `MineCells, Field, Revealed
      requires Shaped()
    {
      forall r, c :: 0 <= r < Height && 0 <= c < Width && Revealed[r, c] ==>
        Field[r, c] == NatToString(Count(r, c))
    }

    /**
     * Every revealed cell with no mine around it, other than those in pending, has all its
     * neighbours revealed: the flood fill has gone through it.
     */
    ghost predicate ClosedExcept(pending: set<Cell>)
      reads `MineCells, Revealed
      requires Shaped()
    {
      forall r, c :: 0 <= r < Height && 0 <= c < Width && Revealed[r, c] && (r, c) !in pending && Count(r, c) == 0 ==>
        forall r', c' :: 0 <= r' < Height && 0 <= c' < Width && Touch((r', c'), (r, c)) ==> Revealed[r', c']
    }

    /** Every cell without a mine has been revealed: the winning condition. */
    ghost predicate AllSafeRevealed()
      reads Revealed, Mines
      requires Shaped()
    {
      forall r, c :: 0 <= r < Height && 0 <= c < Width ==> Mines[r, c] || Revealed[r, c]
    }

    /** Hidden cells without a mine show Blank. */
    ghost predicate HiddenBlank()
      reads Field, Revealed, Mines
      requires Shaped()
    {
      forall r, c :: 0 <= r < Height && 0 <= c < Width && !Revealed[r, c] && !Mines[r, c] ==> Field[r, c] == Blank
    }

    /**
     * Mines show Blank while the game runs; once it is completed they show Mine, or Hit for the
     * mine that lost it, and a won game shows no Hit.
     */
    ghost predicate MinesShown()
      reads this, Field, Revealed, Mines
      requires Shaped()
    {
      (!Completed ==> forall r, c :: 0 <= r < Height && 0 <= c < Width && Mines[r, c] ==> Field[r, c] == Blank) &&
      (Completed ==> forall r, c :: 0 <= r < Height && 0 <= c < Width && Mines[r, c] ==> Field[r, c] == Mine || Field[r, c] == Hit) &&
      (AllSafeRevealed() ==> forall r, c :: 0 <= r < Height && 0 <= c < Width && Mines[r, c] ==> Field[r, c] != Hit)
    }

    /**
     * The invariant the engine keeps between calls: exactly MinesCount mines, fewer than there
     * are cells; revealed cells are safe, labelled and (when their count is zero) flooded; hidden
     * cells are shown as MinesShown and HiddenBlank say; and a game whose safe cells are all
     * revealed is completed.
     */
    ghost predicate Valid()
      reads this, Field, Revealed, Mines
    {
      Shaped() && MinesCount < Width * Height && MinesMatch() && |MineCells| == MinesCount &&
      SafeRevealed() && Labelled() && ClosedExcept({}) && HiddenBlank() && MinesShown() &&
      (!Completed ==> !AllSafeRevealed())
    }

    /** info is a faithful copy of this game's public state. */
    ghost predicate Describes(info: GameInfoResponse)
      reads this, Field
    {
      info.GameId == GameId && info.Width == Width && info.Height == Height &&
      info.MinesCount == MinesCount && info.Completed == Completed &&
      Field.Length0 == Height && Field.Length1 == Width && |info.Field| == Height &&
      forall r :: 0 <= r < Height ==>
        |info.Field[r]| == Width && forall c :: 0 <= c < Width ==> info.Field[r][c] == Field[r, c]
    }
  }
}
