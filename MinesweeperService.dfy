/**
 * The game engine (MinesweeperService.cs): creating games, playing turns, and the routines they
 * use. The private routines of the service take the game they work on and never touch the store,
 * so they are module-level methods here.
 */
module Service {
  import opened Board
  import opened Models

  /** The two exception types the engine throws, with their messages. */
  datatype Error = ArgumentException(message: string) | InvalidOperationException(message: string)

  datatype Result<T> = Success(value: T) | Failure(error: Error)

  datatype Option<T> = None | Some(value: T)

  const InvalidFieldSize := ArgumentException("Invalid field size")
  const InvalidNumberOfMines := ArgumentException("Invalid number of mines")
  const InvalidGameId := ArgumentException("Invalid game ID")
  const InvalidCellPosition := ArgumentException("Invalid cell position")
  const GameAlreadyCompleted := InvalidOperationException("Game is already completed.")
  const CellAlreadyRevealed := InvalidOperationException("Cell already revealed.")

  /**
   * Lays exactly MinesCount mines on a board that has none. The source draws random cells until
   * it hits one without a mine; here each round picks some cell without a mine.
   */
  method PlaceMines(game: Game)
    requires game.Shaped() && game.MinesCount < game.Width * game.Height
    requires game.MinesMatch() && game.MineCells == {}
    modifies game.Mines, game`MineCells
    ensures game.MinesMatch() && |game.MineCells| == game.MinesCount
  {
    var placeMines := 0;
    while placeMines < game.MinesCount
      invariant 0 <= placeMines <= game.MinesCount
      invariant game.MinesMatch() && |game.MineCells| == placeMines
    {
      FreeCellExists(game.Height, game.Width, game.MineCells);
      ghost var free :| InBounds(game.Height, game.Width, free) && free !in game.MineCells;
      assert !game.Mines[free.0, free.1];
      var row, col :| 0 <= row < game.Height && 0 <= col < game.Width && !game.Mines[row, col];
      game.Mines[row, col] := true;
      game.MineCells := game.MineCells + {(row, col)};
      placeMines := placeMines + 1;
    }
  }

  /** Sets every cell of the display to blank. */
  method InitializeField(game: Game)
    requires game.Shaped()
    modifies game.Field
    ensures forall r, c :: 0 <= r < game.Height && 0 <= c < game.Width ==> game.Field[r, c] == Blank
  {
    var row := 0;
    while row < game.Height
      invariant 0 <= row <= game.Height
      invariant forall r, c :: 0 <= r < row && 0 <= c < game.Width ==> game.Field[r, c] == Blank
    {
      var col := 0;
      while col < game.Width
        invariant 0 <= col <= game.Width
        invariant forall r, c :: 0 <= r < row && 0 <= c < game.Width ==> game.Field[r, c] == Blank
        invariant forall c :: 0 <= c < col ==> game.Field[row, c] == Blank
      {
        game.Field[row, col] := Blank;
        col := col + 1;
      }
      row := row + 1;
    }
  }

  /** Counts the mines in the clipped 3x3 block around (row, col). */
  method CountAdjacentMines(game: Game, row: int, col: int) returns (count: int)
    requires game.Shaped() && game.MinesMatch() && 0 <= row < game.Height && 0 <= col < game.Width
    ensures count == game.Count(row, col)
  {
    var r0, r1 := Max(0, row - 1), Min(game.Height - 1, row + 1);
    var c0, c1 := Max(0, col - 1), Min(game.Width - 1, col + 1);
    ghost var mines := game.MineCells;
    count := 0;
    var r := r0;
    while r <= r1
      invariant r0 <= r <= r1 + 1
      invariant count == RectCount(mines, r0, r, c0, c1 + 1)
    {
      var c := c0;
      // The source's inner loop tests r here (line 133); the column bound is meant.
      while c <= c1
        invariant c0 <= c <= c1 + 1
        invariant count == RectCount(mines, r0, r, c0, c1 + 1) + RowCount(mines, r, c0, c)
      {
        // The source counts cells without a mine here (line 135); the name and the game mean mines.
        if game.Mines[r, c] {
          count := count + 1;
        }
        c := c + 1;
      }
      r := r + 1;
    }
  }

  /** Tells whether every cell without a mine has been revealed. */
  method CheckWinCondition(game: Game) returns (won: bool)
    requires game.Shaped()
    ensures won == game.AllSafeRevealed()
  {
    var row := 0;
    while row < game.Height
      invariant 0 <= row <= game.Height
      invariant forall r, c :: 0 <= r < row && 0 <= c < game.Width ==> game.Mines[r, c] || game.Revealed[r, c]
    {
      var col := 0;
      // The source's inner loop tests row here (line 149); the column bound is meant.
      while col < game.Width
        invariant 0 <= col <= game.Width
        invariant forall c :: 0 <= c < col ==> game.Mines[row, c] || game.Revealed[row, c]
      {
        if !game.Mines[row, col] && !game.Revealed[row, col] {
          return false;
        }
        col := col + 1;
      }
      row := row + 1;
    }
    return true;
  }

  /**
   * Shows every mine as Mine, except a mine already showing Hit, and leaves every other cell as it
   * was. The source writes to the cells without a mine (line 167) and, Completed being true at
   * every call, writes Mine over the hit mine as well (line 169); the intent is that the hit mine
   * keeps Hit and every other mine shows Mine.
   */
  method RevealMines(game: Game)
    requires game.Shaped()
    modifies game.Field
    ensures forall r, c :: 0 <= r < game.Height && 0 <= c < game.Width ==>
      game.Field[r, c] == MineShown(game.Mines[r, c], old(game.Field[r, c]))
  {
    var row := 0;
    while row < game.Height
      invariant 0 <= row <= game.Height
      invariant forall r, c :: 0 <= r < row && 0 <= c < game.Width ==>
        game.Field[r, c] == MineShown(game.Mines[r, c], old(game.Field[r, c]))
      invariant forall r, c :: row <= r < game.Height && 0 <= c < game.Width ==> game.Field[r, c] == old(game.Field[r, c])
    {
      var col := 0;
      // The source's inner loop tests row here (line 165); the column bound is meant.
      while col < game.Width
        invariant 0 <= col <= game.Width
        invariant forall r, c :: 0 <= r < row && 0 <= c < game.Width ==>
          game.Field[r, c] == MineShown(game.Mines[r, c], old(game.Field[r, c]))
        invariant forall c :: 0 <= c < col ==>
          game.Field[row, c] == MineShown(game.Mines[row, c], old(game.Field[row, c]))
        invariant forall r, c :: row <= r < game.Height && 0 <= c < game.Width && (r > row || c >= col) ==>
          game.Field[r, c] == old(game.Field[r, c])
      {
        if game.Mines[row, col] && game.Field[row, col] != Hit {
          game.Field[row, col] := Mine;
        }
        col := col + 1;
      }
      row := row + 1;
    }
  }

  /** A cell touching a cell with no mine around it holds no mine. */
  lemma NoMineNextToZero(game: Game, row: int, col: int, r: int, c: int)
    requires game.Shaped() && game.MinesMatch()
    requires 0 <= row < game.Height && 0 <= col < game.Width && game.Count(row, col) == 0
    requires 0 <= r < game.Height && 0 <= c < game.Width && Touch((r, c), (row, col))
    ensures !game.Mines[r, c]
  {
    NoAdjacentMines(game.MineCells, game.Height, game.Width, row, col);
    assert (r, c) in Neighbourhood(game.Height, game.Width, row, col);
  }

  /**
   * Reveals (row, col), lines 94-119. A mine is shown as Hit and completes the game, and nothing
   * else changes. Any other cell is labelled with the number of mines around it and marked
   * revealed; when that number is zero, every unrevealed neighbour is revealed in the same way
   * (RevealNeighbours). The win check the source makes at the end of every call (lines 121-125)
   * is made once, after the outermost call returns (see FinishTurn).
   * pending holds the cells whose calls are still running: their neighbours may not all be
   * revealed yet. unvisited holds every unrevealed cell; it shrinks with each nested call.
   * log is the flood log of the turn so far, and from the index of the logged cell whose flood
   * reached (row, col), and before the set of cells revealed when the turn began. The call
   * extends log, first with (row, col); every revealed cell is in before or on the extended log,
   * which bounds the flood from above.
   */
  method RevealCellRecursive(game: Game, row: int, col: int, ghost pending: set<Cell>, ghost unvisited: set<Cell>,
                             ghost before: set<Cell>, ghost log: seq<Cell>, ghost parent: seq<int>, ghost from: int)
    returns (ghost log': seq<Cell>, ghost parent': seq<int>)
    requires game.Shaped() && game.MinesMatch()
    requires game.SafeRevealed() && game.Labelled() && game.ClosedExcept(pending)
    requires forall r, c :: 0 <= r < game.Height && 0 <= c < game.Width && !game.Revealed[r, c] ==> (r, c) in unvisited
    requires 0 <= row < game.Height && 0 <= col < game.Width && !game.Revealed[row, col]
    requires game.FloodLog(log, parent) && game.RevealedWithin(before, log)
    requires log != [] ==> 0 <= from < |log| && Touch((row, col), log[from]) && game.Count(log[from].0, log[from].1) == 0
    modifies game`Completed, game.Field, game.Revealed
    decreases unvisited, 0
    ensures game.Mines[row, col] ==>
      game.Completed && game.Field[row, col] == Hit && unchanged(game.Revealed) &&
      forall r, c :: 0 <= r < game.Height && 0 <= c < game.Width && (r, c) != (row, col) ==>
        game.Field[r, c] == old(game.Field[r, c])
    ensures !game.Mines[row, col] ==>
      game.Revealed[row, col] && game.Completed == old(game.Completed) &&
      game.SafeRevealed() && game.Labelled() && game.ClosedExcept(pending)
    ensures forall r, c :: 0 <= r < game.Height && 0 <= c < game.Width && old(game.Revealed[r, c]) ==> game.Revealed[r, c]
    ensures !game.Mines[row, col] ==>
      forall r, c :: 0 <= r < game.Height && 0 <= c < game.Width && (!game.Revealed[r, c] || old(game.Revealed[r, c])) ==>
        game.Field[r, c] == old(game.Field[r, c])
    ensures game.FloodLog(log', parent') && log <= log'
    ensures !game.Mines[row, col] ==> |log| < |log'| && log'[|log|] == (row, col)
    ensures game.RevealedWithin(before, log')
  {
    if game.Mines[row, col] {
      game.Field[row, col] := Hit;
      game.Completed := true;
      log', parent' := log, parent;
      return;
    }

    var adjacentMines := CountAdjacentMines(game, row, col);
    game.Field[row, col] := NatToString(adjacentMines);
    game.Revealed[row, col] := true;
    FloodLogExtends(game, log, parent, (row, col), from);
    log', parent' := log + [(row, col)], parent + [from];
    assert game.RevealedWithin(before, log');

    if adjacentMines == 0 {
      log', parent' := RevealNeighbours(game, row, col, pending, unvisited - {(row, col)}, before, log', parent', |log|);
    }
  }

  /**
   * The outer loop of the flood (lines 109-118): reveals every unrevealed cell of the clipped
   * 3x3 block around (row, col), a revealed cell with no mine around it, row by row.
   */
  method RevealNeighbours(game: Game, row: int, col: int, ghost pending: set<Cell>, ghost unvisited: set<Cell>,
                          ghost before: set<Cell>, ghost log: seq<Cell>, ghost parent: seq<int>, ghost self: int)
    returns (ghost log': seq<Cell>, ghost parent': seq<int>)
    requires game.Shaped() && game.MinesMatch()
    requires game.SafeRevealed() && game.Labelled() && game.ClosedExcept(pending + {(row, col)})
    requires forall r, c :: 0 <= r < game.Height && 0 <= c < game.Width && !game.Revealed[r, c] ==> (r, c) in unvisited
    requires 0 <= row < game.Height && 0 <= col < game.Width && game.Revealed[row, col] && game.Count(row, col) == 0
    requires game.FloodLog(log, parent) && 0 <= self < |log| && log[self] == (row, col)
    requires game.RevealedWithin(before, log)
    modifies game`Completed, game.Field, game.Revealed
    decreases unvisited, 2
    ensures game.Completed == old(game.Completed) && game.SafeRevealed() && game.Labelled() && game.ClosedExcept(pending)
    ensures forall r, c :: 0 <= r < game.Height && 0 <= c < game.Width && old(game.Revealed[r, c]) ==> game.Revealed[r, c]
    ensures forall r, c :: 0 <= r < game.Height && 0 <= c < game.Width && (!game.Revealed[r, c] || old(game.Revealed[r, c])) ==>
      game.Field[r, c] == old(game.Field[r, c])
    ensures game.FloodLog(log', parent') && log <= log'
    ensures game.RevealedWithin(before, log')
  {
    log', parent' := log, parent;
    var r0, r1 := Max(0, row - 1), Min(game.Height - 1, row + 1);
    var c0, c1 := Max(0, col - 1), Min(game.Width - 1, col + 1);
    assert 0 <= r0 && r1 < game.Height;
    var r := r0;
    while r <= r1
      invariant r0 <= r <= r1 + 1
      invariant game.Revealed[row, col] && game.Completed == old(game.Completed)
      invariant game.SafeRevealed() && game.Labelled() && game.ClosedExcept(pending + {(row, col)})
      invariant forall r', c' :: 0 <= r' < game.Height && 0 <= c' < game.Width && old(game.Revealed[r', c']) ==> game.Revealed[r', c']
      invariant forall r', c' :: 0 <= r' < game.Height && 0 <= c' < game.Width && (!game.Revealed[r', c'] || old(game.Revealed[r', c'])) ==>
        game.Field[r', c'] == old(game.Field[r', c'])
      invariant forall r', c' :: r0 <= r' < r && c0 <= c' <= c1 ==> game.Revealed[r', c']
      invariant game.FloodLog(log', parent') && log <= log'
      invariant game.RevealedWithin(before, log')
    {
      log', parent' := RevealNeighboursInRow(game, row, col, r, c0, c1, pending, unvisited, before, log', parent', self);
      assert forall c' :: c0 <= c' <= c1 ==> game.Revealed[r, c'];
      r := r + 1;
    }
    FloodClosesCell(game, row, col, pending);
  }

  /** Once the clipped block around (row, col) is all revealed, (row, col) need no longer be pending. */
  lemma FloodClosesCell(game: Game, row: int, col: int, pending: set<Cell>)
    requires game.Shaped() && game.ClosedExcept(pending + {(row, col)})
    requires forall r, c :: Max(0, row - 1) <= r <= Min(game.Height - 1, row + 1) && Max(0, col - 1) <= c <= Min(game.Width - 1, col + 1) ==>
      game.Revealed[r, c]
    ensures game.ClosedExcept(pending)
  {
  }

  /** The inner loop of the flood (lines 111-117): reveals the unrevealed cells of row r of the block. */
  method RevealNeighboursInRow(game: Game, row: int, col: int, r: int, c0: int, c1: int, ghost pending: set<Cell>, ghost unvisited: set<Cell>,
                               ghost before: set<Cell>, ghost log: seq<Cell>, ghost parent: seq<int>, ghost self: int)
    returns (ghost log': seq<Cell>, ghost parent': seq<int>)
    requires game.Shaped() && game.MinesMatch()
    requires game.SafeRevealed() && game.Labelled() && game.ClosedExcept(pending + {(row, col)})
    requires forall r', c' :: 0 <= r' < game.Height && 0 <= c' < game.Width && !game.Revealed[r', c'] ==> (r', c') in unvisited
    requires 0 <= row < game.Height && 0 <= col < game.Width && game.Revealed[row, col] && game.Count(row, col) == 0
    requires 0 <= r < game.Height && Touch((r, col), (row, col))
    requires c0 == Max(0, col - 1) && c1 == Min(game.Width - 1, col + 1)
    requires game.FloodLog(log, parent) && 0 <= self < |log| && log[self] == (row, col)
    requires game.RevealedWithin(before, log)
    modifies game`Completed, game.Field, game.Revealed
    decreases unvisited, 1
    ensures game.Revealed[row, col] && game.Completed == old(game.Completed)
    ensures game.SafeRevealed() && game.Labelled() && game.ClosedExcept(pending + {(row, col)})
    ensures forall c' :: c0 <= c' <= c1 ==> game.Revealed[r, c']
    ensures forall r', c' :: 0 <= r' < game.Height && 0 <= c' < game.Width && old(game.Revealed[r', c']) ==> game.Revealed[r', c']
    ensures forall r', c' :: 0 <= r' < game.Height && 0 <= c' < game.Width && (!game.Revealed[r', c'] || old(game.Revealed[r', c'])) ==>
      game.Field[r', c'] == old(game.Field[r', c'])
    ensures game.FloodLog(log', parent') && log <= log'
    ensures game.RevealedWithin(before, log')
  {
    log', parent' := log, parent;
    assert 0 <= c0 && c1 < game.Width;
    var c := c0;
    // The source's inner loop tests r here (line 111); the column bound is meant.
    while c <= c1
      invariant c0 <= c <= c1 + 1
      invariant game.Revealed[row, col] && game.Completed == old(game.Completed)
      invariant game.SafeRevealed() && game.Labelled() && game.ClosedExcept(pending + {(row, col)})
      invariant forall r', c' :: 0 <= r' < game.Height && 0 <= c' < game.Width && old(game.Revealed[r', c']) ==> game.Revealed[r', c']
      invariant forall r', c' :: 0 <= r' < game.Height && 0 <= c' < game.Width && (!game.Revealed[r', c'] || old(game.Revealed[r', c'])) ==>
        game.Field[r', c'] == old(game.Field[r', c'])
      invariant forall c' :: c0 <= c' < c ==> game.Revealed[r, c']
      invariant game.FloodLog(log', parent') && log <= log'
      invariant game.RevealedWithin(before, log')
    {
      if !game.Revealed[r, c] {
        NoMineNextToZero(game, row, col, r, c);
        log', parent' := RevealCellRecursive(game, r, c, pending + {(row, col)}, unvisited, before, log', parent', self);
        assert game.Revealed[r, c];
      }
      c := c + 1;
    }
  }

  /**
   * The cells a turn on (row, col) reveals all lie on its flood log. Before the turn the revealed
   * cells (before) were closed under the flood, and after it so are the revealed cells: so every
   * logged cell is revealed, and a newly revealed cell's parent is newly revealed too. A flood from
   * (row, col) thus reaches the newly revealed cells through newly revealed cells; when (row, col)
   * has a mine around it, they are (row, col) alone.
   */
  lemma FloodCoversTurn(game: Game, log: seq<Cell>, parent: seq<int>, row: int, col: int, before: set<Cell>)
    requires game.Shaped() && game.FloodLog(log, parent) && |log| > 0 && log[0] == (row, col)
    requires game.Revealed[row, col] && (row, col) !in before
    requires game.FloodClosed(before) && game.ClosedExcept({})
    requires game.RevealedWithin(before, log)
    ensures game.FloodReaches((row, col), TrueCells(game.Revealed) - before)
    ensures game.Count(row, col) != 0 ==>
      forall r, c :: 0 <= r < game.Height && 0 <= c < game.Width && game.Revealed[r, c] && (r, c) !in before ==> (r, c) == (row, col)
  {
    var cells := TrueCells(game.Revealed) - before;
    assert forall r, c :: 0 <= r < game.Height && 0 <= c < game.Width && game.Revealed[r, c] && (r, c) !in before ==> (r, c) in cells;
    assert forall cell :: cell in cells ==> cell in log;
    forall i | 0 < i < |log| && log[i] in cells
      ensures log[parent[i]] in cells
    {
      LoggedCellRevealed(game, log, parent, parent[i]);
    }
    assert game.FloodLog(log, parent);
    if game.Count(row, col) != 0 {
      FloodStopsAtCount(game, (row, col), cells);
    }
  }

  /** Once the revealed cells are closed under the flood, a flood log from a revealed cell holds only revealed cells. */
  lemma {:induction false} LoggedCellRevealed(game: Game, log: seq<Cell>, parent: seq<int>, i: int)
    requires game.Shaped() && game.FloodLog(log, parent) && |log| > 0 && game.Revealed[log[0].0, log[0].1]
    requires game.ClosedExcept({})
    requires 0 <= i < |log|
    ensures game.Revealed[log[i].0, log[i].1]
    decreases i
  {
    if i > 0 {
      LoggedCellRevealed(game, log, parent, parent[i]);
    }
  }

  /** A flood from a cell with a mine around it reaches that cell alone. */
  lemma FloodStopsAtCount(game: Game, start: Cell, cells: set<Cell>)
    requires game.FloodReaches(start, cells) && game.Count(start.0, start.1) != 0
    ensures cells <= {start}
  {
    var log: seq<Cell>, parent: seq<int> :| game.FloodLog(log, parent) && |log| > 0 && log[0] == start &&
      (forall cell :: cell in cells ==> cell in log) && forall i :: 0 < i < |log| && log[i] in cells ==> log[parent[i]] in cells;
    FloodLogStart(game, log, parent);
  }

  /** A flood log stays one when it is extended by a cell touching a logged cell with no mine around it. */
  lemma FloodLogExtends(game: Game, log: seq<Cell>, parent: seq<int>, cell: Cell, from: int)
    requires game.FloodLog(log, parent) && InBounds(game.Height, game.Width, cell)
    requires log != [] ==> 0 <= from < |log| && Touch(cell, log[from]) && game.Count(log[from].0, log[from].1) == 0
    ensures game.FloodLog(log + [cell], parent + [from]) && log <= log + [cell]
  {
  }

  /** A flood log of more than one cell starts at a cell with no mine around it. */
  lemma FloodLogStart(game: Game, log: seq<Cell>, parent: seq<int>)
    requires game.FloodLog(log, parent)
    ensures |log| > 1 ==> game.Count(log[0].0, log[0].1) == 0
  {
    if |log| > 1 {
      assert parent[1] == 0;
    }
  }

  /**
   * The outermost reveal of a turn (line 55): RevealCellRecursive on a running game, with an empty
   * flood log. A safe cell leaves the game Valid but for the win check; the cells it reveals are
   * all reached by its flood, so a cell with a mine around it reveals itself alone.
   */
  method Reveal(game: Game, row: int, col: int)
    requires game.Valid() && 0 <= row < game.Height && 0 <= col < game.Width
    requires !game.Completed && !game.Revealed[row, col]
    modifies game`Completed, game.Field, game.Revealed
    ensures game.Mines[row, col] ==>
      game.Completed && game.Field[row, col] == Hit && unchanged(game.Revealed) &&
      forall r, c :: 0 <= r < game.Height && 0 <= c < game.Width && (r, c) != (row, col) ==>
        game.Field[r, c] == old(game.Field[r, c])
    ensures !game.Mines[row, col] ==>
      game.Revealed[row, col] && !game.Completed &&
      game.SafeRevealed() && game.Labelled() && game.ClosedExcept({})
    ensures forall r, c :: 0 <= r < game.Height && 0 <= c < game.Width && old(game.Revealed[r, c]) ==> game.Revealed[r, c]
    ensures !game.Mines[row, col] ==>
      forall r, c :: 0 <= r < game.Height && 0 <= c < game.Width && (!game.Revealed[r, c] || old(game.Revealed[r, c])) ==>
        game.Field[r, c] == old(game.Field[r, c])
    ensures !game.Mines[row, col] ==> game.FloodReaches((row, col), TrueCells(game.Revealed) - old(TrueCells(game.Revealed)))
    ensures !game.Mines[row, col] && game.Count(row, col) != 0 ==>
      forall r, c :: 0 <= r < game.Height && 0 <= c < game.Width && (r, c) != (row, col) ==>
        game.Revealed[r, c] == old(game.Revealed[r, c])
  {
    ghost var before := TrueCells(game.Revealed);
    assert forall r, c :: 0 <= r < game.Height && 0 <= c < game.Width ==> ((r, c) in before <==> game.Revealed[r, c]);
    assert game.FloodClosed(before);
    ghost var log, parent := RevealCellRecursive(game, row, col, {}, Cells(game.Height, game.Width), before, [], [], -1);
    if !game.Mines[row, col] {
      FloodCoversTurn(game, log, parent, row, col, before);
    }
  }

  /**
   * Plays an accepted turn on a running game (lines 55-60 with the win check of lines 121-125):
   * reveals (row, col); when that was safe and no safe cell is left hidden, completes the game;
   * a completed game then shows its mines. The cells the turn reveals are those its flood reaches.
   */
  method PlayTurn(game: Game, row: int, col: int)
    requires game.Valid() && 0 <= row < game.Height && 0 <= col < game.Width
    requires !game.Completed && !game.Revealed[row, col]
    modifies game`Completed, game.Field, game.Revealed
    ensures game.Valid()
    ensures forall r, c :: 0 <= r < game.Height && 0 <= c < game.Width && old(game.Revealed[r, c]) ==> game.Revealed[r, c]
    ensures game.Mines[row, col] ==> game.Completed && game.Field[row, col] == Hit && unchanged(game.Revealed)
    ensures !game.Mines[row, col] ==> game.Revealed[row, col] && (game.Completed <==> game.AllSafeRevealed())
    ensures game.Completed ==> forall r, c :: 0 <= r < game.Height && 0 <= c < game.Width && game.Mines[r, c] ==>
      game.Field[r, c] == if (r, c) == (row, col) then Hit else Mine
    ensures !game.Mines[row, col] ==> game.FloodReaches((row, col), TrueCells(game.Revealed) - old(TrueCells(game.Revealed)))
    ensures !game.Mines[row, col] && game.Count(row, col) != 0 ==>
      forall r, c :: 0 <= r < game.Height && 0 <= c < game.Width && (r, c) != (row, col) ==>
        game.Revealed[r, c] == old(game.Revealed[r, c])
  {
    Reveal(game, row, col);
    FinishTurn(game);
  }

  /**
   * The end of a turn: the win check of lines 121-125, made once the flood is over, and the
   * display of a completed game's mines (lines 57-60).
   */
  method FinishTurn(game: Game)
    requires game.Shaped()
    modifies game`Completed, game.Field
    ensures game.Completed == (old(game.Completed) || game.AllSafeRevealed())
    ensures forall r, c :: 0 <= r < game.Height && 0 <= c < game.Width ==>
      game.Field[r, c] == if game.Completed then MineShown(game.Mines[r, c], old(game.Field[r, c])) else old(game.Field[r, c])
  {
    if !game.Completed {
      var won := CheckWinCondition(game);
      if won {
        game.Completed := true;
        RevealMines(game);
      }
    }
    if game.Completed {
      RevealMines(game);
    }
  }

  /**
   * Builds a running game of the given size (lines 23-34): minesCount mines laid, every cell
   * hidden and blank.
   */
  method NewGame(gameId: Guid, width: int, height: int, minesCount: int) returns (game: Game)
    requires 1 <= width <= MaxSide && 1 <= height <= MaxSide && 1 <= minesCount < width * height
    ensures fresh(game) && fresh(game.Field) && fresh(game.Revealed) && fresh(game.Mines)
    ensures game.GameId == gameId && game.Width == width && game.Height == height
    ensures game.MinesCount == minesCount && !game.Completed && game.Shaped()
    ensures forall r, c :: 0 <= r < height && 0 <= c < width ==> !game.Revealed[r, c] && game.Field[r, c] == Blank
    ensures game.Valid()
  {
    var field := new string[height, width];
    var revealed := new bool[height, width]((r, c) => false);
    var mines := new bool[height, width]((r, c) => false);
    game := new Game(gameId, width, height, minesCount, false, field, revealed, mines);
    assert game.MineCells == {};

    PlaceMines(game);
    InitializeField(game);
    FreeCellExists(height, width, game.MineCells);
    assert !game.AllSafeRevealed();
  }

  /** Copies the game's public state, the display row by row. */
  method ToGameInfoResponse(game: Game) returns (info: GameInfoResponse)
    requires game.Shaped()
    ensures game.Describes(info)
  {
    var field: seq<seq<string>> := [];
    var row := 0;
    while row < game.Height
      invariant 0 <= row <= game.Height
      invariant |field| == row
      invariant forall r :: 0 <= r < row ==>
        |field[r]| == game.Width && forall c :: 0 <= c < game.Width ==> field[r][c] == game.Field[r, c]
    {
      var rowList: seq<string> := [];
      var col := 0;
      while col < game.Width
        invariant 0 <= col <= game.Width
        invariant |rowList| == col
        invariant forall c :: 0 <= c < col ==> rowList[c] == game.Field[row, c]
      {
        rowList := rowList + [game.Field[row, col]];
        col := col + 1;
      }
      field := field + [rowList];
      row := row + 1;
    }
    info := GameInfoResponse(game.GameId, game.Width, game.Height, game.MinesCount, game.Completed, field);
  }

  /**
   * Why MakeTurn turns down a move on a known game (lines 46-53), checked in the source's order,
   * or None when it plays the move.
   */
  ghost function TurnError(game: Game, row: int, col: int): Option<Error>
    reads game, game.Revealed
    requires game.Shaped()
  {
    if row < 0 || row >= game.Height || col < 0 || col >= game.Width then Some(InvalidCellPosition)
    else if game.Completed then Some(GameAlreadyCompleted)
    else if game.Revealed[row, col] then Some(CellAlreadyRevealed)
    else None
  }

  /** However many ids are taken, some id is still free. */
  lemma FreshIdExists(taken: set<Guid>)
    ensures exists id: Guid :: id !in taken
  {
    var bound := IdBound(taken);
    assert bound !in taken;
  }

  /** Some id is greater than every taken id. */
  lemma {:induction false} IdBound(taken: set<Guid>) returns (bound: Guid)
    ensures forall id :: id in taken ==> id < bound
  {
    if taken == {} {
      bound := 0;
    } else {
      var id :| id in taken;
      var rest := IdBound(taken - {id});
      bound := Max(rest, id + 1);
      assert forall other :: other in taken && other != id ==> other in taken - {id};
    }
  }

  /**
   * The engine (lines 11-63): a store of games keyed by id, the creation of a game and the
   * playing of one turn.
   */
  class MinesweeperService {
    var games: map<Guid, Game>
    ghost var Repr: set<object>

    /** Every stored game is Valid and filed under its own id, and no two games share an object. */
    ghost predicate Valid()
      reads this, Repr
    {
      (forall id :: id in games ==> (games[id].GameId == id && games[id].Shaped() &&
        games[id] in Repr && games[id].Field in Repr && games[id].Revealed in Repr && games[id].Mines in Repr)) &&
      (forall id {:trigger games[id].Valid()} :: id in games ==> games[id].Valid()) &&
      forall id, id' :: id in games && id' in games && id != id' ==>
        games[id] != games[id'] && games[id].Field != games[id'].Field &&
        games[id].Revealed != games[id'].Revealed && games[id].Revealed != games[id'].Mines
    }

    constructor ()
      ensures Valid() && games == map[]
    {
      games := map[];
      Repr := {};
    }

    /**
     * Creates a game of the given size with minesCount mines, all cells hidden and blank, and files
     * it under an id no stored game has, standing for the Guid.NewGuid() of line 24. The games
     * already stored are left as they were.
     */
    method CreateGame(width: int, height: int, minesCount: int) returns (result: Result<GameInfoResponse>)
      requires Valid()
      modifies this
      ensures Valid()
      ensures width <= 0 || width > MaxSide || height <= 0 || height > MaxSide ==>
        result == Failure(InvalidFieldSize) && games == old(games)
      ensures 1 <= width <= MaxSide && 1 <= height <= MaxSide && (minesCount < 1 || minesCount >= width * height) ==>
        result == Failure(InvalidNumberOfMines) && games == old(games)
      ensures 1 <= width <= MaxSide && 1 <= height <= MaxSide && 1 <= minesCount < width * height ==>
        result.Success? && var gameId := result.value.GameId;
        gameId !in old(games) && gameId in games && games == old(games)[gameId := games[gameId]] &&
        fresh(games[gameId]) && games[gameId].Describes(result.value) &&
        var game := games[gameId];
        game.Width == width && game.Height == height && game.MinesCount == minesCount && !game.Completed &&
        (forall r, c :: 0 <= r < height && 0 <= c < width ==> !game.Revealed[r, c] && game.Field[r, c] == Blank)
    {
      if width <= 0 || width > MaxSide || height <= 0 || height > MaxSide {
        return Failure(InvalidFieldSize);
      }
      if minesCount < 1 || minesCount >= width * height {
        return Failure(InvalidNumberOfMines);
      }

      FreshIdExists(games.Keys);
      var gameId: Guid :| gameId !in games;
      var game := NewGame(gameId, width, height, minesCount);
      File(game);
      var info := ToGameInfoResponse(game);
      return Success(info);
    }

    /**
     * Plays (row, col) in game gameId. The turn is rejected, and nothing changes, when the game
     * does not exist, the cell is off the board, the game is completed or the cell is revealed,
     * in that order. A mine shows Hit, ends the game and shows every other mine; any other cell is
     * revealed (with the flood when it has no mine around it), and the game is completed, showing
     * every mine, when no safe cell is left hidden.
     */
    method MakeTurn(gameId: Guid, row: int, col: int) returns (result: Result<GameInfoResponse>)
      requires Valid()
      modifies if gameId in games then {games[gameId], games[gameId].Field, games[gameId].Revealed} else {}
      ensures gameId !in games ==> result == Failure(InvalidGameId)
      ensures gameId in games && old(TurnError(games[gameId], row, col)).Some? ==>
        result == Failure(old(TurnError(games[gameId], row, col)).value) &&
        unchanged(games[gameId], games[gameId].Field, games[gameId].Revealed)
      ensures gameId in games && old(TurnError(games[gameId], row, col)) == None ==>
        result.Success? && games[gameId].Describes(result.value) &&
        (forall r, c :: 0 <= r < games[gameId].Height && 0 <= c < games[gameId].Width && old(games[gameId].Revealed[r, c]) ==>
          games[gameId].Revealed[r, c]) &&
        (games[gameId].Mines[row, col] ==>
          games[gameId].Completed && games[gameId].Field[row, col] == Hit && unchanged(games[gameId].Revealed)) &&
        (!games[gameId].Mines[row, col] ==>
          games[gameId].Revealed[row, col] && (games[gameId].Completed <==> games[gameId].AllSafeRevealed())) &&
        (games[gameId].Completed ==> forall r, c :: 0 <= r < games[gameId].Height && 0 <= c < games[gameId].Width && games[gameId].Mines[r, c] ==>
          games[gameId].Field[r, c] == if (r, c) == (row, col) then Hit else Mine)
      ensures gameId in games && old(TurnError(games[gameId], row, col)) == None && !games[gameId].Mines[row, col] ==>
        games[gameId].FloodReaches((row, col), TrueCells(games[gameId].Revealed) - old(TrueCells(games[gameId].Revealed))) &&
        (games[gameId].Count(row, col) != 0 ==>
          forall r, c :: 0 <= r < games[gameId].Height && 0 <= c < games[gameId].Width && (r, c) != (row, col) ==>
            games[gameId].Revealed[r, c] == old(games[gameId].Revealed[r, c]))
      ensures Valid()
    {
      if gameId !in games {
        return Failure(InvalidGameId);
      }
      var game := games[gameId];
      assert game.Valid();
      if row < 0 || row >= game.Height || col < 0 || col >= game.Width {
        return Failure(InvalidCellPosition);
      }
      if game.Completed {
        return Failure(GameAlreadyCompleted);
      }
      if game.Revealed[row, col] {
        return Failure(CellAlreadyRevealed);
      }

      Play(gameId, row, col);
      var info := ToGameInfoResponse(game);
      return Success(info);
    }

    /** Plays an accepted turn on the game filed under gameId; the other games are untouched. */
    method Play(gameId: Guid, row: int, col: int)
      requires Valid() && gameId in games
      requires 0 <= row < games[gameId].Height && 0 <= col < games[gameId].Width
      requires !games[gameId].Completed && !games[gameId].Revealed[row, col]
      modifies games[gameId], games[gameId].Field, games[gameId].Revealed
      ensures forall r, c :: 0 <= r < games[gameId].Height && 0 <= c < games[gameId].Width && old(games[gameId].Revealed[r, c]) ==>
          games[gameId].Revealed[r, c]
      ensures games[gameId].Mines[row, col] ==>
          games[gameId].Completed && games[gameId].Field[row, col] == Hit && unchanged(games[gameId].Revealed)
      ensures !games[gameId].Mines[row, col] ==>
          games[gameId].Revealed[row, col] && (games[gameId].Completed <==> games[gameId].AllSafeRevealed())
      ensures games[gameId].Completed ==> forall r, c :: 0 <= r < games[gameId].Height && 0 <= c < games[gameId].Width && games[gameId].Mines[r, c] ==>
          games[gameId].Field[r, c] == if (r, c) == (row, col) then Hit else Mine
      ensures !games[gameId].Mines[row, col] ==>
          games[gameId].FloodReaches((row, col), TrueCells(games[gameId].Revealed) - old(TrueCells(games[gameId].Revealed)))
      ensures !games[gameId].Mines[row, col] && games[gameId].Count(row, col) != 0 ==>
          forall r, c :: 0 <= r < games[gameId].Height && 0 <= c < games[gameId].Width && (r, c) != (row, col) ==>
            games[gameId].Revealed[r, c] == old(games[gameId].Revealed[r, c])
      ensures Valid()
    {
      var game := games[gameId];
      assert game.Valid();
      PlayTurn(game, row, col);
    }

    /** Files a new game under its id, as the dictionary assignment of line 36 does. */
    method File(game: Game)
      requires Valid() && game.Valid()
      requires game !in Repr && game.Field !in Repr && game.Revealed !in Repr && game.Mines !in Repr
      modifies this
      ensures games == old(games)[game.GameId := game]
      ensures Valid()
    {
      games := games[game.GameId := game];
      Repr := Repr + game.Footprint();
    }
  }
}
