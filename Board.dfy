/** Geometry of a Minesweeper board and the text its cells display. */
module Board {

  /** A cell position (row, column); rows count from the top, columns from the left. */
  type Cell = (int, int)

  /** The largest width or height a game may have. */
  const MaxSide := 30

  /** What an untouched cell shows. */
  const Blank := " "
  /** What the mine that ended a lost game shows. */
  const Hit := "X"
  /** What every other mine shows once a game is completed. */
  const Mine := "M"

  /** What a cell showing shown shows once a completed game's mines are revealed: every mine but the hit one shows Mine. */
  function MineShown(mine: bool, shown: string): (text: string)
    ensures mine ==> text == Mine || text == Hit
    ensures !mine ==> text == shown
  {
    if mine && shown != Hit then Mine else shown
  }

  /** Revealing the mines a second time changes nothing, so the game may do it at both ends of a turn. */
  lemma MineShownIdempotent(mine: bool, shown: string)
    ensures MineShown(mine, MineShown(mine, shown)) == MineShown(mine, shown)
  {
  }

  function Max(a: int, b: int): int { if a < b then b else a }
  function Min(a: int, b: int): int { if a < b then a else b }

  predicate InBounds(height: int, width: int, cell: Cell) {
    0 <= cell.0 < height && 0 <= cell.1 < width
  }

  /** The cells of rows [r0, r1) and columns [c0, c1). */
  function Rect(r0: int, r1: int, c0: int, c1: int): (s: set<Cell>)
    ensures forall cell :: cell in s <==> r0 <= cell.0 < r1 && c0 <= cell.1 < c1
  {
    set r, c | r0 <= r < r1 && c0 <= c < c1 :: (r, c)
  }

  /** Every cell of a height-by-width board. */
  function Cells(height: int, width: int): set<Cell> {
    Rect(0, height, 0, width)
  }

  /** Two cells touch when they are at most one row and one column apart (a cell touches itself). */
  predicate Touch(a: Cell, b: Cell) {
    -1 <= a.0 - b.0 <= 1 && -1 <= a.1 - b.1 <= 1
  }

  /** The on-board cells that touch (row, col): the 3x3 block around it, clipped at the edges. */
  function Neighbourhood(height: int, width: int, row: int, col: int): (s: set<Cell>)
    ensures forall cell :: cell in s <==> InBounds(height, width, cell) && Touch(cell, (row, col))
  {
    set cell | cell in Cells(height, width) && Touch(cell, (row, col))
  }

  lemma SubsetCardinality<T>(a: set<T>, b: set<T>)
    requires a <= b
    ensures |a| <= |b|
  {
    assert b == a + (b - a);
  }

  /** A rectangle of n rows and m columns has n * m cells. */
  lemma {:induction false} RectCardinality(r0: int, r1: int, c0: int, c1: int)
    requires r0 <= r1 && c0 <= c1
    ensures |Rect(r0, r1, c0, c1)| == (r1 - r0) * (c1 - c0)
    decreases r1 - r0
  {
    if r0 == r1 {
      assert Rect(r0, r1, c0, c1) == {};
    } else {
      RectCardinality(r0, r1 - 1, c0, c1);
      RowCardinality(r1 - 1, c0, c1);
      var upper, last := Rect(r0, r1 - 1, c0, c1), Rect(r1 - 1, r1, c0, c1);
      assert Rect(r0, r1, c0, c1) == upper + last;
      assert upper * last == {};
      assert (r1 - r0) * (c1 - c0) == (r1 - 1 - r0) * (c1 - c0) + (c1 - c0);
    }
  }

  lemma {:induction false} RowCardinality(row: int, c0: int, c1: int)
    requires c0 <= c1
    ensures |Rect(row, row + 1, c0, c1)| == c1 - c0
    decreases c1 - c0
  {
    if c0 == c1 {
      assert Rect(row, row + 1, c0, c1) == {};
    } else {
      RowCardinality(row, c0, c1 - 1);
      assert Rect(row, row + 1, c0, c1) == Rect(row, row + 1, c0, c1 - 1) + {(row, c1 - 1)};
    }
  }

  /** A board has width * height cells. */
  lemma CellsCardinality(height: nat, width: nat)
    ensures |Cells(height, width)| == height * width
  {
    RectCardinality(0, height, 0, width);
  }

  /** A set with fewer elements than the board has cells leaves some cell of the board out. */
  lemma FreeCellExists(height: nat, width: nat, taken: set<Cell>)
    requires |taken| < height * width
    ensures exists cell :: InBounds(height, width, cell) && cell !in taken
  {
    CellsCardinality(height, width);
    if Cells(height, width) <= taken {
      SubsetCardinality(Cells(height, width), taken);
      assert false;
    }
    var cell :| cell in Cells(height, width) && cell !in taken;
  }

  /**
   * The neighbourhood is exactly the block the engine's loops scan: rows from the larger of 0 and
   * row - 1 to the smaller of height - 1 and row + 1, and likewise for columns.
   */
  lemma NeighbourhoodIsClippedBlock(height: int, width: int, row: int, col: int)
    ensures Neighbourhood(height, width, row, col)
         == Rect(Max(0, row - 1), Min(height - 1, row + 1) + 1, Max(0, col - 1), Min(width - 1, col + 1) + 1)
  {
  }

  /** The number of cells of s in row r and columns [c0, c), counted from the left. */
  function RowCount(s: set<Cell>, r: int, c0: int, c: int): nat
    decreases c - c0
  {
    if c <= c0 then 0 else RowCount(s, r, c0, c - 1) + (if (r, c - 1) in s then 1 else 0)
  }

  /** The number of cells of s in rows [r0, r) and columns [c0, c1), counted row by row. */
  function RectCount(s: set<Cell>, r0: int, r: int, c0: int, c1: int): nat
    decreases r - r0
  {
    if r <= r0 then 0 else RectCount(s, r0, r - 1, c0, c1) + RowCount(s, r - 1, c0, c1)
  }

  /**
   * The number of mines around (row, col), counted as a scan of the clipped 3x3 block row by
   * row: rows Max(0, row - 1) .. Min(height - 1, row + 1), columns likewise.
   */
  function AdjacentMines(mines: set<Cell>, height: int, width: int, row: int, col: int): nat {
    RectCount(mines, Max(0, row - 1), Min(height - 1, row + 1) + 1, Max(0, col - 1), Min(width - 1, col + 1) + 1)
  }

  /** Adding a new element to a set adds one to its intersection with s exactly when s holds it. */
  lemma IntersectionGrows<T>(before: set<T>, x: T, s: set<T>)
    requires x !in before
    ensures |(before + {x}) * s| == |before * s| + (if x in s then 1 else 0)
  {
    if x in s {
      assert (before + {x}) * s == before * s + {x};
    } else {
      assert (before + {x}) * s == before * s;
    }
  }

  /** The row-by-row count is the number of cells of s in the rectangle: scanning neither misses nor repeats a cell. */
  lemma {:induction false} RowCountIsCardinality(s: set<Cell>, r: int, c0: int, c: int)
    requires c0 <= c
    ensures RowCount(s, r, c0, c) == |Rect(r, r + 1, c0, c) * s|
    decreases c - c0
  {
    if c == c0 {
      assert Rect(r, r + 1, c0, c) == {};
    } else {
      RowCountIsCardinality(s, r, c0, c - 1);
      assert Rect(r, r + 1, c0, c) == Rect(r, r + 1, c0, c - 1) + {(r, c - 1)};
      IntersectionGrows(Rect(r, r + 1, c0, c - 1), (r, c - 1), s);
    }
  }

  lemma {:induction false} RectCountIsCardinality(s: set<Cell>, r0: int, r: int, c0: int, c1: int)
    requires r0 <= r && c0 <= c1
    ensures RectCount(s, r0, r, c0, c1) == |Rect(r0, r, c0, c1) * s|
    decreases r - r0
  {
    if r == r0 {
      assert Rect(r0, r, c0, c1) == {};
    } else {
      RectCountIsCardinality(s, r0, r - 1, c0, c1);
      RowCountIsCardinality(s, r - 1, c0, c1);
      var upper, last := Rect(r0, r - 1, c0, c1) * s, Rect(r - 1, r, c0, c1) * s;
      assert Rect(r0, r, c0, c1) * s == upper + last;
      DisjointUnionCardinality(upper, last);
    }
  }

  lemma DisjointUnionCardinality<T>(a: set<T>, b: set<T>)
    requires forall x :: x in a ==> x !in b
    ensures |a + b| == |a| + |b|
  {
  }

  /**
   * The scan neither misses nor repeats a cell: it counts exactly the mines among the on-board
   * cells that touch (row, col).
   */
  lemma AdjacentMinesCountsNeighbourhood(mines: set<Cell>, height: int, width: int, row: int, col: int)
    requires InBounds(height, width, (row, col))
    ensures AdjacentMines(mines, height, width, row, col) == |Neighbourhood(height, width, row, col) * mines|
  {
    RectCountIsCardinality(mines, Max(0, row - 1), Min(height - 1, row + 1) + 1, Max(0, col - 1), Min(width - 1, col + 1) + 1);
    NeighbourhoodIsClippedBlock(height, width, row, col);
  }

  /** A cell that is not a mine has at most eight mines around it. */
  lemma AdjacentMinesAtMostEight(mines: set<Cell>, height: int, width: int, row: int, col: int)
    requires InBounds(height, width, (row, col)) && (row, col) !in mines
    ensures AdjacentMines(mines, height, width, row, col) <= 8
  {
    AdjacentMinesCountsNeighbourhood(mines, height, width, row, col);
    var block, square := Neighbourhood(height, width, row, col), Rect(row - 1, row + 2, col - 1, col + 2);
    RectCardinality(row - 1, row + 2, col - 1, col + 2);
    assert (row, col) in square;
    SubsetCardinality(block * mines, square - {(row, col)});
  }

  /** A count of zero means that no cell of the neighbourhood holds a mine, and conversely. */
  lemma NoAdjacentMines(mines: set<Cell>, height: int, width: int, row: int, col: int)
    requires InBounds(height, width, (row, col))
    ensures AdjacentMines(mines, height, width, row, col) == 0
        <==> forall cell :: cell in Neighbourhood(height, width, row, col) ==> cell !in mines
  {
    AdjacentMinesCountsNeighbourhood(mines, height, width, row, col);
    var block := Neighbourhood(height, width, row, col);
    if exists cell :: cell in block && cell in mines {
      var cell :| cell in block && cell in mines;
      assert cell in block * mines;
    }
  }

  predicate IsDigit(ch: char) { '0' <= ch <= '9' }

  function Digit(d: nat): (ch: char)
    requires d < 10
    ensures IsDigit(ch) && ch as int - '0' as int == d
  {
    ('0' as int + d) as char
  }

  /** The decimal text of n, as int.ToString() writes a non-negative number. */
  function NatToString(n: nat): (s: string)
    ensures |s| >= 1 && forall i :: 0 <= i < |s| ==> IsDigit(s[i])
  {
    if n < 10 then [Digit(n)] else NatToString(n / 10) + [Digit(n % 10)]
  }

  /** The number a string of decimal digits stands for. */
  function DecimalValue(s: string): nat
    requires forall i :: 0 <= i < |s| ==> IsDigit(s[i])
  {
    if s == [] then 0
    else
      assert IsDigit(s[|s| - 1]);
      10 * DecimalValue(s[..|s| - 1]) + (s[|s| - 1] as int - '0' as int)
  }

  /** Reading the text back gives the number, so different counts display differently. */
  lemma {:induction false} DecimalRoundTrip(n: nat)
    ensures DecimalValue(NatToString(n)) == n
  {
    if n >= 10 {
      var s := NatToString(n);
      assert s[..|s| - 1] == NatToString(n / 10);
      DecimalRoundTrip(n / 10);
    }
  }

  /** A count of at most eight is shown as one digit, which is neither blank nor a mine mark. */
  lemma CountTextIsOneDigit(n: nat)
    requires n <= 8
    ensures NatToString(n) == [Digit(n)]
    ensures NatToString(n) != Blank && NatToString(n) != Hit && NatToString(n) != Mine
  {
  }
}
