/** The Minesweeper board: its dimensions, where the mines are, and the
    neighbour count it reports for a clicked cell. */
module Minesweeper {

  import opened Wrappers

  /** A board cell (row, column). */
  type Cell = (int, int)

  predicate InBounds(c: Cell, height: int, width: int) {
    0 <= c.0 < height && 0 <= c.1 < width
  }

  /** `c` lies within one row and one column of `cell`, `cell` included. */
  predicate WithinOne(cell: Cell, c: Cell) {
    cell.0 - 1 <= c.0 <= cell.0 + 1 && cell.1 - 1 <= c.1 <= cell.1 + 1
  }

  /** The positions within one row and one column of `cell`, `cell` included;
      some of them may lie off the board. */
  function Block(cell: Cell): (b: set<Cell>)
    ensures forall c :: c in b <==> WithinOne(cell, c)
  {
    var (r, k) := cell;
    {(r - 1, k - 1), (r - 1, k), (r - 1, k + 1),
     (r, k - 1), (r, k), (r, k + 1),
     (r + 1, k - 1), (r + 1, k), (r + 1, k + 1)}
  }

  /** The on-board neighbours of `cell`, without `cell` itself. */
  function Neighbours(cell: Cell, height: int, width: int): (n: set<Cell>)
    ensures forall c :: c in n <==> WithinOne(cell, c) && c != cell && InBounds(c, height, width)
  {
    set c | c in Block(cell) && c != cell && InBounds(c, height, width)
  }

  lemma SubsetSameCard<T>(a: set<T>, b: set<T>)
    requires a <= b && |a| == |b|
    ensures a == b
  {
    assert b == a + (b - a);
  }

  /** The row-major scan at row `i`, column `j` has already visited `c`. */
  predicate ScannedBefore(c: Cell, i: int, j: int) {
    c.0 < i || (c.0 == i && c.1 < j)
  }

  /** Python list indexing: a negative index counts from the end, and an index
      outside -n .. n - 1 raises IndexError (None here). */
  function PyIndex(n: nat, i: int): (r: Option<nat>)
    ensures r.Some? <==> -(n as int) <= i < n
    ensures r.Some? ==> r.value < n && (r.value == i || r.value == i + n)
  {
    if 0 <= i < n then Some(i) else if -(n as int) <= i < 0 then Some(i + n) else None
  }

  /** The game: `board[i][j]` is true where a mine lies; `mines` lists the same
      cells as a set; `minesFound` is the set of cells the player has flagged.
      Mine placement is random in the source and is an input here. */
  datatype Game = Game(height: nat, width: nat, board: seq<seq<bool>>,
                       mines: set<Cell>, minesFound: set<Cell>)
  {
    /** The board has `height` rows of `width` cells. */
    predicate WellFormed() {
      |board| == height && forall i | 0 <= i < |board| :: |board[i]| == width
    }

    /** The board marks exactly the cells of `mines`. */
    predicate Valid() {
      && WellFormed()
      && (forall c | c in mines :: InBounds(c, height, width) && board[c.0][c.1])
      && (forall i, j | 0 <= i < height && 0 <= j < width && board[i][j] :: (i, j) in mines)
    }

    /** is_mine(cell): the board entry, with Python's indexing (None where
        Python raises IndexError). */
    function IsMine(cell: Cell): (r: Option<bool>)
      requires WellFormed()
      ensures r.None? <==> !(-(height as int) <= cell.0 < height && -(width as int) <= cell.1 < width)
      ensures InBounds(cell, height, width) ==> r == Some(board[cell.0][cell.1])
      ensures Valid() && InBounds(cell, height, width) ==> r == Some(cell in mines)
    {
      match PyIndex(height, cell.0)
      case None => None
      case Some(i) =>
        match PyIndex(width, cell.1)
        case None => None
        case Some(j) => Some(board[i][j])
    }

    /** `c` is an on-board neighbour of `cell` holding a mine. */
    predicate MineNear(cell: Cell, c: Cell)
      requires WellFormed()
    {
      WithinOne(cell, c) && c != cell && InBounds(c, height, width) && board[c.0][c.1]
    }

    /** The on-board neighbours of `cell` that hold a mine. */
    function MinesAround(cell: Cell): (m: set<Cell>)
      requires WellFormed()
      ensures forall c :: c in m <==> MineNear(cell, c)
    {
      set c | c in Block(cell) && MineNear(cell, c)
    }

    /** On a valid board the mines around `cell` are its neighbours in `mines`. */
    lemma MinesAroundAreMines(cell: Cell)
      requires Valid()
      ensures MinesAround(cell) == Neighbours(cell, height, width) * mines
    {
    }

    /** nearby_mines(cell): counts the mines among the up to eight on-board
        neighbours of `cell`, scanning the 3x3 block around it. */
    method NearbyMines(cell: Cell) returns (count: nat)
      requires WellFormed()
      ensures count == |MinesAround(cell)|
      ensures count <= 8
    {
      count := 0;
      ghost var seen: set<Cell> := {};
      var i := cell.0 - 1;
      while i < cell.0 + 2
        invariant cell.0 - 1 <= i <= cell.0 + 2
        invariant count == |seen|
        invariant count + (if cell.0 < i then 1 else 0) <= 3 * (i - cell.0 + 1)
        invariant forall c :: c in seen <==> MineNear(cell, c) && ScannedBefore(c, i, cell.1 - 1)
      {
        var j := cell.1 - 1;
        while j < cell.1 + 2
          invariant cell.1 - 1 <= j <= cell.1 + 2
          invariant count == |seen|
          invariant count + (if cell.0 < i || (cell.0 == i && cell.1 < j) then 1 else 0)
                      <= 3 * (i - cell.0 + 1) + (j - cell.1 + 1)
          invariant forall c :: c in seen <==> MineNear(cell, c) && ScannedBefore(c, i, j)
        {
          if (i, j) != cell && 0 <= i < height && 0 <= j < width && board[i][j] {
            count := count + 1;
            seen := seen + {(i, j)};
          }
          j := j + 1;
        }
        i := i + 1;
      }
      assert seen == MinesAround(cell);
    }

    /** won(): every mine has been flagged, and nothing else. */
    predicate Won() {
      minesFound == mines
    }

    /** Won holds exactly when the flags are mines and as many as the mines. */
    lemma WonIffAllMinesFlagged()
      ensures Won() <==> minesFound <= mines && |minesFound| == |mines|
    {
      if minesFound <= mines && |minesFound| == |mines| {
        SubsetSameCard(minesFound, mines);
      }
    }
  }
}
