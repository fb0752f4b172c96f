/** The fixed 3 x 3 grid of cells, which routes each move to the cell it addresses. */
module Boards {
  import opened Wrappers
  import opened Values
  import opened Cells

  const Rows: nat := 3
  const Cols: nat := 3

  /** The cells, row by row. */
  datatype Board = Board(cells: seq<seq<Cell>>)

  predicate InBounds(row: int, col: int)
  {
    0 <= row < Rows && 0 <= col < Cols
  }

  /** The board's shape never changes: `Rows` rows of `Cols` cells, every cell
      sitting at the position it records, with consistent occupancy fields. */
  predicate WellFormed(b: Board)
  {
    && |b.cells| == Rows
    && (forall i :: 0 <= i < Rows ==> |b.cells[i]| == Cols)
    && (forall i, j :: 0 <= i < Rows && 0 <= j < Cols ==>
          b.cells[i][j].row == i && b.cells[i][j].col == j && Consistent(b.cells[i][j]))
  }

  /** No cell is taken and none records a player. */
  predicate AllEmpty(b: Board)
    requires WellFormed(b)
  {
    forall i, j :: 0 <= i < Rows && 0 <= j < Cols ==>
      !IsOccupied(b.cells[i][j]) && b.cells[i][j].player == None
  }

  /** The board a new game starts with. */
  function InitialBoard(): Board
  {
    Board(seq(Rows, i => seq(Cols, j => NewCell(i, j))))
  }

  /** The cell at (`row`, `col`): the one whose recorded position is that pair. */
  function At(b: Board, row: int, col: int): (c: Cell)
    requires WellFormed(b) && InBounds(row, col)
    ensures c in b.cells[row]
    ensures c.row == row && c.col == col && Consistent(c)
  {
    b.cells[row][col]
  }

  /** Every cell other than (`row`, `col`) is the same on both boards. */
  predicate SameExcept(b: Board, b': Board, row: int, col: int)
    requires WellFormed(b) && WellFormed(b')
  {
    forall i, j :: 0 <= i < Rows && 0 <= j < Cols && (i != row || j != col) ==>
      b'.cells[i][j] == b.cells[i][j]
  }

  /** Occupancy only grows from `b` to `b'`: a cell taken on `b` is, unchanged, on `b'`. */
  predicate Grows(b: Board, b': Board)
    requires WellFormed(b) && WellFormed(b')
  {
    forall i, j :: 0 <= i < Rows && 0 <= j < Cols && IsOccupied(b.cells[i][j]) ==>
      b'.cells[i][j] == b.cells[i][j]
  }

  /** The board with the cell at (`row`, `col`) replaced. */
  function Replace(b: Board, row: int, col: int, c: Cell): (r: Board)
    requires WellFormed(b) && InBounds(row, col)
    requires c.row == row && c.col == col && Consistent(c)
    ensures WellFormed(r) && At(r, row, col) == c && SameExcept(b, r, row, col)
  {
    Board(b.cells[row := b.cells[row][col := c]])
  }

  /** Routes the move to the cell it addresses. On success exactly that cell
      changes, from empty to occupied by the move's player; when the cell is
      taken, its error is passed on and the board is unchanged. */
  function MakeMove(b: Board, m: Move): (r: Result<Board, GameError>)
    requires WellFormed(b) && InBounds(m.row, m.col)
    ensures r.Ok? <==> !IsOccupied(At(b, m.row, m.col))
    ensures r.Ok? ==> WellFormed(r.value) && SameExcept(b, r.value, m.row, m.col)
    ensures r.Ok? ==> IsOccupied(At(r.value, m.row, m.col))
    ensures r.Ok? ==> At(r.value, m.row, m.col).player == Some(m.player)
    ensures r.Ok? ==> Grows(b, r.value)
    ensures r.Ok? ==> OccupiedCount(r.value) == OccupiedCount(b) + 1
    ensures r.Err? ==> r.error == AlreadyOccupiedError(m.row, m.col)
  {
    match Occupy(At(b, m.row, m.col), m)
    case Ok(c) =>
      ReplaceTakesOne(b, m.row, m.col, c);
      Ok(Replace(b, m.row, m.col, c))
    case Err(e) => Err(e)
  }

  /** Builds the grid row by row, one fresh cell per position, as the board's
      constructor does. `InitialBoard` is the reference definition the game
      uses; this loop is the constructor, proved to build exactly that board. */
  method Build() returns (b: Board)
    ensures WellFormed(b) && AllEmpty(b)
    ensures b == InitialBoard()
  {
    var cells: seq<seq<Cell>> := [];
    var i := 0;
    while i < Rows
      invariant 0 <= i <= Rows
      invariant |cells| == i
      invariant forall k :: 0 <= k < i ==> cells[k] == InitialBoard().cells[k]
    {
      var row: seq<Cell> := [];
      var j := 0;
      while j < Cols
        invariant 0 <= j <= Cols
        invariant |row| == j
        invariant forall k :: 0 <= k < j ==> row[k] == NewCell(i, k)
      {
        row := row + [NewCell(i, j)];
        j := j + 1;
      }
      cells := cells + [row];
      i := i + 1;
    }
    b := Board(cells);
  }

  /** The initial board is well formed and empty, and it is the only such
      board: a well-formed board with no cell taken equals it. */
  lemma {:induction false} InitialBoardIsTheEmptyBoard(b: Board)
    ensures WellFormed(InitialBoard()) && AllEmpty(InitialBoard())
    ensures WellFormed(b) && AllEmpty(b) ==> b == InitialBoard()
  {
    if WellFormed(b) && AllEmpty(b) {
      forall i | 0 <= i < Rows
        ensures b.cells[i] == InitialBoard().cells[i]
      {
        assert forall j :: 0 <= j < Cols ==> b.cells[i][j] == NewCell(i, j);
      }
    }
  }

  /** `Grows` is a preorder: every board grows to itself, and growth composes. */
  lemma GrowsPreorder(b1: Board, b2: Board, b3: Board)
    requires WellFormed(b1) && WellFormed(b2) && WellFormed(b3)
    ensures Grows(b1, b1)
    ensures Grows(b1, b2) && Grows(b2, b3) ==> Grows(b1, b3)
  {
  }

  /** How many cells of a row are taken. */
  function CountRow(r: seq<Cell>): nat
  {
    if |r| == 0 then 0 else (if IsOccupied(r[0]) then 1 else 0) + CountRow(r[1..])
  }

  /** How many cells of a grid are taken. */
  function CountCells(rows: seq<seq<Cell>>): nat
  {
    if |rows| == 0 then 0 else CountRow(rows[0]) + CountCells(rows[1..])
  }

  function OccupiedCount(b: Board): nat
  {
    CountCells(b.cells)
  }

  /** A row never has more taken cells than cells. */
  lemma {:induction false} CountRowBound(r: seq<Cell>)
    ensures CountRow(r) <= |r|
  {
    if |r| > 0 {
      CountRowBound(r[1..]);
    }
  }

  /** Replacing one cell of a row changes the count by the change in that cell. */
  lemma {:induction false} CountRowReplace(r: seq<Cell>, k: nat, c: Cell)
    requires k < |r|
    ensures CountRow(r[k := c]) + (if IsOccupied(r[k]) then 1 else 0)
         == CountRow(r) + (if IsOccupied(c) then 1 else 0)
  {
    if k > 0 {
      assert r[k := c][1..] == r[1..][k - 1 := c];
      CountRowReplace(r[1..], k - 1, c);
    }
  }

  /** Replacing one row of a grid changes the count by the change in that row. */
  lemma {:induction false} CountCellsReplace(rows: seq<seq<Cell>>, k: nat, r: seq<Cell>)
    requires k < |rows|
    ensures CountCells(rows[k := r]) + CountRow(rows[k]) == CountCells(rows) + CountRow(r)
  {
    if k > 0 {
      assert rows[k := r][1..] == rows[1..][k - 1 := r];
      CountCellsReplace(rows[1..], k - 1, r);
    }
  }

  /** A grid of rows of `Cols` cells has at most `Cols` taken cells per row. */
  lemma {:induction false} CountCellsBound(rows: seq<seq<Cell>>)
    requires forall i :: 0 <= i < |rows| ==> |rows[i]| == Cols
    ensures CountCells(rows) <= |rows| * Cols
  {
    if |rows| > 0 {
      CountRowBound(rows[0]);
      CountCellsBound(rows[1..]);
    }
  }

  /** The board has nine cells, so at most nine are taken; the initial board has none. */
  lemma OccupiedCountBound(b: Board)
    requires WellFormed(b)
    ensures OccupiedCount(b) <= Rows * Cols
    ensures AllEmpty(b) ==> OccupiedCount(b) == 0
  {
    CountCellsBound(b.cells);
    if AllEmpty(b) {
      CountCellsNone(b.cells);
    }
  }

  /** A grid where no cell is taken counts zero. */
  lemma {:induction false} CountCellsNone(rows: seq<seq<Cell>>)
    requires forall i, j :: 0 <= i < |rows| && 0 <= j < |rows[i]| ==> !IsOccupied(rows[i][j])
    ensures CountCells(rows) == 0
  {
    if |rows| > 0 {
      CountRowNone(rows[0]);
      CountCellsNone(rows[1..]);
    }
  }

  lemma {:induction false} CountRowNone(r: seq<Cell>)
    requires forall j :: 0 <= j < |r| ==> !IsOccupied(r[j])
    ensures CountRow(r) == 0
  {
    if |r| > 0 {
      CountRowNone(r[1..]);
    }
  }

  /** Taking an empty cell raises the count of taken cells by exactly one. */
  lemma ReplaceTakesOne(b: Board, row: int, col: int, c: Cell)
    requires WellFormed(b) && InBounds(row, col) && !IsOccupied(At(b, row, col))
    requires c.row == row && c.col == col && Consistent(c) && IsOccupied(c)
    ensures OccupiedCount(Replace(b, row, col, c)) == OccupiedCount(b) + 1
  {
    CountRowReplace(b.cells[row], col, c);
    CountCellsReplace(b.cells, row, b.cells[row][col := c]);
  }
}
