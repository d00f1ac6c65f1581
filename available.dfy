/** Empty-cell enumeration, `getAvailableCells(board)` of src/utils/utils.ts,
    and cell counts used to state its size. */
module Available {
  import opened Types

  // ---------------------------------------------------------------------
  // Specification: the empty cells in row-major order
  // ---------------------------------------------------------------------

  /** The empty cells among the first `k` cells of row `r`, left to right. */
  function RowAvailable(board: Board, r: nat, k: nat): seq<Coord>
    requires r < |board| && k <= |board[r]|
  {
    if k == 0 then []
    else RowAvailable(board, r, k - 1) + (if board[r][k - 1] == Empty then [Coord(r, k - 1)] else [])
  }

  /** The empty cells of the first `k` rows, row by row. */
  function AvailableBefore(board: Board, k: nat): seq<Coord>
    requires k <= |board|
  {
    if k == 0 then []
    else AvailableBefore(board, k - 1) + RowAvailable(board, k - 1, |board[k - 1]|)
  }

  /** Every empty cell of the board, in row-major order. */
  function AvailableCells(board: Board): seq<Coord>
  {
    AvailableBefore(board, |board|)
  }

  /** `p` names an empty cell ('' in the source) of `board`. */
  predicate IsEmptyAt(board: Board, p: Coord)
  {
    InBoard(board, p) && board[p.row][p.col] == Empty
  }

  /** `a` comes strictly before `b` when the board is read row by row. */
  predicate RowMajorBefore(a: Coord, b: Coord)
  {
    a.row < b.row || (a.row == b.row && a.col < b.col)
  }

  // ---------------------------------------------------------------------
  // The source's nested `forEach` with `push`
  // ---------------------------------------------------------------------

  /** `getAvailableCells(board)`: push `[rowIndex, colIndex]` for every
      falsy (empty) cell, visiting rows in order and cells left to right.
      The board is a value here, so it is left unchanged. */
  method GetAvailableCells(board: Board) returns (cells: seq<Coord>)
    ensures cells == AvailableCells(board)
  {
    cells := [];
    var r := 0;
    while r < |board|
      invariant 0 <= r <= |board|
      invariant cells == AvailableBefore(board, r)
    {
      var c := 0;
      while c < |board[r]|
        invariant 0 <= c <= |board[r]|
        invariant cells == AvailableBefore(board, r) + RowAvailable(board, r, c)
      {
        if board[r][c] == Empty {
          cells := cells + [Coord(r, c)];
        }
        c := c + 1;
      }
      r := r + 1;
    }
  }

  // ---------------------------------------------------------------------
  // What the list holds
  // ---------------------------------------------------------------------

  /** The first `k` cells of row `r`: exactly its empty ones are listed, left to right. */
  lemma {:induction false} RowAvailableFacts(board: Board, r: nat, k: nat)
    requires r < |board| && k <= |board[r]|
    ensures forall p :: p in RowAvailable(board, r, k) <==> p.row == r && 0 <= p.col < k && board[r][p.col] == Empty
    ensures forall i, j :: 0 <= i < j < |RowAvailable(board, r, k)|
              ==> RowMajorBefore(RowAvailable(board, r, k)[i], RowAvailable(board, r, k)[j])
  {
    if k > 0 {
      RowAvailableFacts(board, r, k - 1);
      var prefix := RowAvailable(board, r, k - 1);
      assert forall i :: 0 <= i < |prefix| ==> prefix[i] in prefix;
    }
  }

  /** The first `k` rows: exactly their empty cells are listed, in row-major order. */
  lemma {:induction false} AvailableBeforeFacts(board: Board, k: nat)
    requires k <= |board|
    ensures forall p :: p in AvailableBefore(board, k) <==> p.row < k && IsEmptyAt(board, p)
    ensures forall i, j :: 0 <= i < j < |AvailableBefore(board, k)|
              ==> RowMajorBefore(AvailableBefore(board, k)[i], AvailableBefore(board, k)[j])
  {
    if k > 0 {
      AvailableBeforeFacts(board, k - 1);
      RowAvailableFacts(board, k - 1, |board[k - 1]|);
      var prefix, last := AvailableBefore(board, k - 1), RowAvailable(board, k - 1, |board[k - 1]|);
      assert forall i :: 0 <= i < |prefix| ==> prefix[i] in prefix;
      assert forall i :: 0 <= i < |last| ==> last[i] in last;
      var all := prefix + last;
      forall i, j | 0 <= i < j < |all| ensures RowMajorBefore(all[i], all[j]) {
        if j < |prefix| {
          assert all[i] == prefix[i] && all[j] == prefix[j];
        } else if i >= |prefix| {
          assert all[i] == last[i - |prefix|] && all[j] == last[j - |prefix|];
        } else {
          assert all[i] == prefix[i] && all[j] == last[j - |prefix|];
        }
      }
    }
  }

  /** A coordinate is listed exactly when it names an empty cell: every empty
      cell is listed and no occupied or off-board one is. */
  lemma AvailableCellsExact(board: Board)
    ensures forall p :: p in AvailableCells(board) <==> IsEmptyAt(board, p)
  {
    AvailableBeforeFacts(board, |board|);
  }

  /** The list is in strictly increasing row-major order, so each empty cell
      appears exactly once. */
  lemma AvailableCellsRowMajor(board: Board)
    ensures forall i, j :: 0 <= i < j < |AvailableCells(board)|
              ==> RowMajorBefore(AvailableCells(board)[i], AvailableCells(board)[j])
    ensures forall i, j :: 0 <= i < j < |AvailableCells(board)| ==> AvailableCells(board)[i] != AvailableCells(board)[j]
  {
    AvailableBeforeFacts(board, |board|);
  }

  // ---------------------------------------------------------------------
  // Counting cells
  // ---------------------------------------------------------------------

  /** How many of the first `k` cells of `row` equal `v`. */
  function RowCountBefore(row: seq<Cell>, k: nat, v: Cell): nat
    requires k <= |row|
  {
    if k == 0 then 0 else RowCountBefore(row, k - 1, v) + (if row[k - 1] == v then 1 else 0)
  }

  /** How many cells of the first `k` rows equal `v`. */
  function CountBefore(board: Board, k: nat, v: Cell): nat
    requires k <= |board|
  {
    if k == 0 then 0 else CountBefore(board, k - 1, v) + RowCountBefore(board[k - 1], |board[k - 1]|, v)
  }

  /** How many cells of the board equal `v`. */
  function Count(board: Board, v: Cell): nat
  {
    CountBefore(board, |board|, v)
  }

  /** The row's list has one entry per empty cell among its first `k`. */
  lemma {:induction false} RowAvailableLength(board: Board, r: nat, k: nat)
    requires r < |board| && k <= |board[r]|
    ensures |RowAvailable(board, r, k)| == RowCountBefore(board[r], k, Empty)
  {
    if k > 0 {
      RowAvailableLength(board, r, k - 1);
    }
  }

  /** The list of the first `k` rows has one entry per empty cell in them. */
  lemma {:induction false} AvailableBeforeLength(board: Board, k: nat)
    requires k <= |board|
    ensures |AvailableBefore(board, k)| == CountBefore(board, k, Empty)
  {
    if k > 0 {
      AvailableBeforeLength(board, k - 1);
      RowAvailableLength(board, k - 1, |board[k - 1]|);
    }
  }

  /** The list has one entry per empty cell. */
  lemma AvailableCellsLength(board: Board)
    ensures |AvailableCells(board)| == Count(board, Empty)
  {
    AvailableBeforeLength(board, |board|);
  }

  /** Each of the first `k` cells of a row is empty, X or O. */
  lemma {:induction false} RowCountsAddUp(row: seq<Cell>, k: nat)
    requires k <= |row|
    ensures RowCountBefore(row, k, Empty) + RowCountBefore(row, k, Taken(X)) + RowCountBefore(row, k, Taken(O)) == k
  {
    if k > 0 {
      RowCountsAddUp(row, k - 1);
      match row[k - 1]
      case Empty =>
      case Taken(X) =>
      case Taken(O) =>
    }
  }

  /** Each cell of the first `k` rows of a square board is empty, X or O. */
  lemma {:induction false} CountsAddUpBefore(board: Board, size: nat, k: nat)
    requires IsSquare(board, size) && k <= size
    ensures CountBefore(board, k, Empty) + CountBefore(board, k, Taken(X)) + CountBefore(board, k, Taken(O)) == k * size
  {
    if k > 0 {
      CountsAddUpBefore(board, size, k - 1);
      RowCountsAddUp(board[k - 1], size);
      assert (k - 1) * size + size == k * size;
    }
  }

  /** On a `size` x `size` board, the empty-cell list and the occupied cells
      together make up all `size * size` cells. */
  lemma AvailablePlusOccupied(board: Board, size: nat)
    requires IsSquare(board, size)
    ensures |AvailableCells(board)| + Count(board, Taken(X)) + Count(board, Taken(O)) == size * size
  {
    AvailableCellsLength(board);
    CountsAddUpBefore(board, size, size);
  }
}
