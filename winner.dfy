/** Win detection, `checkWinner(board, player, size)` of src/utils/utils.ts
    (not the winner banner component; `getAvailableCells` of the same file is
    in module `Available`).
    The scan looks at every row, then every column, then the main diagonal,
    then the anti-diagonal, and reports the first line that is all `player`. */
module Winner {
  import opened Types

  /** The source's `{ won, cells }` object. */
  datatype WinResult = WinResult(won: bool, cells: seq<Coord>)

  // ---------------------------------------------------------------------
  // The four tests of the scan, written the way the source's `every` calls
  // read the board.
  // ---------------------------------------------------------------------

  /** `board[row].every(cell => cell === player)` */
  predicate RowFull(board: Board, player: Player, row: nat)
    requires row < |board|
  {
    forall c :: 0 <= c < |board[row]| ==> board[row][c] == Taken(player)
  }

  /** `board.every(row => row[col] === player)` */
  predicate ColumnFull(board: Board, player: Player, col: nat)
  {
    forall r :: 0 <= r < |board| ==> Holds(board, player, Coord(r, col))
  }

  /** `board.every((_, i) => board[i][i] === player)` */
  predicate MainDiagonalFull(board: Board, player: Player)
  {
    forall i :: 0 <= i < |board| ==> Holds(board, player, Coord(i, i))
  }

  /** `board.every((_, i) => board[i][size - 1 - i] === player)` */
  predicate AntiDiagonalFull(board: Board, player: Player, size: nat)
  {
    forall i :: 0 <= i < |board| ==> Holds(board, player, AntiDiagonalAt(size, i))
  }

  /** The `i`-th cell of the anti-diagonal, `[i, size - 1 - i]`. */
  function AntiDiagonalAt(size: int, i: int): Coord
  {
    Coord(i, size - 1 - i)
  }

  // The coordinate lists the scan reports, built as the source's `map` calls build them.

  function RowCells(row: int, n: nat): seq<Coord>
  {
    seq(n, c => Coord(row, c))
  }

  function ColumnCells(col: int, n: nat): seq<Coord>
  {
    seq(n, r => Coord(r, col))
  }

  function MainDiagonalCells(n: nat): seq<Coord>
  {
    seq(n, i => Coord(i, i))
  }

  function AntiDiagonalCells(size: int, n: nat): seq<Coord>
  {
    seq(n, i => AntiDiagonalAt(size, i))
  }

  /** Every coordinate of `line` names a cell holding `player`. */
  predicate LineFull(board: Board, player: Player, line: seq<Coord>)
  {
    forall i :: 0 <= i < |line| ==> Holds(board, player, line[i])
  }

  /** The `for (let row = from; row < size; row++)` loop of the row scan:
      the lowest full row at or after `from`, if any. */
  function FirstFullRow(board: Board, player: Player, size: nat, from: nat): (r: Option<nat>)
    requires size <= |board|
    ensures r.Some? ==> from <= r.value < size && RowFull(board, player, r.value)
    ensures forall k :: from <= k < size && (r.None? || k < r.value) ==> !RowFull(board, player, k)
    decreases size - from
  {
    if from >= size then None
    else if RowFull(board, player, from) then Some(from)
    else FirstFullRow(board, player, size, from + 1)
  }

  /** The `for (let col = from; col < size; col++)` loop of the column scan. */
  function FirstFullColumn(board: Board, player: Player, size: nat, from: nat): (r: Option<nat>)
    ensures r.Some? ==> from <= r.value < size && ColumnFull(board, player, r.value)
    ensures forall k :: from <= k < size && (r.None? || k < r.value) ==> !ColumnFull(board, player, k)
    decreases size - from
  {
    if from >= size then None
    else if ColumnFull(board, player, from) then Some(from)
    else FirstFullColumn(board, player, size, from + 1)
  }

  /** `checkWinner(board, player, size)`. The source reads `board[row]` for
      each `row < size` until one is full and throws on a missing row; every
      caller passes a square board, so at least `size` rows are required. */
  function CheckWinner(board: Board, player: Player, size: nat): (r: WinResult)
    requires size <= |board|
    ensures r.won ==> LineFull(board, player, r.cells)
    ensures !r.won ==> r.cells == []
  {
    match FirstFullRow(board, player, size, 0)
    case Some(row) => WinResult(true, RowCells(row, |board[row]|))
    case None =>
      match FirstFullColumn(board, player, size, 0)
      case Some(col) => WinResult(true, ColumnCells(col, |board|))
      case None =>
        if MainDiagonalFull(board, player) then
          WinResult(true, MainDiagonalCells(|board|))
        else if AntiDiagonalFull(board, player, size) then
          WinResult(true, AntiDiagonalCells(size, |board|))
        else
          WinResult(false, [])
  }

  // ---------------------------------------------------------------------
  // The scan order, one rule per branch of the source
  // ---------------------------------------------------------------------

  /** A full row wins over everything else, and the lowest full row is reported. */
  lemma RowWins(board: Board, player: Player, size: nat, k: nat)
    requires IsSquare(board, size)
    requires k < size && RowFull(board, player, k)
    requires forall j :: 0 <= j < k ==> !RowFull(board, player, j)
    ensures CheckWinner(board, player, size) == WinResult(true, RowCells(k, size))
  {
    var first := FirstFullRow(board, player, size, 0);
    assert first == Some(k);
  }

  /** With no full row, the lowest full column is reported. */
  lemma ColumnWins(board: Board, player: Player, size: nat, k: nat)
    requires IsSquare(board, size)
    requires forall j :: 0 <= j < size ==> !RowFull(board, player, j)
    requires k < size && ColumnFull(board, player, k)
    requires forall j :: 0 <= j < k ==> !ColumnFull(board, player, j)
    ensures CheckWinner(board, player, size) == WinResult(true, ColumnCells(k, size))
  {
    var first := FirstFullColumn(board, player, size, 0);
    assert first == Some(k);
  }

  /** With no full row or column, a full main diagonal is reported. */
  lemma MainDiagonalWins(board: Board, player: Player, size: nat)
    requires IsSquare(board, size)
    requires forall j :: 0 <= j < size ==> !RowFull(board, player, j)
    requires forall j :: 0 <= j < size ==> !ColumnFull(board, player, j)
    requires MainDiagonalFull(board, player)
    ensures CheckWinner(board, player, size) == WinResult(true, MainDiagonalCells(size))
  {
  }

  /** The anti-diagonal is reported only when nothing before it matched. */
  lemma AntiDiagonalWins(board: Board, player: Player, size: nat)
    requires IsSquare(board, size)
    requires forall j :: 0 <= j < size ==> !RowFull(board, player, j)
    requires forall j :: 0 <= j < size ==> !ColumnFull(board, player, j)
    requires !MainDiagonalFull(board, player)
    requires AntiDiagonalFull(board, player, size)
    ensures CheckWinner(board, player, size) == WinResult(true, AntiDiagonalCells(size, size))
  {
  }

  /** No full line of any kind: `{ won: false, cells: [] }`. */
  lemma NobodyWins(board: Board, player: Player, size: nat)
    requires IsSquare(board, size)
    requires forall j :: 0 <= j < size ==> !RowFull(board, player, j)
    requires forall j :: 0 <= j < size ==> !ColumnFull(board, player, j)
    requires !MainDiagonalFull(board, player)
    requires !AntiDiagonalFull(board, player, size)
    ensures CheckWinner(board, player, size) == WinResult(false, [])
  {
  }

  // ---------------------------------------------------------------------
  // An independent reference: the first full line in a list of lines
  // ---------------------------------------------------------------------

  /** Every line of a `size` x `size` board, in the order the scan visits
      them: the rows, the columns, the main diagonal, the anti-diagonal. */
  function Lines(size: nat): seq<seq<Coord>>
  {
    seq(size, r => RowCells(r, size)) + seq(size, c => ColumnCells(c, size))
    + [MainDiagonalCells(size), AntiDiagonalCells(size, size)]
  }

  /** Where the first line of `lines` that is all `player` stands, or
      `|lines|` when there is none. */
  function FirstFullIndex(board: Board, player: Player, lines: seq<seq<Coord>>): (i: nat)
    ensures i <= |lines|
    ensures i < |lines| ==> LineFull(board, player, lines[i])
    ensures forall j :: 0 <= j < i ==> !LineFull(board, player, lines[j])
    decreases |lines|
  {
    if lines == [] then 0
    else if LineFull(board, player, lines[0]) then 0
    else
      var i := 1 + FirstFullIndex(board, player, lines[1..]);
      assert forall j :: 1 <= j < |lines| ==> lines[j] == lines[1..][j - 1];
      i
  }

  /** The first full line of `lines`, reported the way `checkWinner` reports a line. */
  function FirstFullLine(board: Board, player: Player, lines: seq<seq<Coord>>): WinResult
  {
    var i := FirstFullIndex(board, player, lines);
    if i < |lines| then WinResult(true, lines[i]) else WinResult(false, [])
  }

  /** Some row, column or diagonal of the board is all `player`. */
  ghost predicate HasFullLine(board: Board, player: Player, size: nat)
  {
    exists i :: 0 <= i < |Lines(size)| && LineFull(board, player, Lines(size)[i])
  }

  /** A winning line as a board of `size` reports it: `size` distinct coordinates on the board. */
  predicate WellFormedLine(line: seq<Coord>, size: nat)
  {
    && |line| == size
    && (forall i :: 0 <= i < |line| ==> 0 <= line[i].row < size && 0 <= line[i].col < size)
    && (forall i, j :: 0 <= i < j < |line| ==> line[i] != line[j])
  }

  /** Where each kind of line stands in `Lines(size)`. */
  lemma LinesAt(size: nat)
    ensures |Lines(size)| == 2 * size + 2
    ensures forall r :: 0 <= r < size ==> Lines(size)[r] == RowCells(r, size)
    ensures forall c :: 0 <= c < size ==> Lines(size)[size + c] == ColumnCells(c, size)
    ensures Lines(size)[2 * size] == MainDiagonalCells(size)
    ensures Lines(size)[2 * size + 1] == AntiDiagonalCells(size, size)
  {
  }

  /** The scan's tests agree with "the line's cells all hold `player`". */
  lemma FullLinesAgree(board: Board, player: Player, size: nat)
    requires IsSquare(board, size)
    ensures forall r :: 0 <= r < size ==> (RowFull(board, player, r) <==> LineFull(board, player, RowCells(r, size)))
    ensures forall c :: 0 <= c < size ==> (ColumnFull(board, player, c) <==> LineFull(board, player, ColumnCells(c, size)))
    ensures MainDiagonalFull(board, player) <==> LineFull(board, player, MainDiagonalCells(size))
    ensures AntiDiagonalFull(board, player, size) <==> LineFull(board, player, AntiDiagonalCells(size, size))
  {
    forall r | 0 <= r < size
      ensures RowFull(board, player, r) <==> LineFull(board, player, RowCells(r, size))
    {
      var line := RowCells(r, size);
      if !RowFull(board, player, r) {
        var c :| 0 <= c < size && board[r][c] != Taken(player);
        assert !Holds(board, player, line[c]);
      }
    }
    forall c | 0 <= c < size
      ensures ColumnFull(board, player, c) <==> LineFull(board, player, ColumnCells(c, size))
    {
      var line := ColumnCells(c, size);
      if ColumnFull(board, player, c) {
        forall i | 0 <= i < size ensures Holds(board, player, line[i]) {
          assert line[i] == Coord(i, c);
        }
      } else {
        var r :| 0 <= r < size && !Holds(board, player, Coord(r, c));
        assert line[r] == Coord(r, c);
      }
    }
    var main := MainDiagonalCells(size);
    if !MainDiagonalFull(board, player) {
      var i :| 0 <= i < size && !Holds(board, player, Coord(i, i));
      assert main[i] == Coord(i, i);
    }
    var anti := AntiDiagonalCells(size, size);
    if !AntiDiagonalFull(board, player, size) {
      var i :| 0 <= i < size && !Holds(board, player, AntiDiagonalAt(size, i));
      assert anti[i] == AntiDiagonalAt(size, i);
    }
  }

  /** The first full line is the only one with no full line before it. */
  lemma FirstFullIndexUnique(board: Board, player: Player, lines: seq<seq<Coord>>, i: nat)
    requires i <= |lines|
    requires i < |lines| ==> LineFull(board, player, lines[i])
    requires forall j :: 0 <= j < i ==> !LineFull(board, player, lines[j])
    ensures FirstFullIndex(board, player, lines) == i
  {
  }

  /** The position in `Lines(size)` of the line `checkWinner` reports, or
      `|Lines(size)|` when it reports none. */
  ghost function ScanIndex(board: Board, player: Player, size: nat): nat
    requires size <= |board|
  {
    match FirstFullRow(board, player, size, 0)
    case Some(row) => row
    case None =>
      match FirstFullColumn(board, player, size, 0)
      case Some(col) => size + col
      case None =>
        if MainDiagonalFull(board, player) then 2 * size
        else if AntiDiagonalFull(board, player, size) then 2 * size + 1
        else 2 * size + 2
  }

  /** `checkWinner` reports the line at `ScanIndex`, or no win when that index is past the end. */
  lemma ScanIndexReported(board: Board, player: Player, size: nat)
    requires IsSquare(board, size)
    ensures ScanIndex(board, player, size) <= |Lines(size)|
    ensures CheckWinner(board, player, size)
         == if ScanIndex(board, player, size) < |Lines(size)|
            then WinResult(true, Lines(size)[ScanIndex(board, player, size)])
            else WinResult(false, [])
  {
    LinesAt(size);
  }

  /** The line at `ScanIndex`, when there is one, is all `player`. */
  lemma ScanIndexFull(board: Board, player: Player, size: nat)
    requires IsSquare(board, size)
    ensures ScanIndex(board, player, size) < |Lines(size)|
            ==> LineFull(board, player, Lines(size)[ScanIndex(board, player, size)])
  {
    LinesAt(size);
    FullLinesAgree(board, player, size);
  }

  /** No line before `ScanIndex` in `Lines(size)` is all `player`. */
  lemma NothingFullBeforeScanIndex(board: Board, player: Player, size: nat)
    requires IsSquare(board, size)
    ensures forall j :: 0 <= j < ScanIndex(board, player, size) ==> !LineFull(board, player, Lines(size)[j])
  {
    var lines, i := Lines(size), ScanIndex(board, player, size);
    LinesAt(size);
    FullLinesAgree(board, player, size);
    forall j | 0 <= j < i ensures !LineFull(board, player, lines[j]) {
      if j < size {
        assert lines[j] == RowCells(j, size);
      } else if j < 2 * size {
        assert lines[j] == ColumnCells(j - size, size);
      }
    }
  }

  /** On a square board, `checkWinner` reports exactly the first full line in
      the order rows, columns, main diagonal, anti-diagonal. */
  lemma CheckWinnerIsFirstFullLine(board: Board, player: Player, size: nat)
    requires IsSquare(board, size)
    ensures CheckWinner(board, player, size) == FirstFullLine(board, player, Lines(size))
  {
    ScanIndexReported(board, player, size);
    ScanIndexFull(board, player, size);
    NothingFullBeforeScanIndex(board, player, size);
    FirstFullIndexUnique(board, player, Lines(size), ScanIndex(board, player, size));
  }

  /** On a square board, `checkWinner` reports a win exactly when some row,
      column or diagonal is all `player`. */
  lemma CheckWinnerComplete(board: Board, player: Player, size: nat)
    requires IsSquare(board, size)
    ensures CheckWinner(board, player, size).won <==> HasFullLine(board, player, size)
  {
    CheckWinnerIsFirstFullLine(board, player, size);
  }

  /** Every line of the board has `size` distinct on-board coordinates. */
  lemma LinesWellFormed(size: nat)
    ensures forall i :: 0 <= i < |Lines(size)| ==> WellFormedLine(Lines(size)[i], size)
  {
    LinesAt(size);
    var lines := Lines(size);
    forall i | 0 <= i < |lines| ensures WellFormedLine(lines[i], size) {
      if i < size {
        assert lines[i] == RowCells(i, size);
      } else if i < 2 * size {
        assert lines[i] == ColumnCells(i - size, size);
      }
    }
  }

  /** A reported winning line has exactly `size` distinct on-board
      coordinates, and each names a cell holding `player`. */
  lemma WinningCellsWellFormed(board: Board, player: Player, size: nat)
    requires IsSquare(board, size)
    requires CheckWinner(board, player, size).won
    ensures WellFormedLine(CheckWinner(board, player, size).cells, size)
    ensures LineFull(board, player, CheckWinner(board, player, size).cells)
  {
    CheckWinnerIsFirstFullLine(board, player, size);
    LinesWellFormed(size);
  }
}
