/** The game state each tic-tac-toe component keeps: the board, whose turn
    it is, the winner and its line, the computer-turn flag and the board
    size, with the operations that change them (src/components/TickTacToe.tsx
    and its three JavaScript copies). */
module TicTacToe {
  import opened Types
  import opened Winner
  import opened Available

  const MIN_SIZE: nat := 3
  const MAX_SIZE: nat := 8

  // ---------------------------------------------------------------------
  // Board size
  // ---------------------------------------------------------------------

  /** `parseInt(value) || MIN_SIZE`: input that does not parse (None) and a
      parsed 0 both fall back to MIN_SIZE. */
  function ParsedOrMin(input: Option<int>): int
  {
    if input.None? || input.value == 0 then MIN_SIZE else input.value
  }

  /** The size handler of the TypeScript component:
      `Math.min(Math.max(MIN_SIZE, parseInt(value) || MIN_SIZE), MAX_SIZE)`. */
  function ClampSize(input: Option<int>): (n: nat)
    ensures MIN_SIZE <= n <= MAX_SIZE
    ensures input.Some? && MIN_SIZE <= input.value <= MAX_SIZE ==> n == input.value
    ensures input.Some? && input.value > MAX_SIZE ==> n == MAX_SIZE
    ensures input.None? || input.value < MIN_SIZE ==> n == MIN_SIZE
  {
    var parsed := ParsedOrMin(input);
    var atLeast := if parsed < MIN_SIZE then MIN_SIZE else parsed;
    if atLeast > MAX_SIZE then MAX_SIZE else atLeast
  }

  /** The size handler of the JavaScript copies, which has no upper bound:
      `Math.max(3, parseInt(value) || 3)`. */
  function ClampSizeFromBelow(input: Option<int>): (n: nat)
    ensures MIN_SIZE <= n
    ensures input.Some? && MIN_SIZE <= input.value ==> n == input.value
    ensures input.None? || input.value < MIN_SIZE ==> n == MIN_SIZE
  {
    var parsed := ParsedOrMin(input);
    if parsed < MIN_SIZE then MIN_SIZE else parsed
  }

  // ---------------------------------------------------------------------
  // Boards
  // ---------------------------------------------------------------------

  /** `Array(n).fill(Array(n).fill(''))`: an n x n board of empty cells. */
  function EmptyBoard(n: nat): (b: Board)
    ensures IsSquare(b, n)
    ensures forall p :: InBoard(b, p) ==> b[p.row][p.col] == Empty
  {
    seq(n, _ => seq(n, _ => Empty))
  }

  /** The click's `board.map(...)`: row `row` is rebuilt with `p` at column
      `col`; every other row is kept as it is. */
  function Place(board: Board, row: int, col: int, p: Player): (b: Board)
    requires 0 <= row < |board| && 0 <= col < |board[row]|
    ensures |b| == |board| && forall r :: 0 <= r < |b| ==> |b[r]| == |board[r]|
    ensures b[row][col] == Taken(p)
    ensures forall r, c :: 0 <= r < |board| && 0 <= c < |board[r]| && (r != row || c != col) ==> b[r][c] == board[r][c]
  {
    seq(|board|, r requires 0 <= r < |board| =>
      if r == row then seq(|board[r]|, c requires 0 <= c < |board[r]| => if c == col then Taken(p) else board[r][c])
      else board[r])
  }

  /** `availableCells[Math.floor(Math.random() * availableCells.length)]`:
      the index picked for a random number in [0, 1). The product is taken
      over the reals; the source rounds it to a double before flooring. */
  function PickIndex(random: real, count: nat): (i: nat)
    requires 0.0 <= random < 1.0 && count > 0
    ensures i < count
  {
    var x := random * count as real;
    assert 0.0 <= x < count as real;
    x.Floor
  }

  /** Every index of the list can be picked: `random` = i / count picks i. */
  lemma PickIndexReachable(count: nat, i: nat)
    requires i < count
    ensures PickIndex(i as real / count as real, count) == i
  {
    var random := i as real / count as real;
    assert random * count as real == i as real;
  }

  // ---------------------------------------------------------------------
  // Turn bookkeeping: X moves first, so X has as many marks as O or one more
  // ---------------------------------------------------------------------

  predicate Balanced(board: Board)
  {
    Count(board, Taken(O)) <= Count(board, Taken(X)) <= Count(board, Taken(O)) + 1
  }

  /** The player whose turn it is on `board`, judged by the marks on it. */
  function NextToMove(board: Board): Player
  {
    if Count(board, Taken(X)) == Count(board, Taken(O)) then X else O
  }

  /** Writing column `col` of a row changes the count of `v` only through that cell. */
  lemma {:induction false} RowCountUpdate(a: seq<Cell>, b: seq<Cell>, col: nat, k: nat, v: Cell)
    requires |a| == |b| && col < |a| && k <= |a|
    requires forall c :: 0 <= c < |a| && c != col ==> a[c] == b[c]
    ensures RowCountBefore(b, k, v)
         == RowCountBefore(a, k, v) + (if col < k then (if b[col] == v then 1 else 0) - (if a[col] == v then 1 else 0) else 0)
  {
    if k > 0 {
      RowCountUpdate(a, b, col, k - 1, v);
    }
  }

  /** Writing one cell of a board changes the count of `v` only through that cell. */
  lemma {:induction false} CountUpdate(a: Board, b: Board, row: nat, k: nat, v: Cell)
    requires |a| == |b| && row < |a| && k <= |a|
    requires forall r :: 0 <= r < |a| && r != row ==> a[r] == b[r]
    ensures CountBefore(b, k, v)
         == CountBefore(a, k, v)
            + (if row < k then RowCountBefore(b[row], |b[row]|, v) - RowCountBefore(a[row], |a[row]|, v) else 0)
  {
    if k > 0 {
      CountUpdate(a, b, row, k - 1, v);
    }
  }

  /** Marking an empty cell for `p` adds one mark of `p`, one empty cell
      fewer, and leaves the other player's marks alone. */
  lemma PlaceCounts(board: Board, row: nat, col: nat, p: Player)
    requires row < |board| && col < |board[row]| && board[row][col] == Empty
    ensures Count(Place(board, row, col, p), Taken(p)) == Count(board, Taken(p)) + 1
    ensures Count(Place(board, row, col, p), Taken(Other(p))) == Count(board, Taken(Other(p)))
    ensures Count(Place(board, row, col, p), Empty) + 1 == Count(board, Empty)
  {
    var b := Place(board, row, col, p);
    forall r | 0 <= r < |board| && r != row ensures board[r] == b[r] {
    }
    var vs := [Taken(p), Taken(Other(p)), Empty];
    forall i | 0 <= i < |vs|
      ensures Count(b, vs[i]) == Count(board, vs[i]) + (if b[row][col] == vs[i] then 1 else 0) - (if vs[i] == Empty then 1 else 0)
    {
      RowCountUpdate(board[row], b[row], col, |board[row]|, vs[i]);
      CountUpdate(board, b, row, |board|, vs[i]);
    }
    assert vs[0] == Taken(p) && vs[1] == Taken(Other(p)) && vs[2] == Empty;
  }

  /** A line all `q`'s after `p` marks a cell was all `q`'s before. */
  lemma PlaceKeepsLineOf(board: Board, row: nat, col: nat, p: Player, line: seq<Coord>)
    requires row < |board| && col < |board[row]|
    ensures LineFull(Place(board, row, col, p), Other(p), line) ==> LineFull(board, Other(p), line)
  {
    var b, q := Place(board, row, col, p), Other(p);
    if LineFull(b, q, line) {
      forall k | 0 <= k < |line| ensures Holds(board, q, line[k]) {
        assert Holds(b, q, line[k]);
      }
    }
  }

  /** Marking a cell for `p` cannot complete a line for the other player. */
  lemma PlaceKeepsOtherLines(board: Board, row: nat, col: nat, p: Player, size: nat)
    requires row < |board| && col < |board[row]|
    requires !HasFullLine(board, Other(p), size)
    ensures !HasFullLine(Place(board, row, col, p), Other(p), size)
  {
    var lines := Lines(size);
    forall i | 0 <= i < |lines| ensures !LineFull(Place(board, row, col, p), Other(p), lines[i]) {
      PlaceKeepsLineOf(board, row, col, p, lines[i]);
    }
  }

  /** A fresh board: no marks, every cell available, and no line for anybody. */
  lemma EmptyBoardFacts(n: nat, p: Player)
    requires n >= 1
    ensures Count(EmptyBoard(n), Taken(p)) == 0
    ensures |AvailableCells(EmptyBoard(n))| == n * n
    ensures !HasFullLine(EmptyBoard(n), p, n)
  {
    var b := EmptyBoard(n);
    CountAbsent(b, |b|, Taken(p));
    CountAbsent(b, |b|, Taken(Other(p)));
    AvailablePlusOccupied(b, n);
    LinesWellFormed(n);
    var lines := Lines(n);
    forall i | 0 <= i < |lines| ensures !LineFull(b, p, lines[i]) {
      assert !Holds(b, p, lines[i][0]);
    }
  }

  /** When no cell of the board holds `v`, the first `k` rows count none of it. */
  lemma {:induction false} CountAbsent(board: Board, k: nat, v: Cell)
    requires k <= |board|
    requires forall p :: InBoard(board, p) ==> board[p.row][p.col] != v
    ensures CountBefore(board, k, v) == 0
  {
    if k > 0 {
      CountAbsent(board, k - 1, v);
      RowCountAbsent(board, k - 1, |board[k - 1]|, v);
    }
  }

  /** When no cell of the board holds `v`, the first `k` cells of row `r` count none of it. */
  lemma {:induction false} RowCountAbsent(board: Board, r: nat, k: nat, v: Cell)
    requires r < |board| && k <= |board[r]|
    requires forall p :: InBoard(board, p) ==> board[p.row][p.col] != v
    ensures RowCountBefore(board[r], k, v) == 0
  {
    if k > 0 {
      RowCountAbsent(board, r, k - 1, v);
      assert InBoard(board, Coord(r, k - 1));
    }
  }

  // ---------------------------------------------------------------------
  // The invariant of a game in progress or won, and the move that keeps it
  // ---------------------------------------------------------------------

  /** A reachable position: a square board with X having as many marks as O
      or one more. Without a winner, neither player has a full line and the
      player to move is the one the marks say. With a winner, the winner is
      still the current player and the recorded line is the one
      `checkWinner` reports for the winner. */
  ghost predicate Consistent(size: nat, board: Board, currentPlayer: Player,
                             winner: Option<Player>, winningCells: Option<seq<Coord>>)
  {
    && IsSquare(board, size)
    && Balanced(board)
    && match winner
       case None =>
         && winningCells == None
         && currentPlayer == NextToMove(board)
         && !HasFullLine(board, X, size)
         && !HasFullLine(board, O, size)
       case Some(w) =>
         && w == currentPlayer
         && NextToMove(board) == Other(w)
         && CheckWinner(board, w, size).won
         && winningCells == Some(CheckWinner(board, w, size).cells)
  }

  /** A fresh game of size at least 1 is consistent. */
  lemma FreshGameConsistent(n: nat)
    requires n >= 1
    ensures Consistent(n, EmptyBoard(n), X, None, None)
  {
    EmptyBoardFacts(n, X);
    EmptyBoardFacts(n, O);
  }

  /** An accepted move keeps the position consistent: the mover either wins
      with the line `checkWinner` reports, or the turn passes to the other
      player with no line completed for anybody. */
  lemma MoveKeepsConsistent(size: nat, board: Board, player: Player, row: int, col: int)
    requires Consistent(size, board, player, None, None)
    requires 0 <= row < size && 0 <= col < size && board[row][col] == Empty
    ensures var after := Place(board, row, col, player);
            var result := CheckWinner(after, player, size);
            if result.won then Consistent(size, after, player, Some(player), Some(result.cells))
            else Consistent(size, after, Other(player), None, None)
  {
    var after := Place(board, row, col, player);
    PlaceCounts(board, row, col, player);
    PlaceKeepsOtherLines(board, row, col, player, size);
    CheckWinnerComplete(after, player, size);
    assert IsSquare(after, size);
    assert player == X || player == O;
  }

  // ---------------------------------------------------------------------
  // The component state
  // ---------------------------------------------------------------------

  /** The four copies of the engine. Only the TypeScript component bounds the
      size from above, and only the two-player copy has no computer player. */
  datatype Variant = TypeScript | ComponentJs | CompPlayJs | TwoPlayerJs
  {
    predicate HasComputer()
    {
      this != TwoPlayerJs
    }

    predicate CapsSize()
    {
      this == TypeScript
    }
  }

  class Game {
    const variant: Variant
    var size: nat
    var board: Board
    var currentPlayer: Player
    var isComputerPlayer: bool
    var winner: Option<Player>
    var winningCells: Option<seq<Coord>>
    /** `computerTurnRef.current` */
    var computerTurn: bool

    /** The state the components keep between events. */
    ghost predicate Valid()
      reads this
    {
      && size >= MIN_SIZE
      && (variant.CapsSize() ==> size <= MAX_SIZE)
      && (!variant.HasComputer() ==> !isComputerPlayer && !computerTurn)
      && Consistent(size, board, currentPlayer, winner, winningCells)
    }

    /** The state right after `generateBoard(n)` on a board of size `n`. */
    ghost predicate IsFreshGame(n: nat)
      reads this
    {
      size == n && board == EmptyBoard(n) && currentPlayer == X
      && winner == None && winningCells == None && !computerTurn
    }

    /** The initial `useState` values: a 3 x 3 board, X to move, computer
        mode on in the copies that have a computer player. */
    constructor (variant: Variant)
      ensures Valid() && this.variant == variant
      ensures IsFreshGame(MIN_SIZE)
      ensures isComputerPlayer == variant.HasComputer()
    {
      this.variant := variant;
      size := MIN_SIZE;
      board := EmptyBoard(MIN_SIZE);
      currentPlayer := X;
      isComputerPlayer := variant.HasComputer();
      winner := None;
      winningCells := None;
      computerTurn := false;
      new;
      FreshGameConsistent(MIN_SIZE);
    }

    /** `generateBoard(newSize)`: an empty board, no winner, X to move and the
        computer flag cleared. The size itself is set by the caller: this is
        only the step `Reset` and `ChangeSize` share, and on its own with
        `newSize != size` it leaves the board and the size out of step. */
    method GenerateBoard(newSize: nat)
      modifies this
      ensures board == EmptyBoard(newSize) && currentPlayer == X
      ensures winner == None && winningCells == None && !computerTurn
      ensures size == old(size) && isComputerPlayer == old(isComputerPlayer)
    {
      board := EmptyBoard(newSize);
      winner := None;
      winningCells := None;
      currentPlayer := X;
      computerTurn := false;
    }

    /** `resetGame`: `generateBoard(size)`. */
    method Reset()
      requires Valid()
      modifies this
      ensures Valid() && IsFreshGame(old(size))
      ensures isComputerPlayer == old(isComputerPlayer)
    {
      GenerateBoard(size);
      FreshGameConsistent(size);
    }

    /** The size input's handler: clamp the parsed value, store it and start
        a new game of that size. */
    method ChangeSize(input: Option<int>)
      requires Valid()
      modifies this
      ensures Valid()
      ensures IsFreshGame(if variant.CapsSize() then ClampSize(input) else ClampSizeFromBelow(input))
      ensures isComputerPlayer == old(isComputerPlayer)
    {
      var newSize := if variant.CapsSize() then ClampSize(input) else ClampSizeFromBelow(input);
      size := newSize;
      GenerateBoard(newSize);
      FreshGameConsistent(newSize);
    }

    /** The play-mode checkbox: `setIsComputerPlayer(checked)`. */
    method SetPlayMode(on: bool)
      requires Valid() && variant.HasComputer()
      modifies this
      ensures Valid() && isComputerPlayer == on
      ensures size == old(size) && board == old(board) && currentPlayer == old(currentPlayer)
      ensures winner == old(winner) && winningCells == old(winningCells) && computerTurn == old(computerTurn)
    {
      isComputerPlayer := on;
    }

    /** `handleCellClick(row, col)`. A click after a win or on a taken cell
        changes nothing. Otherwise the cell gets the current player's mark and
        no other cell changes; a completed line records the winner and its
        line and keeps the player, anything else (a full board included)
        passes the turn and, in computer mode with O next, raises the flag.
        The source indexes the board without checking, hence the bounds. */
    method HandleCellClick(row: int, col: int)
      requires Valid()
      requires 0 <= row < size && 0 <= col < size
      modifies this
      ensures Valid()
      ensures size == old(size) && isComputerPlayer == old(isComputerPlayer)
      ensures old(winner.Some? || board[row][col] != Empty) ==>
                board == old(board) && currentPlayer == old(currentPlayer) && winner == old(winner)
                && winningCells == old(winningCells) && computerTurn == old(computerTurn)
      ensures old(winner.None? && board[row][col] == Empty) ==>
                && board == Place(old(board), row, col, old(currentPlayer))
                && Count(board, Empty) + 1 == old(Count(board, Empty))
                && var result := CheckWinner(board, old(currentPlayer), size);
                   if result.won then
                     && winner == Some(old(currentPlayer)) && winningCells == Some(result.cells)
                     && currentPlayer == old(currentPlayer) && computerTurn == old(computerTurn)
                   else
                     && winner == None && winningCells == None
                     && currentPlayer == Other(old(currentPlayer))
                     && computerTurn == (old(computerTurn) || (isComputerPlayer && currentPlayer == O))
    {
      if winner.Some? || board[row][col] != Empty {
        return;
      }
      var player := currentPlayer;
      var updated := Place(board, row, col, player);
      MoveKeepsConsistent(size, board, player, row, col);
      PlaceCounts(board, row, col, player);
      board := updated;
      var result := CheckWinner(updated, player, size);
      if result.won {
        winner := Some(player);
        winningCells := Some(result.cells);
      } else {
        var nextPlayer := Other(player);
        currentPlayer := nextPlayer;
        if isComputerPlayer && nextPlayer == O {
          computerTurn := true;
        }
      }
    }

    /** `computerMove`: nothing after a win or on a full board; otherwise the
        available cell at the index `random` picks is clicked for the current
        player, which always succeeds because that cell is empty. */
    method ComputerMove(random: real)
      requires Valid() && variant.HasComputer()
      requires 0.0 <= random < 1.0
      modifies this
      ensures Valid()
      ensures size == old(size) && isComputerPlayer == old(isComputerPlayer)
      ensures old(winner.Some? || AvailableCells(board) == []) ==>
                board == old(board) && currentPlayer == old(currentPlayer) && winner == old(winner)
                && winningCells == old(winningCells) && computerTurn == old(computerTurn)
      ensures old(winner.None? && AvailableCells(board) != []) ==>
                var cells := old(AvailableCells(board));
                var m := cells[PickIndex(random, |cells|)];
                && IsEmptyAt(old(board), m)
                && board == Place(old(board), m.row, m.col, old(currentPlayer))
                && (winner.Some? <==> CheckWinner(board, old(currentPlayer), size).won)
                && (winner.Some? ==> && winner == Some(old(currentPlayer)) && currentPlayer == old(currentPlayer)
                                     && winningCells == Some(CheckWinner(board, old(currentPlayer), size).cells))
                && (winner.None? ==> currentPlayer == Other(old(currentPlayer)) && winningCells == None)
                && computerTurn == (old(computerTurn) || (winner.None? && isComputerPlayer && currentPlayer == O))
    {
      if winner.Some? {
        return;
      }
      var cells := GetAvailableCells(board);
      if |cells| == 0 {
        return;
      }
      var move := cells[PickIndex(random, |cells|)];
      AvailableCellsExact(board);
      assert move in cells;
      HandleCellClick(move.row, move.col);
    }
  }
}
