# N×N tic-tac-toe game engine in Dafny

This project models the game-state engine of an N×N tic-tac-toe app whose
React components wrap it. The engine has three parts:

- **Win detection.** `checkWinner(board, player, size)` scans every row,
  then every column, then the main diagonal, then the anti-diagonal. It
  returns the first line that is entirely `player`, as an ordered list of
  `[row, col]` pairs, or `{ won: false, cells: [] }`.
- **Empty-cell enumeration.** `getAvailableCells(board)` lists the empty
  cells in row-major order.
- **The component state.** This is the board, `currentPlayer`, `winner`,
  `winningCells`, the computer-turn flag (`computerTurnRef.current`), the
  play mode and the board size. The operations on it are `generateBoard`,
  `handleCellClick`, `computerMove`, the size handler and the play-mode
  checkbox.

Files:

- `types.dfy` (module `Types`): players, cells, boards, coordinates.
- `winner.dfy` (module `Winner`): `checkWinner` of src/utils/utils.ts (not the winner banner). It is a pure scan, so it is
  written as functions. Beside it is an independent reference: the first
  full line in the list of all lines of the board.
- `available.dfy` (module `Available`): `getAvailableCells`. It is a method
  with nested loops that pushes onto a list, proved equal to a row-major
  specification function. The module also has cell counts.
- `game.dfy` (module `TicTacToe`): the size clamps, the board rewrite done by
  a click, the random pick, and the class `Game`. `Game` holds the component
  state; its methods update the fields in place.

The source has four copies of the engine:

- `src/components/TickTacToe.tsx` is the current one.
- `src/components/TickTacToe.js` and `src/TickTacToeCompPlay.js` add the
  computer player.
- `src/TickTacToe.js` is two-player only.

One model covers all four. `TicTacToe.Variant` names the copy, and it
matters in two places:

- Only the TypeScript component caps the size at `MAX_SIZE` = 8.
- The two-player copy has no computer player. In the model its play mode and
  flag stay off, and `ComputerMove` and `SetPlayMode` require a variant that
  has a computer.

`Game.Valid()` is the invariant every operation keeps, except the shared `GenerateBoard` step:

- The board is `size` × `size`, and `size` is at least 3. In the TypeScript
  variant it is also at most 8.
- X has as many marks as O, or one more.
- With no winner, `currentPlayer` is the player the marks say is next, and
  neither player has a full line. So a win is never missed.
- With a winner, `currentPlayer` is the winner. `winningCells` is the line
  `checkWinner` reports for the winner on the current board.

These board-level facts are the predicate `TicTacToe.Consistent`, so they can
be proved about values and then used by the class's methods.

Some behaviours a reader might expect are not in the code, and the model
does not add them. They are listed under "## Left out".

## Model

| member | source | states |
|---|---|---|
| `Winner.CheckWinner` | src/utils/utils.ts:3-28 | A reported win names cells that all hold `player`. When there is no win, the cell list is empty. Defined for any board with at least `size` rows: the source reads `board[row]` for each row below `size` until one is full, and throws on a missing row. Every caller passes a square board. |
| `Winner.FirstFullRow` | src/utils/utils.ts:4-8 | The row loop finds the lowest full row at or after `from`. If there is none, no row in `[from, size)` is full. |
| `Winner.FirstFullColumn` | src/utils/utils.ts:10-14 | The column loop finds the lowest full column at or after `from`. If there is none, no column in `[from, size)` is full. |
| `Winner.RowWins` | src/utils/utils.ts:4-8 | If row k is the lowest full row, the result is a win with cells `[(k,0),…,(k,size-1)]`, whatever the columns and diagonals hold. |
| `Winner.ColumnWins` | src/utils/utils.ts:10-14 | If no row is full and column k is the lowest full column, the result is a win with cells `[(0,k),…,(size-1,k)]`. |
| `Winner.MainDiagonalWins` | src/utils/utils.ts:16-18 | If no row or column is full and the main diagonal is, the result is a win with cells `[(i,i)]`. |
| `Winner.AntiDiagonalWins` | src/utils/utils.ts:20-25 | If nothing earlier matched and the anti-diagonal is full, the result is a win with cells `[(i,size-1-i)]`. |
| `Winner.NobodyWins` | src/utils/utils.ts:27 | If no row, column or diagonal is full, the result is `{won: false, cells: []}`. |
| `Winner.FirstFullIndex` | src/utils/utils.ts:3-27 | Reference definition, written independently of the scan: the position of the first line in a list of lines whose cells all hold `player`. Every earlier line is not full. If the position is the list's length, no line of the list is full. |
| `Winner.FullLinesAgree` | src/utils/utils.ts:4-25 | On a square board, each of the scan's four tests (a row, a column, the main diagonal, the anti-diagonal) holds exactly when every coordinate of that line's cell list holds `player`. |
| `Winner.CheckWinnerIsFirstFullLine` | src/utils/utils.ts:3-27 | On a square board, `checkWinner` equals the first full line in the order rows, columns, main diagonal, anti-diagonal. |
| `Winner.CheckWinnerComplete` | src/utils/utils.ts:3-27 | On a square board, `won` holds exactly when some row, column or diagonal is entirely `player`. |
| `Winner.LinesWellFormed` | src/utils/utils.ts:6-23 | Each coordinate list the scan can report has `size` distinct coordinates inside the board. |
| `Winner.WinningCellsWellFormed` | src/utils/utils.ts:3-25 | A reported winning line has exactly `size` distinct in-range coordinates, and each names a cell holding `player`. |
| `Available.GetAvailableCells` | src/utils/utils.ts:30-38 | The nested push loops produce exactly the row-major list of empty cells. |
| `Available.AvailableCellsExact` | src/utils/utils.ts:30-38 | A coordinate is listed if and only if it names an empty cell of the board. So every empty cell is listed, and no occupied or off-board one. |
| `Available.AvailableCellsRowMajor` | src/utils/utils.ts:32-36 | The list is strictly increasing in row-major order. So no coordinate is listed twice. |
| `Available.AvailableCellsLength` | src/utils/utils.ts:30-37 | The list has one entry per empty cell. |
| `Available.AvailablePlusOccupied` | src/utils/utils.ts:30-37 | On a size×size board, the list's length plus the number of X and O marks is size×size. |
| `Types.Other` | src/components/TickTacToe.tsx:44 | The next player is always the other mark. |
| `TicTacToe.ClampSize` | src/components/TickTacToe.tsx:80-84 | The TypeScript size handler always gives a size in [3, 8]. A size already in range is kept. Larger sizes become 8. Unparsable, 0 or smaller input becomes 3. |
| `TicTacToe.ClampSizeFromBelow` | src/components/TickTacToe.js:78-82 | The JavaScript size handlers give at least 3 with no upper bound. Input of 3 or more is kept. Unparsable, 0 or smaller input becomes 3. |
| `TicTacToe.EmptyBoard` | src/components/TickTacToe.tsx:24 | `generateBoard` builds an n×n board whose every cell is empty. |
| `TicTacToe.EmptyBoardFacts` | src/components/TickTacToe.tsx:23-29 | A fresh board has no marks, n×n available cells, and no full line for either player. |
| `TicTacToe.Place` | src/components/TickTacToe.tsx:34-36 | The click's board rewrite keeps the board's shape and sets cell (row, col) to the player. Every other cell is unchanged. |
| `TicTacToe.PlaceCounts` | src/components/TickTacToe.tsx:34-37 | Marking an empty cell adds one mark for the mover, removes one empty cell, and leaves the other player's count alone. |
| `TicTacToe.PlaceKeepsOtherLines` | src/components/TickTacToe.tsx:34-45 | A mark for one player cannot complete a line for the other. So checking only the mover, as the click does, misses no win. |
| `TicTacToe.FreshGameConsistent` | src/components/TickTacToe.tsx:23-29 | A freshly generated n×n game (X to move, no winner, no winning cells) is consistent: balanced marks and no full line for either player. |
| `TicTacToe.MoveKeepsConsistent` | src/components/TickTacToe.tsx:31-51 | Marking an empty cell for the player to move keeps the position consistent. If `checkWinner` reports a win, the mover becomes the winner with that line. If not, the turn passes and no line is full for either player. |
| `TicTacToe.PickIndex` | src/TickTacToeCompPlay.js:71 | `Math.floor(Math.random() * count)` is an index in [0, count) for any random number in [0, 1). |
| `TicTacToe.PickIndexReachable` | src/TickTacToeCompPlay.js:71 | Every index in [0, count) is picked for some random number in [0, 1), namely i / count. |
| `TicTacToe.Game.constructor` | src/components/TickTacToe.tsx:15-21 | Initial state: size 3, an empty 3×3 board, X to move, no winner, no winning cells, flag cleared. Computer mode is on in the copies that have a computer. |
| `TicTacToe.Game.GenerateBoard` | src/components/TickTacToe.tsx:23-29 | The board becomes an all-empty n×n board. Winner and winning cells are cleared, X is to move and the computer flag is cleared. Size and play mode are untouched. |
| `TicTacToe.Game.Reset` | src/components/TickTacToe.tsx:72-74 | Restarts a game of the same size and keeps the invariant. |
| `TicTacToe.Game.ChangeSize` | src/components/TickTacToe.tsx:80-84 | Stores the clamped size (capped at 8 only in the TypeScript variant) and starts a fresh game of that size. |
| `TicTacToe.Game.SetPlayMode` | src/components/TickTacToe.tsx:76-78 | Sets the play mode and changes nothing else. |
| `TicTacToe.Game.HandleCellClick` | src/components/TickTacToe.tsx:31-51 | After a win or on an occupied cell, nothing changes. Otherwise exactly cell (row, col) gets `currentPlayer`. If that completes a line, the winner and the reported line are recorded and the player stays. If not, the player flips X↔O, including on a full board, and the flag is raised only in computer mode with O next. The invariant is kept. |
| `TicTacToe.Game.ComputerMove` | src/components/TickTacToe.tsx:53-61 | After a win or with no empty cell, nothing changes. Otherwise the available cell at the picked index was empty and gets the current player's mark. The move is then a win (player kept, the reported line recorded) or a flip (no winning cells). As for a click, the flag is raised exactly when there is no winner, computer mode is on and O is next; otherwise it keeps its old value. |

The other copies carry the same code, so the same members model them:

- `checkWinner` is at src/TickTacToeCompPlay.js:22-51 and src/TickTacToe.js:37-68. In src/TickTacToe.js the unused `winLine` at line 38 has no counterpart.
- `getAvailableCells` is at src/TickTacToeCompPlay.js:54-62.
- `computerMove` is at src/components/TickTacToe.js:22-30 and src/TickTacToeCompPlay.js:65-73.
- `handleCellClick` is at src/components/TickTacToe.js:32-52, src/TickTacToeCompPlay.js:76-97 and src/TickTacToe.js:19-34. The last copy has no flag.
- `generateBoard` is at src/components/TickTacToe.js:14-20, src/TickTacToeCompPlay.js:13-19 and src/TickTacToe.js:11-16.
- The lower-bound-only size handlers are at src/TickTacToeCompPlay.js:125-129 and src/TickTacToe.js:75-79.

## Left out

- There is no draw state. `handleCellClick` never checks for a full board, so a full board without a line just passes the turn. `computerMove`'s empty-list check only makes it a no-op. The model does the same.
- Only the TypeScript component clamps the size from above. The three JavaScript copies keep any size of 3 or more.
- `computerMove` does not check that O is to move. Only the effect that schedules it checks that, and that effect is not modelled.
- `TicTacToe.Game.HandleCellClick` requires `0 <= row < size` and `0 <= col < size`. The code does not check either bound. An off-board `row` makes `board[row][col]` throw a TypeError (src/components/TickTacToe.tsx:32). An off-board `col` in a valid row reads `undefined`, which is falsy, so the click is accepted: the `map` leaves the board unchanged and the turn passes (src/components/TickTacToe.tsx:34-45). That breaks the marks-to-turn invariant. The rendered board only produces in-range clicks, so the model leaves both cases out.
- `TicTacToe.Game.ChangeSize` treats the JavaScript copies' size as an unbounded integer. In the source, `Math.max(3, parseInt(v) || 3)` keeps sizes of 2^32 or more, and `Infinity` for a very long digit string. The handler stores that size with `setSize` and then calls `generateBoard`, where `Array(newSize)` throws a RangeError (src/components/TickTacToe.js:79-81 and :15, src/TickTacToeCompPlay.js:126-128 and :14, src/TickTacToe.js:76-78 and :12). The stored size then no longer matches the board. The model does not capture that throw: for every such input it promises `Valid()` and a fresh board of the clamped size.
- JSX rendering, styles and the presentation components (action block, board, cell, winner banner, button): they are UI only.
- The `useEffect` that reads the computer flag and the 500 ms `setTimeout` that calls `computerMove` and then clears the flag: this is event and timer scheduling. `ComputerMove` is an explicitly called method, and stale closures are not modelled.
- `Math.random`: it becomes the parameter `random` in [0, 1). The index is floor(random·count) over the reals. The source rounds the double product first, so for a few values of `random` just below a multiple of 1/count it picks the next index. Both indices are in [0, count), and every index can be reached (`TicTacToe.PickIndexReachable`). Uniformity is a probabilistic property and is not stated.
- `parseInt`: the size handlers take an `Option<int>`. `None` stands for input that does not parse (NaN).
- Row aliasing from `Array(n).fill(Array(n).fill(''))`: every update rebuilds rows with `map`, so the sharing cannot be observed. Rows are values.
- React's batching of `setState` calls: each operation updates the fields in the order the source calls the setters. The state is read as it was when the event started.
