# Tic-tac-toe game controller

A model of the state controller inside the `Game` component of a browser
tic-tac-toe game (`src/index.tsx`). The controller keeps a `history` of board
snapshots, a pointer `move` to the snapshot on display and a turn flag
`xIsNext`. A click on a cell appends a new snapshot (cutting off any snapshots
after the one on display). A click on an entry of the move list jumps the
pointer back or forward without touching the history.

Layout:

- `wrappers.dfy` — `Option`, standing for a JavaScript `null`-able value.
- `interface.dfy` — `SquaresObject` (the cells plus the index of the cell
  played last) and `LocationXY`, the shapes of `src/interface.ts`. In the
  source a cell is a `string` of `string[]` that is `null`, `'X'` or `'O'`; the
  model narrows it to `Cell = Option<Mark>` with `Mark = X | O`, the only
  values the controller ever writes.
- `rules.dfy` — the rules a history obeys, written as specification functions
  and lemmas. `Count` (how many cells hold a given value) is the counting
  vocabulary of these lemmas; beside it come whose turn it is, what one move
  does (`IsMove`), and `ValidHistory` (the empty board followed by alternating
  legal moves).
- `index.dfy` — `createInitialSquaresObject`, `getLocationXY`, and `Game` as a
  class whose fields are the component's three pieces of state. Each React
  setter is a field assignment, made in the order the handler calls it.

`calculateWinner` is imported by `src/index.tsx` from a file that is not part of
this model. `Game` therefore receives it as a constructor argument, a
`const calculateWinner: seq<Cell> -> Option<Mark>`. Every property below holds
whatever that function returns.

The class invariant `Game.Valid` says that the history is valid, that
`history[0]` is the empty snapshot, that `move < |history|` and that
`xIsNext == (move % 2 == 0)`. The constructor establishes it and both handlers
preserve it. With `Rules.HistoryCounts`, this gives the promised counts: snapshot
`k` holds exactly `k` marks, and X's count minus O's count is `k % 2`.

The code has no range checks, so a cell index outside `[0, 8]` and a history
index outside the history are preconditions. `xIsNext` is stored as its own
piece of state; the model stores it too and proves that it always agrees with
the parity of `move`. The controller uses `calculateWinner`'s result only as
winner / no winner.

## Model

| member | source | states |
|---|---|---|
| `Index.CreateInitialSquaresObject` | src/index.tsx:28-30 | the initial snapshot has 9 cells, all empty (9 empty, no X, no O) and `squareIndex == -1`, and on its own it is a valid history |
| `Index.GetLocationXY` | src/index.tsx:135-142 | for a non-negative index, `x * 3 + y == index` with `0 <= y < 3` and `0 <= x`, so `(x, y)` are its unique row-major coordinates; for a cell of the board also `x < 3`; for a negative index (JavaScript floor and truncating `%`) `x < 0` and `-3 < y <= 0` |
| `Index.Game.constructor` | src/index.tsx:7-10 | a new game has history `[initial snapshot]`, `move == 0` and `xIsNext`, and satisfies the class invariant |
| `Index.Game.Current` | src/index.tsx:12 | the snapshot on display has 9 cells and exactly `move` marks, and X has one more mark than O exactly when it is O's turn (otherwise equally many) |
| `Index.Game.MoveLocation` | src/index.tsx:122-128 | the coordinates shown for history entry `k > 0` are on the board and name the cell that move `k` filled: that cell is empty in snapshot `k - 1`, holds the mark of turn `k - 1` in snapshot `k`, and equals `squareIndex` |
| `Index.Game.HandleClick` | src/index.tsx:32-43 | keeps the invariant; when the board on display has a winner or cell `i` is taken, history, `move` and `xIsNext` are unchanged; otherwise the new history is the old one cut back to `old(move)` followed by the displayed board with cell `i` set to X (if `xIsNext`) or O and `squareIndex == i`, `move` becomes `old(move) + 1`, the last index, and `xIsNext` flips |
| `Index.Game.HandleJumpHistoryClick` | src/index.tsx:45-48 | keeps the invariant; the history is unchanged, `move == step` and `xIsNext == (step % 2 == 0)`; jumping to 0 shows the empty board with X to move |
| `Rules.CountUpdate` | src/index.tsx:39 | writing one cell changes the count of any value by the cell's old value leaving and its new value arriving, and nothing else |
| `Rules.CountEmpty` | src/index.tsx:29 | a board of empty cells counts all its cells as empty and none as X or O |
| `Rules.MoveCounts` | src/index.tsx:37-40 | an accepted move makes one empty cell fewer, one more cell holding the mark played, and leaves the other mark's count alone |
| `Rules.HistoryCounts` | src/index.tsx:32-43 | in a valid history, snapshot `k` has 9 cells, `9 - k` of them empty, and X's count is O's count plus `k % 2` (so X leads by 0 or 1 and `k <= 9`) |
| `Rules.HistoryLength` | src/index.tsx:37-40 | a valid history holds at most 10 snapshots (a consequence of `HistoryCounts`, not something the controller relies on) |
| `Rules.HistoryPrefix` | src/index.tsx:33 | cutting a valid history back to a non-empty prefix keeps it valid, so `history[0]` survives every cut |
| `Rules.HistoryAppend` | src/index.tsx:39-40 | appending a move by the player whose turn it is to a valid history keeps it valid |

## Left out

- Rendering: `Board`, `renderBoardRows`, `renderSquare`, `Square`, `Info`,
  `renderStatus` and `renderMoves` (src/index.tsx:51-133) are presentational
  markup and display text. Only the coordinate shown beside each move is
  modelled (`MoveLocation`). The `winner` computed at src/index.tsx:13 only
  feeds the status text.
- Page bootstrapping and the CSS import (src/index.tsx:1-5, 147-148): page I/O.
- The body of `calculateWinner`: its file is not part of this model; it is a
  constructor argument of any function type.
- The move-order state and its toggle button (src/index.tsx:92, 97): the
  button has no handler and changes nothing.
- The prop interfaces carrying React handler types (src/interface.ts:1-19): UI wiring.
- React's asynchronous, batched state updates: each handler runs to completion
  on the current state, and its setters take effect in order.
- `Index.Game.HandleClick`: a cell index outside `[0, 8]` is excluded by a
  precondition. In JavaScript such a click would write outside the nine cells:
  it would grow the copied array for an integer `i >= 9`, or add a property
  that is not a cell for a negative or fractional `i`.
- `Index.Game.HandleJumpHistoryClick`: a step outside the history is excluded
  by a precondition. In JavaScript it would leave `move` pointing at no snapshot.
