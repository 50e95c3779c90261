# Tic-tac-toe game core

A Dafny model of the game logic of a browser tic-tac-toe game
(`src/index.js`). The model has three parts:

- **Board** (`board.dfy`) covers the 3x3 board and `calculateWinner`.
  - A square is `Empty`, `X` or `O`, and a board is a sequence of nine squares.
  - `Evaluate` is the pure specification of `calculateWinner`. It checks the
    eight lines in the source's order: three rows, three columns, two diagonals.
    The first line whose three squares are equal and non-empty decides the
    winner. With no such line the board is a `Tie` when it is full and
    `NoResult` otherwise.
  - `CalculateWinner` is the source's two loops over an array, including the
    early `return` and the `tie` flag with `break`. It is proved equal to
    `Evaluate`.
- **GameState** (`game.dfy`) covers the `Game` component's state: `history`,
  `xIsNext` and `stepNumber`, as fields of a class.
  - `HandleClick` copies the current board into a fresh array. It rejects the
    click when a winner or tie exists or the square is taken. Otherwise it
    writes the mover's symbol into the copy, appends the copy and flips the turn.
  - `JumpTo(i)` keeps the snapshots whose index is below `i`, which is a prefix
    of length `i`. It sets `stepNumber` to `i`. It takes the turn from the
    parity of the *previous* `stepNumber`, exactly as the code does.
  - Two invariants describe the history:
    - Both transitions keep the history well formed: it starts with the empty
      board, each snapshot adds one move to the one before, and squares are
      never overwritten.
    - Play that uses only clicks keeps the turns alternating.
  - A lemma states exactly when a jump breaks the alternation. A scenario method
    plays an opening and a jump after which X moves twice in a row.
- **Display** (`display.dfy`) covers what `render` derives from the state.
  - The status line: `Winner: X`, `Winner: O`, `Draw` or `Next player: ...`.
  - The two lists of undo buttons: odd indices under X, even non-zero indices
    under O.
  - The button captions `Undo till Move <i>`, with the decimal text of `i`.

Four behaviours of the code that are easy to misread; the model keeps them:
- `jumpTo(i)` keeps the snapshots with index below `i`, so `i` snapshots
  remain and the board shown is the one before move `i` was played.
- After `jumpTo`, the turn comes from the old `stepNumber`, not from the
  length of the history that remains.
- `calculateWinner` returns only the winning symbol, not the squares of the
  winning line.
- `handleClick` returns nothing. An ignored click and an accepted click differ
  only in the new state.

Clicks and undo selections come in as method parameters. The model contains no
I/O.

## Model

| member | source | states |
|---|---|---|
| `Board.CalculateWinner` | src/index.js:162-194 | The loop-based winner computation over a nine-square array returns exactly `Evaluate` of the array's contents. |
| `Board.EvaluateFirstLine` | src/index.js:163-178 | When line `k` has three equal non-empty squares and no earlier line in the listed order does, the result is `Winner` of line `k`'s symbol. |
| `Board.EvaluateWinnerSound` | src/index.js:173-179 | A reported winner is the symbol of some line that wins, with no earlier line winning. |
| `Board.EvaluateFromSkips` | src/index.js:173-179 | Lines that do not win do not change the outcome decided by the later lines. |
| `Board.EvaluateNoLine` | src/index.js:181-193 | When no line wins, the result is `Tie` exactly when no square is empty, and `NoResult` exactly when some square is empty. |
| `Board.EvaluateNotWinner` | src/index.js:173-193 | A `Tie` or `NoResult` means that no line wins, and it is a `Tie` exactly when the board is full. |
| `Board.TopRowWinForX` | src/index.js:163-178 | The board X X X / O O _ / _ _ _ evaluates to a win for X. |
| `Board.FullBoardWithoutLineIsTie` | src/index.js:181-191 | The full board X O X / X O O / O X X, which has no line, evaluates to a tie. |
| `Board.CountUpdate` | src/index.js:62 | Writing one square changes the count of each symbol only by the value removed and the value written. |
| `Board.EmptyBoardCounts` | src/index.js:48 | The initial board `Array(9).fill(null)` holds no X and no O. |
| `GameState.Game.constructor` | src/index.js:46-52 | The initial state is one empty board, X to move, step 0. It is well formed and alternating. |
| `GameState.Game.HandleClick` | src/index.js:54-69 | A click on a board with a winner or tie, or on a taken square, changes nothing. Otherwise the history is the old history plus the current board with X (when `xIsNext`) or O at `i`, and `xIsNext` flips. `stepNumber` is untouched. Well-formedness is kept, and alternation is kept when it held. |
| `GameState.Game.JumpTo` | src/index.js:85-92 | The history becomes its prefix of length `min(i, length of history)` and stays non-empty for `i >= 1`. `stepNumber` becomes `i`. `xIsNext` becomes "old `stepNumber` is even", whatever `i` and the new length are. |
| `GameState.KeepBeforeIsPrefix` | src/index.js:88-89 | Filtering the history by `index < i` yields the prefix of length `i`, clamped to the history bounds. |
| `GameState.OneMoveFills` | src/index.js:57-66 | A snapshot that fills one empty square of the previous one has exactly one more filled square. |
| `GameState.FilledIsIndex` | src/index.js:46-68 | In a well-formed history, snapshot `k` has exactly `k` filled squares. In particular the current board has one filled square fewer than the history has snapshots. |
| `GameState.NeverOverwritten` | src/index.js:57-66 | A filled square keeps its symbol in every later snapshot. |
| `GameState.ClickKeepsWellFormed` | src/index.js:55-66 | Appending a copy of the current board with one empty square filled keeps the history well formed, with the earlier snapshots untouched. |
| `GameState.ClickKeepsAlternation` | src/index.js:62-67 | Suppose snapshot `k` holds (k+1)/2 X's and k/2 O's, and X moves exactly when the length is odd. Writing X iff `xIsNext` and flipping the turn keeps both facts. |
| `GameState.PlacedMark` | src/index.js:62-67 | With alternating turns, the square filled by move `k` holds X when `k` is odd and O when `k` is even. |
| `GameState.JumpAlternatesIff` | src/index.js:85-92 | After `jumpTo(i)`, the turns still alternate exactly when "old `stepNumber` is even" coincides with "`i` is odd". |
| `GameState.UndoRepeatsTurn` | src/index.js:85-92 | After X plays 0, O plays 4 and the user jumps to move 2, the board holds only X's move and X is to move again. |
| `Display.StatusDistinguishes` | src/index.js:120-129 | Equal status lines come from equal results. In an unfinished game they also come from the same player to move. |
| `Display.StatusOfFinishedGame` | src/index.js:120-129 | A winner's or draw's status line does not depend on `xIsNext` and differs from every `Next player` line. |
| `Display.DecimalRoundTrip` | src/index.js:101 | The decimal text of an index is a non-empty digit string that reads back as the same index. |
| `Display.UndoLabelInjective` | src/index.js:101 | Distinct indices get distinct `Undo till Move` captions. |
| `Display.MovesXMembers` | src/index.js:100-108 | The X list offers exactly the odd history indices. |
| `Display.MovesXIncreasing` | src/index.js:100-108 | The X list is in increasing order of index, as `history.map` visits them. |
| `Display.MovesOMembers` | src/index.js:110-118 | The O list offers exactly the even non-zero history indices. |
| `Display.MovesOIncreasing` | src/index.js:110-118 | The O list is in increasing order of index. |
| `Display.MovesPartition` | src/index.js:100-118 | Each index `1 <= i <` the history length is offered in exactly one of the two lists, and index 0 and out-of-range indices in neither. |

## Left out

- The `Square` and `Board` view components and the JSX layout of `Game.render` (src/index.js:6-42, 131-158) are presentation only. This includes the `<li>`/`Button` markup and the React `key` of each undo entry.
- `setBackground` (src/index.js:71-83) changes DOM styles through `document.getElementsByClassName`. It has no effect on the game state.
- The `ReactDOM.render` bootstrap and the stylesheet import (src/index.js:1-4, 198-201) are not part of the model.
- React's `setState` batching and asynchrony are not modelled. Each handler is one atomic update, and `JumpTo` computes every new field from the old state, as the object literal in the source does.
- `GameState.Game.HandleClick` takes the square as an `Index` (0 to 8). The `Board` component only ever calls `onClick` with 0 to 8 (src/index.js:30-38), so no other value reaches `handleClick`. Other values are not modelled. In JavaScript, an integer of 9 or more would lengthen the copied array, while a negative or non-integer index would only add a property and leave the length at 9.
- `GameState.Game.JumpTo` requires `i >= 1`. `jumpTo(0)` would empty the history, and `render` would then read a missing current board. The buttons offer only `1 <= i < |history|`, as `Display.MovesPartition` states.
- `stepNumber` is a JavaScript number. It is modelled as a `nat`, because only `jumpTo` sets it, from a history index.
