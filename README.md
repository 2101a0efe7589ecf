# Tic-tac-toe: rules and move history

A Dafny model of the game logic of a two-player tic-tac-toe client (`src/app/tictactoe/page.tsx`):
the win detector that scans the eight winning lines, the move rule applied when a square is
clicked, the status line, the highlighting of the winning line, and the game state, which is a
history of board snapshots with a pointer to the one on display.

Two modules:

- `Rules` (`rules.dfy`). A square is `Empty | X | O`; `Empty` is the client's `null`, so the
  truthiness test on a square means "not `Empty`". A `Board` is a sequence of exactly nine squares.
  Every board the client builds has nine squares: the first is nine nulls, and each later one is a
  `slice()` copy of an earlier one. The eight lines are the constant `LINES`, in the client's order.
  The win detector is written twice:
  - `CalculateWinnerWithLine` is the client's early-return loop;
  - `FirstWin`/`WinnerWithLine` is a recursive reference definition.

  The loop is proved equal to the reference, and the reference is proved to return the first
  completed line in list order. `CalculateWinner` keeps only the mark (`None` for `null`).
  `GameStatus` is the status line. `IsWinningSquare` is the highlight test. `HandleClick` is the
  move rule: it copies the board into a fresh array, marks square `i` and returns the copy, or
  returns `None` when the click is ignored.
- `GameHistory` (`game.dfy`). The class `Game` holds the two state fields,
  `history: seq<Board>` and `currentMove: int`.
  - `HandlePlay` and `JumpTo` are the client's two state updates.
  - `Click` is `HandleClick` applied to `CurrentSquares()` and `XIsNext()`, followed by
    `HandlePlay` when the click is accepted. This is how `Game` wires `Board` together.
  - `Valid()` is the invariant `0 <= currentMove < |history|`.
  - `Alternating()` is a second invariant, kept by `Click` and `JumpTo`: snapshot `k` holds
    `(k + 1) / 2` crosses and `k / 2` noughts. `HandlePlay` does not keep it on its own, because it
    accepts any board.
  - The derived values are plain functions of the state: `XIsNext()` (move parity),
    `CurrentSquares()` (this keeps the client's fallback to an empty board), `WinningLine()` and
    `Status()`.

## Model

| member | source | states |
|---|---|---|
| `Rules.FirstWin` | src/app/tictactoe/page.tsx:186-210 | The result is None exactly when none of the lines from `k` on has three equal non-empty squares. Otherwise it carries one of those lines, which the board completes, with the mark in its squares, and no earlier line from `k` on is completed. |
| `Rules.CalculateWinnerWithLine` | src/app/tictactoe/page.tsx:186-210 | The loop over the eight lines, returning at the first completed one, gives exactly the reference result `WinnerWithLine`. |
| `Rules.WinnerSound` | src/app/tictactoe/page.tsx:198-206 | A reported win names one of the eight lines, its mark is X or O, and all three of the line's squares hold that mark. |
| `Rules.WinnerIsFirst` | src/app/tictactoe/page.tsx:187-209 | If line `j` is the first completed line in list order, the detector reports line `j` with its mark, whatever later lines are also completed. |
| `Rules.CalculateWinner` | src/app/tictactoe/page.tsx:181-184 | It is Some exactly when the line-reporting detector is Some, and then it is the same mark. It is Some exactly when some line is completed, and then the mark is non-empty and fills a completed line. |
| `Rules.WinningLineOf` | src/app/tictactoe/page.tsx:122-125 | The highlighted line exists exactly when there is a winner. It is one of the eight lines, the board completes it, and no earlier line in list order is completed: it is the line the detector reports. |
| `Rules.LineHighlightsThree` | src/app/tictactoe/page.tsx:64-66 | Each of the eight lines covers three different squares, so the highlight test on a winning line lights exactly three squares. |
| `Rules.HighlightedSquares` | src/app/tictactoe/page.tsx:64-66 | The specification of the highlight test `IsWinningSquare` applied to the detector's line: every highlighted square is on the board and holds the winner's mark, and some square is highlighted exactly when there is a winner. |
| `Rules.GameStatus` | src/app/tictactoe/page.tsx:53-62 | Priority order. The status is a winner exactly when `CalculateWinner` finds one, with that mark. It is a draw exactly when there is no winner and every square is marked, so a full winning board is never a draw. Otherwise the player to move is named. |
| `Rules.PlayerMark` | src/app/tictactoe/page.tsx:49 | The mover's mark is never empty, and it is X exactly when X is next (O otherwise). |
| `Rules.IsFull` | src/app/tictactoe/page.tsx:58 | Every square is non-null exactly when the board's count of empty squares is zero. |
| `Rules.Accepts` | src/app/tictactoe/page.tsx:41-45 | A click passes both guards exactly when the index is one of the nine squares, that square is empty, and none of the eight lines is completed. |
| `Rules.HandleClick` | src/app/tictactoe/page.tsx:40-51 | A click is ignored exactly when the index is outside the board, the board has a winner, or the square is taken. Otherwise the new board holds the mover's mark (X when `xIsNext`, else O) at `i` and equals the old board everywhere else. The old board is a value and is unchanged. |
| `Rules.GameOverIffNoMove` | src/app/tictactoe/page.tsx:40-62 | The status names a player to move exactly when some click on the board would be accepted. A winner or a draw means that every click is ignored. |
| `Rules.CountAfterMark` | src/app/tictactoe/page.tsx:48-49 | Marking an empty square with a mark adds one of that mark, removes one empty square, and leaves the other mark's count alone. |
| `Rules.CountsAddUp` | src/app/tictactoe/page.tsx:49 | Squares are only ever null, 'X' or 'O' (the only write is the mover's mark), so a board's X, O and empty counts add up to its size. |
| `Rules.CountZero` | src/app/tictactoe/page.tsx:58 | No square holds a given value exactly when that value's count is zero; this ties the draw test to the counts. |
| `GameHistory.Game.constructor` | src/app/tictactoe/page.tsx:115-116 | A new game has one empty board and shows it. Both invariants hold. |
| `GameHistory.Game.CurrentSquares` | src/app/tictactoe/page.tsx:120 | While `0 <= currentMove < \|history\|` holds, the displayed board is `history[currentMove]`: the empty-board fallback is never taken. |
| `GameHistory.Game.HandlePlay` | src/app/tictactoe/page.tsx:127-131 | The new history is the old `history[..currentMove + 1]` followed by the played board. Its length is the old `currentMove + 2`, the new current move is its last index, and the invariant is kept. |
| `GameHistory.Game.JumpTo` | src/app/tictactoe/page.tsx:133-135 | Only `currentMove` changes, to `nextMove`. Afterwards X is to move exactly when `nextMove` is even. Both invariants are kept. |
| `GameHistory.Game.Click` | src/app/tictactoe/page.tsx:40-51 | An ignored click changes nothing. An accepted one truncates the history after the displayed move and appends the displayed board with square `i` set to the mover's mark, then shows it. The alternating-counts invariant is kept. |
| `GameHistory.Game.XIsNext` | src/app/tictactoe/page.tsx:117 | X is next on even move numbers. In a game played click by click, that is exactly when the displayed board has as many crosses as noughts. |
| `GameHistory.Game.WinningLine` | src/app/tictactoe/page.tsx:118-125 | A line is highlighted on the displayed board exactly when the status names a winner. It is one of the eight lines, the displayed board completes it, and no earlier line in list order is completed, so it is the line the detector reports. Every highlighted square holds the winner's mark. |
| `GameHistory.Game.Status` | src/app/tictactoe/page.tsx:53-62 | The status of the displayed board names a player to move exactly when some click on that board would be played. The player named is X exactly on even move numbers. |
| `GameHistory.Game.HistoryBounded` | src/app/tictactoe/page.tsx:115-131 | In a game played click by click, snapshot `k` holds `k` marks, so the history never has more than ten snapshots. |

## Left out

- The rendering of `Square`, `Board` and `Game`: the markup, CSS classes, the `Card` and `Button` components, the `disabled` attribute, and the move-list labels ("Move #n", "Game start"). These are presentation only.
- The status text strings ("Winner: X", "Game ended in a draw!", "Next player: O"). The model gives the status as the datatype `Status`, which has the same three cases and the same marks.
- `useEffect` and `setWinningLine`. They are framework reactivity. The winning line is modelled as the value `WinningLine()`, derived from the displayed board.
- `console.log` for an out-of-range index. It is output only; the model treats that branch as "no change".
- Boards of a length other than nine. Every board the client builds has nine squares, so `Board` is a nine-square type and the length half of the history invariant holds by typing.
- Aliasing of boards. The client never mutates a board once it is in the history, so boards are modelled as values (`seq`). `HandleClick` keeps the copy-then-assign step on a local array.
- A bounds check in `jumpTo`. The client has none: it only calls `jumpTo` from the move list built by `history.map`, so every index it passes is an index of the history. The model states this as the `JumpTo` precondition `0 <= nextMove < |history|`.
