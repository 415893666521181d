# Tic-tac-toe against a random computer: turn resolution

This project models the game logic of the single React component `App`
(`src/App.tsx`) and proves properties of it. The player is `X`, the computer
is `O`. The component holds two pieces of state: the nine-cell `grid` and the
result `winner`. The result is `null` while playing, `X` or `O` once that mark
has won, and `undefined` for a draw. A click on an empty cell resolves a whole
turn:

1. place `X`;
2. scan the eight win lines in table order, and stop at the first complete one;
3. otherwise declare a draw if the board is full;
4. otherwise let the computer put `O` on a randomly sampled empty cell and scan
   the lines again.

There is no draw check after the computer's move.

The model has three modules:

- `Rules` (`rules.dfy`) holds the rules as values.
  - `Cell` is `Empty | X | O`, and `Outcome` is `InProgress | PlayerWins | ComputerWins | Draw`.
  - `WinLines` is the table, in the source's order.
  - `GetWinner` classifies one triple, and `ScanFrom`/`FirstWinner` is the early-exit scan.
  - `Turn` is the click handler as a function.
  - `CellsDisabled` and `RestartDisabled` are the view's two guards.
  - `Press` is a click as the view delivers it.
- `Play` (`play.dfy`) holds what is true in real play, that is, from the empty board with the cell guard in front of the handler.
  - The counts of the two marks stay balanced, and a game in progress has no complete line.
  - Every result names the side that has just moved.
  - The board is never full while the game is in progress. So the draw check missing after the computer's move can never fire.
- `App` (`app.dfy`) is the component in its imperative form.
  - Class `Game` has the array `grid` and the field `winner`.
  - `Restart` allocates a new empty grid, as `Array(9).fill(null)` does.
  - `ClickHandler` follows the handler step by step. Its two `for` loops over the table are the method `ScanWinLines`.
  - `PressCell` is the cell button: its `disabled` guard, then the handler.
  - Each method is proved against the functions in `Rules`.

Randomness: `Math.random` and the rejection-sampling loop (lines 93-97) become a
parameter `pick`, the cell the loop settles on. The predicate `PickOk` states the
loop's postcondition: whenever the computer moves, `pick` is empty after `X` was
placed. `PickExists` shows that such a cell always exists, so the loop always has
a target.

Four facts about `src/App.tsx` shape the model:

- The table order is interleaved: `[0,1,2]`, `[0,3,6]`, `[0,4,8]`, `[2,4,6]`, `[2,5,8]`, `[1,4,7]`, `[3,4,5]`, `[6,7,8]`.
- The handler never reads `winner`. The game-over guard sits on the cell buttons (line 131), so `ClickHandler`/`Turn` ignore the result and `PressCell`/`Press` add the guard.
- Each scan accepts a complete line of either mark, the first one in table order. `WinnerIsTheMover` proves that in real play the line found is always the mover's.
- There is no draw check after the computer's move. `ComputerNeverFillsBoard` proves it unreachable in real play: the computer never takes the last empty cell.

## Model

| member | source | states |
|---|---|---|
| `Rules.WinLinesAreGridLines` | src/App.tsx:15-24 | the table has eight distinct entries, and a line is in it exactly when it is one of the three rows, three columns or two diagonals of the 3x3 grid |
| `Rules.GetWinner` | src/App.tsx:42-47 | the result is `X` iff all three cells are `X`, `O` iff all three are `O`, and `Empty` (null) iff the triple is mixed or has an empty cell |
| `Rules.ScanFrom` | src/App.tsx:74-85 | the scan from entry n returns `Empty` iff no later line is uniform; otherwise it returns the mark of a uniform line, and every line before that one is not uniform (first match in table order) |
| `Rules.FirstWinnerMeaning` | src/App.tsx:105-116 | a full scan reports a winner exactly when some line holds three equal marks, and the mark it reports is that of a complete line |
| `Rules.OutcomeOf` | src/App.tsx:81-83 | a scanned `X` sets the player's win and a scanned `O` the computer's win |
| `Rules.PickExists` | src/App.tsx:93-97 | for every board and click there is a cell satisfying the sampling loop's postcondition, so the loop always has a target |
| `Rules.Turn` | src/App.tsx:62-120 | the board stays 9 cells; a click on an occupied cell changes nothing; otherwise the clicked cell holds `X`; no occupied cell changes; any other changed cell is the computer's pick, was empty and now holds `O` |
| `Rules.TurnCases` | src/App.tsx:74-118 | if any line is complete after `X` is placed, the result is the mark of a complete line (the first in table order) and no `O` is placed; a full board with no line is a draw with no `O` placed; otherwise `O` lands on a cell empty after the player's move, and the result changes only to the mark of a complete line, with no draw check |
| `Rules.CellsDisabled` | src/App.tsx:131 | the guard `winner !== null` or `winner === undefined` holds exactly when the result is not in progress |
| `Rules.RestartDisabled` | src/App.tsx:143 | the restart button is disabled exactly on the empty board |
| `Rules.Press` | src/App.tsx:126-131 | once the result is not in progress, a click changes neither board nor result; while the game is in progress, a click is exactly one `Turn` |
| `Play.EmptyBoardConsistent` | src/App.tsx:12-13 | the initial state (empty grid, `null` result) satisfies the play invariant: marks balanced, no complete line |
| `Play.PressPreservesConsistency` | src/App.tsx:62-131 | every click the view lets through keeps `#O <= #X <= #O + 1`; while in progress it keeps `#X == #O` with no complete line |
| `Play.InProgressNotFull` | src/App.tsx:87-118 | in real play a game in progress always has an empty cell, so the board never freezes full without a result |
| `Play.ComputerNeverFillsBoard` | src/App.tsx:99-118 | in real play the board is never full after the computer's move, so the draw check missing there is unreachable |
| `Play.WinnerIsTheMover` | src/App.tsx:74-116 | in real play the player wins iff `X` completes a line (board differs only at the clicked cell); a draw iff the player's mark fills the board without a line; the computer wins iff it moves and `O` completes a line |
| `Play.FirstMoveInCentre` | src/App.tsx:62-120 | first click in the centre of the empty board: `X` at 4, game in progress, exactly one `X` and one `O` |
| `Play.TopRowWins` | src/App.tsx:74-85 | completing the top row wins at once, and no `O` is placed |
| `Play.LastCellDraws` | src/App.tsx:87-91 | filling the last cell without a line is a draw, and no `O` is placed |
| `Play.EarlierLineDecides` | src/App.tsx:74-85 | on a board not reachable in play, where `O` already holds the top row, completing an `X` line reports the computer's win: the first complete line in table order decides |
| `App.ScanWinLines` | src/App.tsx:74-85 | the loop returns exactly the first-match scan: `Empty` iff no line of either mark is complete, otherwise the mark of a complete line |
| `App.Game.constructor` | src/App.tsx:12-13 | a fresh 9-cell grid, all empty, with the result in progress |
| `App.Game.Restart` | src/App.tsx:26-29 | whatever the prior state: a fresh grid of 9 empty cells, the result in progress, and the play invariant re-established |
| `App.Game.ClickHandler` | src/App.tsx:62-120 | the new grid and result are exactly `Turn` of the old ones; the grid array is the same object |
| `App.Game.PressCell` | src/App.tsx:126-131 | the new state is `Press` of the old one (no change once the game is over); the play invariant is preserved |
| `App.RestartMidGame` | src/App.tsx:26-29 | a client game: after a first click in the centre, a restart leaves the empty grid and the result in progress |

## Left out

- Rendering is left out: the JSX markup, Tailwind classes and the `react-icons` icons (`renderIcon`, lines 31-40; markup, lines 122-150). It is presentation only.
- `renderWinner` (lines 49-60) is left out. It maps the result to localized text and makes no decision.
- `Math.random` and the rejection-sampling loop (lines 93-97) are replaced by the supplied cell `pick`, constrained by `PickOk`. The model does not capture the uniform distribution, nor the loop's probabilistic termination.
- React's `useState` updater and batching semantics are left out. That includes `setWinner` being called inside the `setGrid` updater, and the `currValue` captured by the render closure. The grid and the result are one object updated atomically per turn. The occupancy check reads the current grid.
- `ClickHandler` updates the grid array in place. The source builds new arrays with `map`.
- `Rules.GetWinner` takes exactly three cells. The source's variadic `getWinner(...values)` is only ever called with three, so `every` on an empty argument list does not arise.
