# Tic-tac-toe game logic

A Dafny model of the game logic of a React tic-tac-toe page
(`my-app/src/index.tsx`): the win detector `calculateWinner`, the game
state (a history of board snapshots plus a cursor `stepNumber`), the two
transitions `handleClick` and `jumpTo`, and the status line.

- `wrappers.dfy` (module `Wrappers`): the `Option` datatype. A cell is
  `Option<Mark>`, matching `'O' | 'X' | null`.
- `win_detector.dfy` (module `WinDetector`): marks, boards of nine cells, the
  table of eight lines, the specification `Winner` (the mark of the first
  completed line in table order) and the loop `CalculateWinner`, which returns
  early and is proved equal to `Winner`. Lemmas characterise `Winner` in both
  directions: first completed line in table order, and no completed line.
- `game.dfy` (module `Game`): `Step`, `GameState`, the initial state, `Click`
  (the specification of a click), `HandleClick` (the method that copies the
  board into a fresh array, as `slice()` does, writes the mover's mark and
  builds the next state), and `JumpTo`. React's `setState` replaces the state
  value wholesale, so each transition returns the next state. `LegalHistory`
  is the history invariant: every step after the first arises from its
  predecessor by an accepted move. It holds initially and is kept by both
  transitions. From it follow three facts: turns alternate, step j has
  exactly j marks (so a history has at most ten steps), and all completed
  lines on a reachable board carry the same mark. The last fact means the
  scan order of the line table cannot change the winner reported.
- `status.dfy` (module `Status`): the status of the step on display, its
  text `"Winner: X|O"` / `"Next player: X|O"`, and play-throughs that fix
  the expected behaviour.

The code has no draw state: a full board with no winner keeps showing
"Next player" and every click on it is refused (`FullBoardRefusesClicks`).
The model keeps this.

## Model

| member | source | states |
|---|---|---|
| WinDetector.CalculateWinner | my-app/src/index.tsx:130-148 | the early-return scan over the eight lines returns exactly `Winner(squares)` |
| WinDetector.WinnerFromFirst | my-app/src/index.tsx:141-146 | the scan from table position k yields m iff some later line is completed by m and no line between k and it is completed |
| WinDetector.WinnerFromNone | my-app/src/index.tsx:141-147 | the scan from table position k yields null iff no line from k on is completed |
| WinDetector.WinnerIsFirstLine | my-app/src/index.tsx:131-145 | the winner is m iff the first completed line in table order is completed by m |
| WinDetector.WinnerSound | my-app/src/index.tsx:143-144 | a non-null winner m has a line whose three cells all hold m |
| WinDetector.WinnerNoneIff | my-app/src/index.tsx:141-147 | the result is null iff none of the eight lines holds one non-null mark in all three cells |
| WinDetector.EmptyBoardHasNoWinner | my-app/src/index.tsx:141-147 | the all-empty board has no winner |
| WinDetector.MoveCompletesOnlyMover | my-app/src/index.tsx:81-87 | a mark written into an empty cell of a board without a winner completes only lines through that cell, and only with that mark |
| Game.Click | my-app/src/index.tsx:80-96 | a refused click (winner present or cell occupied) leaves the state unchanged; an accepted one keeps entries 0..stepNumber, appends exactly one step, moves the cursor to stepNumber + 1 (the last index), writes the mover's mark into the previously empty cell i only, and flips the turn; the result is a valid state |
| Game.HandleClick | my-app/src/index.tsx:80-96 | the copy-and-assign implementation computes exactly `Click` |
| Game.FullBoardRefusesClicks | my-app/src/index.tsx:81-83 | on a full board every click is refused and the state is unchanged; there is no draw state |
| Game.JumpTo | my-app/src/index.tsx:98-103 | the history is unchanged and only the cursor is set to the given step; the result is a valid state |
| Game.JumpToCurrentIsIdentity | my-app/src/index.tsx:98-103 | jumping to the current step is the identity |
| Game.ClickAfterJumpDiscardsFuture | my-app/src/index.tsx:85-95 | an accepted click after jumping back to step k leaves the history's first k + 1 steps plus the new step, with the cursor at k + 1 |
| Game.InitialReachable | my-app/src/index.tsx:63-69 | the initial state (one empty board, X to move, cursor 0) is valid and its history legal |
| Game.ClickPreservesReachable | my-app/src/index.tsx:85-95 | a click keeps the history non-empty, the cursor in range and every step a legal move from its predecessor |
| Game.JumpToPreservesReachable | my-app/src/index.tsx:98-109 | a jump to an index the move list offers (below the history length) keeps the state reachable |
| Game.LegalTurnAlternates | my-app/src/index.tsx:87-92 | in a legal history X is to move exactly at even steps |
| Game.FilledAfterWrite | my-app/src/index.tsx:86-87 | writing a mark into an empty cell raises the number of occupied cells by one |
| Game.LegalFilledCount | my-app/src/index.tsx:85-92 | step j of a legal history has exactly j occupied cells |
| Game.LegalHistoryBounded | my-app/src/index.tsx:81-95 | a legal history has at most ten steps |
| Game.LegalBoardHasOneWinningMark | my-app/src/index.tsx:81-92 | on a board of a legal history all completed lines carry the same mark |
| Game.ReachableWinnerIsAnyCompletedLine | my-app/src/index.tsx:131-145 | on a reachable board any completed line, wherever it stands in the table, gives the reported winner |
| Game.TopRowGame | my-app/src/index.tsx:80-96 | X at 0, O at 3, X at 1, O at 4, X at 2 gives winner X with six steps, and every later click is refused |
| Status.DeriveStatus | my-app/src/index.tsx:71-78 | "Winner" reports the mark of the first completed line in table order (the value `calculateWinner` returns); "Next player" is reported iff no line is completed, and names the mark of the player to move |
| Status.StatusText | my-app/src/index.tsx:74-78 | the text begins with "Winner: " exactly for a win and with "Next player: " exactly otherwise, and ends with the letter X or O of the mark reported, with nothing in between (9 or 14 characters) |
| Status.StatusTextInjective | my-app/src/index.tsx:74-78 | different statuses are shown as different text |
| Status.ReachableNextPlayer | my-app/src/index.tsx:77 | in a reachable state without a winner, the next player is X exactly at even steps |
| Status.InitialStatus | my-app/src/index.tsx:63-78 | the initial state shows "Next player: X" |
| Status.JumpToStartGame | my-app/src/index.tsx:98-103 | after two moves, jumping to step 0 shows the empty board and "Next player: X" with the history kept, and a move from there leaves two steps |

## Left out

- The React components `Square` and `Board`, the JSX layout and the move-list buttons with their labels: presentation only. The move list offers only indices below the history length, and that is the precondition of `JumpTo`.
- `useState`/`setState` mechanics, the functional-update form used by `jumpTo`, re-render scheduling, `ReactDOM.render` and the CSS import: framework plumbing. A state update is modelled as returning the next state value.
- Out-of-range arguments: the code does not guard `i` in `handleClick` or `step` in `jumpTo`. The model requires `i < 9` (the `Index` type) and `step < |history|`.
- `calculateWinner` is typed over arbitrary strings; the model's boards hold only X, O or nothing, the values the component ever stores.
- In the code the winner is computed while rendering and `handleClick` reads it from that render. `HandleClick` computes it from the same current step, which gives the same value because events are handled one at a time.
