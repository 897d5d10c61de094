/**
 * The game state of the Game component: a history of board snapshots and a
 * cursor into it, with the two transitions the component offers, a click
 * on a cell (handleClick) and a jump to an earlier step (jumpTo). React
 * replaces the state value wholesale on every transition, so the state is a
 * value here and each transition returns the next one.
 */
module Game {
  import opened Wrappers
  import opened WinDetector

  /** One snapshot: the board and whether X moves next. */
  datatype Step = Step(squares: Board, xIsNext: bool)

  /** The history of snapshots and the index of the one on display. */
  datatype GameState = GameState(history: seq<Step>, stepNumber: nat)

  /** The first snapshot: the empty board with X to move. */
  const InitialStep: Step := Step(EmptyBoard, true)

  /** The state the component starts in. */
  const Initial: GameState := GameState([InitialStep], 0)

  /** The history is non-empty and the cursor indexes a recorded step. */
  predicate Valid(s: GameState) {
    |s.history| > 0 && s.stepNumber < |s.history|
  }

  /** The step on display. */
  function Current(s: GameState): Step
    requires Valid(s)
  {
    s.history[s.stepNumber]
  }

  /** The mark of the player whose turn it is in a step. */
  function Mover(step: Step): Mark {
    if step.xIsNext then X else O
  }

  /** A click on cell i is taken: nobody has won yet and the cell is empty. */
  predicate Accepts(step: Step, i: Index) {
    Winner(step.squares) == None && step.squares[i] == None
  }

  /** The step that follows a move on cell i: the mover's mark in cell i, turn passed on. */
  function Play(step: Step, i: Index): Step {
    Step(step.squares[i := Some(Mover(step))], !step.xIsNext)
  }

  /**
   * The state after a click on cell i: unchanged when the click is refused;
   * otherwise the future beyond the cursor is discarded, the new step is
   * appended and the cursor moves onto it.
   */
  function Click(s: GameState, i: Index): (r: GameState)
    requires Valid(s)
    ensures Valid(r)
    ensures !Accepts(Current(s), i) ==> r == s
    ensures Accepts(Current(s), i) ==>
      |r.history| == s.stepNumber + 2 && r.stepNumber == s.stepNumber + 1 == |r.history| - 1 &&
      r.history[..s.stepNumber + 1] == s.history[..s.stepNumber + 1] &&
      Current(s).squares[i] == None &&
      Current(r).squares[i] == Some(Mover(Current(s))) &&
      (forall k :: 0 <= k < 9 && k != i ==> Current(r).squares[k] == Current(s).squares[k]) &&
      Current(r).xIsNext == !Current(s).xIsNext
  {
    var current := Current(s);
    if !Accepts(current, i) then s
    else
      var history := s.history[..s.stepNumber + 1];
      GameState(history + [Play(current, i)], |history|)
  }

  /**
   * handleClick: checks for a winner and an occupied cell, copies the
   * board, writes the mover's mark into the copy and builds the next state.
   */
  method HandleClick(s: GameState, i: Index) returns (next: GameState)
    requires Valid(s)
    ensures next == Click(s, i)
  {
    var current := s.history[s.stepNumber];
    var winner := CalculateWinner(current.squares);
    if winner.Some? || current.squares[i].Some? {
      return s;
    }
    var history := s.history[..s.stepNumber + 1];
    var squares := new Cell[9](k requires 0 <= k < 9 => current.squares[k]);
    squares[i] := if current.xIsNext then Some(X) else Some(O);
    assert squares[..] == current.squares[i := Some(Mover(current))];
    next := GameState(history + [Step(squares[..], !current.xIsNext)], |history|);
  }

  /** jumpTo: keeps the history and moves the cursor to the given step. */
  function JumpTo(s: GameState, step: nat): (r: GameState)
    requires step < |s.history|
    ensures Valid(r) && r.history == s.history && r.stepNumber == step
    ensures Current(r) == s.history[step]
  {
    s.(stepNumber := step)
  }

  /** Jumping to the step on display changes nothing. */
  lemma JumpToCurrentIsIdentity(s: GameState)
    requires Valid(s)
    ensures JumpTo(s, s.stepNumber) == s
  {
  }

  /** A click made after jumping back to step k leaves a history of k + 2 steps. */
  lemma ClickAfterJumpDiscardsFuture(s: GameState, k: nat, i: Index)
    requires k < |s.history| && Accepts(s.history[k], i)
    ensures Click(JumpTo(s, k), i).history == s.history[..k + 1] + [Play(s.history[k], i)]
    ensures Click(JumpTo(s, k), i).stepNumber == k + 1
  {
  }

  // ----- Histories produced by play -----

  /** next arises from prev by an accepted move. */
  ghost predicate Follows(prev: Step, next: Step) {
    exists i: Index :: Accepts(prev, i) && next == Play(prev, i)
  }

  /**
   * A history as the game builds it: it starts from the initial step, and
   * each later step differs from its predecessor in one cell, empty before
   * and now holding the mark of the player whose turn it was.
   */
  ghost predicate LegalHistory(h: seq<Step>) {
    |h| > 0 && h[0] == InitialStep && forall j :: 0 < j < |h| ==> Follows(h[j - 1], h[j])
  }

  /** A state the game can be in. */
  ghost predicate Reachable(s: GameState) {
    Valid(s) && LegalHistory(s.history)
  }

  lemma InitialReachable()
    ensures Reachable(Initial)
  {
  }

  /** A click keeps the state reachable. */
  lemma ClickPreservesReachable(s: GameState, i: Index)
    requires Reachable(s)
    ensures Reachable(Click(s, i))
  {
    var r := Click(s, i);
    if Accepts(Current(s), i) {
      forall j | 0 < j < |r.history|
        ensures Follows(r.history[j - 1], r.history[j])
      {
        if j <= s.stepNumber {
          assert Follows(s.history[j - 1], s.history[j]);
        } else {
          assert r.history[j] == Play(Current(s), i);
        }
      }
    }
  }

  /**
   * A full board with no winner is never declared a draw: every click on it
   * is refused and the state stays as it is.
   */
  lemma FullBoardRefusesClicks(s: GameState, i: Index)
    requires Valid(s) && forall k :: 0 <= k < 9 ==> Current(s).squares[k].Some?
    ensures Click(s, i) == s
  {
  }

  /** A jump to a recorded step keeps the state reachable. */
  lemma JumpToPreservesReachable(s: GameState, step: nat)
    requires Reachable(s) && step < |s.history|
    ensures Reachable(JumpTo(s, step))
  {
  }

  /** In a legal history X moves at the even steps and O at the odd ones. */
  lemma {:induction false} LegalTurnAlternates(h: seq<Step>, j: nat)
    requires LegalHistory(h) && j < |h|
    ensures h[j].xIsNext == (j % 2 == 0)
  {
    if j > 0 {
      LegalTurnAlternates(h, j - 1);
      assert Follows(h[j - 1], h[j]);
    }
  }

  /** The number of occupied cells of a board segment. */
  function Filled(cells: seq<Cell>): (n: nat)
    ensures n <= |cells|
  {
    if cells == [] then 0 else (if cells[0].Some? then 1 else 0) + Filled(cells[1..])
  }

  /** Writing a mark into an empty cell raises the count of occupied cells by one. */
  lemma {:induction false} FilledAfterWrite(cells: seq<Cell>, i: nat, m: Mark)
    requires i < |cells| && cells[i] == None
    ensures Filled(cells[i := Some(m)]) == Filled(cells) + 1
  {
    if i > 0 {
      FilledAfterWrite(cells[1..], i - 1, m);
      assert cells[i := Some(m)][1..] == cells[1..][i - 1 := Some(m)];
    }
  }

  /** Step j of a legal history has exactly j occupied cells. */
  lemma {:induction false} LegalFilledCount(h: seq<Step>, j: nat)
    requires LegalHistory(h) && j < |h|
    ensures Filled(h[j].squares) == j
  {
    if j == 0 {
      assert Filled(EmptyBoard) == 0;
    } else {
      LegalFilledCount(h, j - 1);
      assert Follows(h[j - 1], h[j]);
      var i: Index :| Accepts(h[j - 1], i) && h[j] == Play(h[j - 1], i);
      FilledAfterWrite(h[j - 1].squares, i, Mover(h[j - 1]));
    }
  }

  /** A legal history never grows beyond ten steps: the empty board and nine moves. */
  lemma LegalHistoryBounded(h: seq<Step>)
    requires LegalHistory(h)
    ensures |h| <= 10
  {
    LegalFilledCount(h, |h| - 1);
  }

  /**
   * On every board of a legal history all completed lines carry the same
   * mark, so the order in which the lines are scanned cannot change the
   * winner reported.
   */
  lemma LegalBoardHasOneWinningMark(h: seq<Step>, j: nat, k1: nat, k2: nat, m1: Mark, m2: Mark)
    requires LegalHistory(h) && j < |h| && k1 < |Lines| && k2 < |Lines|
    requires Completes(h[j].squares, Lines[k1], m1) && Completes(h[j].squares, Lines[k2], m2)
    ensures m1 == m2
  {
    if j > 0 {
      assert Follows(h[j - 1], h[j]);
      var i: Index :| Accepts(h[j - 1], i) && h[j] == Play(h[j - 1], i);
      var m := Mover(h[j - 1]);
      MoveCompletesOnlyMover(h[j - 1].squares, i, m, k1);
      MoveCompletesOnlyMover(h[j - 1].squares, i, m, k2);
    }
  }

  /** In a reachable state the winner is the mark of any completed line, whatever its place in the table. */
  lemma ReachableWinnerIsAnyCompletedLine(s: GameState, k: nat, m: Mark)
    requires Reachable(s) && k < |Lines| && Completes(Current(s).squares, Lines[k], m)
    ensures Winner(Current(s).squares) == Some(m)
  {
    var b := Current(s).squares;
    WinnerNoneIff(b);
    assert Completed(b, Lines[k]);
    var w := Winner(b).value;
    WinnerSound(b, w);
    var k' :| 0 <= k' < |Lines| && Completes(b, Lines[k'], w);
    LegalBoardHasOneWinningMark(s.history, s.stepNumber, k, k', m, w);
  }

  // ----- The play-throughs that describe the component's behaviour -----

  /** X at 0, O at 3, X at 1, O at 4, X at 2 completes the top row for X; later clicks are refused. */
  lemma TopRowGame(i: Index)
    ensures var s := Click(Click(Click(Click(Click(Initial, 0), 3), 1), 4), 2);
      Winner(Current(s).squares) == Some(X) && |s.history| == 6 && Click(s, i) == s
  {
    var s := Click(Click(Click(Click(Click(Initial, 0), 3), 1), 4), 2);
    assert Current(s).squares == [Some(X), Some(X), Some(X), Some(O), Some(O), None, None, None, None];
    assert Completed(Current(s).squares, Lines[0]);
  }
}
