/**
 * Win detection: the eight fixed lines of the 3x3 board and the scan that
 * reports the mark of the first line whose three cells hold one mark
 * (calculateWinner in my-app/src/index.tsx).
 */
module WinDetector {
  import opened Wrappers

  /** The two marks a player can put on the board. */
  datatype Mark = X | O

  /** A cell is empty (None) or holds a mark; the source's SquareState 'O' | 'X' | null. */
  type Cell = Option<Mark>

  /** A board: nine cells in row-major order. */
  type Board = s: seq<Cell> | |s| == 9 witness [None, None, None, None, None, None, None, None, None]

  /** A cell position on the board. */
  type Index = k: nat | k < 9

  /** A winning line: three cell positions. */
  datatype Line = Line(a: Index, b: Index, c: Index)

  /** The board with every cell empty. */
  const EmptyBoard: Board := [None, None, None, None, None, None, None, None, None]

  /** The three rows, the three columns and the two diagonals, in the order they are scanned. */
  const Lines: seq<Line> := [
    Line(0, 1, 2),
    Line(3, 4, 5),
    Line(6, 7, 8),
    Line(0, 3, 6),
    Line(1, 4, 7),
    Line(2, 5, 8),
    Line(0, 4, 8),
    Line(2, 4, 6)
  ]

  /** The line's first cell is non-empty and the other two hold the same value. */
  predicate Completed(b: Board, l: Line) {
    b[l.a].Some? && b[l.a] == b[l.b] && b[l.a] == b[l.c]
  }

  /** All three cells of the line hold mark m. */
  predicate Completes(b: Board, l: Line, m: Mark) {
    b[l.a] == Some(m) && b[l.b] == Some(m) && b[l.c] == Some(m)
  }

  /** Line k is completed and no line before it in the table is. */
  predicate FirstCompleted(b: Board, k: nat)
    requires k < |Lines|
  {
    Completed(b, Lines[k]) && forall j :: 0 <= j < k ==> !Completed(b, Lines[j])
  }

  /** The mark of the first completed line at or after position k of the table. */
  function WinnerFrom(b: Board, k: nat): Option<Mark>
    requires k <= |Lines|
    decreases |Lines| - k
  {
    if k == |Lines| then None
    else if Completed(b, Lines[k]) then b[Lines[k].a]
    else WinnerFrom(b, k + 1)
  }

  /** The winner of a board: the mark of the first completed line, if any. */
  function Winner(b: Board): Option<Mark> {
    WinnerFrom(b, 0)
  }

  /**
   * The scan itself: walks the table and returns on the first completed
   * line; the result agrees with Winner, whose meaning the lemmas below give.
   */
  method CalculateWinner(squares: Board) returns (w: Option<Mark>)
    ensures w == Winner(squares)
  {
    var i := 0;
    while i < |Lines|
      invariant 0 <= i <= |Lines|
      invariant Winner(squares) == WinnerFrom(squares, i)
    {
      var line := Lines[i];
      if squares[line.a].Some? && squares[line.a] == squares[line.b] && squares[line.a] == squares[line.c] {
        return squares[line.a];
      }
      i := i + 1;
    }
    return None;
  }

  /** Line j is completed by m and no line from position k up to j is completed. */
  predicate FirstCompletedFrom(b: Board, k: nat, j: nat, m: Mark)
    requires j < |Lines|
  {
    k <= j && Completes(b, Lines[j], m) && forall i :: k <= i < j ==> !Completed(b, Lines[i])
  }

  /**
   * WinnerFrom(b, k) is Some(m) exactly when some line j >= k is completed
   * by m and no line between k and j is completed.
   */
  lemma {:induction false} WinnerFromFirst(b: Board, k: nat, m: Mark)
    requires k <= |Lines|
    ensures WinnerFrom(b, k) == Some(m) <==>
      exists j :: k <= j < |Lines| && FirstCompletedFrom(b, k, j, m)
    decreases |Lines| - k
  {
    if k < |Lines| {
      WinnerFromFirst(b, k + 1, m);
      if WinnerFrom(b, k) == Some(m) {
        if Completed(b, Lines[k]) {
          assert FirstCompletedFrom(b, k, k, m);
        } else {
          var j :| k + 1 <= j < |Lines| && FirstCompletedFrom(b, k + 1, j, m);
          assert FirstCompletedFrom(b, k, j, m);
        }
      } else if exists j :: k <= j < |Lines| && FirstCompletedFrom(b, k, j, m) {
        var j :| k <= j < |Lines| && FirstCompletedFrom(b, k, j, m);
        if j == k {
          assert false;
        } else {
          assert FirstCompletedFrom(b, k + 1, j, m);
          assert false;
        }
      }
    }
  }

  /** WinnerFrom(b, k) is None exactly when no line from position k on is completed. */
  lemma {:induction false} WinnerFromNone(b: Board, k: nat)
    requires k <= |Lines|
    ensures WinnerFrom(b, k) == None <==> forall j :: k <= j < |Lines| ==> !Completed(b, Lines[j])
    decreases |Lines| - k
  {
    if k < |Lines| {
      WinnerFromNone(b, k + 1);
    }
  }

  /**
   * Winner(b) is Some(m) exactly when the first completed line in table
   * order is completed by m.
   */
  lemma WinnerIsFirstLine(b: Board, m: Mark)
    ensures Winner(b) == Some(m) <==>
      exists k :: 0 <= k < |Lines| && FirstCompleted(b, k) && Completes(b, Lines[k], m)
  {
    WinnerFromFirst(b, 0, m);
    if Winner(b) == Some(m) {
      var k :| 0 <= k < |Lines| && FirstCompletedFrom(b, 0, k, m);
      assert FirstCompleted(b, k);
    } else if exists k :: 0 <= k < |Lines| && FirstCompleted(b, k) && Completes(b, Lines[k], m) {
      var k :| 0 <= k < |Lines| && FirstCompleted(b, k) && Completes(b, Lines[k], m);
      assert FirstCompletedFrom(b, 0, k, m);
      assert false;
    }
  }

  /** A non-null result is always backed by a line whose three cells hold it. */
  lemma WinnerSound(b: Board, m: Mark)
    requires Winner(b) == Some(m)
    ensures exists k :: 0 <= k < |Lines| && Completes(b, Lines[k], m)
  {
    WinnerIsFirstLine(b, m);
  }

  /** Winner(b) is None exactly when no line of the eight is completed. */
  lemma WinnerNoneIff(b: Board)
    ensures Winner(b) == None <==> forall k :: 0 <= k < |Lines| ==> !Completed(b, Lines[k])
  {
    WinnerFromNone(b, 0);
  }

  /** The empty board has no winner. */
  lemma EmptyBoardHasNoWinner()
    ensures Winner(EmptyBoard) == None
  {
    WinnerNoneIff(EmptyBoard);
  }

  /**
   * Putting mark m into an empty cell of a board with no completed line can
   * complete only lines through that cell, and only with m.
   */
  lemma MoveCompletesOnlyMover(b: Board, i: Index, m: Mark, k: nat)
    requires Winner(b) == None && b[i] == None
    requires k < |Lines| && Completed(b[i := Some(m)], Lines[k])
    ensures Completes(b[i := Some(m)], Lines[k], m)
    ensures i == Lines[k].a || i == Lines[k].b || i == Lines[k].c
  {
    WinnerNoneIff(b);
    assert !Completed(b, Lines[k]);
  }
}
