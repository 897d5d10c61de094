/**
 * The status line of the Game component: "Winner: X|O" once a line is
 * completed on the step on display, otherwise "Next player: X|O".
 */
module Status {
  import opened Wrappers
  import opened WinDetector
  import opened Game

  /** What the status line reports. */
  datatype Report = Won(winner: Mark) | NextPlayer(player: Mark)

  /**
   * The status of the step on display: the mark of the first completed line
   * in table order,
   * or, when no line of the eight is completed, the player whose turn it is.
   */
  function DeriveStatus(s: GameState): (st: Report)
    requires Valid(s)
    ensures st.Won? ==>
      exists k :: 0 <= k < |Lines| && FirstCompleted(Current(s).squares, k) &&
                  Completes(Current(s).squares, Lines[k], st.winner)
    ensures st.NextPlayer? <==> forall k :: 0 <= k < |Lines| ==> !Completed(Current(s).squares, Lines[k])
    ensures st.NextPlayer? ==> st.player == Mover(Current(s))
  {
    var current := Current(s);
    WinnerNoneIff(current.squares);
    match Winner(current.squares)
    case Some(w) =>
      WinnerIsFirstLine(current.squares, w);
      Won(w)
    case None => NextPlayer(Mover(current))
  }

  /** The text shown for a mark. */
  function MarkText(m: Mark): string {
    if m == X then "X" else "O"
  }

  /**
   * The status line as displayed: it begins with "Winner: " exactly for a
   * win and with "Next player: " exactly otherwise, and ends with the
   * letter of the mark reported, with nothing in between.
   */
  function StatusText(st: Report): (t: string)
    ensures st.Won? <==> |t| >= 8 && t[..8] == "Winner: "
    ensures st.NextPlayer? <==> |t| >= 13 && t[..13] == "Next player: "
    ensures |t| == (if st.Won? then 9 else 14)
    ensures |t| > 0 && t[|t| - 1..] == MarkText(if st.Won? then st.winner else st.player)
  {
    match st
    case Won(w) => "Winner: " + MarkText(w)
    case NextPlayer(p) =>
      var t := "Next player: " + MarkText(p);
      assert t[..8][0] != "Winner: "[0];
      t
  }

  /** Distinct statuses are displayed as distinct lines of text. */
  lemma StatusTextInjective(st1: Report, st2: Report)
    requires StatusText(st1) == StatusText(st2)
    ensures st1 == st2
  {
    var t := StatusText(st1);
    assert t[0] == StatusText(st2)[0];
    assert t[|t| - 1] == StatusText(st2)[|t| - 1];
  }

  /**
   * In a reachable state with no winner on display, the player named next
   * is X exactly at the even steps.
   */
  lemma ReachableNextPlayer(s: GameState)
    requires Reachable(s) && DeriveStatus(s).NextPlayer?
    ensures DeriveStatus(s).player == (if s.stepNumber % 2 == 0 then X else O)
  {
    LegalTurnAlternates(s.history, s.stepNumber);
  }

  /** The initial state reports that X moves next. */
  lemma InitialStatus()
    ensures StatusText(DeriveStatus(Initial)) == "Next player: X"
  {
    EmptyBoardHasNoWinner();
  }

  /**
   * After two moves, jumping back to the start shows the empty board and
   * "Next player: X" with the history kept; a move from there discards the
   * two recorded moves.
   */
  lemma JumpToStartGame(i: Index)
    ensures var s := JumpTo(Click(Click(Initial, 4), 0), 0);
      |s.history| == 3 && Current(s).squares == EmptyBoard &&
      StatusText(DeriveStatus(s)) == "Next player: X" &&
      |Click(s, i).history| == 2
  {
    EmptyBoardHasNoWinner();
  }
}
