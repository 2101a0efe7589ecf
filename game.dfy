/** The game: the list of board snapshots, one per move, and the move currently shown. */
module GameHistory {
  import opened Rules

  class Game {
    /** Snapshot k is the board after k moves along the line of play last chosen. */
    var history: seq<Board>
    /** The snapshot on display; the next move is played on it. */
    var currentMove: int

    ghost predicate Valid()
      reads this
    {
      0 <= currentMove < |history|
    }

    /** Snapshot k carries the marks of k moves taken in turn, X first: (k + 1) / 2 crosses and
        k / 2 noughts. Clicks and jumps keep it; a bare HandlePlay with an arbitrary board need not. */
    ghost predicate Alternating()
      reads this
    {
      forall k :: 0 <= k < |history| ==> Count(history[k], X) == (k + 1) / 2 && Count(history[k], O) == k / 2
    }

    /** A new game: one empty board, on display. */
    constructor ()
      ensures Valid() && Alternating()
      ensures history == [EMPTY_BOARD] && currentMove == 0
    {
      history := [EMPTY_BOARD];
      currentMove := 0;
    }

    /** X moves on even move numbers, O on odd ones. In a game played move by move, the counts of
        the displayed board say the same: X is to move exactly when both players have made as many
        moves. */
    function XIsNext(): (xIsNext: bool)
      reads this
      ensures Valid() && Alternating() ==>
        (xIsNext <==> Count(CurrentSquares(), X) == Count(CurrentSquares(), O))
    {
      currentMove % 2 == 0
    }

    /** The displayed board, with the client's fallback to an empty board for a move outside the
        history. While the game is valid, the fallback is never taken. */
    function CurrentSquares(): (squares: Board)
      reads this
      ensures Valid() ==> squares == history[currentMove]
    {
      if 0 <= currentMove < |history| then history[currentMove] else EMPTY_BOARD
    }

    /** The line highlighted on the displayed board. It is there exactly when the status line names
        a winner; it is the first of the eight lines, in list order, that the board completes, and its
        squares hold that winner's mark. */
    function WinningLine(): (line: Option<Line>)
      reads this
      ensures line.Some? <==> Status().Winner?
      ensures line.Some? ==>
        exists j :: 0 <= j < |LINES| && line.value == LINES[j] && Completes(CurrentSquares(), LINES[j])
          && forall k :: 0 <= k < j ==> !Completes(CurrentSquares(), LINES[k])
      ensures line.Some? ==>
        forall i :: IsWinningSquare(line, i) ==> 0 <= i < 9 && CurrentSquares()[i] == Status().mark
    {
      HighlightedSquares(CurrentSquares());
      WinningLineOf(CurrentSquares())
    }

    /** The status line of the displayed board. It names a player to move exactly when a click on
        the displayed board would be played, and that player is X exactly on even move numbers. */
    function Status(): (st: Status)
      reads this
      ensures st.NextPlayer? <==> exists i :: Accepts(CurrentSquares(), i)
      ensures st.NextPlayer? ==> (st.mark == X <==> currentMove % 2 == 0)
    {
      GameOverIffNoMove(CurrentSquares(), XIsNext());
      GameStatus(CurrentSquares(), XIsNext())
    }

    /** Playing `nextSquares` drops every snapshot after the displayed one, appends the new board
        and displays it. */
    method HandlePlay(nextSquares: Board)
      requires Valid()
      modifies this
      ensures Valid()
      ensures history == old(history[..currentMove + 1]) + [nextSquares]
      ensures |history| == old(currentMove) + 2
      ensures currentMove == |history| - 1
    {
      var nextHistory := history[..currentMove + 1] + [nextSquares];
      history := nextHistory;
      currentMove := |nextHistory| - 1;
    }

    /** Displays snapshot `nextMove`; the history is left as it is. */
    method JumpTo(nextMove: int)
      requires Valid()
      requires 0 <= nextMove < |history|
      modifies this
      ensures Valid()
      ensures history == old(history) && currentMove == nextMove
      ensures XIsNext() <==> nextMove % 2 == 0
      ensures old(Alternating()) ==> Alternating()
    {
      currentMove := nextMove;
    }

    /** A click on square `i` of the displayed board: the move rule applied to the displayed board
        and the player to move, and, when the click is accepted, the new board played. */
    method Click(i: int)
      requires Valid()
      modifies this
      ensures Valid()
      ensures !Accepts(old(CurrentSquares()), i) ==>
        history == old(history) && currentMove == old(currentMove)
      ensures Accepts(old(CurrentSquares()), i) ==>
        0 <= i < 9
        && history == old(history[..currentMove + 1]) + [old(CurrentSquares())[i := PlayerMark(old(XIsNext()))]]
        && currentMove == old(currentMove) + 1
      ensures old(Alternating()) ==> Alternating()
    {
      ghost var m := currentMove;
      ghost var before := history[m];
      var next := HandleClick(CurrentSquares(), XIsNext(), i);
      if next.Some? {
        assert next.value == before[i := PlayerMark(m % 2 == 0)];
        ghost var alternating := Alternating();
        if alternating {
          CountAfterMark(before, i, PlayerMark(m % 2 == 0), X);
          CountAfterMark(before, i, PlayerMark(m % 2 == 0), O);
        }
        HandlePlay(next.value);
        assert history[m + 1] == next.value;
        assert forall k :: 0 <= k <= m ==> history[k] == old(history)[k];
      }
    }

    /** In a game played move by move, snapshot k has k marks, so there are at most ten
        snapshots. */
    lemma HistoryBounded()
      requires Valid() && Alternating()
      ensures |history| <= 10
    {
      var last := |history| - 1;
      CountsAddUp(history[last]);
      assert Count(history[last], X) + Count(history[last], O) == last;
    }
  }
}
