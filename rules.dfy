/** The rules of the game: the board, the win detector, the move rule, the status line and the
    highlighting of the winning squares. */
module Rules {

  datatype Option<T> = None | Some(value: T)

  /** One square: empty (null in the client) or holding a player's mark. */
  datatype Cell = Empty | X | O

  /** The nine squares of a 3x3 grid, row by row. Every board the game builds has nine squares:
      the initial one is nine empties and each later one is a copy of an earlier one. */
  type Board = s: seq<Cell> | |s| == 9 witness [Empty, Empty, Empty, Empty, Empty, Empty, Empty, Empty, Empty]

  const EMPTY_BOARD: Board := [Empty, Empty, Empty, Empty, Empty, Empty, Empty, Empty, Empty]

  type Index = k: int | 0 <= k < 9

  /** Three squares that win when they hold the same mark. */
  datatype Line = Line(a: Index, b: Index, c: Index) {
    predicate Includes(i: int) {
      i == a || i == b || i == c
    }
  }

  /** The eight winning lines, in the order in which they are tried:
      three rows, three columns, then the two diagonals. */
  const LINES: seq<Line> := [
    Line(0, 1, 2), Line(3, 4, 5), Line(6, 7, 8),
    Line(0, 3, 6), Line(1, 4, 7), Line(2, 5, 8),
    Line(0, 4, 8), Line(2, 4, 6)
  ]

  /** What the win detector reports: the winning mark and the line it fills. */
  datatype Win = Win(winner: Cell, line: Line)

  /** The three squares of `l` hold the same mark, and it is not empty. */
  predicate Completes(s: Board, l: Line) {
    s[l.a] != Empty && s[l.a] == s[l.b] && s[l.a] == s[l.c]
  }

  /** Reference definition of the win detector on the lines from `k` on:
      the first of LINES[k..] that `s` completes, with its mark. */
  function FirstWin(s: Board, k: nat): (r: Option<Win>)
    requires k <= |LINES|
    decreases |LINES| - k
    ensures r.None? <==> forall j :: k <= j < |LINES| ==> !Completes(s, LINES[j])
    ensures r.Some? ==>
      exists j :: k <= j < |LINES| && LINES[j] == r.value.line && Completes(s, LINES[j])
        && r.value.winner == s[LINES[j].a]
        && forall i :: k <= i < j ==> !Completes(s, LINES[i])
  {
    if k == |LINES| then None
    else if Completes(s, LINES[k]) then Some(Win(s[LINES[k].a], LINES[k]))
    else FirstWin(s, k + 1)
  }

  /** The win detector as a value: the first winning line of all eight, or None. */
  function WinnerWithLine(s: Board): Option<Win> {
    FirstWin(s, 0)
  }

  /** The win detector as the client runs it: a loop over the eight lines that returns at the
      first completed one. */
  method CalculateWinnerWithLine(squares: Board) returns (r: Option<Win>)
    ensures r == WinnerWithLine(squares)
  {
    for k := 0 to |LINES|
      invariant forall j :: 0 <= j < k ==> !Completes(squares, LINES[j])
    {
      var line := LINES[k];
      if squares[line.a] != Empty && squares[line.a] == squares[line.b] && squares[line.a] == squares[line.c] {
        return Some(Win(squares[line.a], line));
      }
    }
    return None;
  }

  /** A reported win names one of the eight lines, and its three squares all hold the winning
      mark, which is X or O. */
  lemma WinnerSound(s: Board)
    requires WinnerWithLine(s).Some?
    ensures var w := WinnerWithLine(s);
      w.value.line in LINES && w.value.winner != Empty
      && s[w.value.line.a] == w.value.winner
      && s[w.value.line.b] == w.value.winner
      && s[w.value.line.c] == w.value.winner
  {
  }

  /** If line `j` is the first line `s` completes, that line and its mark are what is reported,
      whatever later lines `s` also completes. */
  lemma WinnerIsFirst(s: Board, j: nat)
    requires j < |LINES| && Completes(s, LINES[j])
    requires forall i :: 0 <= i < j ==> !Completes(s, LINES[i])
    ensures WinnerWithLine(s) == Some(Win(s[LINES[j].a], LINES[j]))
  {
  }

  /** The mark of the winner, or None: the win detector without its line. */
  function CalculateWinner(squares: Board): (w: Option<Cell>)
    ensures w.Some? <==> WinnerWithLine(squares).Some?
    ensures w.Some? ==> w.value == WinnerWithLine(squares).value.winner
    ensures w.Some? <==> exists j :: 0 <= j < |LINES| && Completes(squares, LINES[j])
    ensures w.Some? ==> w.value != Empty
    ensures w.Some? ==>
      exists j :: 0 <= j < |LINES| && Completes(squares, LINES[j]) && squares[LINES[j].a] == w.value
  {
    match WinnerWithLine(squares)
    case Some(r) => Some(r.winner)
    case None => None
  }

  /** The line to highlight: the line of the reported win, if any, which is the first completed
      line in list order. */
  function WinningLineOf(squares: Board): (line: Option<Line>)
    ensures line.Some? <==> CalculateWinner(squares).Some?
    ensures line.Some? ==> line.value in LINES && Completes(squares, line.value)
    ensures line.Some? ==>
      exists j :: 0 <= j < |LINES| && line.value == LINES[j] && Completes(squares, LINES[j])
        && forall i :: 0 <= i < j ==> !Completes(squares, LINES[i])
  {
    match WinnerWithLine(squares)
    case Some(r) => Some(r.line)
    case None => None
  }

  /** Whether square `i` belongs to the highlighted line; no line highlights nothing. What the
      highlight means for the board is stated by HighlightedSquares. */
  function IsWinningSquare(winningLine: Option<Line>, i: int): bool {
    match winningLine
    case Some(l) => l.Includes(i)
    case None => false
  }

  /** Each of the eight lines covers three different squares, so a winning line lights exactly
      three squares of the board. */
  lemma LineHighlightsThree(l: Line)
    requires l in LINES
    ensures |set k | 0 <= k < 9 && IsWinningSquare(Some(l), k)| == 3
  {
    assert (set k | 0 <= k < 9 && IsWinningSquare(Some(l), k)) == {l.a, l.b, l.c};
    assert l.a != l.b && l.a != l.c && l.b != l.c;
  }

  /** A highlighted square holds the winner's mark, and some square is highlighted exactly when
      there is a winner. */
  lemma HighlightedSquares(s: Board)
    ensures forall i :: IsWinningSquare(WinningLineOf(s), i) ==> 0 <= i < 9 && CalculateWinner(s) == Some(s[i])
    ensures CalculateWinner(s).Some? <==> exists i :: 0 <= i < 9 && IsWinningSquare(WinningLineOf(s), i)
  {
    if CalculateWinner(s).Some? {
      var l := WinningLineOf(s).value;
      assert IsWinningSquare(WinningLineOf(s), l.a);
    }
  }

  /** The mark of the player to move. */
  function PlayerMark(xIsNext: bool): (c: Cell)
    ensures c != Empty
    ensures c == X <==> xIsNext
  {
    if xIsNext then X else O
  }

  /** Every square holds a mark, that is, no square is empty. */
  predicate IsFull(s: Board)
    ensures IsFull(s) <==> Count(s, Empty) == 0
  {
    CountZero(s, Empty);
    forall k :: 0 <= k < |s| ==> s[k] != Empty
  }

  /** What the status line shows. */
  datatype Status = Winner(mark: Cell) | Draw | NextPlayer(mark: Cell)

  /** The status line: a winner first, then a draw on a full board, else the player to move. */
  function GameStatus(squares: Board, xIsNext: bool): (st: Status)
    ensures st.Winner? <==> CalculateWinner(squares).Some?
    ensures st.Winner? ==> CalculateWinner(squares) == Some(st.mark) && st.mark != Empty
    ensures st.Draw? <==> CalculateWinner(squares).None? && IsFull(squares)
    ensures st.NextPlayer? ==> st.mark == PlayerMark(xIsNext)
  {
    var winner := CalculateWinner(squares);
    if winner.Some? then Winner(winner.value)
    else if IsFull(squares) then Draw
    else NextPlayer(PlayerMark(xIsNext))
  }

  /** A click on square `i` of `squares` is played: `i` is a square, nobody has won yet and the
      square is empty. */
  predicate Accepts(squares: Board, i: int)
    ensures Accepts(squares, i) <==>
      0 <= i < 9 && squares[i] == Empty && forall j :: 0 <= j < |LINES| ==> !Completes(squares, LINES[j])
  {
    0 <= i < |squares| && CalculateWinner(squares).None? && squares[i] == Empty
  }

  /** The move rule: a click on a square outside the board, on a board with a winner, or on an
      occupied square is ignored (None); otherwise the result is a copy of the board with square `i`
      taken by the player to move. The input board is a value and is never changed. */
  method HandleClick(squares: Board, xIsNext: bool, i: int) returns (next: Option<Board>)
    ensures next.None? <==> !Accepts(squares, i)
    ensures next.Some? ==>
      0 <= i < 9 && next.value[i] == PlayerMark(xIsNext)
      && forall k :: 0 <= k < 9 && k != i ==> next.value[k] == squares[k]
  {
    if i < 0 || i >= |squares| {
      return None;
    }
    var winner := CalculateWinnerWithLine(squares);
    if winner.Some? || squares[i] != Empty {
      return None;
    }
    var nextSquares := new Cell[|squares|](k requires 0 <= k < |squares| => squares[k]);
    nextSquares[i] := PlayerMark(xIsNext);
    return Some(nextSquares[..]);
  }

  /** The game is over (a winner or a draw) exactly when no click on the board is accepted. */
  lemma GameOverIffNoMove(squares: Board, xIsNext: bool)
    ensures GameStatus(squares, xIsNext).NextPlayer? <==> exists i :: Accepts(squares, i)
  {
    if GameStatus(squares, xIsNext).NextPlayer? {
      var k :| 0 <= k < 9 && squares[k] == Empty;
      assert Accepts(squares, k);
    }
  }

  /** The number of squares of `s` holding `c`. The client keeps no such count: it is used to
      state which boards a game played move by move can reach. Its ensures is only a range fact;
      the exact relations between the counts are CountsAddUp, CountZero and CountAfterMark. */
  function Count(s: seq<Cell>, c: Cell): (n: nat)
    ensures n <= |s|
  {
    if s == [] then 0 else (if s[0] == c then 1 else 0) + Count(s[1..], c)
  }

  /** No square holds `c` exactly when the count of `c` is zero. */
  lemma {:induction false} CountZero(s: seq<Cell>, c: Cell)
    ensures Count(s, c) == 0 <==> forall k :: 0 <= k < |s| ==> s[k] != c
  {
    if s != [] {
      CountZero(s[1..], c);
      assert forall k :: 1 <= k < |s| ==> s[k] == s[1..][k - 1];
    }
  }

  /** Every square is empty, X or O, so the three counts add up to the size of the board. */
  lemma {:induction false} CountsAddUp(s: seq<Cell>)
    ensures Count(s, X) + Count(s, O) + Count(s, Empty) == |s|
  {
    if s != [] {
      CountsAddUp(s[1..]);
    }
  }

  /** Marking an empty square with `c` adds one `c`, removes one empty square and leaves the count
      of the other mark alone. */
  lemma {:induction false} CountAfterMark(s: seq<Cell>, i: nat, c: Cell, d: Cell)
    requires i < |s| && s[i] == Empty && c != Empty
    ensures Count(s[i := c], d) ==
      if d == c then Count(s, d) + 1
      else if d == Empty then Count(s, d) - 1
      else Count(s, d)
  {
    if i == 0 {
      assert s[i := c][1..] == s[1..];
    } else {
      assert s[i := c][1..] == s[1..][i - 1 := c];
      CountAfterMark(s[1..], i - 1, c, d);
    }
  }
}
