/** The 3x3 board and win detection (calculateWinner in src/index.js). */
module Board {

  /** A square: empty (`null` in the source) or holding a player's symbol. */
  datatype Cell = Empty | X | O

  /** A symbol a player writes: a non-empty cell. */
  type Mark = c: Cell | c != Empty witness X

  /** The symbol written by the player to move. */
  function MarkFor(xIsNext: bool): Mark
  {
    if xIsNext then X else O
  }

  /** What calculateWinner reports: a winning symbol, 'tie', or null. */
  datatype Result = Winner(sym: Mark) | Tie | NoResult

  /** A square index, row-major. */
  type Index = i: int | 0 <= i < 9

  /** Nine squares, index 0 to 8. */
  type Board = b: seq<Cell> | |b| == 9
    witness [Empty, Empty, Empty, Empty, Empty, Empty, Empty, Empty, Empty]

  /** The board of a new game: nine empty squares. */
  const EmptyBoard: Board := [Empty, Empty, Empty, Empty, Empty, Empty, Empty, Empty, Empty]

  /** Three square indices checked together for three in a row. */
  datatype Line = Line(a: Index, b: Index, c: Index)

  /** The eight lines, in the order calculateWinner checks them:
      the rows, the columns, then the two diagonals. */
  const Lines: seq<Line> := [
    Line(0, 1, 2), Line(3, 4, 5), Line(6, 7, 8),
    Line(0, 3, 6), Line(1, 4, 7), Line(2, 5, 8),
    Line(0, 4, 8), Line(2, 4, 6)
  ]

  /** Line `k` holds three equal, non-empty squares. */
  predicate LineWins(b: Board, k: nat)
    requires k < |Lines|
  {
    var line := Lines[k];
    b[line.a] != Empty && b[line.a] == b[line.b] && b[line.a] == b[line.c]
  }

  /** Line `k` wins and no line before it in the order does. */
  ghost predicate FirstWinningLine(b: Board, k: nat)
  {
    k < |Lines| && LineWins(b, k) && forall i :: 0 <= i < k ==> !LineWins(b, i)
  }

  /** No square is empty. */
  predicate Full(b: Board)
  {
    Empty !in b
  }

  /** The outcome decided by the lines from `k` on, then by the fill state. */
  function EvaluateFrom(b: Board, k: nat): Result
    requires k <= |Lines|
    decreases |Lines| - k
  {
    if k == |Lines| then
      if Full(b) then Tie else NoResult
    else if LineWins(b, k) then
      Winner(b[Lines[k].a])
    else
      EvaluateFrom(b, k + 1)
  }

  /** The outcome of a board: specification of calculateWinner. */
  function Evaluate(b: Board): Result
  {
    EvaluateFrom(b, 0)
  }

  /** Lines that do not win do not change the outcome. */
  lemma {:induction false} EvaluateFromSkips(b: Board, k: nat, j: nat)
    requires k <= j <= |Lines|
    requires forall i :: k <= i < j ==> !LineWins(b, i)
    ensures EvaluateFrom(b, k) == EvaluateFrom(b, j)
    decreases j - k
  {
    if k < j {
      EvaluateFromSkips(b, k + 1, j);
    }
  }

  /** The first winning line in the order decides the winner. */
  lemma EvaluateFirstLine(b: Board, k: nat)
    requires FirstWinningLine(b, k)
    ensures Evaluate(b) == Winner(b[Lines[k].a])
  {
    EvaluateFromSkips(b, 0, k);
  }

  /** A reported winner is the symbol of the first winning line. */
  lemma {:induction false} EvaluateFromWinner(b: Board, k: nat)
    requires k <= |Lines|
    requires EvaluateFrom(b, k).Winner?
    ensures exists j :: k <= j < |Lines| && LineWins(b, j) && b[Lines[j].a] == EvaluateFrom(b, k).sym
                        && forall i :: k <= i < j ==> !LineWins(b, i)
    decreases |Lines| - k
  {
    if !LineWins(b, k) {
      EvaluateFromWinner(b, k + 1);
      var j :| k + 1 <= j < |Lines| && LineWins(b, j) && b[Lines[j].a] == EvaluateFrom(b, k + 1).sym
               && forall i :: k + 1 <= i < j ==> !LineWins(b, i);
      assert forall i :: k <= i < j ==> !LineWins(b, i);
    }
  }

  /** Evaluate reports a winner only when some line wins, and then the
      symbol of the first winning line. */
  lemma EvaluateWinnerSound(b: Board)
    requires Evaluate(b).Winner?
    ensures exists k: nat :: FirstWinningLine(b, k) && b[Lines[k].a] == Evaluate(b).sym
  {
    EvaluateFromWinner(b, 0);
  }

  /** Without a winning line the board is a tie exactly when it is full. */
  lemma EvaluateNoLine(b: Board)
    requires forall i :: 0 <= i < |Lines| ==> !LineWins(b, i)
    ensures Evaluate(b) == Tie <==> Full(b)
    ensures Evaluate(b) == NoResult <==> !Full(b)
  {
    EvaluateFromSkips(b, 0, |Lines|);
  }

  /** A tie or no result implies that no line wins. */
  lemma EvaluateNotWinner(b: Board)
    requires !Evaluate(b).Winner?
    ensures forall i :: 0 <= i < |Lines| ==> !LineWins(b, i)
    ensures Evaluate(b) == Tie <==> Full(b)
  {
    if exists i :: 0 <= i < |Lines| && LineWins(b, i) {
      var k := FirstWinner(b);
      EvaluateFirstLine(b, k);
    } else {
      EvaluateNoLine(b);
    }
  }

  /** The index of the first winning line, when there is one. */
  ghost function FirstWinner(b: Board): (k: nat)
    requires exists i :: 0 <= i < |Lines| && LineWins(b, i)
    ensures FirstWinningLine(b, k)
  {
    FirstWinnerFrom(b, 0)
  }

  /** The first winning line at or after `k`, none before `k` winning. */
  ghost function FirstWinnerFrom(b: Board, k: nat): (j: nat)
    requires k <= |Lines|
    requires forall i :: 0 <= i < k ==> !LineWins(b, i)
    requires exists i :: k <= i < |Lines| && LineWins(b, i)
    ensures FirstWinningLine(b, j)
    decreases |Lines| - k
  {
    if LineWins(b, k) then k else FirstWinnerFrom(b, k + 1)
  }

  /** calculateWinner: the first loop scans the lines in order and returns
      the symbol of the first winning one; the second loop clears the tie
      flag at the first empty square. */
  method CalculateWinner(squares: array<Cell>) returns (r: Result)
    requires squares.Length == 9
    ensures r == Evaluate(squares[..])
  {
    ghost var b: Board := squares[..];
    var i := 0;
    while i < |Lines|
      invariant 0 <= i <= |Lines|
      invariant EvaluateFrom(b, i) == Evaluate(b)
    {
      var line := Lines[i];
      if squares[line.a] != Empty && squares[line.a] == squares[line.b] && squares[line.a] == squares[line.c] {
        return Winner(squares[line.a]);
      }
      i := i + 1;
    }

    var tie := true;
    i := 0;
    while i < squares.Length
      invariant 0 <= i <= squares.Length
      invariant tie
      invariant forall j :: 0 <= j < i ==> squares[j] != Empty
    {
      if squares[i] == Empty {
        tie := false;
        break;
      }
      i := i + 1;
    }

    if tie {
      r := Tie;
    } else {
      r := NoResult;
    }
  }

  /** Top-row win for X, the remaining squares partly O and partly empty. */
  lemma TopRowWinForX()
    ensures Evaluate([X, X, X, O, O, Empty, Empty, Empty, Empty]) == Winner(X)
  {
    EvaluateFirstLine([X, X, X, O, O, Empty, Empty, Empty, Empty], 0);
  }

  /** A full board without three in a row is a tie. */
  lemma FullBoardWithoutLineIsTie()
    ensures Evaluate([X, O, X, X, O, O, O, X, X]) == Tie
  {
    EvaluateNoLine([X, O, X, X, O, O, O, X, X]);
  }

  /** Number of squares of `s` holding `c`. */
  function Count(s: seq<Cell>, c: Cell): (n: nat)
    ensures n <= |s|
  {
    if s == [] then 0 else (if s[0] == c then 1 else 0) + Count(s[1..], c)
  }

  /** Number of non-empty squares. */
  function Filled(s: seq<Cell>): nat
  {
    Count(s, X) + Count(s, O)
  }

  /** Overwriting one square changes each count by what left and what came. */
  lemma {:induction false} CountUpdate(s: seq<Cell>, j: nat, v: Cell, c: Cell)
    requires j < |s|
    ensures Count(s[j := v], c) == Count(s, c) - (if s[j] == c then 1 else 0) + (if v == c then 1 else 0)
  {
    if j == 0 {
      assert s[j := v][1..] == s[1..];
    } else {
      CountUpdate(s[1..], j - 1, v, c);
      assert s[j := v][1..] == s[1..][j - 1 := v];
    }
  }

  /** The empty board holds no symbol. */
  lemma EmptyBoardCounts(c: Mark)
    ensures Count(EmptyBoard, c) == 0
  {
    var b := EmptyBoard;
    assert b[1..][1..][1..][1..][1..][1..][1..][1..][1..] == [];
  }
}
