/** The Game component's state and its two transitions, handleClick and
    jumpTo (src/index.js). */
module GameState {
  import opened Board

  /** handleClick accepts a click on square `i` of board `b`: the board has
      no winner and is not a tie, and square `i` is empty. */
  predicate Accepts(b: Board, i: Index)
  {
    Evaluate(b) == NoResult && b[i] == Empty
  }

  /** `b` is `a` with exactly the empty square `j` filled. */
  ghost predicate OneMove(a: Board, b: Board, j: Index)
  {
    a[j] == Empty && b[j] != Empty && forall m :: 0 <= m < 9 && m != j ==> b[m] == a[m]
  }

  /** `b` is `a` with exactly one more square filled. */
  ghost predicate Grows(a: Board, b: Board)
  {
    exists j :: 0 <= j < 9 && OneMove(a, b, j)
  }

  /** The history invariant kept by both transitions: it starts with the
      empty board and each snapshot adds one move to the one before. */
  ghost predicate WellFormed(h: seq<Board>)
  {
    |h| >= 1 && h[0] == EmptyBoard &&
    forall k :: 0 <= k < |h| - 1 ==> Grows(h[k], h[k + 1])
  }

  /** Turns alternate, X first: snapshot `k` holds (k+1)/2 X's and k/2 O's,
      and X is to move exactly when the history has odd length. */
  ghost predicate Alternates(h: seq<Board>, xIsNext: bool)
  {
    (xIsNext <==> |h| % 2 == 1) &&
    forall k :: 0 <= k < |h| ==> Count(h[k], X) == (k + 1) / 2 && Count(h[k], O) == k / 2
  }

  /** The snapshots with index below `i`, collected as Array.prototype.filter
      does in jumpTo. */
  function KeepBefore(h: seq<Board>, i: int): seq<Board>
    decreases |h|
  {
    if h == [] then []
    else KeepBefore(h[..|h| - 1], i) + (if |h| - 1 < i then [h[|h| - 1]] else [])
  }

  /** Filtering by index keeps the prefix of length `i`, clamped to the
      history's bounds. */
  lemma {:induction false} KeepBeforeIsPrefix(h: seq<Board>, i: int)
    ensures KeepBefore(h, i) == h[..if i < 0 then 0 else if i < |h| then i else |h|]
    decreases |h|
  {
    if h != [] {
      var t := h[..|h| - 1];
      KeepBeforeIsPrefix(t, i);
      if |h| - 1 < i {
        assert t + [h[|h| - 1]] == h;
      } else {
        var n := if i < 0 then 0 else i;
        assert t[..n] == h[..n];
      }
    }
  }

  /** A single move fills one more square. */
  lemma OneMoveFills(a: Board, b: Board, j: Index)
    requires OneMove(a, b, j)
    ensures Filled(b) == Filled(a) + 1
  {
    assert b == a[j := b[j]];
    CountUpdate(a, j, b[j], X);
    CountUpdate(a, j, b[j], O);
  }

  /** In a well-formed history, snapshot `k` has exactly `k` filled squares;
      in particular the current board has |h|-1. */
  lemma {:induction false} FilledIsIndex(h: seq<Board>, k: nat)
    requires WellFormed(h) && k < |h|
    ensures Filled(h[k]) == k
  {
    if k == 0 {
      assert Count(h[0], X) == 0 by { EmptyBoardCounts(X); }
      assert Count(h[0], O) == 0 by { EmptyBoardCounts(O); }
    } else {
      FilledIsIndex(h, k - 1);
      assert Grows(h[k - 1], h[k]);
      var j: Index :| OneMove(h[k - 1], h[k], j);
      OneMoveFills(h[k - 1], h[k], j);
    }
  }

  /** A square, once filled, keeps its symbol in every later snapshot. */
  lemma {:induction false} NeverOverwritten(h: seq<Board>, k: nat, l: nat, j: Index)
    requires WellFormed(h) && k <= l < |h|
    requires h[k][j] != Empty
    ensures h[l][j] == h[k][j]
    decreases l - k
  {
    if k < l {
      NeverOverwritten(h, k, l - 1, j);
      assert Grows(h[l - 1], h[l]);
      var m: Index :| OneMove(h[l - 1], h[l], m);
    }
  }

  /** An accepted click appends a snapshot one move longer, which keeps the
      history well formed. */
  lemma ClickKeepsWellFormed(h: seq<Board>, i: Index, m: Mark)
    requires WellFormed(h) && h[|h| - 1][i] == Empty
    ensures WellFormed(h + [h[|h| - 1][i := m]])
  {
    var h' := h + [h[|h| - 1][i := m]];
    assert OneMove(h'[|h| - 1], h'[|h|], i);
    assert forall k :: 0 <= k < |h| ==> h'[k] == h[k];
  }

  /** An accepted click writes the symbol of the player to move, so the
      turns keep alternating. */
  lemma ClickKeepsAlternation(h: seq<Board>, xIsNext: bool, i: Index)
    requires |h| >= 1 && Alternates(h, xIsNext) && h[|h| - 1][i] == Empty
    ensures Alternates(h + [h[|h| - 1][i := MarkFor(xIsNext)]], !xIsNext)
  {
    var n := |h|;
    var cur := h[n - 1];
    var next := cur[i := MarkFor(xIsNext)];
    assert Count(cur, X) == n / 2 && Count(cur, O) == (n - 1) / 2;
    CountUpdate(cur, i, MarkFor(xIsNext), X);
    CountUpdate(cur, i, MarkFor(xIsNext), O);
    if xIsNext {
      assert n % 2 == 1;
      assert Count(next, X) == n / 2 + 1 == (n + 1) / 2;
      assert Count(next, O) == (n - 1) / 2 == n / 2;
    } else {
      assert n % 2 == 0;
      assert Count(next, X) == n / 2 == (n + 1) / 2;
      assert Count(next, O) == (n - 1) / 2 + 1 == n / 2;
    }
    var h' := h + [next];
    forall k | 0 <= k < |h'|
      ensures Count(h'[k], X) == (k + 1) / 2 && Count(h'[k], O) == k / 2
    {
      if k < n {
        assert h'[k] == h[k];
      }
    }
  }

  /** With alternating turns, the square filled by move `k` holds X when
      `k` is odd and O when `k` is even. */
  lemma PlacedMark(h: seq<Board>, xIsNext: bool, k: nat, j: Index)
    requires Alternates(h, xIsNext) && 1 <= k < |h|
    requires OneMove(h[k - 1], h[k], j)
    ensures h[k][j] == if k % 2 == 1 then X else O
  {
    assert h[k] == h[k - 1][j := h[k][j]];
    CountUpdate(h[k - 1], j, h[k][j], X);
  }

  /** After jumpTo(i) on an alternating history, the turns still alternate
      exactly when the parity of the previous stepNumber happens to match
      the new history length. */
  lemma JumpAlternatesIff(h: seq<Board>, xIsNext: bool, stepNumber: nat, i: nat)
    requires Alternates(h, xIsNext) && 1 <= i <= |h|
    ensures Alternates(h[..i], stepNumber % 2 == 0) <==> (stepNumber % 2 == 0 <==> i % 2 == 1)
  {
    assert forall k :: 0 <= k < i ==> h[..i][k] == h[k];
  }

  /** The Game component's state. */
  class Game {
    var history: seq<Board>
    var xIsNext: bool
    var stepNumber: nat

    ghost predicate Valid()
      reads this
    {
      WellFormed(history)
    }

    /** The last snapshot, the board on screen. */
    function Current(): Board
      reads this
      requires Valid()
    {
      history[|history| - 1]
    }

    /** The initial state: one empty board, X to move, step 0. */
    constructor ()
      ensures Valid()
      ensures history == [EmptyBoard] && xIsNext && stepNumber == 0
      ensures Alternates(history, xIsNext)
    {
      history := [EmptyBoard];
      xIsNext := true;
      stepNumber := 0;
      EmptyBoardCounts(X);
      EmptyBoardCounts(O);
    }

    /** handleClick(i): ignored when the current board has a winner or a
        tie or square `i` is taken; otherwise a copy of the current board
        with the mover's symbol at `i` is appended and the turn flips. */
    method HandleClick(i: Index)
      requires Valid()
      modifies this
      ensures Valid()
      ensures stepNumber == old(stepNumber)
      ensures !Accepts(old(Current()), i) ==> history == old(history) && xIsNext == old(xIsNext)
      ensures Accepts(old(Current()), i) ==>
                history == old(history) + [old(Current())[i := MarkFor(old(xIsNext))]] &&
                xIsNext == !old(xIsNext)
      ensures old(Alternates(history, xIsNext)) ==> Alternates(history, xIsNext)
    {
      var current := history[|history| - 1];
      var squares := new Cell[9](k requires 0 <= k < 9 => current[k]);
      assert squares[..] == current;
      var winner := CalculateWinner(squares);
      if winner != NoResult || squares[i] != Empty {
        return;
      }
      squares[i] := MarkFor(xIsNext);
      assert squares[..] == current[i := MarkFor(xIsNext)];
      ClickKeepsWellFormed(history, i, MarkFor(xIsNext));
      if Alternates(history, xIsNext) {
        ClickKeepsAlternation(history, xIsNext, i);
      }
      history, xIsNext := history + [squares[..]], !xIsNext;
    }

    /** jumpTo(i): keeps the snapshots with index below `i`, records `i` as
        the step number and takes the turn from the parity of the previous
        step number. */
    method JumpTo(i: int)
      requires Valid() && 1 <= i
      modifies this
      ensures Valid()
      ensures history == old(history)[..if i < |old(history)| then i else |old(history)|]
      ensures stepNumber == i
      ensures xIsNext == (old(stepNumber) % 2 == 0)
    {
      KeepBeforeIsPrefix(history, i);
      stepNumber, history, xIsNext := i, KeepBefore(history, i), stepNumber % 2 == 0;
    }
  }

  /** jumpTo takes the turn from the previous step number rather than from
      the history it keeps: after X plays 0 and O plays 4, undoing to move 2
      keeps X's move on the board and gives the turn to X again. */
  method UndoRepeatsTurn() returns (xToMove: bool, board: Board)
    ensures xToMove
    ensures board == [X, Empty, Empty, Empty, Empty, Empty, Empty, Empty, Empty]
  {
    var g := new Game();
    g.HandleClick(0);
    assert g.Current() == [X, Empty, Empty, Empty, Empty, Empty, Empty, Empty, Empty];
    g.HandleClick(4);
    g.JumpTo(2);
    xToMove, board := g.xIsNext, g.Current();
  }
}
