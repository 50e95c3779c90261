/** What Game.render derives from the state: the status line and the two
    lists of undo buttons (src/index.js). */
module Display {
  import opened Board

  /** The text of a player's symbol. */
  function Symbol(m: Mark): string
  {
    if m == X then "X" else "O"
  }

  /** The status line above the board. */
  function Status(winner: Result, xIsNext: bool): string
  {
    match winner
    case Winner(m) => "Winner: " + Symbol(m)
    case Tie => "Draw"
    case NoResult => "Next player: " + Symbol(MarkFor(xIsNext))
  }

  /** The status line tells the outcomes apart and, while the game is open,
      names the player to move. */
  lemma StatusDistinguishes(r1: Result, x1: bool, r2: Result, x2: bool)
    requires Status(r1, x1) == Status(r2, x2)
    ensures r1 == r2
    ensures r1 == NoResult ==> x1 == x2
  {
    var s1, s2 := Status(r1, x1), Status(r2, x2);
    assert |s1| == |s2|;
    assert s1[|s1| - 1] == s2[|s2| - 1];
  }

  /** A finished game's status does not depend on whose turn it is. */
  lemma StatusOfFinishedGame(r: Result, x1: bool, x2: bool)
    requires r != NoResult
    ensures Status(r, x1) == Status(r, x2)
    ensures Status(r, x1) != Status(NoResult, x1)
  {
    assert |Status(r, x1)| < |Status(NoResult, x1)|;
  }

  /** The character of a decimal digit. */
  function DigitChar(d: nat): char
    requires d < 10
  {
    "0123456789"[d]
  }

  /** The value of a decimal digit character. */
  function DigitValue(c: char): nat
  {
    if '0' <= c <= '9' then c as int - '0' as int else 0
  }

  /** Every character of `s` is a decimal digit. */
  predicate IsDigits(s: string)
  {
    forall k :: 0 <= k < |s| ==> '0' <= s[k] <= '9'
  }

  /** Number.prototype.toString for a non-negative integer: its decimal digits. */
  function NatToString(n: nat): string
    decreases n
  {
    if n < 10 then [DigitChar(n)] else NatToString(n / 10) + [DigitChar(n % 10)]
  }

  /** The number a string of decimal digits denotes. */
  function ParseDecimal(s: string): nat
    decreases |s|
  {
    if s == [] then 0 else 10 * ParseDecimal(s[..|s| - 1]) + DigitValue(s[|s| - 1])
  }

  /** The decimal text of a number is a non-empty string of digits that
      reads back as the same number. */
  lemma {:induction false} DecimalRoundTrip(n: nat)
    ensures |NatToString(n)| >= 1 && IsDigits(NatToString(n))
    ensures ParseDecimal(NatToString(n)) == n
    decreases n
  {
    var s := NatToString(n);
    if n >= 10 {
      DecimalRoundTrip(n / 10);
      var t, d := NatToString(n / 10), n % 10;
      assert s == t + [DigitChar(d)];
      assert s[..|s| - 1] == t;
      assert DigitValue(DigitChar(d)) == d;
    } else {
      assert DigitValue(DigitChar(n)) == n;
    }
  }

  /** The caption 'Undo till Move ' followed by the index. */
  function UndoLabel(i: nat): string
  {
    "Undo till Move " + NatToString(i)
  }

  /** Distinct targets get distinct captions. */
  lemma UndoLabelInjective(i: nat, j: nat)
    requires UndoLabel(i) == UndoLabel(j)
    ensures i == j
  {
    var p := "Undo till Move ";
    assert NatToString(i) == UndoLabel(i)[|p|..];
    assert NatToString(j) == UndoLabel(j)[|p|..];
    DecimalRoundTrip(i);
    DecimalRoundTrip(j);
  }

  /** The targets of the undo buttons under "Prev X Moves": the odd
      history indices, in order. Button `i` is captioned UndoLabel(i) and
      calls jumpTo(i). */
  function MovesX<T>(history: seq<T>): seq<nat>
    decreases |history|
  {
    if history == [] then []
    else
      var i := |history| - 1;
      MovesX(history[..i]) + (if i % 2 != 0 then [i] else [])
  }

  /** The targets of the undo buttons under "Prev O Moves": the even,
      non-zero history indices, in order. */
  function MovesO<T>(history: seq<T>): seq<nat>
    decreases |history|
  {
    if history == [] then []
    else
      var i := |history| - 1;
      MovesO(history[..i]) + (if i != 0 && i % 2 == 0 then [i] else [])
  }

  /** X's list offers exactly the odd history indices. */
  lemma {:induction false} MovesXMembers<T>(history: seq<T>)
    ensures forall i :: i in MovesX(history) <==> 0 <= i < |history| && i % 2 == 1
    decreases |history|
  {
    if history != [] {
      var n := |history| - 1;
      MovesXMembers(history[..n]);
      assert MovesX(history) == MovesX(history[..n]) + (if n % 2 != 0 then [n] else []);
    }
  }

  /** X's list is in increasing order. */
  lemma {:induction false} MovesXIncreasing<T>(history: seq<T>)
    ensures forall k, l :: 0 <= k < l < |MovesX(history)| ==> MovesX(history)[k] < MovesX(history)[l]
    decreases |history|
  {
    if history != [] {
      var n := |history| - 1;
      var prev := MovesX(history[..n]);
      MovesXIncreasing(history[..n]);
      MovesXMembers(history[..n]);
      assert MovesX(history) == prev + (if n % 2 != 0 then [n] else []);
      forall k | 0 <= k < |prev|
        ensures prev[k] < n
      {
        assert prev[k] in prev;
      }
    }
  }

  /** O's list offers exactly the even, non-zero history indices. */
  lemma {:induction false} MovesOMembers<T>(history: seq<T>)
    ensures forall i :: i in MovesO(history) <==> 1 <= i < |history| && i % 2 == 0
    decreases |history|
  {
    if history != [] {
      var n := |history| - 1;
      MovesOMembers(history[..n]);
      assert MovesO(history) == MovesO(history[..n]) + (if n != 0 && n % 2 == 0 then [n] else []);
    }
  }

  /** O's list is in increasing order. */
  lemma {:induction false} MovesOIncreasing<T>(history: seq<T>)
    ensures forall k, l :: 0 <= k < l < |MovesO(history)| ==> MovesO(history)[k] < MovesO(history)[l]
    decreases |history|
  {
    if history != [] {
      var n := |history| - 1;
      var prev := MovesO(history[..n]);
      MovesOIncreasing(history[..n]);
      MovesOMembers(history[..n]);
      assert MovesO(history) == prev + (if n != 0 && n % 2 == 0 then [n] else []);
      forall k | 0 <= k < |prev|
        ensures prev[k] < n
      {
        assert prev[k] in prev;
      }
    }
  }

  /** Every history index except 0 gets an undo button in exactly one of
      the two lists, so every target offered satisfies 1 <= i < |history|,
      the range in which jumpTo keeps the history non-empty. */
  lemma MovesPartition<T>(history: seq<T>, i: int)
    ensures (i in MovesX(history) || i in MovesO(history)) <==> 1 <= i < |history|
    ensures !(i in MovesX(history) && i in MovesO(history))
  {
    MovesXMembers(history);
    MovesOMembers(history);
    var inX, inO := i in MovesX(history), i in MovesO(history);
    assert inX <==> 0 <= i < |history| && i % 2 == 1;
    assert inO <==> 1 <= i < |history| && i % 2 == 0;
    assert i % 2 == 0 || i % 2 == 1;
  }
}
