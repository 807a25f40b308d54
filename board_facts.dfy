/**
 * What a move and a fill promise on the whole grid: every line keeps its
 * total, the score never decreases on a grid of values no lower than 0, a
 * win leaves the goal on the grid, and a fresh start leaves exactly two
 * cells filled.
 */
module BoardFacts {
  import opened GameCell
  import opened GameMoves
  import opened LineRules
  import opened LineFacts
  import opened Board

  /** A move keeps the total of every line it runs along. */
  lemma MoveKeepsLineSums(b: seq<int>, d: GameMove, goal: int, i: nat)
    requires |b| == Count && d.Valid() && i < Size
    ensures Sum(LineView(MoveBoard(b, d, goal), d, i)) == Sum(LineView(b, d, i))
  {
    MoveBoardLines(b, d, goal, i);
    SlideMergeKeepsSum(LineView(b, d, i), goal);
  }

  lemma {:induction false} GainUpToNonNegative(rs: seq<LineResult>, n: nat)
    requires n <= |rs| && forall i :: 0 <= i < |rs| ==> rs[i].gain >= 0
    ensures GainUpTo(rs, n) >= 0
  {
    if n > 0 {
      GainUpToNonNegative(rs, n - 1);
    }
  }

  /** On a grid of values no lower than 0 a move adds no less than 0 to the score. */
  lemma MoveGainNonNegative(b: seq<int>, d: GameMove, goal: int)
    requires |b| == Count && d.Valid()
    requires forall k :: 0 <= k < Count ==> b[k] >= 0
    ensures GainUpTo(LineResults(b, d, goal), Size) >= 0
  {
    var rs := LineResults(b, d, goal);
    forall i | 0 <= i < Size ensures rs[i].gain >= 0 {
      SlideMergeGainNonNegative(LineView(b, d, i), goal);
    }
    GainUpToNonNegative(rs, Size);
  }

  lemma {:induction false} WonUpToSome(rs: seq<LineResult>, n: nat)
    requires n <= |rs|
    ensures WonUpTo(rs, n) <==> exists i :: 0 <= i < n && rs[i].won
  {
    if n > 0 {
      WonUpToSome(rs, n - 1);
    }
  }

  /** A raised win flag names a line that raised it. */
  lemma {:induction false} WonLine(rs: seq<LineResult>, n: nat) returns (i: nat)
    requires n <= |rs| && WonUpTo(rs, n)
    ensures i < n && rs[i].won
  {
    if rs[n - 1].won {
      i := n - 1;
    } else {
      i := WonLine(rs, n - 1);
    }
  }

  /** A line whose move reaches the goal leaves a cell of the grid holding the goal. */
  lemma WonLineShowsGoal(b: seq<int>, d: GameMove, goal: int, i: nat)
    requires |b| == Count && d.Valid() && i < Size
    requires SlideMergeLine(LineView(b, d, i), goal).won
    ensures goal in MoveBoard(b, d, goal)
  {
    var r := SlideMergeLine(LineView(b, d, i), goal);
    SlideMergeWon(LineView(b, d, i), goal);
    var p :| 0 <= p < |r.line| && r.line[p] == goal;
    MoveBoardCell(b, d, goal, i, p);
  }

  /** A move that reaches the goal leaves a cell holding the goal. */
  lemma MoveWinShowsGoal(b: seq<int>, d: GameMove, goal: int)
    requires |b| == Count && d.Valid()
    requires WonUpTo(LineResults(b, d, goal), Size)
    ensures goal in MoveBoard(b, d, goal)
  {
    var i := WonLine(LineResults(b, d, goal), Size);
    WonLineShowsGoal(b, d, goal, i);
  }

  /**
   * A move that leaves the goal in cell k, when no cell held the goal
   * before, reaches it.
   */
  lemma MoveGoalShowsWin(b: seq<int>, d: GameMove, goal: int, k: CellIndex)
    requires |b| == Count && d.Valid() && goal != 0
    requires forall c :: 0 <= c < Count ==> b[c] != goal
    requires MoveBoard(b, d, goal)[k] == goal
    ensures WonUpTo(LineResults(b, d, goal), Size)
  {
    var rs := LineResults(b, d, goal);
    var i, p := LineOf(d, k), PosOf(d, k);
    var s := LineView(b, d, i);
    assert goal !in s by {
      forall q | 0 <= q < Size ensures s[q] != goal {
        assert s[q] == b[SliceCell(d, i, q)];
      }
    }
    assert rs[i].line[p] == goal;
    SlideMergeWon(s, goal);
    WonUpToSome(rs, Size);
  }

  // ---------------------------------------------------------------------------
  // A row worked out

  /** The first line of a Left move is the first row, front first. */
  lemma FirstRowLeft(c: seq<int>)
    requires |c| == Count
    ensures LineView(c, Left, 0) == c[..4]
  {
  }

  /** The first line of a Right move is the first row, back first. */
  lemma FirstRowRight(c: seq<int>)
    requires |c| == Count
    ensures LineView(c, Right, 0) == [c[3], c[2], c[1], c[0]]
    ensures c[..4] == [c[0], c[1], c[2], c[3]]
  {
  }

  /** A first row of [1024, 1024, 2, 2] becomes [2048, 4, 0, 0] going left, and the move reaches 2048. */
  lemma WinningRowLeft(b: seq<int>)
    requires |b| == Count && b[..4] == [1024, 1024, 2, 2]
    ensures MoveBoard(b, Left, 2048)[..4] == [2048, 4, 0, 0]
    ensures LineResults(b, Left, 2048)[0].won
  {
    FirstRowLeft(b);
    WinningLine();
    MoveBoardLines(b, Left, 2048, 0);
    FirstRowLeft(MoveBoard(b, Left, 2048));
  }

  /** The same first row becomes [0, 0, 2048, 4] going right, and the move reaches 2048. */
  lemma WinningRowRight(b: seq<int>)
    requires |b| == Count && b[..4] == [1024, 1024, 2, 2]
    ensures MoveBoard(b, Right, 2048)[..4] == [0, 0, 2048, 4]
    ensures LineResults(b, Right, 2048)[0].won
  {
    FirstRowRight(b);
    assert LineView(b, Right, 0) == [2, 2, 1024, 1024];
    WinningLineReversed();
    MoveBoardLines(b, Right, 2048, 0);
    var r := MoveBoard(b, Right, 2048);
    FirstRowRight(r);
    assert LineView(r, Right, 0) == [4, 2048, 0, 0];
  }

  // ---------------------------------------------------------------------------
  // A fresh start

  /** Every cell of an empty grid of n cells is empty. */
  lemma {:induction false} EmptyGridSize(n: nat)
    ensures |ZeroSet(Zeros(n))| == n
  {
    if n > 0 {
      EmptyGridSize(n - 1);
      assert ZeroSet(Zeros(n)) == ZeroSet(Zeros(n - 1)) + {n - 1};
    }
  }

  /**
   * Filling two cells of the empty grid, as a start does, leaves exactly two
   * cells holding 2 or 4 and fourteen cells empty.
   */
  lemma FreshStartFillsTwo(after: seq<int>)
    requires FilledFrom(Zeros(Count), after, 2)
    ensures |FilledSet(Zeros(Count), after)| == 2
    ensures |ZeroSet(after)| == 14
    ensures forall k :: 0 <= k < Count ==> after[k] == 0 || after[k] == 2 || after[k] == 4
  {
    EmptyGridSize(Count);
    FillShrinksZeroSet(Zeros(Count), after, 2);
  }
}
