/**
 * A move on the whole grid, as a function of the 16 cell values in
 * row-major order: every line runs through LineRules.SlideMergeLine, read
 * from the edge the move slides toward. Also the game-over condition and the
 * effect of filling empty cells.
 */
module Board {
  import opened Wrappers
  import opened GameCell
  import opened GameMoves
  import opened LineRules
  import opened LineSteps

  /**
   * The p-th cell of line i for a move, counted from the edge the move
   * slides toward: column i top-down for Up, column i bottom-up for Down,
   * row i left to right for Left, row i right to left for Right.
   */
  function SliceCell(d: GameMove, i: nat, p: nat): (k: CellIndex)
    requires d.Valid() && i < Size && p < Size
    ensures d.Up? ==> Col(k) == i && Row(k) == p
    ensures d.Down? ==> Col(k) == i && Row(k) == Size - 1 - p
    ensures d.Left? ==> Row(k) == i && Col(k) == p
    ensures d.Right? ==> Row(k) == i && Col(k) == Size - 1 - p
  {
    match d
    case Up => At(p, i)
    case Down => At(Size - 1 - p, i)
    case Left => At(i, p)
    case Right => At(i, Size - 1 - p)
  }

  /** The cells of line i for a move, in the order the move walks them. */
  function Slice(d: GameMove, i: nat): (s: seq<CellIndex>)
    requires d.Valid() && i < Size
    ensures |s| == Size && forall p :: 0 <= p < Size ==> s[p] == SliceCell(d, i, p)
  {
    seq(Size, p requires 0 <= p < Size => SliceCell(d, i, p))
  }

  /** The line a cell lies on for a move. */
  function LineOf(d: GameMove, k: CellIndex): (i: nat)
    requires d.Valid()
    ensures i < Size
  {
    if d.Up? || d.Down? then Col(k) else Row(k)
  }

  /** The position of a cell along its line for a move. */
  function PosOf(d: GameMove, k: CellIndex): (p: nat)
    requires d.Valid()
    ensures p < Size && SliceCell(d, LineOf(d, k), p) == k
  {
    match d
    case Up => Row(k)
    case Down => Size - 1 - Row(k)
    case Left => Col(k)
    case Right => Size - 1 - Col(k)
  }

  /** Every cell sits at one place only: the line and position of a slice cell are the ones it was chosen by. */
  lemma SliceCellLocated(d: GameMove, i: nat, p: nat)
    requires d.Valid() && i < Size && p < Size
    ensures LineOf(d, SliceCell(d, i, p)) == i && PosOf(d, SliceCell(d, i, p)) == p
  {
  }

  /**
   * The link a move follows from a cell to the next cell of its line: S for
   * Up, W for Right, E for Left, N for Down. It is absent at the far end.
   */
  function NeighborForMove(d: GameMove, k: CellIndex): (n: Option<CellIndex>)
    requires d.Valid()
    ensures n.Some? ==> Adjacent(k, n.value)
  {
    match d
    case Up => S(k)
    case Right => W(k)
    case Left => E(k)
    case Down => N(k)
  }

  /** The neighbour for a move is the next cell of the line the cell lies on; the last cell of a line has none. */
  lemma NeighborIsNext(d: GameMove, k: CellIndex)
    requires d.Valid()
    ensures PosOf(d, k) < Size - 1 ==> NeighborForMove(d, k) == Some(SliceCell(d, LineOf(d, k), PosOf(d, k) + 1))
    ensures PosOf(d, k) == Size - 1 ==> NeighborForMove(d, k).None?
  {
    match d
    case Up => NeighborUp(k);
    case Down => NeighborDown(k);
    case Left => NeighborLeft(k);
    case Right => NeighborRight(k);
  }

  lemma NeighborUp(k: CellIndex)
    ensures Row(k) < Size - 1 ==> S(k) == Some(SliceCell(Up, Col(k), Row(k) + 1))
    ensures Row(k) == Size - 1 ==> S(k).None?
  {
    if Row(k) < Size - 1 {
      SameCell(S(k).value, SliceCell(Up, Col(k), Row(k) + 1));
    }
  }

  lemma NeighborDown(k: CellIndex)
    ensures Row(k) > 0 ==> N(k) == Some(SliceCell(Down, Col(k), 4 - Row(k)))
    ensures Row(k) == 0 ==> N(k).None?
  {
    if Row(k) > 0 {
      SameCell(N(k).value, SliceCell(Down, Col(k), 4 - Row(k)));
    }
  }

  lemma NeighborLeft(k: CellIndex)
    ensures Col(k) < Size - 1 ==> E(k) == Some(SliceCell(Left, Row(k), Col(k) + 1))
    ensures Col(k) == Size - 1 ==> E(k).None?
  {
    if Col(k) < Size - 1 {
      SameCell(E(k).value, SliceCell(Left, Row(k), Col(k) + 1));
    }
  }

  lemma NeighborRight(k: CellIndex)
    ensures Col(k) > 0 ==> W(k) == Some(SliceCell(Right, Row(k), 4 - Col(k)))
    ensures Col(k) == 0 ==> W(k).None?
  {
    if Col(k) > 0 {
      SameCell(W(k).value, SliceCell(Right, Row(k), 4 - Col(k)));
    }
  }

  /** The values of line i for a move, front first. */
  function LineView(b: seq<int>, d: GameMove, i: nat): (s: seq<int>)
    requires |b| == Count && d.Valid() && i < Size
    ensures |s| == Size
  {
    seq(Size, p requires 0 <= p < Size => b[SliceCell(d, i, p)])
  }

  /** The reference result for each of the four lines of a move. */
  function LineResults(b: seq<int>, d: GameMove, goal: int): (r: seq<LineResult>)
    requires |b| == Count && d.Valid()
    ensures |r| == Size
  {
    seq(Size, i requires 0 <= i < Size => SlideMergeLine(LineView(b, d, i), goal))
  }

  /** For each of the four lines, whether the move changes it. */
  function LineChanges(b: seq<int>, d: GameMove, goal: int): (r: seq<bool>)
    requires |b| == Count && d.Valid()
    ensures |r| == Size
  {
    seq(Size, i requires 0 <= i < Size => LineResults(b, d, goal)[i].line != LineView(b, d, i))
  }

  /** The grid after the slide and merge phase of a move (before the new value is filled in). */
  function MoveBoard(b: seq<int>, d: GameMove, goal: int): (r: seq<int>)
    requires |b| == Count && d.Valid()
    ensures |r| == Count
  {
    seq(Count, k requires 0 <= k < Count => LineResults(b, d, goal)[LineOf(d, k)].line[PosOf(d, k)])
  }

  /** The score the merges of the first n lines add. */
  function GainUpTo(rs: seq<LineResult>, n: nat): int
    requires n <= |rs|
  {
    if n == 0 then 0 else GainUpTo(rs, n - 1) + rs[n - 1].gain
  }

  /** Whether a merge in one of the first n lines reaches the goal. */
  function WonUpTo(rs: seq<LineResult>, n: nat): bool
    requires n <= |rs|
  {
    n > 0 && (WonUpTo(rs, n - 1) || rs[n - 1].won)
  }

  /** Whether one of the first n flags is set. */
  function AnyUpTo(flags: seq<bool>, n: nat): bool
    requires n <= |flags|
  {
    n > 0 && (AnyUpTo(flags, n - 1) || flags[n - 1])
  }

  /** The grid once lines 0 to n - 1 have been processed and the others not yet. */
  function MovedUpTo(b: seq<int>, d: GameMove, goal: int, n: nat): (r: seq<int>)
    requires |b| == Count && d.Valid() && n <= Size
    ensures |r| == Count
  {
    seq(Count, k requires 0 <= k < Count => if LineOf(d, k) < n then MoveBoard(b, d, goal)[k] else b[k])
  }

  // ---------------------------------------------------------------------------
  // Lines of the board

  /** Writing one cell changes its line at its position and no other line. */
  lemma LineViewUpdate(b: seq<int>, d: GameMove, k: CellIndex, v: int, i: nat)
    requires |b| == Count && d.Valid() && i < Size
    ensures i == LineOf(d, k) ==> LineView(b[k := v], d, i) == LineView(b, d, i)[PosOf(d, k) := v]
    ensures i != LineOf(d, k) ==> LineView(b[k := v], d, i) == LineView(b, d, i)
  {
    var s, t := LineView(b, d, i), LineView(b[k := v], d, i);
    forall p | 0 <= p < 4 ensures t[p] == if SliceCell(d, i, p) == k then v else s[p] {
      SliceCellLocated(d, i, p);
    }
  }

  /** Each line of the moved grid is the reference rule applied to that line. */
  lemma MoveBoardLines(b: seq<int>, d: GameMove, goal: int, i: nat)
    requires |b| == Count && d.Valid() && i < Size
    ensures LineView(MoveBoard(b, d, goal), d, i) == SlideMergeLine(LineView(b, d, i), goal).line
  {
    forall p | 0 <= p < 4
      ensures LineView(MoveBoard(b, d, goal), d, i)[p] == SlideMergeLine(LineView(b, d, i), goal).line[p]
    {
      SliceCellLocated(d, i, p);
    }
  }

  /** Cell p of line i after a move holds what the line rule puts at position p. */
  lemma MoveBoardCell(b: seq<int>, d: GameMove, goal: int, i: nat, p: nat)
    requires |b| == Count && d.Valid() && i < Size && p < Size
    ensures MoveBoard(b, d, goal)[SliceCell(d, i, p)] == SlideMergeLine(LineView(b, d, i), goal).line[p]
  {
    SliceCellLocated(d, i, p);
  }

  /** Two grids that agree on every line of a move are the same grid. */
  lemma SameLinesSameBoard(a: seq<int>, b: seq<int>, d: GameMove)
    requires |a| == Count && |b| == Count && d.Valid()
    requires forall i :: 0 <= i < Size ==> LineView(a, d, i) == LineView(b, d, i)
    ensures a == b
  {
    forall k | 0 <= k < 16 ensures a[k] == b[k] {
      var i, p := LineOf(d, k), PosOf(d, k);
      assert LineView(a, d, i)[p] == LineView(b, d, i)[p];
    }
  }

  /** Processing none of the lines leaves the grid; processing all four gives the moved grid. */
  lemma MovedUpToEnds(b: seq<int>, d: GameMove, goal: int)
    requires |b| == Count && d.Valid()
    ensures MovedUpTo(b, d, goal, 0) == b
    ensures MovedUpTo(b, d, goal, Size) == MoveBoard(b, d, goal)
  {
  }

  /** Lines not yet processed still hold their original values. */
  lemma MovedUpToPending(b: seq<int>, d: GameMove, goal: int, n: nat, i: nat)
    requires |b| == Count && d.Valid() && n <= i < Size
    ensures LineView(MovedUpTo(b, d, goal, n), d, i) == LineView(b, d, i)
  {
    forall p | 0 <= p < 4 ensures LineView(MovedUpTo(b, d, goal, n), d, i)[p] == LineView(b, d, i)[p] {
      SliceCellLocated(d, i, p);
    }
  }

  /**
   * Processing line n of a partly moved grid, by replacing it with the
   * reference result and leaving the other lines, gives the grid with one
   * more line processed.
   */
  lemma MovedUpToStep(b: seq<int>, d: GameMove, goal: int, n: nat, c: seq<int>)
    requires |b| == Count && |c| == Count && d.Valid() && n < Size
    requires LineView(c, d, n) == SlideMergeLine(LineView(b, d, n), goal).line
    requires forall k :: 0 <= k < Count && LineOf(d, k) != n ==> c[k] == MovedUpTo(b, d, goal, n)[k]
    ensures c == MovedUpTo(b, d, goal, n + 1)
  {
    forall k | 0 <= k < 16 ensures c[k] == MovedUpTo(b, d, goal, n + 1)[k] {
      if LineOf(d, k) == n {
        assert c[k] == LineView(c, d, n)[PosOf(d, k)];
      }
    }
  }

  /** One of the first n flags is set exactly when some flag below n is. */
  lemma {:induction false} AnyUpToSome(flags: seq<bool>, n: nat)
    requires n <= |flags|
    ensures AnyUpTo(flags, n) <==> exists i :: 0 <= i < n && flags[i]
  {
    if n > 0 {
      AnyUpToSome(flags, n - 1);
    }
  }

  /** Lines that score nothing and reach no goal add up to nothing. */
  lemma {:induction false} QuietLinesAddNothing(rs: seq<LineResult>, n: nat)
    requires n <= |rs|
    requires forall i :: 0 <= i < n ==> rs[i].gain == 0 && !rs[i].won
    ensures GainUpTo(rs, n) == 0 && !WonUpTo(rs, n)
  {
    if n > 0 {
      QuietLinesAddNothing(rs, n - 1);
    }
  }

  /** Line i of the moved grid differs from line i of the grid exactly when the move changes that line. */
  lemma MoveBoardLineChanged(b: seq<int>, d: GameMove, goal: int, i: nat)
    requires |b| == Count && d.Valid() && i < Size
    ensures LineView(MoveBoard(b, d, goal), d, i) != LineView(b, d, i) <==> LineChanges(b, d, goal)[i]
  {
    MoveBoardLines(b, d, goal, i);
  }

  /** A move that changes none of the lines changes no cell. */
  lemma UnchangedLinesKeepBoard(b: seq<int>, d: GameMove, goal: int)
    requires |b| == Count && d.Valid()
    requires forall i :: 0 <= i < Size ==> !LineChanges(b, d, goal)[i]
    ensures MoveBoard(b, d, goal) == b
  {
    forall k | 0 <= k < 16 ensures MoveBoard(b, d, goal)[k] == b[k] {
      var i, p := LineOf(d, k), PosOf(d, k);
      assert !LineChanges(b, d, goal)[i];
      assert LineView(b, d, i)[p] == b[k];
    }
  }

  /** A move changes the grid exactly when it changes one of its lines. */
  lemma MoveBoardChanged(b: seq<int>, d: GameMove, goal: int)
    requires |b| == Count && d.Valid()
    ensures MoveBoard(b, d, goal) != b <==> AnyUpTo(LineChanges(b, d, goal), Size)
  {
    AnyUpToSome(LineChanges(b, d, goal), Size);
    if AnyUpTo(LineChanges(b, d, goal), Size) {
      var i :| 0 <= i < 4 && LineChanges(b, d, goal)[i];
      MoveBoardLineChanged(b, d, goal, i);
    } else {
      UnchangedLinesKeepBoard(b, d, goal);
    }
  }

  /** A move that changes no line scores nothing and reaches no goal. */
  lemma UnchangedMoveScoresNothing(b: seq<int>, d: GameMove, goal: int)
    requires |b| == Count && d.Valid()
    requires !AnyUpTo(LineChanges(b, d, goal), Size)
    ensures GainUpTo(LineResults(b, d, goal), Size) == 0 && !WonUpTo(LineResults(b, d, goal), Size)
  {
    var rs := LineResults(b, d, goal);
    AnyUpToSome(LineChanges(b, d, goal), Size);
    forall i | 0 <= i < 4 ensures rs[i].gain == 0 && !rs[i].won {
      assert !LineChanges(b, d, goal)[i];
      UnchangedLineScoresNothing(LineView(b, d, i), goal);
    }
    QuietLinesAddNothing(rs, Size);
  }

  /** Two grids agree on every cell off line i of a move. */
  predicate SameOffLine(a: seq<int>, b: seq<int>, d: GameMove, i: nat)
    requires |a| == Count && |b| == Count && d.Valid()
  {
    forall k :: 0 <= k < Count && LineOf(d, k) != i ==> a[k] == b[k]
  }

  // ---------------------------------------------------------------------------
  // Replacing one line

  /** The grid with line i of a move replaced by `x`, read in the order of the move. */
  function WithLine(b: seq<int>, d: GameMove, i: nat, x: seq<int>): (r: seq<int>)
    requires |b| == Count && d.Valid() && i < Size && |x| == Size
    ensures |r| == Count
  {
    seq(Count, k requires 0 <= k < Count => if LineOf(d, k) == i then x[PosOf(d, k)] else b[k])
  }

  /** The replaced line reads back as `x`; the other lines are untouched. */
  lemma WithLineView(b: seq<int>, d: GameMove, i: nat, x: seq<int>, j: nat)
    requires |b| == Count && d.Valid() && i < Size && |x| == Size && j < Size
    ensures LineView(WithLine(b, d, i, x), d, j) == if j == i then x else LineView(b, d, j)
  {
    forall p | 0 <= p < 4 ensures LineView(WithLine(b, d, i, x), d, j)[p] == (if j == i then x else LineView(b, d, j))[p] {
      SliceCellLocated(d, j, p);
    }
  }

  /** Putting back a line as it was leaves the grid; otherwise the grid changes. */
  lemma WithLineSame(b: seq<int>, d: GameMove, i: nat, x: seq<int>)
    requires |b| == Count && d.Valid() && i < Size && |x| == Size
    ensures WithLine(b, d, i, x) == b <==> x == LineView(b, d, i)
  {
    WithLineView(b, d, i, x, i);
    if x == LineView(b, d, i) {
      forall k | 0 <= k < 16 ensures WithLine(b, d, i, x)[k] == b[k] {
        if LineOf(d, k) == i {
          assert LineView(b, d, i)[PosOf(d, k)] == b[k];
        }
      }
    }
  }

  /** Replacing the same line twice keeps the second replacement. */
  lemma WithLineTwice(b: seq<int>, d: GameMove, i: nat, x: seq<int>, y: seq<int>)
    requires |b| == Count && d.Valid() && i < Size && |x| == Size && |y| == Size
    ensures WithLine(WithLine(b, d, i, x), d, i, y) == WithLine(b, d, i, y)
  {
  }

  /** Writing one cell replaces its line by the line with that position written. */
  lemma WithLineUpdate(b: seq<int>, d: GameMove, k: CellIndex, v: int)
    requires |b| == Count && d.Valid()
    ensures b[k := v] == WithLine(b, d, LineOf(d, k), LineView(b, d, LineOf(d, k))[PosOf(d, k) := v])
  {
    var i := LineOf(d, k);
    var a, c := b[k := v], WithLine(b, d, i, LineView(b, d, i)[PosOf(d, k) := v]);
    forall j | 0 <= j < 16 ensures a[j] == c[j] {
      if LineOf(d, j) == i {
        assert LineView(b, d, i)[PosOf(d, j)] == b[j];
        if j != k {
          assert SliceCell(d, i, PosOf(d, j)) == j;
        }
      }
    }
  }

  /** A grid that differs from b only on line i is b with line i replaced by what it now reads. */
  lemma WithLineOfOffLine(a: seq<int>, b: seq<int>, d: GameMove, i: nat)
    requires |a| == Count && |b| == Count && d.Valid() && i < Size
    requires SameOffLine(a, b, d, i)
    ensures a == WithLine(b, d, i, LineView(a, d, i))
  {
    forall k | 0 <= k < 16 ensures a[k] == WithLine(b, d, i, LineView(a, d, i))[k] {
      if LineOf(d, k) == i {
        assert LineView(a, d, i)[PosOf(d, k)] == a[k];
      }
    }
  }

  /** The grid with line i of a move packed from position p on, toward the edge the move slides to. */
  function PackFrom(b: seq<int>, d: GameMove, i: nat, p: nat): (r: seq<int>)
    requires |b| == Count && d.Valid() && i < Size && p <= Size
    ensures |r| == Count
  {
    WithLine(b, d, i, CompactFrom(LineView(b, d, i), p))
  }

  /** The last cell of a line has nothing behind it to pack. */
  lemma PackFromLast(b: seq<int>, d: GameMove, i: nat)
    requires |b| == Count && d.Valid() && i < Size
    ensures PackFrom(b, d, i, Size - 1) == b
  {
    CompactFromLast(LineView(b, d, i), 3);
    WithLineSame(b, d, i, LineView(b, d, i));
  }

  /** Packing from p + 1 is packing from p when the cell at p holds a value. */
  lemma PackFromKeep(b: seq<int>, d: GameMove, i: nat, p: nat)
    requires |b| == Count && d.Valid() && i < Size && p < Size - 1
    requires b[SliceCell(d, i, p)] != 0
    ensures PackFrom(b, d, i, p + 1) == PackFrom(b, d, i, p)
  {
    CompactFromKeep(LineView(b, d, i), p);
  }

  /**
   * An empty cell at p taking the value of the cell at p + 1, which becomes
   * empty, and then packing from p + 1, is packing from p; and that changes the grid.
   */
  lemma PackFromPull(b: seq<int>, d: GameMove, i: nat, p: nat)
    requires |b| == Count && d.Valid() && i < Size && p < Size - 1
    requires b[SliceCell(d, i, p)] == 0 && b[SliceCell(d, i, p + 1)] != 0
    ensures PackFrom(b[SliceCell(d, i, p) := b[SliceCell(d, i, p + 1)]][SliceCell(d, i, p + 1) := 0], d, i, p + 1) == PackFrom(b, d, i, p)
    ensures PackFrom(b, d, i, p) != b
  {
    var k, n := SliceCell(d, i, p), SliceCell(d, i, p + 1);
    SliceCellLocated(d, i, p);
    SliceCellLocated(d, i, p + 1);
    var s := LineView(b, d, i);
    var b2 := b[k := b[n]];
    var b3 := b2[n := 0];
    WithLineUpdate(b, d, k, b[n]);
    WithLineView(b, d, i, s[p := s[p + 1]], i);
    WithLineUpdate(b2, d, n, 0);
    WithLineTwice(b, d, i, s[p := s[p + 1]], s[p := s[p + 1]][p + 1 := 0]);
    WithLineView(b, d, i, s[p := s[p + 1]][p + 1 := 0], i);
    CompactFromPull(s, p);
    WithLineTwice(b, d, i, s[p := s[p + 1]][p + 1 := 0], CompactFrom(s, p));
    WithLineSame(b, d, i, CompactFrom(s, p));
  }

  /** Packing from p + 1 and then from p is packing from p. */
  lemma PackFromTwice(b: seq<int>, d: GameMove, i: nat, p: nat)
    requires |b| == Count && d.Valid() && i < Size && p < Size - 1
    ensures PackFrom(PackFrom(b, d, i, p + 1), d, i, p) == PackFrom(b, d, i, p)
  {
    var s := LineView(b, d, i);
    WithLineView(b, d, i, CompactFrom(s, p + 1), i);
    CompactFromTwice(s, p);
    WithLineTwice(b, d, i, CompactFrom(s, p + 1), CompactFrom(s, p));
  }

  /** An empty cell at p with only empty cells behind it once packed from p + 1: the line was empty from p on. */
  lemma PackFromZeroHead(b: seq<int>, d: GameMove, i: nat, p: nat)
    requires |b| == Count && d.Valid() && i < Size && p < Size - 1
    requires b[SliceCell(d, i, p)] == 0 && PackFrom(b, d, i, p + 1)[SliceCell(d, i, p + 1)] == 0
    ensures PackFrom(b, d, i, p + 1) == b && PackFrom(b, d, i, p) == b
  {
    var s := LineView(b, d, i);
    var u := CompactFrom(s, p + 1);
    assert s[p] == 0;
    SliceCellLocated(d, i, p + 1);
    WithLineView(b, d, i, u, i);
    assert LineView(WithLine(b, d, i, u), d, i)[p + 1] == WithLine(b, d, i, u)[SliceCell(d, i, p + 1)];
    assert u[p + 1] == 0;
    CompactFromEmpty(s, p + 1);
    assert u == s;
    CompactFromZeroHead(s, p);
    WithLineSame(b, d, i, s);
  }

  /** Packing from p + 1 leaves the cell at p as it was. */
  lemma PackFromKeepsBefore(b: seq<int>, d: GameMove, i: nat, p: nat)
    requires |b| == Count && d.Valid() && i < Size && p < Size - 1
    ensures PackFrom(b, d, i, p + 1)[SliceCell(d, i, p)] == b[SliceCell(d, i, p)]
  {
    var s := LineView(b, d, i);
    SliceCellLocated(d, i, p);
    WithLineView(b, d, i, CompactFrom(s, p + 1), i);
    assert CompactFrom(s, p + 1)[p] == s[p];
  }

  /**
   * The pulling case of the recursive fill: the cell at p is empty; if the
   * cell at p + 1 was empty too, the line was first packed from p + 1 (b1);
   * now the cell at p + 1 holds a value, which moves to p before packing
   * from p + 1 again. The result is packing from p, and it differs from b0.
   */
  lemma PackFromPullCase(b0: seq<int>, b1: seq<int>, d: GameMove, i: nat, p: nat)
    requires |b0| == Count && d.Valid() && i < Size && p < Size - 1
    requires b0[SliceCell(d, i, p)] == 0
    requires b1 == if b0[SliceCell(d, i, p + 1)] == 0 then PackFrom(b0, d, i, p + 1) else b0
    requires b1[SliceCell(d, i, p + 1)] != 0
    ensures b1[SliceCell(d, i, p)] == 0
    ensures PackFrom(b1[SliceCell(d, i, p) := b1[SliceCell(d, i, p + 1)]][SliceCell(d, i, p + 1) := 0], d, i, p + 1) == PackFrom(b0, d, i, p)
    ensures PackFrom(b0, d, i, p) != b0
  {
    PackFromKeepsBefore(b0, d, i, p);
    PackFromPull(b1, d, i, p);
    if b1 != b0 {
      PackFromTwice(b0, d, i, p);
    } else {
      PackFromPull(b0, d, i, p);
    }
  }

  /** Packing a replaced line from p is replacing it by the packed line. */
  lemma WithLinePack(b: seq<int>, d: GameMove, i: nat, x: seq<int>, p: nat)
    requires |b| == Count && d.Valid() && i < Size && |x| == Size && p <= Size
    ensures PackFrom(WithLine(b, d, i, x), d, i, p) == WithLine(b, d, i, CompactFrom(x, p))
  {
    WithLineView(b, d, i, x, i);
    WithLineTwice(b, d, i, x, CompactFrom(x, p));
  }

  /** Two replacements of the same line give the same grid exactly when the lines are the same. */
  lemma WithLineInjective(b: seq<int>, d: GameMove, i: nat, x: seq<int>, y: seq<int>)
    requires |b| == Count && d.Valid() && i < Size && |x| == Size && |y| == Size
    ensures WithLine(b, d, i, x) == WithLine(b, d, i, y) <==> x == y
  {
    WithLineView(b, d, i, x, i);
    WithLineView(b, d, i, y, i);
  }

  /** Writing the cell at position q of a replaced line is writing position q of the line. */
  lemma WithLineWrite(b: seq<int>, d: GameMove, i: nat, y: seq<int>, q: nat, v: int)
    requires |b| == Count && d.Valid() && i < Size && |y| == Size && q < Size
    ensures WithLine(b, d, i, y)[SliceCell(d, i, q)] == y[q]
    ensures WithLine(b, d, i, y)[SliceCell(d, i, q) := v] == WithLine(b, d, i, y[q := v])
  {
    var c, k := WithLine(b, d, i, y), SliceCell(d, i, q);
    SliceCellLocated(d, i, q);
    WithLineView(b, d, i, y, i);
    WithLineUpdate(c, d, k, v);
    WithLineTwice(b, d, i, y, y[q := v]);
  }

  /**
   * Merging the cell at p + 1 of a replaced line into the cell at p is
   * replacing the line by the line with that merge done.
   */
  lemma WithLineMerge(b: seq<int>, d: GameMove, i: nat, x: seq<int>, p: nat, c: seq<int>, v: int)
    requires |b| == Count && d.Valid() && i < Size && |x| == Size && p < Size - 1
    requires c == WithLine(b, d, i, x)
    ensures c[SliceCell(d, i, p)] == x[p] && c[SliceCell(d, i, p + 1)] == x[p + 1]
    ensures c[SliceCell(d, i, p) := v][SliceCell(d, i, p + 1) := 0] == WithLine(b, d, i, x[p := v][p + 1 := 0])
  {
    var k, n := SliceCell(d, i, p), SliceCell(d, i, p + 1);
    SliceCellLocated(d, i, p);
    SliceCellLocated(d, i, p + 1);
    var y := x[p := v];
    WithLineView(b, d, i, x, i);
    WithLineUpdate(c, d, k, v);
    WithLineTwice(b, d, i, x, y);
    var c2 := c[k := v];
    assert c2 == WithLine(b, d, i, y);
    WithLineView(b, d, i, y, i);
    WithLineUpdate(c2, d, n, 0);
    WithLineTwice(b, d, i, y, y[p + 1 := 0]);
  }

  /**
   * One cell of a line worked on the grid: `filled` is the grid with line i
   * packed from position p on, and `after` is that grid with the cell at p
   * merged with the next one when they are equal and not 0. Together they
   * are the step at p on the line: its line, its score (the merged value),
   * its win (the merged value is the goal) and its change (a pull or a merge).
   */
  lemma CellStepOnGrid(b: seq<int>, d: GameMove, i: nat, p: nat, goal: int,
                       filled: seq<int>, after: seq<int>, pulled: bool, merged: bool)
    requires |b| == Count && d.Valid() && i < Size && p < Size
    requires filled == PackFrom(b, d, i, p)
    requires pulled <==> filled != b
    requires merged <==> (p < Size - 1 && filled[SliceCell(d, i, p)] != 0 &&
      filled[SliceCell(d, i, p)] == filled[SliceCell(d, i, p + 1)])
    requires merged ==> (p < Size - 1 &&
      after == filled[SliceCell(d, i, p) := filled[SliceCell(d, i, p)] + filled[SliceCell(d, i, p)]][SliceCell(d, i, p + 1) := 0])
    requires !merged ==> after == filled
    ensures var st, v := StepAt(LineView(b, d, i), p, goal), filled[SliceCell(d, i, p)];
      after == WithLine(b, d, i, st.line) &&
      st.gain == (if merged then v + v else 0) &&
      st.won == (merged && v + v == goal) &&
      st.moved == (pulled || merged)
  {
    var x := LineView(b, d, i);
    var u := CompactFrom(x, p);
    assert filled == WithLine(b, d, i, u);
    PackFromChanged(b, d, i, p);
    MergeOnGrid(b, d, i, u, p, filled, after, merged);
  }

  /**
   * On a grid whose line i reads `u`, merging the cell at p with the next
   * one when they are equal and not 0 is merging `u` at p.
   */
  lemma MergeOnGrid(b: seq<int>, d: GameMove, i: nat, u: seq<int>, p: nat, filled: seq<int>, after: seq<int>, merged: bool)
    requires |b| == Count && d.Valid() && i < Size && |u| == Size && p < Size
    requires filled == WithLine(b, d, i, u)
    requires merged <==> (p < Size - 1 && filled[SliceCell(d, i, p)] != 0 &&
      filled[SliceCell(d, i, p)] == filled[SliceCell(d, i, p + 1)])
    requires merged ==> (p < Size - 1 &&
      after == filled[SliceCell(d, i, p) := filled[SliceCell(d, i, p)] + filled[SliceCell(d, i, p)]][SliceCell(d, i, p + 1) := 0])
    requires !merged ==> after == filled
    ensures filled[SliceCell(d, i, p)] == u[p]
    ensures merged == MergesAt(u, p)
    ensures after == WithLine(b, d, i, MergeAt(u, p))
  {
    var k := SliceCell(d, i, p);
    SliceCellLocated(d, i, p);
    WithLineView(b, d, i, u, i);
    assert filled[k] == u[p];
    if p < Size - 1 {
      var n := SliceCell(d, i, p + 1);
      SliceCellLocated(d, i, p + 1);
      assert filled[n] == u[p + 1];
    }
    if merged {
      MergedOnGrid(b, d, i, u, p, filled, after);
    }
  }

  /** The merge case of MergeOnGrid: the doubled cell and the emptied one are `u` merged at p. */
  lemma MergedOnGrid(b: seq<int>, d: GameMove, i: nat, u: seq<int>, p: nat, filled: seq<int>, after: seq<int>)
    requires |b| == Count && d.Valid() && i < Size && |u| == Size && p < Size - 1
    requires filled == WithLine(b, d, i, u) && MergesAt(u, p)
    requires filled[SliceCell(d, i, p)] == u[p]
    requires after == filled[SliceCell(d, i, p) := filled[SliceCell(d, i, p)] + filled[SliceCell(d, i, p)]][SliceCell(d, i, p + 1) := 0]
    ensures after == WithLine(b, d, i, MergeAt(u, p))
  {
    var k, n := SliceCell(d, i, p), SliceCell(d, i, p + 1);
    var v := u[p] + u[p + 1];
    calc {
      after;
      filled[k := filled[k] + filled[k]][n := 0];
      { assert filled[k] + filled[k] == v; }
      filled[k := v][n := 0];
      { WithLineMerge(b, d, i, u, p, filled, v); }
      WithLine(b, d, i, u[p := v][p + 1 := 0]);
    }
  }

  /** Packing line i from p changes the grid exactly when it changes the line. */
  lemma PackFromChanged(b: seq<int>, d: GameMove, i: nat, p: nat)
    requires |b| == Count && d.Valid() && i < Size && p <= Size
    ensures PackFrom(b, d, i, p) != b <==> CompactFrom(LineView(b, d, i), p) != LineView(b, d, i)
  {
    WithLineSame(b, d, i, CompactFrom(LineView(b, d, i), p));
  }

  /**
   * Replacing line n of a grid whose first n lines are done by what the
   * line algorithm makes of it gives the grid whose first n + 1 lines are
   * done; the score, win and change it reports are the reference ones.
   */
  lemma SweptLineReplaces(b0: seq<int>, d: GameMove, goal: int, n: nat, before: seq<int>)
    requires |b0| == Count && |before| == Count && d.Valid() && n < Size
    requires before == MovedUpTo(b0, d, goal, n)
    ensures |Sweep(LineView(before, d, n), goal).line| == Size
    ensures WithLine(before, d, n, Sweep(LineView(before, d, n), goal).line) == MovedUpTo(b0, d, goal, n + 1)
    ensures Sweep(LineView(before, d, n), goal).gain == LineResults(b0, d, goal)[n].gain
    ensures Sweep(LineView(before, d, n), goal).won == LineResults(b0, d, goal)[n].won
    ensures Sweep(LineView(before, d, n), goal).moved == LineChanges(b0, d, goal)[n]
  {
    var line := LineView(before, d, n);
    SweepIsSlideMerge(line, goal);
    var after := WithLine(before, d, n, Sweep(line, goal).line);
    WithLineView(before, d, n, Sweep(line, goal).line, n);
    SweptLineAdvances(b0, d, goal, n, before, after);
  }

  /** Writing a cell keeps every cell off its line. */
  lemma SameOffLineUpdate(b: seq<int>, d: GameMove, k: CellIndex, v: int)
    requires |b| == Count && d.Valid()
    ensures SameOffLine(b[k := v], b, d, LineOf(d, k))
  {
  }

  lemma SameOffLineTrans(a: seq<int>, b: seq<int>, c: seq<int>, d: GameMove, i: nat)
    requires |a| == Count && |b| == Count && |c| == Count && d.Valid()
    requires SameOffLine(a, b, d, i) && SameOffLine(b, c, d, i)
    ensures SameOffLine(a, c, d, i)
  {
  }

  /**
   * Running the line algorithm on line n of a grid whose first n lines are
   * done, and touching nothing else, gives the grid whose first n + 1 lines
   * are done; the score, win and change it reports are the reference ones.
   */
  lemma SweptLineAdvances(b0: seq<int>, d: GameMove, goal: int, n: nat, before: seq<int>, after: seq<int>)
    requires |b0| == Count && |before| == Count && |after| == Count && d.Valid() && n < Size
    requires before == MovedUpTo(b0, d, goal, n)
    requires LineView(after, d, n) == Sweep(LineView(before, d, n), goal).line
    requires SameOffLine(after, before, d, n)
    ensures after == MovedUpTo(b0, d, goal, n + 1)
    ensures Sweep(LineView(before, d, n), goal).gain == LineResults(b0, d, goal)[n].gain
    ensures Sweep(LineView(before, d, n), goal).won == LineResults(b0, d, goal)[n].won
    ensures Sweep(LineView(before, d, n), goal).moved == LineChanges(b0, d, goal)[n]
  {
    MovedUpToPending(b0, d, goal, n, n);
    var line := LineView(b0, d, n);
    SweepIsSlideMerge(line, goal);
    SweepMovedIffChanged(line, goal);
    MovedUpToStep(b0, d, goal, n, after);
  }

  // ---------------------------------------------------------------------------
  // Game over

  /** The grid is stuck: no empty cell and no two adjacent cells with equal values. */
  predicate IsGameOver(b: seq<int>)
    requires |b| == Count
  {
    (forall k: CellIndex :: b[k] != 0) &&
    (forall a: CellIndex, c: CellIndex :: Adjacent(a, c) ==> b[a] != b[c])
  }

  /** Consecutive cells of a line share an edge. */
  lemma SliceNeighborsAdjacent(d: GameMove, i: nat, p: nat)
    requires d.Valid() && i < Size && p < Size - 1
    ensures Adjacent(SliceCell(d, i, p), SliceCell(d, i, p + 1))
  {
  }

  /** On a stuck grid no move changes anything, in any of the four directions. */
  lemma GameOverBlocksMoves(b: seq<int>, d: GameMove, goal: int)
    requires |b| == Count && d.Valid()
    requires IsGameOver(b)
    ensures MoveBoard(b, d, goal) == b
  {
    forall i | 0 <= i < 4 ensures !LineChanges(b, d, goal)[i] {
      var s := LineView(b, d, i);
      forall p | 0 <= p < 3 ensures s[p] != s[p + 1] {
        SliceNeighborsAdjacent(d, i, p);
      }
      BlockedLineStays(s, goal);
    }
    UnchangedLinesKeepBoard(b, d, goal);
  }

  // ---------------------------------------------------------------------------
  // Filling empty cells

  /** The indices of the empty cells. */
  function ZeroSet(b: seq<int>): set<nat> {
    set k | 0 <= k < |b| && b[k] == 0
  }

  /** The cells that were empty before and hold a value after. */
  function FilledSet(before: seq<int>, after: seq<int>): set<nat>
    requires |after| == |before|
  {
    set k | 0 <= k < |before| && before[k] == 0 && after[k] != 0
  }

  function Min(a: int, b: int): int {
    if a <= b then a else b
  }

  /**
   * `after` is `before` with min(count, number of empty cells) distinct empty
   * cells set to 2 or 4, and every other cell left as it was.
   */
  predicate FilledFrom(before: seq<int>, after: seq<int>, count: nat) {
    |after| == |before| &&
    (forall k :: 0 <= k < |before| && before[k] != 0 ==> after[k] == before[k]) &&
    (forall k :: 0 <= k < |before| && before[k] == 0 && after[k] != 0 ==> after[k] == 2 || after[k] == 4) &&
    |FilledSet(before, after)| == Min(count, |ZeroSet(before)|)
  }

  /** The empty cells after a fill are the empty cells before minus the filled ones. */
  lemma FillShrinksZeroSet(before: seq<int>, after: seq<int>, count: nat)
    requires FilledFrom(before, after, count)
    ensures ZeroSet(after) == ZeroSet(before) - FilledSet(before, after)
    ensures |ZeroSet(after)| == |ZeroSet(before)| - Min(count, |ZeroSet(before)|)
  {
    var f := FilledSet(before, after);
    assert ZeroSet(after) == ZeroSet(before) - f;
    assert f <= ZeroSet(before);
    assert ZeroSet(before) == ZeroSet(after) + f;
    assert ZeroSet(after) * f == {};
  }
}
