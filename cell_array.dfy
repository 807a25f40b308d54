/**
 * The procedures both grids run over their 16 cells in row-major order:
 * filling empty cells with 2 or 4, checking for game over, and copying the
 * cell values out to the game model.
 */
module CellArray {
  import opened Wrappers
  import opened GameCell
  import opened Board

  /** The empty cells, listed in row-major order. */
  method ListZeroes(cells: array<int>) returns (zeroes: seq<CellIndex>)
    requires cells.Length == Count
    ensures Increasing(zeroes)
    ensures forall x: nat :: x in zeroes <==> x < Count && cells[x] == 0
    ensures |zeroes| == |ZeroSet(cells[..])|
  {
    zeroes := [];
    ghost var listed: set<nat> := {};
    var k := 0;
    while k < 16
      invariant 0 <= k <= 16
      invariant forall a, b :: 0 <= a < b < |zeroes| ==> zeroes[a] < zeroes[b]
      invariant forall a :: 0 <= a < |zeroes| ==> zeroes[a] < k
      invariant forall x: nat :: x in zeroes <==> x < k && cells[x] == 0
      invariant listed == set x: nat | x < k && cells[x] == 0
      invariant |zeroes| == |listed|
    {
      if cells[k] == 0 {
        zeroes := zeroes + [k];
        listed := listed + {k};
      }
      k := k + 1;
    }
    assert listed == ZeroSet(cells[..]);
  }

  predicate Increasing(s: seq<CellIndex>) {
    forall a, b :: 0 <= a < b < |s| ==> s[a] < s[b]
  }

  /** Dropping the entry at z from an increasing list drops exactly that cell. */
  lemma RemoveAtDropsOne(s: seq<CellIndex>, z: nat)
    requires Increasing(s) && z < |s|
    ensures Increasing(s[..z] + s[z + 1..]) && |s[..z] + s[z + 1..]| == |s| - 1
    ensures forall x :: x in s[..z] + s[z + 1..] <==> x in s && x != s[z]
  {
    var r := s[..z] + s[z + 1..];
    assert forall a :: 0 <= a < |r| ==> r[a] == if a < z then s[a] else s[a + 1];
    forall x | x in s && x != s[z] ensures x in r {
      var a :| 0 <= a < |s| && s[a] == x;
      if a < z { assert r[a] == x; } else { assert r[a - 1] == x; }
    }
  }

  /** Filling one more empty cell adds it to the filled cells. */
  lemma FilledSetGrows(before: seq<int>, cur: seq<int>, x: nat, v: int)
    requires |cur| == |before| && x < |cur| && before[x] == 0 && cur[x] == 0 && v != 0
    ensures x !in FilledSet(before, cur)
    ensures FilledSet(before, cur[x := v]) == FilledSet(before, cur) + {x}
  {
  }

  /**
   * Lists the empty cells, then `count` times turns a randomly chosen listed
   * cell into 2 or 4 and drops it from the list, stopping early once the
   * list is empty. The random choices are left open: the contract holds for
   * every choice of cell and of value.
   */
  method FillCells(cells: array<int>, count: nat)
    requires cells.Length == Count
    modifies cells
    ensures FilledFrom(old(cells[..]), cells[..], count)
  {
    ghost var before := cells[..];
    var zeroes := ListZeroes(cells);
    ghost var filled: set<nat> := {};
    assert FilledSet(before, cells[..]) == filled;
    if |zeroes| > 0 {
      var i := 0;
      while i < count
        invariant 0 <= i <= count && |zeroes| > 0
        invariant Filling(before, cells[..], zeroes, filled, i)
      {
        var z :| 0 <= z < |zeroes|;
        assert 2 in {2, 4};
        var v :| v in {2, 4};
        var cell := zeroes[z];
        FillingStep(before, cells[..], zeroes, filled, i, z, v);
        cells[cell] := v;
        filled := filled + {cell};
        zeroes := zeroes[..z] + zeroes[z + 1..];
        i := i + 1;
        if |zeroes| == 0 {
          break;
        }
      }
    }
  }

  /**
   * What the fill loop keeps after filling i cells: the list holds exactly
   * the cells still empty, the cells that held a value keep it, the filled
   * ones hold 2 or 4, and i of the cells empty at the start are filled.
   */
  ghost predicate Filling(before: seq<int>, cur: seq<int>, zeroes: seq<CellIndex>, filled: set<nat>, i: nat) {
    |before| == Count && |cur| == Count && Increasing(zeroes) &&
    (forall x: nat :: x in zeroes <==> x < Count && cur[x] == 0) &&
    (forall x :: 0 <= x < Count && before[x] != 0 ==> cur[x] == before[x]) &&
    (forall x :: 0 <= x < Count && before[x] == 0 && cur[x] != 0 ==> cur[x] == 2 || cur[x] == 4) &&
    FilledSet(before, cur) == filled && |filled| == i && |zeroes| + i == |ZeroSet(before)|
  }

  /** Filling the listed cell at z with 2 or 4 and dropping it from the list keeps the fill loop on track. */
  lemma FillingStep(before: seq<int>, cur: seq<int>, zeroes: seq<CellIndex>, filled: set<nat>, i: nat, z: nat, v: int)
    requires Filling(before, cur, zeroes, filled, i) && z < |zeroes| && (v == 2 || v == 4)
    ensures Filling(before, cur[zeroes[z] := v], zeroes[..z] + zeroes[z + 1..], filled + {zeroes[z]}, i + 1)
  {
    FilledSetGrows(before, cur, zeroes[z], v);
    RemoveAtDropsOne(zeroes, z);
  }

  /** A neighbour does not let the value move: there is none, or it holds another value that is not 0. */
  predicate Blocks(b: seq<int>, n: Option<CellIndex>, value: int)
    requires |b| == Count
  {
    n.None? || (b[n.value] != 0 && b[n.value] != value)
  }

  /** A cell is stuck: it holds a value and each of its N, E, W and S neighbours blocks it. */
  predicate Stuck(b: seq<int>, k: CellIndex)
    requires |b| == Count
  {
    b[k] != 0 && Blocks(b, N(k), b[k]) && Blocks(b, E(k), b[k]) && Blocks(b, W(k), b[k]) && Blocks(b, S(k), b[k])
  }

  /** On a grid that is over, a cell is stuck. */
  lemma GameOverCellStuck(b: seq<int>, k: CellIndex)
    requires |b| == Count && IsGameOver(b)
    ensures Stuck(b, k)
  {
    LinksAreAdjacency(k, if N(k).Some? then N(k).value else k);
    LinksAreAdjacency(k, if E(k).Some? then E(k).value else k);
    LinksAreAdjacency(k, if W(k).Some? then W(k).value else k);
    LinksAreAdjacency(k, if S(k).Some? then S(k).value else k);
  }

  /** When every cell is stuck, no two adjacent cells are equal. */
  lemma StuckCellsDiffer(b: seq<int>, a: CellIndex, c: CellIndex)
    requires |b| == Count && Adjacent(a, c) && Stuck(b, a)
    ensures b[a] != b[c]
  {
    LinksAreAdjacency(a, c);
  }

  /** The game is over exactly when every cell is stuck. */
  lemma AllStuckIsGameOver(b: seq<int>)
    requires |b| == Count
    ensures (forall k: CellIndex :: Stuck(b, k)) <==> IsGameOver(b)
  {
    if forall k: CellIndex :: Stuck(b, k) {
      forall k: CellIndex ensures b[k] != 0 {
        assert Stuck(b, k);
      }
      forall a: CellIndex, c: CellIndex | Adjacent(a, c) ensures b[a] != b[c] {
        StuckCellsDiffer(b, a, c);
      }
    }
    if IsGameOver(b) {
      forall k: CellIndex ensures Stuck(b, k) {
        GameOverCellStuck(b, k);
      }
    }
  }

  /**
   * Visits the cells in row-major order and stops at the first one that is
   * 0 or has a N, E, W or S neighbour that is 0 or equal to it; the game is
   * over when no cell stops the scan.
   */
  method ScanGameOver(cells: array<int>) returns (over: bool)
    requires cells.Length == Count
    ensures over == IsGameOver(cells[..])
  {
    over := true;
    var b := cells[..];
    var k := 0;
    while k < 16
      invariant 0 <= k <= 16
      invariant forall x: CellIndex :: x < k ==> Stuck(b, x)
    {
      var value := b[k];
      if value == 0 || !Blocks(b, N(k), value) || !Blocks(b, E(k), value) || !Blocks(b, W(k), value) || !Blocks(b, S(k), value) {
        over := false;
        break;
      }
      k := k + 1;
    }
    AllStuckIsGameOver(b);
  }

  /** Copies the 16 cell values, in row-major order, into the model's values. */
  method CopyValues(cells: array<int>, values: array<int>)
    requires cells.Length == Count && values.Length == Count && cells != values
    modifies values
    ensures values[..] == cells[..]
  {
    var k := 0;
    while k < 16
      invariant 0 <= k <= 16
      invariant values[..k] == cells[..k]
    {
      values[k] := cells[k];
      k := k + 1;
    }
  }

  /** Copying one more value of `src` over `before`. */
  lemma CopiedOneMore(a: seq<int>, src: seq<int>, before: seq<int>, k: nat)
    requires k < |src| && k < |before| && a == src[..k] + before[k..]
    ensures a[k := src[k]] == src[..k + 1] + before[k + 1..]
  {
  }
}
