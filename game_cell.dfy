/**
 * The 4x4 arrangement of cells. A cell is addressed by its row-major index
 * 4 * row + column; its N, E, W and S links are computed from the index
 * instead of being stored, and are absent on the edge the link would cross.
 */
module GameCell {
  import opened Wrappers

  /** Cells per row and rows per grid. */
  const Size: nat := 4

  /** Cells in the grid. */
  const Count: nat := 16

  type CellIndex = k: nat | k < 16

  function Row(k: CellIndex): (r: nat)
    ensures r < Size && Size * r <= k < Size * r + Size
  {
    k / Size
  }

  function Col(k: CellIndex): (c: nat)
    ensures c < Size && k == Size * Row(k) + c
  {
    k % Size
  }

  /** The cell at a row and column. */
  function At(row: nat, col: nat): (k: CellIndex)
    requires row < Size && col < Size
    ensures Row(k) == row && Col(k) == col
  {
    Size * row + col
  }

  /** A cell is fixed by its row and column. */
  lemma SameCell(a: CellIndex, b: CellIndex)
    requires Row(a) == Row(b) && Col(a) == Col(b)
    ensures a == b
  {
  }

  /** The north link: the cell directly above, absent on the top row. */
  function N(k: CellIndex): (n: Option<CellIndex>)
    ensures n.None? <==> Row(k) == 0
    ensures n.Some? ==> Row(n.value) == Row(k) - 1 && Col(n.value) == Col(k)
  {
    if k >= 4 then Some(k - 4) else None
  }

  /** The east link: the cell one column to the right, absent on the rightmost column. */
  function E(k: CellIndex): (n: Option<CellIndex>)
    ensures n.None? <==> Col(k) == Size - 1
    ensures n.Some? ==> Row(n.value) == Row(k) && Col(n.value) == Col(k) + 1
  {
    if k % 4 < 3 then Some(k + 1) else None
  }

  /** The west link: the cell one column to the left, absent on the leftmost column. */
  function W(k: CellIndex): (n: Option<CellIndex>)
    ensures n.None? <==> Col(k) == 0
    ensures n.Some? ==> Row(n.value) == Row(k) && Col(n.value) == Col(k) - 1
  {
    if k % 4 > 0 then Some(k - 1) else None
  }

  /** The south link: the cell directly below, absent on the bottom row. */
  function S(k: CellIndex): (n: Option<CellIndex>)
    ensures n.None? <==> Row(k) == Size - 1
    ensures n.Some? ==> Row(n.value) == Row(k) + 1 && Col(n.value) == Col(k)
  {
    if k < 12 then Some(k + 4) else None
  }

  /** Two cells share an edge: same row and neighbouring columns, or same column and neighbouring rows. */
  predicate Adjacent(a: CellIndex, b: CellIndex) {
    (Row(a) == Row(b) && (Col(a) + 1 == Col(b) || Col(b) + 1 == Col(a))) ||
    (Col(a) == Col(b) && (Row(a) + 1 == Row(b) || Row(b) + 1 == Row(a)))
  }

  /** The links are symmetric: A.E is B exactly when B.W is A, and A.S is B exactly when B.N is A. */
  lemma LinksSymmetric(a: CellIndex, b: CellIndex)
    ensures E(a) == Some(b) <==> W(b) == Some(a)
    ensures S(a) == Some(b) <==> N(b) == Some(a)
  {
  }

  /** The four links of a cell reach exactly the cells adjacent to it. */
  lemma LinksAreAdjacency(a: CellIndex, b: CellIndex)
    ensures Adjacent(a, b) <==> (N(a) == Some(b) || E(a) == Some(b) || W(a) == Some(b) || S(a) == Some(b))
  {
  }
}
