/** The D2Q9 direction table and the two addressing schemes of the
    lattice Boltzmann kernels: the neighbour index IDX and the
    direction-major slot IDXcm of the global distribution buffers. */
module Lattice {
  import opened IntFacts

  /** Horizontal offsets of the eight moving directions; table entry k
      belongs to lattice direction k + 1 (direction 0 is the rest one). */
  const EX: seq<int> := [1, 0, -1, 0, 1, -1, -1, 1]
  /** Vertical offsets, same indexing as EX. */
  const EY: seq<int> := [0, 1, 0, -1, 1, 1, -1, -1]

  /** IDX: index of the neighbour of cell i along table direction k on a
      grid of width lx. Plain integer arithmetic on the row-major index: the
      result may lie below 0 or past the last cell, and at the left and
      right edges it lands in the neighbouring row (IdxCrossesRows). */
  function Idx(i: int, k: nat, lx: int): int
    requires k < 8
  {
    i + EX[k] + EY[k] * lx
  }

  /** IDXcm: slot of (cell i, direction j) in a direction-major buffer of an
      lx-by-ly grid. */
  function IdxCm(i: int, j: int, lx: int, ly: int): int
  {
    i + j * lx * ly
  }

  /** At the left and right edges IDX steps into the adjacent row: left
      (table direction 2) from the first cell of row r is the last cell of
      row r - 1, and right (table direction 0) from the last cell of row r
      is the first cell of row r + 1. */
  lemma IdxCrossesRows(r: int, lx: int)
    ensures Idx(r * lx, 2, lx) == (r - 1) * lx + (lx - 1)
    ensures Idx(r * lx + (lx - 1), 0, lx) == (r + 1) * lx
  {
  }

  /** The table direction pointing the other way. */
  function Opposite(k: nat): (o: nat)
    requires k < 8
    ensures o < 8 && o != k
    ensures EX[o] == -EX[k] && EY[o] == -EY[k]
  {
    if k < 4 then (k + 2) % 4 else 4 + (k - 2) % 4
  }

  /** Stepping to a neighbour and back along the opposite direction returns
      to the starting cell. */
  lemma IdxOppositeReturns(i: int, k: nat, lx: int)
    requires k < 8
    ensures Idx(Idx(i, k, lx), Opposite(k), lx) == i
  {
  }

  /** On a grid at least three cells wide the eight neighbours of a cell are
      pairwise distinct and distinct from the cell itself, and each lies
      within lx + 1 slots of it. */
  lemma IdxNeighboursDistinct(i: int, k1: nat, k2: nat, lx: int)
    requires k1 < 8 && k2 < 8 && lx >= 3
    ensures Idx(i, k1, lx) != i
    ensures Idx(i, k1, lx) == Idx(i, k2, lx) <==> k1 == k2
    ensures i - lx - 1 <= Idx(i, k1, lx) <= i + lx + 1
  {
  }

  /** A slot of a direction-major buffer of lx * ly cells splits back into
      its direction (quotient) and its cell (remainder). */
  lemma IdxCmDecompose(i: int, j: int, lx: int, ly: int)
    requires 0 <= i < lx * ly && 0 <= j
    ensures IdxCm(i, j, lx, ly) / (lx * ly) == j
    ensures IdxCm(i, j, lx, ly) % (lx * ly) == i
  {
    assert j * lx * ly == j * (lx * ly);
    DivModUnique(IdxCm(i, j, lx, ly), lx * ly, j, i);
  }

  /** IDXcm is injective on cells below lx * ly: distinct (cell, direction)
      pairs never share a slot of a global buffer. */
  lemma IdxCmInjective(i1: int, j1: int, i2: int, j2: int, lx: int, ly: int)
    requires 0 <= i1 < lx * ly && 0 <= i2 < lx * ly && 0 <= j1 && 0 <= j2
    ensures IdxCm(i1, j1, lx, ly) == IdxCm(i2, j2, lx, ly) <==> i1 == i2 && j1 == j2
  {
    IdxCmDecompose(i1, j1, lx, ly);
    IdxCmDecompose(i2, j2, lx, ly);
  }

  /** The nine slots of a cell lie inside a buffer of 9 * lx * ly entries;
      direction 0 is the cell's own index. */
  lemma IdxCmInRange(i: int, j: int, lx: int, ly: int)
    requires 0 <= i < lx * ly && 0 <= j < 9
    ensures 0 <= IdxCm(i, j, lx, ly) < 9 * (lx * ly)
    ensures j == 0 ==> IdxCm(i, j, lx, ly) == i
  {
    var n := lx * ly;
    assert IdxCm(i, j, lx, ly) == i + j * n;
    assert j * n <= 8 * n by {
      assert (8 - j) * n >= 0;
    }
    assert j * n >= 0;
  }
}
