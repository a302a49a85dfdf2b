/** TransposeMatrix of the matrix-multiply host program: a matrix of hB
    rows and wB columns, stored row by row, is copied into a second buffer
    as its transpose, wB rows of hB columns. */
module Transpose {
  import opened IntFacts

  /** The transpose of the h-by-w row-major matrix held in data[..w * h],
      as a w-by-h row-major matrix. */
  function Transposed(data: seq<real>, w: nat, h: nat): (t: seq<real>)
    requires w * h <= |data|
    ensures |t| == w * h
  {
    seq(w * h, q requires 0 <= q < w * h => Entry(data, w, h, q))
  }

  /** Entry q of the transpose: row q / h, column q % h of the transpose is
      row q % h, column q / h of the original. */
  function Entry(data: seq<real>, w: nat, h: nat, q: nat): real
    requires w * h <= |data| && q < w * h
  {
    var i, j := q / h, q % h;
    DivBound(q, w, h);
    RowMajor(j, i, w, h);
    data[w * j + i]
  }

  /** The quotient of a slot below w * h by h lies below w. */
  lemma DivBound(q: nat, w: nat, h: nat)
    requires q < w * h
    ensures h > 0 && q / h < w
  {
    assert h != 0;
    var d := q / h;
    assert h * d <= q;
    ProductMonotone(h, d, w);
  }

  lemma ProductMonotone(h: int, d: int, w: int)
    requires h >= 0
    ensures d >= w ==> h * d >= h * w
  {
    if d >= w {
      ProductNonNegative(h, d - w);
    }
  }

  /** Row i of a w-row matrix with rows of h entries ends at h * (i + 1),
      within the first w * h slots. */
  lemma RowEnd(i: nat, w: nat, h: nat)
    requires i < w
    ensures h * i + h == h * (i + 1) <= w * h
  {
    ProductMonotone(h, w, i + 1);
  }

  /** Entry (i, j) of the transpose is entry (j, i) of the original. */
  lemma TransposedAt(data: seq<real>, w: nat, h: nat, i: nat, j: nat)
    requires w * h <= |data| && i < w && j < h
    ensures 0 <= h * i + j < w * h && 0 <= w * j + i < w * h
    ensures Transposed(data, w, h)[h * i + j] == data[w * j + i]
  {
    RowMajor(i, j, h, w);
    RowMajor(j, i, w, h);
    assert w * h == h * w;
  }

  /** Transposing twice gives back the original matrix. */
  lemma TransposeTwice(data: seq<real>, w: nat, h: nat)
    requires w * h <= |data|
    ensures h * w == w * h
    ensures Transposed(Transposed(data, w, h), h, w) == data[..w * h]
  {
    var t := Transposed(data, w, h);
    assert h * w == w * h;
    var tt := Transposed(t, h, w);
    forall q | 0 <= q < w * h
      ensures tt[q] == data[q]
    {
      var j, i := q / w, q % w;
      DivBound(q, h, w);
      DivModUnique(q, w, j, i);
      assert q == w * j + i;
      TransposedAt(t, h, w, j, i);
      TransposedAt(data, w, h, i, j);
    }
  }

  /** The copy loop of TransposeMatrix: for every column i of the original
      and every row j, dataT[hB * i + j] receives data[wB * j + i]. The
      size argument plays no part; data is not written, and dataT is
      written only on its first wB * hB slots. */
  method TransposeMatrix(data: array<real>, dataT: array<real>, size: int, wB: nat, hB: nat)
    requires wB * hB <= data.Length && wB * hB <= dataT.Length && data != dataT
    modifies dataT
    ensures dataT[..wB * hB] == Transposed(data[..], wB, hB)
    ensures dataT[wB * hB..] == old(dataT[wB * hB..])
  {
    ghost var t := Transposed(data[..], wB, hB);
    var i := 0;
    while i < wB
      invariant 0 <= i <= wB && hB * i <= wB * hB
      invariant forall q :: 0 <= q < hB * i ==> dataT[q] == t[q]
      invariant forall q :: hB * i <= q < dataT.Length ==> dataT[q] == old(dataT[q])
    {
      RowEnd(i, wB, hB);
      TransposeRow(data, dataT, wB, hB, i, t);
      i := i + 1;
    }
    assert hB * wB == wB * hB;
  }

  /** The inner loop of TransposeMatrix: row i of the transpose. */
  method TransposeRow(data: array<real>, dataT: array<real>, wB: nat, hB: nat, i: nat, ghost t: seq<real>)
    requires wB * hB <= data.Length && wB * hB <= dataT.Length && data != dataT && i < wB
    requires t == Transposed(data[..], wB, hB) && hB * i + hB == hB * (i + 1) <= wB * hB
    requires forall q :: 0 <= q < hB * i ==> dataT[q] == t[q]
    modifies dataT
    ensures forall q :: 0 <= q < hB * (i + 1) ==> dataT[q] == t[q]
    ensures forall q :: hB * (i + 1) <= q < dataT.Length ==> dataT[q] == old(dataT[q])
  {
    var j := 0;
    while j < hB
      invariant 0 <= j <= hB
      invariant forall q :: 0 <= q < hB * i + j ==> dataT[q] == t[q]
      invariant forall q :: hB * i + j <= q < dataT.Length ==> dataT[q] == old(dataT[q])
    {
      TransposedAt(data[..], wB, hB, i, j);
      dataT[hB * i + j] := data[wB * j + i];
      j := j + 1;
    }
  }
}
