/** Integer facts shared by the two programs' index arithmetic. */
module IntFacts {
  /** Quotient and remainder are unique: a value written as q * n + r with
      0 <= r < n has quotient q and remainder r. */
  lemma DivModUnique(x: int, n: int, q: int, r: int)
    requires n > 0 && 0 <= r < n && x == q * n + r
    ensures x / n == q && x % n == r
  {
    var q', r' := x / n, x % n;
    assert x == q' * n + r' && 0 <= r' < n;
    var d := q - q';
    assert d * n == r' - r;
    if d >= 1 {
      MultipleAtLeast(d, n);
    } else if d <= -1 {
      MultipleAtLeast(-d, n);
    }
  }

  lemma MultipleAtLeast(d: int, n: int)
    requires d >= 1 && n > 0
    ensures d * n >= n && (-d) * n <= -n
  {
    assert d * n == (d - 1) * n + n;
  }

  /** Row-major addressing: the slot w * i + j of a row of width w splits
      back into row i and column j, and stays below w * h when the row i
      lies below h. */
  lemma RowMajor(i: int, j: int, w: int, h: int)
    requires 0 <= i < h && 0 <= j < w
    ensures (w * i + j) / w == i && (w * i + j) % w == j
    ensures 0 <= w * i + j < w * h
  {
    DivModUnique(w * i + j, w, i, j);
    var k := h - i - 1;
    assert w * h == w * i + w + w * k;
    ProductNonNegative(w, k);
  }

  lemma ProductNonNegative(a: int, b: int)
    requires a >= 0 && b >= 0
    ensures a * b >= 0
  {
  }
}
