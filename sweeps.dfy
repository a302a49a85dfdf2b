/** What each kernel does to the whole buffers, as functions of the buffers
    it reads and the values the buffers it writes held before: the cells
    are visited in increasing order and each active cell overwrites only
    its own slots. Lemmas state, slot by slot, what a whole sweep leaves. */
module Sweeps {
  import opened Lattice
  import opened Equilibrium
  import opened LbmConfig
  import opened Streaming

  /** s with the block starting at position at replaced by p. */
  function Splice(s: seq<real>, at: nat, p: seq<real>): (r: seq<real>)
    requires at + |p| <= |s|
    ensures |r| == |s|
  {
    s[..at] + p + s[at + |p|..]
  }

  /** The splice holds p on the block and s elsewhere. */
  lemma SpliceAt(s: seq<real>, at: nat, p: seq<real>)
    requires at + |p| <= |s|
    ensures forall q :: 0 <= q < |p| ==> Splice(s, at, p)[at + q] == p[q]
    ensures forall q :: 0 <= q < |s| && !(at <= q < at + |p|) ==> Splice(s, at, p)[q] == s[q]
  {
  }

  /** A sequence that agrees with p on the block and with s elsewhere is
      the splice. */
  lemma SpliceFrom(t: seq<real>, s: seq<real>, at: nat, p: seq<real>)
    requires at + |p| <= |s| && |t| == |s|
    requires forall q :: 0 <= q < |p| ==> t[at + q] == p[q]
    requires forall q :: 0 <= q < |s| && !(at <= q < at + |p|) ==> t[q] == s[q]
    ensures t == Splice(s, at, p)
  {
    var r := Splice(s, at, p);
    SpliceAt(s, at, p);
    forall q | 0 <= q < |s|
      ensures t[q] == r[q]
    {
      if at <= q < at + |p| {
        assert t[at + (q - at)] == p[q - at];
      }
    }
  }

  /** Reading back the block gives what was spliced in. */
  lemma SpliceSlice(s: seq<real>, at: nat, p: seq<real>)
    requires at + |p| <= |s|
    ensures Splice(s, at, p)[at..at + |p|] == p
  {
    SpliceAt(s, at, p);
  }

  /** Updating one slot of the block is splicing in the updated block. */
  lemma SpliceUpdate(s: seq<real>, at: nat, p: seq<real>, j: nat, v: real)
    requires at + |p| <= |s| && j < |p|
    ensures Splice(s, at, p)[at + j := v] == Splice(s, at, p[j := v])
  {
    SpliceFrom(Splice(s, at, p)[at + j := v], s, at, p[j := v]);
  }

  /** Splicing twice at the same place keeps the second block. */
  lemma SpliceTwice(s: seq<real>, at: nat, p: seq<real>, p2: seq<real>)
    requires at + |p| <= |s| && |p2| == |p|
    ensures Splice(Splice(s, at, p), at, p2) == Splice(s, at, p2)
  {
    SpliceFrom(Splice(Splice(s, at, p), at, p2), s, at, p2);
  }

  /** Splicing in the block already there changes nothing. */
  lemma SpliceSame(s: seq<real>, at: nat, n: nat)
    requires at + n <= |s|
    ensures Splice(s, at, s[at..at + n]) == s
  {
    SpliceFrom(s, s, at, s[at..at + n]);
  }

  /** The buffers First reads, of the sizes the kernel indexes, and masks
      that never stream in from outside the grid. */
  predicate GridInputs(c: Config, f1: seq<real>, h: seq<real>, b: seq<real>, bin1: seq<bv8>, bin2: seq<bv8>)
  {
    c.LatticeSpeedUsable() && |f1| >= 9 * c.Cells() && |h| >= c.Cells() && |b| >= c.Cells()
    && |bin1| >= c.Cells() && |bin2| >= c.Cells()
    && forall k :: 0 <= k < c.Cells() && Active(bin1[k], bin2[k]) ==> StreamInInRange(c, bin1[k], bin2[k], k)
  }

  /** The forcing buffer after First has visited cells 0 .. n - 1. */
  function FirstForcing(c: Config, f1: seq<real>, h: seq<real>, b: seq<real>, bin1: seq<bv8>, bin2: seq<bv8>,
                        forcing: seq<real>, n: nat): (r: seq<real>)
    requires GridInputs(c, f1, h, b, bin1, bin2) && |forcing| >= 8 * c.Cells() && n <= c.Cells()
    ensures |r| == |forcing|
  {
    if n == 0 then forcing
    else
      var prev := FirstForcing(c, f1, h, b, bin1, bin2, forcing, n - 1);
      if Active(bin1[n - 1], bin2[n - 1]) then Splice(prev, 8 * (n - 1), CellForcing(c, h, b, n - 1)) else prev
  }

  /** The local buffer after First has visited cells 0 .. n - 1. Each
      active cell's nine values are CellLocal of what the buffer held. */
  function FirstLocal(c: Config, f1: seq<real>, h: seq<real>, b: seq<real>, bin1: seq<bv8>, bin2: seq<bv8>,
                      localf: seq<real>, n: nat): (r: seq<real>)
    requires GridInputs(c, f1, h, b, bin1, bin2) && |localf| >= 9 * c.Cells() && n <= c.Cells()
    ensures |r| == |localf|
  {
    if n == 0 then localf
    else
      var prev := FirstLocal(c, f1, h, b, bin1, bin2, localf, n - 1);
      var k := n - 1;
      if Active(bin1[k], bin2[k]) then
        Splice(prev, 9 * k, CellLocal(c, f1, bin1[k], bin2[k], CellForcing(c, h, b, k), k, prev[9 * k..9 * k + 9]))
      else prev
  }

  /** Cell k's eight forcing terms after First: CellForcing when the cell
      is active, untouched otherwise; slots of cells not yet visited and
      past the grid are untouched. */
  lemma {:induction false} FirstForcingSlot(c: Config, f1: seq<real>, h: seq<real>, b: seq<real>,
                                            bin1: seq<bv8>, bin2: seq<bv8>, forcing: seq<real>, n: nat, p: nat)
    requires GridInputs(c, f1, h, b, bin1, bin2) && |forcing| >= 8 * c.Cells() && n <= c.Cells() && p < |forcing|
    ensures p < 8 * n && Active(bin1[p / 8], bin2[p / 8]) ==>
      FirstForcing(c, f1, h, b, bin1, bin2, forcing, n)[p] == CellForcing(c, h, b, p / 8)[p % 8]
    ensures !(p < 8 * n && Active(bin1[p / 8], bin2[p / 8])) ==>
      FirstForcing(c, f1, h, b, bin1, bin2, forcing, n)[p] == forcing[p]
  {
    if n > 0 {
      FirstForcingSlot(c, f1, h, b, bin1, bin2, forcing, n - 1, p);
      var k := n - 1;
      if 8 * k <= p < 8 * k + 8 {
        assert p / 8 == k && p % 8 == p - 8 * k;
      } else {
        assert p < 8 * n <==> p < 8 * k;
      }
    }
  }

  /** Cell k's nine local values after First: CellLocal of the values the
      buffer held at entry when the cell is active, untouched otherwise
      (slots past the grid: FirstLocalBeyondGrid). */
  lemma {:induction false} FirstLocalSlot(c: Config, f1: seq<real>, h: seq<real>, b: seq<real>,
                                          bin1: seq<bv8>, bin2: seq<bv8>, localf: seq<real>, n: nat, k: nat, s: nat)
    requires GridInputs(c, f1, h, b, bin1, bin2) && |localf| >= 9 * c.Cells() && n <= c.Cells()
    requires k < c.Cells() && s < 9
    ensures k < n && Active(bin1[k], bin2[k]) ==>
      FirstLocal(c, f1, h, b, bin1, bin2, localf, n)[9 * k + s]
        == CellLocal(c, f1, bin1[k], bin2[k], CellForcing(c, h, b, k), k, localf[9 * k..9 * k + 9])[s]
    ensures !(k < n && Active(bin1[k], bin2[k])) ==>
      FirstLocal(c, f1, h, b, bin1, bin2, localf, n)[9 * k + s] == localf[9 * k + s]
  {
    if n > 0 {
      var m := n - 1;
      var prev := FirstLocal(c, f1, h, b, bin1, bin2, localf, m);
      if k == m {
        FirstLocalBlockUntouched(c, f1, h, b, bin1, bin2, localf, m, k);
        var blk := prev[9 * k .. 9 * k + 9];
        assert prev[9 * k + s] == blk[s] && localf[9 * k + s] == localf[9 * k .. 9 * k + 9][s];
        if Active(bin1[k], bin2[k]) {
          SpliceAt(prev, 9 * k, CellLocal(c, f1, bin1[k], bin2[k], CellForcing(c, h, b, k), k, blk));
        }
      } else {
        FirstLocalSlot(c, f1, h, b, bin1, bin2, localf, m, k, s);
        if Active(bin1[m], bin2[m]) {
          SpliceAt(prev, 9 * m, CellLocal(c, f1, bin1[m], bin2[m], CellForcing(c, h, b, m), m, prev[9 * m .. 9 * m + 9]));
        }
      }
    }
  }

  /** First leaves the slots past the grid's 9 * Lx * Ly as they were. */
  lemma {:induction false} FirstLocalBeyondGrid(c: Config, f1: seq<real>, h: seq<real>, b: seq<real>,
                                                bin1: seq<bv8>, bin2: seq<bv8>, localf: seq<real>, n: nat, p: nat)
    requires GridInputs(c, f1, h, b, bin1, bin2) && |localf| >= 9 * c.Cells() && n <= c.Cells()
    requires 9 * c.Cells() <= p < |localf|
    ensures FirstLocal(c, f1, h, b, bin1, bin2, localf, n)[p] == localf[p]
  {
    if n > 0 {
      var m := n - 1;
      var prev := FirstLocal(c, f1, h, b, bin1, bin2, localf, m);
      FirstLocalBeyondGrid(c, f1, h, b, bin1, bin2, localf, m, p);
      if Active(bin1[m], bin2[m]) {
        SpliceAt(prev, 9 * m, CellLocal(c, f1, bin1[m], bin2[m], CellForcing(c, h, b, m), m, prev[9 * m .. 9 * m + 9]));
      }
    }
  }

  /** Before First reaches cell k, the cell's block is as it was. */
  lemma {:induction false} FirstLocalBlockUntouched(c: Config, f1: seq<real>, h: seq<real>, b: seq<real>,
                                                    bin1: seq<bv8>, bin2: seq<bv8>, localf: seq<real>, n: nat, k: nat)
    requires GridInputs(c, f1, h, b, bin1, bin2) && |localf| >= 9 * c.Cells() && n <= k < c.Cells()
    ensures FirstLocal(c, f1, h, b, bin1, bin2, localf, n)[9 * k..9 * k + 9] == localf[9 * k..9 * k + 9]
  {
    if n > 0 {
      FirstLocalBlockUntouched(c, f1, h, b, bin1, bin2, localf, n - 1, k);
      var prev := FirstLocal(c, f1, h, b, bin1, bin2, localf, n - 1);
      var r := FirstLocal(c, f1, h, b, bin1, bin2, localf, n);
      assert forall q :: 9 * k <= q < 9 * k + 9 ==> r[q] == prev[q];
    }
  }
}
