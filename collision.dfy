/** What the Second and Third kernels do to the whole buffers. Second turns
    each active cell's nine local values into its macroscopic triple and
    depth; Third relaxes each active cell toward the equilibrium of that
    triple and scatters the result into the next population buffer, whose
    layout is direction-major (IdxCm). */
module Collision {
  import opened Lattice
  import opened Equilibrium
  import opened LbmConfig
  import opened Streaming
  import opened Sweeps

  /** The nine local values of cell k, localf[9k .. 9k + 9]. */
  function CellOf(localf: seq<real>, k: nat): Dist
    requires 9 * k + 9 <= |localf|
  {
    localf[9 * k .. 9 * k + 9]
  }

  /** The triple stored for cell k, localMacroscopic[3k .. 3k + 3]. */
  function MacroAt(lm: seq<real>, k: nat): Macro
    requires 3 * k + 3 <= |lm|
  {
    Macro(lm[3 * k], lm[3 * k + 1], lm[3 * k + 2])
  }

  /** The three values calculateMacroscopic stores, in buffer order. */
  function MacroSeq(m: Macro): seq<real>
  {
    [m.scalar, m.ux, m.uy]
  }

  /** The buffers Second reads, and a non-zero scalar in every active cell:
      calculateMacroscopic divides by it without a guard. */
  predicate SecondInputs(c: Config, localf: seq<real>, bin1: seq<bv8>, bin2: seq<bv8>)
  {
    |localf| >= 9 * c.Cells() && |bin1| >= c.Cells() && |bin2| >= c.Cells()
    && forall k :: 0 <= k < c.Cells() && Active(bin1[k], bin2[k]) ==> Density(CellOf(localf, k)) != 0.0
  }

  /** The macroscopic buffer after Second has visited cells 0 .. n - 1. */
  function SecondMacro(c: Config, localf: seq<real>, bin1: seq<bv8>, bin2: seq<bv8>, lm: seq<real>, n: nat): (r: seq<real>)
    requires SecondInputs(c, localf, bin1, bin2) && |lm| >= 3 * c.Cells() && n <= c.Cells()
    ensures |r| == |lm|
  {
    if n == 0 then lm
    else
      var prev := SecondMacro(c, localf, bin1, bin2, lm, n - 1);
      var k := n - 1;
      if Active(bin1[k], bin2[k]) then Splice(prev, 3 * k, MacroSeq(Moments(CellOf(localf, k), c.e))) else prev
  }

  /** The depth buffer h after Second has visited cells 0 .. n - 1. */
  function SecondDepth(c: Config, localf: seq<real>, bin1: seq<bv8>, bin2: seq<bv8>, h: seq<real>, n: nat): (r: seq<real>)
    requires SecondInputs(c, localf, bin1, bin2) && |h| >= c.Cells() && n <= c.Cells()
    ensures |r| == |h|
  {
    if n == 0 then h
    else
      var prev := SecondDepth(c, localf, bin1, bin2, h, n - 1);
      var k := n - 1;
      if Active(bin1[k], bin2[k]) then prev[k := Moments(CellOf(localf, k), c.e).scalar] else prev
  }

  /** After Second, an active cell's triple is the moments of its local
      values (scalar = sum of the populations, velocity = e times the first
      moment over the scalar); every other triple is untouched. */
  lemma {:induction false} SecondMacroSlot(c: Config, localf: seq<real>, bin1: seq<bv8>, bin2: seq<bv8>,
                                           lm: seq<real>, n: nat, k: nat)
    requires SecondInputs(c, localf, bin1, bin2) && |lm| >= 3 * c.Cells() && n <= c.Cells() && k < c.Cells()
    ensures k < n && Active(bin1[k], bin2[k]) ==>
      MacroAt(SecondMacro(c, localf, bin1, bin2, lm, n), k) == Moments(CellOf(localf, k), c.e)
    ensures !(k < n && Active(bin1[k], bin2[k])) ==>
      MacroAt(SecondMacro(c, localf, bin1, bin2, lm, n), k) == MacroAt(lm, k)
  {
    if n > 0 {
      var m := n - 1;
      var prev := SecondMacro(c, localf, bin1, bin2, lm, m);
      SecondMacroSlot(c, localf, bin1, bin2, lm, m, k);
      if Active(bin1[m], bin2[m]) {
        SpliceAt(prev, 3 * m, MacroSeq(Moments(CellOf(localf, m), c.e)));
        if k != m {
          assert MacroAt(SecondMacro(c, localf, bin1, bin2, lm, n), k) == MacroAt(prev, k);
        }
      }
    }
  }

  /** After Second, an active cell's depth is the sum of its nine local
      values, the scalar of its triple; every other depth is untouched. */
  lemma {:induction false} SecondDepthSlot(c: Config, localf: seq<real>, bin1: seq<bv8>, bin2: seq<bv8>,
                                           h: seq<real>, n: nat, k: nat)
    requires SecondInputs(c, localf, bin1, bin2) && |h| >= c.Cells() && n <= c.Cells() && k < c.Cells()
    ensures k < n && Active(bin1[k], bin2[k]) ==>
      SecondDepth(c, localf, bin1, bin2, h, n)[k] == Sum(CellOf(localf, k))
    ensures !(k < n && Active(bin1[k], bin2[k])) ==> SecondDepth(c, localf, bin1, bin2, h, n)[k] == h[k]
  {
    if n > 0 {
      SecondDepthSlot(c, localf, bin1, bin2, h, n - 1, k);
    }
  }

  /** Second leaves the macroscopic slots at 3·Cells and beyond as they
      were. */
  lemma {:induction false} SecondMacroBeyondGrid(c: Config, localf: seq<real>, bin1: seq<bv8>, bin2: seq<bv8>,
                                                 lm: seq<real>, n: nat, p: nat)
    requires SecondInputs(c, localf, bin1, bin2) && |lm| >= 3 * c.Cells() && n <= c.Cells()
    requires 3 * c.Cells() <= p < |lm|
    ensures SecondMacro(c, localf, bin1, bin2, lm, n)[p] == lm[p]
  {
    if n > 0 {
      var m := n - 1;
      SecondMacroBeyondGrid(c, localf, bin1, bin2, lm, m, p);
      if Active(bin1[m], bin2[m]) {
        SpliceAt(SecondMacro(c, localf, bin1, bin2, lm, m), 3 * m, MacroSeq(Moments(CellOf(localf, m), c.e)));
      }
    }
  }

  /** Second leaves the depths at Cells and beyond as they were. */
  lemma {:induction false} SecondDepthBeyondGrid(c: Config, localf: seq<real>, bin1: seq<bv8>, bin2: seq<bv8>,
                                                 h: seq<real>, n: nat, p: nat)
    requires SecondInputs(c, localf, bin1, bin2) && |h| >= c.Cells() && n <= c.Cells()
    requires c.Cells() <= p < |h|
    ensures SecondDepth(c, localf, bin1, bin2, h, n)[p] == h[p]
  {
    if n > 0 {
      SecondDepthBeyondGrid(c, localf, bin1, bin2, h, n - 1, p);
    }
  }

  /** The equilibrium Third computes from a cell's triple: calculateFeqSWE
      or calculateFeqHE, or the hidden equilibrium of the other models. The
      shallow-water and heat equilibria carry the triple's scalar. */
  function CellEquilibrium(c: Config, m: Macro): (feq: Dist)
    requires c.LatticeSpeedUsable()
    ensures c.physics.ShallowWater? || c.physics.Heat? ==> Density(feq) == m.scalar
  {
    match c.physics
    case ShallowWater =>
      SweEquilibriumMass(m.scalar, m.ux, m.uy, c.e);
      FeqSwe(m, c.e)
    case Heat =>
      SumOfDist(FeqHe(m, c.e));
      FeqHe(m, c.e)
    case Wave(feq) => feq(m, c.e)
    case NavierStokes(feq) => feq(m, c.e)
    case UserDefined(_, feq) => feq(m, c.e)
  }

  /** The buffers Third reads; the collision divides by tau. */
  predicate ThirdInputs(c: Config, lm: seq<real>, localf: seq<real>, bin1: seq<bv8>, bin2: seq<bv8>)
  {
    c.LatticeSpeedUsable() && c.tau != 0.0
    && |lm| >= 3 * c.Cells() && |localf| >= 9 * c.Cells() && |bin1| >= c.Cells() && |bin2| >= c.Cells()
  }

  /** The nine values Third writes for cell k: its local values relaxed
      toward the equilibrium of its stored triple. */
  function CellRelaxed(c: Config, lm: seq<real>, localf: seq<real>, k: nat): (r: Dist)
    requires c.LatticeSpeedUsable() && c.tau != 0.0 && 3 * k + 3 <= |lm| && 9 * k + 9 <= |localf|
  {
    Relax(CellOf(localf, k), CellEquilibrium(c, MacroAt(lm, k)), c.tau)
  }

  /** s with r[0 .. j - 1] written to cell i's slots in directions
      0 .. j - 1 of the direction-major layout. */
  function ScatterUpTo(s: seq<real>, c: Config, i: nat, r: Dist, j: nat): (t: seq<real>)
    requires i < c.Cells() && 9 * c.Cells() <= |s| && j <= 9
    ensures |t| == |s|
  {
    if j == 0 then s
    else
      IdxCmInRange(i, j - 1, c.lx, c.ly);
      ScatterUpTo(s, c, i, r, j - 1)[IdxCm(i, j - 1, c.lx, c.ly) := r[j - 1]]
  }

  /** Slot (k, t) after scattering cell i's first j values: r[t] when it is
      one of them, the old value otherwise. */
  lemma {:induction false} ScatterSlot(s: seq<real>, c: Config, i: nat, r: Dist, j: nat, k: nat, t: nat)
    requires i < c.Cells() && 9 * c.Cells() <= |s| && j <= 9 && k < c.Cells() && t < 9
    ensures 0 <= IdxCm(k, t, c.lx, c.ly) < |s|
    ensures k == i && t < j ==> ScatterUpTo(s, c, i, r, j)[IdxCm(k, t, c.lx, c.ly)] == r[t]
    ensures !(k == i && t < j) ==> ScatterUpTo(s, c, i, r, j)[IdxCm(k, t, c.lx, c.ly)] == s[IdxCm(k, t, c.lx, c.ly)]
  {
    IdxCmInRange(k, t, c.lx, c.ly);
    if j > 0 {
      ScatterSlot(s, c, i, r, j - 1, k, t);
      IdxCmInjective(k, t, i, j - 1, c.lx, c.ly);
    }
  }

  /** The next population buffer after Third has visited cells 0 .. n - 1. */
  function ThirdF2(c: Config, lm: seq<real>, localf: seq<real>, bin1: seq<bv8>, bin2: seq<bv8>,
                   f2: seq<real>, n: nat): (r: seq<real>)
    requires ThirdInputs(c, lm, localf, bin1, bin2) && |f2| >= 9 * c.Cells() && n <= c.Cells()
    ensures |r| == |f2|
  {
    if n == 0 then f2
    else
      var prev := ThirdF2(c, lm, localf, bin1, bin2, f2, n - 1);
      var k := n - 1;
      if Active(bin1[k], bin2[k]) then ScatterUpTo(prev, c, k, CellRelaxed(c, lm, localf, k), 9) else prev
  }

  /** After Third, slot (k, t) of an active cell holds the relaxed value
      in direction t; the slots of every other cell are untouched. */
  lemma {:induction false} ThirdSlot(c: Config, lm: seq<real>, localf: seq<real>, bin1: seq<bv8>, bin2: seq<bv8>,
                                     f2: seq<real>, n: nat, k: nat, t: nat)
    requires ThirdInputs(c, lm, localf, bin1, bin2) && |f2| >= 9 * c.Cells() && n <= c.Cells()
    requires k < c.Cells() && t < 9
    ensures 0 <= IdxCm(k, t, c.lx, c.ly) < |f2|
    ensures k < n && Active(bin1[k], bin2[k]) ==>
      ThirdF2(c, lm, localf, bin1, bin2, f2, n)[IdxCm(k, t, c.lx, c.ly)] == CellRelaxed(c, lm, localf, k)[t]
    ensures !(k < n && Active(bin1[k], bin2[k])) ==>
      ThirdF2(c, lm, localf, bin1, bin2, f2, n)[IdxCm(k, t, c.lx, c.ly)] == f2[IdxCm(k, t, c.lx, c.ly)]
  {
    IdxCmInRange(k, t, c.lx, c.ly);
    if n > 0 {
      var m := n - 1;
      ThirdSlot(c, lm, localf, bin1, bin2, f2, m, k, t);
      if Active(bin1[m], bin2[m]) {
        ScatterSlot(ThirdF2(c, lm, localf, bin1, bin2, f2, m), c, m, CellRelaxed(c, lm, localf, m), 9, k, t);
      }
    }
  }

  /** Scattering a cell writes no slot at 9·Cells or beyond. */
  lemma {:induction false} ScatterBeyondGrid(s: seq<real>, c: Config, i: nat, r: Dist, j: nat, p: nat)
    requires i < c.Cells() && 9 * c.Cells() <= |s| && j <= 9
    requires 9 * c.Cells() <= p < |s|
    ensures ScatterUpTo(s, c, i, r, j)[p] == s[p]
  {
    if j > 0 {
      ScatterBeyondGrid(s, c, i, r, j - 1, p);
      IdxCmInRange(i, j - 1, c.lx, c.ly);
    }
  }

  /** Third leaves the f2 slots at 9·Cells and beyond as they were. */
  lemma {:induction false} ThirdBeyondGrid(c: Config, lm: seq<real>, localf: seq<real>, bin1: seq<bv8>, bin2: seq<bv8>,
                                           f2: seq<real>, n: nat, p: nat)
    requires ThirdInputs(c, lm, localf, bin1, bin2) && |f2| >= 9 * c.Cells() && n <= c.Cells()
    requires 9 * c.Cells() <= p < |f2|
    ensures ThirdF2(c, lm, localf, bin1, bin2, f2, n)[p] == f2[p]
  {
    if n > 0 {
      var m := n - 1;
      ThirdBeyondGrid(c, lm, localf, bin1, bin2, f2, m, p);
      if Active(bin1[m], bin2[m]) {
        ScatterBeyondGrid(ThirdF2(c, lm, localf, bin1, bin2, f2, m), c, m, CellRelaxed(c, lm, localf, m), 9, p);
      }
    }
  }

  /** One value of cell k's column of a direction-major buffer. */
  function ColumnEntry(f: seq<real>, c: Config, k: nat, t: nat): real
    requires k < c.Cells() && t < 9 && 9 * c.Cells() <= |f|
  {
    IdxCmInRange(k, t, c.lx, c.ly);
    f[IdxCm(k, t, c.lx, c.ly)]
  }

  /** Cell k's nine populations in a direction-major buffer. */
  function Column(f: seq<real>, c: Config, k: nat): Dist
    requires k < c.Cells() && 9 * c.Cells() <= |f|
  {
    seq(9, t requires 0 <= t < 9 => ColumnEntry(f, c, k, t))
  }

  /** After Third, an active cell's column is its relaxed cell, and any
      other cell's column is what the buffer held. */
  lemma ThirdColumn(c: Config, lm: seq<real>, localf: seq<real>, bin1: seq<bv8>, bin2: seq<bv8>,
                    f2: seq<real>, k: nat)
    requires ThirdInputs(c, lm, localf, bin1, bin2) && |f2| >= 9 * c.Cells() && k < c.Cells()
    ensures Active(bin1[k], bin2[k]) ==>
      Column(ThirdF2(c, lm, localf, bin1, bin2, f2, c.Cells()), c, k) == CellRelaxed(c, lm, localf, k)
    ensures !Active(bin1[k], bin2[k]) ==>
      Column(ThirdF2(c, lm, localf, bin1, bin2, f2, c.Cells()), c, k) == Column(f2, c, k)
  {
    var r := ThirdF2(c, lm, localf, bin1, bin2, f2, c.Cells());
    forall t | 0 <= t < 9
      ensures Column(r, c, k)[t] == if Active(bin1[k], bin2[k]) then CellRelaxed(c, lm, localf, k)[t] else Column(f2, c, k)[t]
    {
      ThirdSlot(c, lm, localf, bin1, bin2, f2, c.Cells(), k, t);
    }
  }
}
