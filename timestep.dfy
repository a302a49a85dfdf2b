/** One time step of the solver: First, Second and Third in turn, each
    kernel reading the buffers the one before it wrote. The lemmas follow an
    active cell through the three sweeps. */
module Timestep {
  import opened Lattice
  import opened Equilibrium
  import opened LbmConfig
  import opened Streaming
  import opened Sweeps
  import opened Collision

  /** Buffers of the sizes the kernels index, masks that never stream in
      from outside the grid, a usable relaxation time, and a non-zero
      scalar in every active cell once First has run. */
  predicate StepInputs(c: Config, f1: seq<real>, h: seq<real>, b: seq<real>, bin1: seq<bv8>, bin2: seq<bv8>,
                       localf: seq<real>, lm: seq<real>, f2: seq<real>)
  {
    GridInputs(c, f1, h, b, bin1, bin2) && c.tau != 0.0
    && |localf| >= 9 * c.Cells() && |lm| >= 3 * c.Cells() && |f2| >= 9 * c.Cells()
    && SecondInputs(c, FirstLocal(c, f1, h, b, bin1, bin2, localf, c.Cells()), bin1, bin2)
  }

  /** The local values First leaves for cell k. */
  function Streamed(c: Config, f1: seq<real>, h: seq<real>, b: seq<real>, bin1: seq<bv8>, bin2: seq<bv8>,
                    localf: seq<real>, k: nat): Dist
    requires GridInputs(c, f1, h, b, bin1, bin2) && |localf| >= 9 * c.Cells() && k < c.Cells()
  {
    CellOf(FirstLocal(c, f1, h, b, bin1, bin2, localf, c.Cells()), k)
  }

  /** The next population buffer after a whole step. */
  function StepF2(c: Config, f1: seq<real>, h: seq<real>, b: seq<real>, bin1: seq<bv8>, bin2: seq<bv8>,
                  localf: seq<real>, lm: seq<real>, f2: seq<real>): (r: seq<real>)
    requires StepInputs(c, f1, h, b, bin1, bin2, localf, lm, f2)
    ensures |r| == |f2|
  {
    var n := c.Cells();
    var l := FirstLocal(c, f1, h, b, bin1, bin2, localf, n);
    ThirdF2(c, SecondMacro(c, l, bin1, bin2, lm, n), l, bin1, bin2, f2, n)
  }

  /** First leaves an active cell's block as CellLocal of what it held. */
  lemma StreamedCell(c: Config, f1: seq<real>, h: seq<real>, b: seq<real>, bin1: seq<bv8>, bin2: seq<bv8>,
                     localf: seq<real>, k: nat)
    requires GridInputs(c, f1, h, b, bin1, bin2) && |localf| >= 9 * c.Cells() && k < c.Cells()
    requires Active(bin1[k], bin2[k])
    ensures Streamed(c, f1, h, b, bin1, bin2, localf, k)
         == CellLocal(c, f1, bin1[k], bin2[k], CellForcing(c, h, b, k), k, localf[9 * k .. 9 * k + 9])
  {
    var l := Streamed(c, f1, h, b, bin1, bin2, localf, k);
    var want := CellLocal(c, f1, bin1[k], bin2[k], CellForcing(c, h, b, k), k, localf[9 * k .. 9 * k + 9]);
    forall s | 0 <= s < 9
      ensures l[s] == want[s]
    {
      FirstLocalSlot(c, f1, h, b, bin1, bin2, localf, c.Cells(), k, s);
    }
  }

  /** A whole step turns an active cell's column of f2 into its streamed
      values relaxed toward the equilibrium of their own moments, and
      leaves the column of every other cell as it was. */
  lemma StepColumn(c: Config, f1: seq<real>, h: seq<real>, b: seq<real>, bin1: seq<bv8>, bin2: seq<bv8>,
                   localf: seq<real>, lm: seq<real>, f2: seq<real>, k: nat)
    requires StepInputs(c, f1, h, b, bin1, bin2, localf, lm, f2) && k < c.Cells()
    ensures Active(bin1[k], bin2[k]) ==>
      var l := Streamed(c, f1, h, b, bin1, bin2, localf, k);
      Density(l) != 0.0
      && Column(StepF2(c, f1, h, b, bin1, bin2, localf, lm, f2), c, k)
         == Relax(l, CellEquilibrium(c, Moments(l, c.e)), c.tau)
    ensures !Active(bin1[k], bin2[k]) ==>
      Column(StepF2(c, f1, h, b, bin1, bin2, localf, lm, f2), c, k) == Column(f2, c, k)
  {
    var n := c.Cells();
    var l := FirstLocal(c, f1, h, b, bin1, bin2, localf, n);
    var m := SecondMacro(c, l, bin1, bin2, lm, n);
    SecondMacroSlot(c, l, bin1, bin2, lm, n, k);
    ThirdColumn(c, m, l, bin1, bin2, f2, k);
  }

  /** In the shallow-water model a whole step keeps each active cell's
      depth and momentum: the new column has the scalar and first moments
      of the cell's streamed values. */
  lemma StepConservesSwe(c: Config, f1: seq<real>, h: seq<real>, b: seq<real>, bin1: seq<bv8>, bin2: seq<bv8>,
                         localf: seq<real>, lm: seq<real>, f2: seq<real>, k: nat)
    requires StepInputs(c, f1, h, b, bin1, bin2, localf, lm, f2) && k < c.Cells()
    requires c.physics.ShallowWater? && Active(bin1[k], bin2[k])
    ensures var l := Streamed(c, f1, h, b, bin1, bin2, localf, k);
      var r := Column(StepF2(c, f1, h, b, bin1, bin2, localf, lm, f2), c, k);
      Density(r) == Density(l) && FluxX(r) == FluxX(l) && FluxY(r) == FluxY(l)
  {
    var l := Streamed(c, f1, h, b, bin1, bin2, localf, k);
    StepColumn(c, f1, h, b, bin1, bin2, localf, lm, f2, k);
    SweCollisionConserves(l, c.e, c.tau);
  }

  /** In the heat model a whole step keeps each active cell's temperature. */
  lemma StepConservesHeat(c: Config, f1: seq<real>, h: seq<real>, b: seq<real>, bin1: seq<bv8>, bin2: seq<bv8>,
                          localf: seq<real>, lm: seq<real>, f2: seq<real>, k: nat)
    requires StepInputs(c, f1, h, b, bin1, bin2, localf, lm, f2) && k < c.Cells()
    requires c.physics.Heat? && Active(bin1[k], bin2[k])
    ensures var l := Streamed(c, f1, h, b, bin1, bin2, localf, k);
      Density(Column(StepF2(c, f1, h, b, bin1, bin2, localf, lm, f2), c, k)) == Density(l)
  {
    var l := Streamed(c, f1, h, b, bin1, bin2, localf, k);
    StepColumn(c, f1, h, b, bin1, bin2, localf, lm, f2, k);
    HeCollisionConserves(l, c.e, c.tau);
  }

  /** The depth Second leaves in h for an active cell is the sum of the
      cell's streamed values. */
  lemma StepDepth(c: Config, f1: seq<real>, h: seq<real>, b: seq<real>, bin1: seq<bv8>, bin2: seq<bv8>,
                  localf: seq<real>, lm: seq<real>, f2: seq<real>, k: nat)
    requires StepInputs(c, f1, h, b, bin1, bin2, localf, lm, f2) && k < c.Cells()
    requires Active(bin1[k], bin2[k])
    ensures SecondDepth(c, FirstLocal(c, f1, h, b, bin1, bin2, localf, c.Cells()), bin1, bin2, h, c.Cells())[k]
         == Sum(Streamed(c, f1, h, b, bin1, bin2, localf, k))
  {
    SecondDepthSlot(c, FirstLocal(c, f1, h, b, bin1, bin2, localf, c.Cells()), bin1, bin2, h, c.Cells(), k);
  }
}
