/** The three kernels of one lattice Boltzmann timestep, run as sequential
    loops over the cells: First (forcing, streaming and boundaries into the
    cell-major local buffer), Second (moments) and Third (equilibrium and
    BGK collision into the next direction-major buffer). Every cell reads
    only buffers the kernel does not write and writes only its own slots,
    so visiting the cells one after the other gives what the parallel
    launch gives. The buffers a kernel only reads (declared const and
    __restrict__ in the source, or not written by that kernel) are passed
    as sequences; the buffers it writes are arrays. */
module Kernels {
  import opened Lattice
  import opened Equilibrium
  import opened LbmConfig
  import opened Streaming
  import opened Sweeps
  import opened Collision

  /** The shallow-water forcing terms of one active cell, written into
      forcing[8i .. 8i + 8] by the two loops of the source: the axis loop
      and then the diagonal loop. */
  method SweForcing(c: Config, forcing: array<real>, b: seq<real>, h: seq<real>, i: nat)
    requires c.physics.ShallowWater? && c.e != 0.0
    requires i < c.Cells() && |b| >= c.Cells() && |h| >= c.Cells() && forcing.Length >= 8 * c.Cells()
    modifies forcing
    ensures forcing[..] == Splice(old(forcing[..]), 8 * i, CellForcing(c, h, b, i))
  {
    ghost var before := forcing[..];
    ForceLoop(c, forcing, b, h, i, 0, 4);
    ForceLoop(c, forcing, b, h, i, 4, 8);
    CellForcingSwe(c, h, b, i);
    SpliceFrom(forcing[..], before, 8 * i, CellForcing(c, h, b, i));
  }

  /** One of the two forcing loops: directions lo .. hi - 1 of cell i, all
      axis directions (k < 4) or all diagonal ones. Slots written by an
      earlier loop are kept. */
  method ForceLoop(c: Config, forcing: array<real>, b: seq<real>, h: seq<real>, i: nat, lo: nat, hi: nat)
    requires c.physics.ShallowWater? && c.e != 0.0
    requires i < c.Cells() && |b| >= c.Cells() && |h| >= c.Cells() && forcing.Length >= 8 * c.Cells()
    requires (lo, hi) == (0, 4) || (lo, hi) == (4, 8)
    requires forall k :: 0 <= k < lo ==> forcing[8 * i + k] == SweForce(h, b, c.e, c.lx, c.Cells(), i, k)
    modifies forcing
    ensures forall k :: 0 <= k < hi ==> forcing[8 * i + k] == SweForce(h, b, c.e, c.lx, c.Cells(), i, k)
    ensures forall k :: 0 <= k < forcing.Length && !(8 * i + lo <= k < 8 * i + hi) ==> forcing[k] == old(forcing[k])
  {
    var n := c.Cells();
    var factor := ForceFactor(c.e);
    var localh := h[i];
    var localb := b[i];
    var j := lo;
    while j < hi
      invariant lo <= j <= hi
      invariant forall k :: 0 <= k < j ==> forcing[8 * i + k] == SweForce(h, b, c.e, c.lx, n, i, k)
      invariant forall k :: 0 <= k < forcing.Length && !(8 * i + lo <= k < 8 * i + j) ==> forcing[k] == old(forcing[k])
    {
      var index := Idx(i, j, c.lx);
      if index > 0 && index < n {
        if j < 4 {
          forcing[8 * i + j] := AxisForce(factor, localh, h[index], localb, b[index]);
        } else {
          forcing[8 * i + j] := DiagonalForce(factor, localh, h[index], localb, b[index]);
        }
      } else {
        forcing[8 * i + j] := 0.0;
      }
      j := j + 1;
    }
  }

  /** The eight given terms stored into forcing[8i .. 8i + 8]: the zeroing
      loop of the models without forcing, and what the user hook writes. */
  method WriteForces(forcing: array<real>, i: nat, v: Forces)
    requires 8 * i + 8 <= forcing.Length
    modifies forcing
    ensures forcing[..] == Splice(old(forcing[..]), 8 * i, v)
  {
    ghost var before := forcing[..];
    var j := 0;
    while j < 8
      invariant 0 <= j <= 8
      invariant forall k :: 0 <= k < j ==> forcing[8 * i + k] == v[k]
      invariant forall k :: 0 <= k < forcing.Length && !(8 * i <= k < 8 * i + j) ==> forcing[k] == old(forcing[k])
    {
      forcing[8 * i + j] := v[j];
      j := j + 1;
    }
    SpliceFrom(forcing[..], before, 8 * i, v);
  }

  /** The forcing block of First for an active cell, by physics model. */
  method ComputeForcing(c: Config, forcing: array<real>, b: seq<real>, h: seq<real>, i: nat)
    requires c.LatticeSpeedUsable() && i < c.Cells() && |b| >= c.Cells() && |h| >= c.Cells()
    requires forcing.Length >= 8 * c.Cells()
    modifies forcing
    ensures forcing[..] == Splice(old(forcing[..]), 8 * i, CellForcing(c, h, b, i))
  {
    match c.physics
    case ShallowWater =>
      SweForcing(c, forcing, b, h, i);
    case UserDefined(force, _) =>
      WriteForces(forcing, i, force(ForcingView(h, b, c.e, i, c.lx)));
    case _ =>
      WriteForces(forcing, i, [0.0, 0.0, 0.0, 0.0, 0.0, 0.0, 0.0, 0.0]);
  }

  /** OBC: the open boundary copies the cell's own previous value in
      direction j into the local buffer. */
  method Obc(c: Config, localf: array<real>, f1: seq<real>, i: nat, j: nat)
    requires i < c.Cells() && j < 9 && |f1| >= 9 * c.Cells() && localf.Length >= 9 * c.Cells()
    modifies localf
    ensures localf[..] == old(localf[..])[9 * i + j := Own(c, f1, i, j)]
  {
    IdxCmInRange(i, j, c.lx, c.ly);
    localf[9 * i + j] := f1[IdxCm(i, j, c.lx, c.ly)];
  }

  /** The streaming loop of First: directions that stream in take the
      previous value of the neighbour i + c_j plus the forcing term,
      pass-through directions take the cell's own previous value. */
  method StreamingPass(c: Config, localf: array<real>, f1: seq<real>, forcing: array<real>,
                       b1: bv8, b2: bv8, i: nat, ghost force: Forces)
    requires CellInputs(c, f1, b1, b2, i) && localf.Length >= 9 * c.Cells()
    requires forcing.Length >= 8 * c.Cells() && forcing[8 * i .. 8 * i + 8] == force && localf != forcing
    modifies localf
    ensures localf[..] == Splice(old(localf[..]), 9 * i,
                                 PassUpTo(c, Streaming, f1, b1, b2, force, i, old(localf[9 * i .. 9 * i + 9]), 9))
  {
    ghost var before := localf[..];
    ghost var loc0 := localf[9 * i .. 9 * i + 9];
    SpliceSame(before, 9 * i, 9);
    var j := 1;
    while j < 9
      invariant 1 <= j <= 9
      invariant localf[..] == Splice(before, 9 * i, PassUpTo(c, Streaming, f1, b1, b2, force, i, loc0, j))
    {
      StreamDirection(c, localf, f1, forcing, b1, b2, i, j, force, before, loc0);
      j := j + 1;
    }
  }

  /** The body of the streaming loop for direction j. */
  method StreamDirection(c: Config, localf: array<real>, f1: seq<real>, forcing: array<real>,
                         b1: bv8, b2: bv8, i: nat, j: nat, ghost force: Forces,
                         ghost before: seq<real>, ghost loc0: seq<real>)
    requires CellInputs(c, f1, b1, b2, i) && 1 <= j <= 8 && |loc0| == 9 && |before| == localf.Length
    requires localf.Length >= 9 * c.Cells()
    requires forcing.Length >= 8 * c.Cells() && forcing[8 * i .. 8 * i + 8] == force && localf != forcing
    requires localf[..] == Splice(before, 9 * i, PassUpTo(c, Streaming, f1, b1, b2, force, i, loc0, j))
    modifies localf
    ensures localf[..] == Splice(before, 9 * i, PassUpTo(c, Streaming, f1, b1, b2, force, i, loc0, j + 1))
  {
    ghost var cur := PassUpTo(c, Streaming, f1, b1, b2, force, i, loc0, j);
    StreamingStep(c, f1, b1, b2, force, i, loc0, j);
    var rule := RuleOf(b1, b2, j - 1);
    if rule == StreamIn {
      var up := Idx(i, j - 1, c.lx);
      IdxCmInRange(up, j, c.lx, c.ly);
      assert forcing[8 * i + j - 1] == force[j - 1];
      localf[9 * i + j] := f1[IdxCm(up, j, c.lx, c.ly)] + forcing[8 * i + j - 1];
      SpliceUpdate(before, 9 * i, cur, j, localf[9 * i + j]);
    } else if rule == PassThrough {
      IdxCmInRange(i, j, c.lx, c.ly);
      localf[9 * i + j] := f1[IdxCm(i, j, c.lx, c.ly)];
      SpliceUpdate(before, 9 * i, cur, j, localf[9 * i + j]);
    }
  }

  /** A boundary loop of First: category A (BC1) or category B (BC2).
      Each direction of the category gets the operator's value: OBC, or a
      hidden operator applied to the cell's local values as they stand. */
  method BoundaryPass(c: Config, ph: Phase, localf: array<real>, f1: seq<real>,
                      b1: bv8, b2: bv8, i: nat, ghost force: Forces)
    requires !ph.Streaming? && CellInputs(c, f1, b1, b2, i) && localf.Length >= 9 * c.Cells()
    modifies localf
    ensures localf[..] == Splice(old(localf[..]), 9 * i,
                                 PassUpTo(c, ph, f1, b1, b2, force, i, old(localf[9 * i .. 9 * i + 9]), 9))
  {
    ghost var before := localf[..];
    ghost var loc0 := localf[9 * i .. 9 * i + 9];
    SpliceSame(before, 9 * i, 9);
    var j := 1;
    while j < 9
      invariant 1 <= j <= 9
      invariant localf[..] == Splice(before, 9 * i, PassUpTo(c, ph, f1, b1, b2, force, i, loc0, j))
    {
      BoundaryDirection(c, ph, localf, f1, b1, b2, i, j, force, before, loc0);
      j := j + 1;
    }
  }

  /** The body of a boundary loop for direction j. */
  method BoundaryDirection(c: Config, ph: Phase, localf: array<real>, f1: seq<real>,
                           b1: bv8, b2: bv8, i: nat, j: nat, ghost force: Forces,
                           ghost before: seq<real>, ghost loc0: seq<real>)
    requires !ph.Streaming? && CellInputs(c, f1, b1, b2, i) && 1 <= j <= 8 && |loc0| == 9
    requires localf.Length >= 9 * c.Cells() && |before| == localf.Length
    requires localf[..] == Splice(before, 9 * i, PassUpTo(c, ph, f1, b1, b2, force, i, loc0, j))
    modifies localf
    ensures localf[..] == Splice(before, 9 * i, PassUpTo(c, ph, f1, b1, b2, force, i, loc0, j + 1))
  {
    ghost var cur := PassUpTo(c, ph, f1, b1, b2, force, i, loc0, j);
    BoundaryStep(c, ph, f1, b1, b2, force, i, loc0, j);
    var rule := RuleOf(b1, b2, j - 1);
    if (ph.CategoryA? && rule == BoundaryA) || (ph.CategoryB? && rule == BoundaryB) {
      ghost var prior := localf[..];
      ghost var v := BoundaryValue(c, ph.op, f1, b1, b2, i, cur, j);
      assert localf[9 * i .. 9 * i + 9] == cur by {
        SpliceSlice(before, 9 * i, cur);
      }
      match ph.op
      case Open =>
        Obc(c, localf, f1, i, j);
      case Hidden(_, g) =>
        localf[9 * i + j] := g(BoundaryView(localf[9 * i .. 9 * i + 9], f1, i, j, c.lx, c.ly, b1, b2));
      assert localf[..] == prior[9 * i + j := v];
      SpliceUpdate(before, 9 * i, cur, j, v);
    }
  }

  /** The category-A loop of First when BC1 names no operator: the test
      has no statement of its own and takes the category-B loop as its
      body, so every boundary-A direction runs the whole category-B loop. */
  method NestedPass(c: Config, op: Boundary, localf: array<real>, f1: seq<real>,
                    b1: bv8, b2: bv8, i: nat, ghost force: Forces)
    requires CellInputs(c, f1, b1, b2, i) && localf.Length >= 9 * c.Cells()
    modifies localf
    ensures localf[..] == Splice(old(localf[..]), 9 * i,
                                 NestedUpTo(c, op, f1, b1, b2, force, i, old(localf[9 * i .. 9 * i + 9]), 9))
  {
    ghost var before := localf[..];
    ghost var loc0 := localf[9 * i .. 9 * i + 9];
    SpliceSame(before, 9 * i, 9);
    var j := 1;
    while j < 9
      invariant 1 <= j <= 9
      invariant localf[..] == Splice(before, 9 * i, NestedUpTo(c, op, f1, b1, b2, force, i, loc0, j))
    {
      ghost var cur := NestedUpTo(c, op, f1, b1, b2, force, i, loc0, j);
      if RuleOf(b1, b2, j - 1) == BoundaryA {
        SpliceSlice(before, 9 * i, cur);
        BoundaryPass(c, CategoryB(op), localf, f1, b1, b2, i, force);
        SpliceTwice(before, 9 * i, cur, PassUpTo(c, CategoryB(op), f1, b1, b2, force, i, cur, 9));
      }
      j := j + 1;
    }
  }

  /** The body of First for an active cell i: its forcing terms, then its
      nine local values (rest direction, streaming loop, then the boundary
      loops: category A followed by category B when BC1 names an operator,
      category B nested in the category-A test when it does not). */
  method FirstCell(c: Config, forcing: array<real>, localf: array<real>, b: seq<real>, h: seq<real>,
                   f1: seq<real>, b1: bv8, b2: bv8, i: nat)
    requires c.LatticeSpeedUsable() && CellInputs(c, f1, b1, b2, i) && |b| >= c.Cells() && |h| >= c.Cells()
    requires forcing.Length >= 8 * c.Cells() && localf.Length >= 9 * c.Cells() && forcing != localf
    modifies forcing, localf
    ensures forcing[..] == Splice(old(forcing[..]), 8 * i, CellForcing(c, h, b, i))
    ensures localf[..] == Splice(old(localf[..]), 9 * i,
                                 CellLocal(c, f1, b1, b2, CellForcing(c, h, b, i), i, old(localf[9 * i .. 9 * i + 9])))
  {
    ghost var L0 := localf[..];
    ghost var old9 := localf[9 * i .. 9 * i + 9];
    ComputeForcing(c, forcing, b, h, i);
    ghost var force: Forces := CellForcing(c, h, b, i);
    assert forcing[8 * i .. 8 * i + 8] == force by {
      SpliceSlice(old(forcing[..]), 8 * i, force);
    }

    IdxCmInRange(i, 0, c.lx, c.ly);
    localf[9 * i] := f1[i];
    ghost var s0 := old9[0 := Own(c, f1, i, 0)];
    assert localf[..] == Splice(L0, 9 * i, s0) by {
      SpliceSame(L0, 9 * i, 9);
      SpliceUpdate(L0, 9 * i, old9, 0, f1[i]);
    }

    SpliceSlice(L0, 9 * i, s0);
    StreamingPass(c, localf, f1, forcing, b1, b2, i, force);
    ghost var s1 := PassUpTo(c, Streaming, f1, b1, b2, force, i, s0, 9);
    SpliceTwice(L0, 9 * i, s0, s1);
    if c.bc1.Some? {
      SpliceSlice(L0, 9 * i, s1);
      BoundaryPass(c, CategoryA(c.bc1.value), localf, f1, b1, b2, i, force);
      ghost var s2 := PassUpTo(c, CategoryA(c.bc1.value), f1, b1, b2, force, i, s1, 9);
      SpliceTwice(L0, 9 * i, s1, s2);
      if c.bc2.Some? {
        SpliceSlice(L0, 9 * i, s2);
        BoundaryPass(c, CategoryB(c.bc2.value), localf, f1, b1, b2, i, force);
        ghost var s3 := PassUpTo(c, CategoryB(c.bc2.value), f1, b1, b2, force, i, s2, 9);
        SpliceTwice(L0, 9 * i, s2, s3);
      }
    } else if c.bc2.Some? {
      SpliceSlice(L0, 9 * i, s1);
      NestedPass(c, c.bc2.value, localf, f1, b1, b2, i, force);
      SpliceTwice(L0, 9 * i, s1, NestedUpTo(c, c.bc2.value, f1, b1, b2, force, i, s1, 9));
    }
  }

  /** The First kernel over the whole grid: cells with both masks zero are
      skipped, every other cell runs FirstCell. */
  method First(c: Config, forcing: array<real>, localf: array<real>, b: seq<real>, h: seq<real>,
               f1: seq<real>, binary1: seq<bv8>, binary2: seq<bv8>)
    requires GridInputs(c, f1, h, b, binary1, binary2)
    requires forcing.Length >= 8 * c.Cells() && localf.Length >= 9 * c.Cells() && forcing != localf
    modifies forcing, localf
    ensures forcing[..] == FirstForcing(c, f1, h, b, binary1, binary2, old(forcing[..]), c.Cells())
    ensures localf[..] == FirstLocal(c, f1, h, b, binary1, binary2, old(localf[..]), c.Cells())
  {
    ghost var F0, L0 := forcing[..], localf[..];
    var n := c.Cells();
    var i := 0;
    while i < n
      invariant 0 <= i <= n
      invariant forcing[..] == FirstForcing(c, f1, h, b, binary1, binary2, F0, i)
      invariant localf[..] == FirstLocal(c, f1, h, b, binary1, binary2, L0, i)
    {
      var b1 := binary1[i];
      var b2 := binary2[i];
      if b1 != 0 || b2 != 0 {
        FirstCell(c, forcing, localf, b, h, f1, b1, b2, i);
      }
      i := i + 1;
    }
  }

  /** The Second kernel: every active cell stores the moments of its nine
      local values (calculateMacroscopic) and copies the scalar into h. */
  method Second(c: Config, lm: array<real>, h: array<real>, localf: seq<real>,
                binary1: seq<bv8>, binary2: seq<bv8>)
    requires SecondInputs(c, localf, binary1, binary2)
    requires lm.Length >= 3 * c.Cells() && h.Length >= c.Cells() && lm != h
    modifies lm, h
    ensures lm[..] == SecondMacro(c, localf, binary1, binary2, old(lm[..]), c.Cells())
    ensures h[..] == SecondDepth(c, localf, binary1, binary2, old(h[..]), c.Cells())
  {
    ghost var M0, H0 := lm[..], h[..];
    var n := c.Cells();
    var i := 0;
    while i < n
      invariant 0 <= i <= n
      invariant lm[..] == SecondMacro(c, localf, binary1, binary2, M0, i)
      invariant h[..] == SecondDepth(c, localf, binary1, binary2, H0, i)
    {
      var b1 := binary1[i];
      var b2 := binary2[i];
      if b1 != 0 || b2 != 0 {
        SecondCell(c, lm, h, localf, i);
      }
      i := i + 1;
    }
  }

  /** The body of Second for an active cell i. */
  method SecondCell(c: Config, lm: array<real>, h: array<real>, localf: seq<real>, i: nat)
    requires i < c.Cells() && |localf| >= 9 * c.Cells() && Density(CellOf(localf, i)) != 0.0
    requires lm.Length >= 3 * c.Cells() && h.Length >= c.Cells() && lm != h
    modifies lm, h
    ensures lm[..] == Splice(old(lm[..]), 3 * i, MacroSeq(Moments(CellOf(localf, i), c.e)))
    ensures h[..] == old(h[..])[i := Moments(CellOf(localf, i), c.e).scalar]
  {
    var m := Moments(localf[9 * i .. 9 * i + 9], c.e);
    lm[3 * i] := m.scalar;
    lm[3 * i + 1] := m.ux;
    lm[3 * i + 2] := m.uy;
    h[i] := lm[3 * i];
    SpliceFrom(lm[..], old(lm[..]), 3 * i, MacroSeq(m));
  }

  /** The Third kernel: every active cell is relaxed toward the equilibrium
      of its stored triple and written into f2 in the direction-major
      layout. */
  method Third(c: Config, f2: array<real>, lm: seq<real>, localf: seq<real>,
               binary1: seq<bv8>, binary2: seq<bv8>)
    requires ThirdInputs(c, lm, localf, binary1, binary2) && f2.Length >= 9 * c.Cells()
    modifies f2
    ensures f2[..] == ThirdF2(c, lm, localf, binary1, binary2, old(f2[..]), c.Cells())
  {
    ghost var G0 := f2[..];
    var n := c.Cells();
    var i := 0;
    while i < n
      invariant 0 <= i <= n
      invariant f2[..] == ThirdF2(c, lm, localf, binary1, binary2, G0, i)
    {
      var b1 := binary1[i];
      var b2 := binary2[i];
      if b1 != 0 || b2 != 0 {
        ThirdCell(c, f2, lm, localf, i);
      }
      i := i + 1;
    }
  }

  /** The body of Third for an active cell i: the equilibrium of the
      cell's triple, then the collision loop over the nine directions. */
  method ThirdCell(c: Config, f2: array<real>, lm: seq<real>, localf: seq<real>, i: nat)
    requires c.LatticeSpeedUsable() && c.tau != 0.0 && i < c.Cells()
    requires |lm| >= 3 * c.Cells() && |localf| >= 9 * c.Cells() && f2.Length >= 9 * c.Cells()
    modifies f2
    ensures f2[..] == ScatterUpTo(old(f2[..]), c, i, CellRelaxed(c, lm, localf, i), 9)
  {
    ghost var before := f2[..];
    var tmp := Macro(lm[3 * i], lm[3 * i + 1], lm[3 * i + 2]);
    var feq := CellEquilibrium(c, tmp);
    ghost var r := CellRelaxed(c, lm, localf, i);
    var j := 0;
    while j < 9
      invariant 0 <= j <= 9
      invariant f2[..] == ScatterUpTo(before, c, i, r, j)
    {
      IdxCmInRange(i, j, c.lx, c.ly);
      f2[IdxCm(i, j, c.lx, c.ly)] := Collide(localf[9 * i + j], feq[j], c.tau);
      j := j + 1;
    }
  }
}
