/** The per-cell specification of the First kernel: the forcing terms, the
    two-bit classification of each moving direction, and the three passes
    that fill a cell's nine local populations from the previous global
    buffer. */
module Streaming {
  import opened Lattice
  import opened Equilibrium
  import opened LbmConfig
  import opened RealFacts
  import opened IntFacts
  import opened Options

  /** A cell takes part in the timestep when either of its masks is
      non-zero; every kernel skips the others. */
  predicate Active(b1: bv8, b2: bv8)
  {
    b1 != 0 || b2 != 0
  }

  /** The four branch conditions of First for table direction k (lattice
      direction k + 1), written with the bit operations of the source. */
  predicate StreamInBits(b1: bv8, b2: bv8, k: nat)
    requires k < 8
  {
    ((b1 >> k) & 1) & (!(b2 >> k) & 1) != 0
  }

  predicate PassThroughBits(b1: bv8, b2: bv8, k: nat)
    requires k < 8
  {
    (!(b1 >> k) & 1) & (!(b2 >> k) & 1) != 0
  }

  predicate BoundaryABits(b1: bv8, b2: bv8, k: nat)
    requires k < 8
  {
    (!(b1 >> k) & 1) & ((b2 >> k) & 1) != 0
  }

  predicate BoundaryBBits(b1: bv8, b2: bv8, k: nat)
    requires k < 8
  {
    ((b1 >> k) & 1) & ((b2 >> k) & 1) != 0
  }

  /** The four rules a moving direction can follow. */
  datatype Rule = PassThrough | StreamIn | BoundaryA | BoundaryB

  /** Bit k of a mask, read by shifting one place at a time. */
  function Bit(b: bv8, k: nat): bool
    requires k < 8
  {
    if k == 0 then b & 1 == 1 else Bit(b >> 1, k - 1)
  }

  /** The classification table: bit k of the first mask and bit k of the
      second select the rule of direction k + 1. */
  function RuleOf(b1: bv8, b2: bv8, k: nat): Rule
    requires k < 8
  {
    var m1 := Bit(b1, k);
    var m2 := Bit(b2, k);
    if !m1 && !m2 then PassThrough
    else if m1 && !m2 then StreamIn
    else if !m1 then BoundaryA
    else BoundaryB
  }

  /** Bit k is what the source's shift-and-mask reads. */
  lemma BitIsShift(b: bv8, k: nat)
    requires k < 8
    ensures Bit(b, k) <==> (b >> k) & 1 == 1
  {
    if k == 0 {
    } else if k == 1 {
      assert Bit(b, 1) == Bit(b >> 1, 0);
    } else if k == 2 {
      assert Bit(b, 2) == Bit(b >> 1 >> 1, 0);
    } else if k == 3 {
      assert Bit(b, 3) == Bit(b >> 1 >> 1 >> 1, 0);
    } else if k == 4 {
      assert Bit(b, 4) == Bit(b >> 1 >> 1 >> 1 >> 1, 0);
    } else if k == 5 {
      assert Bit(b, 5) == Bit(b >> 1 >> 1 >> 1 >> 1 >> 1, 0);
    } else if k == 6 {
      assert Bit(b, 6) == Bit(b >> 1 >> 1 >> 1 >> 1 >> 1 >> 1, 0);
    } else {
      assert Bit(b, 7) == Bit(b >> 1 >> 1 >> 1 >> 1 >> 1 >> 1 >> 1, 0);
    }
  }

  /** Each of the source's bit conditions holds exactly when the table
      selects its rule, so exactly one of them holds for every direction. */
  lemma RuleOfBits(b1: bv8, b2: bv8, k: nat)
    requires k < 8
    ensures StreamInBits(b1, b2, k) <==> RuleOf(b1, b2, k) == StreamIn
    ensures PassThroughBits(b1, b2, k) <==> RuleOf(b1, b2, k) == PassThrough
    ensures BoundaryABits(b1, b2, k) <==> RuleOf(b1, b2, k) == BoundaryA
    ensures BoundaryBBits(b1, b2, k) <==> RuleOf(b1, b2, k) == BoundaryB
  {
    BitIsShift(b1, k);
    BitIsShift(b2, k);
  }

  /** A cell with both masks zero passes every direction through, and an
      active cell has some direction that does not. */
  lemma InactiveMeansPassThrough(b1: bv8, b2: bv8)
    ensures !Active(b1, b2) <==> forall k :: 0 <= k < 8 ==> RuleOf(b1, b2, k) == PassThrough
  {
    if b1 != 0 {
      var k := SomeBit(b1);
      assert RuleOf(b1, b2, k) != PassThrough;
    } else if b2 != 0 {
      var k := SomeBit(b2);
      assert RuleOf(b1, b2, k) != PassThrough;
    } else {
      forall k | 0 <= k < 8
        ensures RuleOf(b1, b2, k) == PassThrough
      {
        BitIsShift(b1, k);
      }
    }
  }

  /** A non-zero mask has a set bit. */
  lemma SomeBit(b: bv8) returns (k: nat)
    requires b != 0
    ensures k < 8 && Bit(b, k)
  {
    BitIsShift(b, 0); BitIsShift(b, 1); BitIsShift(b, 2); BitIsShift(b, 3);
    BitIsShift(b, 4); BitIsShift(b, 5); BitIsShift(b, 6); BitIsShift(b, 7);
    if b & 1 == 1 { k := 0; }
    else if (b >> 1) & 1 == 1 { k := 1; }
    else if (b >> 2) & 1 == 1 { k := 2; }
    else if (b >> 3) & 1 == 1 { k := 3; }
    else if (b >> 4) & 1 == 1 { k := 4; }
    else if (b >> 5) & 1 == 1 { k := 5; }
    else if (b >> 6) & 1 == 1 { k := 6; }
    else { k := 7; }
  }

  /** Every stream-in direction of cell i has its neighbour i + c_k on the
      grid. The source reads f1 at that neighbour without a range check. */
  predicate StreamInInRange(c: Config, b1: bv8, b2: bv8, i: nat)
  {
    forall k :: 0 <= k < 8 && RuleOf(b1, b2, k) == StreamIn ==> 0 <= Idx(i, k, c.lx) < c.Cells()
  }

  /** The factor 1/(6 e^2) of the shallow-water forcing, characterised as
      the number whose product with 6 e^2 is one; ForceFactorIsReciprocal
      shows that it is the quotient. */
  function ForceFactor(e: real): (factor: real)
    requires e != 0.0
    ensures IsForceFactor(factor, e)
  {
    assert 6.0 * e != 0.0;
    ProductCancel(e, 6.0 * e);
    assert IsForceFactor(1.0 / (6.0 * e * e), e);
    var factor :| IsForceFactor(factor, e);
    factor
  }

  predicate IsForceFactor(factor: real, e: real)
  {
    factor * (6.0 * e * e) == 1.0
  }

  lemma ForceFactorIsReciprocal(e: real)
    requires e != 0.0
    ensures ForceFactor(e) == 1.0 / (6.0 * e * e)
  {
    assert 6.0 * e != 0.0;
    ProductCancel(e, 6.0 * e);
    ReciprocalUnique(ForceFactor(e), 1.0 / (6.0 * e * e), 6.0 * e * e);
  }

  /** The gravity-driven force toward a neighbour with depth hn and bed bn,
      for a cell with depth hi and bed bi: factor g (hi + hn)(bn - bi) on
      the axes, a quarter of that on the diagonals. */
  function AxisForce(factor: real, hi: real, hn: real, bi: real, bn: real): real
  {
    factor * Gravity * (hi + hn) * (bn - bi)
  }

  function DiagonalForce(factor: real, hi: real, hn: real, bi: real, bn: real): real
  {
    factor * 0.25 * Gravity * (hi + hn) * (bn - bi)
  }

  /** The forcing of the shallow-water model along table direction k, with
      factor 1/(6 e^2), and zero unless the neighbour n satisfies
      0 < n < Lx * Ly. */
  function SweForce(h: seq<real>, b: seq<real>, e: real, lx: nat, n: nat, i: nat, k: nat): real
    requires e != 0.0 && k < 8 && i < n && |h| >= n && |b| >= n
  {
    var factor := ForceFactor(e);
    var index := Idx(i, k, lx);
    if index > 0 && index < n then
      if k < 4 then AxisForce(factor, h[i], h[index], b[i], b[index])
      else DiagonalForce(factor, h[i], h[index], b[i], b[index])
    else 0.0
  }

  /** The forcing terms the source writes for cell i under each model: the
      shallow-water formula, the user hook, or zero. */
  function CellForcing(c: Config, h: seq<real>, b: seq<real>, i: nat): Forces
    requires c.LatticeSpeedUsable() && i < c.Cells() && |h| >= c.Cells() && |b| >= c.Cells()
  {
    match c.physics
    case ShallowWater =>
      var n := c.Cells();
      [SweForce(h, b, c.e, c.lx, n, i, 0), SweForce(h, b, c.e, c.lx, n, i, 1),
       SweForce(h, b, c.e, c.lx, n, i, 2), SweForce(h, b, c.e, c.lx, n, i, 3),
       SweForce(h, b, c.e, c.lx, n, i, 4), SweForce(h, b, c.e, c.lx, n, i, 5),
       SweForce(h, b, c.e, c.lx, n, i, 6), SweForce(h, b, c.e, c.lx, n, i, 7)]
    case UserDefined(force, _) => force(ForcingView(h, b, c.e, i, c.lx))
    case _ => [0.0, 0.0, 0.0, 0.0, 0.0, 0.0, 0.0, 0.0]
  }

  /** Under the shallow-water model the eight terms are SweForce along
      the eight table directions. */
  lemma CellForcingSwe(c: Config, h: seq<real>, b: seq<real>, i: nat)
    requires c.physics.ShallowWater? && c.e != 0.0 && i < c.Cells() && |h| >= c.Cells() && |b| >= c.Cells()
    ensures forall k :: 0 <= k < 8 ==> CellForcing(c, h, b, i)[k] == SweForce(h, b, c.e, c.lx, c.Cells(), i, k)
  {
  }

  /** No neighbour on the grid (or the neighbour is cell 0, which the strict
      guard also excludes), no force; a flat bed exerts no force either; on a
      diagonal the force is a quarter of the axis formula. */
  lemma SweForceCases(h: seq<real>, b: seq<real>, e: real, lx: nat, n: nat, i: nat, k: nat)
    requires e != 0.0 && k < 8 && i < n && |h| >= n && |b| >= n
    ensures !(0 < Idx(i, k, lx) < n) ==> SweForce(h, b, e, lx, n, i, k) == 0.0
    ensures 0 < Idx(i, k, lx) < n && b[Idx(i, k, lx)] == b[i] ==> SweForce(h, b, e, lx, n, i, k) == 0.0
    ensures 0 < Idx(i, k, lx) < n && k < 4 ==>
      SweForce(h, b, e, lx, n, i, k)
        == 1.0 / (6.0 * e * e) * Gravity * (h[i] + h[Idx(i, k, lx)]) * (b[Idx(i, k, lx)] - b[i])
    ensures 0 < Idx(i, k, lx) < n && k >= 4 ==>
      SweForce(h, b, e, lx, n, i, k)
        == 0.25 * (1.0 / (6.0 * e * e) * Gravity * (h[i] + h[Idx(i, k, lx)]) * (b[Idx(i, k, lx)] - b[i]))
  {
    ForceFactorIsReciprocal(e);
  }

  /** The strict guard index > 0 breaks action and reaction at cell 0:
      cell 0 feels cell 1 along table direction 0, while cell 1 never feels
      cell 0 along the reverse direction 2. */
  lemma SweForceSkipsCellZero(h: seq<real>, b: seq<real>, e: real, lx: nat, n: nat)
    requires e != 0.0 && 2 <= n && |h| >= n && |b| >= n
    ensures Idx(1, 2, lx) == 0 && Idx(0, 0, lx) == 1
    ensures SweForce(h, b, e, lx, n, 1, 2) == 0.0
    ensures SweForce(h, b, e, lx, n, 0, 0) == AxisForce(ForceFactor(e), h[0], h[1], b[0], b[1])
    ensures h[0] + h[1] != 0.0 && b[0] != b[1] ==> SweForce(h, b, e, lx, n, 0, 0) != 0.0
  {
    var factor := ForceFactor(e);
    if h[0] + h[1] != 0.0 && b[0] != b[1] {
      assert factor != 0.0;
      NonZeroProduct(factor * Gravity, h[0] + h[1], b[1] - b[0]);
    }
  }

  /** A product of three non-zero numbers is not zero. */
  lemma NonZeroProduct(x: real, y: real, z: real)
    requires x != 0.0 && y != 0.0 && z != 0.0
    ensures x * y * z != 0.0
  {
    assert x * y != 0.0;
  }

  /** The forcing does not stop at the left and right edges of the grid:
      IDX along table direction 2 takes the first cell of row r (r >= 1) to
      the last cell of row r - 1, which the guard lets through, so that
      cell pushes it. */
  lemma SweForceCrossesRows(h: seq<real>, b: seq<real>, e: real, lx: nat, n: nat, r: nat)
    requires e != 0.0 && 1 <= r && 2 <= lx && r * lx < n && |h| >= n && |b| >= n
    ensures Idx(r * lx, 2, lx) == (r - 1) * lx + (lx - 1)
    ensures 0 < (r - 1) * lx + (lx - 1) < r * lx
    ensures SweForce(h, b, e, lx, n, r * lx, 2)
         == AxisForce(ForceFactor(e), h[r * lx], h[(r - 1) * lx + (lx - 1)], b[r * lx], b[(r - 1) * lx + (lx - 1)])
  {
    IdxCrossesRows(r, lx);
    ProductNonNegative(r - 1, lx);
  }

  /** Action and reaction: the force cell i feels from neighbour m is the
      opposite of the force m feels from i along the reverse direction. */
  lemma SweForceAntisymmetric(h: seq<real>, b: seq<real>, e: real, lx: nat, n: nat, i: nat, k: nat)
    requires e != 0.0 && k < 8 && 0 < i < n && |h| >= n && |b| >= n
    requires 0 < Idx(i, k, lx) < n
    ensures SweForce(h, b, e, lx, n, Idx(i, k, lx), Opposite(k)) == -SweForce(h, b, e, lx, n, i, k)
  {
    var m := Idx(i, k, lx);
    IdxOppositeReturns(i, k, lx);
    assert Idx(m, Opposite(k), lx) == i;
    assert (Opposite(k) < 4) == (k < 4);
    ForceAntisymmetric(ForceFactor(e), h[i], h[m], b[i], b[m]);
  }

  /** Swapping the two cells negates the force. */
  lemma ForceAntisymmetric(factor: real, hi: real, hn: real, bi: real, bn: real)
    ensures AxisForce(factor, hn, hi, bn, bi) == -AxisForce(factor, hi, hn, bi, bn)
    ensures DiagonalForce(factor, hn, hi, bn, bi) == -DiagonalForce(factor, hi, hn, bi, bn)
  {
    assert (hn + hi) * (bi - bn) == -((hi + hn) * (bn - bi));
  }

  /** The three passes of First over the moving directions: the
      streaming pass, then boundary category A with operator BC1, then
      category B with operator BC2. */
  datatype Phase = Streaming | CategoryA(op: Boundary) | CategoryB(op: Boundary)

  /** The rules whose directions a pass writes: the streaming pass writes
      the stream-in and the pass-through directions. */
  predicate PhaseWrites(ph: Phase, rule: Rule)
  {
    match ph
    case Streaming => rule == StreamIn || rule == PassThrough
    case CategoryA(_) => rule == BoundaryA
    case CategoryB(_) => rule == BoundaryB
  }

  /** The inputs First reads for cell i: the configuration, the previous
      global buffer, the cell's masks and its forcing terms. */
  predicate CellInputs(c: Config, f1: seq<real>, b1: bv8, b2: bv8, i: nat)
  {
    i < c.Cells() && |f1| >= 9 * c.Cells() && StreamInInRange(c, b1, b2, i)
  }

  /** The previous value of cell i in direction j: f1[IDXcm(i, j)]. */
  function Own(c: Config, f1: seq<real>, i: nat, j: nat): real
    requires i < c.Cells() && |f1| >= 9 * c.Cells() && j < 9
  {
    IdxCmInRange(i, j, c.lx, c.ly);
    f1[IdxCm(i, j, c.lx, c.ly)]
  }

  /** The previous value in direction j of the neighbour IDX(i, j - 1),
      the cell at i + c_j (one step along direction j itself):
      f1[IDXcm(IDX(i, j - 1), j)]. */
  function Neighbour(c: Config, f1: seq<real>, i: nat, j: nat): real
    requires |f1| >= 9 * c.Cells() && 1 <= j < 9 && 0 <= Idx(i, j - 1, c.lx) < c.Cells()
  {
    var n := Idx(i, j - 1, c.lx);
    IdxCmInRange(n, j, c.lx, c.ly);
    f1[IdxCm(n, j, c.lx, c.ly)]
  }

  /** The value a boundary operator writes into slot j: OBC copies the
      cell's own previous value; a hidden operator is applied to the view. */
  function BoundaryValue(c: Config, op: Boundary, f1: seq<real>, b1: bv8, b2: bv8, i: nat,
                         loc: seq<real>, j: nat): real
    requires 1 <= j <= 8 && CellInputs(c, f1, b1, b2, i)
  {
    match op
    case Open => Own(c, f1, i, j)
    case Hidden(_, g) => g(BoundaryView(loc, f1, i, j, c.lx, c.ly, b1, b2))
  }

  /** What a pass does to direction j of the cell's local values, by the
      rule of the direction (RuleOfBits: the source's bit tests). */
  function Step(c: Config, ph: Phase, f1: seq<real>, b1: bv8, b2: bv8, force: Forces, i: nat,
                loc: seq<real>, j: nat): (r: seq<real>)
    requires 1 <= j <= 8 && |loc| == 9 && CellInputs(c, f1, b1, b2, i)
    ensures |r| == 9
  {
    var rule := RuleOf(b1, b2, j - 1);
    match ph
    case Streaming =>
      if rule == StreamIn then loc[j := Neighbour(c, f1, i, j) + force[j - 1]]
      else if rule == PassThrough then loc[j := Own(c, f1, i, j)]
      else loc
    case CategoryA(op) =>
      if rule == BoundaryA then loc[j := BoundaryValue(c, op, f1, b1, b2, i, loc, j)] else loc
    case CategoryB(op) =>
      if rule == BoundaryB then loc[j := BoundaryValue(c, op, f1, b1, b2, i, loc, j)] else loc
  }

  /** A pass applied to directions 1 .. j - 1 in increasing order, as the
      source's loop visits them. */
  function PassUpTo(c: Config, ph: Phase, f1: seq<real>, b1: bv8, b2: bv8, force: Forces, i: nat,
                    loc: seq<real>, j: nat): (r: seq<real>)
    requires 1 <= j <= 9 && |loc| == 9 && CellInputs(c, f1, b1, b2, i)
    ensures |r| == 9
  {
    if j == 1 then loc
    else Step(c, ph, f1, b1, b2, force, i, PassUpTo(c, ph, f1, b1, b2, force, i, loc, j - 1), j - 1)
  }

  /** The category-A loop of First when BC1 names no operator. Its test
      then has no statement of its own, and the category-B loop that follows
      becomes its body: every boundary-A direction, in loop order, runs the
      whole category-B pass. This is the loop over directions 1 .. j - 1. */
  function NestedUpTo(c: Config, op: Boundary, f1: seq<real>, b1: bv8, b2: bv8, force: Forces, i: nat,
                      loc: seq<real>, j: nat): (r: seq<real>)
    requires 1 <= j <= 9 && |loc| == 9 && CellInputs(c, f1, b1, b2, i)
    ensures |r| == 9
  {
    if j == 1 then loc
    else
      var cur := NestedUpTo(c, op, f1, b1, b2, force, i, loc, j - 1);
      if RuleOf(b1, b2, j - 2) == BoundaryA then PassUpTo(c, CategoryB(op), f1, b1, b2, force, i, cur, 9)
      else cur
  }

  /** The number of boundary-A directions among table directions 0 .. n - 1. */
  function CountA(b1: bv8, b2: bv8, n: nat): nat
    requires n <= 8
  {
    if n == 0 then 0
    else CountA(b1, b2, n - 1) + (if RuleOf(b1, b2, n - 1) == BoundaryA then 1 else 0)
  }

  /** The cell has a boundary-A direction. */
  predicate HasBoundaryA(b1: bv8, b2: bv8)
  {
    exists k :: 0 <= k < 8 && RuleOf(b1, b2, k) == BoundaryA
  }

  /** The category-B pass applied m times in a row. */
  function RepeatB(c: Config, op: Boundary, f1: seq<real>, b1: bv8, b2: bv8, force: Forces, i: nat,
                   loc: seq<real>, m: nat): (r: seq<real>)
    requires |loc| == 9 && CellInputs(c, f1, b1, b2, i)
    ensures |r| == 9
  {
    if m == 0 then loc
    else PassUpTo(c, CategoryB(op), f1, b1, b2, force, i, RepeatB(c, op, f1, b1, b2, force, i, loc, m - 1), 9)
  }

  /** The nine local values First leaves for an active cell i, from the
      values old9 the buffer held before: the rest direction copied from the
      previous buffer, then the streaming pass, then, when BC1 names an
      operator, the category-A pass followed by the category-B pass when BC2
      names one. When BC1 names none, the category-B pass is nested in the
      category-A loop (NestedUpTo). When neither names an operator the
      kernel does not compile, and the boundary directions are left as
      they were. */
  function CellLocal(c: Config, f1: seq<real>, b1: bv8, b2: bv8, force: Forces, i: nat,
                     old9: seq<real>): (r: seq<real>)
    requires |old9| == 9 && CellInputs(c, f1, b1, b2, i)
    ensures |r| == 9
  {
    var s1 := PassUpTo(c, Streaming, f1, b1, b2, force, i, old9[0 := Own(c, f1, i, 0)], 9);
    match c.bc1
    case Some(a) =>
      var s2 := PassUpTo(c, CategoryA(a), f1, b1, b2, force, i, s1, 9);
      if c.bc2.Some? then PassUpTo(c, CategoryB(c.bc2.value), f1, b1, b2, force, i, s2, 9) else s2
    case None =>
      if c.bc2.Some? then NestedUpTo(c, c.bc2.value, f1, b1, b2, force, i, s1, 9) else s1
  }

  /** One step of a pass changes at most its own direction, and only when
      that direction follows the pass's rule. */
  lemma StepFrame(c: Config, ph: Phase, f1: seq<real>, b1: bv8, b2: bv8, force: Forces, i: nat,
                  loc: seq<real>, j: nat, s: nat)
    requires 1 <= j <= 8 && |loc| == 9 && CellInputs(c, f1, b1, b2, i) && s < 9
    requires s != j || !PhaseWrites(ph, RuleOf(b1, b2, j - 1))
    ensures Step(c, ph, f1, b1, b2, force, i, loc, j)[s] == loc[s]
  {
  }

  /** A pass leaves the rest direction, the directions it has not reached
      and every direction of another rule as they were. */
  lemma {:induction false} PassUpToFrame(c: Config, ph: Phase, f1: seq<real>, b1: bv8, b2: bv8,
                                         force: Forces, i: nat, loc: seq<real>, j: nat, s: nat)
    requires 1 <= j <= 9 && |loc| == 9 && CellInputs(c, f1, b1, b2, i) && s < 9
    requires s == 0 || s >= j || !PhaseWrites(ph, RuleOf(b1, b2, s - 1))
    ensures PassUpTo(c, ph, f1, b1, b2, force, i, loc, j)[s] == loc[s]
  {
    if j > 1 {
      PassUpToFrame(c, ph, f1, b1, b2, force, i, loc, j - 1, s);
      StepFrame(c, ph, f1, b1, b2, force, i, PassUpTo(c, ph, f1, b1, b2, force, i, loc, j - 1), j - 1, s);
    }
  }

  /** A direction of the pass's own rule ends up with the value the pass
      computed when its loop reached it; later directions do not touch it. */
  lemma {:induction false} PassUpToWrites(c: Config, ph: Phase, f1: seq<real>, b1: bv8, b2: bv8,
                                          force: Forces, i: nat, loc: seq<real>, j: nat, s: nat)
    requires 1 <= s < j <= 9 && |loc| == 9 && CellInputs(c, f1, b1, b2, i)
    requires PhaseWrites(ph, RuleOf(b1, b2, s - 1))
    ensures PassUpTo(c, ph, f1, b1, b2, force, i, loc, j)[s]
         == Step(c, ph, f1, b1, b2, force, i, PassUpTo(c, ph, f1, b1, b2, force, i, loc, s), s)[s]
  {
    if j - 1 > s {
      PassUpToWrites(c, ph, f1, b1, b2, force, i, loc, j - 1, s);
      StepFrame(c, ph, f1, b1, b2, force, i, PassUpTo(c, ph, f1, b1, b2, force, i, loc, j - 1), j - 1, s);
    }
  }

  /** What First leaves in each slot of an active cell: the rest direction
      is the cell's own previous value whatever the masks; a stream-in
      direction is the previous value of the neighbour i + c_j plus the forcing
      term; a pass-through direction is the cell's own previous value; a
      boundary direction gets OBC's value (the cell's own previous value)
      when its category's loop runs with OBC, and keeps its stale value when
      the loop does not run: category A when BC1 names no operator, category
      B when BC2 is 0, or when BC1 names no operator and the cell has no
      boundary-A direction to run the nested category-B loop. */
  lemma CellLocalSlots(c: Config, f1: seq<real>, b1: bv8, b2: bv8, force: Forces, i: nat,
                       old9: seq<real>, j: nat)
    requires |old9| == 9 && CellInputs(c, f1, b1, b2, i) && j < 9
    ensures j == 0 ==> CellLocal(c, f1, b1, b2, force, i, old9)[j] == Own(c, f1, i, 0) == f1[i]
    ensures j > 0 && RuleOf(b1, b2, j - 1) == StreamIn ==>
      0 <= Idx(i, j - 1, c.lx) < c.Cells() &&
      CellLocal(c, f1, b1, b2, force, i, old9)[j]
        == Neighbour(c, f1, i, j) + force[j - 1]
    ensures j > 0 && RuleOf(b1, b2, j - 1) == PassThrough ==>
      CellLocal(c, f1, b1, b2, force, i, old9)[j] == Own(c, f1, i, j)
    ensures j > 0 && RuleOf(b1, b2, j - 1) == BoundaryA && c.bc1 == Some(Open) ==>
      CellLocal(c, f1, b1, b2, force, i, old9)[j] == Own(c, f1, i, j)
    ensures j > 0 && RuleOf(b1, b2, j - 1) == BoundaryA && c.bc1 == None ==>
      CellLocal(c, f1, b1, b2, force, i, old9)[j] == old9[j]
    ensures j > 0 && RuleOf(b1, b2, j - 1) == BoundaryB && c.bc2 == Some(Open)
            && (c.bc1.Some? || HasBoundaryA(b1, b2)) ==>
      CellLocal(c, f1, b1, b2, force, i, old9)[j] == Own(c, f1, i, j)
    ensures j > 0 && RuleOf(b1, b2, j - 1) == BoundaryB && c.bc1 == None && !HasBoundaryA(b1, b2) ==>
      CellLocal(c, f1, b1, b2, force, i, old9)[j] == old9[j]
    ensures j > 0 && RuleOf(b1, b2, j - 1) == BoundaryB && c.bc2 == None ==>
      CellLocal(c, f1, b1, b2, force, i, old9)[j] == old9[j]
  {
    var s0 := old9[0 := Own(c, f1, i, 0)];
    var s1 := PassUpTo(c, Streaming, f1, b1, b2, force, i, s0, 9);
    StreamedSlot(c, f1, b1, b2, force, i, s0, j);
    match c.bc1
    case Some(a) =>
      var s2 := PassUpTo(c, CategoryA(a), f1, b1, b2, force, i, s1, 9);
      BoundarySlot(c, CategoryA(a), f1, b1, b2, force, i, s1, j);
      if c.bc2.Some? {
        BoundarySlot(c, CategoryB(c.bc2.value), f1, b1, b2, force, i, s2, j);
      }
    case None =>
      if c.bc2.Some? {
        var op := c.bc2.value;
        NestedIsRepeat(c, op, f1, b1, b2, force, i, s1, 9);
        CountAPositive(b1, b2, 8);
        RepeatBSlot(c, op, f1, b1, b2, force, i, s1, CountA(b1, b2, 8), j);
      }
  }

  /** The nested loop runs the category-B pass once for every boundary-A
      direction it has passed. */
  lemma {:induction false} NestedIsRepeat(c: Config, op: Boundary, f1: seq<real>, b1: bv8, b2: bv8,
                                          force: Forces, i: nat, loc: seq<real>, j: nat)
    requires 1 <= j <= 9 && |loc| == 9 && CellInputs(c, f1, b1, b2, i)
    ensures NestedUpTo(c, op, f1, b1, b2, force, i, loc, j)
         == RepeatB(c, op, f1, b1, b2, force, i, loc, CountA(b1, b2, j - 1))
  {
    if j > 1 {
      NestedIsRepeat(c, op, f1, b1, b2, force, i, loc, j - 1);
    }
  }

  /** A positive count of boundary-A directions is a boundary-A direction. */
  lemma {:induction false} CountAPositive(b1: bv8, b2: bv8, n: nat)
    requires n <= 8
    ensures CountA(b1, b2, n) > 0 <==> exists k :: 0 <= k < n && RuleOf(b1, b2, k) == BoundaryA
  {
    if n > 0 {
      CountAPositive(b1, b2, n - 1);
    }
  }

  /** Slot j after the category-B pass has run m times: OBC's value in a
      boundary-B direction once the pass has run at least once, the value
      before the first run everywhere else. */
  lemma {:induction false} RepeatBSlot(c: Config, op: Boundary, f1: seq<real>, b1: bv8, b2: bv8,
                                       force: Forces, i: nat, loc: seq<real>, m: nat, j: nat)
    requires |loc| == 9 && CellInputs(c, f1, b1, b2, i) && j < 9
    ensures m > 0 && j > 0 && RuleOf(b1, b2, j - 1) == BoundaryB && op == Open ==>
      RepeatB(c, op, f1, b1, b2, force, i, loc, m)[j] == Own(c, f1, i, j)
    ensures m == 0 || j == 0 || RuleOf(b1, b2, j - 1) != BoundaryB ==>
      RepeatB(c, op, f1, b1, b2, force, i, loc, m)[j] == loc[j]
  {
    if m > 0 {
      RepeatBSlot(c, op, f1, b1, b2, force, i, loc, m - 1, j);
      BoundarySlot(c, CategoryB(op), f1, b1, b2, force, i, RepeatB(c, op, f1, b1, b2, force, i, loc, m - 1), j);
    }
  }

  /** Slot j after the streaming pass. */
  lemma StreamedSlot(c: Config, f1: seq<real>, b1: bv8, b2: bv8, force: Forces, i: nat,
                     loc: seq<real>, j: nat)
    requires |loc| == 9 && CellInputs(c, f1, b1, b2, i) && j < 9
    ensures j == 0 ==> PassUpTo(c, Streaming, f1, b1, b2, force, i, loc, 9)[j] == loc[j]
    ensures j > 0 && RuleOf(b1, b2, j - 1) == StreamIn ==>
      0 <= Idx(i, j - 1, c.lx) < c.Cells() &&
      PassUpTo(c, Streaming, f1, b1, b2, force, i, loc, 9)[j]
        == Neighbour(c, f1, i, j) + force[j - 1]
    ensures j > 0 && RuleOf(b1, b2, j - 1) == PassThrough ==>
      PassUpTo(c, Streaming, f1, b1, b2, force, i, loc, 9)[j] == Own(c, f1, i, j)
    ensures j > 0 && !PhaseWrites(Streaming, RuleOf(b1, b2, j - 1)) ==>
      PassUpTo(c, Streaming, f1, b1, b2, force, i, loc, 9)[j] == loc[j]
  {
    if j == 0 || !PhaseWrites(Streaming, RuleOf(b1, b2, j - 1)) {
      PassUpToFrame(c, Streaming, f1, b1, b2, force, i, loc, 9, j);
    } else {
      PassUpToWrites(c, Streaming, f1, b1, b2, force, i, loc, 9, j);
    }
  }

  /** Slot j after a boundary pass: OBC's value when the direction is of
      the pass's category, the value before the pass otherwise. */
  lemma BoundarySlot(c: Config, ph: Phase, f1: seq<real>, b1: bv8, b2: bv8, force: Forces, i: nat,
                     loc: seq<real>, j: nat)
    requires |loc| == 9 && CellInputs(c, f1, b1, b2, i) && j < 9 && !ph.Streaming?
    ensures j > 0 && PhaseWrites(ph, RuleOf(b1, b2, j - 1)) && ph.op == Open ==>
      PassUpTo(c, ph, f1, b1, b2, force, i, loc, 9)[j] == Own(c, f1, i, j)
    ensures j == 0 || !PhaseWrites(ph, RuleOf(b1, b2, j - 1)) ==>
      PassUpTo(c, ph, f1, b1, b2, force, i, loc, 9)[j] == loc[j]
  {
    if j == 0 || !PhaseWrites(ph, RuleOf(b1, b2, j - 1)) {
      PassUpToFrame(c, ph, f1, b1, b2, force, i, loc, 9, j);
    } else {
      PassUpToWrites(c, ph, f1, b1, b2, force, i, loc, 9, j);
    }
  }

  /** One step of the streaming pass, by the branch the source takes. */
  lemma StreamingStep(c: Config, f1: seq<real>, b1: bv8, b2: bv8, force: Forces, i: nat,
                      loc: seq<real>, j: nat)
    requires 1 <= j <= 8 && |loc| == 9 && CellInputs(c, f1, b1, b2, i)
    ensures var cur := PassUpTo(c, Streaming, f1, b1, b2, force, i, loc, j);
      var next := PassUpTo(c, Streaming, f1, b1, b2, force, i, loc, j + 1);
      var rule := RuleOf(b1, b2, j - 1);
      && (rule == StreamIn ==>
            0 <= Idx(i, j - 1, c.lx) < c.Cells() && next == cur[j := Neighbour(c, f1, i, j) + force[j - 1]])
      && (rule == PassThrough ==> next == cur[j := Own(c, f1, i, j)])
      && (rule != StreamIn && rule != PassThrough ==> next == cur)
  {
  }

  /** One step of a boundary pass, by the branch the source takes. */
  lemma BoundaryStep(c: Config, ph: Phase, f1: seq<real>, b1: bv8, b2: bv8, force: Forces, i: nat,
                     loc: seq<real>, j: nat)
    requires 1 <= j <= 8 && |loc| == 9 && CellInputs(c, f1, b1, b2, i) && !ph.Streaming?
    ensures var cur := PassUpTo(c, ph, f1, b1, b2, force, i, loc, j);
      var next := PassUpTo(c, ph, f1, b1, b2, force, i, loc, j + 1);
      && (PhaseWrites(ph, RuleOf(b1, b2, j - 1)) ==>
            next == cur[j := BoundaryValue(c, ph.op, f1, b1, b2, i, cur, j)])
      && (!PhaseWrites(ph, RuleOf(b1, b2, j - 1)) ==> next == cur)
  {
  }
}
