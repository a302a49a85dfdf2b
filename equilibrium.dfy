/** Facts about real arithmetic used by the per-cell physics, each stated
    over plain variables so that it is a small polynomial identity. */
module RealFacts {
  lemma NonZeroScale(e: real)
    requires e != 0.0
    ensures 9.0 * e * e != 0.0
  {
  }

  /** Cancelling a product k * e against its reciprocal. */
  lemma ProductCancel(e: real, k: real)
    requires k * e != 0.0
    ensures (1.0 / (k * e)) * (k * e) == 1.0
  {
  }

  /** 1 / (9 e^2) is the inverse of 9 e^2. */
  lemma InverseFactor(e: real)
    requires e != 0.0
    ensures (1.0 / (9.0 * e * e)) * (9.0 * e * e) == 1.0
  {
    NonZeroScale(e);
    ProductCancel(e, 9.0 * e);
  }

  lemma ReciprocalUnique(x: real, y: real, c: real)
    requires x * c == 1.0 && y * c == 1.0
    ensures x == y
  {
    assert (x - y) * c == 0.0;
  }

  lemma CancelFactor(e: real, x: real, y: real)
    requires e != 0.0 && e * x == e * y
    ensures x == y
  {
  }

  lemma CancelDiv(x: real, h: real)
    requires h != 0.0
    ensures (h * x) / h == x
  {
  }

}

/** Per-cell physics of the D2Q9 kernels: the moment extractor
    (calculateMacroscopic), the shallow-water and heat equilibria
    (calculateFeqSWE, calculateFeqHE) and the BGK relaxation that Third
    writes into the next buffer. Double precision is modelled by `real`. */
module Equilibrium {
  import opened Lattice
  import opened RealFacts

  /** Nine populations of one cell, indexed by lattice direction 0..8. */
  type Dist = s: seq<real> | |s| == 9 witness [0.0, 0.0, 0.0, 0.0, 0.0, 0.0, 0.0, 0.0, 0.0]

  /** The macroscopic triple of a cell: the scalar field (water depth,
      temperature, ...) and the two velocity components. */
  datatype Macro = Macro(scalar: real, ux: real, uy: real)

  /** Gravitational acceleration used by the shallow-water model. */
  const Gravity: real := 9.8

  /** Reference definitions: the plain sum of a sequence, and the first
      moment of a cell along an offset table (EX or EY). */
  function Sum(s: seq<real>): real
  {
    if |s| == 0 then 0.0 else Sum(s[..|s| - 1]) + s[|s| - 1]
  }

  function TableMoment(f: Dist, c: seq<int>, n: nat): real
    requires |c| == 8 && n <= 8
  {
    if n == 0 then 0.0 else TableMoment(f, c, n - 1) + c[n - 1] as real * f[n]
  }

  /** The unrolled zeroth moment as calculateMacroscopic writes it. */
  function Density(f: Dist): real
  {
    f[0] + (f[1] + f[2] + f[3] + f[4]) + (f[5] + f[6] + f[7] + f[8])
  }

  /** The unrolled first moments, without the factor e. */
  function FluxX(f: Dist): real
  {
    (f[1] - f[3]) + (f[5] - f[6] - f[7] + f[8])
  }

  function FluxY(f: Dist): real
  {
    (f[2] - f[4]) + (f[5] + f[6] - f[7] - f[8])
  }

  lemma {:induction false} SumOfDist(f: Dist)
    ensures Sum(f) == Density(f)
  {
    assert f[..8][..7] == f[..7];
    assert f[..7][..6] == f[..6];
    assert f[..6][..5] == f[..5];
    assert f[..5][..4] == f[..4];
    assert f[..4][..3] == f[..3];
    assert f[..3][..2] == f[..2];
    assert f[..2][..1] == f[..1];
    assert f[..1][..0] == [];
    assert Sum(f[..1]) == f[0];
    assert Sum(f[..2]) == f[0] + f[1];
    assert Sum(f[..3]) == f[0] + f[1] + f[2];
    assert Sum(f[..4]) == f[0] + f[1] + f[2] + f[3];
    assert Sum(f[..5]) == Sum(f[..4]) + f[4];
    assert Sum(f[..6]) == Sum(f[..5]) + f[5];
    assert Sum(f[..7]) == Sum(f[..6]) + f[6];
    assert Sum(f[..8]) == Sum(f[..7]) + f[7];
    assert f[..9] == f;
  }

  lemma {:induction false} TableMomentsOfDist(f: Dist)
    ensures TableMoment(f, EX, 8) == FluxX(f)
    ensures TableMoment(f, EY, 8) == FluxY(f)
  {
    assert TableMoment(f, EX, 1) == f[1];
    assert TableMoment(f, EX, 2) == f[1];
    assert TableMoment(f, EX, 3) == f[1] - f[3];
    assert TableMoment(f, EX, 4) == f[1] - f[3];
    assert TableMoment(f, EX, 5) == f[1] - f[3] + f[5];
    assert TableMoment(f, EX, 6) == f[1] - f[3] + f[5] - f[6];
    assert TableMoment(f, EX, 7) == f[1] - f[3] + f[5] - f[6] - f[7];
    assert TableMoment(f, EY, 1) == 0.0;
    assert TableMoment(f, EY, 2) == f[2];
    assert TableMoment(f, EY, 3) == f[2];
    assert TableMoment(f, EY, 4) == f[2] - f[4];
    assert TableMoment(f, EY, 5) == f[2] - f[4] + f[5];
    assert TableMoment(f, EY, 6) == f[2] - f[4] + f[5] + f[6];
    assert TableMoment(f, EY, 7) == f[2] - f[4] + f[5] + f[6] - f[7];
  }

  /** calculateMacroscopic: the scalar is the sum of the nine populations and
      the velocity is e times the first moment along the direction table,
      divided by the scalar. The source divides without a guard, so the
      scalar must be non-zero. */
  function Moments(f: Dist, e: real): (m: Macro)
    requires Density(f) != 0.0
    ensures m.scalar == Sum(f) && m.scalar != 0.0
    ensures m.scalar * m.ux == e * TableMoment(f, EX, 8)
    ensures m.scalar * m.uy == e * TableMoment(f, EY, 8)
  {
    SumOfDist(f);
    TableMomentsOfDist(f);
    var s := Density(f);
    Macro(s, e * FluxX(f) / s, e * FluxY(f) / s)
  }

  /** The factor 1 / (9 e^2) of calculateFeqSWE, characterised as the number
      whose product with 9 e^2 is one; SweFactorIsReciprocal shows that it is
      the quotient. */
  function SweFactor(e: real): (factor: real)
    requires e != 0.0
    ensures IsSweFactor(factor, e)
  {
    InverseFactor(e);
    assert IsSweFactor(1.0 / (9.0 * e * e), e);
    var factor :| IsSweFactor(factor, e);
    factor
  }

  predicate IsSweFactor(factor: real, e: real)
  {
    factor * (9.0 * e * e) == 1.0
  }

  lemma SweFactorIsReciprocal(e: real)
    requires e != 0.0
    ensures SweFactor(e) == 1.0 / (9.0 * e * e)
  {
    InverseFactor(e);
    ReciprocalUnique(SweFactor(e), 1.0 / (9.0 * e * e), 9.0 * e * e);
  }

  /** calculateFeqSWE: shallow-water equilibrium for the macroscopic triple
      m = (depth, ux, uy) at lattice speed e. */
  function FeqSwe(m: Macro, e: real): Dist
    requires e != 0.0
  {
    SweEquilibrium(m.scalar, m.ux, m.uy, e)
  }

  /** The equilibrium for depth h and velocity (ux, uy). The arguments of
      SwePopulations are the locals factor, gh, usq, ux3, uy3, uxuy5 and
      uxuy6 of the source. */
  function SweEquilibrium(h: real, ux: real, uy: real, e: real): Dist
    requires e != 0.0
  {
    SwePopulations(h, SweFactor(e), 1.5 * Gravity * h,
      1.5 * (ux * ux + uy * uy), 3.0 * e * ux, 3.0 * e * uy,
      3.0 * e * ux + 3.0 * e * uy, 3.0 * e * uy - 3.0 * e * ux)
  }

  /** The nine populations of calculateFeqSWE in terms of its locals. */
  function SwePopulations(h: real, factor: real, gh: real, usq: real,
                          ux3: real, uy3: real, uxuy5: real, uxuy6: real): Dist
  {
    [ h * (1.0 - factor * (5.0 * gh + 4.0 * usq)),
      h * factor * (gh + ux3 + 4.5 * ux3 * ux3 * factor - usq),
      h * factor * (gh + uy3 + 4.5 * uy3 * uy3 * factor - usq),
      h * factor * (gh - ux3 + 4.5 * ux3 * ux3 * factor - usq),
      h * factor * (gh - uy3 + 4.5 * uy3 * uy3 * factor - usq),
      h * factor * 0.25 * (gh + uxuy5 + 4.5 * uxuy5 * uxuy5 * factor - usq),
      h * factor * 0.25 * (gh + uxuy6 + 4.5 * uxuy6 * uxuy6 * factor - usq),
      h * factor * 0.25 * (gh - uxuy5 + 4.5 * uxuy5 * uxuy5 * factor - usq),
      h * factor * 0.25 * (gh - uxuy6 + 4.5 * uxuy6 * uxuy6 * factor - usq) ]
  }

  /** Two opposite axis populations: their sum and their difference. */
  lemma AxisPair(h: real, factor: real, gh: real, a: real, usq: real)
    ensures h * factor * (gh + a + 4.5 * a * a * factor - usq)
          + h * factor * (gh - a + 4.5 * a * a * factor - usq)
         == 2.0 * (h * factor * gh) - 2.0 * (h * factor * usq) + 9.0 * (h * factor * (a * a * factor))
    ensures h * factor * (gh + a + 4.5 * a * a * factor - usq)
          - h * factor * (gh - a + 4.5 * a * a * factor - usq)
         == 2.0 * (h * factor * a)
  {
  }

  /** Two opposite diagonal populations: their sum and their difference. */
  lemma DiagonalPair(h: real, factor: real, gh: real, s: real, usq: real)
    ensures h * factor * 0.25 * (gh + s + 4.5 * s * s * factor - usq)
          + h * factor * 0.25 * (gh - s + 4.5 * s * s * factor - usq)
         == 0.5 * (h * factor * gh) - 0.5 * (h * factor * usq) + 2.25 * (h * factor * (s * s * factor))
    ensures h * factor * 0.25 * (gh + s + 4.5 * s * s * factor - usq)
          - h * factor * 0.25 * (gh - s + 4.5 * s * s * factor - usq)
         == 0.5 * (h * factor * s)
  {
  }

  /** The rest population, and the usq identity scaled by h * factor. */
  lemma RestAndSquares(h: real, factor: real, gh: real, usq: real,
                       ux3: real, uy3: real, uxuy5: real, uxuy6: real)
    requires uxuy5 == ux3 + uy3 && uxuy6 == uy3 - ux3
    requires 1.5 * (ux3 * ux3 * factor + uy3 * uy3 * factor) == usq
    ensures h * (1.0 - factor * (5.0 * gh + 4.0 * usq))
         == h - 5.0 * (h * factor * gh) - 4.0 * (h * factor * usq)
    ensures h * factor * (uxuy5 * uxuy5 * factor) + h * factor * (uxuy6 * uxuy6 * factor)
         == 2.0 * (h * factor * (ux3 * ux3 * factor)) + 2.0 * (h * factor * (uy3 * uy3 * factor))
    ensures h * factor * usq
         == 1.5 * (h * factor * (ux3 * ux3 * factor)) + 1.5 * (h * factor * (uy3 * uy3 * factor))
  {
    assert uxuy5 * uxuy5 + uxuy6 * uxuy6 == 2.0 * (ux3 * ux3) + 2.0 * (uy3 * uy3);
    assert h * factor * (uxuy5 * uxuy5 * factor) + h * factor * (uxuy6 * uxuy6 * factor)
        == (h * factor * factor) * (uxuy5 * uxuy5 + uxuy6 * uxuy6);
  }

  /** The populations add up to h whenever the velocity locals are
      consistent and usq is the scaled square of the velocity terms. */
  lemma PopulationsMass(h: real, factor: real, gh: real, usq: real,
                        ux3: real, uy3: real, uxuy5: real, uxuy6: real)
    requires uxuy5 == ux3 + uy3 && uxuy6 == uy3 - ux3
    requires 1.5 * (ux3 * ux3 * factor + uy3 * uy3 * factor) == usq
    ensures Density(SwePopulations(h, factor, gh, usq, ux3, uy3, uxuy5, uxuy6)) == h
  {
    var f := SwePopulations(h, factor, gh, usq, ux3, uy3, uxuy5, uxuy6);
    assert f[1] + f[3] == 2.0 * (h * factor * gh) - 2.0 * (h * factor * usq) + 9.0 * (h * factor * (ux3 * ux3 * factor)) by {
      AxisPair(h, factor, gh, ux3, usq);
    }
    assert f[2] + f[4] == 2.0 * (h * factor * gh) - 2.0 * (h * factor * usq) + 9.0 * (h * factor * (uy3 * uy3 * factor)) by {
      AxisPair(h, factor, gh, uy3, usq);
    }
    assert f[5] + f[7] == 0.5 * (h * factor * gh) - 0.5 * (h * factor * usq) + 2.25 * (h * factor * (uxuy5 * uxuy5 * factor)) by {
      DiagonalPair(h, factor, gh, uxuy5, usq);
    }
    assert f[6] + f[8] == 0.5 * (h * factor * gh) - 0.5 * (h * factor * usq) + 2.25 * (h * factor * (uxuy6 * uxuy6 * factor)) by {
      DiagonalPair(h, factor, gh, uxuy6, usq);
    }
    RestAndSquares(h, factor, gh, usq, ux3, uy3, uxuy5, uxuy6);
    LinearMass(h, factor, gh, usq, ux3, uy3, uxuy5, uxuy6, f[0], f[1], f[2], f[3], f[4], f[5], f[6], f[7], f[8]);
  }

  /** The bookkeeping behind PopulationsMass: given the rest population and
      the four pair sums, the nine populations add up to h. */
  lemma LinearMass(h: real, factor: real, gh: real, usq: real,
                   ux3: real, uy3: real, uxuy5: real, uxuy6: real,
                   f0: real, f1: real, f2: real, f3: real, f4: real,
                   f5: real, f6: real, f7: real, f8: real)
    requires f0 == h - 5.0 * (h * factor * gh) - 4.0 * (h * factor * usq)
    requires f1 + f3 == 2.0 * (h * factor * gh) - 2.0 * (h * factor * usq) + 9.0 * (h * factor * (ux3 * ux3 * factor))
    requires f2 + f4 == 2.0 * (h * factor * gh) - 2.0 * (h * factor * usq) + 9.0 * (h * factor * (uy3 * uy3 * factor))
    requires f5 + f7 == 0.5 * (h * factor * gh) - 0.5 * (h * factor * usq) + 2.25 * (h * factor * (uxuy5 * uxuy5 * factor))
    requires f6 + f8 == 0.5 * (h * factor * gh) - 0.5 * (h * factor * usq) + 2.25 * (h * factor * (uxuy6 * uxuy6 * factor))
    requires h * factor * (uxuy5 * uxuy5 * factor) + h * factor * (uxuy6 * uxuy6 * factor)
          == 2.0 * (h * factor * (ux3 * ux3 * factor)) + 2.0 * (h * factor * (uy3 * uy3 * factor))
    requires h * factor * usq
          == 1.5 * (h * factor * (ux3 * ux3 * factor)) + 1.5 * (h * factor * (uy3 * uy3 * factor))
    ensures f0 + (f1 + f2 + f3 + f4) + (f5 + f6 + f7 + f8) == h
  {
  }

  /** The first moments of the populations are 3 h factor times the
      velocity terms. */
  lemma PopulationsFlux(h: real, factor: real, gh: real, usq: real,
                        ux3: real, uy3: real, uxuy5: real, uxuy6: real)
    requires uxuy5 == ux3 + uy3 && uxuy6 == uy3 - ux3
    ensures FluxX(SwePopulations(h, factor, gh, usq, ux3, uy3, uxuy5, uxuy6)) == 3.0 * (h * factor * ux3)
    ensures FluxY(SwePopulations(h, factor, gh, usq, ux3, uy3, uxuy5, uxuy6)) == 3.0 * (h * factor * uy3)
  {
    var f := SwePopulations(h, factor, gh, usq, ux3, uy3, uxuy5, uxuy6);
    assert f[1] - f[3] == 2.0 * (h * factor * ux3) by {
      AxisPair(h, factor, gh, ux3, usq);
    }
    assert f[2] - f[4] == 2.0 * (h * factor * uy3) by {
      AxisPair(h, factor, gh, uy3, usq);
    }
    assert f[5] - f[7] == 0.5 * (h * factor * uxuy5) by {
      DiagonalPair(h, factor, gh, uxuy5, usq);
    }
    assert f[6] - f[8] == 0.5 * (h * factor * uxuy6) by {
      DiagonalPair(h, factor, gh, uxuy6, usq);
    }
    LinearFlux(h, factor, ux3, uy3, uxuy5, uxuy6, f[1], f[2], f[3], f[4], f[5], f[6], f[7], f[8]);
  }

  /** The bookkeeping behind PopulationsFlux: the four pair differences
      combine into the two first moments. */
  lemma LinearFlux(h: real, factor: real, ux3: real, uy3: real, uxuy5: real, uxuy6: real,
                   f1: real, f2: real, f3: real, f4: real, f5: real, f6: real, f7: real, f8: real)
    requires uxuy5 == ux3 + uy3 && uxuy6 == uy3 - ux3
    requires f1 - f3 == 2.0 * (h * factor * ux3)
    requires f2 - f4 == 2.0 * (h * factor * uy3)
    requires f5 - f7 == 0.5 * (h * factor * uxuy5)
    requires f6 - f8 == 0.5 * (h * factor * uxuy6)
    ensures (f1 - f3) + (f5 - f6 - f7 + f8) == 3.0 * (h * factor * ux3)
    ensures (f2 - f4) + (f5 + f6 - f7 - f8) == 3.0 * (h * factor * uy3)
  {
    assert h * factor * uxuy5 == h * factor * ux3 + h * factor * uy3;
    assert h * factor * uxuy6 == h * factor * uy3 - h * factor * ux3;
  }

  /** Both facts for every argument, in a form the solver instantiates on the
      population term itself. */
  lemma PopulationsConserve()
    ensures forall h, factor, gh, usq, ux3, uy3, uxuy5, uxuy6
      {:trigger SwePopulations(h, factor, gh, usq, ux3, uy3, uxuy5, uxuy6)} ::
      uxuy5 == ux3 + uy3 && uxuy6 == uy3 - ux3 ==>
        FluxX(SwePopulations(h, factor, gh, usq, ux3, uy3, uxuy5, uxuy6)) == 3.0 * (h * factor * ux3) &&
        FluxY(SwePopulations(h, factor, gh, usq, ux3, uy3, uxuy5, uxuy6)) == 3.0 * (h * factor * uy3) &&
        (1.5 * (ux3 * ux3 * factor + uy3 * uy3 * factor) == usq ==>
           Density(SwePopulations(h, factor, gh, usq, ux3, uy3, uxuy5, uxuy6)) == h)
  {
    forall h, factor, gh, usq, ux3, uy3, uxuy5, uxuy6 | uxuy5 == ux3 + uy3 && uxuy6 == uy3 - ux3
      ensures FluxX(SwePopulations(h, factor, gh, usq, ux3, uy3, uxuy5, uxuy6)) == 3.0 * (h * factor * ux3)
      ensures FluxY(SwePopulations(h, factor, gh, usq, ux3, uy3, uxuy5, uxuy6)) == 3.0 * (h * factor * uy3)
      ensures 1.5 * (ux3 * ux3 * factor + uy3 * uy3 * factor) == usq ==>
        Density(SwePopulations(h, factor, gh, usq, ux3, uy3, uxuy5, uxuy6)) == h
    {
      PopulationsFlux(h, factor, gh, usq, ux3, uy3, uxuy5, uxuy6);
      if 1.5 * (ux3 * ux3 * factor + uy3 * uy3 * factor) == usq {
        PopulationsMass(h, factor, gh, usq, ux3, uy3, uxuy5, uxuy6);
      }
    }
  }

  /** With factor = 1 / (9 e^2) the squared velocity terms of
      calculateFeqSWE scale back to ux^2 + uy^2. */
  lemma SweScaling(ux: real, uy: real, e: real)
    requires e != 0.0
    ensures (3.0 * e * ux) * (3.0 * e * ux) * SweFactor(e) + (3.0 * e * uy) * (3.0 * e * uy) * SweFactor(e)
         == ux * ux + uy * uy
  {
    var factor := SweFactor(e);
    assert (3.0 * e * ux) * (3.0 * e * ux) * factor == (factor * (9.0 * e * e)) * (ux * ux);
    assert (3.0 * e * uy) * (3.0 * e * uy) * factor == (factor * (9.0 * e * e)) * (uy * uy);
  }

  /** First moments of 3 h factor (3 e u), times e, are the momenta h u. */
  lemma MomentumScaling(h: real, ux: real, uy: real, e: real, fluxX: real, fluxY: real)
    requires e != 0.0
    requires fluxX == 3.0 * (h * SweFactor(e) * (3.0 * e * ux))
    requires fluxY == 3.0 * (h * SweFactor(e) * (3.0 * e * uy))
    ensures e * fluxX == h * ux
    ensures e * fluxY == h * uy
  {
    var factor := SweFactor(e);
    assert e * fluxX == (factor * (9.0 * e * e)) * (h * ux);
    assert e * fluxY == (factor * (9.0 * e * e)) * (h * uy);
  }

  /** The shallow-water equilibrium conserves depth for every velocity: its
      populations add up to the depth it was built from. */
  lemma SweEquilibriumMass(h: real, ux: real, uy: real, e: real)
    requires e != 0.0
    ensures Density(SweEquilibrium(h, ux, uy, e)) == h
  {
    SweScaling(ux, uy, e);
    PopulationsConserve();
  }

  /** The first moments of the equilibrium before the factor e. */
  lemma SweEquilibriumFlux(h: real, ux: real, uy: real, e: real)
    requires e != 0.0
    ensures FluxX(SweEquilibrium(h, ux, uy, e)) == 3.0 * (h * SweFactor(e) * (3.0 * e * ux))
    ensures FluxY(SweEquilibrium(h, ux, uy, e)) == 3.0 * (h * SweFactor(e) * (3.0 * e * uy))
  {
    PopulationsConserve();
  }

  /** Its first moments, times e, give back the momentum h u it was built
      from. The moments are passed in as fluxX and fluxY. */
  lemma SweEquilibriumMomentum(h: real, ux: real, uy: real, e: real, fluxX: real, fluxY: real)
    requires e != 0.0
    requires fluxX == FluxX(SweEquilibrium(h, ux, uy, e)) && fluxY == FluxY(SweEquilibrium(h, ux, uy, e))
    ensures e * fluxX == h * ux
    ensures e * fluxY == h * uy
  {
    SweEquilibriumFlux(h, ux, uy, e);
    MomentumScaling(h, ux, uy, e, fluxX, fluxY);
  }

  /** The equilibrium built from a cell's own moments has those moments: the
      same scalar and the same first moments as the cell. */
  lemma FeqSweKeepsMoments(l: Dist, e: real)
    requires e != 0.0 && Density(l) != 0.0
    ensures Density(FeqSwe(Moments(l, e), e)) == Density(l)
    ensures FluxX(FeqSwe(Moments(l, e), e)) == FluxX(l)
    ensures FluxY(FeqSwe(Moments(l, e), e)) == FluxY(l)
  {
    var m := Moments(l, e);
    var q := FeqSwe(m, e);
    SumOfDist(l);
    SweEquilibriumMass(m.scalar, m.ux, m.uy, e);
    FeqSweKeepsFlux(l, e);
  }

  /** The first-moment half of FeqSweKeepsMoments. */
  lemma FeqSweKeepsFlux(l: Dist, e: real)
    requires e != 0.0 && Density(l) != 0.0
    ensures FluxX(FeqSwe(Moments(l, e), e)) == FluxX(l)
    ensures FluxY(FeqSwe(Moments(l, e), e)) == FluxY(l)
  {
    var m := Moments(l, e);
    var q := FeqSwe(m, e);
    TableMomentsOfDist(l);
    SweEquilibriumMomentum(m.scalar, m.ux, m.uy, e, FluxX(q), FluxY(q));
    CancelFactor(e, FluxX(q), FluxX(l));
    CancelFactor(e, FluxY(q), FluxY(l));
  }

  /** At rest the shallow-water equilibrium is isotropic (the four axis
      populations are equal, each diagonal one is a quarter of them) and its
      populations add up to the depth. */
  lemma SweEquilibriumAtRest(h: real, e: real)
    requires e != 0.0
    ensures var f := SweEquilibrium(h, 0.0, 0.0, e);
      f[2] == f[1] && f[3] == f[1] && f[4] == f[1] &&
      f[5] == 0.25 * f[1] && f[6] == f[5] && f[7] == f[5] && f[8] == f[5] &&
      Density(f) == h
  {
    SweEquilibriumMass(h, 0.0, 0.0, e);
  }

  /** g is f mirrored about the vertical axis: directions 1 and 3, 5 and 6,
      7 and 8 swap; 0, 2 and 4 stay. */
  predicate MirroredX(f: Dist, g: Dist)
  {
    g[0] == f[0] && g[1] == f[3] && g[2] == f[2] && g[3] == f[1] && g[4] == f[4] &&
    g[5] == f[6] && g[6] == f[5] && g[7] == f[8] && g[8] == f[7]
  }

  /** Negating the x velocity term, which swaps the two diagonal terms,
      mirrors the populations. */
  lemma PopulationsMirrorX(h: real, factor: real, gh: real, usq: real,
                           ux3: real, uy3: real, uxuy5: real, uxuy6: real)
    requires uxuy5 == ux3 + uy3 && uxuy6 == uy3 - ux3
    ensures MirroredX(SwePopulations(h, factor, gh, usq, ux3, uy3, uxuy5, uxuy6),
                      SwePopulations(h, factor, gh, usq, -ux3, uy3, uxuy6, uxuy5))
  {
  }

  /** PopulationsMirrorX for every pair of population terms whose locals
      are related as a mirror pair. */
  lemma PopulationsMirrorXAll()
    ensures forall h, factor, gh, usq, ux3, uy3, uxuy5, uxuy6, vx3, vxuy5, vxuy6
      {:trigger SwePopulations(h, factor, gh, usq, ux3, uy3, uxuy5, uxuy6),
                SwePopulations(h, factor, gh, usq, vx3, uy3, vxuy5, vxuy6)} ::
        uxuy5 == ux3 + uy3 && uxuy6 == uy3 - ux3 &&
        vx3 == -ux3 && vxuy5 == uxuy6 && vxuy6 == uxuy5 ==>
        MirroredX(SwePopulations(h, factor, gh, usq, ux3, uy3, uxuy5, uxuy6),
                  SwePopulations(h, factor, gh, usq, vx3, uy3, vxuy5, vxuy6))
  {
    forall h, factor, gh, usq, ux3, uy3, uxuy5, uxuy6, vx3, vxuy5, vxuy6 |
      uxuy5 == ux3 + uy3 && uxuy6 == uy3 - ux3 &&
      vx3 == -ux3 && vxuy5 == uxuy6 && vxuy6 == uxuy5
      ensures MirroredX(SwePopulations(h, factor, gh, usq, ux3, uy3, uxuy5, uxuy6),
                        SwePopulations(h, factor, gh, usq, vx3, uy3, vxuy5, vxuy6))
    {
      PopulationsMirrorX(h, factor, gh, usq, ux3, uy3, uxuy5, uxuy6);
    }
  }

  /** Reversing the x velocity mirrors the shallow-water equilibrium about
      the vertical axis. */
  lemma SweEquilibriumMirrorX(h: real, ux: real, uy: real, e: real)
    requires e != 0.0
    ensures MirroredX(SweEquilibrium(h, ux, uy, e), SweEquilibrium(h, -ux, uy, e))
  {
    PopulationsMirrorXAll();
  }

  /** The same for the macroscopic triple that Third hands to
      calculateFeqSWE. */
  lemma FeqSweMirrorX(m: Macro, e: real)
    requires e != 0.0
    ensures MirroredX(FeqSwe(m, e), FeqSwe(m.(ux := -m.ux), e))
  {
    SweEquilibriumMirrorX(m.scalar, m.ux, m.uy, e);
  }

  /** The standard D2Q9 weights: 4/9 at rest, 1/9 along the axes, 1/36 along
      the diagonals. */
  const Weights: seq<real> := [4.0 / 9.0,
    1.0 / 9.0, 1.0 / 9.0, 1.0 / 9.0, 1.0 / 9.0,
    1.0 / 36.0, 1.0 / 36.0, 1.0 / 36.0, 1.0 / 36.0]

  /** calculateFeqHE: heat-equation equilibrium, the temperature scaled by
      the D2Q9 weights; velocity and lattice speed play no part, and the
      populations add up to the temperature. */
  function FeqHe(m: Macro, e: real): (feq: Dist)
    ensures forall j :: 0 <= j < 9 ==> feq[j] == Weights[j] * m.scalar
    ensures Sum(feq) == m.scalar
  {
    var factor := 1.0 / 9.0;
    var t := m.scalar;
    var feq: Dist := [ t * factor * 4.0,
      t * factor, t * factor, t * factor, t * factor,
      t * factor * 0.25, t * factor * 0.25, t * factor * 0.25, t * factor * 0.25 ];
    SumOfDist(feq);
    feq
  }

  /** BGK relaxation of one population toward its equilibrium with
      relaxation time tau: the population moves by 1/tau of its distance to
      the equilibrium. */
  function Collide(l: real, q: real, tau: real): (r: real)
    requires tau != 0.0
    ensures (l - r) * tau == l - q
  {
    CancelDiv(l - q, tau);
    l - (l - q) / tau
  }

  /** A population already at equilibrium stays put, tau = 1 lands exactly
      on the equilibrium, and tau >= 1 never overshoots it. */
  lemma CollideBounds(l: real, q: real, tau: real)
    requires tau != 0.0
    ensures l == q ==> Collide(l, q, tau) == l
    ensures tau == 1.0 ==> Collide(l, q, tau) == q
    ensures tau >= 1.0 ==> (q <= Collide(l, q, tau) <= l || l <= Collide(l, q, tau) <= q)
  {
    var r := Collide(l, q, tau);
    assert r == q + (l - q) * (1.0 - 1.0 / tau);
    assert tau >= 1.0 ==> 0.0 <= 1.0 - 1.0 / tau <= 1.0;
  }

  /** The nine relaxed populations of a cell. */
  function Relax(l: Dist, q: Dist, tau: real): (r: Dist)
    requires tau != 0.0
    ensures forall j :: 0 <= j < 9 ==> r[j] == Collide(l[j], q[j], tau)
  {
    seq(9, j requires 0 <= j < 9 => Collide(l[j], q[j], tau))
  }

  /** Moment extraction of the heat equilibrium returns the temperature with
      zero velocity. */
  lemma MomentsOfFeqHe(m: Macro, e: real)
    requires m.scalar != 0.0
    ensures Density(FeqHe(m, e)) != 0.0
    ensures Moments(FeqHe(m, e), e) == Macro(m.scalar, 0.0, 0.0)
  {
    var f := FeqHe(m, e);
    SumOfDist(f);
    assert FluxX(f) == 0.0 && FluxY(f) == 0.0;
  }

  /** Nine relaxation steps stated over plain variables: when each
      population relaxes toward q, every moment q shares with the cell is
      kept. */
  lemma NineSteps(l0: real, l1: real, l2: real, l3: real, l4: real, l5: real, l6: real, l7: real, l8: real,
                  q0: real, q1: real, q2: real, q3: real, q4: real, q5: real, q6: real, q7: real, q8: real,
                  r0: real, r1: real, r2: real, r3: real, r4: real, r5: real, r6: real, r7: real, r8: real,
                  tau: real)
    requires tau != 0.0
    requires r0 == Collide(l0, q0, tau) && r1 == Collide(l1, q1, tau) && r2 == Collide(l2, q2, tau)
    requires r3 == Collide(l3, q3, tau) && r4 == Collide(l4, q4, tau) && r5 == Collide(l5, q5, tau)
    requires r6 == Collide(l6, q6, tau) && r7 == Collide(l7, q7, tau) && r8 == Collide(l8, q8, tau)
    ensures q0 + (q1 + q2 + q3 + q4) + (q5 + q6 + q7 + q8) == l0 + (l1 + l2 + l3 + l4) + (l5 + l6 + l7 + l8)
        ==> r0 + (r1 + r2 + r3 + r4) + (r5 + r6 + r7 + r8) == l0 + (l1 + l2 + l3 + l4) + (l5 + l6 + l7 + l8)
    ensures (q1 - q3) + (q5 - q6 - q7 + q8) == (l1 - l3) + (l5 - l6 - l7 + l8)
        ==> (r1 - r3) + (r5 - r6 - r7 + r8) == (l1 - l3) + (l5 - l6 - l7 + l8)
    ensures (q2 - q4) + (q5 + q6 - q7 - q8) == (l2 - l4) + (l5 + l6 - l7 - l8)
        ==> (r2 - r4) + (r5 + r6 - r7 - r8) == (l2 - l4) + (l5 + l6 - l7 - l8)
  {
    var kd := (l0 - r0) + ((l1 - r1) + (l2 - r2) + (l3 - r3) + (l4 - r4)) + ((l5 - r5) + (l6 - r6) + (l7 - r7) + (l8 - r8));
    var kx := ((l1 - r1) - (l3 - r3)) + ((l5 - r5) - (l6 - r6) - (l7 - r7) + (l8 - r8));
    var ky := ((l2 - r2) - (l4 - r4)) + ((l5 - r5) + (l6 - r6) - (l7 - r7) - (l8 - r8));
    assert kd * tau == (l0 - q0) + ((l1 - q1) + (l2 - q2) + (l3 - q3) + (l4 - q4)) + ((l5 - q5) + (l6 - q6) + (l7 - q7) + (l8 - q8));
    assert kx * tau == ((l1 - q1) - (l3 - q3)) + ((l5 - q5) - (l6 - q6) - (l7 - q7) + (l8 - q8));
    assert ky * tau == ((l2 - q2) - (l4 - q4)) + ((l5 - q5) + (l6 - q6) - (l7 - q7) - (l8 - q8));
  }

  /** BGK relaxation toward an equilibrium with the same scalar and first
      moments as the cell keeps those moments: the collision conserves what
      the equilibrium conserves. */
  lemma RelaxConserves(l: Dist, q: Dist, tau: real)
    requires tau != 0.0
    ensures Density(q) == Density(l) ==> Density(Relax(l, q, tau)) == Density(l)
    ensures FluxX(q) == FluxX(l) ==> FluxX(Relax(l, q, tau)) == FluxX(l)
    ensures FluxY(q) == FluxY(l) ==> FluxY(Relax(l, q, tau)) == FluxY(l)
  {
    var r := Relax(l, q, tau);
    NineSteps(l[0], l[1], l[2], l[3], l[4], l[5], l[6], l[7], l[8],
              q[0], q[1], q[2], q[3], q[4], q[5], q[6], q[7], q[8],
              r[0], r[1], r[2], r[3], r[4], r[5], r[6], r[7], r[8], tau);
  }

  /** Third for the shallow-water model conserves depth and momentum: the
      relaxed cell has the scalar and first moments it had before. */
  lemma SweCollisionConserves(l: Dist, e: real, tau: real)
    requires e != 0.0 && tau != 0.0 && Density(l) != 0.0
    ensures var r := Relax(l, FeqSwe(Moments(l, e), e), tau);
      Density(r) == Density(l) && FluxX(r) == FluxX(l) && FluxY(r) == FluxY(l)
  {
    FeqSweKeepsMoments(l, e);
    RelaxConserves(l, FeqSwe(Moments(l, e), e), tau);
  }

  /** Third for the heat model conserves the temperature. */
  lemma HeCollisionConserves(l: Dist, e: real, tau: real)
    requires tau != 0.0 && Density(l) != 0.0
    ensures Density(Relax(l, FeqHe(Moments(l, e), e), tau)) == Density(l)
  {
    var q := FeqHe(Moments(l, e), e);
    SumOfDist(l);
    SumOfDist(q);
    RelaxConserves(l, q, tau);
  }
}
