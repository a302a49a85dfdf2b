/** The run configuration of the lattice Boltzmann kernels. The source picks
    the physics model (PDE) and the two boundary operators (BC1, BC2) with
    preprocessor switches; here they are values of a datatype, and the
    operators whose bodies live in headers outside this model are carried
    as functions supplied with the configuration. */
module LbmConfig {
  import opened Equilibrium
  import opened Options

  /** What a boundary operator may look at when it produces the new value of
      slot j of cell i: the cell's nine local values as they stand at that
      moment, the previous global buffer, the grid and the cell's masks. */
  datatype BoundaryView = BoundaryView(local: seq<real>, prev: seq<real>, cell: nat, dir: nat,
                                       lx: nat, ly: nat, b1: bv8, b2: bv8)

  /** Operators of the source whose bodies are not part of this model:
      periodic (PBC), bounce-back (BBBC), specular (SBC) and the user hooks
      (UBC1, UBC2, BC1User, BC2User). */
  datatype HiddenKind = Periodic | BounceBack | Specular | UserFirst | UserSecond

  /** A boundary operator: OBC, whose body is in the kernel file (the open
      or outflow rule: copy the cell's own previous value), or one of the
      hidden operators given as a function of the view. */
  datatype Boundary =
    | Open
    | Hidden(kind: HiddenKind, op: BoundaryView -> real)

  /** What the user forcing hook (calculateForcingUser) may look at. */
  datatype ForcingView = ForcingView(h: seq<real>, b: seq<real>, e: real, cell: nat, lx: nat)

  /** The eight forcing terms of one cell. */
  type Forces = s: seq<real> | |s| == 8 witness [0.0, 0.0, 0.0, 0.0, 0.0, 0.0, 0.0, 0.0]

  /** The PDE switch: 1 shallow water, 2 heat, 3 wave, 4 Navier-Stokes,
      5 user defined. The equilibria of models 3 to 5 and the user forcing
      are hidden, and given as functions. */
  datatype Physics =
    | ShallowWater
    | Heat
    | Wave(feq: (Macro, real) -> Dist)
    | NavierStokes(feq: (Macro, real) -> Dist)
    | UserDefined(forcing: ForcingView -> Forces, feq: (Macro, real) -> Dist)

  /** configStruct together with the compile-time switches. bc1 is None
      when BC1 names no operator: the category-A test in First is then left
      without a statement and takes the category-B loop as its body. bc2 is
      None when BC2 is 0: the category-B loop is compiled out (and with bc1
      None as well the kernel does not compile). */
  datatype Config = Config(lx: nat, ly: nat, e: real, tau: real, physics: Physics,
                           bc1: Option<Boundary>, bc2: Option<Boundary>)
  {
    /** Number of cells, Lx * Ly. */
    function Cells(): nat
    {
      lx * ly
    }

    /** The shallow-water model divides by e in its forcing and equilibrium
        factors. */
    predicate LatticeSpeedUsable()
    {
      physics.ShallowWater? ==> e != 0.0
    }
  }
}
