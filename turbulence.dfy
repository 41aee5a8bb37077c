/** The two-equation k-x eddy-viscosity closure of
    src/turbulence/turbulence.h as an object: the per-cell tables k, x,
    eddy_mu and Pk are arrays the methods update in place, and every method
    is proved to leave them as the value-level functions of WallSpec say.
    The mesh, the velocity field and the boundary-condition list are
    explicit parameters rather than globals. */
module Turbulence {
  import opened Algebra
  import opened WallSpec

  class KXModel {
    /** Number of cells; every table has one slot per cell. */
    const nCells: nat
    const rho: real
    const nu: real
    /** The model coefficient Cmu. */
    const cmu: real
    /** The concrete model's calcX(u*, kappa, y). */
    const calcX: (real, real, real) -> real
    /** The concrete model's calcEddyMu, as a function of k and x. */
    const calcEddyMu: (seq<real>, seq<real>) -> seq<real>

    var modelType: Model
    var wallModel: WallModel

    const k: array<real>
    const x: array<real>
    const eddyMu: array<real>
    const pk: array<real>

    /** One slot per cell in each table, and four separate tables. */
    ghost predicate Valid() {
      k.Length == nCells && x.Length == nCells && eddyMu.Length == nCells && pk.Length == nCells &&
      k != x && k != eddyMu && k != pk && x != eddyMu && x != pk && eddyMu != pk
    }

    /** The KX constructor: the strain invariant defaults to SMAGORNSKY and
        the wall treatment to LAUNDER. */
    constructor (nCells: nat, rho: real, nu: real, cmu: real,
                 calcX: (real, real, real) -> real,
                 calcEddyMu: (seq<real>, seq<real>) -> seq<real>)
      ensures Valid()
      ensures this.nCells == nCells && this.rho == rho && this.nu == nu && this.cmu == cmu
      ensures this.calcX == calcX && this.calcEddyMu == calcEddyMu
      ensures modelType == Smagornsky && wallModel == Launder
      ensures fresh(k) && fresh(x) && fresh(eddyMu) && fresh(pk)
    {
      this.nCells := nCells;
      this.rho := rho;
      this.nu := nu;
      this.cmu := cmu;
      this.calcX := calcX;
      this.calcEddyMu := calcEddyMu;
      modelType := Smagornsky;
      wallModel := Launder;
      k := new real[nCells];
      x := new real[nCells];
      eddyMu := new real[nCells];
      pk := new real[nCells];
    }

    /** The closure's scalars and selectors as a value. */
    function Cfg(): Closure
      reads this
    {
      Closure(rho, nu, cmu, modelType, wallModel, calcX)
    }

    /** The four tables as they stand. */
    function Snapshot(): Fields
      reads k, x, eddyMu, pk
    {
      Fields(k[..], x[..], eddyMu[..], pk[..])
    }

    /** getCmu: the KX default, the same Cmu for every cell, which is the
        coefficient the wall step is specified with. */
    function GetCmu(i: int): (r: real)
      reads this
      ensures r == Cfg().cmu
    {
      cmu
    }

    /** getK: the turbulent kinetic energy table, one value per cell. */
    function GetK(): (r: seq<real>)
      requires Valid()
      reads this, k
      ensures |r| == nCells && r == Snapshot().k
    {
      k[..]
    }

    /** applyWallFunction on face f: only slot c1 = gFO[f] of the tables is
        written, as WallStep describes. */
    method ApplyWallFunction(f: int, low: LawOfWall, c: Flow)
      requires Valid() && |c.u| == nCells
      requires WallFaceDefined(Cfg(), c, Snapshot(), f, low)
      modifies k, x, eddyMu, pk
      ensures Snapshot() == WallStep(Cfg(), c, old(Snapshot()), f, low)
    {
      ghost var s, p := Snapshot(), Cfg();
      var c1 := c.mesh.gFO[f];
      var c2 := c.mesh.gFN[f];

      var ustar: real;
      var y := WallDistance(c, f);
      if wallModel == Standard {
        ustar := low.getUstar(nu, Mag(c.ops, c.u[c1]), y);
        k[c1] := StandardK(ustar, c.ops.sqrt(GetCmu(c1)));
      } else if wallModel == Launder {
        ustar := c.ops.pow(GetCmu(c1), 0.25) * c.ops.sqrt(k[c1]);
      }
      assert ustar == FrictionVelocity(p, c, s, f, low);
      x[c1] := calcX(ustar, low.kappa, y);

      var yp := Yplus(ustar, y, nu);
      var up := low.getUp(ustar, nu, yp);
      eddyMu[c1] := LawEddyMu(rho, nu, yp, up);

      if wallModel == Launder {
        var magDudy := Mag(c.ops, DivBy(Sub(c.u[c2], c.u[c1]), y));
        var magDudyLog := LogShear(ustar, low.kappa, y);
        pk[c1] := LaunderPk(magDudy, magDudyLog, eddyMu[c1]);
      }
      ghost var r := WallStep(p, c, s, f, low);
      assert k[..] == r.k;
      assert x[..] == r.x;
      assert eddyMu[..] == r.eddyMu;
      assert forall i :: 0 <= i < pk.Length ==> pk[i] == r.pk[i];
      assert pk[..] == r.pk;
    }

    /** setWallEddyMu: every face of every velocity-wall boundary condition,
        in boundary-list order and then face-list order, goes through the
        wall function; the tables end as WallSweep says. */
    method SetWallEddyMu(bcs: seq<BCondition>, uIndex: int, c: Flow)
      requires Valid() && |c.u| == nCells
      requires WallsReady(Cfg(), c, bcs, uIndex, Snapshot())
      modifies k, x, eddyMu, pk
      ensures Snapshot() == WallSweep(Cfg(), c, bcs, uIndex, old(Snapshot()))
    {
      ghost var s0, p := Snapshot(), Cfg();
      var d := 0;
      while d < |bcs|
        invariant 0 <= d <= |bcs|
        invariant Snapshot() == SweepBoundaries(p, c, bcs, uIndex, s0, d)
      {
        BoundaryReady(p, c, bcs, uIndex, s0, Snapshot(), d);
        VisitBoundary(bcs[d], uIndex, c);
        d := d + 1;
      }
    }

    /** One pass of setWallEddyMu's outer loop: when the boundary condition
        is a wall of the velocity field, its faces go through the wall
        function in face-list order; otherwise nothing changes. */
    method VisitBoundary(bbc: BCondition, uIndex: int, c: Flow)
      requires Valid() && |c.u| == nCells
      requires IsVelocityWall(bbc, uIndex) ==> FacesReady(Cfg(), c, Snapshot(), bbc.faces, bbc.low)
      modifies k, x, eddyMu, pk
      ensures Snapshot() == if IsVelocityWall(bbc, uIndex)
                            then SweepFaces(Cfg(), c, old(Snapshot()), bbc.faces, bbc.low)
                            else old(Snapshot())
    {
      if bbc.isWall && bbc.fIndex == uIndex {
        ghost var s0, p := Snapshot(), Cfg();
        var wallFaces := bbc.faces;
        var low := bbc.low;
        if |wallFaces| > 0 {
          var i := 0;
          while i < |wallFaces|
            invariant 0 <= i <= |wallFaces|
            invariant FacesReady(p, c, s0, wallFaces[..i], low)
            invariant Snapshot() == SweepFaces(p, c, s0, wallFaces[..i], low)
          {
            assert wallFaces[..i + 1][..i] == wallFaces[..i];
            FacesReadyPrefix(p, c, s0, wallFaces, low, i + 1);
            DefinedStable(p, c, s0, Snapshot(), wallFaces[i], low);
            ApplyWallFunction(wallFaces[i], low, c);
            i := i + 1;
          }
          assert wallFaces[..i] == wallFaces;
        }
      }
    }

    /** calcEddyViscosity: eddy_mu from calcEddyMu, then Pk = S2 * eddy_mu in
        every cell; k and x are only read. */
    method CalcEddyViscosity(gradU: seq<Tensor>, ops: MathOps)
      requires Valid() && |gradU| == nCells
      requires |calcEddyMu(k[..], x[..])| == nCells
      modifies eddyMu, pk
      ensures Snapshot() == Bulk(Cfg(), ops, gradU, old(k[..]), old(x[..]), calcEddyMu(old(k[..]), old(x[..])))
    {
      var mu := calcEddyMu(k[..], x[..]);
      forall i | 0 <= i < eddyMu.Length {
        eddyMu[i] := mu[i];
      }
      forall i | 0 <= i < pk.Length {
        pk[i] := S2(modelType, ops.sqrt, gradU[i]) * eddyMu[i];
      }
      assert eddyMu[..] == mu;
      ghost var r := Bulk(Cfg(), ops, gradU, old(k[..]), old(x[..]), mu);
      assert forall i :: 0 <= i < pk.Length ==> pk[i] == r.pk[i];
      assert pk[..] == r.pk;
    }

    /** The table update of addTurbulentStress: calcEddyViscosity, then
        setWallEddyMu over the wall faces. */
    method UpdateEddyViscosity(gradU: seq<Tensor>, bcs: seq<BCondition>, uIndex: int, c: Flow)
      requires Valid() && |gradU| == nCells && |c.u| == nCells
      requires |calcEddyMu(k[..], x[..])| == nCells
      requires WallsReady(Cfg(), c, bcs, uIndex, Snapshot())
      modifies k, x, eddyMu, pk
      ensures Snapshot() == Updated(Cfg(), c, bcs, uIndex, gradU, old(Snapshot()), calcEddyMu(old(k[..]), old(x[..])))
    {
      ghost var s0 := Snapshot();
      CalcEddyViscosity(gradU, c.ops);
      ReadyStable(Cfg(), c, bcs, uIndex, s0, Snapshot());
      SetWallEddyMu(bcs, uIndex, c);
    }
  }
}
