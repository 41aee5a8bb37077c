/** The value-level specification of the RANS eddy-viscosity closure of
    src/turbulence/turbulence.h: the strain invariant S2, the production
    field, one application of the law-of-the-wall override to a boundary
    face, and the sweep of that override over every velocity-wall face.
    The class in module Turbulence updates its per-cell arrays in place and
    is proved equal to these functions. */
module WallSpec {
  import opened Algebra

  /** Strain-invariant formula (EddyViscosity_Model::Model). */
  datatype Model = Smagornsky | Baldwin | Kato

  /** Wall treatment (EddyViscosity_Model::WallModel). */
  datatype WallModel = NoWallModel | Standard | Launder

  /** A boundary condition's law-of-the-wall bundle: the von Karman constant
      and the two law-of-the-wall relations, which are opaque here. */
  datatype LawOfWall = LawOfWall(
    kappa: real,
    getUstar: (real, real, real) -> real, // (nu, |U|, y) -> u*
    getUp: (real, real, real) -> real)    // (u*, nu, y+) -> u+

  /** A boundary condition: whether it is a wall, the field it belongs to, its faces. */
  datatype BCondition = BCondition(isWall: bool, fIndex: int, faces: seq<int>, low: LawOfWall)

  /** The mesh arrays the wall function reads: face owner and neighbour
      cells, face normals and cell centres. */
  datatype Mesh = Mesh(gFO: seq<int>, gFN: seq<int>, fN: seq<Vector>, cC: seq<Vector>)

  /** Read-only inputs of a wall sweep: the velocity field, the mesh, and
      the floating-point library. */
  datatype Flow = Flow(u: seq<Vector>, mesh: Mesh, ops: MathOps)

  /** The closure's scalars, selectors and the concrete model's calcX hook. */
  datatype Closure = Closure(
    rho: real, nu: real, cmu: real,
    modelType: Model, wallModel: WallModel,
    calcX: (real, real, real) -> real) // (u*, kappa, y) -> x

  /** The four per-cell tables the closure writes. */
  datatype Fields = Fields(k: seq<real>, x: seq<real>, eddyMu: seq<real>, pk: seq<real>)

  /** Face `pos` of boundary condition `bc`. */
  datatype WallFace = WallFace(bc: nat, pos: nat)

  /* ---------------- strain invariant and production ---------------- */

  /** getS2 at one cell: 2 (S & S) for SMAGORNSKY, 2 (O & O) for BALDWIN and
      2 sqrt((S & S)(O & O)) otherwise, with S = sym(gradU), O = skw(gradU).
      The first two are never negative; the strain form vanishes on a pure
      rotation and the rotation form on a pure strain. The combined form is
      covered by KatoVanishes and KatoNonNegative. */
  function S2(m: Model, sqrt: real -> real, g: Tensor): (r: real)
    ensures m != Kato ==> r >= 0.0
    ensures m == Smagornsky && IsSkew(g) ==> r == 0.0
    ensures m == Baldwin && IsSymmetric(g) ==> r == 0.0
  {
    match m
    case Smagornsky =>
      var S := Sym(g);
      SelfContractionNonNegative(S);
      SymZeroIffSkew(g);
      2.0 * DDot(S, S)
    case Baldwin =>
      var O := Skw(g);
      SelfContractionNonNegative(O);
      SkwZeroIffSymmetric(g);
      2.0 * DDot(O, O)
    case Kato =>
      var S := Sym(g);
      var O := Skw(g);
      KatoRate(sqrt, DDot(S, S), DDot(O, O))
  }

  /** 2 sqrt(s o), the combined strain-rotation form.
      It is 2 sqrt(0) when either invariant vanishes, and never negative
      for non-negative invariants when sqrt is never negative there. */
  function KatoRate(sqrt: real -> real, s: real, o: real): (r: real)
    ensures s == 0.0 || o == 0.0 ==> r == 2.0 * sqrt(0.0)
    ensures s >= 0.0 && o >= 0.0 && sqrt(s * o) >= 0.0 ==> r >= 0.0
  {
    if s == 0.0 || o == 0.0 then
      ZeroProduct(s, o);
      2.0 * sqrt(s * o)
    else
      2.0 * sqrt(s * o)
  }

  lemma ZeroProduct(a: real, b: real)
    requires a == 0.0 || b == 0.0
    ensures a * b == 0.0
  {
  }

  lemma ZeroContraction(t: Tensor)
    requires t == ZERO_TENSOR
    ensures DDot(t, t) == 0.0
  {
  }

  lemma S2Kato(sqrt: real -> real, g: Tensor)
    ensures S2(Kato, sqrt, g) == KatoRate(sqrt, DDot(Sym(g), Sym(g)), DDot(Skw(g), Skw(g)))
  {
  }

  /** A pure rotation has no strain: S & S = 0. */
  lemma SkewStrainFree(g: Tensor)
    requires IsSkew(g)
    ensures DDot(Sym(g), Sym(g)) == 0.0
  {
    SymZeroIffSkew(g);
    ZeroContraction(Sym(g));
  }

  /** A pure strain has no rotation: O & O = 0. */
  lemma SymmetricRotationFree(g: Tensor)
    requires IsSymmetric(g)
    ensures DDot(Skw(g), Skw(g)) == 0.0
  {
    SkwZeroIffSymmetric(g);
    ZeroContraction(Skw(g));
  }

  /** The combined form vanishes on a pure rotation and on a pure strain,
      given sqrt(0) = 0. */
  lemma KatoVanishes(sqrt: real -> real, g: Tensor)
    requires sqrt(0.0) == 0.0
    requires IsSkew(g) || IsSymmetric(g)
    ensures S2(Kato, sqrt, g) == 0.0
  {
    S2Kato(sqrt, g);
    if IsSkew(g) {
      SkewStrainFree(g);
    } else {
      SymmetricRotationFree(g);
    }
  }

  /** The combined form is never negative when sqrt is not. */
  lemma KatoNonNegative(sqrt: real -> real, g: Tensor)
    requires forall v :: v >= 0.0 ==> sqrt(v) >= 0.0
    ensures S2(Kato, sqrt, g) >= 0.0
  {
    var a, b := DDot(Sym(g), Sym(g)), DDot(Skw(g), Skw(g));
    SelfContractionNonNegative(Sym(g));
    SelfContractionNonNegative(Skw(g));
    NonNegativeProduct(a, b);
  }

  lemma NonNegativeProduct(a: real, b: real)
    requires a >= 0.0 && b >= 0.0
    ensures a * b >= 0.0
  {
  }

  /** Pk = getS2(gradU) * eddy_mu, cell by cell. Production is never
      negative where the eddy viscosity is not, under the two pure
      formulas. */
  function Production(m: Model, sqrt: real -> real, gradU: seq<Tensor>, mu: seq<real>): (r: seq<real>)
    requires |gradU| == |mu|
    ensures |r| == |mu|
    ensures m != Kato ==> forall i :: 0 <= i < |r| && mu[i] >= 0.0 ==> r[i] >= 0.0
  {
    seq(|mu|, i requires 0 <= i < |mu| =>
      var s2 := S2(m, sqrt, gradU[i]);
      if m != Kato && mu[i] >= 0.0 then
        NonNegativeProduct(s2, mu[i]);
        s2 * mu[i]
      else
        s2 * mu[i])
  }

  /** The tables after calcEddyViscosity: k and x as transported, the new
      eddy viscosity, and its production. */
  function Bulk(p: Closure, ops: MathOps, gradU: seq<Tensor>, k: seq<real>, x: seq<real>, mu: seq<real>): (r: Fields)
    requires |gradU| == |mu|
    ensures r.k == k && r.x == x && r.eddyMu == mu && |r.pk| == |mu|
    ensures forall i :: 0 <= i < |mu| ==> r.pk[i] == S2(p.modelType, ops.sqrt, gradU[i]) * mu[i]
    ensures p.modelType != Kato ==> forall i :: 0 <= i < |mu| && mu[i] >= 0.0 ==> r.pk[i] >= 0.0
  {
    Fields(k, x, mu, Production(p.modelType, ops.sqrt, gradU, mu))
  }

  /* ---------------- one wall face ---------------- */

  predicate FieldsSized(s: Fields) {
    |s.x| == |s.k| && |s.eddyMu| == |s.k| && |s.pk| == |s.k|
  }

  /** The tables have one slot per cell of the flow. */
  predicate Fits(c: Flow, s: Fields) {
    FieldsSized(s) && |s.k| == |c.u|
  }

  predicate FlowSized(c: Flow) {
    |c.mesh.cC| == |c.u| &&
    |c.mesh.gFN| == |c.mesh.gFO| && |c.mesh.fN| == |c.mesh.gFO|
  }

  /** Face f exists and its owner and neighbour are cells. */
  predicate FaceInMesh(c: Flow, f: int) {
    FlowSized(c) && 0 <= f < |c.mesh.gFO| &&
    0 <= c.mesh.gFO[f] < |c.u| && 0 <= c.mesh.gFN[f] < |c.u|
  }

  /** y = |unit(fN[f]) & (cC[c1] - cC[c2])|: the wall-normal distance
      between the owner and neighbour centres. It is never negative, it is
      zero exactly when the centres' offset is orthogonal to the normal,
      and in particular when owner and neighbour coincide. */
  function WallDistance(c: Flow, f: int): (y: real)
    requires FaceInMesh(c, f)
    ensures y >= 0.0
    ensures y == 0.0 <==> Dot(c.ops.unit(c.mesh.fN[f]), Sub(c.mesh.cC[c.mesh.gFO[f]], c.mesh.cC[c.mesh.gFN[f]])) == 0.0
    ensures c.mesh.gFO[f] == c.mesh.gFN[f] ==> y == 0.0
  {
    var c1, c2 := c.mesh.gFO[f], c.mesh.gFN[f];
    Abs(Dot(c.ops.unit(c.mesh.fN[f]), Sub(c.mesh.cC[c1], c.mesh.cC[c2])))
  }

  /** u*: from the law of the wall at the owner's speed under STANDARD; from
      the owner's k as it stands, Cmu^0.25 * sqrt(k), under LAUNDER. */
  function FrictionVelocity(p: Closure, c: Flow, s: Fields, f: int, low: LawOfWall): real
    requires p.wallModel != NoWallModel && FaceInMesh(c, f) && Fits(c, s)
  {
    var c1 := c.mesh.gFO[f];
    if p.wallModel == Standard then
      low.getUstar(p.nu, Mag(c.ops, c.u[c1]), WallDistance(c, f))
    else
      c.ops.pow(p.cmu, 0.25) * c.ops.sqrt(s.k[c1])
  }

  /** u* is computed before any table is written, and it reads the tables
      only at the owner's k under LAUNDER and not at all under STANDARD. */
  lemma FrictionVelocityLocal(p: Closure, c: Flow, s: Fields, s': Fields, f: int, low: LawOfWall)
    requires p.wallModel != NoWallModel && FaceInMesh(c, f) && Fits(c, s) && Fits(c, s')
    requires p.wallModel == Launder ==> s'.k[c.mesh.gFO[f]] == s.k[c.mesh.gFO[f]]
    ensures FrictionVelocity(p, c, s', f, low) == FrictionVelocity(p, c, s, f, low)
  {
  }

  /** k at the wall under STANDARD: u*^2 / sqrt(Cmu). */
  function StandardK(ustar: real, sqrtCmu: real): (r: real)
    requires sqrtCmu != 0.0
    ensures r * sqrtCmu == ustar * ustar
    ensures sqrtCmu > 0.0 ==> r >= 0.0
  {
    (ustar * ustar) / sqrtCmu
  }

  /** y+ = u* y / nu. */
  function Yplus(ustar: real, y: real, nu: real): (r: real)
    requires nu != 0.0
    ensures r * nu == ustar * y
  {
    (ustar * y) / nu
  }

  /** The law-of-the-wall eddy viscosity rho nu (y+/u+ - 1). */
  function LawEddyMu(rho: real, nu: real, yp: real, up: real): (r: real)
    requires up != 0.0
    ensures yp == up ==> r == 0.0
    ensures rho * nu >= 0.0 && yp / up >= 1.0 ==> r >= 0.0
  {
    if rho * nu >= 0.0 && yp / up >= 1.0 then
      NonNegativeProduct(rho * nu, yp / up - 1.0);
      (rho * nu) * (yp / up - 1.0)
    else
      (rho * nu) * (yp / up - 1.0)
  }

  /** The eddy viscosity the wall function writes for friction velocity u*
      and wall distance y, with u+ from the law of the wall. */
  function WallEddyViscosity(p: Closure, low: LawOfWall, ustar: real, y: real): real
    requires p.nu != 0.0 && low.getUp(ustar, p.nu, Yplus(ustar, y, p.nu)) != 0.0
  {
    var yp := Yplus(ustar, y, p.nu);
    LawEddyMu(p.rho, p.nu, yp, low.getUp(ustar, p.nu, yp))
  }

  /** The log-law velocity gradient u* / (kappa y). */
  function LogShear(ustar: real, kappa: real, y: real): (r: real)
    requires kappa != 0.0 && y != 0.0
    ensures r * (kappa * y) == ustar
  {
    NonZeroProduct(kappa, y);
    ustar / (kappa * y)
  }

  /** |(U[c2] - U[c1]) / y|, the resolved velocity gradient across face f;
      the orientation of the difference does not matter. */
  function MagDudy(c: Flow, f: int, y: real): (r: real)
    requires FaceInMesh(c, f) && y != 0.0
    ensures r == Mag(c.ops, DivBy(Sub(c.u[c.mesh.gFO[f]], c.u[c.mesh.gFN[f]]), y))
  {
    ReversedDifference(c.ops, c.u[c.mesh.gFN[f]], c.u[c.mesh.gFO[f]], y);
    Mag(c.ops, DivBy(Sub(c.u[c.mesh.gFN[f]], c.u[c.mesh.gFO[f]]), y))
  }

  /** Pk at the wall under LAUNDER: the resolved velocity gradient times the
      log-law gradient, times the eddy viscosity. */
  function LaunderPk(magDudy: real, magDudyLog: real, mu: real): (r: real)
    ensures magDudy >= 0.0 && magDudyLog >= 0.0 && mu >= 0.0 ==> r >= 0.0
  {
    if magDudy >= 0.0 && magDudyLog >= 0.0 && mu >= 0.0 then
      NonNegativeProduct(magDudy, magDudyLog);
      NonNegativeProduct(magDudy * magDudyLog, mu);
      (magDudy * magDudyLog) * mu
    else
      (magDudy * magDudyLog) * mu
  }

  lemma NonZeroProduct(a: real, b: real)
    requires a != 0.0 && b != 0.0
    ensures a * b != 0.0
  {
  }

  /** When the wall function can run on face f: a wall model is selected
      (with NONE the source reads an unset u*), the face is in the mesh, and
      no division it performs has a zero divisor: nu, u+, sqrt(Cmu) under
      STANDARD, y and kappa under LAUNDER. */
  predicate WallFaceDefined(p: Closure, c: Flow, s: Fields, f: int, low: LawOfWall) {
    p.wallModel != NoWallModel && FaceInMesh(c, f) && Fits(c, s) && p.nu != 0.0 &&
    var ustar := FrictionVelocity(p, c, s, f, low);
    var y := WallDistance(c, f);
    (p.wallModel == Standard ==> c.ops.sqrt(p.cmu) != 0.0) &&
    low.getUp(ustar, p.nu, Yplus(ustar, y, p.nu)) != 0.0 &&
    (p.wallModel == Launder ==> y != 0.0 && low.kappa != 0.0)
  }

  /** applyWallFunction on face f with owner c1 = gFO[f], as a function of
      the tables. Only slot c1 of the four tables can change, so the
      neighbour c2 and every other cell keep their values; LAUNDER never
      writes k and STANDARD never writes Pk. The values written at c1 are
      stated by WallStepEffect. */
  function WallStep(p: Closure, c: Flow, s: Fields, f: int, low: LawOfWall): (r: Fields)
    requires WallFaceDefined(p, c, s, f, low)
    ensures Fits(c, r)
    ensures forall i :: 0 <= i < |s.k| && i != c.mesh.gFO[f] ==>
              r.k[i] == s.k[i] && r.x[i] == s.x[i] && r.eddyMu[i] == s.eddyMu[i] && r.pk[i] == s.pk[i]
    ensures p.wallModel == Launder ==> r.k == s.k
    ensures p.wallModel == Standard ==> r.pk == s.pk
  {
    var c1 := c.mesh.gFO[f];
    var ustar := FrictionVelocity(p, c, s, f, low);
    var y := WallDistance(c, f);
    var k := if p.wallModel == Standard then s.k[c1 := StandardK(ustar, c.ops.sqrt(p.cmu))] else s.k;
    var mu := WallEddyViscosity(p, low, ustar, y);
    var pk := if p.wallModel == Launder then s.pk[c1 := LaunderPk(MagDudy(c, f, y), LogShear(ustar, low.kappa, y), mu)] else s.pk;
    Fields(k, s.x[c1 := p.calcX(ustar, low.kappa, y)], s.eddyMu[c1 := mu], pk)
  }

  /** What the wall function writes at the owner c1 = gFO[f]. STANDARD
      sets k[c1] = u*^2 / sqrt(Cmu); LAUNDER takes u* from the k[c1] found
      on entry and sets Pk[c1] from the eddy viscosity just written. Both
      set x[c1] = calcX(u*, kappa, y) and eddy_mu[c1] = rho nu (y+/u+ - 1). */
  lemma WallStepEffect(p: Closure, c: Flow, s: Fields, f: int, low: LawOfWall)
    requires WallFaceDefined(p, c, s, f, low)
    ensures var r, c1, ustar := WallStep(p, c, s, f, low), c.mesh.gFO[f], FrictionVelocity(p, c, s, f, low);
            p.wallModel == Standard ==> r.k[c1] == StandardK(ustar, c.ops.sqrt(p.cmu))
    ensures var r, c1, ustar, y := WallStep(p, c, s, f, low), c.mesh.gFO[f], FrictionVelocity(p, c, s, f, low), WallDistance(c, f);
            r.x[c1] == p.calcX(ustar, low.kappa, y) && r.eddyMu[c1] == WallEddyViscosity(p, low, ustar, y)
    ensures var r, c1, ustar, y := WallStep(p, c, s, f, low), c.mesh.gFO[f], FrictionVelocity(p, c, s, f, low), WallDistance(c, f);
            p.wallModel == Launder ==> r.pk[c1] == LaunderPk(MagDudy(c, f, y), LogShear(ustar, low.kappa, y), r.eddyMu[c1])
  {
  }

  /** Whether the wall function can run on a face depends on the tables only
      through their sizes and, under LAUNDER, through k, which the wall
      function never writes under LAUNDER. */
  lemma DefinedStable(p: Closure, c: Flow, s: Fields, s': Fields, f: int, low: LawOfWall)
    requires WallFaceDefined(p, c, s, f, low)
    requires Fits(c, s') && (p.wallModel == Launder ==> s'.k == s.k)
    ensures WallFaceDefined(p, c, s', f, low)
    ensures FrictionVelocity(p, c, s', f, low) == FrictionVelocity(p, c, s, f, low)
  {
    var ustar := FrictionVelocity(p, c, s, f, low);
    assert FrictionVelocity(p, c, s', f, low) == ustar;
    assert low.getUp(ustar, p.nu, Yplus(ustar, WallDistance(c, f), p.nu)) != 0.0;
  }

  /* ---------------- the sweep over the wall faces ---------------- */

  /** The boundary conditions setWallEddyMu acts on: walls of the velocity field. */
  predicate IsVelocityWall(b: BCondition, uIndex: int) {
    b.isWall && b.fIndex == uIndex
  }

  /** w names a face of a velocity-wall boundary condition. */
  predicate IsWallFace(bcs: seq<BCondition>, uIndex: int, w: WallFace) {
    w.bc < |bcs| && IsVelocityWall(bcs[w.bc], uIndex) && w.pos < |bcs[w.bc].faces|
  }

  /** Boundary-list order, then face-list order. */
  predicate Precedes(w1: WallFace, w2: WallFace) {
    w1.bc < w2.bc || (w1.bc == w2.bc && w1.pos < w2.pos)
  }

  /** The first `count` faces of boundary condition d, in face-list order. */
  function BoundaryFaces(d: nat, count: nat): seq<WallFace> {
    seq(count, p requires 0 <= p < count => WallFace(d, p))
  }

  /** The faces of the first d boundary conditions that setWallEddyMu
      visits, in visiting order: boundary-list order, and face-list order
      within a boundary condition. */
  function FacesBefore(bcs: seq<BCondition>, uIndex: int, d: nat): seq<WallFace>
    requires d <= |bcs|
  {
    if d == 0 then []
    else
      FacesBefore(bcs, uIndex, d - 1) +
      (if IsVelocityWall(bcs[d - 1], uIndex) then BoundaryFaces(d - 1, |bcs[d - 1].faces|) else [])
  }

  /** The faces setWallEddyMu visits, in visiting order. */
  function WallFaceList(bcs: seq<BCondition>, uIndex: int): seq<WallFace> {
    FacesBefore(bcs, uIndex, |bcs|)
  }

  /** The faces boundary condition d adds to the visits. */
  function FacesOf(bcs: seq<BCondition>, uIndex: int, d: nat): seq<WallFace>
    requires d < |bcs|
  {
    if IsVelocityWall(bcs[d], uIndex) then BoundaryFaces(d, |bcs[d].faces|) else []
  }

  lemma FacesBeforeSplit(bcs: seq<BCondition>, uIndex: int, d: nat)
    requires 0 < d <= |bcs|
    ensures FacesBefore(bcs, uIndex, d) == FacesBefore(bcs, uIndex, d - 1) + FacesOf(bcs, uIndex, d - 1)
  {
  }

  /** Every visited face of the first d conditions is a velocity-wall face of one of them. */
  lemma {:induction false} FacesBeforeSound(bcs: seq<BCondition>, uIndex: int, d: nat)
    requires d <= |bcs|
    ensures forall j :: 0 <= j < |FacesBefore(bcs, uIndex, d)| ==>
              FacesBefore(bcs, uIndex, d)[j].bc < d && IsWallFace(bcs, uIndex, FacesBefore(bcs, uIndex, d)[j])
  {
    if d > 0 {
      FacesBeforeSound(bcs, uIndex, d - 1);
      FacesBeforeSplit(bcs, uIndex, d);
      var prev: seq<WallFace>, here: seq<WallFace> := FacesBefore(bcs, uIndex, d - 1), FacesOf(bcs, uIndex, d - 1);
      forall j | 0 <= j < |prev + here|
        ensures (prev + here)[j].bc < d && IsWallFace(bcs, uIndex, (prev + here)[j])
      {
        if j >= |prev| {
          assert (prev + here)[j] == here[j - |prev|] == WallFace(d - 1, j - |prev|);
        }
      }
    }
  }

  /** Every velocity-wall face of the first d conditions is visited. */
  lemma {:induction false} FacesBeforeComplete(bcs: seq<BCondition>, uIndex: int, d: nat)
    requires d <= |bcs|
    ensures forall w :: IsWallFace(bcs, uIndex, w) && w.bc < d ==> w in FacesBefore(bcs, uIndex, d)
  {
    if d > 0 {
      FacesBeforeComplete(bcs, uIndex, d - 1);
      FacesBeforeSplit(bcs, uIndex, d);
      var prev: seq<WallFace>, here: seq<WallFace> := FacesBefore(bcs, uIndex, d - 1), FacesOf(bcs, uIndex, d - 1);
      forall w | IsWallFace(bcs, uIndex, w) && w.bc < d
        ensures w in prev + here
      {
        if w.bc == d - 1 {
          assert here[w.pos] == w;
        }
      }
    }
  }

  /** The visits come in boundary-list order and then face-list order. */
  lemma {:induction false} FacesBeforeOrdered(bcs: seq<BCondition>, uIndex: int, d: nat)
    requires d <= |bcs|
    ensures var r := FacesBefore(bcs, uIndex, d);
            forall j1, j2 :: 0 <= j1 < j2 < |r| ==> Precedes(r[j1], r[j2])
  {
    if d > 0 {
      FacesBeforeOrdered(bcs, uIndex, d - 1);
      FacesBeforeSound(bcs, uIndex, d - 1);
      FacesBeforeSplit(bcs, uIndex, d);
      var prev: seq<WallFace>, here: seq<WallFace> := FacesBefore(bcs, uIndex, d - 1), FacesOf(bcs, uIndex, d - 1);
      var r := prev + here;
      forall j1, j2 | 0 <= j1 < j2 < |r|
        ensures Precedes(r[j1], r[j2])
      {
        if j2 < |prev| {
          assert r[j1] == prev[j1] && r[j2] == prev[j2];
        } else if j1 < |prev| {
          assert r[j1] == prev[j1] && r[j2] == here[j2 - |prev|];
        } else {
          assert r[j1] == here[j1 - |prev|] && r[j2] == here[j2 - |prev|];
        }
      }
    }
  }

  /** The visiting order holds exactly the faces of the velocity-wall
      boundary conditions, each once, in boundary-list order and then
      face-list order. */
  lemma WallFaceListExact(bcs: seq<BCondition>, uIndex: int)
    ensures forall j :: 0 <= j < |WallFaceList(bcs, uIndex)| ==> IsWallFace(bcs, uIndex, WallFaceList(bcs, uIndex)[j])
    ensures forall w :: IsWallFace(bcs, uIndex, w) ==> w in WallFaceList(bcs, uIndex)
    ensures var r := WallFaceList(bcs, uIndex);
            forall j1, j2 :: 0 <= j1 < j2 < |r| ==> Precedes(r[j1], r[j2])
  {
    assert WallFaceList(bcs, uIndex) == FacesBefore(bcs, uIndex, |bcs|);
    FacesBeforeSound(bcs, uIndex, |bcs|);
    FacesBeforeComplete(bcs, uIndex, |bcs|);
    FacesBeforeOrdered(bcs, uIndex, |bcs|);
  }

  function FaceAt(bcs: seq<BCondition>, w: WallFace): int
    requires w.bc < |bcs| && w.pos < |bcs[w.bc].faces|
  {
    bcs[w.bc].faces[w.pos]
  }

  /** The wall function can run on face w, from tables s. */
  predicate Ready(p: Closure, c: Flow, bcs: seq<BCondition>, s: Fields, w: WallFace) {
    w.bc < |bcs| && w.pos < |bcs[w.bc].faces| &&
    WallFaceDefined(p, c, s, FaceAt(bcs, w), bcs[w.bc].low)
  }

  /** The wall function can run on every face of ws, from tables s. */
  predicate SweepReady(p: Closure, c: Flow, bcs: seq<BCondition>, s: Fields, ws: seq<WallFace>) {
    forall j :: 0 <= j < |ws| ==> Ready(p, c, bcs, s, ws[j])
  }

  /** The owner cell of face w. */
  function OwnerOf(c: Flow, bcs: seq<BCondition>, w: WallFace): int
    requires w.bc < |bcs| && w.pos < |bcs[w.bc].faces|
    requires 0 <= FaceAt(bcs, w) < |c.mesh.gFO|
  {
    c.mesh.gFO[FaceAt(bcs, w)]
  }

  /** The tables after applying the wall function to the faces ws in order.
      LAUNDER never writes k and STANDARD never writes Pk. */
  function Sweep(p: Closure, c: Flow, bcs: seq<BCondition>, s: Fields, ws: seq<WallFace>): (r: Fields)
    requires Fits(c, s)
    requires SweepReady(p, c, bcs, s, ws)
    ensures Fits(c, r)
    ensures p.wallModel == Launder ==> r.k == s.k
    ensures p.wallModel == Standard ==> r.pk == s.pk
    decreases |ws|
  {
    if ws == [] then s
    else
      var last := ws[|ws| - 1];
      var prev := Sweep(p, c, bcs, s, ws[..|ws| - 1]);
      DefinedStable(p, c, s, prev, FaceAt(bcs, last), bcs[last.bc].low);
      WallStepEffect(p, c, prev, FaceAt(bcs, last), bcs[last.bc].low);
      WallStep(p, c, prev, FaceAt(bcs, last), bcs[last.bc].low)
  }

  /** The wall function can run on every face of a prefix of ws. */
  lemma SweepReadyPrefix(p: Closure, c: Flow, bcs: seq<BCondition>, s: Fields, ws: seq<WallFace>, n: nat)
    requires SweepReady(p, c, bcs, s, ws) && n <= |ws|
    ensures SweepReady(p, c, bcs, s, ws[..n])
  {
    forall j | 0 <= j < n
      ensures Ready(p, c, bcs, s, ws[..n][j])
    {
      assert ws[..n][j] == ws[j];
    }
  }

  /** Sweeping one more face of ws: the tables after the first n + 1 faces
      are those after the first n with the wall function applied to face n,
      which can run on them. */
  lemma SweepPrefixStep(p: Closure, c: Flow, bcs: seq<BCondition>, s: Fields, ws: seq<WallFace>, n: nat)
    requires Fits(c, s) && SweepReady(p, c, bcs, s, ws) && n < |ws|
    ensures SweepReady(p, c, bcs, s, ws[..n]) && SweepReady(p, c, bcs, s, ws[..n + 1])
    ensures Ready(p, c, bcs, Sweep(p, c, bcs, s, ws[..n]), ws[n])
    ensures Sweep(p, c, bcs, s, ws[..n + 1]) ==
            WallStep(p, c, Sweep(p, c, bcs, s, ws[..n]), FaceAt(bcs, ws[n]), bcs[ws[n].bc].low)
  {
    SweepReadyPrefix(p, c, bcs, s, ws, n);
    SweepReadyPrefix(p, c, bcs, s, ws, n + 1);
    var next := ws[..n + 1];
    assert next[..n] == ws[..n];
    assert next[n] == ws[n];
    assert Ready(p, c, bcs, s, ws[n]);
    DefinedStable(p, c, s, Sweep(p, c, bcs, s, ws[..n]), FaceAt(bcs, ws[n]), bcs[ws[n].bc].low);
  }

  /** A cell that owns none of the swept faces keeps all four of its values. */
  lemma {:induction false} SweepUntouched(p: Closure, c: Flow, bcs: seq<BCondition>, s: Fields, ws: seq<WallFace>, i: int)
    requires Fits(c, s)
    requires SweepReady(p, c, bcs, s, ws)
    requires 0 <= i < |s.k|
    requires OwnsNoFace(c, bcs, ws, i)
    ensures var r := Sweep(p, c, bcs, s, ws);
            r.k[i] == s.k[i] && r.x[i] == s.x[i] && r.eddyMu[i] == s.eddyMu[i] && r.pk[i] == s.pk[i]
  {
    if ws != [] {
      var n := |ws| - 1;
      SweepUntouched(p, c, bcs, s, ws[..n], i);
      SweepLastStepElsewhere(p, c, bcs, s, ws, i);
    }
  }

  /** The last face of a sweep leaves every cell other than its owner as
      the earlier faces left it. */
  lemma SweepLastStepElsewhere(p: Closure, c: Flow, bcs: seq<BCondition>, s: Fields, ws: seq<WallFace>, i: int)
    requires Fits(c, s) && SweepReady(p, c, bcs, s, ws) && ws != []
    requires 0 <= i < |s.k|
    requires 0 <= FaceAt(bcs, ws[|ws| - 1]) < |c.mesh.gFO| && OwnerOf(c, bcs, ws[|ws| - 1]) != i
    ensures var n := |ws| - 1;
            SweepReady(p, c, bcs, s, ws[..n]) &&
            var r, r' := Sweep(p, c, bcs, s, ws), Sweep(p, c, bcs, s, ws[..n]);
            r.k[i] == r'.k[i] && r.x[i] == r'.x[i] && r.eddyMu[i] == r'.eddyMu[i] && r.pk[i] == r'.pk[i]
  {
    var n := |ws| - 1;
    SweepPrefixStep(p, c, bcs, s, ws, n);
    assert ws[..n + 1] == ws;
    WallStepEffect(p, c, Sweep(p, c, bcs, s, ws[..n]), FaceAt(bcs, ws[n]), bcs[ws[n].bc].low);
  }

  /** When several swept faces share an owner, the owner ends with the
      values its last face gave it: if no face after position j has the
      owner of face j, that cell reads the same after the whole sweep as
      right after face j. */
  lemma {:induction false} SweepLastWriterWins(p: Closure, c: Flow, bcs: seq<BCondition>, s: Fields, ws: seq<WallFace>, j: int)
    requires Fits(c, s)
    requires SweepReady(p, c, bcs, s, ws)
    requires 0 <= j < |ws|
    requires forall j' :: j < j' < |ws| ==> OwnerOf(c, bcs, ws[j']) != OwnerOf(c, bcs, ws[j])
    ensures var o, r, r' := OwnerOf(c, bcs, ws[j]), Sweep(p, c, bcs, s, ws), Sweep(p, c, bcs, s, ws[..j + 1]);
            r.k[o] == r'.k[o] && r.x[o] == r'.x[o] && r.eddyMu[o] == r'.eddyMu[o] && r.pk[o] == r'.pk[o]
    decreases |ws|
  {
    if j < |ws| - 1 {
      var n := |ws| - 1;
      var prefix := ws[..n];
      assert prefix[..j + 1] == ws[..j + 1];
      assert forall j' :: j < j' < |prefix| ==> prefix[j'] == ws[j'];
      SweepLastWriterWins(p, c, bcs, s, prefix, j);
      SweepLastStepElsewhere(p, c, bcs, s, ws, OwnerOf(c, bcs, ws[j]));
    } else {
      assert ws[..j + 1] == ws;
    }
  }

  /** The cells that own no face of the sweep. */
  predicate OwnsNoFace(c: Flow, bcs: seq<BCondition>, ws: seq<WallFace>, i: int) {
    forall j :: 0 <= j < |ws| ==>
      ws[j].bc < |bcs| && ws[j].pos < |bcs[ws[j].bc].faces| && 0 <= FaceAt(bcs, ws[j]) < |c.mesh.gFO| &&
      OwnerOf(c, bcs, ws[j]) != i
  }

  /** The faces visited for the first d boundary conditions depend on those
      conditions only. */
  lemma {:induction false} FacesBeforeAgree(bcs: seq<BCondition>, bcs': seq<BCondition>, uIndex: int, d: nat)
    requires d <= |bcs| && d <= |bcs'|
    requires forall e :: 0 <= e < d ==> bcs[e] == bcs'[e]
    ensures FacesBefore(bcs, uIndex, d) == FacesBefore(bcs', uIndex, d)
  {
    if d > 0 {
      FacesBeforeAgree(bcs, bcs', uIndex, d - 1);
    }
  }

  /** A boundary condition that is not a velocity wall, or has an empty face
      list, adds nothing to the sweep. */
  lemma SkippedBoundary(bcs: seq<BCondition>, uIndex: int, b: BCondition)
    requires !IsVelocityWall(b, uIndex) || b.faces == []
    ensures WallFaceList(bcs + [b], uIndex) == WallFaceList(bcs, uIndex)
  {
    FacesBeforeAgree(bcs + [b], bcs, uIndex, |bcs|);
  }

  /** Readiness of every wall face carries over to tables of the same sizes
      and, under LAUNDER, the same k. */
  lemma ReadyStable(p: Closure, c: Flow, bcs: seq<BCondition>, uIndex: int, s: Fields, s': Fields)
    requires WallsReady(p, c, bcs, uIndex, s)
    requires Fits(c, s') && (p.wallModel == Launder ==> s'.k == s.k)
    ensures WallsReady(p, c, bcs, uIndex, s')
  {
    forall w | IsWallFace(bcs, uIndex, w)
      ensures Ready(p, c, bcs, s', w)
    {
      DefinedStable(p, c, s, s', FaceAt(bcs, w), bcs[w.bc].low);
    }
  }

  /** The wall function can run on every velocity-wall face, from tables s. */
  ghost predicate WallsReady(p: Closure, c: Flow, bcs: seq<BCondition>, uIndex: int, s: Fields) {
    forall w :: IsWallFace(bcs, uIndex, w) ==> Ready(p, c, bcs, s, w)
  }

  /** The wall function can run on each face of one boundary condition's
      list, from tables s. */
  predicate FacesReady(p: Closure, c: Flow, s: Fields, faces: seq<int>, low: LawOfWall) {
    forall i :: 0 <= i < |faces| ==> WallFaceDefined(p, c, s, faces[i], low)
  }

  lemma FacesReadyPrefix(p: Closure, c: Flow, s: Fields, faces: seq<int>, low: LawOfWall, n: nat)
    requires FacesReady(p, c, s, faces, low) && n <= |faces|
    ensures FacesReady(p, c, s, faces[..n], low)
  {
    forall i | 0 <= i < n
      ensures WallFaceDefined(p, c, s, faces[..n][i], low)
    {
      assert faces[..n][i] == faces[i];
    }
  }

  /** The inner loop of setWallEddyMu: the wall function applied to the
      faces of one boundary condition, in face-list order. */
  function SweepFaces(p: Closure, c: Flow, s: Fields, faces: seq<int>, low: LawOfWall): (r: Fields)
    requires Fits(c, s) && FacesReady(p, c, s, faces, low)
    ensures Fits(c, r)
    ensures p.wallModel == Launder ==> r.k == s.k
    decreases |faces|
  {
    if faces == [] then s
    else
      var n := |faces| - 1;
      FacesReadyPrefix(p, c, s, faces, low, n);
      var prev := SweepFaces(p, c, s, faces[..n], low);
      DefinedStable(p, c, s, prev, faces[n], low);
      WallStepEffect(p, c, prev, faces[n], low);
      WallStep(p, c, prev, faces[n], low)
  }

  /** When every velocity-wall face is ready from s, the faces of velocity
      wall d are ready from any tables of the same sizes and, under LAUNDER,
      the same k. */
  lemma BoundaryReady(p: Closure, c: Flow, bcs: seq<BCondition>, uIndex: int, s: Fields, s': Fields, d: nat)
    requires WallsReady(p, c, bcs, uIndex, s) && d < |bcs|
    requires Fits(c, s') && (p.wallModel == Launder ==> s'.k == s.k)
    ensures IsVelocityWall(bcs[d], uIndex) ==> FacesReady(p, c, s', bcs[d].faces, bcs[d].low)
  {
    if IsVelocityWall(bcs[d], uIndex) {
      forall i | 0 <= i < |bcs[d].faces|
        ensures WallFaceDefined(p, c, s', bcs[d].faces[i], bcs[d].low)
      {
        assert IsWallFace(bcs, uIndex, WallFace(d, i));
        DefinedStable(p, c, s, s', bcs[d].faces[i], bcs[d].low);
      }
    }
  }

  /** The outer loop of setWallEddyMu over the first d boundary conditions:
      each velocity wall of them in turn has its faces swept, every other
      boundary condition is passed over. */
  function SweepBoundaries(p: Closure, c: Flow, bcs: seq<BCondition>, uIndex: int, s: Fields, d: nat): (r: Fields)
    requires Fits(c, s) && WallsReady(p, c, bcs, uIndex, s) && d <= |bcs|
    ensures Fits(c, r)
    ensures p.wallModel == Launder ==> r.k == s.k
  {
    if d == 0 then s
    else
      var prev := SweepBoundaries(p, c, bcs, uIndex, s, d - 1);
      var b := bcs[d - 1];
      BoundaryReady(p, c, bcs, uIndex, s, prev, d - 1);
      if IsVelocityWall(b, uIndex) then SweepFaces(p, c, prev, b.faces, b.low) else prev
  }

  /** The faces of a prefix of the visits are ready from s, and the first n
      faces of velocity wall dd, visited next, are ready from the tables the
      prefix leaves. */
  lemma ReadyAfterPrefix(p: Closure, c: Flow, bcs: seq<BCondition>, s: Fields,
                         prefix: seq<WallFace>, dd: nat, n: nat)
    requires Fits(c, s) && dd < |bcs| && n <= |bcs[dd].faces|
    requires SweepReady(p, c, bcs, s, prefix + BoundaryFaces(dd, n))
    ensures SweepReady(p, c, bcs, s, prefix)
    ensures FacesReady(p, c, Sweep(p, c, bcs, s, prefix), bcs[dd].faces[..n], bcs[dd].low)
  {
    var ws := prefix + BoundaryFaces(dd, n);
    var faces, low := bcs[dd].faces, bcs[dd].low;
    assert ws[..|prefix|] == prefix;
    SweepReadyPrefix(p, c, bcs, s, ws, |prefix|);
    var r := Sweep(p, c, bcs, s, prefix);
    forall i | 0 <= i < n
      ensures WallFaceDefined(p, c, r, faces[..n][i], low)
    {
      assert ws[|prefix| + i] == WallFace(dd, i);
      assert Ready(p, c, bcs, s, ws[|prefix| + i]);
      DefinedStable(p, c, s, r, faces[i], low);
    }
  }

  /** A sweep ends with the wall function on its last face. */
  lemma SweepLast(p: Closure, c: Flow, bcs: seq<BCondition>, s: Fields, ws: seq<WallFace>)
    requires Fits(c, s) && SweepReady(p, c, bcs, s, ws) && ws != []
    ensures SweepReady(p, c, bcs, s, ws[..|ws| - 1])
    ensures Ready(p, c, bcs, Sweep(p, c, bcs, s, ws[..|ws| - 1]), ws[|ws| - 1])
    ensures Sweep(p, c, bcs, s, ws) ==
            WallStep(p, c, Sweep(p, c, bcs, s, ws[..|ws| - 1]), FaceAt(bcs, ws[|ws| - 1]), bcs[ws[|ws| - 1].bc].low)
  {
    var n := |ws| - 1;
    SweepPrefixStep(p, c, bcs, s, ws, n);
    assert ws[..n + 1] == ws;
  }

  /** The inner loop ends with the wall function on the last face. */
  lemma SweepFacesLast(p: Closure, c: Flow, s: Fields, faces: seq<int>, low: LawOfWall)
    requires Fits(c, s) && FacesReady(p, c, s, faces, low) && faces != []
    ensures FacesReady(p, c, s, faces[..|faces| - 1], low)
    ensures WallFaceDefined(p, c, SweepFaces(p, c, s, faces[..|faces| - 1], low), faces[|faces| - 1], low)
    ensures SweepFaces(p, c, s, faces, low) ==
            WallStep(p, c, SweepFaces(p, c, s, faces[..|faces| - 1], low), faces[|faces| - 1], low)
  {
    var n := |faces| - 1;
    FacesReadyPrefix(p, c, s, faces, low, n);
    DefinedStable(p, c, s, SweepFaces(p, c, s, faces[..n], low), faces[n], low);
  }

  /** After some visits, sweeping the first n faces of velocity wall dd in
      the flat visiting order is the inner loop run on those faces from
      where the earlier visits left the tables. */
  lemma {:induction false} SweepBoundaryFaces(p: Closure, c: Flow, bcs: seq<BCondition>, s: Fields,
                                               prefix: seq<WallFace>, dd: nat, n: nat)
    requires Fits(c, s) && dd < |bcs| && n <= |bcs[dd].faces|
    requires SweepReady(p, c, bcs, s, prefix + BoundaryFaces(dd, n))
    ensures SweepReady(p, c, bcs, s, prefix)
    ensures FacesReady(p, c, Sweep(p, c, bcs, s, prefix), bcs[dd].faces[..n], bcs[dd].low)
    ensures Sweep(p, c, bcs, s, prefix + BoundaryFaces(dd, n)) ==
            SweepFaces(p, c, Sweep(p, c, bcs, s, prefix), bcs[dd].faces[..n], bcs[dd].low)
  {
    ReadyAfterPrefix(p, c, bcs, s, prefix, dd, n);
    var ws := prefix + BoundaryFaces(dd, n);
    if n > 0 {
      var faces, low := bcs[dd].faces, bcs[dd].low;
      var r := Sweep(p, c, bcs, s, prefix);
      assert BoundaryFaces(dd, n)[..n - 1] == BoundaryFaces(dd, n - 1);
      assert ws[..|ws| - 1] == prefix + BoundaryFaces(dd, n - 1);
      SweepReadyPrefix(p, c, bcs, s, ws, |ws| - 1);
      SweepBoundaryFaces(p, c, bcs, s, prefix, dd, n - 1);
      var mid := SweepFaces(p, c, r, faces[..n - 1], low);
      assert ws[|ws| - 1] == WallFace(dd, n - 1);
      SweepLast(p, c, bcs, s, ws);
      assert Sweep(p, c, bcs, s, ws) == WallStep(p, c, mid, faces[n - 1], low);
      SweepFacesLast(p, c, r, faces[..n], low);
      assert faces[..n][..n - 1] == faces[..n - 1];
    } else {
      assert ws == prefix;
    }
  }

  /** The nested loops over the first d boundary conditions and their faces
      apply the wall function to the faces of FacesBefore(d), in that order. */
  lemma {:induction false} SweepBoundariesFlat(p: Closure, c: Flow, bcs: seq<BCondition>, uIndex: int, s: Fields, d: nat)
    requires Fits(c, s) && WallsReady(p, c, bcs, uIndex, s) && d <= |bcs|
    ensures SweepReady(p, c, bcs, s, FacesBefore(bcs, uIndex, d))
    ensures SweepBoundaries(p, c, bcs, uIndex, s, d) == Sweep(p, c, bcs, s, FacesBefore(bcs, uIndex, d))
  {
    FacesBeforeSound(bcs, uIndex, d);
    if d > 0 {
      SweepBoundariesFlat(p, c, bcs, uIndex, s, d - 1);
      SweepBoundaryStep(p, c, bcs, uIndex, s, d);
    }
  }

  /** One more boundary condition: when the outer loop agrees with the flat
      sweep before boundary condition d - 1, it agrees after it too. */
  lemma SweepBoundaryStep(p: Closure, c: Flow, bcs: seq<BCondition>, uIndex: int, s: Fields, d: nat)
    requires Fits(c, s) && WallsReady(p, c, bcs, uIndex, s) && 0 < d <= |bcs|
    requires SweepReady(p, c, bcs, s, FacesBefore(bcs, uIndex, d - 1))
    requires SweepReady(p, c, bcs, s, FacesBefore(bcs, uIndex, d))
    requires SweepBoundaries(p, c, bcs, uIndex, s, d - 1) == Sweep(p, c, bcs, s, FacesBefore(bcs, uIndex, d - 1))
    ensures SweepBoundaries(p, c, bcs, uIndex, s, d) == Sweep(p, c, bcs, s, FacesBefore(bcs, uIndex, d))
  {
    FacesBeforeSplit(bcs, uIndex, d);
    var faces, low := bcs[d - 1].faces, bcs[d - 1].low;
    var before := FacesBefore(bcs, uIndex, d - 1);
    var prev := SweepBoundaries(p, c, bcs, uIndex, s, d - 1);
    if IsVelocityWall(bcs[d - 1], uIndex) {
      assert FacesBefore(bcs, uIndex, d) == before + BoundaryFaces(d - 1, |faces|);
      SweepBoundaryFaces(p, c, bcs, s, before, d - 1, |faces|);
      assert Sweep(p, c, bcs, s, before + BoundaryFaces(d - 1, |faces|)) ==
             SweepFaces(p, c, Sweep(p, c, bcs, s, before), bcs[d - 1].faces[..|bcs[d - 1].faces|], bcs[d - 1].low);
      assert faces[..|faces|] == faces;
      BoundaryReady(p, c, bcs, uIndex, s, prev, d - 1);
      assert SweepBoundaries(p, c, bcs, uIndex, s, d) == SweepFaces(p, c, prev, faces, low);
    } else {
      assert FacesBefore(bcs, uIndex, d) == before;
    }
  }

  /** setWallEddyMu: the outer loop over every boundary condition. It keeps
      the tables sized and, under LAUNDER, leaves k alone; which faces it
      visits and in what order is stated by WallSweepEffect. */
  function WallSweep(p: Closure, c: Flow, bcs: seq<BCondition>, uIndex: int, s: Fields): (r: Fields)
    requires Fits(c, s)
    requires WallsReady(p, c, bcs, uIndex, s)
    ensures Fits(c, r)
    ensures p.wallModel == Launder ==> r.k == s.k
  {
    SweepBoundaries(p, c, bcs, uIndex, s, |bcs|)
  }

  /** The nested loops of setWallEddyMu apply the wall function to exactly
      the faces of the visiting order, one after another. LAUNDER leaves k
      alone (WallSweep) and STANDARD leaves Pk alone, and a cell owning none of those
      faces keeps all four values. */
  lemma WallSweepEffect(p: Closure, c: Flow, bcs: seq<BCondition>, uIndex: int, s: Fields)
    requires Fits(c, s)
    requires WallsReady(p, c, bcs, uIndex, s)
    ensures SweepReady(p, c, bcs, s, WallFaceList(bcs, uIndex))
    ensures WallSweep(p, c, bcs, uIndex, s) == Sweep(p, c, bcs, s, WallFaceList(bcs, uIndex))
    ensures p.wallModel == Standard ==> WallSweep(p, c, bcs, uIndex, s).pk == s.pk
    ensures var r := WallSweep(p, c, bcs, uIndex, s);
            forall i :: 0 <= i < |s.k| && OwnsNoFace(c, bcs, WallFaceList(bcs, uIndex), i) ==>
              r.k[i] == s.k[i] && r.x[i] == s.x[i] && r.eddyMu[i] == s.eddyMu[i] && r.pk[i] == s.pk[i]
  {
    SweepBoundariesFlat(p, c, bcs, uIndex, s, |bcs|);
    SweepKeepsUnowned(p, c, bcs, s, WallFaceList(bcs, uIndex));
  }

  lemma SweepKeepsUnowned(p: Closure, c: Flow, bcs: seq<BCondition>, s: Fields, ws: seq<WallFace>)
    requires Fits(c, s)
    requires SweepReady(p, c, bcs, s, ws)
    ensures var r := Sweep(p, c, bcs, s, ws);
            forall i :: 0 <= i < |s.k| && OwnsNoFace(c, bcs, ws, i) ==>
              r.k[i] == s.k[i] && r.x[i] == s.x[i] && r.eddyMu[i] == s.eddyMu[i] && r.pk[i] == s.pk[i]
  {
    forall i | 0 <= i < |s.k| && OwnsNoFace(c, bcs, ws, i) {
      SweepUntouched(p, c, bcs, s, ws, i);
    }
  }

  /** addTurbulentStress's update of the closure tables: calcEddyViscosity
      (the new eddy viscosity mu and its production) and then setWallEddyMu.
      A cell owning no velocity-wall face ends with the bulk values: its
      eddy viscosity is mu and its production S2 * mu. */
  function Updated(p: Closure, c: Flow, bcs: seq<BCondition>, uIndex: int,
                   gradU: seq<Tensor>, s: Fields, mu: seq<real>): (r: Fields)
    requires Fits(c, s) && |mu| == |s.k| && |gradU| == |s.k|
    requires WallsReady(p, c, bcs, uIndex, s)
    ensures Fits(c, r)
    ensures forall i :: 0 <= i < |s.k| && OwnsNoFace(c, bcs, WallFaceList(bcs, uIndex), i) ==>
              r.k[i] == s.k[i] && r.x[i] == s.x[i] && r.eddyMu[i] == mu[i] &&
              r.pk[i] == S2(p.modelType, c.ops.sqrt, gradU[i]) * mu[i]
  {
    var bulk := Bulk(p, c.ops, gradU, s.k, s.x, mu);
    assert forall i :: 0 <= i < |mu| ==> bulk.pk[i] == S2(p.modelType, c.ops.sqrt, gradU[i]) * mu[i];
    ReadyStable(p, c, bcs, uIndex, s, bulk);
    WallSweepEffect(p, c, bcs, uIndex, bulk);
    WallSweep(p, c, bcs, uIndex, bulk)
  }
}
