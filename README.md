# Near-wall eddy viscosity and DG node indexing

This project models two sequential pieces of a finite-volume / DG flow solver and proves properties about them in Dafny.

1. **The RANS eddy-viscosity closure's per-cell tables** (`src/turbulence/turbulence.h`).
   - The k-x model (`KX_Model`) keeps four per-cell tables: `k`, `x`, `eddy_mu` and `Pk`.
   - `calcEddyViscosity` refills `eddy_mu` from the concrete model's `calcEddyMu`, then sets `Pk = getS2(gradU) * eddy_mu` in every cell.
   - `setWallEddyMu` then walks the boundary-condition list. For each wall of the velocity field, it runs `applyWallFunction` on every face of that wall.
   - `applyWallFunction` overrides the owner cell of a face with law-of-the-wall values. Which tables it writes, and which it only reads, depends on the wall model (STANDARD or LAUNDER).
2. **DG node indexing and field expansion** (`src/field/dg.h`).
   - `INDEX3` and `INDEX4` map Lobatto node coordinates to flat row-major offsets.
   - The `forEachLgl*` macros are the counting loop nests over those nodes.
   - `DG::expand` replicates element `m` of a field over the whole block `m`, in place.

How the model is written:

- The per-cell tables are the four arrays of class `Turbulence.KXModel`, updated in place.
  - Each method is proved equal to a value-level function of module `WallSpec`: `WallStep` for one face, `SweepFaces` and `SweepBoundaries` for `setWallEddyMu`'s two loops, and `Bulk` for `calcEddyViscosity`.
  - Lemmas about those functions state what the source promises.
- `DG.Expand` works on an `array` in place, with the loop invariants of the downward walk. It is proved against the function `DG.Expanded`.
- Scalars are exact reals.
  - `sqrt`, `pow`, `unit`, the law of the wall's `getUstar`/`getUp`, `calcX` and `calcEddyMu` are function values. Nothing is assumed about them.
  - A lemma that needs a property of `sqrt` takes it as a precondition, for example `sqrt(0) = 0`.
- The mesh arrays (`gFO`, `gFN`, `fN`, `cC`), the velocity field and the boundary-condition list are explicit parameters, not globals.
- Node counts (`NPX`, `NPY`, `NPZ`, `NP`, `NPF`) and the `NPMAT` switch are parameters as well.

Files:

- `arith.dfy`: integer division and multiplication facts used by the index proofs.
- `dg.dfy`: `INDEX3`, `INDEX4`, the loop nests, `expand`.
- `algebra.dfy`: vectors, tensors, `sym`, `skw` and the double-dot contraction.
- `wall.dfy`: the value-level specification of the closure.
- `turbulence.dfy`: class `KXModel`.

## Model

| member | source | states |
|---|---|---|
| WallSpec.S2 | src/turbulence/turbulence.h:138-152 | Under SMAGORNSKY, getS2 is 2 (S:S) >= 0, and it is 0 when gradU is skew. Under BALDWIN it is 2 (O:O) >= 0, and it is 0 when gradU is symmetric. |
| WallSpec.KatoVanishes | src/turbulence/turbulence.h:147-151 | The combined (KATO) form 2 sqrt((S:S)(O:O)) is 0 on a pure rotation and on a pure strain, given sqrt(0) = 0. |
| WallSpec.KatoNonNegative | src/turbulence/turbulence.h:147-151 | The combined form is never negative when sqrt is not. |
| WallSpec.KatoRate | src/turbulence/turbulence.h:147-151 | The combined form 2 sqrt(s o) is 2 sqrt(0) when either invariant is 0. It is non-negative for non-negative invariants when sqrt is non-negative at their product. |
| WallSpec.Production | src/turbulence/turbulence.h:218-221 | Pk = S2 * eddy_mu cell by cell has one entry per cell. Under the two pure formulas it is non-negative wherever eddy_mu is. |
| WallSpec.Bulk | src/turbulence/turbulence.h:218-221 | After calcEddyViscosity, k and x are as before, eddy_mu is calcEddyMu's table, and Pk[i] = S2(gradU[i]) * eddy_mu[i] in every cell. Under SMAGORNSKY and BALDWIN, Pk is non-negative wherever eddy_mu is. |
| Turbulence.KXModel.CalcEddyViscosity | src/turbulence/turbulence.h:218-221 | eddy_mu becomes calcEddyMu(k, x), Pk becomes S2 * eddy_mu in every cell, and k and x are unchanged. |
| WallSpec.WallDistance | src/turbulence/turbulence.h:230 | y = \|unit(fN[f]) . (cC[c1] - cC[c2])\| is never negative. It is zero exactly when the centres' offset is orthogonal to unit(fN[f]), in particular when c1 = c2. |
| WallSpec.WallStep | src/turbulence/turbulence.h:223-250 | One wall-function step keeps the tables sized to the mesh and changes only slot c1 = gFO[f] of k, x, eddy_mu and Pk, so the neighbour c2 and every other cell keep their values. LAUNDER never writes k and STANDARD never writes Pk. |
| WallSpec.WallStepEffect | src/turbulence/turbulence.h:223-250 | The values written at c1: STANDARD sets k[c1] = u*^2 / sqrt(Cmu). Both set x[c1] = calcX(u*, kappa, y) and eddy_mu[c1] = rho nu (y+/u+ - 1). LAUNDER sets Pk[c1] from the eddy_mu[c1] just written. |
| WallSpec.FrictionVelocityLocal | src/turbulence/turbulence.h:229-236 | u* reads the tables only at k[c1], and only under LAUNDER; under STANDARD it comes from the law of the wall at \|U[c1]\| and y alone. |
| WallSpec.StandardK | src/turbulence/turbulence.h:233 | The STANDARD wall k satisfies k * sqrt(Cmu) = u*^2, and it is non-negative when sqrt(Cmu) > 0. |
| WallSpec.Yplus | src/turbulence/turbulence.h:240 | y+ satisfies y+ * nu = u* * y. |
| WallSpec.LawEddyMu | src/turbulence/turbulence.h:242 | rho nu (y+/u+ - 1) is zero where y+ = u+, and non-negative when rho nu >= 0 and y+/u+ >= 1. |
| WallSpec.MagDudy | src/turbulence/turbulence.h:246 | \|(U[c2] - U[c1]) / y\| equals \|(U[c1] - U[c2]) / y\|: the orientation of the difference does not matter. |
| WallSpec.LogShear | src/turbulence/turbulence.h:247 | The log-law gradient satisfies mag_dudy_log * (kappa * y) = u*. |
| WallSpec.LaunderPk | src/turbulence/turbulence.h:248 | The LAUNDER wall production is non-negative when mag_dudy, mag_dudy_log and eddy_mu[c1] are. |
| WallSpec.DefinedStable | src/turbulence/turbulence.h:231-236 | Whether the step's divisions are defined, and the value of u*, depend on the tables only through their sizes and, under LAUNDER, through k[c1]. |
| Turbulence.KXModel.ApplyWallFunction | src/turbulence/turbulence.h:223-250 | The in-place step on the arrays leaves them equal to WallStep of the old tables. It requires a wall model other than NONE, the face in the mesh, and nonzero nu, u+, sqrt(Cmu) (STANDARD), y and kappa (LAUNDER). u* is computed from k[c1] before any write. |
| WallSpec.SweepFaces | src/turbulence/turbulence.h:164-166 | The inner loop over one wall's faces keeps the tables sized to the mesh. Under LAUNDER it leaves k unchanged. |
| WallSpec.SweepBoundaries | src/turbulence/turbulence.h:157-169 | The outer loop over the boundary conditions keeps the tables sized to the mesh. Under LAUNDER it leaves k unchanged. |
| Turbulence.KXModel.VisitBoundary | src/turbulence/turbulence.h:159-167 | One boundary condition: if it is a wall of the velocity field, the tables become SweepFaces over its face list in face-list order. Otherwise they are unchanged. |
| WallSpec.WallSweep | src/turbulence/turbulence.h:154-169 | setWallEddyMu over the whole boundary list keeps the tables sized to the mesh. Under LAUNDER it leaves k unchanged. |
| Turbulence.KXModel.SetWallEddyMu | src/turbulence/turbulence.h:154-169 | The tables end as WallSweep of the old tables: every boundary condition in list order, each through VisitBoundary. |
| WallSpec.WallSweepEffect | src/turbulence/turbulence.h:154-169 | setWallEddyMu equals the flat Sweep of WallFaceList: the wall function on exactly the velocity-wall faces, one after another. STANDARD leaves Pk alone. A cell owning none of those faces keeps all four values. |
| WallSpec.SweepBoundariesFlat | src/turbulence/turbulence.h:157-169 | The nested loops over the first d boundary conditions equal the flat sweep over FacesBefore(d). |
| WallSpec.SweepBoundaryStep | src/turbulence/turbulence.h:157-169 | One more boundary condition keeps the nested loops equal to the flat sweep. |
| WallSpec.SweepBoundaryFaces | src/turbulence/turbulence.h:164-166 | Sweeping the first n faces of one wall after earlier visits is the inner loop run from where those visits left the tables. |
| WallSpec.ReadyAfterPrefix | src/turbulence/turbulence.h:164-166 | The faces that come next in the sweep can still be processed from the tables the earlier faces leave. |
| WallSpec.WallFaceListExact | src/turbulence/turbulence.h:157-169 | The visiting order contains exactly the faces of boundary conditions with isWall && fIndex == U.fIndex, each once, ordered by boundary position and then face position. |
| WallSpec.FacesBeforeSound | src/turbulence/turbulence.h:157-169 | Every face visited for the first d boundary conditions is a velocity-wall face of one of them. |
| WallSpec.FacesBeforeComplete | src/turbulence/turbulence.h:157-169 | Every velocity-wall face of the first d boundary conditions is visited. |
| WallSpec.FacesBeforeOrdered | src/turbulence/turbulence.h:157-169 | Visits come in boundary-list order, then face-list order. |
| WallSpec.FacesBeforeAgree | src/turbulence/turbulence.h:157-169 | The faces visited for the first d boundary conditions depend only on those conditions. |
| WallSpec.SkippedBoundary | src/turbulence/turbulence.h:160-163 | A boundary condition that is not a velocity wall, or whose face list is empty, adds nothing to the sweep. |
| WallSpec.SweepUntouched | src/turbulence/turbulence.h:154-169 | A cell that owns none of the swept faces keeps its k, x, eddy_mu and Pk. |
| WallSpec.SweepKeepsUnowned | src/turbulence/turbulence.h:154-169 | SweepUntouched holds for every such cell at once. |
| WallSpec.SweepLastStepElsewhere | src/turbulence/turbulence.h:223-250 | The last face of a sweep changes no cell except its owner. |
| WallSpec.SweepLastWriterWins | src/turbulence/turbulence.h:154-169 | When faces share an owner, the later face wins: a cell owned by face j and by no later face ends with the values it had right after face j. |
| WallSpec.SweepPrefixStep | src/turbulence/turbulence.h:164-166 | The sweep over n + 1 faces is the wall step of face n applied after the first n faces, and that step is defined there. |
| WallSpec.SweepLast | src/turbulence/turbulence.h:164-166 | A sweep ends with the wall step on its last face. |
| WallSpec.SweepFacesLast | src/turbulence/turbulence.h:164-166 | The inner loop ends with the wall step on the last face of the list. |
| WallSpec.BoundaryReady | src/turbulence/turbulence.h:160-166 | If every velocity-wall face can be processed from s, then every face of wall d can be processed from any tables of the same sizes that, under LAUNDER, have the same k. |
| WallSpec.ReadyStable | src/turbulence/turbulence.h:122-125 | calcEddyViscosity writes neither k nor the sizes, so every wall face that could be processed before it can still be processed after it. |
| WallSpec.Updated | src/turbulence/turbulence.h:122-125 | calcEddyViscosity followed by setWallEddyMu. A cell owning no velocity-wall face ends with eddy_mu = calcEddyMu's value and Pk = S2 * eddy_mu, with k and x unchanged. |
| Turbulence.KXModel.UpdateEddyViscosity | src/turbulence/turbulence.h:122-125 | The tables after calcEddyViscosity and then setWallEddyMu are Updated of the old tables. |
| Turbulence.KXModel.GetCmu | src/turbulence/turbulence.h:214-216 | getCmu returns the model's Cmu for every cell. |
| Turbulence.KXModel.GetK | src/turbulence/turbulence.h:203 | getK returns the k table itself, one value per cell. |
| Turbulence.KXModel.constructor | src/turbulence/turbulence.h:193-201 | A fresh model has four distinct per-cell tables. modelType starts as SMAGORNSKY (line 106) and the KX constructor sets wallModel to LAUNDER. |
| DG.Index3 | src/field/dg.h:27-28 | INDEX3(i, j, k) lies in [0, NPX*NPY*NPZ) for a node of the cell. |
| DG.Index3Decodes | src/field/dg.h:27-28 | k = idx % NPZ, j = (idx / NPZ) % NPY and i = idx / (NPY*NPZ) recover the node from its INDEX3. |
| DG.DecodeIndexes | src/field/dg.h:27-28 | Every offset in [0, NPX*NPY*NPZ) is INDEX3 of the in-cell node it decodes to, so INDEX3 is onto. |
| DG.Index3Injective | src/field/dg.h:27-28 | INDEX3 is injective on the nodes of a cell. |
| DG.Index3Monotone | src/field/dg.h:27-28 | INDEX3 order is lexicographic (i, j, k) order, in both directions. |
| DG.Index4 | src/field/dg.h:24-25 | INDEX4(c, i, j, k) = c*N + INDEX3(i, j, k) with N = NPX*NPY*NPZ. For c >= 0 and a node of the cell it lies in [c*N, (c+1)*N). |
| DG.Index4Decodes | src/field/dg.h:24-25 | INDEX4 / N is the cell and INDEX4 % N is the INDEX3 offset, so cells never share an offset. |
| DG.ForEachLgl | src/field/dg.h:4-7 | The (i, j, k) loop nest visits NPX*NPY*NPZ nodes of the cell. The t-th visit is the node whose INDEX3 is t, so each node is visited once, in increasing offset order. |
| DG.ForEachLglPair | src/field/dg.h:8-16 | The two-index nests visit outer*inner pairs in the cell. The t-th visit is the pair (a, b) with a*inner + b = t. |
| DG.ForEachLglAxis | src/field/dg.h:17-22 | The one-index loops visit 0, 1, ..., count-1 in order. |
| DG.BlockSize | src/field/dg.h:58-62 | The block is NP for a CELL field and NPF for a FACET field. These are the only entities the model has, so the source's unassigned `block` for other entities cannot arise. |
| DG.Expanded | src/field/dg.h:64-69 | The expanded field has the length of the original. |
| DG.ExpandedBlock | src/field/dg.h:64-69 | Every slot of block m of the expanded field holds the original element m. |
| DG.SampledExpanded | src/field/dg.h:64-69 | Reading the first slot of each block of the expanded field gives back the n original elements. |
| DG.Expand | src/field/dg.h:55-71 | With NPMAT set, a block of NP (CELL) or NPF (FACET) > 0, and a size that is a multiple of the block, the array ends with cF[m] = old cF[m / block]; its length never changes. With NPMAT clear, nothing changes. The inner invariants show that each source cF[ii] is read while still original. |

## Left out

- The stress terms are not modelled. This covers `addTurbulentStress`'s `lap`/`div` assembly, `getViscousStress` and `getReynoldsStress`: they compose mesh-field operators whose definitions are not part of this model. Only the table update `calcEddyViscosity` then `setWallEddyMu` is kept, as `Turbulence.KXModel.UpdateEddyViscosity`.
- `enroll`, `Util::Option`, `ParamList` and `solve` are not modelled. They are configuration plumbing and an empty hook. As a result, `modelType` and `wallModel` are fields that no modelled method changes. In the source, `modelType` stays runtime-mutable through the option registered at lines 113-115. `wallModel` is registered nowhere: `KX_Model::enroll` registers only `k_UR` and `x_UR` (lines 207-208), and `wallModel` is set only by the constructors (lines 107 and 200).
- The DG basis functions (`legendre*`, `cardinal_basis`, `*_basis_derivative`, `init_*`) and the `DPSI` macro are floating-point numerics and are not modelled. Only their declarations are in the header.
- Floating point is not modelled: no rounding, NaN or Inf. Scalars are exact reals. The source's integer `Int` width is not modelled either: offsets are unbounded integers.
- Turbulence.KXModel.ApplyWallFunction: it requires `wallModel != NONE`. A NONE wall model does not skip the face: `ustar` is declared without a value (line 229), no branch assigns it under NONE, and it is read at lines 237 and 240. The model therefore excludes that input.
- Turbulence.KXModel.ApplyWallFunction: it also requires nonzero divisors (nu, u+, sqrt(Cmu) under STANDARD, y and kappa under LAUNDER). The source performs these divisions unguarded, and what a zero divisor produces in floating point is not modelled.
- WallSpec.WallStep: `pow(ustar, 2)` is modelled as `ustar * ustar`. `pow(Cmu, 0.25)` stays an uninterpreted `pow`.
- Turbulence.KXModel.GetCmu: it models only the `KX_Model` default, `Cmu` for every cell. A concrete model that overrides `getCmu` is not modelled.
- Turbulence.KXModel.CalcEddyViscosity: the concrete `calcEddyMu` is a function of k and x supplied with the model, assumed to return one value per cell. The concrete model families are not part of this model.
- WallSpec.S2: its contract does not state that SMAGORNSKY/BALDWIN give 0 only on a skew/symmetric gradient (the converse direction). That converse needs "a nonzero tensor has a positive self-contraction". The verifier's nonlinear real arithmetic does not close that step, even split per component. Once positivity is given, the rest follows through SymZeroIffSkew and SkwZeroIffSymmetric. The combined form's properties are in WallSpec.KatoVanishes and WallSpec.KatoNonNegative.
- No modelled method changes `modelType`, `wallModel` or the coefficients. The model does not otherwise fix them after configuration.
