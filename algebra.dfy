/** The slice of the solver's vector and tensor algebra that the turbulence
    closure uses. Dot products, the symmetric and skew parts of a tensor and
    the double-dot contraction `&` are written out over exact reals; the
    transcendental and normalising operations (sqrt, pow, unit) are opaque
    function values passed in with `MathOps`, so nothing is assumed of them
    beyond what a lemma states in its own requires. */
module Algebra {

  datatype Vector = Vector(x: real, y: real, z: real)

  /** A full 3x3 tensor, row by row. */
  datatype Tensor = Tensor(xx: real, xy: real, xz: real,
                           yx: real, yy: real, yz: real,
                           zx: real, zy: real, zz: real)

  /** The floating-point library the closure calls: sqrt, pow and unit. */
  datatype MathOps = MathOps(sqrt: real -> real, pow: (real, real) -> real, unit: Vector -> Vector)

  function Sub(a: Vector, b: Vector): Vector {
    Vector(a.x - b.x, a.y - b.y, a.z - b.z)
  }

  /** A vector divided by a scalar, component by component. */
  function DivBy(v: Vector, s: real): Vector
    requires s != 0.0
  {
    Vector(v.x / s, v.y / s, v.z / s)
  }

  /** The `&` of two vectors. */
  function Dot(a: Vector, b: Vector): real {
    a.x * b.x + a.y * b.y + a.z * b.z
  }

  /** mag of a scalar: its absolute value. */
  function Abs(s: real): (r: real)
    ensures r >= 0.0 && (r == s || r == -s)
  {
    if s < 0.0 then -s else s
  }

  /** mag of a vector: sqrt(v & v). */
  function Mag(ops: MathOps, v: Vector): real {
    ops.sqrt(Dot(v, v))
  }

  /** mag((a - b) / y) == mag((b - a) / y). */
  lemma ReversedDifference(ops: MathOps, a: Vector, b: Vector, y: real)
    requires y != 0.0
    ensures Mag(ops, DivBy(Sub(a, b), y)) == Mag(ops, DivBy(Sub(b, a), y))
  {
    var u, v := DivBy(Sub(a, b), y), DivBy(Sub(b, a), y);
    NegatedQuotientSquare(a.x - b.x, b.x - a.x, y);
    NegatedQuotientSquare(a.y - b.y, b.y - a.y, y);
    NegatedQuotientSquare(a.z - b.z, b.z - a.z, y);
    assert Dot(u, u) == Dot(v, v);
  }

  lemma NegatedQuotientSquare(n: real, m: real, y: real)
    requires y != 0.0 && m == -n
    ensures (m / y) * (m / y) == (n / y) * (n / y)
  {
    var q := n / y;
    assert m / y == -q;
  }

  const ZERO_TENSOR := Tensor(0.0, 0.0, 0.0, 0.0, 0.0, 0.0, 0.0, 0.0, 0.0)

  function Trn(t: Tensor): Tensor {
    Tensor(t.xx, t.yx, t.zx, t.xy, t.yy, t.zy, t.xz, t.yz, t.zz)
  }

  /** sym(t) = (t + trn(t)) / 2. */
  function Sym(t: Tensor): Tensor {
    Tensor(t.xx, (t.xy + t.yx) / 2.0, (t.xz + t.zx) / 2.0,
           (t.yx + t.xy) / 2.0, t.yy, (t.yz + t.zy) / 2.0,
           (t.zx + t.xz) / 2.0, (t.zy + t.yz) / 2.0, t.zz)
  }

  /** skw(t) = (t - trn(t)) / 2. */
  function Skw(t: Tensor): Tensor {
    Tensor(0.0, (t.xy - t.yx) / 2.0, (t.xz - t.zx) / 2.0,
           (t.yx - t.xy) / 2.0, 0.0, (t.yz - t.zy) / 2.0,
           (t.zx - t.xz) / 2.0, (t.zy - t.yz) / 2.0, 0.0)
  }

  /** The double-dot contraction a & b = sum of a_ij * b_ij. */
  function DDot(a: Tensor, b: Tensor): real {
    a.xx * b.xx + a.xy * b.xy + a.xz * b.xz +
    a.yx * b.yx + a.yy * b.yy + a.yz * b.yz +
    a.zx * b.zx + a.zy * b.zy + a.zz * b.zz
  }

  predicate IsSymmetric(t: Tensor) {
    Trn(t) == t
  }

  /** Skew-symmetric: trn(t) == -t. */
  predicate IsSkew(t: Tensor) {
    t.xx == 0.0 && t.yy == 0.0 && t.zz == 0.0 &&
    t.yx == -t.xy && t.zx == -t.xz && t.zy == -t.yz
  }

  lemma SquareNonNegative(a: real)
    ensures a * a >= 0.0
  {
    if a < 0.0 {
      assert a * a == (-a) * (-a);
    }
  }

  /** t & t is a sum of squares, so never negative. */
  lemma SelfContractionNonNegative(t: Tensor)
    ensures DDot(t, t) >= 0.0
  {
    SquareNonNegative(t.xx); SquareNonNegative(t.xy); SquareNonNegative(t.xz);
    SquareNonNegative(t.yx); SquareNonNegative(t.yy); SquareNonNegative(t.yz);
    SquareNonNegative(t.zx); SquareNonNegative(t.zy); SquareNonNegative(t.zz);
  }

  /** The symmetric part vanishes exactly when the tensor is skew-symmetric. */
  lemma SymZeroIffSkew(t: Tensor)
    ensures Sym(t) == ZERO_TENSOR <==> IsSkew(t)
  {
  }

  /** The skew part vanishes exactly when the tensor is symmetric. */
  lemma SkwZeroIffSymmetric(t: Tensor)
    ensures Skw(t) == ZERO_TENSOR <==> IsSymmetric(t)
  {
  }
}
