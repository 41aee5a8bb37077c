/** Small facts about integer multiplication, division and remainder that the
    node-index and block-expansion proofs rely on. Dafny's `/` and `%` are
    Euclidean; every use here has a non-negative dividend and a positive
    divisor, where they agree with C++ integer division. */
module Arith {

  /** Multiplying a non-negative number by a factor of at least one does not shrink it. */
  lemma MulAtLeast(a: int, b: int)
    requires a >= 1 && b >= 0
    ensures a * b >= b
  {
    assert a * b == (a - 1) * b + b;
    assert (a - 1) * b >= 0;
  }

  /** Multiplication by a non-negative factor is monotone. */
  lemma MulMonotone(a: int, a': int, b: int)
    requires a <= a' && b >= 0
    ensures a * b <= a' * b
  {
    assert a' * b - a * b == (a' - a) * b;
    assert (a' - a) * b >= 0;
  }

  /** Quotient and remainder of `q * d + r` are `q` and `r` whenever `0 <= r < d`. */
  lemma DivModOf(q: int, d: int, r: int)
    requires d > 0 && 0 <= r < d
    ensures (q * d + r) / d == q && (q * d + r) % d == r
  {
    var a := q * d + r;
    var q', r' := a / d, a % d;
    assert a == q' * d + r' && 0 <= r' < d;
    if q' > q {
      assert (q' - q) * d == r - r';
      MulAtLeast(q' - q, d);
    } else if q' < q {
      assert (q - q') * d == r' - r;
      MulAtLeast(q - q', d);
    }
  }

  /** `q * d + r` stays below `n * d` when `q < n` and `r < d`. */
  lemma MulAddBelow(q: int, d: int, r: int, n: int)
    requires 0 <= q < n && 0 <= r < d
    ensures 0 <= q * d + r < n * d
  {
    MulMonotone(q + 1, n, d);
    assert (q + 1) * d == q * d + d;
    assert q * d >= 0;
  }

  /** Dividing by `b` and then by `c` is dividing by `b * c`, and the two
      remainders recombine into the remainder modulo `b * c`. */
  lemma DivDiv(a: int, b: int, c: int)
    requires a >= 0 && b > 0 && c > 0
    ensures a / b / c == a / (b * c)
    ensures a % (b * c) == (a / b) % c * b + a % b
  {
    var q1, r1 := a / b, a % b;
    var q2, r2 := q1 / c, q1 % c;
    assert a == q1 * b + r1;
    assert q1 == q2 * c + r2;
    assert a == q2 * (b * c) + (r2 * b + r1) by {
      assert q1 * b == (q2 * c + r2) * b == q2 * (b * c) + r2 * b;
    }
    MulAddBelow(r2, b, r1, c);
    DivModOf(q2, b * c, r2 * b + r1);
  }

  /** Pairs (a, b) with `0 <= b < d` compare as `a * d + b` compares. */
  lemma PairLess(a1: int, b1: int, a2: int, b2: int, d: int)
    requires 0 <= b1 < d && 0 <= b2 < d
    ensures a1 * d + b1 < a2 * d + b2 <==> a1 < a2 || (a1 == a2 && b1 < b2)
  {
    if a1 < a2 {
      MulMonotone(a1 + 1, a2, d);
      assert (a1 + 1) * d == a1 * d + d;
    } else if a2 < a1 {
      MulMonotone(a2 + 1, a1, d);
      assert (a2 + 1) * d == a2 * d + d;
    }
  }

  /** Every t in [m * d, (m + 1) * d) has quotient m by d. */
  lemma DivInBlock(m: int, d: int, t: int)
    requires d > 0 && m * d <= t < m * d + d
    ensures t / d == m
  {
    DivModOf(m, d, t - m * d);
  }

  /** A product of naturals that is positive has positive factors. */
  lemma PositiveFactors(a: nat, b: nat, c: nat)
    requires a * b * c > 0
    ensures a > 0 && b > 0 && c > 0
  {
    if a == 0 || b == 0 {
    }
  }

  /** A non-negative value below n * d has a quotient by d below n. */
  lemma DivBelow(a: int, d: int, n: int)
    requires d > 0 && 0 <= a < n * d
    ensures 0 <= a / d < n
  {
    if a / d >= n {
      MulMonotone(n, a / d, d);
    }
  }

  /** Mixed-radix decoding: an offset below x * (y * z) splits into digits
      (i, j, k) with i < x, j < y, k < z that recombine into it. */
  lemma Digits(x: int, y: int, z: int, idx: int)
    requires y > 0 && z > 0 && 0 <= idx < x * (y * z)
    ensures var i, j, k := idx / (y * z), (idx / z) % y, idx % z;
            0 <= i < x && 0 <= j < y && 0 <= k < z && (i * y + j) * z + k == idx
  {
    var q := idx / z;
    assert idx == q * z + idx % z;
    DivDiv(idx, z, y);
    assert z * y == y * z;
    assert q == q / y * y + q % y;
    DivBelow(idx, y * z, x);
  }

  /** Row-major offsets of triples follow the lexicographic order of the triples. */
  lemma TripleLess(i1: int, j1: int, k1: int, i2: int, j2: int, k2: int, ny: int, nz: int)
    requires 0 <= j1 < ny && 0 <= j2 < ny && 0 <= k1 < nz && 0 <= k2 < nz
    ensures i1 * ny * nz + j1 * nz + k1 < i2 * ny * nz + j2 * nz + k2 <==>
            i1 < i2 || (i1 == i2 && (j1 < j2 || (j1 == j2 && k1 < k2)))
  {
    var q1, q2 := i1 * ny + j1, i2 * ny + j2;
    assert i1 * ny * nz + j1 * nz + k1 == q1 * nz + k1;
    assert i2 * ny * nz + j2 * nz + k2 == q2 * nz + k2;
    PairLess(i1, j1, i2, j2, ny);
    PairLess(i2, j2, i1, j1, ny);
    PairLess(q1, k1, q2, k2, nz);
  }
}
