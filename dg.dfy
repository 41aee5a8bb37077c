/** Node indexing and field expansion of the discontinuous-Galerkin layer
    (src/field/dg.h). Each cell carries NPX * NPY * NPZ Lobatto nodes; the
    node (i, j, k) of cell c sits at a row-major offset in a flat per-node
    array. The node counts are process-wide globals in the source; here they
    are an explicit `Lgl` value. Offsets are unbounded integers: the source's
    `Int` width is not modelled. */
module DG {
  import opened Arith

  /** Lobatto node counts per direction (the globals NPX, NPY, NPZ). */
  datatype Lgl = Lgl(npx: nat, npy: nat, npz: nat)

  /** A node of the reference cell, by its three direction indices. */
  datatype Node = Node(i: int, j: int, k: int)

  /** Nodes of one cell. */
  function NodesPerCell(b: Lgl): nat {
    b.npx * b.npy * b.npz
  }

  predicate InCell(b: Lgl, n: Node) {
    0 <= n.i < b.npx && 0 <= n.j < b.npy && 0 <= n.k < b.npz
  }

  /** Strict lexicographic order on (i, j, k): the order of the forEachLgl loop nest. */
  predicate LexBefore(n1: Node, n2: Node) {
    n1.i < n2.i || (n1.i == n2.i && (n1.j < n2.j || (n1.j == n2.j && n1.k < n2.k)))
  }

  /** INDEX3: offset of node (i, j, k) within its cell; a node of the cell
      lands inside [0, NPX*NPY*NPZ). */
  function Index3(b: Lgl, i: int, j: int, k: int): (r: int)
    ensures InCell(b, Node(i, j, k)) ==> 0 <= r < NodesPerCell(b)
  {
    var r := i * b.npy * b.npz + j * b.npz + k;
    if InCell(b, Node(i, j, k)) then
      assert r == (i * b.npy + j) * b.npz + k;
      MulAddBelow(i, b.npy, j, b.npx);
      MulAddBelow(i * b.npy + j, b.npz, k, b.npx * b.npy);
      r
    else
      r
  }

  /** INDEX4: offset of node (i, j, k) of cell c in a whole-mesh array; it is
      the cell's first offset c*N plus INDEX3, so a cell's nodes occupy
      exactly [c*N, (c+1)*N). */
  function Index4(b: Lgl, c: int, i: int, j: int, k: int): (r: int)
    ensures r == c * NodesPerCell(b) + Index3(b, i, j, k)
    ensures c >= 0 && InCell(b, Node(i, j, k)) ==>
              c * NodesPerCell(b) <= r < (c + 1) * NodesPerCell(b)
  {
    var r := c * b.npx * b.npy * b.npz + i * b.npy * b.npz + j * b.npz + k;
    assert c * b.npx * b.npy * b.npz == c * NodesPerCell(b);
    assert (c + 1) * NodesPerCell(b) == c * NodesPerCell(b) + NodesPerCell(b);
    r
  }

  /** Decoding of an in-cell offset: k = idx % NPZ, j = (idx / NPZ) % NPY,
      i = idx / (NPY*NPZ). */
  function NodeOf(b: Lgl, idx: int): Node
    requires b.npy > 0 && b.npz > 0
  {
    Node(idx / (b.npy * b.npz), (idx / b.npz) % b.npy, idx % b.npz)
  }

  /** Decoding inverts INDEX3 on the nodes of a cell. */
  lemma Index3Decodes(b: Lgl, n: Node)
    requires InCell(b, n)
    ensures NodeOf(b, Index3(b, n.i, n.j, n.k)) == n
  {
    var idx := Index3(b, n.i, n.j, n.k);
    assert idx == (n.i * b.npy + n.j) * b.npz + n.k;
    DivModOf(n.i * b.npy + n.j, b.npz, n.k);
    DivModOf(n.i, b.npy, n.j);
    DivDiv(idx, b.npz, b.npy);
    assert b.npz * b.npy == b.npy * b.npz;
  }

  /** INDEX3 inverts decoding on [0, NPX*NPY*NPZ): every offset of the cell is
      the offset of exactly the node it decodes to. */
  lemma DecodeIndexes(b: Lgl, idx: int)
    requires 0 <= idx < NodesPerCell(b)
    ensures b.npy > 0 && b.npz > 0
    ensures InCell(b, NodeOf(b, idx)) && Index3(b, NodeOf(b, idx).i, NodeOf(b, idx).j, NodeOf(b, idx).k) == idx
  {
    PositiveFactors(b.npx, b.npy, b.npz);
    assert NodesPerCell(b) == b.npx * (b.npy * b.npz);
    Digits(b.npx, b.npy, b.npz, idx);
    var n := NodeOf(b, idx);
    assert Index3(b, n.i, n.j, n.k) == (n.i * b.npy + n.j) * b.npz + n.k;
  }

  /** INDEX3 is injective on the nodes of a cell. */
  lemma Index3Injective(b: Lgl, n1: Node, n2: Node)
    requires InCell(b, n1) && InCell(b, n2)
    requires Index3(b, n1.i, n1.j, n1.k) == Index3(b, n2.i, n2.j, n2.k)
    ensures n1 == n2
  {
    Index3Decodes(b, n1);
    Index3Decodes(b, n2);
  }

  /** INDEX3 orders the nodes of a cell lexicographically, in both directions. */
  lemma Index3Monotone(b: Lgl, n1: Node, n2: Node)
    requires InCell(b, n1) && InCell(b, n2)
    ensures LexBefore(n1, n2) <==> Index3(b, n1.i, n1.j, n1.k) < Index3(b, n2.i, n2.j, n2.k)
  {
    TripleLess(n1.i, n1.j, n1.k, n2.i, n2.j, n2.k, b.npy, b.npz);
  }

  /** Decoding a whole-mesh offset: the cell is idx / N and the in-cell
      offset is idx % N, so cells never share an offset. */
  lemma Index4Decodes(b: Lgl, c: int, n: Node)
    requires InCell(b, n)
    ensures Index4(b, c, n.i, n.j, n.k) / NodesPerCell(b) == c
    ensures Index4(b, c, n.i, n.j, n.k) % NodesPerCell(b) == Index3(b, n.i, n.j, n.k)
  {
    DivModOf(c, NodesPerCell(b), Index3(b, n.i, n.j, n.k));
  }

  /** The loop nest forEachLgl(i, j, k): i outermost, k innermost. Returns the
      nodes in visiting order; each node of the cell is visited exactly once,
      and the t-th visit is the node whose INDEX3 is t. */
  method ForEachLgl(b: Lgl) returns (visited: seq<Node>)
    ensures |visited| == NodesPerCell(b)
    ensures forall t :: 0 <= t < |visited| ==>
              InCell(b, visited[t]) && Index3(b, visited[t].i, visited[t].j, visited[t].k) == t
  {
    visited := [];
    for i := 0 to b.npx
      invariant |visited| == i * b.npy * b.npz
      invariant forall t :: 0 <= t < |visited| ==>
                  InCell(b, visited[t]) && Index3(b, visited[t].i, visited[t].j, visited[t].k) == t
    {
      for j := 0 to b.npy
        invariant |visited| == i * b.npy * b.npz + j * b.npz
        invariant forall t :: 0 <= t < |visited| ==>
                    InCell(b, visited[t]) && Index3(b, visited[t].i, visited[t].j, visited[t].k) == t
      {
        for k := 0 to b.npz
          invariant |visited| == i * b.npy * b.npz + j * b.npz + k
          invariant forall t :: 0 <= t < |visited| ==>
                      InCell(b, visited[t]) && Index3(b, visited[t].i, visited[t].j, visited[t].k) == t
        {
          visited := visited + [Node(i, j, k)];
        }
        assert (j + 1) * b.npz == j * b.npz + b.npz;
      }
      assert (i + 1) * b.npy * b.npz == i * b.npy * b.npz + b.npy * b.npz;
    }
  }

  /** The two-index loop nests forEachLglXY, forEachLglXZ and forEachLglYZ:
      `outer` is the first direction's node count, `inner` the second's.
      The t-th visit is the pair (a, b) with a * inner + b == t. */
  method ForEachLglPair(outer: nat, inner: nat) returns (visited: seq<(int, int)>)
    ensures |visited| == outer * inner
    ensures forall t :: 0 <= t < |visited| ==>
              0 <= visited[t].0 < outer && 0 <= visited[t].1 < inner &&
              visited[t].0 * inner + visited[t].1 == t
  {
    visited := [];
    for a := 0 to outer
      invariant |visited| == a * inner
      invariant forall t :: 0 <= t < |visited| ==>
                  0 <= visited[t].0 < outer && 0 <= visited[t].1 < inner &&
                  visited[t].0 * inner + visited[t].1 == t
    {
      for c := 0 to inner
        invariant |visited| == a * inner + c
        invariant forall t :: 0 <= t < |visited| ==>
                    0 <= visited[t].0 < outer && 0 <= visited[t].1 < inner &&
                    visited[t].0 * inner + visited[t].1 == t
      {
        visited := visited + [(a, c)];
      }
      assert (a + 1) * inner == a * inner + inner;
    }
  }

  /** The single-index loops forEachLglX, forEachLglY and forEachLglZ: the
      t-th visit is node index t. */
  method ForEachLglAxis(count: nat) returns (visited: seq<int>)
    ensures |visited| == count
    ensures forall t :: 0 <= t < |visited| ==> visited[t] == t
  {
    visited := [];
    for a := 0 to count
      invariant |visited| == a
      invariant forall t :: 0 <= t < |visited| ==> visited[t] == t
    {
      visited := visited + [a];
    }
  }

  /** The mesh entity a field lives on; expand knows cells and facets. */
  datatype Entity = Cell | Facet

  /** Nodes per entity: NP for a cell field, NPF for a facet field. */
  function BlockSize(entity: Entity, np: nat, npf: nat): (r: nat)
    ensures entity == Cell ==> r == np
    ensures entity == Facet ==> r == npf
  {
    if entity == Cell then np else npf
  }

  /** The expanded field: position t holds the original value at t / block,
      so block m is filled with the original element m. */
  function Expanded<T>(s: seq<T>, block: nat): (r: seq<T>)
    requires block > 0
    ensures |r| == |s|
  {
    seq(|s|, t requires 0 <= t < |s| =>
      DivModOf(t / block, block, t % block);
      MulAtLeast(block, t / block);
      s[t / block])
  }

  /** Every slot of block m of the expanded field holds original element m. */
  lemma ExpandedBlock<T>(s: seq<T>, block: nat, m: int, j: int)
    requires block > 0 && 0 <= m && 0 <= j < block && m * block + j < |s|
    ensures Expanded(s, block)[m * block + j] == s[m]
  {
    DivModOf(m, block, j);
  }

  /** The first element of each block of the expanded field. */
  function Sampled<T>(s: seq<T>, block: nat, n: nat): seq<T>
    requires block > 0 && n * block <= |s|
  {
    seq(n, m requires 0 <= m < n =>
      MulMonotone(m + 1, n, block);
      s[m * block])
  }

  /** Sampling the first slot of each block undoes the expansion: the n
      original elements come back. */
  lemma SampledExpanded<T>(s: seq<T>, block: nat, n: nat)
    requires block > 0 && |s| == n * block
    ensures Sampled(Expanded(s, block), block, n) == s[..n]
  {
    var e := Expanded(s, block);
    forall m | 0 <= m < n
      ensures Sampled(e, block, n)[m] == s[m]
    {
      MulMonotone(m + 1, n, block);
      assert Sampled(e, block, n)[m] == e[m * block];
      ExpandedBlock(s, block, m, 0);
    }
    MulAtLeast(block, n);
    assert |Sampled(e, block, n)| == n == |s[..n]|;
  }

  /** The block about to be filled by expand: with m >= 1 blocks left its
      last slot is m * block - 1, its first is (m - 1) * block, and the
      element it copies, m - 1, lies at or below that first slot. */
  lemma BlockStart(m: int, block: int)
    requires block > 0 && m >= 0 && m * block - 1 >= 0
    ensures m >= 1 && (m - 1) * block == m * block - block && m - 1 <= (m - 1) * block
  {
    MulAtLeast(block, m - 1);
  }

  /** DG::expand: with NPMAT set, replicate element m of the field over the
      whole block m, in place, walking the blocks from the top down so that
      each source element is read before any write reaches it; with NPMAT
      clear, the field is untouched. The field must hold a whole number of
      non-empty blocks, or the source indexes below zero. */
  method Expand<T>(cF: array<T>, npmat: int, entity: Entity, np: nat, npf: nat)
    requires npmat != 0 ==> BlockSize(entity, np, npf) > 0 &&
                            cF.Length % BlockSize(entity, np, npf) == 0
    modifies cF
    ensures npmat == 0 ==> cF[..] == old(cF[..])
    ensures npmat != 0 ==> cF[..] == Expanded(old(cF[..]), BlockSize(entity, np, npf))
  {
    if npmat != 0 {
      var block: nat;
      if entity == Cell {
        block := np;
      } else if entity == Facet {
        block := npf;
      }
      ghost var m := cF.Length / block;
      assert cF.Length == m * block;
      var i := cF.Length - 1;
      while i >= 0
        invariant 0 <= m && i + 1 == m * block
        invariant forall t :: i < t < cF.Length ==> cF[t] == Expanded(old(cF[..]), block)[t]
        invariant forall t :: 0 <= t <= i ==> cF[t] == old(cF[t])
        decreases i + 1
      {
        ghost var lo := i + 1 - block;
        BlockStart(m, block);
        DivInBlock(m - 1, block, i);
        var ii := i / block;
        var C := cF[ii];
        var j := 0;
        while j < block
          invariant 0 <= j <= block
          invariant forall t :: i - j < t <= i ==> cF[t] == C
          invariant forall t :: i < t < cF.Length ==> cF[t] == Expanded(old(cF[..]), block)[t]
          invariant forall t :: 0 <= t <= i - j ==> cF[t] == old(cF[t])
        {
          cF[i - j] := C;
          j := j + 1;
        }
        forall t | lo <= t <= i
          ensures Expanded(old(cF[..]), block)[t] == C
        {
          DivInBlock(m - 1, block, t);
        }
        i := i - block;
        m := m - 1;
      }
      assert cF[..] == Expanded(old(cF[..]), block);
    }
  }
}
