/** The association of node numbers with the topological entities of the
    reference cell (`compute_entity_nodes`, `compute_vector_entity_nodes`):
    `entity_nodes[d][i]` lists the nodes owned by entity `(d, i)`. */
module EntityNodes {
  import opened Common
  import opened LagrangePoints

  /** `entity_nodes`: entity dimension -> entity number -> node numbers. */
  type EntityMap = map<nat, map<nat, seq<nat>>>

  /** A slice bound `k` clamped to a list of length `n`. */
  function Clamp(k: nat, n: nat): nat
  {
    if k <= n then k else n
  }

  /** The node numbers `a .. b-1` of a list of `n` numbers, as Python's
      slicing delivers them when `a` or `b` passes the end. */
  function Slice(n: nat, a: nat, b: nat): seq<nat>
  {
    Range(Clamp(a, n), Clamp(b, n))
  }

  /** One step of the walk `part = indices[:k]; indices = indices[k:]` over
      the numbers from `a` to `n`. */
  lemma SliceStep(n: nat, a: nat, k: nat)
    ensures Take(Range(Clamp(a, n), n), k) == Slice(n, a, a + k)
    ensures Drop(Range(Clamp(a, n), n), k) == Range(Clamp(a + k, n), n)
  {
    TakeRange(Clamp(a, n), n, k);
    DropRange(Clamp(a, n), n, k);
  }

  // ---------------------------------------------------------------------
  // Scalar numbering

  /** Where the nodes of edge `i` begin: after the `dim + 1` vertex nodes and
      the `degree - 1` nodes of each earlier edge. */
  function EdgeStart(dim: nat, degree: nat, i: nat): nat
    requires degree >= 1
  {
    if i == 0 then dim + 1 else EdgeStart(dim, degree, i - 1) + (degree - 1)
  }

  /** The closed form of the edge offsets. */
  lemma {:induction false} EdgeStartClosed(dim: nat, degree: nat, i: nat)
    requires degree >= 1
    ensures EdgeStart(dim, degree, i) == dim + 1 + i * (degree - 1)
  {
    if i > 0 {
      EdgeStartClosed(dim, degree, i - 1);
    }
  }

  /** Where the interior (cell) nodes begin. */
  function InteriorStart(dim: nat, degree: nat): nat
    requires dim <= 1 || degree >= 1
  {
    if dim > 1 then EdgeStart(dim, degree, dim + 1) else dim + 1
  }

  /** The vertex entry `{i: [i] for i in range(dim + 1)}`. */
  function VertexNodes(dim: nat): map<nat, seq<nat>>
  {
    map i: nat | i <= dim :: [i]
  }

  lemma EdgeStartNext(dim: nat, degree: nat, i: nat)
    requires degree >= 1
    ensures EdgeStart(dim, degree, i + 1) == EdgeStart(dim, degree, i) + (degree - 1)
  {
  }

  /** The nodes of edge `i`: `degree - 1` consecutive numbers. */
  function EdgeSlice(n: nat, dim: nat, degree: nat, i: nat): seq<nat>
    requires degree >= 1
  {
    Slice(n, EdgeStart(dim, degree, i), EdgeStart(dim, degree, i + 1))
  }

  /** The edge entry, edge by edge. */
  function EdgeNodes(n: nat, dim: nat, degree: nat): map<nat, seq<nat>>
    requires degree >= 1
  {
    map i: nat | i < dim + 1 :: EdgeSlice(n, dim, degree, i)
  }

  /** The closed form of what `compute_entity_nodes` builds for `n` points:
      vertices, then (for `dim > 1`) edges, then everything left over as the
      single cell entity `(dim, 0)`, which overwrites the vertex entry when
      `dim == 0`. */
  function EntityNodesSpec(n: nat, dim: nat, degree: nat): EntityMap
    requires dim <= 1 || degree >= 1
  {
    var interior := map[0 := Slice(n, InteriorStart(dim, degree), n)];
    if dim > 1 then
      map[0 := VertexNodes(dim), 1 := EdgeNodes(n, dim, degree), dim := interior]
    else
      map[0 := VertexNodes(dim)][dim := interior]
  }

  /** `compute_entity_nodes`: hands out the numbers `0 .. |points| - 1` in
      entity order, vertices first; only the number of points matters. */
  method ComputeEntityNodes<P>(points: seq<P>, dim: nat, degree: nat) returns (en: EntityMap)
    requires dim <= 1 || degree >= 1
    ensures en == EntityNodesSpec(|points|, dim, degree)
  {
    var n := |points|;
    var indices := Range(0, n);
    en := map[];
    en := en[0 := VertexNodes(dim)];
    DropRange(0, n, dim + 1);
    indices := Drop(indices, dim + 1);
    if dim > 1 {
      var edges;
      edges, indices := EdgeWalk(n, dim, degree, indices);
      en := en[1 := edges];
    }
    assert indices == Slice(n, InteriorStart(dim, degree), n);
    en := en[dim := map[0 := indices]];
  }

  /** One pass of the edge loop: the next `degree - 1` numbers are edge `i`'s
      slice, and the rest start where edge `i + 1` begins. */
  lemma EdgeWalkStep(n: nat, dim: nat, degree: nat, i: nat)
    requires degree >= 1
    ensures Take(Range(Clamp(EdgeStart(dim, degree, i), n), n), degree - 1) == EdgeSlice(n, dim, degree, i)
    ensures Drop(Range(Clamp(EdgeStart(dim, degree, i), n), n), degree - 1) ==
            Range(Clamp(EdgeStart(dim, degree, i + 1), n), n)
  {
    var a := EdgeStart(dim, degree, i);
    EdgeStartNext(dim, degree, i);
    assert EdgeSlice(n, dim, degree, i) == Slice(n, a, a + (degree - 1));
    SliceStep(n, a, degree - 1);
  }

  /** Adding edge `i` to the edges before it. */
  lemma EdgeMapStep(n: nat, dim: nat, degree: nat, i: nat)
    requires degree >= 1
    ensures (map k: nat | k < i :: EdgeSlice(n, dim, degree, k))[i := EdgeSlice(n, dim, degree, i)]
            == map k: nat | k < i + 1 :: EdgeSlice(n, dim, degree, k)
  {
  }

  /** The edge loop of `compute_entity_nodes`: `dim + 1` times, the next
      `degree - 1` numbers go to edge `i`. */
  method EdgeWalk(n: nat, dim: nat, degree: nat, indices0: seq<nat>)
    returns (edges: map<nat, seq<nat>>, indices: seq<nat>)
    requires dim > 1 && degree >= 1
    requires indices0 == Range(Clamp(EdgeStart(dim, degree, 0), n), n)
    ensures edges == EdgeNodes(n, dim, degree)
    ensures indices == Range(Clamp(EdgeStart(dim, degree, dim + 1), n), n)
  {
    var step := degree - 1;
    indices := indices0;
    edges := map[];
    var i := 0;
    while i < dim + 1
      invariant 0 <= i <= dim + 1
      invariant indices == Range(Clamp(EdgeStart(dim, degree, i), n), n)
      invariant edges == map k: nat | k < i :: EdgeSlice(n, dim, degree, k)
    {
      EdgeWalkStep(n, dim, degree, i);
      EdgeMapStep(n, dim, degree, i);
      edges := edges[i := Take(indices, step)];
      indices := Drop(indices, step);
      i := i + 1;
    }
  }

  // ---------------------------------------------------------------------
  // Vector numbering (two components per scalar node)

  /** Where the vector numbers of edge `i` begin: after `dim` numbers for
      each of the `dim + 1` vertices and `dim * (degree - 1)` for each earlier
      edge. */
  function VectorEdgeStart(dim: nat, degree: nat, i: nat): nat
    requires degree >= 1
  {
    if i == 0 then dim * (dim + 1) else VectorEdgeStart(dim, degree, i - 1) + dim * (degree - 1)
  }

  /** The closed form of the vector edge offsets. */
  lemma {:induction false} VectorEdgeStartClosed(dim: nat, degree: nat, i: nat)
    requires degree >= 1
    ensures VectorEdgeStart(dim, degree, i) == dim * (dim + 1) + i * (dim * (degree - 1))
  {
    if i > 0 {
      VectorEdgeStartClosed(dim, degree, i - 1);
    }
  }

  lemma VectorEdgeStartNext(dim: nat, degree: nat, i: nat)
    requires degree >= 1
    ensures VectorEdgeStart(dim, degree, i + 1) == VectorEdgeStart(dim, degree, i) + dim * (degree - 1)
  {
  }

  /** The vector numbers of edge `i`. */
  function VectorEdgeSlice(n: nat, dim: nat, degree: nat, i: nat): seq<nat>
    requires degree >= 1
  {
    Slice(dim * n, VectorEdgeStart(dim, degree, i), VectorEdgeStart(dim, degree, i + 1))
  }

  /** The vector edge entry, edge by edge. */
  function VectorEdgeNodes(n: nat, dim: nat, degree: nat): map<nat, seq<nat>>
    requires degree >= 1
  {
    map i: nat | i < dim + 1 :: VectorEdgeSlice(n, dim, degree, i)
  }

  /** Where the vector numbers of the cell interior begin. */
  function VectorInteriorStart(dim: nat, degree: nat): nat
    requires dim <= 1 || degree >= 1
  {
    if dim > 1 then VectorEdgeStart(dim, degree, dim + 1) else dim * (dim + 1)
  }

  /** Vertex `i` owns the numbers `dim * i` and `dim * i + 1`. */
  function VectorVertexPair(dim: nat, i: nat): seq<nat>
  {
    [dim * i, dim * i + 1]
  }

  /** The vector vertex entry. */
  function VectorVertexNodes(dim: nat): map<nat, seq<nat>>
  {
    map i: nat | i <= dim :: VectorVertexPair(dim, i)
  }

  /** The closed form of what `compute_vector_entity_nodes` builds for `n`
      points: the scalar numbering when `dim == 1`; otherwise vertex `i` owns
      `[dim * i, dim * i + 1]`, the edges follow (when `dim > 1`) and the cell
      owns what is left of the `dim * n` numbers. */
  function VectorEntityNodesSpec(n: nat, dim: nat, degree: nat): EntityMap
    requires dim <= 1 || degree >= 1
  {
    if dim == 1 then EntityNodesSpec(n, dim, degree)
    else
      var interior := map[0 := Slice(dim * n, VectorInteriorStart(dim, degree), dim * n)];
      if dim > 1 then
        map[0 := VectorVertexNodes(dim), 1 := VectorEdgeNodes(n, dim, degree), dim := interior]
      else
        map[0 := VectorVertexNodes(dim)][dim := interior]
  }

  /** `compute_vector_entity_nodes`: the scalar numbering on the interval,
      and otherwise the same walk over `dim * |points|` numbers. */
  method ComputeVectorEntityNodes<P>(points: seq<P>, dim: nat, degree: nat) returns (en: EntityMap)
    requires dim <= 1 || degree >= 1
    ensures en == VectorEntityNodesSpec(|points|, dim, degree)
  {
    if dim == 1 {
      en := ComputeEntityNodes(points, dim, degree);
      return;
    }
    var n := |points|;
    var total := dim * n;
    var indices := Range(0, total);
    en := map[];
    en := en[0 := VectorVertexNodes(dim)];
    DropRange(0, total, dim * (dim + 1));
    indices := Drop(indices, dim * (dim + 1));
    if dim > 1 {
      var edges;
      edges, indices := VectorEdgeWalk(n, dim, degree, indices);
      en := en[1 := edges];
    }
    assert indices == Slice(total, VectorInteriorStart(dim, degree), total);
    en := en[dim := map[0 := indices]];
  }

  /** One pass of the vector edge loop. */
  lemma VectorEdgeWalkStep(n: nat, dim: nat, degree: nat, i: nat)
    requires degree >= 1
    ensures Take(Range(Clamp(VectorEdgeStart(dim, degree, i), dim * n), dim * n), dim * (degree - 1)) ==
            VectorEdgeSlice(n, dim, degree, i)
    ensures Drop(Range(Clamp(VectorEdgeStart(dim, degree, i), dim * n), dim * n), dim * (degree - 1)) ==
            Range(Clamp(VectorEdgeStart(dim, degree, i + 1), dim * n), dim * n)
  {
    var a := VectorEdgeStart(dim, degree, i);
    VectorEdgeStartNext(dim, degree, i);
    assert VectorEdgeSlice(n, dim, degree, i) == Slice(dim * n, a, a + dim * (degree - 1));
    SliceStep(dim * n, a, dim * (degree - 1));
  }

  /** Adding vector edge `i` to the edges before it. */
  lemma VectorEdgeMapStep(n: nat, dim: nat, degree: nat, i: nat)
    requires degree >= 1
    ensures (map k: nat | k < i :: VectorEdgeSlice(n, dim, degree, k))[i := VectorEdgeSlice(n, dim, degree, i)]
            == map k: nat | k < i + 1 :: VectorEdgeSlice(n, dim, degree, k)
  {
  }

  /** The edge loop of `compute_vector_entity_nodes`: `dim + 1` times, the
      next `dim * (degree - 1)` numbers go to edge `i`. */
  method VectorEdgeWalk(n: nat, dim: nat, degree: nat, indices0: seq<nat>)
    returns (edges: map<nat, seq<nat>>, indices: seq<nat>)
    requires dim > 1 && degree >= 1
    requires indices0 == Range(Clamp(VectorEdgeStart(dim, degree, 0), dim * n), dim * n)
    ensures edges == VectorEdgeNodes(n, dim, degree)
    ensures indices == Range(Clamp(VectorEdgeStart(dim, degree, dim + 1), dim * n), dim * n)
  {
    var total := dim * n;
    var step := dim * (degree - 1);
    indices := indices0;
    edges := map[];
    var i := 0;
    while i < dim + 1
      invariant 0 <= i <= dim + 1
      invariant indices == Range(Clamp(VectorEdgeStart(dim, degree, i), total), total)
      invariant edges == map k: nat | k < i :: VectorEdgeSlice(n, dim, degree, k)
    {
      VectorEdgeWalkStep(n, dim, degree, i);
      VectorEdgeMapStep(n, dim, degree, i);
      edges := edges[i := Take(indices, step)];
      indices := Drop(indices, step);
      i := i + 1;
    }
  }

  // ---------------------------------------------------------------------
  // Properties of the numberings

  /** The entity keys `compute_entity_nodes` creates: dimensions `0`, `1`
      (only when `dim > 1`) and `dim`; vertices `0 .. dim` (unless the cell
      entry overwrote them); edges `0 .. dim`; and one cell entity `0`. */
  lemma EntityNodesKeys(n: nat, dim: nat, degree: nat)
    requires dim <= 1 || degree >= 1
    ensures var en := EntityNodesSpec(n, dim, degree);
            (forall e: nat :: e in en <==> e == 0 || e == dim || (e == 1 && dim > 1)) &&
            (forall k: nat :: k in en[dim] <==> k == 0) &&
            (dim > 0 ==> forall k: nat :: k in en[0] <==> k <= dim) &&
            (dim > 1 ==> forall k: nat :: k in en[1] <==> k <= dim)
  {
    var en := EntityNodesSpec(n, dim, degree);
    if dim > 0 {
      assert en[0] == VertexNodes(dim);
    }
    if dim > 1 {
      assert en[1] == EdgeNodes(n, dim, degree);
    }
  }

  /** The triangle numbering written out, for at least `3 * degree` points:
      vertex `k` owns node `k`, edge `k` the `degree - 1` nodes after the
      vertices and the earlier edges, and the cell the rest. */
  function TriangleNumbering(n: nat, degree: nat): EntityMap
    requires degree >= 1
  {
    var m := degree - 1;
    map[0 := map[0 := [0], 1 := [1], 2 := [2]], 1 := TriangleEdgeRow(m), 2 := TriangleCellRow(m, n)]
  }

  /** The cell owns everything after the three edges. */
  function TriangleCellRow(m: nat, n: nat): map<nat, seq<nat>>
  {
    map[0 := Range(3 + 3 * m, n)]
  }

  /** The three triangle edges with `m` nodes each, after the vertices. */
  function TriangleEdgeRow(m: nat): map<nat, seq<nat>>
  {
    map[0 := Range(3, 3 + m), 1 := Range(3 + m, 3 + 2 * m), 2 := Range(3 + 2 * m, 3 + 3 * m)]
  }

  lemma TriangleEntityNodes(n: nat, degree: nat)
    requires degree >= 1 && 3 * degree <= n
    ensures EntityNodesSpec(n, 2, degree) == TriangleNumbering(n, degree)
  {
    assert VertexNodes(2) == map[0 := [0], 1 := [1], 2 := [2]];
    TriangleEdgeNodes(n, degree);
    TriangleEdgeStarts(degree);
  }

  /** The triangle's edge offsets: `3`, `3 + m`, `3 + 2m`, and `3 + 3m` where
      the cell's nodes begin. */
  lemma TriangleEdgeStarts(degree: nat)
    requires degree >= 1
    ensures var m := degree - 1;
            EdgeStart(2, degree, 0) == 3 && EdgeStart(2, degree, 1) == 3 + m &&
            EdgeStart(2, degree, 2) == 3 + 2 * m && EdgeStart(2, degree, 3) == 3 + 3 * m
  {
    var m := degree - 1;
    assert EdgeStart(2, degree, 1) == 3 + m;
    assert EdgeStart(2, degree, 2) == 3 + 2 * m;
  }

  lemma TriangleEdgeNodes(n: nat, degree: nat)
    requires degree >= 1 && 3 * degree <= n
    ensures EdgeNodes(n, 2, degree) == TriangleEdgeRow(degree - 1)
  {
    var m := degree - 1;
    TriangleEdgeSlices(n, degree);
    var e := EdgeNodes(n, 2, degree);
    assert e.Keys == {0, 1, 2};
    assert e[0] == EdgeSlice(n, 2, degree, 0);
    assert e[1] == EdgeSlice(n, 2, degree, 1);
    assert e[2] == EdgeSlice(n, 2, degree, 2);
    ThreeEntries(e, Range(3, 3 + m), Range(3 + m, 3 + 2 * m), Range(3 + 2 * m, 3 + 3 * m));
  }

  lemma TriangleEdgeSlices(n: nat, degree: nat)
    requires degree >= 1 && 3 * degree <= n
    ensures var m := degree - 1;
            EdgeSlice(n, 2, degree, 0) == Range(3, 3 + m) &&
            EdgeSlice(n, 2, degree, 1) == Range(3 + m, 3 + 2 * m) &&
            EdgeSlice(n, 2, degree, 2) == Range(3 + 2 * m, 3 + 3 * m)
  {
    TriangleEdgeStarts(degree);
  }

  lemma ThreeEntries(f: map<nat, seq<nat>>, a: seq<nat>, b: seq<nat>, c: seq<nat>)
    requires f.Keys == {0, 1, 2} && f[0] == a && f[1] == b && f[2] == c
    ensures f == map[0 := a, 1 := b, 2 := c]
  {
  }

  /** On the triangle with at least `3 * degree` points (the vertex and edge
      nodes), node `t` belongs to entity `(e, k)` exactly when `t` lies in
      that entity's block of the node list. */
  lemma TriangleEntityMembers(n: nat, degree: nat, t: nat, e: nat, k: nat)
    requires degree >= 1 && 3 * degree <= n && t < n
    ensures var en := EntityNodesSpec(n, 2, degree);
            (e in en && k in en[e] && t in en[e][k]) <==> TriangleBlock(degree, t) == (e, k)
  {
    TriangleEntityNodes(n, degree);
    NumberingMembers(n, degree, t, e, k);
  }

  lemma NumberingMembers(n: nat, degree: nat, t: nat, e: nat, k: nat)
    requires degree >= 1 && 3 * degree <= n && t < n
    ensures var en := TriangleNumbering(n, degree);
            (e in en && k in en[e] && t in en[e][k]) <==> TriangleBlock(degree, t) == (e, k)
  {
    var m := degree - 1;
    var en := TriangleNumbering(n, degree);
    if e == 0 {
      assert en[0] == map[0 := [0], 1 := [1], 2 := [2]];
    } else if e == 1 {
      assert en[1] == TriangleEdgeRow(m);
      RangeMembers(3, 3 + m);
      RangeMembers(3 + m, 3 + 2 * m);
      RangeMembers(3 + 2 * m, 3 + 3 * m);
    } else if e == 2 {
      assert en[2] == TriangleCellRow(m, n);
      RangeMembers(3 + 3 * m, n);
    }
  }

  /** Listed in entity order, the triangle numbering hands out `0 .. n - 1`
      once each: the entity blocks partition the nodes. */
  lemma TriangleEntityOrder(n: nat, degree: nat)
    requires degree >= 1 && 3 * degree <= n
    ensures var en := EntityNodesSpec(n, 2, degree);
            en[0][0] + en[0][1] + en[0][2] + en[1][0] + en[1][1] + en[1][2] + en[2][0] == Range(0, n)
  {
    TriangleEntityNodes(n, degree);
    NumberingOrder(n, degree);
  }

  lemma NumberingOrder(n: nat, degree: nat)
    requires degree >= 1 && 3 * degree <= n
    ensures var en := TriangleNumbering(n, degree);
            en[0][0] + en[0][1] + en[0][2] + en[1][0] + en[1][1] + en[1][2] + en[2][0] == Range(0, n)
  {
    var m := degree - 1;
    var en := TriangleNumbering(n, degree);
    assert en[0][0] + en[0][1] + en[0][2] == Range(0, 3);
    assert en[1] == TriangleEdgeRow(m);
    assert en[2] == TriangleCellRow(m, n);
    RangeBlocks(en[0][0] + en[0][1] + en[0][2], 3, 3 + m, 3 + 2 * m, 3 + 3 * m, n);
  }

  /** The vertex numbers `0 .. s - 1` followed by four consecutive blocks
      make up `0 .. n - 1`. */
  lemma RangeBlocks(v: seq<nat>, s: nat, b1: nat, b2: nat, b3: nat, n: nat)
    requires v == Range(0, s) && s <= b1 <= b2 <= b3 <= n
    ensures v + Range(s, b1) + Range(b1, b2) + Range(b2, b3) + Range(b3, n) == Range(0, n)
  {
    RangeSplit4(s, b1, b2, b3, n);
    RangeSplit(0, s, n);
  }

  lemma RangeSplit4(a: nat, b: nat, c: nat, d: nat, e: nat)
    requires a <= b <= c <= d <= e
    ensures Range(a, e) == Range(a, b) + Range(b, c) + Range(c, d) + Range(d, e)
  {
    RangeSplit(a, b, e);
    RangeSplit(b, c, e);
    RangeSplit(c, d, e);
  }

  /** On the interval with at least two points, node `t` belongs to a vertex
      when `t < 2` and to the cell otherwise. */
  lemma IntervalEntityMembers(n: nat, degree: nat, t: nat, e: nat, k: nat)
    requires 2 <= n && t < n
    ensures var en := EntityNodesSpec(n, 1, degree);
            (e in en && k in en[e] && t in en[e][k]) <==> (if t < 2 then (0, t) else (1, 0)) == (e, k)
  {
    RangeMembers(2, n);
  }

  lemma IntervalEntityOrder(n: nat, degree: nat)
    requires 2 <= n
    ensures var en := EntityNodesSpec(n, 1, degree);
            en[0][0] + en[0][1] + en[1][0] == Range(0, n)
  {
    RangeCons(1, n);
    RangeCons(0, n);
  }

  /** Component `c` of scalar number `a` becomes vector number `2 * a + c`. */
  function Expand(s: seq<nat>): (r: seq<nat>)
    ensures |r| == 2 * |s|
  {
    if s == [] then [] else [2 * s[0], 2 * s[0] + 1] + Expand(s[1..])
  }

  lemma {:induction false} ExpandRange(a: nat, b: nat)
    requires a <= b
    ensures Expand(Range(a, b)) == Range(2 * a, 2 * b)
    decreases b - a
  {
    if a < b {
      RangeCons(a, b);
      assert Range(a, b)[1..] == Range(a + 1, b);
      ExpandRange(a + 1, b);
      RangeCons(2 * a, 2 * b);
      RangeCons(2 * a + 1, 2 * b);
    }
  }

  /** Every list of one entity dimension passed through `Expand`. */
  function ExpandEntities(row: map<nat, seq<nat>>): (r: map<nat, seq<nat>>)
    ensures r.Keys == row.Keys
    ensures forall k :: k in row ==> r[k] == Expand(row[k])
  {
    map k | k in row :: Expand(row[k])
  }

  /** Every list of a numbering passed through `Expand`. */
  function ExpandAll(en: EntityMap): (r: EntityMap)
    ensures r.Keys == en.Keys
    ensures forall e :: e in en ==> r[e] == ExpandEntities(en[e])
  {
    map e | e in en :: ExpandEntities(en[e])
  }

  /** The vector triangle numbering written out, for at least `3 * degree`
      points. */
  function VectorTriangleNumbering(n: nat, degree: nat): EntityMap
    requires degree >= 1
  {
    var m := degree - 1;
    map[0 := map[0 := [0, 1], 1 := [2, 3], 2 := [4, 5]], 1 := VectorTriangleEdgeRow(m),
        2 := VectorTriangleCellRow(m, n)]
  }

  function VectorTriangleCellRow(m: nat, n: nat): map<nat, seq<nat>>
  {
    map[0 := Range(6 + 6 * m, 2 * n)]
  }

  /** The three triangle edges with `2 * m` vector numbers each. */
  function VectorTriangleEdgeRow(m: nat): map<nat, seq<nat>>
  {
    map[0 := Range(6, 6 + 2 * m), 1 := Range(6 + 2 * m, 6 + 4 * m), 2 := Range(6 + 4 * m, 6 + 6 * m)]
  }

  lemma VectorTriangleEntityNodes(n: nat, degree: nat)
    requires degree >= 1 && 3 * degree <= n
    ensures VectorEntityNodesSpec(n, 2, degree) == VectorTriangleNumbering(n, degree)
  {
    assert VectorVertexNodes(2) == map[0 := [0, 1], 1 := [2, 3], 2 := [4, 5]];
    VectorTriangleEdgeNodes(n, degree);
    VectorTriangleEdgeStarts(degree);
  }

  /** The triangle's vector edge offsets: `6`, `6 + 2m`, `6 + 4m`, and
      `6 + 6m` where the cell's numbers begin. */
  lemma VectorTriangleEdgeStarts(degree: nat)
    requires degree >= 1
    ensures var m := degree - 1;
            VectorEdgeStart(2, degree, 0) == 6 && VectorEdgeStart(2, degree, 1) == 6 + 2 * m &&
            VectorEdgeStart(2, degree, 2) == 6 + 4 * m && VectorEdgeStart(2, degree, 3) == 6 + 6 * m
  {
    var m := degree - 1;
    assert VectorEdgeStart(2, degree, 1) == 6 + 2 * m;
    assert VectorEdgeStart(2, degree, 2) == 6 + 4 * m;
  }

  lemma VectorTriangleEdgeNodes(n: nat, degree: nat)
    requires degree >= 1 && 3 * degree <= n
    ensures VectorEdgeNodes(n, 2, degree) == VectorTriangleEdgeRow(degree - 1)
  {
    var m := degree - 1;
    VectorTriangleEdgeSlices(n, degree);
    var e := VectorEdgeNodes(n, 2, degree);
    assert e.Keys == {0, 1, 2};
    assert e[0] == VectorEdgeSlice(n, 2, degree, 0);
    assert e[1] == VectorEdgeSlice(n, 2, degree, 1);
    assert e[2] == VectorEdgeSlice(n, 2, degree, 2);
    ThreeEntries(e, Range(6, 6 + 2 * m), Range(6 + 2 * m, 6 + 4 * m), Range(6 + 4 * m, 6 + 6 * m));
  }

  lemma VectorTriangleEdgeSlices(n: nat, degree: nat)
    requires degree >= 1 && 3 * degree <= n
    ensures var m := degree - 1;
            VectorEdgeSlice(n, 2, degree, 0) == Range(6, 6 + 2 * m) &&
            VectorEdgeSlice(n, 2, degree, 1) == Range(6 + 2 * m, 6 + 4 * m) &&
            VectorEdgeSlice(n, 2, degree, 2) == Range(6 + 4 * m, 6 + 6 * m)
  {
    VectorTriangleEdgeStarts(degree);
  }

  lemma ExpandTriangleNumbering(n: nat, degree: nat)
    requires degree >= 1 && 3 * degree <= n
    ensures ExpandAll(TriangleNumbering(n, degree)) == VectorTriangleNumbering(n, degree)
  {
    var m := degree - 1;
    ExpandVertexRow();
    ExpandEdgeRow(m);
    ExpandCellRow(m, n);
    ExpandThree(map[0 := [0], 1 := [1], 2 := [2]], TriangleEdgeRow(m), TriangleCellRow(m, n));
  }

  lemma ExpandThree(a: map<nat, seq<nat>>, b: map<nat, seq<nat>>, c: map<nat, seq<nat>>)
    ensures ExpandAll(map[0 := a, 1 := b, 2 := c]) ==
            map[0 := ExpandEntities(a), 1 := ExpandEntities(b), 2 := ExpandEntities(c)]
  {
  }

  lemma ExpandCellRow(m: nat, n: nat)
    requires 3 + 3 * m <= n
    ensures ExpandEntities(TriangleCellRow(m, n)) == VectorTriangleCellRow(m, n)
  {
    ExpandRange(3 + 3 * m, n);
  }

  lemma ExpandVertexRow()
    ensures ExpandEntities(map[0 := [0], 1 := [1], 2 := [2]]) == map[0 := [0, 1], 1 := [2, 3], 2 := [4, 5]]
  {
    assert Expand([0]) == [0, 1] && Expand([1]) == [2, 3] && Expand([2]) == [4, 5];
  }

  lemma ExpandEdgeRow(m: nat)
    ensures ExpandEntities(TriangleEdgeRow(m)) == VectorTriangleEdgeRow(m)
  {
    ExpandRange(3, 3 + m);
    ExpandRange(3 + m, 3 + 2 * m);
    ExpandRange(3 + 2 * m, 3 + 3 * m);
  }

  /** On the triangle, the vector numbering is the scalar numbering with every
      node split into its two components: the same entities, and the list of
      entity `(e, k)` is the scalar list with each `a` replaced by `2 * a,
      2 * a + 1`. */
  lemma TriangleVectorExpands(n: nat, degree: nat)
    requires degree >= 1 && 3 * degree <= n
    ensures VectorEntityNodesSpec(n, 2, degree) == ExpandAll(EntityNodesSpec(n, 2, degree))
  {
    TriangleEntityNodes(n, degree);
    VectorTriangleEntityNodes(n, degree);
    ExpandTriangleNumbering(n, degree);
  }

  /** Listed in entity order, the vector triangle numbering hands out
      `0 .. 2 * n - 1` once each. */
  lemma VectorTriangleEntityOrder(n: nat, degree: nat)
    requires degree >= 1 && 3 * degree <= n
    ensures var en := VectorEntityNodesSpec(n, 2, degree);
            en[0][0] + en[0][1] + en[0][2] + en[1][0] + en[1][1] + en[1][2] + en[2][0] == Range(0, 2 * n)
  {
    VectorTriangleEntityNodes(n, degree);
    VectorNumberingOrder(n, degree);
  }

  lemma VectorNumberingOrder(n: nat, degree: nat)
    requires degree >= 1 && 3 * degree <= n
    ensures var en := VectorTriangleNumbering(n, degree);
            en[0][0] + en[0][1] + en[0][2] + en[1][0] + en[1][1] + en[1][2] + en[2][0] == Range(0, 2 * n)
  {
    var m := degree - 1;
    var en := VectorTriangleNumbering(n, degree);
    assert en[0][0] + en[0][1] + en[0][2] == Range(0, 6);
    assert en[1] == VectorTriangleEdgeRow(m);
    assert en[2] == VectorTriangleCellRow(m, n);
    RangeBlocks(en[0][0] + en[0][1] + en[0][2], 6, 6 + 2 * m, 6 + 4 * m, 6 + 6 * m, 2 * n);
  }

  /** On the interval the vector numbering is the scalar one. */
  lemma IntervalVectorIsScalar(n: nat, degree: nat)
    ensures VectorEntityNodesSpec(n, 1, degree) == EntityNodesSpec(n, 1, degree)
  {
  }
}
