/** The node generator `lagrange_points`: equispaced nodes on the reference
    interval or triangle, listed entity by entity (vertices, then the three
    edges, then the face interior).

    Triangle nodes are built on the integer lattice `{(i, j) | i + j <= degree}`
    and divided by the degree only at the end; the model keeps both forms. */
module LagrangePoints {
  import opened Common

  /** A triangle node before the division by the degree. */
  type LatticePoint = (nat, nat)

  /** `[x for x in range(1, degree)]` */
  function Interior(degree: nat): seq<nat>
  {
    Range(1, degree)
  }

  /** `[0 for x in range(1, degree)]` */
  function Zeros(degree: nat): seq<nat>
  {
    seq(|Interior(degree)|, _ => 0)
  }

  function TriangleVertices(degree: nat): seq<LatticePoint>
  {
    [(0, 0), (degree, 0), (0, degree)]
  }

  /** The three edge blocks, as the source zips them together. */
  function TriangleEdges(degree: nat): seq<LatticePoint>
  {
    var interior := Interior(degree);
    Zip(Reverse(interior) + Zeros(degree) + interior, interior + interior + Zeros(degree))
  }

  /** The points `(i, j)` for `j` in `js` (in that order) with `i + j < degree`. */
  function FaceRow(i: nat, js: seq<nat>, degree: nat): seq<LatticePoint>
  {
    if js == [] then []
    else (if i + js[0] < degree then [(i, js[0])] else []) + FaceRow(i, js[1..], degree)
  }

  /** `[(i, j) for i in ivals for j in js if i + j < degree]` */
  function FaceRows(ivals: seq<nat>, js: seq<nat>, degree: nat): seq<LatticePoint>
  {
    if ivals == [] then [] else FaceRow(ivals[0], js, degree) + FaceRows(ivals[1..], js, degree)
  }

  function TriangleFaces(degree: nat): seq<LatticePoint>
  {
    FaceRows(Interior(degree), Interior(degree), degree)
  }

  /** `vertices + edges + faces` (finite_elements.py:33), before `/ degree`. */
  function TriangleLattice(degree: nat): seq<LatticePoint>
  {
    TriangleVertices(degree) + TriangleEdges(degree) + TriangleFaces(degree)
  }

  /** The interval branch (finite_elements.py:24): the two end points, then
      `i / degree` for `i = 1 .. degree - 1`. */
  function IntervalPoints(degree: nat): seq<seq<real>>
  {
    var interior := Interior(degree);
    [[0.0], [1.0]] + seq(|interior|, t requires 0 <= t < |interior| =>
                           [interior[t] as real / degree as real])
  }

  /** The triangle branch: the lattice divided by the degree. */
  function TrianglePoints(degree: nat): seq<seq<real>>
    requires degree >= 1
  {
    Scaled(TriangleLattice(degree), degree)
  }

  /** `indices / degree`: each lattice point divided by the degree. */
  function Scaled(lattice: seq<LatticePoint>, degree: nat): (r: seq<seq<real>>)
    requires degree >= 1
    ensures |r| == |lattice|
    ensures forall t :: 0 <= t < |r| ==> |r[t]| == 2
  {
    seq(|lattice|, t requires 0 <= t < |lattice| =>
          [lattice[t].0 as real / degree as real, lattice[t].1 as real / degree as real])
  }

  /** `lagrange_points(cell, degree)`; every cell that is not an interval takes
      the triangle branch. Only the triangle branch divides by the degree. */
  function LagrangePoints(dim: nat, degree: nat): seq<seq<real>>
    requires dim == 1 || degree >= 1
  {
    if dim == 1 then IntervalPoints(degree) else TrianglePoints(degree)
  }

  // ---------------------------------------------------------------------
  // Geometry of the reference cells

  /** The lattice points of the reference triangle scaled by `degree`. */
  predicate InTriangle(degree: nat, p: LatticePoint)
  {
    p.0 + p.1 <= degree
  }

  /** The entity `(entity dimension, local index)` of the scaled triangle that
      owns lattice point `p`: a vertex, the relative interior of an edge, or
      the face. Edge `e` is the edge opposite vertex `e`. */
  function TriangleOwner(degree: nat, p: LatticePoint): (nat, nat)
  {
    if p == (0, 0) then (0, 0)
    else if p == (degree, 0) then (0, 1)
    else if p == (0, degree) then (0, 2)
    else if p.0 + p.1 == degree then (1, 0)
    else if p.0 == 0 then (1, 1)
    else if p.1 == 0 then (1, 2)
    else (2, 0)
  }

  /** The entity owning a point of the reference interval `[0, 1]`. */
  function IntervalOwner(x: real): (nat, nat)
  {
    if x == 0.0 then (0, 0) else if x == 1.0 then (0, 1) else (1, 0)
  }

  /** The entity whose block of the triangle node list holds position `idx`:
      three vertices, three edge blocks of `degree - 1`, then the face. */
  function TriangleBlock(degree: nat, idx: nat): (nat, nat)
    requires degree >= 1
  {
    if idx < 3 then (0, idx)
    else if idx < 3 + (degree - 1) then (1, 0)
    else if idx < 3 + 2 * (degree - 1) then (1, 1)
    else if idx < 3 + 3 * (degree - 1) then (1, 2)
    else (2, 0)
  }

  /** Row-major (lexicographic) order on lattice points. */
  predicate LexLess(p: LatticePoint, q: LatticePoint)
  {
    p.0 < q.0 || (p.0 == q.0 && p.1 < q.1)
  }

  ghost predicate LexSorted(s: seq<LatticePoint>)
  {
    forall a, b :: 0 <= a < b < |s| ==> LexLess(s[a], s[b])
  }

  // ---------------------------------------------------------------------
  // Interval

  /** For the interval, the nodes are `0`, `1`, then `i / degree` for
      `i = 1 .. degree - 1` in increasing order: `degree + 1` nodes, the
      interior ones strictly between the end points. */
  lemma IntervalNodes(degree: nat)
    requires degree >= 1
    ensures |IntervalPoints(degree)| == degree + 1
    ensures IntervalPoints(degree)[0] == [0.0] && IntervalPoints(degree)[1] == [1.0]
    ensures forall k :: 2 <= k <= degree ==>
              IntervalPoints(degree)[k] == [(k - 1) as real / degree as real]
    ensures forall k :: 2 <= k <= degree ==>
              0.0 < IntervalPoints(degree)[k][0] < 1.0
    ensures forall a, b :: 2 <= a < b <= degree ==>
              IntervalPoints(degree)[a][0] < IntervalPoints(degree)[b][0]
  {
    var P := IntervalPoints(degree);
    forall k | 2 <= k <= degree
      ensures 0.0 < P[k][0] < 1.0
    {
      DivStrictlyBetween(k - 1, degree);
    }
    forall a, b | 2 <= a < b <= degree
      ensures P[a][0] < P[b][0]
    {
      DivMonotone(a - 1, b - 1, degree);
    }
  }

  lemma DivStrictlyBetween(i: nat, d: nat)
    requires 0 < i < d
    ensures 0.0 < i as real / d as real < 1.0
  {
  }

  lemma DivMonotone(i: nat, j: nat, d: nat)
    requires i < j && d > 0
    ensures i as real / d as real < j as real / d as real
  {
    assert (j as real - i as real) / d as real > 0.0;
  }

  /** Each interval node lies on the entity of its position: the two vertices
      first, then the interior points of the cell. */
  lemma IntervalNodeOwner(degree: nat, idx: nat)
    requires degree >= 1 && idx <= degree
    ensures IntervalOwner(IntervalPoints(degree)[idx][0]) == (if idx < 2 then (0, idx) else (1, 0))
  {
    IntervalNodes(degree);
  }

  /** No interval node is listed twice. */
  lemma IntervalPointsDistinct(degree: nat)
    requires degree >= 1
    ensures Distinct(IntervalPoints(degree))
  {
    var P := IntervalPoints(degree);
    IntervalNodes(degree);
    forall a, b | 0 <= a < |P| && 0 <= b < |P| && a != b
      ensures P[a] != P[b]
    {
      if a >= 2 && b >= 2 {
        if a < b { DivMonotone(a - 1, b - 1, degree); } else { DivMonotone(b - 1, a - 1, degree); }
      }
      assert P[a][0] != P[b][0];
    }
  }

  // ---------------------------------------------------------------------
  // Triangle edges

  /** Edge block 0 is `(degree - k, k)` on `x + y = degree`, block 1 is `(0, k)`,
      block 2 is `(k, 0)`, each for `k = 1 .. degree - 1` in that order. */
  lemma TriangleEdgesAt(degree: nat, t: nat)
    requires t + 1 < degree
    ensures |TriangleEdges(degree)| == 3 * (degree - 1)
    ensures TriangleEdges(degree)[t] == (degree - (t + 1), t + 1)
    ensures TriangleEdges(degree)[(degree - 1) + t] == (0, t + 1)
    ensures TriangleEdges(degree)[2 * (degree - 1) + t] == (t + 1, 0)
  {
    var interior := Interior(degree);
    var xs := Reverse(interior) + Zeros(degree) + interior;
    var ys := interior + interior + Zeros(degree);
    assert xs[t] == degree - (t + 1) && ys[t] == t + 1;
    assert xs[(degree - 1) + t] == 0 && ys[(degree - 1) + t] == t + 1;
    assert xs[2 * (degree - 1) + t] == t + 1 && ys[2 * (degree - 1) + t] == 0;
  }

  lemma TriangleEdgesLength(degree: nat)
    requires degree >= 1
    ensures |TriangleEdges(degree)| == 3 * (degree - 1)
  {
  }

  // ---------------------------------------------------------------------
  // Triangle face

  lemma {:induction false} FaceRowMembers(i: nat, js: seq<nat>, degree: nat)
    ensures forall p :: p in FaceRow(i, js, degree) <==> p.0 == i && p.1 in js && i + p.1 < degree
  {
    if js != [] {
      FaceRowMembers(i, js[1..], degree);
      assert js == [js[0]] + js[1..];
    }
  }

  lemma {:induction false} FaceRowsMembers(ivals: seq<nat>, js: seq<nat>, degree: nat)
    ensures forall p :: p in FaceRows(ivals, js, degree) <==> p.0 in ivals && p.1 in js && p.0 + p.1 < degree
  {
    if ivals != [] {
      FaceRowMembers(ivals[0], js, degree);
      FaceRowsMembers(ivals[1..], js, degree);
      assert ivals == [ivals[0]] + ivals[1..];
    }
  }

  /** The face points are exactly the lattice points `(i, j)` with `i, j >= 1`
      and `i + j < degree`. */
  lemma TriangleFacesMembers(degree: nat)
    ensures forall p :: p in TriangleFaces(degree) <==> p.0 >= 1 && p.1 >= 1 && p.0 + p.1 < degree
  {
    FaceRowsMembers(Interior(degree), Interior(degree), degree);
    forall x: nat ensures x in Interior(degree) <==> 1 <= x < degree {
      if 1 <= x < degree { assert Interior(degree)[x - 1] == x; }
    }
  }

  lemma LexSortedConcat(s: seq<LatticePoint>, u: seq<LatticePoint>)
    requires LexSorted(s) && LexSorted(u)
    requires forall p, q :: p in s && q in u ==> LexLess(p, q)
    ensures LexSorted(s + u)
  {
    var w := s + u;
    forall a, b | 0 <= a < b < |w| ensures LexLess(w[a], w[b]) {
      if a < |s| && b >= |s| {
        assert w[a] in s && w[b] in u;
      }
    }
  }

  lemma {:induction false} FaceRowSorted(i: nat, js: seq<nat>, degree: nat)
    requires Increasing(js)
    ensures LexSorted(FaceRow(i, js, degree))
  {
    if js != [] {
      FaceRowSorted(i, js[1..], degree);
      FaceRowMembers(i, js[1..], degree);
      var head: seq<LatticePoint> := if i + js[0] < degree then [(i, js[0])] else [];
      forall p, q | p in head && q in FaceRow(i, js[1..], degree) ensures LexLess(p, q) {
        var k :| 0 <= k < |js[1..]| && js[1..][k] == q.1;
        assert js[0] < js[k + 1];
      }
      LexSortedConcat(head, FaceRow(i, js[1..], degree));
    }
  }

  lemma {:induction false} FaceRowsSorted(ivals: seq<nat>, js: seq<nat>, degree: nat)
    requires Increasing(ivals) && Increasing(js)
    ensures LexSorted(FaceRows(ivals, js, degree))
  {
    if ivals != [] {
      FaceRowSorted(ivals[0], js, degree);
      FaceRowsSorted(ivals[1..], js, degree);
      FaceRowMembers(ivals[0], js, degree);
      FaceRowsMembers(ivals[1..], js, degree);
      forall p, q | p in FaceRow(ivals[0], js, degree) && q in FaceRows(ivals[1..], js, degree)
        ensures LexLess(p, q)
      {
        var k :| 0 <= k < |ivals[1..]| && ivals[1..][k] == q.0;
        assert ivals[0] < ivals[k + 1];
      }
      LexSortedConcat(FaceRow(ivals[0], js, degree), FaceRows(ivals[1..], js, degree));
    }
  }

  /** The face points come in row-major order: by `i`, then by `j`. */
  lemma TriangleFacesRowMajor(degree: nat)
    ensures LexSorted(TriangleFaces(degree))
  {
    FaceRowsSorted(Interior(degree), Interior(degree), degree);
  }

  lemma {:induction false} FaceRowLength(i: nat, a: nat, degree: nat)
    requires 1 <= i && a <= degree
    ensures |FaceRow(i, Range(a, degree), degree)| == if a + i < degree then degree - i - a else 0
    decreases degree - a
  {
    if a < degree {
      RangeCons(a, degree);
      assert Range(a, degree)[1..] == Range(a + 1, degree);
      FaceRowLength(i, a + 1, degree);
    }
  }

  lemma {:induction false} FaceRowsLength(a: nat, degree: nat)
    requires 1 <= a <= degree
    ensures 2 * |FaceRows(Range(a, degree), Interior(degree), degree)| == (degree - 1 - a) * (degree - a)
    decreases degree - a
  {
    if a < degree {
      RangeCons(a, degree);
      assert Range(a, degree)[1..] == Range(a + 1, degree);
      FaceRowLength(a, 1, degree);
      FaceRowsLength(a + 1, degree);
    }
  }

  /** There are `(degree - 1)(degree - 2) / 2` face points. */
  lemma TriangleFacesLength(degree: nat)
    requires degree >= 1
    ensures 2 * |TriangleFaces(degree)| == (degree - 1) * (degree - 2)
  {
    FaceRowsLength(1, degree);
  }

  // ---------------------------------------------------------------------
  // The whole triangle node list

  /** The triangle has `(degree + 1)(degree + 2) / 2` nodes, the first three
      being its vertices `(0, 0), (degree, 0), (0, degree)`. */
  lemma TriangleNodeCount(degree: nat)
    requires degree >= 1
    ensures |TriangleLattice(degree)| == (degree + 1) * (degree + 2) / 2
    ensures TriangleLattice(degree)[..3] == [(0, 0), (degree, 0), (0, degree)]
  {
    TriangleEdgesLength(degree);
    TriangleFacesLength(degree);
    var L := TriangleLattice(degree);
    assert |L| == 3 + 3 * (degree - 1) + |TriangleFaces(degree)|;
    assert 2 * |L| == (degree + 1) * (degree + 2);
  }

  /** Position `idx` of the node list falls in the vertex, edge or face part. */
  lemma TriangleLatticeAt(degree: nat, idx: nat)
    requires degree >= 1 && idx < |TriangleLattice(degree)|
    ensures var m := degree - 1;
            TriangleLattice(degree)[idx] ==
              if idx < 3 then TriangleVertices(degree)[idx]
              else if idx < 3 + 3 * m then TriangleEdges(degree)[idx - 3]
              else TriangleFaces(degree)[idx - 3 - 3 * m]
  {
    TriangleEdgesLength(degree);
  }

  lemma EdgeOwner(degree: nat, e: nat)
    requires degree >= 2 && e < 3 * (degree - 1)
    ensures InTriangle(degree, TriangleEdges(degree)[e])
    ensures TriangleOwner(degree, TriangleEdges(degree)[e]) == TriangleBlock(degree, 3 + e)
  {
    EdgePosition(degree, e);
  }

  lemma FaceOwner(degree: nat, p: LatticePoint)
    requires p in TriangleFaces(degree)
    ensures InTriangle(degree, p) && TriangleOwner(degree, p) == (2, 0)
  {
    TriangleFacesMembers(degree);
  }

  /** Every node lies in the scaled triangle, on the entity whose block of the
      list holds its position. */
  lemma TriangleNodeOwner(degree: nat, idx: nat)
    requires degree >= 1 && idx < |TriangleLattice(degree)|
    ensures InTriangle(degree, TriangleLattice(degree)[idx])
    ensures TriangleOwner(degree, TriangleLattice(degree)[idx]) == TriangleBlock(degree, idx)
  {
    var m := degree - 1;
    TriangleLatticeAt(degree, idx);
    TriangleEdgesLength(degree);
    if 3 <= idx < 3 + 3 * m {
      EdgeOwner(degree, idx - 3);
    } else if idx >= 3 + 3 * m {
      FaceOwner(degree, TriangleFaces(degree)[idx - 3 - 3 * m]);
    }
  }

  /** No triangle node is listed twice. */
  lemma TriangleLatticeDistinct(degree: nat)
    requires degree >= 1
    ensures Distinct(TriangleLattice(degree))
  {
    var L := TriangleLattice(degree);
    forall a, b | 0 <= a < |L| && 0 <= b < |L| && a != b
      ensures L[a] != L[b]
    {
      TriangleNodeOwner(degree, a);
      TriangleNodeOwner(degree, b);
      if TriangleBlock(degree, a) == TriangleBlock(degree, b) {
        if a < b { SameBlockDistinct(degree, a, b); } else { SameBlockDistinct(degree, b, a); }
      }
    }
  }

  /** Two positions in the same block hold different points. */
  lemma SameBlockDistinct(degree: nat, a: nat, b: nat)
    requires degree >= 1 && a < b < |TriangleLattice(degree)|
    requires TriangleBlock(degree, a) == TriangleBlock(degree, b)
    ensures TriangleLattice(degree)[a] != TriangleLattice(degree)[b]
  {
    var m := degree - 1;
    TriangleLatticeAt(degree, a);
    TriangleLatticeAt(degree, b);
    if a >= 3 + 3 * m {
      TriangleFacesRowMajor(degree);
      var faces := TriangleFaces(degree);
      assert LexLess(faces[a - 3 - 3 * m], faces[b - 3 - 3 * m]);
    } else if a >= 3 {
      EdgePosition(degree, a - 3);
      EdgePosition(degree, b - 3);
    }
  }

  /** A position in the edge blocks identifies its point. */
  lemma EdgePosition(degree: nat, e: nat)
    requires degree >= 2 && e < 3 * (degree - 1)
    ensures var m := degree - 1;
            e < m ==> TriangleEdges(degree)[e] == (degree - (e + 1), e + 1)
    ensures var m := degree - 1;
            m <= e < 2 * m ==> TriangleEdges(degree)[e] == (0, e - m + 1)
    ensures var m := degree - 1;
            2 * m <= e ==> TriangleEdges(degree)[e] == (e - 2 * m + 1, 0)
  {
    var m := degree - 1;
    if e < m { TriangleEdgesAt(degree, e); }
    else if e < 2 * m { TriangleEdgesAt(degree, e - m); }
    else { TriangleEdgesAt(degree, e - 2 * m); }
  }

  /** Every lattice point of the scaled triangle is a node: nothing is omitted. */
  lemma TriangleLatticeComplete(degree: nat, p: LatticePoint)
    requires degree >= 1 && InTriangle(degree, p)
    ensures p in TriangleLattice(degree)
  {
    if p == (0, 0) || p == (degree, 0) || p == (0, degree) {
      VertexInLattice(degree, p);
    } else if p.0 == 0 || p.1 == 0 || p.0 + p.1 == degree {
      EdgeInLattice(degree, p);
    } else {
      FacesInLattice(degree, p);
    }
  }

  lemma VertexInLattice(degree: nat, p: LatticePoint)
    requires p == (0, 0) || p == (degree, 0) || p == (0, degree)
    ensures p in TriangleLattice(degree)
  {
    var L := TriangleLattice(degree);
    assert L[0] == (0, 0) && L[1] == (degree, 0) && L[2] == (0, degree);
  }

  /** A point on an edge but not a vertex is in the lattice. */
  lemma EdgeInLattice(degree: nat, p: LatticePoint)
    requires p.0 + p.1 <= degree
    requires p.0 == 0 || p.1 == 0 || p.0 + p.1 == degree
    requires p != (0, 0) && p != (degree, 0) && p != (0, degree)
    ensures p in TriangleLattice(degree)
  {
    var E := TriangleEdges(degree);
    var k := if p.0 + p.1 == degree || p.0 == 0 then p.1 else p.0;
    TriangleEdgesAt(degree, k - 1);
    var idx := if p.0 + p.1 == degree then k - 1
               else if p.0 == 0 then (degree - 1) + (k - 1)
               else 2 * (degree - 1) + (k - 1);
    assert E[idx] == p;
    assert TriangleLattice(degree) == (TriangleVertices(degree) + E) + TriangleFaces(degree);
  }

  lemma FacesInLattice(degree: nat, p: LatticePoint)
    requires p.0 >= 1 && p.1 >= 1 && p.0 + p.1 < degree
    ensures p in TriangleLattice(degree)
  {
    TriangleFacesMembers(degree);
    var F := TriangleFaces(degree);
    assert p in F;
    assert TriangleLattice(degree) == (TriangleVertices(degree) + TriangleEdges(degree)) + F;
  }

  /** After the division by the degree there are still
      `(degree + 1)(degree + 2) / 2` triangle nodes, the first three being the
      vertices `(0,0), (1,0), (0,1)` of the unit reference triangle. */
  lemma TriangleVertexPoints(degree: nat)
    requires degree >= 1
    ensures |TrianglePoints(degree)| == (degree + 1) * (degree + 2) / 2
    ensures TrianglePoints(degree)[..3] == [[0.0, 0.0], [1.0, 0.0], [0.0, 1.0]]
  {
    var P := TrianglePoints(degree);
    var L := TriangleLattice(degree);
    TriangleNodeCount(degree);
    assert L[0] == (0, 0) && L[1] == (degree, 0) && L[2] == (0, degree);
    ScaledPoint(degree, 0, 0, 0);
    ScaledPoint(degree, 1, degree, 0);
    ScaledPoint(degree, 2, 0, degree);
  }

  /** The real point of lattice point number `t`, when that lattice point is
      `(i, j)` with each coordinate `0` or `degree`. */
  lemma ScaledPoint(degree: nat, t: nat, i: nat, j: nat)
    requires degree >= 1 && t < |TriangleLattice(degree)|
    requires TriangleLattice(degree)[t] == (i, j)
    requires (i == 0 || i == degree) && (j == 0 || j == degree)
    ensures TrianglePoints(degree)[t] ==
              [if i == 0 then 0.0 else 1.0, if j == 0 then 0.0 else 1.0]
  {
    ScaledCorner(TriangleLattice(degree), degree, t);
  }

  lemma ScaledCorner(lattice: seq<LatticePoint>, degree: nat, t: nat)
    requires degree >= 1 && t < |lattice|
    requires (lattice[t].0 == 0 || lattice[t].0 == degree) && (lattice[t].1 == 0 || lattice[t].1 == degree)
    ensures Scaled(lattice, degree)[t] ==
              [if lattice[t].0 == 0 then 0.0 else 1.0, if lattice[t].1 == 0 then 0.0 else 1.0]
  {
    var d := degree as real;
    assert d / d == 1.0 && 0.0 / d == 0.0;
    var p := Scaled(lattice, degree)[t];
    assert p[0] == if lattice[t].0 == 0 then 0.0 else 1.0;
    assert p[1] == if lattice[t].1 == 0 then 0.0 else 1.0;
  }



  /** Every triangle node lies in the unit reference triangle. */
  lemma TrianglePointsInCell(degree: nat)
    requires degree >= 1
    ensures forall k :: 0 <= k < |TrianglePoints(degree)| ==>
              var x := TrianglePoints(degree)[k];
              |x| == 2 && 0.0 <= x[0] && 0.0 <= x[1] && x[0] + x[1] <= 1.0
  {
    var L := TriangleLattice(degree);
    forall k | 0 <= k < |L| ensures InTriangle(degree, L[k]) {
      TriangleNodeOwner(degree, k);
    }
    ScaledInCell(L, degree);
  }

  lemma ScaledInCell(lattice: seq<LatticePoint>, degree: nat)
    requires degree >= 1
    requires forall k :: 0 <= k < |lattice| ==> InTriangle(degree, lattice[k])
    ensures forall k :: 0 <= k < |lattice| ==>
              var x := Scaled(lattice, degree)[k];
              0.0 <= x[0] && 0.0 <= x[1] && x[0] + x[1] <= 1.0
  {
    var P := Scaled(lattice, degree);
    forall k | 0 <= k < |lattice|
      ensures 0.0 <= P[k][0] && 0.0 <= P[k][1] && P[k][0] + P[k][1] <= 1.0
    {
      DivSum(lattice[k].0, lattice[k].1, degree);
    }
  }

  lemma DivSum(i: nat, j: nat, d: nat)
    requires d > 0 && i + j <= d
    ensures i as real / d as real + j as real / d as real <= 1.0
  {
    assert i as real / d as real + j as real / d as real == (i + j) as real / d as real;
  }

  /** Dividing by the degree keeps the triangle nodes pairwise distinct. */
  lemma TrianglePointsDistinct(degree: nat)
    requires degree >= 1
    ensures Distinct(TrianglePoints(degree))
  {
    TriangleLatticeDistinct(degree);
    ScaledDistinct(TriangleLattice(degree), degree);
  }

  lemma ScaledDistinct(lattice: seq<LatticePoint>, degree: nat)
    requires degree >= 1 && Distinct(lattice)
    ensures Distinct(Scaled(lattice, degree))
  {
    var P := Scaled(lattice, degree);
    forall a, b | 0 <= a < |P| && 0 <= b < |P| && a != b
      ensures P[a] != P[b]
    {
      assert lattice[a] != lattice[b];
      if lattice[a].0 != lattice[b].0 {
        DivInjective(lattice[a].0, lattice[b].0, degree);
        assert P[a][0] != P[b][0];
      } else {
        DivInjective(lattice[a].1, lattice[b].1, degree);
        assert P[a][1] != P[b][1];
      }
    }
  }

  lemma DivInjective(i: nat, j: nat, d: nat)
    requires i != j && d > 0
    ensures i as real / d as real != j as real / d as real
  {
    if i < j { DivMonotone(i, j, d); } else { DivMonotone(j, i, d); }
  }
}
