/** `FiniteElement` and `LagrangeElement`: what the constructor checks and
    stores, the node count, the per-entity node counts and nodal
    interpolation. */
module FiniteElements {
  import opened Common
  import opened LagrangePoints
  import opened Vandermonde
  import opened EntityNodes

  /** The state a `FiniteElement` holds after construction. `nodesPerEntity`
      is `None` when the element was given no (or an empty) entity map, as the
      attribute is then never set. The basis coefficients are not modelled. */
  datatype FiniteElement = FiniteElement(
    dim: nat,
    degree: nat,
    nodes: seq<seq<real>>,
    entityNodes: Option<EntityMap>,
    nodesPerEntity: Option<seq<nat>>,
    nodeCount: nat)

  /** `entity_nodes[d][0]` exists for every `d` in `range(dim + 1)`. */
  predicate HasEntities(en: EntityMap, dim: nat)
  {
    forall d: nat :: d <= dim ==> d in en && 0 in en[d]
  }

  /** `nodes_per_entity`: the size of the first entity of each dimension, or
      the KeyError raised by the first dimension (or entity 0) missing. */
  function NodesPerEntity(en: EntityMap, dim: nat): (r: Result<seq<nat>>)
    ensures r.Ok? <==> HasEntities(en, dim)
    ensures r.Err? ==> r.error == MissingEntity
    ensures r.Ok? ==> |r.value| == dim + 1 &&
                      forall d :: 0 <= d <= dim ==> r.value[d] == |en[d][0]|
  {
    if HasEntities(en, dim) then Ok(seq(dim + 1, d requires 0 <= d <= dim => |en[d][0]|))
    else Err(MissingEntity)
  }

  /** `if entity_nodes:` holds for a dictionary that is present and not empty. */
  predicate Truthy(entityNodes: Option<EntityMap>)
  {
    entityNodes.Some? && entityNodes.value != map[]
  }

  /** `FiniteElement.__init__`: the per-entity counts are taken first (and
      may raise KeyError), then the Vandermonde matrix is built (and may fail
      its dimension assertion or a point unpacking), and its inverse exists
      only for a square matrix. */
  function MakeFiniteElement(dim: nat, degree: nat, nodes: seq<seq<real>>,
                             entityNodes: Option<EntityMap>): (r: Result<FiniteElement>)
    ensures Truthy(entityNodes) && !HasEntities(entityNodes.value, dim) ==> r == Err(MissingEntity)
    ensures !(Truthy(entityNodes) && !HasEntities(entityNodes.value, dim)) ==>
              (dim > 2 ==> r == Err(UnsupportedDimension)) &&
              (dim <= 2 && !PointsFit(dim, nodes) ==> r == Err(PointArity)) &&
              (dim <= 2 && PointsFit(dim, nodes) && |nodes| != BasisSize(dim, degree) ==> r == Err(NotSquare))
    ensures r.Ok? <==> (Truthy(entityNodes) ==> HasEntities(entityNodes.value, dim)) &&
                       dim <= 2 && PointsFit(dim, nodes) && |nodes| == BasisSize(dim, degree)
    ensures r.Ok? ==> r.value.dim == dim && r.value.degree == degree && r.value.nodes == nodes &&
                      r.value.entityNodes == entityNodes &&
                      r.value.nodeCount == |nodes| == BasisSize(dim, degree)
    ensures r.Ok? ==> r.value.nodesPerEntity ==
                      if Truthy(entityNodes) then Some(NodesPerEntity(entityNodes.value, dim).value) else None
  {
    var counts := if Truthy(entityNodes) then Some(NodesPerEntity(entityNodes.value, dim)) else None;
    if counts.Some? && counts.value.Err? then Err(MissingEntity)
    else
      match VandermondeMatrix(dim, degree, nodes)
      case Err(e) => Err(e)
      case Ok(v) =>
        if |nodes| != BasisSize(dim, degree) then Err(NotSquare)
        else
          var npe := if counts.Some? then Some(counts.value.value) else None;
          Ok(FiniteElement(dim, degree, nodes, entityNodes, npe, |nodes|))
  }

  /** `FiniteElement.interpolate`: the value of `fn` at each node, in node
      order. */
  function Interpolate<R>(fe: FiniteElement, fn: seq<real> -> R): (r: seq<R>)
    ensures |r| == |fe.nodes|
    ensures forall i :: 0 <= i < |r| ==> r[i] == fn(fe.nodes[i])
  {
    seq(|fe.nodes|, i requires 0 <= i < |fe.nodes| => fn(fe.nodes[i]))
  }

  // ---------------------------------------------------------------------
  // LagrangeElement

  /** What `LagrangeElement(cell, degree)` constructs: the equispaced nodes,
      their entity numbering, and the `FiniteElement` built from both. */
  function LagrangeElementSpec(dim: nat, degree: nat): Result<FiniteElement>
    requires dim == 1 || degree >= 1
  {
    var nodes := LagrangePoints.LagrangePoints(dim, degree);
    MakeFiniteElement(dim, degree, nodes, Some(EntityNodesSpec(|nodes|, dim, degree)))
  }

  /** `LagrangeElement.__init__`. */
  method LagrangeElement(dim: nat, degree: nat) returns (r: Result<FiniteElement>)
    requires dim == 1 || degree >= 1
    ensures r == LagrangeElementSpec(dim, degree)
  {
    var nodes := LagrangePoints.LagrangePoints(dim, degree);
    var entityNodes := ComputeEntityNodes(nodes, dim, degree);
    r := MakeFiniteElement(dim, degree, nodes, Some(entityNodes));
  }

  lemma IntervalPointsFit(degree: nat)
    ensures PointsFit(1, IntervalPoints(degree))
    ensures |IntervalPoints(degree)| == if degree == 0 then 2 else degree + 1
  {
    if degree >= 1 {
      IntervalNodes(degree);
    }
  }

  lemma TrianglePointsFit(degree: nat)
    requires degree >= 1
    ensures PointsFit(2, TrianglePoints(degree)) && PointsFit(0, TrianglePoints(degree))
    ensures |TrianglePoints(degree)| == BasisSize(2, degree)
  {
    TrianglePointsInCell(degree);
    TriangleVertexPoints(degree);
  }

  /** Which cells and degrees give a Lagrange element: the interval from
      degree 1, and cells of dimension 0 or 2 (both handled by the triangle
      branch) from degree 1. The interval of degree 0 has two nodes but one
      monomial, so its matrix is not square; a cell of dimension 3 or more
      has no entry for dimension 2 in its numbering, a KeyError. */
  lemma LagrangeElementOutcome(dim: nat, degree: nat)
    requires dim == 1 || degree >= 1
    ensures LagrangeElementSpec(dim, degree).Ok? <==> dim <= 2 && degree >= 1
    ensures dim == 1 && degree == 0 ==> LagrangeElementSpec(dim, degree) == Err(NotSquare)
    ensures dim >= 3 ==> LagrangeElementSpec(dim, degree) == Err(MissingEntity)
  {
    if dim == 1 {
      IntervalElementOutcome(degree);
    } else if dim <= 2 {
      TriangleElementOk(dim, degree);
    } else {
      HighDimensionElementFails(dim, degree);
    }
  }

  lemma IntervalElementOutcome(degree: nat)
    ensures LagrangeElementSpec(1, degree).Ok? <==> degree >= 1
    ensures degree == 0 ==> LagrangeElementSpec(1, degree) == Err(NotSquare)
  {
    var nodes := IntervalPoints(degree);
    var en := EntityNodesSpec(|nodes|, 1, degree);
    EntityNodesKeys(|nodes|, 1, degree);
    IntervalPointsFit(degree);
    assert HasEntities(en, 1);
    assert 0 in en;
  }

  lemma TriangleElementOk(dim: nat, degree: nat)
    requires (dim == 0 || dim == 2) && degree >= 1
    ensures LagrangeElementSpec(dim, degree).Ok?
  {
    var nodes := TrianglePoints(degree);
    var en := EntityNodesSpec(|nodes|, dim, degree);
    EntityNodesKeys(|nodes|, dim, degree);
    TrianglePointsFit(degree);
    assert HasEntities(en, dim);
  }

  lemma HighDimensionElementFails(dim: nat, degree: nat)
    requires dim >= 3 && degree >= 1
    ensures LagrangeElementSpec(dim, degree) == Err(MissingEntity)
  {
    var nodes := TrianglePoints(degree);
    var en := EntityNodesSpec(|nodes|, dim, degree);
    EntityNodesKeys(|nodes|, dim, degree);
    assert !(2 in en);
    assert 0 in en;
  }

  /** The node count of a Lagrange element is the dimension of the
      polynomial space: `degree + 1` on the interval and
      `(degree + 1) * (degree + 2) / 2` on the triangle. */
  lemma LagrangeNodeCount(dim: nat, degree: nat)
    requires (dim == 1 || dim == 2) && degree >= 1
    ensures LagrangeElementSpec(dim, degree).Ok?
    ensures LagrangeElementSpec(dim, degree).value.nodeCount ==
              if dim == 1 then degree + 1 else (degree + 1) * (degree + 2) / 2
  {
    LagrangeElementOutcome(dim, degree);
  }

  /** `nodes_per_entity` of a Lagrange element: one node per vertex,
      `degree - 1` per edge and `(degree - 1) * (degree - 2) / 2` inside the
      triangle; `degree - 1` inside the interval. */
  lemma LagrangeNodesPerEntity(dim: nat, degree: nat)
    requires (dim == 1 || dim == 2) && degree >= 1
    ensures LagrangeElementSpec(dim, degree).Ok?
    ensures LagrangeElementSpec(dim, degree).value.nodesPerEntity ==
              if dim == 1 then Some([1, degree - 1])
              else Some([1, degree - 1, (degree - 1) * (degree - 2) / 2])
  {
    if dim == 1 {
      IntervalNodesPerEntity(degree);
    } else {
      TriangleNodesPerEntity(degree);
    }
  }

  lemma IntervalNodesPerEntity(degree: nat)
    requires degree >= 1
    ensures LagrangeElementSpec(1, degree).Ok?
    ensures LagrangeElementSpec(1, degree).value.nodesPerEntity == Some([1, degree - 1])
  {
    IntervalElementOutcome(degree);
    IntervalPointsFit(degree);
    var n := |IntervalPoints(degree)|;
    var en := EntityNodesSpec(n, 1, degree);
    assert en[1][0] == Range(2, n);
    assert NodesPerEntity(en, 1).value == [1, degree - 1];
  }

  lemma TriangleNodesPerEntity(degree: nat)
    requires degree >= 1
    ensures LagrangeElementSpec(2, degree).Ok?
    ensures LagrangeElementSpec(2, degree).value.nodesPerEntity ==
              Some([1, degree - 1, (degree - 1) * (degree - 2) / 2])
  {
    TriangleElementOk(2, degree);
    var n := TriangleSize(degree);
    TriangleEntityNodes(n, degree);
    TriangleCounts(n, degree);
    var en := EntityNodesSpec(n, 2, degree);
    assert 0 in en;
    assert Truthy(Some(en));
    assert NodesPerEntity(en, 2).value == [1, degree - 1, n - 3 * degree];
  }

  lemma TriangleCounts(n: nat, degree: nat)
    requires degree >= 1 && 3 * degree <= n
    ensures NodesPerEntity(TriangleNumbering(n, degree), 2) == Ok([1, degree - 1, n - 3 * degree])
  {
    var en := TriangleNumbering(n, degree);
    var m := degree - 1;
    assert en[0][0] == [0] && en[1][0] == Range(3, 3 + m) && en[2][0] == Range(3 + 3 * m, n);
    assert HasEntities(en, 2);
    var r := NodesPerEntity(en, 2).value;
    assert r[0] == 1 && r[1] == m && r[2] == n - 3 * degree;
    assert r == [1, m, n - 3 * degree];
  }

  /** The triangle's node count, with the facts about it the numbering
      lemmas need. */
  function TriangleSize(degree: nat): (n: nat)
    requires degree >= 1
    ensures n == |TrianglePoints(degree)| && 3 * degree <= n
    ensures n - 3 * degree == (degree - 1) * (degree - 2) / 2
  {
    TrianglePointsFit(degree);
    MonomialsLength(degree);
    SquareIdentity(degree);
    |TrianglePoints(degree)|
  }

  lemma SquareIdentity(d: nat)
    requires d >= 1
    ensures (d + 1) * (d + 2) - 6 * d == (d - 1) * (d - 2)
    ensures 6 * d <= (d + 1) * (d + 2)
  {
    assert (d + 1) * (d + 2) == d * d + 3 * d + 2;
    assert (d - 1) * (d - 2) == d * d - 3 * d + 2;
  }

  /** On the triangle, node `t` of the Lagrange element is listed under entity
      `(e, k)` exactly when its lattice point lies on that entity: the vertex,
      the open edge or the open interior. */
  lemma TriangleElementEntities(degree: nat, t: nat, e: nat, k: nat)
    requires degree >= 1
    ensures LagrangeElementSpec(2, degree).Ok?
    ensures var fe := LagrangeElementSpec(2, degree).value;
            fe.nodes == TrianglePoints(degree) &&
            fe.entityNodes.Some? &&
            (t < fe.nodeCount ==>
               ((e in fe.entityNodes.value && k in fe.entityNodes.value[e] &&
                 t in fe.entityNodes.value[e][k])
                <==> TriangleOwner(degree, TriangleLattice(degree)[t]) == (e, k)))
  {
    TriangleElementOk(2, degree);
    TrianglePointsFit(degree);
    var n := |TrianglePoints(degree)|;
    MonomialsLength(degree);
    assert 3 * degree <= n by {
      assert 2 * n == (degree + 1) * (degree + 2);
    }
    if t < n {
      TriangleEntityMembers(n, degree, t, e, k);
      TriangleNodeOwner(degree, t);
    }
  }

  /** On the interval, node `t` of the Lagrange element is listed under entity
      `(e, k)` exactly when its coordinate is that vertex (`0` or `1`) or lies
      strictly inside. */
  lemma IntervalElementEntities(degree: nat, t: nat, e: nat, k: nat)
    requires degree >= 1
    ensures LagrangeElementSpec(1, degree).Ok?
    ensures var fe := LagrangeElementSpec(1, degree).value;
            fe.nodes == IntervalPoints(degree) &&
            fe.entityNodes.Some? &&
            (t < fe.nodeCount ==>
               ((e in fe.entityNodes.value && k in fe.entityNodes.value[e] &&
                 t in fe.entityNodes.value[e][k])
                <==> IntervalOwner(fe.nodes[t][0]) == (e, k)))
  {
    IntervalElementOutcome(degree);
    IntervalPointsFit(degree);
    var n := |IntervalPoints(degree)|;
    if t < n {
      IntervalEntityMembers(n, degree, t, e, k);
      IntervalNodeOwner(degree, t);
    }
  }

  /** Interpolating onto the triangle Lagrange element gives one value per
      node, and the value stored for vertex `k` is `fn` at that vertex. */
  lemma TriangleInterpolateVertices<R>(degree: nat, fn: seq<real> -> R)
    requires degree >= 1
    ensures LagrangeElementSpec(2, degree).Ok?
    ensures var fe := LagrangeElementSpec(2, degree).value;
            var r := Interpolate(fe, fn);
            var en := fe.entityNodes.value;
            |r| == fe.nodeCount &&
            r[en[0][0][0]] == fn([0.0, 0.0]) &&
            r[en[0][1][0]] == fn([1.0, 0.0]) &&
            r[en[0][2][0]] == fn([0.0, 1.0])
  {
    TriangleElementOk(2, degree);
    TrianglePointsFit(degree);
    TriangleVertexPoints(degree);
    var n := |TrianglePoints(degree)|;
    var P := TrianglePoints(degree);
    assert P[0] == P[..3][0] && P[1] == P[..3][1] && P[2] == P[..3][2];
    MonomialsLength(degree);
    assert 3 * degree <= n by {
      assert 2 * n == (degree + 1) * (degree + 2);
    }
    TriangleEntityNodes(n, degree);
  }
}
