/** `VectorFiniteElement`: a scalar element on the triangle turned into a
    two-component vector element, each scalar node `j` giving vector nodes
    `2 * j` (first component) and `2 * j + 1` (second component). */
module VectorElements {
  import opened Common
  import opened Vandermonde
  import opened EntityNodes
  import opened FiniteElements

  /** The unit weight of vector node `q`: `e0` for even `q`, `e1` for odd. */
  function UnitRow(c: nat): seq<real>
  {
    if c == 0 then [1.0, 0.0] else [0.0, 1.0]
  }

  /** `node_weights`: `[[1, 0], [0, 1]]` per scalar node, reshaped to rows. */
  function NodeWeightsFor(n: nat): (r: seq<seq<real>>)
    ensures |r| == 2 * n
  {
    ConcatPairsLength(seq(n, j requires 0 <= j < n => [UnitRow(0), UnitRow(1)]));
    Concat(seq(n, j requires 0 <= j < n => [UnitRow(0), UnitRow(1)]))
  }

  /** The vector `nodes`: every scalar node listed twice, reshaped to rows. */
  function DuplicatedNodes(nodes: seq<seq<real>>): (r: seq<seq<real>>)
    ensures |r| == 2 * |nodes|
  {
    ConcatPairsLength(seq(|nodes|, j requires 0 <= j < |nodes| => [nodes[j], nodes[j]]));
    Concat(seq(|nodes|, j requires 0 <= j < |nodes| => [nodes[j], nodes[j]]))
  }

  /** Row `q` of the weights is the unit vector of component `q % 2`. */
  lemma NodeWeightRow(n: nat, q: nat)
    requires q < 2 * n
    ensures |NodeWeightsFor(n)| == 2 * n
    ensures NodeWeightsFor(n)[q] == UnitRow(q % 2)
  {
    ConcatPairs(seq(n, j requires 0 <= j < n => [UnitRow(0), UnitRow(1)]), q);
  }

  /** Vector node `q` sits where scalar node `q / 2` sits. */
  lemma DuplicatedNodeRow(nodes: seq<seq<real>>, q: nat)
    requires q < 2 * |nodes|
    ensures |DuplicatedNodes(nodes)| == 2 * |nodes|
    ensures DuplicatedNodes(nodes)[q] == nodes[q / 2]
  {
    ConcatPairs(seq(|nodes|, j requires 0 <= j < |nodes| => [nodes[j], nodes[j]]), q);
  }

  /** `a @ b` for two vectors of the same length. */
  function Dot(a: seq<real>, b: seq<real>): real
    requires |a| == |b|
  {
    if |a| == 0 then 0.0 else a[0] * b[0] + Dot(a[1..], b[1..])
  }

  /** Taking the dot product with a unit row picks out one component. */
  lemma DotUnitRow(c: nat, v: seq<real>)
    requires c < 2 && |v| == 2
    ensures Dot(UnitRow(c), v) == v[c]
  {
    var u := UnitRow(c);
    assert Dot(u[1..][1..], v[1..][1..]) == 0.0;
    assert Dot(u[1..], v[1..]) == u[1] * v[1];
    assert Dot(u, v) == u[0] * v[0] + u[1] * v[1];
  }

  /** The entry of the vector tabulation for point `p`, component `c` and
      vector basis function `q`: scalar basis function `q / 2` times the
      `c`-th entry of its unit direction `e_(q % 2)`. */
  function ScatteredValue(tab: seq<seq<real>>, p: nat, c: nat, q: nat): real
    requires p < |tab| && q / 2 < |tab[p]|
  {
    if q % 2 == c then tab[p][q / 2] else 0.0
  }

  /** The same for the gradient tabulation, coordinate `k` of the gradient. */
  function ScatteredGradient(tab: seq<seq<seq<real>>>, p: nat, c: nat, q: nat, k: nat): real
    requires p < |tab| && q / 2 < |tab[p]| && k < |tab[p][q / 2]|
  {
    if q % 2 == c then tab[p][q / 2][k] else 0.0
  }

  class VectorFiniteElement {
    var finiteElement: FiniteElement
    var dim: nat
    var degree: nat
    var nodes: seq<seq<real>>
    var entityNodes: Option<EntityMap>
    var nodesPerEntity: Option<seq<nat>>
    var nodeCount: nat
    var nodeWeights: seq<seq<real>>

    /** The state `__init__` leaves behind, over a triangle element. */
    ghost predicate Valid()
      reads this
    {
      dim == 2 && degree >= 1 &&
      finiteElement.dim == 2 && finiteElement.degree == degree &&
      nodeCount == |finiteElement.nodes| &&
      PointsFit(2, finiteElement.nodes) &&
      entityNodes == Some(VectorEntityNodesSpec(nodeCount, 2, degree)) &&
      nodeWeights == NodeWeightsFor(nodeCount) &&
      nodes == DuplicatedNodes(finiteElement.nodes) &&
      (forall q :: 0 <= q < 2 * nodeCount ==> nodeWeights[q] == UnitRow(q % 2)) &&
      (forall q :: 0 <= q < 2 * nodeCount ==> nodes[q] == finiteElement.nodes[q / 2])
    }

    /** `VectorFiniteElement.__init__`: the scalar element's cell, degree and
        nodes, the vector entity numbering, the `FiniteElement` set-up over
        those (so `node_count` stays the scalar count), then the weights and
        the duplicated nodes. */
    constructor(fe: FiniteElement)
      requires fe.dim == 2 && fe.degree >= 1
      requires MakeFiniteElement(fe.dim, fe.degree, fe.nodes, fe.entityNodes) == Ok(fe)
      ensures Valid()
      ensures finiteElement == fe && degree == fe.degree
      ensures nodeCount == fe.nodeCount
      ensures nodesPerEntity == Some(VectorCounts(fe.nodeCount, fe.degree))
    {
      var en := ComputeVectorEntityNodes(fe.nodes, 2, fe.degree);
      VectorEntityKeys(|fe.nodes|, fe.degree);
      var base := MakeFiniteElement(2, fe.degree, fe.nodes, Some(en));
      finiteElement := fe;
      dim := 2;
      degree := fe.degree;
      nodes := fe.nodes;
      entityNodes := Some(en);
      nodesPerEntity := base.value.nodesPerEntity;
      nodeCount := base.value.nodeCount;
      nodeWeights := NodeWeightsFor(|fe.nodes|);
      nodes := DuplicatedNodes(fe.nodes);
      new;
      forall q | 0 <= q < 2 * nodeCount
        ensures nodeWeights[q] == UnitRow(q % 2) && nodes[q] == fe.nodes[q / 2]
      {
        NodeWeightRow(nodeCount, q);
        DuplicatedNodeRow(fe.nodes, q);
      }
    }

    /** `VectorFiniteElement.interpolate`: `node_weights[i] @ fn(nodes[i])`
        for every vector node, which is component `i % 2` of `fn` at scalar
        node `i / 2`; a value of `fn` that is not a 2-vector fails the
        product. */
    function Interpolate(fn: seq<real> -> seq<real>): (r: Result<seq<real>>)
      reads this
      requires Valid()
      ensures r.Ok? <==> forall i :: 0 <= i < |nodes| ==> |fn(nodes[i])| == 2
      ensures r.Err? ==> r.error == ShapeMismatch
      ensures r.Ok? ==> |r.value| == 2 * nodeCount &&
                        forall q :: 0 <= q < 2 * nodeCount ==>
                          r.value[q] == fn(finiteElement.nodes[q / 2])[q % 2]
    {
      var ns, ws := nodes, nodeWeights;
      if forall i :: 0 <= i < |ns| ==> |fn(ns[i])| == 2 then
        (assert forall q :: 0 <= q < |ns| ==> Dot(UnitRow(q % 2), fn(ns[q])) == fn(ns[q])[q % 2] by {
           forall q | 0 <= q < |ns|
             ensures Dot(UnitRow(q % 2), fn(ns[q])) == fn(ns[q])[q % 2]
           {
             DotUnitRow(q % 2, fn(ns[q]));
           }
         }
         Ok(seq(|ns|, i requires 0 <= i < |ns| => Dot(ws[i], fn(ns[i])))))
      else Err(ShapeMismatch)
    }

    /** `VectorFiniteElement.tabulate(points)`, given the scalar tabulation
        `tab` of shape `(points, nodes)`: a new array of shape
        `(points, 2, 2 * nodes)` whose entry `[p, c, q]` is scalar basis
        function `q / 2` at point `p` times component `c` of the weight of
        vector node `q`. */
    method Tabulate(tab: seq<seq<real>>) returns (newTab: array3<real>)
      requires Valid()
      requires forall p :: 0 <= p < |tab| ==> |tab[p]| == nodeCount
      ensures fresh(newTab)
      ensures newTab.Length0 == |tab| && newTab.Length1 == 2 && newTab.Length2 == 2 * nodeCount
      ensures forall p, c, q :: 0 <= p < |tab| && 0 <= c < 2 && 0 <= q < 2 * nodeCount ==>
                newTab[p, c, q] == ScatteredValue(tab, p, c, q) &&
                newTab[p, c, q] == tab[p][q / 2] * nodeWeights[q][c]
    {
      var n := nodeCount;
      newTab := new real[|tab|, 2, 2 * n]((p, c, q) => 0.0);
      var c := 0;
      while c < 2
        invariant 0 <= c <= 2
        invariant forall p, c', q :: 0 <= p < |tab| && 0 <= c' < 2 && 0 <= q < 2 * n ==>
                    newTab[p, c', q] == if c' < c then ScatteredValue(tab, p, c', q) else 0.0
      {
        var j := 0;
        while j < n
          invariant 0 <= j <= n
          invariant forall p, c', q :: 0 <= p < |tab| && 0 <= c' < 2 && 0 <= q < 2 * n ==>
                      newTab[p, c', q] ==
                        if c' < c || (c' == c && q / 2 < j) then ScatteredValue(tab, p, c', q) else 0.0
        {
          ScatterColumn(newTab, tab, c, j);
          j := j + 1;
        }
        c := c + 1;
      }
    }

    /** `VectorFiniteElement.tabulate(points, grad=True)`, given the scalar
        gradient tabulation of shape `(points, nodes, 2)`: shape
        `(points, 2, 2 * nodes, 2)`, with gradient `tab[p][q / 2]` placed in
        component `q % 2` of vector basis function `q`. */
    method TabulateGrad(tab: seq<seq<seq<real>>>) returns (newTab: array4<real>)
      requires Valid()
      requires forall p :: 0 <= p < |tab| ==> |tab[p]| == nodeCount
      requires forall p, j :: 0 <= p < |tab| && 0 <= j < |tab[p]| ==> |tab[p][j]| == 2
      ensures fresh(newTab)
      ensures newTab.Length0 == |tab| && newTab.Length1 == 2 && newTab.Length2 == 2 * nodeCount &&
              newTab.Length3 == 2
      ensures forall p, c, q, k :: 0 <= p < |tab| && 0 <= c < 2 && 0 <= q < 2 * nodeCount && 0 <= k < 2 ==>
                newTab[p, c, q, k] == ScatteredGradient(tab, p, c, q, k) &&
                newTab[p, c, q, k] == tab[p][q / 2][k] * nodeWeights[q][c]
    {
      var n := nodeCount;
      newTab := new real[|tab|, 2, 2 * n, 2]((p, c, q, k) => 0.0);
      var c := 0;
      while c < 2
        invariant 0 <= c <= 2
        invariant forall p, c', q, k :: 0 <= p < |tab| && 0 <= c' < 2 && 0 <= q < 2 * n && 0 <= k < 2 ==>
                    newTab[p, c', q, k] == if c' < c then ScatteredGradient(tab, p, c', q, k) else 0.0
      {
        var j := 0;
        while j < n
          invariant 0 <= j <= n
          invariant forall p, c', q, k :: 0 <= p < |tab| && 0 <= c' < 2 && 0 <= q < 2 * n && 0 <= k < 2 ==>
                      newTab[p, c', q, k] ==
                        if c' < c || (c' == c && q / 2 < j) then ScatteredGradient(tab, p, c', q, k) else 0.0
        {
          ScatterGradColumn(newTab, tab, c, j);
          j := j + 1;
        }
        c := c + 1;
      }
    }
  }

  /** `new_tab[:, c, 2 * j + c] = tab[:, j]`, one scalar basis function at a
      time. */
  method ScatterColumn(a: array3<real>, tab: seq<seq<real>>, c: nat, j: nat)
    requires a.Length0 == |tab| && a.Length1 == 2 && c < 2 && 2 * j + c < a.Length2
    requires forall p :: 0 <= p < |tab| ==> j < |tab[p]|
    modifies a
    ensures forall p, c', q :: 0 <= p < a.Length0 && 0 <= c' < a.Length1 && 0 <= q < a.Length2 ==>
              a[p, c', q] == if c' == c && q == 2 * j + c then tab[p][j] else old(a[p, c', q])
  {
    var p := 0;
    while p < |tab|
      invariant 0 <= p <= |tab|
      invariant forall p', c', q :: 0 <= p' < a.Length0 && 0 <= c' < a.Length1 && 0 <= q < a.Length2 ==>
                  a[p', c', q] == if c' == c && q == 2 * j + c && p' < p then tab[p'][j] else old(a[p', c', q])
    {
      a[p, c, 2 * j + c] := tab[p][j];
      p := p + 1;
    }
  }

  /** `new_tab[:, c, 2 * j + c] = tab[:, j]` for the gradient, whose entries
      are 2-vectors. */
  method ScatterGradColumn(a: array4<real>, tab: seq<seq<seq<real>>>, c: nat, j: nat)
    requires a.Length0 == |tab| && a.Length1 == 2 && c < 2 && 2 * j + c < a.Length2 && a.Length3 == 2
    requires forall p :: 0 <= p < |tab| ==> j < |tab[p]| && |tab[p][j]| == 2
    modifies a
    ensures forall p, c', q, k :: 0 <= p < a.Length0 && 0 <= c' < a.Length1 && 0 <= q < a.Length2 && 0 <= k < 2 ==>
              a[p, c', q, k] == if c' == c && q == 2 * j + c then tab[p][j][k] else old(a[p, c', q, k])
  {
    var p := 0;
    while p < |tab|
      invariant 0 <= p <= |tab|
      invariant forall p', c', q, k :: 0 <= p' < a.Length0 && 0 <= c' < a.Length1 && 0 <= q < a.Length2 && 0 <= k < 2 ==>
                  a[p', c', q, k] ==
                    if c' == c && q == 2 * j + c && p' < p then tab[p'][j][k] else old(a[p', c', q, k])
    {
      a[p, c, 2 * j + c, 0] := tab[p][j][0];
      a[p, c, 2 * j + c, 1] := tab[p][j][1];
      p := p + 1;
    }
  }

  // ---------------------------------------------------------------------
  // Properties

  /** `nodes_per_entity` of the vector numbering of the triangle, which
      always exists. */
  function VectorCounts(n: nat, degree: nat): (r: seq<nat>)
    requires degree >= 1
    ensures NodesPerEntity(VectorEntityNodesSpec(n, 2, degree), 2) == Ok(r)
  {
    VectorEntityKeys(n, degree);
    NodesPerEntity(VectorEntityNodesSpec(n, 2, degree), 2).value
  }

  /** The vector numbering of the triangle has the entries `FiniteElement`
      reads, so building the vector element never raises KeyError. */
  lemma VectorEntityKeys(n: nat, degree: nat)
    requires degree >= 1
    ensures HasEntities(VectorEntityNodesSpec(n, 2, degree), 2)
    ensures VectorEntityNodesSpec(n, 2, degree) != map[]
  {
    var v := VectorEntityNodesSpec(n, 2, degree);
    assert 0 in VectorVertexNodes(2) && 0 in VectorEdgeNodes(n, 2, degree);
    assert 0 in v && 0 in v[0] && 1 in v && 0 in v[1] && 2 in v && 0 in v[2];
  }

  /** `nodes_per_entity` of the vector numbering on the triangle, for at
      least `3 * degree` points: two numbers per vertex, `2 * (degree - 1)`
      per edge and the rest for the cell. */
  lemma VectorNodesPerEntity(n: nat, degree: nat)
    requires degree >= 1 && 3 * degree <= n
    ensures NodesPerEntity(VectorEntityNodesSpec(n, 2, degree), 2) ==
              Ok([2, 2 * (degree - 1), 2 * n - 6 * degree])
  {
    VectorEntityKeys(n, degree);
    VectorTriangleEntityNodes(n, degree);
    var v := VectorEntityNodesSpec(n, 2, degree);
    var r := NodesPerEntity(v, 2).value;
    var m := degree - 1;
    assert r[0] == |v[0][0]| == 2;
    assert r[1] == |v[1][0]| == |Range(6, 6 + 2 * m)| == 2 * m;
    assert r[2] == |v[2][0]| == |Range(6 + 6 * m, 2 * n)| == 2 * n - 6 * degree;
    assert r == [2, 2 * m, 2 * n - 6 * degree];
  }

  /** `nodes_per_entity` of the vector Lagrange element on the triangle:
      twice the scalar counts, `[2, 2 * (degree - 1), (degree - 1) * (degree - 2)]`. */
  lemma VectorLagrangeNodesPerEntity(degree: nat)
    requires degree >= 1
    ensures LagrangeElementSpec(2, degree).Ok?
    ensures var n := LagrangeElementSpec(2, degree).value.nodeCount;
            NodesPerEntity(VectorEntityNodesSpec(n, 2, degree), 2) ==
              Ok([2, 2 * (degree - 1), (degree - 1) * (degree - 2)])
  {
    TriangleElementOk(2, degree);
    MonomialsLength(degree);
    var n := LagrangeElementSpec(2, degree).value.nodeCount;
    assert 2 * n == (degree + 1) * (degree + 2);
    SquareIdentity(degree);
    VectorNodesPerEntity(n, degree);
  }

  /** The Lagrange element on the triangle is one the vector element can be
      built from: rebuilding a `FiniteElement` from its own fields gives it
      back. */
  lemma LagrangeVectorizable(degree: nat)
    requires degree >= 1
    ensures LagrangeElementSpec(2, degree).Ok?
    ensures var fe := LagrangeElementSpec(2, degree).value;
            fe.dim == 2 && fe.degree == degree &&
            MakeFiniteElement(fe.dim, fe.degree, fe.nodes, fe.entityNodes) == Ok(fe)
  {
    TriangleElementOk(2, degree);
  }
}
