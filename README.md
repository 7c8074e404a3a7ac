# Lagrange finite elements: node and numbering bookkeeping

This project is a Dafny model of the combinatorial core of
`fe_utils/finite_elements.py`, the finite-element module of a teaching
finite-element library. It covers:

- **`lagrange_points`.** It places equispaced nodes on the reference interval
  or triangle in entity order: vertices, then the three edges, then the face
  interior. Triangle nodes are kept as integer lattice points `(i, j)` with
  `i + j <= degree`, divided by the degree at the end (exact `real`s).
- **`vandermonde_matrix`.** The exponent pairs of the complete monomial basis
  come in `inner_range` order. The value rows and the gradient rows are both
  built in that order. The gradient rule is kept symbolic: the exact `0`
  where an exponent is zero, otherwise `i x^(i-1) y^j`. The assertion
  `dim <= 2` and the unpacking of points are modelled as errors.
- **`FiniteElement.__init__`.** The model keeps what the constructor stores
  and checks:
  - `nodes_per_entity`, with its KeyError;
  - the Vandermonde matrix's own errors;
  - the squareness that `np.linalg.inv` needs;
  - `node_count`.
  The element is a datatype: nothing changes it after construction.
- **`FiniteElement.interpolate`.** It is modelled generically over any
  function type.
- **`compute_entity_nodes` and `compute_vector_entity_nodes`.** These are
  methods that walk a shrinking index list with Python slice semantics (a
  bound past the end clamps). Each is proved equal to a closed-form
  numbering. That numbering is then shown:
  - to partition `0 .. n-1` (resp. `0 .. 2n-1`);
  - to place every triangle node on the entity its lattice point lies on;
  - in vector form, to be the scalar numbering with each node split into
    two components.
- **`LagrangeElement`.** The model fixes which cells and degrees give an
  element. It proves the node counts `degree + 1` and
  `(degree + 1)(degree + 2) / 2`, and the per-entity counts.
- **`VectorFiniteElement`.** It is a class whose constructor sets the fields
  in the source's order, so `node_count` stays the scalar count. Its
  `tabulate` zero-fills a fresh array and scatters the scalar tabulation into
  it, one component and one scalar basis function at a time. Its
  `interpolate` picks component `i % 2` of `fn` at scalar node `i / 2`.

Modules and files: `Common` (common.dfy: results, ranges, slicing helpers),
`LagrangePoints` (lagrange_points.dfy), `Vandermonde` (vandermonde.dfy),
`EntityNodes` (entity_nodes.dfy), `FiniteElements` (finite_element.dfy),
`VectorElements` (vector_element.dfy).

A cell is modelled by its dimension alone. `lagrange_points` sends every
cell that is not an interval to its triangle branch. `vandermonde_matrix`
first asserts `dim <= 2` (fe_utils/finite_elements.py:52), so only a cell of
dimension 0 or 2 reaches its triangle branch; a larger one fails with
`UnsupportedDimension`.

Two consequences of the code's order are worth noting:

- **Vector `node_count`.** `node_count` is set at
  fe_utils/finite_elements.py:116 from the scalar nodes, before :246
  redefines `self.nodes`, so it stays the scalar count and not the count
  times the dimension. `VectorElements.VectorFiniteElement.constructor`
  states that.
- **Invertibility.** `np.linalg.inv` also raises for a singular square
  matrix. The model keeps only the non-square failure (see "## Left out").

## Model

| member | source | states |
|---|---|---|
| LagrangePoints.LagrangePoints | fe_utils/finite_elements.py:22-34 | the node list: the interval branch for `dim == 1`, the scaled triangle lattice for every other cell; its properties are the rows below |
| LagrangePoints.IntervalPoints | fe_utils/finite_elements.py:23-24 | `[0], [1]`, then `i / degree` for `i = 1 .. degree - 1`; `IntervalNodes`, `IntervalNodeOwner` and `IntervalPointsDistinct` state its count, values, order and distinctness |
| LagrangePoints.IntervalNodes | fe_utils/finite_elements.py:23-24 | interval nodes: `degree + 1` of them, `0` and `1` first, then `(k-1)/degree` at position `k`, strictly inside `(0, 1)` and strictly increasing |
| LagrangePoints.IntervalNodeOwner | fe_utils/finite_elements.py:24 | nodes 0 and 1 are the two vertices; every later node lies in the open interval |
| LagrangePoints.IntervalPointsDistinct | fe_utils/finite_elements.py:24 | no interval node is listed twice |
| LagrangePoints.TriangleEdges | fe_utils/finite_elements.py:27-31 | the zip of the reversed interior, zeros and interior with interior, interior and zeros; `TriangleEdgesAt` gives every entry |
| LagrangePoints.TriangleFaces | fe_utils/finite_elements.py:32 | the nested comprehension over interior pairs with `i + j < degree`; `TriangleFacesMembers`, `TriangleFacesRowMajor` and `TriangleFacesLength` state its members, order and size |
| LagrangePoints.TriangleLattice | fe_utils/finite_elements.py:29-33 | vertices, then edges, then faces as integer points; `TriangleNodeCount`, `TriangleNodeOwner`, `TriangleLatticeDistinct` and `TriangleLatticeComplete` state its size, entity order, distinctness and completeness |
| LagrangePoints.TriangleEdgesAt | fe_utils/finite_elements.py:27-31 | three edge blocks of `degree - 1` points each: block 0 is `(degree-k, k)`, block 1 is `(0, k)`, block 2 is `(k, 0)`, for `k = 1 .. degree-1` in order |
| LagrangePoints.TriangleFacesMembers | fe_utils/finite_elements.py:32 | the face points are exactly the lattice points with `i, j >= 1` and `i + j < degree` |
| LagrangePoints.TriangleFacesRowMajor | fe_utils/finite_elements.py:32 | face points come in row-major (lexicographic) order |
| LagrangePoints.TriangleFacesLength | fe_utils/finite_elements.py:32 | there are `(degree-1)(degree-2)/2` face points |
| LagrangePoints.TriangleNodeCount | fe_utils/finite_elements.py:27-33 | the triangle has `(degree+1)(degree+2)/2` nodes, the first three being `(0,0), (degree,0), (0,degree)` |
| LagrangePoints.TriangleNodeOwner | fe_utils/finite_elements.py:29-33 | each lattice node lies in the scaled triangle, on the entity (vertex, open edge, open face) whose block of the list holds its position |
| LagrangePoints.TriangleLatticeDistinct | fe_utils/finite_elements.py:29-33 | no lattice node is listed twice |
| LagrangePoints.TriangleLatticeComplete | fe_utils/finite_elements.py:29-33 | every lattice point with `i + j <= degree` is listed |
| LagrangePoints.Scaled | fe_utils/finite_elements.py:33-34 | dividing by the degree keeps one 2-coordinate point per lattice point |
| LagrangePoints.TriangleVertexPoints | fe_utils/finite_elements.py:29-34 | after the division the first three nodes are the reference vertices `(0,0), (1,0), (0,1)` |
| LagrangePoints.TrianglePointsInCell | fe_utils/finite_elements.py:33-34 | every scaled node lies in the reference triangle `x, y >= 0, x + y <= 1` |
| LagrangePoints.TrianglePointsDistinct | fe_utils/finite_elements.py:33-34 | the scaled nodes are pairwise distinct |
| Vandermonde.InnerRange | fe_utils/finite_elements.py:53 | `inner_range(k)` has `k + 1` pairs, entry `t` being `(k - t, t)` |
| Vandermonde.InnerRangeMembers | fe_utils/finite_elements.py:53 | `inner_range(k)` holds exactly the exponent pairs summing to `k` |
| Vandermonde.Monomials2 | fe_utils/finite_elements.py:53-60 | the groups `inner_range(k)` for `k = 0 .. degree` concatenated; `MonomialsLength`, `MonomialsMembers` and `MonomialsGraded` state its size, members and order |
| Vandermonde.MonomialsLength | fe_utils/finite_elements.py:60 | the 2D basis has `(degree+1)(degree+2)/2` monomials, the triangle's node count |
| Vandermonde.MonomialsMembers | fe_utils/finite_elements.py:60 | the 2D basis holds every monomial of total degree at most `degree` and no other |
| Vandermonde.MonomialsGraded | fe_utils/finite_elements.py:53-60 | the 2D basis is ordered by total degree, then by decreasing power of `x`; no monomial repeats |
| Vandermonde.ValueRow1 | fe_utils/finite_elements.py:56-58 | `x^i` for `i = 0 .. degree`; `EulerIdentity1` ties it to `GradRow1` |
| Vandermonde.ValueRow2 | fe_utils/finite_elements.py:60-61 | one row of length the basis size, `x^i y^j` in monomial order; `GradientRule2` and `EulerIdentity2` state its entries and their tie to `GradRow2` |
| Vandermonde.GradRow1 | fe_utils/finite_elements.py:63-65 | one 1-tuple per monomial; `GradientRule1` gives each entry |
| Vandermonde.GradRow2 | fe_utils/finite_elements.py:67-70 | one pair per monomial, of length the basis size; `GradientRule2` gives each entry and `EulerIdentity2` checks them against `ValueRow2` |
| Vandermonde.VandermondeMatrix | fe_utils/finite_elements.py:51-61 | a cell above dimension 2 is rejected; otherwise the result exists exactly when every point has the cell's arity; then there is one row per point, the monomial row of that point, of the basis size |
| Vandermonde.VandermondeGradient | fe_utils/finite_elements.py:62-70 | the same errors; one gradient row per point, one entry per monomial, each entry of the cell's arity |
| Vandermonde.GradientRule2 | fe_utils/finite_elements.py:60-70 | 2D: value entry `t` is `x^i y^j` for monomial `t = (i, j)`; gradient entry `t` is `[0 or i x^(i-1) y^j, 0 or j x^i y^(j-1)]`, exactly `0` where the exponent is 0, in the same monomial order |
| Vandermonde.GradientRule1 | fe_utils/finite_elements.py:63-64 | 1D: gradient entry `i` is the 1-tuple `0` for `i == 0` and `i x^(i-1)` otherwise, one per value entry |
| Vandermonde.EulerIdentity2 | fe_utils/finite_elements.py:60-70 | gradient and value rows agree with Euler's identity `x d/dx m + y d/dy m = k m` for each monomial of total degree `k` |
| Vandermonde.EulerIdentity1 | fe_utils/finite_elements.py:57-64 | 1D form: `x d/dx x^i = i x^i` entry by entry |
| EntityNodes.ComputeEntityNodes | fe_utils/finite_elements.py:166-183 | the slicing walk produces exactly the closed-form numbering: vertex `i` gets `[i]`, each of the `dim + 1` edges (only when `dim > 1`) the next `degree - 1` numbers, the cell the rest |
| EntityNodes.EntityNodesSpec | fe_utils/finite_elements.py:166-183 | the closed-form scalar numbering; `ComputeEntityNodes` is proved equal to it, and `EntityNodesKeys`, `TriangleEntityNodes`, `TriangleEntityMembers`, `TriangleEntityOrder`, `IntervalEntityMembers` and `IntervalEntityOrder` state its keys, blocks, membership and order |
| EntityNodes.EntityNodesKeys | fe_utils/finite_elements.py:173-182 | the numbering has dimensions `0`, `1` (only when `dim > 1`) and `dim`; vertices and edges `0 .. dim`; one cell entity `0` |
| EntityNodes.TriangleEntityNodes | fe_utils/finite_elements.py:166-183 | on the triangle the numbering is vertices `[0],[1],[2]`, edge blocks `[3, 3+m)`, `[3+m, 3+2m)`, `[3+2m, 3+3m)` and the cell `[3+3m, n)`, with `m = degree - 1` |
| EntityNodes.TriangleEntityMembers | fe_utils/finite_elements.py:166-183 | triangle: node `t` is listed under entity `(e, k)` if and only if `t` lies in that entity's block |
| EntityNodes.TriangleEntityOrder | fe_utils/finite_elements.py:166-183 | triangle: the seven lists concatenated in entity order are `0 .. n-1`, so no number is missing or repeated |
| EntityNodes.IntervalEntityMembers | fe_utils/finite_elements.py:166-183 | interval: node `t` belongs to vertex `t` when `t < 2` and to the cell otherwise, and to nothing else |
| EntityNodes.IntervalEntityOrder | fe_utils/finite_elements.py:166-183 | interval: the three lists concatenated are `0 .. n-1` |
| EntityNodes.ComputeVectorEntityNodes | fe_utils/finite_elements.py:209-229 | the vector walk produces exactly the closed-form vector numbering: the scalar one on the interval, otherwise vertex `i` gets `[dim i, dim i + 1]`, each edge the next `dim (degree - 1)` numbers, the cell the rest of `dim n` |
| EntityNodes.EdgeWalk | fe_utils/finite_elements.py:176-180 | the edge loop gives edge `i` the next `degree - 1` numbers after the vertices and leaves the numbers after the last edge |
| EntityNodes.EdgeStartClosed | fe_utils/finite_elements.py:176-180 | edge `i`'s numbers start at `dim + 1 + i (degree - 1)` |
| EntityNodes.VectorEntityNodesSpec | fe_utils/finite_elements.py:209-229 | the closed-form vector numbering; `ComputeVectorEntityNodes` is proved equal to it, and `VectorTriangleEntityNodes`, `VectorTriangleEntityOrder`, `TriangleVectorExpands` and `IntervalVectorIsScalar` state its blocks, order and relation to the scalar numbering |
| EntityNodes.VectorEdgeStartClosed | fe_utils/finite_elements.py:222-226 | vector edge `i`'s numbers start at `dim (dim + 1) + i dim (degree - 1)` |
| EntityNodes.VectorEdgeWalk | fe_utils/finite_elements.py:222-226 | the edge loop gives edge `i` its slice of `dim (degree - 1)` numbers and leaves the numbers after the last edge |
| EntityNodes.VectorTriangleEntityNodes | fe_utils/finite_elements.py:217-229 | triangle: vertices `[0,1],[2,3],[4,5]`, edges of `2m` numbers each after them, the cell `[6+6m, 2n)` |
| EntityNodes.VectorTriangleEntityOrder | fe_utils/finite_elements.py:217-229 | triangle: the seven vector lists concatenated in entity order are `0 .. 2n-1` |
| EntityNodes.TriangleVectorExpands | fe_utils/finite_elements.py:209-229 | triangle: the vector numbering is the scalar numbering with every node `a` replaced by `2a, 2a+1` |
| EntityNodes.ExpandRange | fe_utils/finite_elements.py:219-220 | splitting each of `a .. b-1` into two components gives `2a .. 2b-1` |
| EntityNodes.IntervalVectorIsScalar | fe_utils/finite_elements.py:213-214 | interval: the vector numbering is the scalar one |
| FiniteElements.NodesPerEntity | fe_utils/finite_elements.py:104-108 | succeeds exactly when `entity_nodes[d][0]` exists for every `d <= dim`, giving `len(entity_nodes[d][0])`; otherwise the KeyError |
| FiniteElements.MakeFiniteElement | fe_utils/finite_elements.py:75-116 | error order KeyError, dimension assertion, point unpacking, non-square matrix; success exactly when none applies; then the fields are the inputs, `node_count == len(nodes)` equals the basis size, and `nodes_per_entity` is set only for a non-empty map |
| FiniteElements.Interpolate | fe_utils/finite_elements.py:159 | one value per node, entry `i` being `fn(nodes[i])` |
| FiniteElements.LagrangeElement | fe_utils/finite_elements.py:187-207 | builds the element from `lagrange_points` and `compute_entity_nodes` |
| FiniteElements.LagrangeElementSpec | fe_utils/finite_elements.py:187-207 | the element built from `lagrange_points` and its closed-form numbering; `LagrangeElement` is proved to return it, and `LagrangeElementOutcome`, `LagrangeNodeCount`, `LagrangeNodesPerEntity` and the entity lemmas below state its properties |
| FiniteElements.LagrangeElementOutcome | fe_utils/finite_elements.py:187-207 | a Lagrange element exists exactly for `dim <= 2` and `degree >= 1`; degree 0 on the interval gives a non-square matrix; `dim >= 3` a KeyError |
| FiniteElements.LagrangeNodeCount | fe_utils/finite_elements.py:116 | `node_count` is `degree + 1` on the interval and `(degree+1)(degree+2)/2` on the triangle |
| FiniteElements.LagrangeNodesPerEntity | fe_utils/finite_elements.py:104-108 | `nodes_per_entity` is `[1, degree-1]` on the interval and `[1, degree-1, (degree-1)(degree-2)/2]` on the triangle |
| FiniteElements.IntervalNodesPerEntity | fe_utils/finite_elements.py:104-108 | interval Lagrange element: `nodes_per_entity` is `[1, degree-1]` |
| FiniteElements.TriangleNodesPerEntity | fe_utils/finite_elements.py:104-108 | triangle Lagrange element: `nodes_per_entity` is `[1, degree-1, (degree-1)(degree-2)/2]` |
| FiniteElements.TriangleElementEntities | fe_utils/finite_elements.py:201-207 | triangle element: node `t` is listed under entity `(e, k)` if and only if its lattice point lies on that vertex, open edge or open face |
| FiniteElements.IntervalElementEntities | fe_utils/finite_elements.py:201-207 | interval element: node `t` is listed under entity `(e, k)` if and only if its coordinate is that vertex or lies strictly inside |
| FiniteElements.TriangleInterpolateVertices | fe_utils/finite_elements.py:159 | interpolating onto the triangle element stores `fn` at `(0,0)`, `(1,0)`, `(0,1)` under the three vertex nodes |
| VectorElements.NodeWeightsFor | fe_utils/finite_elements.py:244 | `2n` rows; `NodeWeightRow` gives each row |
| VectorElements.DuplicatedNodes | fe_utils/finite_elements.py:246 | one row per vector node, `2n` in all; `DuplicatedNodeRow` gives each row |
| VectorElements.NodeWeightRow | fe_utils/finite_elements.py:244 | `node_weights` has `2n` rows; row `q` is `e0` for even `q` and `e1` for odd `q` |
| VectorElements.DuplicatedNodeRow | fe_utils/finite_elements.py:246 | the vector nodes are `2n` rows; row `q` is scalar node `q / 2` |
| VectorElements.DotUnitRow | fe_utils/finite_elements.py:279 | `e_c @ v` is component `c` of `v` |
| VectorElements.Dot | fe_utils/finite_elements.py:279 | the dot product `@` of two equal-length rows; `DotUnitRow` states what it gives for a unit row |
| VectorElements.VectorFiniteElement.constructor | fe_utils/finite_elements.py:232-246 | keeps the scalar element and degree, uses the vector numbering, keeps `node_count` the scalar count, takes `nodes_per_entity` from the vector numbering, and sets the alternating weights and the duplicated nodes |
| VectorElements.VectorFiniteElement.Interpolate | fe_utils/finite_elements.py:268-279 | succeeds exactly when `fn` gives 2-vectors at the nodes; then `2n` values, value `q` being component `q % 2` of `fn` at scalar node `q / 2` |
| VectorElements.VectorFiniteElement.Tabulate | fe_utils/finite_elements.py:251-266 | a fresh array of shape `(P, 2, 2n)`; entry `[p, c, q]` is `tab[p][q/2]` when `q % 2 == c` and exactly 0 otherwise, which is `tab[p][q/2]` times component `c` of weight `q` |
| VectorElements.VectorFiniteElement.TabulateGrad | fe_utils/finite_elements.py:251-266 | the same scatter in grad mode: shape `(P, 2, 2n, 2)`, gradient `tab[p][q/2]` in component `q % 2`, zeros elsewhere |
| VectorElements.ScatterColumn | fe_utils/finite_elements.py:263-265 | `new_tab[:, c, 2j + c] = tab[:, j]` changes those entries and no others |
| VectorElements.ScatterGradColumn | fe_utils/finite_elements.py:263-265 | the same assignment for gradient entries |
| VectorElements.VectorEntityKeys | fe_utils/finite_elements.py:239-241 | the vector numbering of the triangle has every entry `nodes_per_entity` reads, so building the vector element raises no KeyError |
| VectorElements.VectorNodesPerEntity | fe_utils/finite_elements.py:104-108 | vector numbering of the triangle: `nodes_per_entity` is `[2, 2(degree-1), 2n - 6 degree]` |
| VectorElements.VectorLagrangeNodesPerEntity | fe_utils/finite_elements.py:239-241 | vector Lagrange element on the triangle: `nodes_per_entity` is `[2, 2(degree-1), (degree-1)(degree-2)]`, twice the scalar counts |
| VectorElements.LagrangeVectorizable | fe_utils/finite_elements.py:232-241 | the triangle Lagrange element satisfies what the vector constructor needs: rebuilding a `FiniteElement` from its fields gives it back |

## Left out

- Basis coefficients (fe_utils/finite_elements.py:113): dense floating-point
  inversion is not modelled. The Kronecker-delta and partition-of-unity
  properties depend on it and are not claimed.
- FiniteElements.MakeFiniteElement: it detects a non-square matrix but not a
  singular square one (duplicate or ill-placed nodes), because that needs
  the numeric inverse.
- `FiniteElement.tabulate` (fe_utils/finite_elements.py:138-142): the
  `einsum`/`matmul` products are numerics. The vector element's `Tabulate`
  takes the scalar tabulation as a parameter instead of computing it.
- `np.seterr` (fe_utils/finite_elements.py:6): it is global floating-point
  error state. Floats are modelled as exact reals, so no error arises.
- Degree 0 on the triangle: line :34 divides by zero, which produces NaN
  nodes, and the edge slices use a negative length. Every triangle operation
  requires `degree >= 1`.
- EntityNodes.ComputeEntityNodes: it requires `degree >= 1` when `dim > 1`,
  for the same negative slice. The interval numbering is modelled for every
  degree.
- VectorElements.VectorFiniteElement.constructor: it requires `dim == 2` and
  `degree >= 1`. Lines :244 and :264 hard-code two components and
  `[[1, 0], [0, 1]]`, and the reshape at :244 fails for `dim == 1`.
- `__repr__` (fe_utils/finite_elements.py:161-164): string formatting only.
- The reference cell classes: reference_elements.py is not part of this
  model. A cell is its dimension.
- Floating point: node coordinates and matrix entries are exact reals, so the
  model has no rounding.
