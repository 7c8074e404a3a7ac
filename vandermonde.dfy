/** The generalised Vandermonde builder `vandermonde_matrix`: the complete
    monomial basis of a given degree, in a fixed order, evaluated at a list of
    points, or its gradient. Values are exact reals. */
module Vandermonde {
  import opened Common

  /** The exponents `(i, j)` of the monomial `x^i y^j`. */
  type Exponents = (nat, nat)

  function TotalDegree(e: Exponents): nat
  {
    e.0 + e.1
  }

  /** `inner_range(k) = zip(range(k, -1, -1), range(k + 1))`: the monomials of
      total degree `k`, from `x^k` down to `y^k`. */
  function InnerRange(k: nat): (r: seq<Exponents>)
    ensures |r| == k + 1
    ensures forall t :: 0 <= t <= k ==> r[t] == (k - t, t)
  {
    Zip(Reverse(Range(0, k + 1)), Range(0, k + 1))
  }

  /** The exponents of the 2D basis: the groups `inner_range(k)` for
      `k = 0 .. degree`, concatenated in that order. */
  function Monomials2(degree: nat): seq<Exponents>
  {
    if degree == 0 then InnerRange(0) else Monomials2(degree - 1) + InnerRange(degree)
  }

  /** The dimension of the complete polynomial space of the given degree. */
  function BasisSize(dim: nat, degree: nat): nat
  {
    if dim == 1 then degree + 1 else (degree + 1) * (degree + 2) / 2
  }

  /** `x ** n` on exact reals; `x ** 0 == 1` also for `x == 0`. */
  function Pow(x: real, n: nat): real
  {
    if n == 0 then 1.0 else x * Pow(x, n - 1)
  }

  /** One entry of a gradient row, kept symbolic: the exact zero, or
      `coef * x^xExp * y^yExp`. */
  datatype Term = Zero | Mono(coef: nat, xExp: nat, yExp: nat)

  /** The x-derivative of `x^i y^j`: `0` when `i == 0` (no `x^-1` is formed),
      otherwise `i x^(i-1) y^j` (finite_elements.py:64, :67). */
  function DerivX(e: Exponents): Term
  {
    if e.0 != 0 then Mono(e.0, e.0 - 1, e.1) else Zero
  }

  /** The y-derivative of `x^i y^j`: `0` when `j == 0`, otherwise
      `j x^i y^(j-1)` (finite_elements.py:68). */
  function DerivY(e: Exponents): Term
  {
    if e.1 != 0 then Mono(e.1, e.0, e.1 - 1) else Zero
  }

  /** The 1D derivative of `x^i`: `0` when `i == 0`, otherwise `i x^(i-1)`
      (finite_elements.py:64). */
  function DerivX1(i: nat): Term
  {
    if i != 0 then Mono(i, i - 1, 0) else Zero
  }

  function EvalTerm(term: Term, x: real, y: real): real
  {
    match term
    case Zero => 0.0
    case Mono(c, a, b) => c as real * Pow(x, a) * Pow(y, b)
  }

  /** A 1D term, where the y exponent is always zero. */
  function EvalTerm1(term: Term, x: real): real
  {
    match term
    case Zero => 0.0
    case Mono(c, a, _) => c as real * Pow(x, a)
  }

  /** `[x**i for i in range(degree + 1)]` */
  function ValueRow1(degree: nat, x: real): seq<real>
  {
    seq(degree + 1, i requires 0 <= i <= degree => Pow(x, i))
  }

  /** `x**i * y**j` */
  function MonomialValue(e: Exponents, x: real, y: real): real
  {
    Pow(x, e.0) * Pow(y, e.1)
  }

  /** The monomials listed in `m`, evaluated at `(x, y)`. */
  function ValuesOf(m: seq<Exponents>, x: real, y: real): (r: seq<real>)
    ensures |r| == |m|
  {
    seq(|m|, t requires 0 <= t < |m| => MonomialValue(m[t], x, y))
  }

  /** The value row of the 2D basis at `(x, y)`, in `Monomials2` order. */
  function ValueRow2(degree: nat, x: real, y: real): (r: seq<real>)
    ensures |r| == |Monomials2(degree)|
  {
    ValuesOf(Monomials2(degree), x, y)
  }

  /** The 1D gradient row: one 1-tuple per monomial. */
  function GradRow1(degree: nat, x: real): seq<seq<real>>
  {
    seq(degree + 1, i requires 0 <= i <= degree => [EvalTerm1(DerivX1(i), x)])
  }

  /** The 2D gradient row: `[d/dx, d/dy]` per monomial, in `Monomials2` order
      (the transpose at finite_elements.py:70). */
  function GradRow2(degree: nat, x: real, y: real): (r: seq<seq<real>>)
    ensures |r| == |Monomials2(degree)|
    ensures forall t :: 0 <= t < |r| ==> |r[t]| == 2
  {
    GradientsOf(Monomials2(degree), x, y)
  }

  /** The gradients of the monomials listed in `m`, evaluated at `(x, y)`. */
  function GradientsOf(m: seq<Exponents>, x: real, y: real): (r: seq<seq<real>>)
    ensures |r| == |m|
    ensures forall t :: 0 <= t < |r| ==> |r[t]| == 2
  {
    seq(|m|, t requires 0 <= t < |m| => GradEntry2(m[t], x, y))
  }

  /** `[d/dx, d/dy]` of one monomial at `(x, y)`. */
  function GradEntry2(e: Exponents, x: real, y: real): (r: seq<real>)
    ensures |r| == 2
  {
    [EvalTerm(DerivX(e), x, y), EvalTerm(DerivY(e), x, y)]
  }

  /** How many coordinates a point must unpack into: `(x,)` on the interval,
      `(x, y)` on every other cell. */
  function Arity(dim: nat): nat
  {
    if dim == 1 then 1 else 2
  }

  predicate PointsFit(dim: nat, points: seq<seq<real>>)
  {
    forall k :: 0 <= k < |points| ==> |points[k]| == Arity(dim)
  }

  function ValueRow(dim: nat, degree: nat, p: seq<real>): seq<real>
    requires |p| == Arity(dim)
  {
    if dim == 1 then ValueRow1(degree, p[0]) else ValueRow2(degree, p[0], p[1])
  }

  function GradRow(dim: nat, degree: nat, p: seq<real>): seq<seq<real>>
    requires |p| == Arity(dim)
  {
    if dim == 1 then GradRow1(degree, p[0]) else GradRow2(degree, p[0], p[1])
  }

  /** `vandermonde_matrix(cell, degree, points)`: one row per point, one column
      per basis monomial. A cell of dimension above 2 fails the assertion; a
      point of the wrong length fails to unpack. */
  function VandermondeMatrix(dim: nat, degree: nat, points: seq<seq<real>>): (r: Result<seq<seq<real>>>)
    ensures dim > 2 ==> r == Err(UnsupportedDimension)
    ensures dim <= 2 ==> (r.Ok? <==> PointsFit(dim, points))
    ensures r.Err? ==> r.error in {UnsupportedDimension, PointArity}
    ensures r.Ok? ==> |r.value| == |points|
    ensures r.Ok? ==> forall k :: 0 <= k < |points| ==>
              |points[k]| == Arity(dim) &&
              r.value[k] == ValueRow(dim, degree, points[k]) &&
              |r.value[k]| == BasisSize(dim, degree)
  {
    if dim > 2 then Err(UnsupportedDimension)
    else if !PointsFit(dim, points) then Err(PointArity)
    else
      var rows := seq(|points|, k requires 0 <= k < |points| => ValueRow(dim, degree, points[k]));
      RowLengths(dim, degree, points);
      Ok(rows)
  }

  /** `vandermonde_matrix(cell, degree, points, grad=True)`: shape
      `(points, basis, dim)` with the same errors as the value mode. */
  function VandermondeGradient(dim: nat, degree: nat, points: seq<seq<real>>): (r: Result<seq<seq<seq<real>>>>)
    ensures dim > 2 ==> r == Err(UnsupportedDimension)
    ensures dim <= 2 ==> (r.Ok? <==> PointsFit(dim, points))
    ensures r.Err? ==> r.error in {UnsupportedDimension, PointArity}
    ensures r.Ok? ==> |r.value| == |points|
    ensures r.Ok? ==> forall k :: 0 <= k < |points| ==>
              |points[k]| == Arity(dim) &&
              r.value[k] == GradRow(dim, degree, points[k]) &&
              |r.value[k]| == BasisSize(dim, degree) &&
              forall t :: 0 <= t < |r.value[k]| ==> |r.value[k][t]| == Arity(dim)
  {
    if dim > 2 then Err(UnsupportedDimension)
    else if !PointsFit(dim, points) then Err(PointArity)
    else
      var rows := seq(|points|, k requires 0 <= k < |points| => GradRow(dim, degree, points[k]));
      RowLengths(dim, degree, points);
      Ok(rows)
  }

  lemma RowLengths(dim: nat, degree: nat, points: seq<seq<real>>)
    requires PointsFit(dim, points)
    ensures forall k :: 0 <= k < |points| ==>
              |ValueRow(dim, degree, points[k])| == BasisSize(dim, degree) &&
              |GradRow(dim, degree, points[k])| == BasisSize(dim, degree)
  {
    MonomialsLength(degree);
  }

  // ---------------------------------------------------------------------
  // Monomial order

  /** `inner_range(k)` holds exactly the exponent pairs summing to `k`. */
  lemma InnerRangeMembers(k: nat)
    ensures forall e :: e in InnerRange(k) <==> TotalDegree(e) == k
  {
    forall e: Exponents | TotalDegree(e) == k ensures e in InnerRange(k) {
      assert InnerRange(k)[e.1] == e;
    }
  }

  /** The 2D basis has `(degree + 1)(degree + 2) / 2` monomials. */
  lemma {:induction false} MonomialsLength(degree: nat)
    ensures 2 * |Monomials2(degree)| == (degree + 1) * (degree + 2)
    ensures |Monomials2(degree)| == BasisSize(2, degree)
  {
    if degree > 0 {
      MonomialsLength(degree - 1);
    }
  }

  /** The 2D basis holds every monomial of total degree at most `degree`
      and no other. */
  lemma {:induction false} MonomialsMembers(degree: nat)
    ensures forall e :: e in Monomials2(degree) <==> TotalDegree(e) <= degree
  {
    InnerRangeMembers(degree);
    if degree > 0 {
      MonomialsMembers(degree - 1);
    }
  }

  /** Graded order: by total degree, and within one degree by decreasing
      power of `x`. Distinctness follows. */
  ghost predicate GradedOrder(s: seq<Exponents>)
  {
    forall a, b :: 0 <= a < b < |s| ==>
      TotalDegree(s[a]) < TotalDegree(s[b]) ||
      (TotalDegree(s[a]) == TotalDegree(s[b]) && s[a].0 > s[b].0)
  }

  lemma {:induction false} MonomialsGraded(degree: nat)
    ensures GradedOrder(Monomials2(degree))
    ensures Distinct(Monomials2(degree))
  {
    if degree > 0 {
      MonomialsGraded(degree - 1);
      MonomialsMembers(degree - 1);
      GradedAppend(Monomials2(degree - 1), degree);
    }
    GradedDistinct(Monomials2(degree));
  }

  /** Appending the group of degree `k` after monomials of lower degree keeps
      the graded order. */
  lemma GradedAppend(prev: seq<Exponents>, k: nat)
    requires GradedOrder(prev)
    requires forall e :: e in prev ==> TotalDegree(e) < k
    ensures GradedOrder(prev + InnerRange(k))
  {
    var m := prev + InnerRange(k);
    forall a, b | 0 <= a < b < |m|
      ensures TotalDegree(m[a]) < TotalDegree(m[b]) ||
              (TotalDegree(m[a]) == TotalDegree(m[b]) && m[a].0 > m[b].0)
    {
      if b < |prev| {
        assert m[a] == prev[a] && m[b] == prev[b];
      } else if a < |prev| {
        assert m[a] in prev;
      }
    }
  }

  lemma GradedDistinct(s: seq<Exponents>)
    requires GradedOrder(s)
    ensures Distinct(s)
  {
    forall a, b | 0 <= a < |s| && 0 <= b < |s| && a != b ensures s[a] != s[b] {
    }
  }

  // ---------------------------------------------------------------------
  // Gradient rule

  /** The derivative terms of one monomial `x^i y^j`, evaluated. */
  lemma DerivativeTerms(e: Exponents, x: real, y: real)
    ensures EvalTerm(DerivX(e), x, y) ==
              if e.0 == 0 then 0.0 else e.0 as real * Pow(x, e.0 - 1) * Pow(y, e.1)
    ensures EvalTerm(DerivY(e), x, y) ==
              if e.1 == 0 then 0.0 else e.1 as real * Pow(x, e.0) * Pow(y, e.1 - 1)
  {
  }

  /** The gradient rule of `vandermonde_matrix` for the monomials `m`: the
      value entry of `x^i y^j` is `x^i y^j`, and its gradient entry is
      `[0 or i x^(i-1) y^j, 0 or j x^i y^(j-1)]`, exactly `0` where the
      differentiated exponent is zero. */
  ghost predicate GradientRuleHolds(m: seq<Exponents>, x: real, y: real)
  {
    forall t :: 0 <= t < |m| ==>
      var (i, j) := m[t];
      var g := GradientsOf(m, x, y)[t];
      ValuesOf(m, x, y)[t] == Pow(x, i) * Pow(y, j) &&
      g[0] == (if i == 0 then 0.0 else i as real * Pow(x, i - 1) * Pow(y, j)) &&
      g[1] == (if j == 0 then 0.0 else j as real * Pow(x, i) * Pow(y, j - 1))
  }

  lemma GradientRuleOf(m: seq<Exponents>, x: real, y: real)
    ensures GradientRuleHolds(m, x, y)
  {
    forall t | 0 <= t < |m|
      ensures var (i, j) := m[t];
              var g := GradientsOf(m, x, y)[t];
              ValuesOf(m, x, y)[t] == Pow(x, i) * Pow(y, j) &&
              g[0] == (if i == 0 then 0.0 else i as real * Pow(x, i - 1) * Pow(y, j)) &&
              g[1] == (if j == 0 then 0.0 else j as real * Pow(x, i) * Pow(y, j - 1))
    {
      DerivativeTerms(m[t], x, y);
    }
  }

  /** The 2D value and gradient rows follow the gradient rule, entry by
      entry, in the same monomial order. */
  lemma GradientRule2(degree: nat, x: real, y: real)
    ensures GradientRuleHolds(Monomials2(degree), x, y)
    ensures ValueRow2(degree, x, y) == ValuesOf(Monomials2(degree), x, y)
    ensures GradRow2(degree, x, y) == GradientsOf(Monomials2(degree), x, y)
  {
    GradientRuleOf(Monomials2(degree), x, y);
  }

  /** The 1D gradient entry of `x^i` is `0` for `i == 0` and `i x^(i-1)`
      otherwise. */
  lemma GradientRule1(degree: nat, x: real)
    ensures |GradRow1(degree, x)| == |ValueRow1(degree, x)| == degree + 1
    ensures forall i :: 0 <= i <= degree ==>
              |GradRow1(degree, x)[i]| == 1 &&
              GradRow1(degree, x)[i][0] == (if i == 0 then 0.0 else i as real * Pow(x, i - 1))
  {
    forall i: nat | i <= degree
      ensures |GradRow1(degree, x)[i]| == 1 &&
              GradRow1(degree, x)[i][0] == (if i == 0 then 0.0 else i as real * Pow(x, i - 1))
    {
      GradRow1At(degree, x, i);
    }
  }

  lemma GradRow1At(degree: nat, x: real, i: nat)
    requires i <= degree
    ensures |GradRow1(degree, x)[i]| == 1
    ensures GradRow1(degree, x)[i][0] == EvalTerm1(DerivX1(i), x)
    ensures GradRow1(degree, x)[i][0] == (if i == 0 then 0.0 else i as real * Pow(x, i - 1))
  {
    DerivativeTerm1(i, x);
  }

  lemma DerivativeTerm1(i: nat, x: real)
    ensures EvalTerm1(DerivX1(i), x) == if i == 0 then 0.0 else i as real * Pow(x, i - 1)
  {
  }

  /** `x * d/dx (x^i y^j) == i * x^i y^j`, including the `i == 0` case. */
  lemma EulerX(e: Exponents, x: real, y: real)
    ensures x * EvalTerm(DerivX(e), x, y) == e.0 as real * (Pow(x, e.0) * Pow(y, e.1))
  {
    if e.0 != 0 {
      calc {
        x * EvalTerm(DerivX(e), x, y);
        x * (e.0 as real * Pow(x, e.0 - 1) * Pow(y, e.1));
        e.0 as real * ((x * Pow(x, e.0 - 1)) * Pow(y, e.1));
      }
    }
  }

  lemma EulerY(e: Exponents, x: real, y: real)
    ensures y * EvalTerm(DerivY(e), x, y) == e.1 as real * (Pow(x, e.0) * Pow(y, e.1))
  {
    if e.1 != 0 {
      calc {
        y * EvalTerm(DerivY(e), x, y);
        y * (e.1 as real * Pow(x, e.0) * Pow(y, e.1 - 1));
        e.1 as real * (Pow(x, e.0) * (y * Pow(y, e.1 - 1)));
      }
    }
  }

  /** Euler's identity for one monomial: `x * d/dx m + y * d/dy m == k * m`
      for `m = x^i y^j` of total degree `k = i + j`. */
  lemma EulerMonomial(e: Exponents, x: real, y: real)
    ensures x * GradEntry2(e, x, y)[0] + y * GradEntry2(e, x, y)[1]
            == TotalDegree(e) as real * MonomialValue(e, x, y)
  {
    EulerX(e, x, y);
    EulerY(e, x, y);
    SumTimes(e.0, e.1, MonomialValue(e, x, y));
  }

  /** Euler's identity for homogeneous polynomials, over the monomials `m`:
      `x * d/dx m + y * d/dy m == k * m` for each `m` of total degree `k`. */
  ghost predicate EulerHolds(m: seq<Exponents>, x: real, y: real)
  {
    forall t :: 0 <= t < |m| ==>
      x * GradientsOf(m, x, y)[t][0] + y * GradientsOf(m, x, y)[t][1]
      == TotalDegree(m[t]) as real * ValuesOf(m, x, y)[t]
  }

  lemma EulerOf(m: seq<Exponents>, x: real, y: real)
    ensures EulerHolds(m, x, y)
  {
    forall t | 0 <= t < |m|
      ensures x * GradientsOf(m, x, y)[t][0] + y * GradientsOf(m, x, y)[t][1]
              == TotalDegree(m[t]) as real * ValuesOf(m, x, y)[t]
    {
      EulerMonomial(m[t], x, y);
    }
  }

  /** Euler's identity ties the 2D gradient rows to the value rows. */
  lemma EulerIdentity2(degree: nat, x: real, y: real)
    ensures EulerHolds(Monomials2(degree), x, y)
  {
    EulerOf(Monomials2(degree), x, y);
  }

  lemma SumTimes(a: nat, b: nat, v: real)
    ensures (a + b) as real * v == a as real * v + b as real * v
  {
  }

  /** The 1D form: `x * d/dx x^i == i * x^i`. */
  lemma EulerIdentity1(degree: nat, x: real)
    ensures forall i :: 0 <= i <= degree ==>
              x * GradRow1(degree, x)[i][0] == i as real * ValueRow1(degree, x)[i]
  {
    forall i | 0 <= i <= degree
      ensures x * GradRow1(degree, x)[i][0] == i as real * ValueRow1(degree, x)[i]
    {
      EulerAt1(degree, x, i);
    }
  }

  lemma EulerAt1(degree: nat, x: real, i: nat)
    requires i <= degree
    ensures x * GradRow1(degree, x)[i][0] == i as real * ValueRow1(degree, x)[i]
  {
    EulerTerm1((i, 0), x);
  }

  /** `x * d/dx x^i == i * x^i` for one 1D monomial. */
  lemma EulerTerm1(e: Exponents, x: real)
    ensures x * EvalTerm1(DerivX1(e.0), x) == e.0 as real * Pow(x, e.0)
  {
    if e.0 != 0 {
      calc {
        x * EvalTerm1(DerivX1(e.0), x);
        x * (e.0 as real * Pow(x, e.0 - 1));
        e.0 as real * (x * Pow(x, e.0 - 1));
      }
    }
  }
}
