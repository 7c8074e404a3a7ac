/** Shared vocabulary of the model: the exceptions the source can raise on the
    paths that are modelled, a result wrapper for them, and the Python list
    idioms the source relies on (ranges, clamped slices, zip, concatenation). */
module Common {

  /** The failures of the modelled code, named after what raises them. */
  datatype Error =
    | UnsupportedDimension  // `assert dim <= 2` in vandermonde_matrix
    | PointArity            // a point that does not unpack as `(x,)` or `(x, y)`
    | MissingEntity         // `entity_nodes[d][0]` raising KeyError
    | NotSquare             // `np.linalg.inv` refusing a non-square matrix
    | ShapeMismatch         // `@` on two vectors of different lengths

  datatype Result<T> = Ok(value: T) | Err(error: Error)

  datatype Option<T> = None | Some(value: T)

  /** `list(range(a, b))`: empty when `b <= a`. */
  function Range(a: nat, b: nat): (r: seq<nat>)
    ensures |r| == if a <= b then b - a else 0
    ensures forall k :: 0 <= k < |r| ==> r[k] == a + k
  {
    if a <= b then seq(b - a, k requires 0 <= k < b - a => a + k as nat) else []
  }

  lemma RangeSplit(a: nat, m: nat, b: nat)
    requires a <= m <= b
    ensures Range(a, b) == Range(a, m) + Range(m, b)
  {
  }

  lemma RangeCons(a: nat, b: nat)
    requires a < b
    ensures Range(a, b) == [a] + Range(a + 1, b)
  {
    RangeSplit(a, a + 1, b);
  }

  lemma RangeMembers(a: nat, b: nat)
    ensures forall t :: t in Range(a, b) <==> a <= t < b
  {
    forall t | a <= t < b ensures t in Range(a, b) {
      assert Range(a, b)[t - a] == t;
    }
  }

  /** `s[:k]` for a non-negative `k`: Python clamps the bound to the length. */
  function Take<T>(s: seq<T>, k: nat): (r: seq<T>)
    ensures |r| == if k <= |s| then k else |s|
    ensures r == s[..|r|]
  {
    if k <= |s| then s[..k] else s
  }

  /** `s[k:]` for a non-negative `k`: empty once `k` passes the end. */
  function Drop<T>(s: seq<T>, k: nat): (r: seq<T>)
    ensures |r| == if k <= |s| then |s| - k else 0
    ensures r == s[|s| - |r|..]
  {
    if k <= |s| then s[k..] else []
  }

  lemma TakeRange(a: nat, b: nat, k: nat)
    requires a <= b
    ensures Take(Range(a, b), k) == Range(a, if a + k <= b then a + k else b)
  {
  }

  lemma DropRange(a: nat, b: nat, k: nat)
    requires a <= b
    ensures Drop(Range(a, b), k) == Range(if a + k <= b then a + k else b, b)
  {
  }

  /** `list(zip(a, b))`: stops at the shorter list. */
  function Zip<A, B>(a: seq<A>, b: seq<B>): (r: seq<(A, B)>)
    ensures |r| == if |a| <= |b| then |a| else |b|
    ensures forall k :: 0 <= k < |r| ==> r[k] == (a[k], b[k])
  {
    seq(if |a| <= |b| then |a| else |b|, k requires 0 <= k < |a| && k < |b| => (a[k], b[k]))
  }

  /** `list(reversed(s))` */
  function Reverse<T>(s: seq<T>): (r: seq<T>)
    ensures |r| == |s|
    ensures forall k :: 0 <= k < |s| ==> r[k] == s[|s| - 1 - k]
  {
    seq(|s|, k requires 0 <= k < |s| => s[|s| - 1 - k])
  }

  /** Concatenation of a list of lists, in order. */
  function Concat<T>(ss: seq<seq<T>>): (r: seq<T>)
  {
    if ss == [] then [] else ss[0] + Concat(ss[1..])
  }

  /** Concatenating lists that all have two elements lays element `k % 2` of
      list `k / 2` at position `k`. */
  lemma {:induction false} ConcatPairs<T>(ss: seq<seq<T>>, k: nat)
    requires forall i :: 0 <= i < |ss| ==> |ss[i]| == 2
    requires k < 2 * |ss|
    ensures |Concat(ss)| == 2 * |ss|
    ensures Concat(ss)[k] == ss[k / 2][k % 2]
  {
    if k < 2 {
      ConcatPairsLength(ss[1..]);
    } else {
      ConcatPairs(ss[1..], k - 2);
    }
  }

  lemma {:induction false} ConcatPairsLength<T>(ss: seq<seq<T>>)
    requires forall i :: 0 <= i < |ss| ==> |ss[i]| == 2
    ensures |Concat(ss)| == 2 * |ss|
  {
    if ss != [] {
      ConcatPairsLength(ss[1..]);
    }
  }

  /** No element occurs twice. */
  ghost predicate Distinct<T>(s: seq<T>)
  {
    forall a, b :: 0 <= a < |s| && 0 <= b < |s| && a != b ==> s[a] != s[b]
  }

  /** Strictly increasing, hence a list of distinct indices in order. */
  ghost predicate Increasing(s: seq<nat>)
  {
    forall a, b :: 0 <= a < b < |s| ==> s[a] < s[b]
  }
}
