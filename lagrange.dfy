/**
 * `getLagrangeCoef(size, nodes)`: the Lagrange coefficients at zero for the
 * participants whose (0-based) indices are in `nodes`, with the memo the
 * library keeps of them, keyed by the node set.
 *
 * Node i is evaluated at x = i + 1.  Entry i - 1 of the list is the product
 * of the participating x's other than i, divided by the product of their
 * differences from i; it is computed for every i in [1, size], participating
 * or not.
 */
module Lagrange {
  import opened ScalarField
  import opened Bytes
  import opened ScalarCodec
  import opened Polynomials
  import opened Interpolation

  /** The evaluation points of the participants below hi: j in [1, hi] with j - 1 in nodes, ascending. */
  function Xs(nodes: set<int>, hi: int): (xs: seq<int>)
    ensures forall k :: 0 <= k < |xs| ==> 1 <= xs[k] <= hi && xs[k] - 1 in nodes
    decreases hi
  {
    if hi <= 0 then [] else Xs(nodes, hi - 1) + (if hi - 1 in nodes then [hi] else [])
  }

  /** The participants are listed in ascending order, so each at most once. */
  lemma {:induction false} XsIncreasing(nodes: set<int>, hi: int)
    ensures forall k, m :: 0 <= k < m < |Xs(nodes, hi)| ==> Xs(nodes, hi)[k] < Xs(nodes, hi)[m]
    decreases hi
  {
    if hi > 0 {
      var prev := Xs(nodes, hi - 1);
      var xs := Xs(nodes, hi);
      XsIncreasing(nodes, hi - 1);
      assert xs == prev + (if hi - 1 in nodes then [hi] else []);
      forall k, m | 0 <= k < m < |xs|
        ensures xs[k] < xs[m]
      {
        if m < |prev| {
          assert xs[k] == prev[k] && xs[m] == prev[m];
        } else {
          assert xs[k] == prev[k] && xs[m] == hi;
        }
      }
    }
  }

  /** The evaluation points of the participants other than i: j in [1, hi], j != i, j - 1 in nodes. */
  function OthersRange(nodes: set<int>, i: int, hi: int): seq<int>
    decreases hi
  {
    if hi <= 0 then [] else OthersRange(nodes, i, hi - 1) + (if hi != i && hi - 1 in nodes then [hi] else [])
  }

  /** Entry i - 1 of `getLagrangeCoef(size, nodes)`: the product of the j's over the product of the (j - i)'s. */
  function LagrangeCoef(size: int, nodes: set<int>, i: int): Scalar {
    var others := OthersRange(nodes, i, size);
    Mul(Reduce(ProdDiffs(others, 0)), Inv(Reduce(ProdDiffs(others, i))))
  }

  /** The whole list `getLagrangeCoef(size, nodes)` computes. */
  function LagrangeCoefs(size: int, nodes: set<int>): (coefs: seq<Scalar>)
    ensures |coefs| == if size < 0 then 0 else size
  {
    seq(if size < 0 then 0 else size, m => LagrangeCoef(size, nodes, m + 1))
  }

  /** What a call returns, given the cache before it. */
  function Lookup(cached: map<set<int>, seq<Scalar>>, size: int, nodes: set<int>): seq<Scalar> {
    if nodes in cached then cached[nodes] else LagrangeCoefs(size, nodes)
  }

  /** The cache after a call. */
  function Stored(cached: map<set<int>, seq<Scalar>>, size: int, nodes: set<int>): map<set<int>, seq<Scalar>> {
    if nodes in cached then cached else cached[nodes := LagrangeCoefs(size, nodes)]
  }

  /**
   * The cache is keyed by the node set alone: once a list is stored for
   * `nodes`, every later call with the same set returns that list whatever
   * size it asks for, and leaves the cache as it is.
   */
  lemma CacheIgnoresSize(cached: map<set<int>, seq<Scalar>>, size: int, size': int, nodes: set<int>)
    ensures Lookup(Stored(cached, size, nodes), size', nodes) == Lookup(cached, size, nodes)
    ensures Stored(Stored(cached, size, nodes), size', nodes) == Stored(cached, size, nodes)
  {
  }

  /**
   * When every node is below both sizes, the list computed for the larger
   * size starts with the list computed for the smaller one: a list the
   * cache returns for another size then holds the right coefficient for
   * every participant.
   */
  lemma CoefsExtend(nodes: set<int>, size: int, size': int)
    requires 0 <= size <= size' && forall x :: x in nodes ==> x < size
    ensures LagrangeCoefs(size', nodes)[..size] == LagrangeCoefs(size, nodes)
  {
    forall m | 0 <= m < size
      ensures LagrangeCoefs(size', nodes)[m] == LagrangeCoefs(size, nodes)[m]
    {
      OthersRangeSaturates(nodes, m + 1, size, size');
    }
  }

  /** Past every node, no more participants are found. */
  lemma {:induction false} OthersRangeSaturates(nodes: set<int>, i: int, size: int, hi: int)
    requires size <= hi && forall x :: x in nodes ==> x < size
    ensures OthersRange(nodes, i, hi) == OthersRange(nodes, i, size)
    decreases hi - size
  {
    if hi > size {
      OthersRangeSaturates(nodes, i, size, hi - 1);
      assert hi - 1 !in nodes;
    }
  }

  /**
   * Two of three: nodes 0 and 2 sign at the points 1 and 3, and their
   * coefficients are 3 / (3 - 1) and 1 / (1 - 3) modulo L.
   */
  lemma TwoOfThreeCoefs()
    ensures LagrangeCoefs(3, {0, 2})[0] == Mul(3, Inv(2))
    ensures LagrangeCoefs(3, {0, 2})[2] == Mul(1, Inv(Reduce(1 - 3)))
  {
    var nodes := {0, 2};
    OthersRangeStep(nodes, 1, 1);
    OthersRangeStep(nodes, 1, 2);
    OthersRangeStep(nodes, 1, 3);
    assert OthersRange(nodes, 1, 3) == [3];
    assert ProdDiffs([3], 0) == 3 && ProdDiffs([3], 1) == 2;
    OthersRangeStep(nodes, 3, 1);
    OthersRangeStep(nodes, 3, 2);
    OthersRangeStep(nodes, 3, 3);
    assert OthersRange(nodes, 3, 3) == [1];
    assert ProdDiffs([1], 0) == 1 && ProdDiffs([1], 3) == 1 - 3;
  }

  /** The memo of coefficient lists, keyed by the node set alone. */
  class LagrangeCache {
    var cached: map<set<int>, seq<Scalar>>

    constructor ()
      ensures cached == map[]
    {
      cached := map[];
    }

    /**
     * `getLagrangeCoef(size, nodes)`.  A node set seen before gets back the
     * list stored for it, whatever `size` is now; a new one gets its
     * coefficients computed for `size` and stored.
     */
    method GetLagrangeCoef(size: Int32, nodes: set<int>) returns (coef: seq<Scalar>)
      modifies this
      ensures coef == Lookup(old(cached), size, nodes)
      ensures cached == Stored(old(cached), size, nodes)
    {
      if nodes in cached {
        return cached[nodes];
      }
      var index := Indices(size);
      var lagrangeCoef := seq(if size < 0 then 0 else size, _ => 1);
      var i := 1;
      while i <= size
        invariant 1 <= i && (i == 1 || i <= size + 1)
        invariant |lagrangeCoef| == if size < 0 then 0 else size
        invariant forall m :: i - 1 <= m < |lagrangeCoef| ==> lagrangeCoef[m] == 1
        invariant forall m :: 0 <= m < i - 1 ==> lagrangeCoef[m] == LagrangeCoef(size, nodes, m + 1)
        invariant cached == old(cached)
      {
        var c := CoefAt(index, size, nodes, i);
        lagrangeCoef := lagrangeCoef[i - 1 := c];
        i := i + 1;
      }
      assert lagrangeCoef == LagrangeCoefs(size, nodes);
      cached := cached[nodes := lagrangeCoef];
      coef := lagrangeCoef;
    }
  }

  /** The first loop of `getLagrangeCoef`: the scalars 1, ..., size. */
  method Indices(size: Int32) returns (index: seq<Scalar>)
    ensures |index| == if size < 0 then 0 else size
    ensures forall m :: 0 <= m < |index| ==> index[m] == m + 1
  {
    index := [];
    var i := 1;
    while i <= size
      invariant 1 <= i && (i == 1 || i <= size + 1)
      invariant |index| == i - 1
      invariant forall m :: 0 <= m < i - 1 ==> index[m] == m + 1
    {
      var x := ScalarFromBigInteger(i);
      index := index + [x];
      i := i + 1;
    }
  }

  /** The inner loop of `getLagrangeCoef` for one i: `factor * prodDiff.invert()`. */
  method CoefAt(index: seq<Scalar>, size: Int32, nodes: set<int>, i: int) returns (c: Scalar)
    requires |index| == size && 1 <= i <= size
    requires forall m :: 0 <= m < |index| ==> index[m] == m + 1
    ensures c == LagrangeCoef(size, nodes, i)
  {
    var prodDiff: Scalar := 1;
    var factor: Scalar := 1;
    ghost var others: seq<int> := [];
    var j := 1;
    while j <= size
      invariant 1 <= j <= size + 1
      invariant others == OthersRange(nodes, i, j - 1)
      invariant factor == Reduce(ProdDiffs(others, 0))
      invariant prodDiff == Reduce(ProdDiffs(others, i))
    {
      OthersRangeStep(nodes, i, j);
      if i != j && j - 1 in nodes {
        var dx := Sub(index[j - 1], index[i - 1]);
        ProductStep(others, j, 0, factor, index[j - 1]);
        ProductStep(others, j, i, prodDiff, dx);
        factor := Mul(factor, index[j - 1]);
        prodDiff := Mul(prodDiff, dx);
        others := others + [j];
      }
      j := j + 1;
    }
    c := Mul(factor, Inv(prodDiff));
  }

  lemma OthersRangeStep(nodes: set<int>, i: int, j: int)
    requires j >= 1
    ensures OthersRange(nodes, i, j) == OthersRange(nodes, i, j - 1) + (if j != i && j - 1 in nodes then [j] else [])
  {
  }

  /** One more factor (j - z) of a product of differences, modulo L. */
  lemma ProductStep(ys: seq<int>, j: int, z: int, acc: Scalar, d: Scalar)
    requires acc == Reduce(ProdDiffs(ys, z)) && d == (j - z) % L
    ensures Mul(acc, d) == Reduce(ProdDiffs(ys + [j], z))
  {
    assert (ys + [j])[..|ys|] == ys;
    ModMul(acc, ProdDiffs(ys, z), d, j - z);
  }

  // ---------------------------------------------------------------------
  // The coefficients are the interpolation weights of the participants.

  lemma XsStep(nodes: set<int>, i: int)
    requires i >= 0
    ensures Xs(nodes, i + 1) == Xs(nodes, i) + (if i in nodes then [i + 1] else [])
  {
  }

  /** The participants below i come first among those below hi. */
  lemma {:induction false} XsPrefix(nodes: set<int>, i: int, hi: int)
    requires i <= hi
    ensures |Xs(nodes, i)| <= |Xs(nodes, hi)|
    ensures Xs(nodes, hi)[..|Xs(nodes, i)|] == Xs(nodes, i)
    decreases hi - i
  {
    if i < hi {
      XsPrefix(nodes, i, hi - 1);
      if hi > 0 {
        assert Xs(nodes, hi)[..|Xs(nodes, hi - 1)|] == Xs(nodes, hi - 1);
      }
    }
  }

  /** Below i, the participants other than i are all the participants. */
  lemma {:induction false} OthersRangeBelow(nodes: set<int>, i: int, hi: int)
    requires hi < i
    ensures OthersRange(nodes, i, hi) == Xs(nodes, hi)
    decreases hi
  {
    if hi > 0 {
      OthersRangeBelow(nodes, i, hi - 1);
    }
  }

  /** For the k-th participant, the "other" points are the participant list with entry k removed. */
  lemma {:induction false} OthersRangeIsOthers(nodes: set<int>, hi: int, k: nat)
    requires k < |Xs(nodes, hi)|
    ensures OthersRange(nodes, Xs(nodes, hi)[k], hi) == Others(Xs(nodes, hi), k)
    decreases hi
  {
    var xs := Xs(nodes, hi);
    var prev := Xs(nodes, hi - 1);
    if k < |prev| {
      var e := if hi - 1 in nodes then [hi] else [];
      assert xs == prev + e;
      assert xs[k] == prev[k];
      OthersRangeIsOthers(nodes, hi - 1, k);
      assert xs[..k] == prev[..k];
      assert xs[k + 1..] == prev[k + 1..] + e;
    } else {
      assert xs == prev + [hi];
      OthersRangeBelow(nodes, hi, hi - 1);
      assert xs[..k] == prev;
    }
  }

  /**
   * The coefficient of the k-th participant is its Lagrange weight at zero
   * among the participants' evaluation points.
   */
  lemma CoefIsWeight(size: int, nodes: set<int>, k: nat)
    requires k < |Xs(nodes, size)|
    ensures Xs(nodes, size)[k] - 1 < |LagrangeCoefs(size, nodes)|
    ensures LagrangeCoefs(size, nodes)[Xs(nodes, size)[k] - 1] == Weight(Xs(nodes, size), k)
  {
    OthersRangeIsOthers(nodes, size, k);
  }
}
