/**
 * Lagrange interpolation at zero modulo L: the weights the threshold scheme
 * multiplies the shares by, and the theorem that the weighted sum of t
 * evaluations of a polynomial with at most t coefficients is its constant
 * term.
 */
module Interpolation {
  import opened ScalarField
  import opened Polynomials

  /** All the points but the k-th, in order. */
  function Others(xs: seq<int>, k: nat): (r: seq<int>)
    requires k < |xs|
    ensures |r| == |xs| - 1
  {
    xs[..k] + xs[k + 1..]
  }

  /** Every point other than the k-th is among the others. */
  lemma OthersMember(xs: seq<int>, k: nat, j: nat)
    requires k < |xs| && j < |xs| && j != k
    ensures xs[j] in Others(xs, k)
  {
    if j < k {
      assert Others(xs, k)[j] == xs[j];
    } else {
      assert Others(xs, k)[j - 1] == xs[j];
    }
  }

  /**
   * The Lagrange weight at zero of the point x among xs: the product of the
   * other points divided by the product of their differences from x.
   */
  function Weight(xs: seq<int>, k: nat): Scalar
    requires k < |xs|
  {
    var others := Others(xs, k);
    Mul(Reduce(ProdDiffs(others, 0)), Inv(Reduce(ProdDiffs(others, xs[k]))))
  }

  /** The weights of all the points, in order. */
  function Weights(xs: seq<int>): (ws: seq<Scalar>)
    ensures |ws| == |xs|
  {
    seq(|xs|, k requires 0 <= k < |xs| => Weight(xs, k))
  }

  /** The sum over k < m of vals[k] * ws[k], accumulated modulo L. */
  function Dot(vals: seq<Scalar>, ws: seq<Scalar>, m: nat): Scalar
    requires m <= |vals| && m <= |ws|
  {
    if m == 0 then 0 else Add(Dot(vals, ws, m - 1), Mul(vals[m - 1], ws[m - 1]))
  }

  /** The evaluations of f at the points, reduced modulo L. */
  function Evaluations(f: Poly, xs: seq<int>): (vals: seq<Scalar>)
    ensures |vals| == |xs|
  {
    seq(|xs|, k requires 0 <= k < |xs| => Reduce(Horner(f, xs[k])))
  }

  /**
   * Threshold reconstruction: the weighted sum of the values of f at t
   * separated points is f(0) modulo L whenever f has at most t coefficients.
   */
  lemma Reconstruction(f: Poly, xs: seq<int>)
    requires |f| <= |xs| && Separated(xs)
    ensures Dot(Evaluations(f, xs), Weights(xs), |xs|) == Reduce(Horner(f, 0))
  {
    var n := |xs|;
    var vals := Evaluations(f, xs);
    var ws := Weights(xs);
    var cs := Coefs(f, xs);
    InterpolantAtZero(f, xs, cs);
    var ts := seq(n, k requires 0 <= k < n => cs[k] * ProdDiffs(Others(xs, k), 0));
    forall k | 0 <= k < n
      ensures TermAgrees(vals, ws, ts, k)
    {
      assert IsCoef(f, xs, cs, k);
      TermIsWeighted(xs, vals[k], ws[k], cs[k], f, k);
    }
    DotIsSum(vals, ws, ts, n);
    BlendValueIsSum(xs, cs, ts, n);
  }

  /** f(0) agrees modulo L with the interpolating polynomial at zero. */
  lemma InterpolantAtZero(f: Poly, xs: seq<int>, cs: seq<int>)
    requires |f| <= |xs| == |cs| && Separated(xs)
    requires forall k :: 0 <= k < |xs| ==> IsCoef(f, xs, cs, k)
    ensures Horner(f, 0) % L == BlendValue(xs, cs, |xs|, 0) % L
  {
    var n := |xs|;
    var g := Blend(xs, cs, n);
    var h := PAdd(f, Scale(-1, g));
    BlendLength(xs, cs, n);
    forall j | 0 <= j < n
      ensures Horner(h, xs[j]) % L == 0
    {
      assert IsCoef(f, xs, cs, j);
      ResidualAtNode(f, xs, cs, j);
    }
    assert VanishesOn(h, xs);
    VanishingPolyIsZero(h, xs, 0);
    var f0 := Horner(f, 0);
    var g0 := BlendValue(xs, cs, n, 0);
    HornerPAdd(f, Scale(-1, g), 0);
    HornerScale(-1, g, 0);
    BlendEval(xs, cs, n, 0);
    assert Horner(h, 0) == f0 + -1 * g0;
    DifferenceZero(f0, g0);
  }

  /** f minus the interpolating polynomial vanishes modulo L at every node. */
  lemma ResidualAtNode(f: Poly, xs: seq<int>, cs: seq<int>, j: nat)
    requires Separated(xs) && j < |xs| && |cs| == |xs|
    requires IsCoef(f, xs, cs, j)
    ensures Horner(PAdd(f, Scale(-1, Blend(xs, cs, |xs|))), xs[j]) % L == 0
  {
    var g := Blend(xs, cs, |xs|);
    HornerPAdd(f, Scale(-1, g), xs[j]);
    HornerScale(-1, g, xs[j]);
    InterpolantAtNode(f, xs, cs, j);
    CancelOut(Horner(f, xs[j]), Horner(g, xs[j]));
  }

  /** The interpolating polynomial agrees with f modulo L at every node. */
  lemma InterpolantAtNode(f: Poly, xs: seq<int>, cs: seq<int>, j: nat)
    requires Separated(xs) && j < |xs| && |cs| == |xs|
    requires IsCoef(f, xs, cs, j)
    ensures Horner(Blend(xs, cs, |xs|), xs[j]) % L == Horner(f, xs[j]) % L
  {
    var hj := Horner(f, xs[j]);
    var d := Denominator(xs, j);
    var w := Inv(Reduce(d));
    BlendEval(xs, cs, |xs|, xs[j]);
    BlendAfterNode(xs, cs, |xs|, j);
    DenominatorUnit(xs, j);
    InvCancels(d);
    CoefficientAtNode(hj, d, w);
  }

  lemma CancelOut(a: int, b: int)
    requires b % L == a % L
    ensures (a + -1 * b) % L == 0
  {
    ModSub(a, a, b, a);
  }

  // ---------------------------------------------------------------------
  // The interpolating polynomial G = sum of c_k * prod over the others (y - X).

  /** c_k = f(x_k) / D_k, so that c_k * D_k is f(x_k) modulo L. */
  ghost predicate IsCoef(f: Poly, xs: seq<int>, cs: seq<int>, k: nat)
    requires k < |xs| == |cs|
  {
    cs[k] == Horner(f, xs[k]) * Inv(Reduce(Denominator(xs, k)))
  }

  function Coefs(f: Poly, xs: seq<int>): (cs: seq<int>)
    ensures |cs| == |xs|
  {
    seq(|xs|, k requires 0 <= k < |xs| => Horner(f, xs[k]) * Inv(Reduce(Denominator(xs, k))))
  }

  function Denominator(xs: seq<int>, k: nat): int
    requires k < |xs|
  {
    ProdDiffs(Others(xs, k), xs[k])
  }

  function Blend(xs: seq<int>, cs: seq<int>, m: nat): Poly
    requires |cs| == |xs| && m <= |xs|
  {
    if m == 0 then [] else PAdd(Blend(xs, cs, m - 1), Scale(cs[m - 1], LinearProduct(Others(xs, m - 1))))
  }

  function BlendValue(xs: seq<int>, cs: seq<int>, m: nat, z: int): int
    requires |cs| == |xs| && m <= |xs|
  {
    if m == 0 then 0 else BlendValue(xs, cs, m - 1, z) + cs[m - 1] * ProdDiffs(Others(xs, m - 1), z)
  }

  lemma {:induction false} BlendLength(xs: seq<int>, cs: seq<int>, m: nat)
    requires |cs| == |xs| && m <= |xs|
    ensures |Blend(xs, cs, m)| <= |xs|
  {
    if m > 0 {
      BlendLength(xs, cs, m - 1);
    }
  }

  lemma {:induction false} BlendEval(xs: seq<int>, cs: seq<int>, m: nat, z: int)
    requires |cs| == |xs| && m <= |xs|
    ensures Horner(Blend(xs, cs, m), z) == BlendValue(xs, cs, m, z)
  {
    if m == 0 {
      BlendEvalEmpty(xs, cs, z);
    } else {
      BlendEval(xs, cs, m - 1, z);
      BlendEvalStep(xs, cs, m, z);
    }
  }

  lemma BlendEvalEmpty(xs: seq<int>, cs: seq<int>, z: int)
    requires |cs| == |xs|
    ensures Horner(Blend(xs, cs, 0), z) == BlendValue(xs, cs, 0, z)
  {
    assert Blend(xs, cs, 0) == [];
  }

  lemma BlendEvalStep(xs: seq<int>, cs: seq<int>, m: nat, z: int)
    requires |cs| == |xs| && 0 < m <= |xs|
    requires Horner(Blend(xs, cs, m - 1), z) == BlendValue(xs, cs, m - 1, z)
    ensures Horner(Blend(xs, cs, m), z) == BlendValue(xs, cs, m, z)
  {
    var others := Others(xs, m - 1);
    var p := LinearProduct(others);
    var c := cs[m - 1];
    HornerPAdd(Blend(xs, cs, m - 1), Scale(c, p), z);
    HornerScale(c, p, z);
    HornerLinearProduct(others, z);
    BlendValueStep(xs, cs, m, z);
  }

  lemma BlendValueStep(xs: seq<int>, cs: seq<int>, m: nat, z: int)
    requires |cs| == |xs| && 0 < m <= |xs|
    ensures BlendValue(xs, cs, m, z) == BlendValue(xs, cs, m - 1, z) + cs[m - 1] * ProdDiffs(Others(xs, m - 1), z)
  {
  }

  /** At the node xs[j], the terms before the j-th vanish. */
  lemma {:induction false} BlendBeforeNode(xs: seq<int>, cs: seq<int>, m: nat, j: nat)
    requires |cs| == |xs| && m <= j < |xs|
    ensures BlendValue(xs, cs, m, xs[j]) == 0
  {
    if m > 0 {
      BlendBeforeNode(xs, cs, m - 1, j);
      BlendValueStep(xs, cs, m, xs[j]);
      OthersMember(xs, m - 1, j);
      ProdDiffsRoot(Others(xs, m - 1), xs[j]);
    }
  }

  /** At the node xs[j], only the j-th term survives. */
  lemma {:induction false} BlendAfterNode(xs: seq<int>, cs: seq<int>, m: nat, j: nat)
    requires |cs| == |xs| && j < m <= |xs|
    ensures BlendValue(xs, cs, m, xs[j]) == cs[j] * Denominator(xs, j)
  {
    BlendValueStep(xs, cs, m, xs[j]);
    if m == j + 1 {
      BlendBeforeNode(xs, cs, j, j);
    } else {
      BlendAfterNode(xs, cs, m - 1, j);
      OthersMember(xs, m - 1, j);
      var p := ProdDiffs(Others(xs, m - 1), xs[j]);
      ProdDiffsRoot(Others(xs, m - 1), xs[j]);
      assert cs[m - 1] * p == 0;
    }
  }

  /** The denominator of a weight is invertible. */
  lemma DenominatorUnit(xs: seq<int>, k: nat)
    requires Separated(xs) && k < |xs|
    ensures IsUnit(Denominator(xs, k))
  {
    var others := Others(xs, k);
    forall y | y in others
      ensures IsUnit(y - xs[k])
    {
      var i :| 0 <= i < |others| && others[i] == y;
      OtherAt(xs, k, i);
    }
    ProdDiffsUnit(others, xs[k]);
  }

  /** The i-th of the others is a point of xs other than the k-th. */
  lemma OtherAt(xs: seq<int>, k: nat, i: nat)
    requires Separated(xs) && k < |xs| && i < |xs| - 1
    ensures IsUnit(Others(xs, k)[i] - xs[k])
  {
    var j := if i < k then i else i + 1;
    assert Others(xs, k)[i] == xs[j];
  }

  /** (h * w) * d is h modulo L when d * w is 1 modulo L. */
  lemma CoefficientAtNode(h: int, d: int, w: int)
    requires (d * w) % L == 1
    ensures ((h * w) * d) % L == h % L
  {
    assert (h * w) * d == h * (d * w);
    ModMul(h, h, d * w, 1);
  }

  lemma DifferenceZero(a: int, b: int)
    requires (a + -1 * b) % L == 0
    ensures a % L == b % L
  {
    ModShift(b, (a + -1 * b) / L);
  }

  /** The sum of the first m entries of ts, over the integers. */
  function IntSum(ts: seq<int>, m: nat): int
    requires m <= |ts|
  {
    if m == 0 then 0 else IntSum(ts, m - 1) + ts[m - 1]
  }

  /** The k-th product vals[k] * ws[k] is ts[k] modulo L. */
  ghost predicate TermAgrees(vals: seq<Scalar>, ws: seq<Scalar>, ts: seq<int>, k: nat)
    requires k < |vals| && k < |ws| && k < |ts|
  {
    Mul(vals[k], ws[k]) == ts[k] % L
  }

  /** Accumulating products modulo L agrees with the integer sum of their representatives. */
  lemma {:induction false} DotIsSum(vals: seq<Scalar>, ws: seq<Scalar>, ts: seq<int>, m: nat)
    requires m <= |vals| && m <= |ws| && m <= |ts|
    requires forall k :: 0 <= k < m ==> TermAgrees(vals, ws, ts, k)
    ensures Dot(vals, ws, m) == IntSum(ts, m) % L
  {
    if m != 0 {
      DotIsSum(vals, ws, ts, m - 1);
      assert TermAgrees(vals, ws, ts, m - 1);
      DotStep(vals, ws, m);
      AccumulateStep(Dot(vals, ws, m), Dot(vals, ws, m - 1), IntSum(ts, m - 1), IntSum(ts, m),
                     Mul(vals[m - 1], ws[m - 1]), ts[m - 1]);
    }
  }

  lemma DotStep(vals: seq<Scalar>, ws: seq<Scalar>, m: nat)
    requires 0 < m <= |vals| && m <= |ws|
    ensures Dot(vals, ws, m) == (Dot(vals, ws, m - 1) + Mul(vals[m - 1], ws[m - 1])) % L
  {
  }

  lemma AccumulateStep(d: int, dm: int, b: int, bm: int, mu: int, t: int)
    requires dm == b % L && mu == t % L
    requires d == (dm + mu) % L && bm == b + t
    ensures d == bm % L
  {
    ModAdd(dm, b, mu, t);
  }

  /** The interpolant's value at zero is the integer sum of its terms. */
  lemma {:induction false} BlendValueIsSum(xs: seq<int>, cs: seq<int>, ts: seq<int>, m: nat)
    requires |cs| == |xs| == |ts| && m <= |xs|
    requires forall k :: 0 <= k < |xs| ==> ts[k] == cs[k] * ProdDiffs(Others(xs, k), 0)
    ensures BlendValue(xs, cs, m, 0) == IntSum(ts, m)
  {
    if m != 0 {
      BlendValueIsSum(xs, cs, ts, m - 1);
      BlendValueStep(xs, cs, m, 0);
    }
  }

  /** A value times its weight is c_k times the numerator of the weight, modulo L. */
  lemma TermIsWeighted(xs: seq<int>, v: Scalar, w: Scalar, c: int, f: Poly, k: nat)
    requires k < |xs|
    requires v == Reduce(Horner(f, xs[k])) && w == Weight(xs, k)
    requires c == Horner(f, xs[k]) * Inv(Reduce(Denominator(xs, k)))
    ensures Mul(v, w) == (c * ProdDiffs(Others(xs, k), 0)) % L
  {
    var h := Horner(f, xs[k]);
    var inv := Inv(Reduce(Denominator(xs, k)));
    var num := ProdDiffs(Others(xs, k), 0);
    assert w == ((num % L) * inv) % L;
    WeightedTerm(h, num, inv);
  }

  /** vals[k] * Weight(xs[k]) is c_k times the numerator modulo L. */
  lemma WeightedTerm(h: int, num: int, inv: int)
    ensures ((h % L) * ((num % L) * inv % L)) % L == ((h * inv) * num) % L
  {
    ModMul(num % L, num, inv, inv);
    ModMul(h % L, h, (num % L) * inv % L, num * inv);
    assert h * (num * inv) == (h * inv) * num;
  }
}
