/**
 * Polynomials with integer coefficients, lowest degree first, and the facts
 * about them that Shamir sharing and Lagrange interpolation rest on:
 * Horner's rule equals the power sum, synthetic division by (X - a), and a
 * polynomial of fewer than t coefficients that vanishes modulo L at t points
 * with invertible differences vanishes modulo L everywhere.
 */
module Polynomials {
  import opened ScalarField

  type Poly = seq<int>

  /** Sum over i of a[i] * x^i, accumulated from a[0] upwards. */
  function PowerSum(a: Poly, x: int): int {
    if a == [] then 0 else PowerSum(a[..|a| - 1], x) + a[|a| - 1] * Pow(x, |a| - 1)
  }

  /** Horner's rule: a[0] + x * (a[1] + x * (a[2] + ...)). */
  function Horner(a: Poly, x: int): int {
    if a == [] then 0 else a[0] + x * Horner(a[1..], x)
  }

  /** c * p */
  function Scale(c: int, p: Poly): (r: Poly)
    ensures |r| == |p|
  {
    seq(|p|, i requires 0 <= i < |p| => c * p[i])
  }

  /** p + q */
  function PAdd(p: Poly, q: Poly): (r: Poly)
    ensures |r| == if |p| < |q| then |q| else |p|
  {
    if p == [] then q
    else if q == [] then p
    else [p[0] + q[0]] + PAdd(p[1..], q[1..])
  }

  /** p + c */
  function AddConstant(p: Poly, c: int): (r: Poly)
    ensures |r| == if p == [] then 1 else |p|
  {
    if p == [] then [c] else [p[0] + c] + p[1..]
  }

  /** p * (y - X) */
  function MulLinear(p: Poly, y: int): (r: Poly)
    ensures |r| == if p == [] then 0 else |p| + 1
  {
    if p == [] then [] else [p[0] * y] + AddConstant(MulLinear(p[1..], y), -p[0])
  }

  /** The product of (y - X) over the ys, as a polynomial. */
  function LinearProduct(ys: seq<int>): (r: Poly)
    ensures |r| == |ys| + 1
  {
    if ys == [] then [1] else MulLinear(LinearProduct(ys[..|ys| - 1]), ys[|ys| - 1])
  }

  /** The product of (y - z) over the ys, as a number. */
  function ProdDiffs(ys: seq<int>, z: int): int {
    if ys == [] then 1 else ProdDiffs(ys[..|ys| - 1], z) * (ys[|ys| - 1] - z)
  }

  /** The quotient of p by (X - a) (synthetic division). */
  function Quotient(p: Poly, a: int): (q: Poly)
    ensures |q| == if p == [] then 0 else |p| - 1
  {
    if |p| <= 1 then [] else [Horner(p[1..], a)] + Quotient(p[1..], a)
  }

  // ---------------------------------------------------------------------
  // Evaluation lemmas (exact, over the integers).

  lemma {:induction false} HornerAppend(a: Poly, c: int, x: int)
    ensures Horner(a + [c], x) == Horner(a, x) + c * Pow(x, |a|)
  {
    if a == [] {
      assert Horner([c], x) == c + x * Horner([], x);
    } else {
      assert (a + [c])[1..] == a[1..] + [c];
      HornerAppend(a[1..], c, x);
      var h := Horner(a[1..], x);
      var p := Pow(x, |a| - 1);
      assert Horner(a + [c], x) == a[0] + x * (h + c * p);
      assert Pow(x, |a|) == p * x;
      AppendStep(a[0], x, h, c, p);
    }
  }

  /** Horner's rule computes the power sum. */
  lemma {:induction false} HornerIsPowerSum(a: Poly, x: int)
    ensures Horner(a, x) == PowerSum(a, x)
  {
    if a != [] {
      var prefix := a[..|a| - 1];
      HornerIsPowerSum(prefix, x);
      assert a == prefix + [a[|a| - 1]];
      HornerAppend(prefix, a[|a| - 1], x);
    }
  }

  lemma {:induction false} HornerScale(c: int, p: Poly, z: int)
    ensures Horner(Scale(c, p), z) == c * Horner(p, z)
  {
    if p != [] {
      assert Scale(c, p)[1..] == Scale(c, p[1..]);
      HornerScale(c, p[1..], z);
      var h := Horner(p[1..], z);
      assert Horner(Scale(c, p), z) == c * p[0] + z * (c * h);
      ScaleStep(c, p[0], z, h);
    }
  }

  lemma {:induction false} HornerPAdd(p: Poly, q: Poly, z: int)
    ensures Horner(PAdd(p, q), z) == Horner(p, z) + Horner(q, z)
  {
    if p != [] && q != [] {
      HornerPAdd(p[1..], q[1..], z);
      assert PAdd(p, q)[1..] == PAdd(p[1..], q[1..]);
      var hp := Horner(p[1..], z);
      var hq := Horner(q[1..], z);
      assert Horner(PAdd(p, q), z) == (p[0] + q[0]) + z * (hp + hq);
      AddStep(p[0], q[0], z, hp, hq);
    }
  }

  lemma HornerAddConstant(p: Poly, c: int, z: int)
    ensures Horner(AddConstant(p, c), z) == Horner(p, z) + c
  {
    if p != [] {
      assert AddConstant(p, c)[1..] == p[1..];
    }
  }

  lemma {:induction false} HornerMulLinear(p: Poly, y: int, z: int)
    ensures Horner(MulLinear(p, y), z) == Horner(p, z) * (y - z)
  {
    if p != [] {
      var rest := MulLinear(p[1..], y);
      HornerMulLinear(p[1..], y, z);
      assert MulLinear(p, y)[1..] == AddConstant(rest, -p[0]);
      HornerAddConstant(rest, -p[0], z);
      var h := Horner(p[1..], z);
      assert Horner(MulLinear(p, y), z) == p[0] * y + z * (h * (y - z) - p[0]);
      LinearStep(p[0], y, z, h);
    }
  }

  /** The product polynomial evaluates to the product of the differences. */
  lemma {:induction false} HornerLinearProduct(ys: seq<int>, z: int)
    ensures Horner(LinearProduct(ys), z) == ProdDiffs(ys, z)
  {
    if ys == [] {
      assert Horner([1], z) == 1 + z * Horner([], z);
    } else {
      HornerLinearProduct(ys[..|ys| - 1], z);
      HornerMulLinear(LinearProduct(ys[..|ys| - 1]), ys[|ys| - 1], z);
    }
  }

  /** p(z) = (z - a) * q(z) + p(a), where q is the quotient of p by (X - a). */
  lemma {:induction false} QuotientCorrect(p: Poly, a: int, z: int)
    ensures Horner(p, z) == (z - a) * Horner(Quotient(p, a), z) + Horner(p, a)
  {
    if |p| == 1 {
      assert Horner(p, z) == p[0] + z * Horner(p[1..], z);
      assert Horner(p, a) == p[0] + a * Horner(p[1..], a);
    } else if |p| > 1 {
      var tail := p[1..];
      QuotientCorrect(tail, a, z);
      var hq := Horner(Quotient(tail, a), z);
      var ha := Horner(tail, a);
      assert Quotient(p, a)[1..] == Quotient(tail, a);
      assert Horner(Quotient(p, a), z) == ha + z * hq;
      assert Horner(p, z) == p[0] + z * ((z - a) * hq + ha);
      assert Horner(p, a) == p[0] + a * ha;
      QuotientStep(p[0], a, z, hq, ha);
    }
  }

  /** The product of differences is zero when z is one of the ys. */
  lemma {:induction false} ProdDiffsRoot(ys: seq<int>, z: int)
    requires z in ys
    ensures ProdDiffs(ys, z) == 0
  {
    if ys[|ys| - 1] != z {
      assert z in ys[..|ys| - 1] by {
        var k :| 0 <= k < |ys| && ys[k] == z;
        assert ys[..|ys| - 1][k] == z;
      }
      ProdDiffsRoot(ys[..|ys| - 1], z);
    }
  }

  /** The product of differences is a unit when every difference is. */
  lemma {:induction false} ProdDiffsUnit(ys: seq<int>, z: int)
    requires forall y :: y in ys ==> IsUnit(y - z)
    ensures IsUnit(ProdDiffs(ys, z))
  {
    if ys == [] {
      assert Mul(Reduce(1), 1) == 1;
    } else {
      var prefix := ys[..|ys| - 1];
      assert forall y :: y in prefix ==> y in ys;
      ProdDiffsUnit(prefix, z);
      assert ys[|ys| - 1] in ys;
      UnitMul(ProdDiffs(prefix, z), ys[|ys| - 1] - z);
    }
  }

  // Ring identities used by the evaluation lemmas, each on plain integers.

  lemma AppendStep(a0: int, x: int, h: int, c: int, p: int)
    ensures a0 + x * (h + c * p) == (a0 + x * h) + c * (p * x)
  {
  }

  lemma ScaleStep(c: int, p0: int, z: int, h: int)
    ensures c * p0 + z * (c * h) == c * (p0 + z * h)
  {
  }

  lemma AddStep(p0: int, q0: int, z: int, hp: int, hq: int)
    ensures (p0 + q0) + z * (hp + hq) == (p0 + z * hp) + (q0 + z * hq)
  {
  }

  lemma LinearStep(p0: int, y: int, z: int, h: int)
    ensures p0 * y + z * (h * (y - z) - p0) == (p0 + z * h) * (y - z)
  {
  }

  lemma QuotientStep(p0: int, a: int, z: int, hq: int, ha: int)
    ensures p0 + z * ((z - a) * hq + ha) == (z - a) * (ha + z * hq) + (p0 + a * ha)
  {
  }

  // ---------------------------------------------------------------------
  // Uniqueness modulo L.

  /** Points whose pairwise differences are invertible modulo L (so, in particular, distinct). */
  ghost predicate Separated(xs: seq<int>) {
    forall i, j :: 0 <= i < |xs| && 0 <= j < |xs| && i != j ==> IsUnit(xs[i] - xs[j])
  }

  /** h is zero modulo L at every point of xs. */
  ghost predicate VanishesOn(h: Poly, xs: seq<int>) {
    forall k :: 0 <= k < |xs| ==> Horner(h, xs[k]) % L == 0
  }

  /**
   * A polynomial with at most t coefficients that vanishes modulo L at t
   * separated points vanishes modulo L everywhere.
   */
  lemma {:induction false} VanishingPolyIsZero(h: Poly, xs: seq<int>, z: int)
    requires |h| <= |xs| && Separated(xs) && VanishesOn(h, xs)
    ensures Horner(h, z) % L == 0
    decreases |h|
  {
    if h != [] {
      var q := Quotient(h, xs[0]);
      QuotientVanishesOn(h, xs);
      SeparatedTail(xs);
      VanishingPolyIsZero(q, xs[1..], z);
      assert Horner(h, xs[0]) % L == 0;
      QuotientCorrect(h, xs[0], z);
      VanishStep(z - xs[0], Horner(q, z), Horner(h, xs[0]));
    }
  }

  lemma SeparatedTail(xs: seq<int>)
    requires |xs| > 0 && Separated(xs)
    ensures Separated(xs[1..])
  {
    forall i, j | 0 <= i < |xs| - 1 && 0 <= j < |xs| - 1 && i != j
      ensures IsUnit(xs[1..][i] - xs[1..][j])
    {
      assert xs[1..][i] == xs[i + 1] && xs[1..][j] == xs[j + 1];
    }
  }

  /** Dividing out the root xs[0] keeps all the other roots. */
  lemma QuotientVanishesOn(h: Poly, xs: seq<int>)
    requires |xs| > 0 && Separated(xs) && VanishesOn(h, xs)
    ensures VanishesOn(Quotient(h, xs[0]), xs[1..])
  {
    var rest := xs[1..];
    forall k | 0 <= k < |rest|
      ensures Horner(Quotient(h, xs[0]), rest[k]) % L == 0
    {
      assert rest[k] == xs[k + 1];
      assert IsUnit(xs[k + 1] - xs[0]);
      assert Horner(h, xs[k + 1]) % L == 0;
      assert Horner(h, xs[0]) % L == 0;
      QuotientVanishes(h, xs[0], rest[k]);
    }
  }

  /** Dividing out a root keeps every other root whose distance from it is a unit. */
  lemma QuotientVanishes(h: Poly, a: int, x: int)
    requires IsUnit(x - a)
    requires Horner(h, a) % L == 0 && Horner(h, x) % L == 0
    ensures Horner(Quotient(h, a), x) % L == 0
  {
    QuotientCorrect(h, a, x);
    RootStep(x - a, Horner(Quotient(h, a), x), Horner(h, a), Horner(h, x));
    CancelUnit(x - a, Horner(Quotient(h, a), x), 0);
  }

  lemma RootStep(d: int, hq: int, ha: int, hx: int)
    requires hx == d * hq + ha && ha % L == 0 && hx % L == 0
    ensures (d * hq) % L == (d * 0) % L
  {
    ModShift(d * hq, ha / L);
  }

  lemma VanishStep(d: int, hq: int, ha: int)
    requires hq % L == 0 && ha % L == 0
    ensures (d * hq + ha) % L == 0
  {
    ModMul(d, d, hq, 0);
    ModAdd(d * hq, 0, ha, 0);
  }
}
