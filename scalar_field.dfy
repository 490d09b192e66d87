/**
 * The scalar field Z_L of Ed25519: integers modulo the order L of the
 * prime-order subgroup generated by the basepoint B.  This is the part of the
 * curve library's `Scalar` that the threshold protocol relies on: canonical
 * residues, addition, subtraction, multiplication and inversion.
 *
 * Every operation returns the canonical representative in [0, L).  The
 * lemmas at the end are the congruence facts the rest of the model uses
 * instead of reasoning about `%` directly.
 */
module ScalarField {

  /** L = 2^252 + 27742317777372353535851937790883648493. */
  const L: int := 0x1000000000000000000000000000000014def9dea2f79cd65812631a5cf5d3ed

  /** A canonical scalar: a residue modulo L. */
  type Scalar = x: int | 0 <= x < L

  function Reduce(x: int): Scalar { x % L }

  function Add(a: Scalar, b: Scalar): Scalar { (a + b) % L }

  function Sub(a: Scalar, b: Scalar): Scalar { (a - b) % L }

  function Mul(a: Scalar, b: Scalar): Scalar { (a * b) % L }

  function Neg(a: Scalar): Scalar { (L - a) % L }

  /** x has a multiplicative inverse modulo L. */
  ghost predicate IsUnit(x: int) {
    exists y: Scalar :: Mul(Reduce(x), y) == 1
  }

  /**
   * The library's `invert`: the inverse of x when x has one, and 0 otherwise.
   * (The library computes x^(L-2), which is exactly this when L is prime.)
   */
  function Inv(x: Scalar): (r: Scalar)
    ensures IsUnit(x) ==> Mul(x, r) == 1
    ensures !IsUnit(x) ==> r == 0
  {
    if exists y: int | 0 <= y < L :: (x * y) % L == 1 then
      InverseUnique(x);
      var y: int :| 0 <= y < L && (x * y) % L == 1;
      assert Mul(Reduce(x), y) == 1;
      y
    else
      0
  }

  /** Sum of a sequence of scalars, accumulated left to right from zero. */
  function Sum(s: seq<Scalar>): Scalar {
    if s == [] then 0 else Add(Sum(s[..|s| - 1]), s[|s| - 1])
  }

  /** Integer power (no reduction). */
  function Pow(x: int, k: nat): int {
    if k == 0 then 1 else Pow(x, k - 1) * x
  }

  // ---------------------------------------------------------------------
  // Congruence facts.

  lemma ModShift(x: int, k: int)
    ensures (x + L * k) % L == x % L
  {
  }

  lemma ModAdd(a: int, a': int, b: int, b': int)
    requires a % L == a' % L && b % L == b' % L
    ensures (a + b) % L == (a' + b') % L
  {
    ModShift(a' + b', (a / L - a' / L) + (b / L - b' / L));
  }

  lemma ModSub(a: int, a': int, b: int, b': int)
    requires a % L == a' % L && b % L == b' % L
    ensures (a - b) % L == (a' - b') % L
  {
    ModShift(a' - b', (a / L - a' / L) - (b / L - b' / L));
  }

  lemma ModMul(a: int, a': int, b: int, b': int)
    requires a % L == a' % L && b % L == b' % L
    ensures (a * b) % L == (a' * b') % L
  {
    var qa := a / L - a' / L;
    var qb := b / L - b' / L;
    assert a == a' + L * qa;
    assert b == b' + L * qb;
    assert a * b == a' * b' + L * (a' * qb + qa * b' + L * qa * qb);
    ModShift(a' * b', a' * qb + qa * b' + L * qa * qb);
  }

  lemma MulOfReduced(x: int, y: int)
    ensures ((x % L) * (y % L)) % L == (x * y) % L
  {
    ModMul(x, x % L, y, y % L);
  }

  lemma ModIdem(a: int)
    ensures (a % L) % L == a % L
  {
  }

  /** The inverse is unique when it exists. */
  lemma InverseUnique(x: Scalar)
    ensures forall y: int, z: int ::
      0 <= y < L && 0 <= z < L && (x * y) % L == 1 && (x * z) % L == 1 ==> y == z
  {
    forall y: int, z: int | 0 <= y < L && 0 <= z < L && (x * y) % L == 1 && (x * z) % L == 1
      ensures y == z
    {
      InverseOf(x, y, z);
    }
  }

  lemma InverseOf(x: int, y: int, z: int)
    requires 0 <= y < L && 0 <= z < L
    requires (x * y) % L == 1 && (x * z) % L == 1
    ensures y == z
  {
    ModMul(y, y, x * z, 1);
    assert y * (x * z) == (x * y) * z;
    ModMul(x * y, 1, z, z);
  }

  /** Multiplying by a unit can be undone. */
  lemma CancelUnit(u: int, a: int, b: int)
    requires IsUnit(u)
    requires (u * a) % L == (u * b) % L
    ensures a % L == b % L
  {
    var v: Scalar :| Mul(Reduce(u), v) == 1;
    UnitWitness(u, v);
    CancelWith(u, v, a, b);
  }

  lemma UnitWitness(u: int, v: Scalar)
    requires Mul(Reduce(u), v) == 1
    ensures (u * v) % L == 1
  {
    ModMul(u, u % L, v, v);
  }

  lemma CancelWith(u: int, v: int, a: int, b: int)
    requires (u * v) % L == 1
    requires (u * a) % L == (u * b) % L
    ensures a % L == b % L
  {
    UndoFactor(u, v, a);
    UndoFactor(u, v, b);
    ModMul(v, v, u * a, u * b);
  }

  lemma UndoFactor(u: int, v: int, a: int)
    requires (u * v) % L == 1
    ensures (v * (u * a)) % L == a % L
  {
    assert v * (u * a) == (u * v) * a;
    ModMul(u * v, 1, a, a);
  }

  /** A product of units is a unit. */
  lemma UnitMul(a: int, b: int)
    requires IsUnit(a) && IsUnit(b)
    ensures IsUnit(a * b)
  {
    var u: Scalar :| Mul(Reduce(a), u) == 1;
    var v: Scalar :| Mul(Reduce(b), v) == 1;
    InverseOfProduct(a, b, u, v);
  }

  lemma InverseOfProduct(a: int, b: int, u: Scalar, v: Scalar)
    requires Mul(Reduce(a), u) == 1 && Mul(Reduce(b), v) == 1
    ensures Mul(Reduce(a * b), Mul(u, v)) == 1
  {
    ModMul(a, a % L, u, u);
    ModMul(b, b % L, v, v);
    ProductOfInverses(a, b, u, v);
    MulOfReduced(a * b, u * v);
  }

  lemma ProductOfInverses(a: int, b: int, u: int, v: int)
    requires (a * u) % L == 1 && (b * v) % L == 1
    ensures ((a * b) * (u * v)) % L == 1
  {
    assert (a * b) * (u * v) == (a * u) * (b * v);
    ModMul(a * u, 1, b * v, 1);
  }

  /** Congruent integers are units together. */
  lemma UnitCong(a: int, b: int)
    requires a % L == b % L
    ensures IsUnit(a) == IsUnit(b)
  {
    assert Reduce(a) == Reduce(b);
  }

  /** u * Inv(u mod L) is congruent to 1 for a unit u. */
  lemma InvCancels(u: int)
    requires IsUnit(u)
    ensures (u * Inv(Reduce(u))) % L == 1
  {
    var r := Reduce(u);
    var w := Inv(r);
    ModIdem(u);
    UnitCong(u, r);
    assert Mul(r, w) == 1;
    ModMul(u, r, w, w);
  }

  // ---------------------------------------------------------------------
  // Small differences are units.

  /** The inverse of d modulo L, for 0 < |d| <= 6. */
  function SmallInverse(d: int): (y: Scalar)
    requires d != 0 && -6 <= d <= 6
    ensures Mul(Reduce(d), y) == 1
  {
    match d
      case 1 => 1
      case 2 => 3618502788666131106986593281521497120428558179689953803000975469142727125495
      case 3 => 4824670384888174809315457708695329493904744239586605070667967292190302833993
      case 4 => 5427754182999196660479889922282245680642837269534930704501463203714090688242
      case 5 => 1447401115466452442794637312608598848171423271875981521200390187657090850198
      case 6 => 6030837981110218511644322135869161867380930299483256338334959115237878542491
      case -1 => 7237005577332262213973186563042994240857116359379907606001950938285454250988
      case -2 => 3618502788666131106986593281521497120428558179689953803000975469142727125494
      case -3 => 2412335192444087404657728854347664746952372119793302535333983646095151416996
      case -4 => 1809251394333065553493296640760748560214279089844976901500487734571363562747
      case -5 => 5789604461865809771178549250434395392685693087503926084801560750628363400791
      case -6 => 1206167596222043702328864427173832373476186059896651267666991823047575708498
  }

  /**
   * Every nonzero d with |d| <= 6 is invertible modulo L.  (L is prime, so
   * every d not divisible by L is; the model proves only the cases it uses.)
   */
  lemma SmallUnit(d: int)
    requires d != 0 && -6 <= d <= 6
    ensures IsUnit(d)
  {
    var y := SmallInverse(d);
    assert Mul(Reduce(d), y) == 1;
  }

  /** k (-a) + k a = 0, modulo L. */
  lemma NegProduct(k: Scalar, a: Scalar)
    ensures Add(Mul(k, Neg(a)), Mul(k, a)) == 0
  {
    var na := Neg(a);
    NegCongruent(a);
    ModMul(k, k, na, -(a as int));
    NegatedProduct(k, a);
    OppositeResidues(k * na, k * a);
  }

  lemma OppositeResidues(q: int, p: int)
    requires q % L == (-p) % L
    ensures (q % L + p % L) % L == 0
  {
    ModAdd(q % L, -p, p % L, p);
  }

  lemma NegCongruent(a: Scalar)
    ensures Neg(a) % L == (-(a as int)) % L
  {
    ModShift(-(a as int), 1);
    ModIdem(L - a);
  }

  lemma NegatedProduct(k: int, a: int)
    ensures k * -a == -(k * a)
  {
  }

  /** When x + y = 0, adding y and adding x undo each other. */
  lemma CancelPair(x: Scalar, y: Scalar, s: Scalar, r: Scalar)
    requires Add(x, y) == 0
    ensures s == Add(r, y) <==> Add(x, s) == r
  {
    if s == Add(r, y) {
      AddThenCancel(x, y, r);
    }
    if Add(x, s) == r {
      AddThenCancel(y, x, s);
    }
  }

  lemma AddThenCancel(x: Scalar, y: Scalar, r: Scalar)
    requires (x + y) % L == 0
    ensures (x + (r + y) % L) % L == r
  {
    ModAdd(x, x, (r + y) % L, r + y);
    assert x + (r + y) == r + (x + y);
    ModAdd(r, r, x + y, 0);
  }

  /** (S + D k) + (v k + r) = (S + r) + (D + v) k, modulo L. */
  lemma RegroupSum(S: Scalar, D: Scalar, v: Scalar, r: Scalar, k: Scalar)
    ensures Add(Add(S, Mul(D, k)), Add(Mul(v, k), r)) == Add(Add(S, r), Mul(Add(D, v), k))
  {
    MulAddDistrib(D, v, k);
    Rearrange(S, Mul(D, k), Mul(v, k), r);
  }

  /** (D + v) k = D k + v k, modulo L. */
  lemma MulAddDistrib(D: Scalar, v: Scalar, k: Scalar)
    ensures Mul(Add(D, v), k) == Add(Mul(D, k), Mul(v, k))
  {
    var dk := D * k;
    var vk := v * k;
    ModIdem(D + v);
    ModMul(Add(D, v), D + v, k, k);
    Distrib(D, v, k);
    assert Mul(Add(D, v), k) == (dk + vk) % L;
    AddMod(dk, vk);
  }

  lemma Distrib(D: int, v: int, k: int)
    ensures (D + v) * k == D * k + v * k
  {
  }

  /** (S + a) + (b + r) = (S + r) + (a + b), modulo L. */
  lemma Rearrange(S: Scalar, a: Scalar, b: Scalar, r: Scalar)
    ensures Add(Add(S, a), Add(b, r)) == Add(Add(S, r), Add(a, b))
  {
    var u := S + a + b + r;
    AddMod(S + a, b + r);
    assert Add(Add(S, a), Add(b, r)) == u % L;
    AddMod(S + r, a + b);
    assert Add(Add(S, r), Add(a, b)) == u % L;
  }

  lemma MulComm(a: Scalar, b: Scalar)
    ensures Mul(a, b) == Mul(b, a)
  {
  }

  /** Reducing the summands first does not change the sum modulo L. */
  lemma AddMod(x: int, y: int)
    ensures (x % L + y % L) % L == (x + y) % L
  {
    ModIdem(x);
    ModIdem(y);
    ModAdd(x % L, x, y % L, y);
  }
}
