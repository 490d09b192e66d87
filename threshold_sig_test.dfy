/**
 * `ThresholdSigEd25519Test`: the library's two end-to-end scenarios and the
 * `combine` helper they use to sum several dealers' parameters into those
 * of one joint key (a Pedersen-style distributed key generation in which
 * every dealer shares its own secret over the same nodes).
 *
 * The randomness every scenario draws (dealer secrets, polynomial
 * coefficients, nonce randomness) is passed in; each scenario is proved to
 * end with `verify` answering true, whatever those values are.
 */
module ThresholdSigEd25519Test {
  import opened ScalarField
  import opened Bytes
  import opened Wrappers
  import opened ScalarCodec
  import opened Group
  import opened Polynomials
  import opened Lagrange
  import opened ThresholdSig

  /** The message both scenarios sign: "test" in UTF-8. */
  const TO_SIGN: seq<Byte> := [0x74, 0x65, 0x73, 0x74]

  // ---------------------------------------------------------------------
  // combine

  /** The dealers' public keys, in order. */
  function Keys(params: seq<Params>): (keys: seq<seq<Byte>>)
    reads params
    ensures |keys| == |params|
    ensures forall j :: 0 <= j < |params| ==> keys[j] == params[j].publicKey
  {
    if params == [] then [] else Keys(params[..|params| - 1]) + [params[|params| - 1].publicKey]
  }

  /** The dealers' share lists, in order. */
  function ShareLists(params: seq<Params>): (lists: seq<seq<Scalar>>)
    reads params
    ensures |lists| == |params|
    ensures forall j :: 0 <= j < |params| ==> lists[j] == params[j].privateShares
  {
    if params == [] then [] else ShareLists(params[..|params| - 1]) + [params[|params| - 1].privateShares]
  }

  /** `new CompressedEdwardsY(key).decompress()` succeeds: the key is 32 bytes that decode to a point. */
  predicate Decodable(prim: Primitives, key: seq<Byte>) {
    |key| == 32 && prim.decompress(key).Some?
  }

  /** `combine` does not throw: every dealer's key decodes and has a share at each of the count positions. */
  predicate Combinable(prim: Primitives, keys: seq<seq<Byte>>, lists: seq<seq<Scalar>>, count: int) {
    |keys| == |lists| && forall j :: 0 <= j < |keys| ==> Decodable(prim, keys[j]) && count <= |lists[j]|
  }

  /** The dealers' decoded public keys. */
  function Decoded(prim: Primitives, keys: seq<seq<Byte>>): (ps: seq<Point>)
    requires forall j :: 0 <= j < |keys| ==> Decodable(prim, keys[j])
    ensures |ps| == |keys|
  {
    if keys == [] then []
    else
      var key := keys[|keys| - 1];
      assert Decodable(prim, key);
      Decoded(prim, keys[..|keys| - 1]) + [prim.decompress(key).value]
  }

  /** Entry i of the dealers' share lists, summed modulo L, first dealer first. */
  function ColumnSum(lists: seq<seq<Scalar>>, i: nat): Scalar
    requires forall j :: 0 <= j < |lists| ==> i < |lists[j]|
  {
    if lists == [] then 0 else Add(ColumnSum(lists[..|lists| - 1], i), lists[|lists| - 1][i])
  }

  /** The first count entries of the dealers' share lists, summed position by position. */
  function CombinedShares(lists: seq<seq<Scalar>>, count: nat): (shares: seq<Scalar>)
    requires forall j :: 0 <= j < |lists| ==> count <= |lists[j]|
    ensures |shares| == count
  {
    seq(count, i requires 0 <= i < count => ColumnSum(lists, i))
  }

  /**
   * `combine(params...)`: the sum of the dealers' decoded public keys, and
   * for each i below the number of dealers the sum of the dealers' i-th
   * shares; no private key and no nonces.  Any exception (a key that is not
   * 32 bytes or does not decode, a share list shorter than the number of
   * dealers) makes it return null, here None.
   */
  method Combine(params: seq<Params>, prim: Primitives) returns (r: Option<Params>)
    ensures r.Some? <==> Combinable(prim, Keys(params), ShareLists(params), |params|)
    ensures r.Some? ==> fresh(r.value) && r.value.privateKey == None && r.value.sig == None
    ensures r.Some? ==> r.value.privateShares == CombinedShares(ShareLists(params), |params|)
    ensures r.Some? ==> r.value.publicKey == prim.compress(SumPoints(Decoded(prim, Keys(params))))
  {
    ghost var keys := Keys(params);
    ghost var lists := ShareLists(params);
    var count := |params|;
    var pshares: seq<Scalar> := seq(count, _ => 0);
    var pub := IDENTITY;
    var j := 0;
    while j < count
      invariant 0 <= j <= count
      invariant SummedBelow(prim, keys, lists, count, j, pub, pshares)
    {
      var p := params[j];
      if |p.publicKey| != 32 {
        return None;
      }
      var decoded := prim.decompress(p.publicKey);
      if decoded.None? {
        return None;
      }
      var added := AddShares(pshares, p.privateShares);
      if added.None? {
        return None;
      }
      CombineStep(prim, keys, lists, count, j, pub, pshares, added.value);
      pub := PointAdd(pub, decoded.value);
      pshares := added.value;
      j := j + 1;
    }
    assert keys[..j] == keys && lists[..j] == lists;
    var combined := new Params(None, prim.compress(pub), pshares, None);
    r := Some(combined);
  }

  /** The invariant of `combine`'s loop: the first j dealers are combinable and summed into pub and pshares. */
  ghost predicate SummedBelow(prim: Primitives, keys: seq<seq<Byte>>, lists: seq<seq<Scalar>>, count: nat, j: nat,
                              pub: Point, pshares: seq<Scalar>)
  {
    j <= |keys| && j <= |lists| && Combinable(prim, keys[..j], lists[..j], count)
    && pub == SumPoints(Decoded(prim, keys[..j])) && pshares == CombinedShares(lists[..j], count)
  }

  /**
   * The inner loop of `combine` for one dealer: its i-th share is added to
   * the i-th running sum for every i; a list too short to have them all
   * throws, here None.
   */
  method AddShares(pshares: seq<Scalar>, shares: seq<Scalar>) returns (r: Option<seq<Scalar>>)
    ensures r.Some? <==> |pshares| <= |shares|
    ensures r.Some? ==> |r.value| == |pshares|
    ensures r.Some? ==> forall m :: 0 <= m < |pshares| ==> r.value[m] == Add(pshares[m], shares[m])
  {
    var sums := pshares;
    var i := 0;
    while i < |pshares|
      invariant 0 <= i <= |pshares| == |sums| && i <= |shares|
      invariant forall m :: 0 <= m < i ==> sums[m] == Add(pshares[m], shares[m])
      invariant forall m :: i <= m < |pshares| ==> sums[m] == pshares[m]
    {
      if i >= |shares| {
        return None;
      }
      sums := sums[i := Add(sums[i], shares[i])];
      i := i + 1;
    }
    r := Some(sums);
  }

  /** One more dealer taken into `combine`'s running sums. */
  lemma CombineStep(prim: Primitives, keys: seq<seq<Byte>>, lists: seq<seq<Scalar>>, count: nat, j: nat,
                    pub: Point, pshares: seq<Scalar>, added: seq<Scalar>)
    requires j < |keys| == |lists| && SummedBelow(prim, keys, lists, count, j, pub, pshares)
    requires Decodable(prim, keys[j]) && count <= |lists[j]|
    requires |added| == count && forall m :: 0 <= m < count ==> added[m] == Add(pshares[m], lists[j][m])
    ensures SummedBelow(prim, keys, lists, count, j + 1, PointAdd(pub, prim.decompress(keys[j]).value), added)
  {
    assert keys[..j + 1] == keys[..j] + [keys[j]];
    assert lists[..j + 1] == lists[..j] + [lists[j]];
    DecodedStep(prim, keys, j);
    ColumnStep(lists, count, j);
  }

  lemma DecodedStep(prim: Primitives, keys: seq<seq<Byte>>, j: nat)
    requires j < |keys| && forall m :: 0 <= m <= j ==> Decodable(prim, keys[m])
    ensures SumPoints(Decoded(prim, keys[..j + 1])) == PointAdd(SumPoints(Decoded(prim, keys[..j])), prim.decompress(keys[j]).value)
  {
    assert keys[..j + 1][..j] == keys[..j];
    var ps := Decoded(prim, keys[..j]);
    var p := prim.decompress(keys[j]).value;
    assert Decoded(prim, keys[..j + 1]) == ps + [p];
    assert (ps + [p])[..|ps|] == ps;
  }

  lemma ColumnStep(lists: seq<seq<Scalar>>, count: nat, j: nat)
    requires j < |lists| && forall m :: 0 <= m <= j ==> count <= |lists[m]|
    ensures forall m :: 0 <= m < count ==> CombinedShares(lists[..j + 1], count)[m] == Add(CombinedShares(lists[..j], count)[m], lists[j][m])
  {
    assert lists[..j + 1][..j] == lists[..j];
  }

  /** The sum of the dealers' polynomials. */
  function PolySum(fs: seq<Poly>): Poly {
    if fs == [] then [] else PAdd(PolySum(fs[..|fs| - 1]), fs[|fs| - 1])
  }

  /** Polynomials of d coefficients each add up to one of d coefficients. */
  lemma {:induction false} PolySumLength(fs: seq<Poly>, d: nat)
    requires forall j :: 0 <= j < |fs| ==> |fs[j]| == d
    ensures |PolySum(fs)| == if fs == [] then 0 else d
  {
    if fs != [] {
      PolySumLength(fs[..|fs| - 1], d);
    }
  }

  /** Evaluation is linear: the power sum of p + q is the sum of theirs. */
  lemma PowerSumPAdd(p: Poly, q: Poly, x: int)
    ensures PowerSum(PAdd(p, q), x) == PowerSum(p, x) + PowerSum(q, x)
  {
    HornerIsPowerSum(PAdd(p, q), x);
    HornerIsPowerSum(p, x);
    HornerIsPowerSum(q, x);
    HornerPAdd(p, q, x);
  }

  /** Summing entry i over dealers gives entry i of the shares of the summed polynomial. */
  lemma {:induction false} ColumnSumIsShare(fs: seq<Poly>, lists: seq<seq<Scalar>>, n: int, i: nat)
    requires |lists| == |fs| && i < n
    requires forall j :: 0 <= j < |fs| ==> lists[j] == Shares(fs[j], n)
    ensures forall j :: 0 <= j < |lists| ==> i < |lists[j]|
    ensures ColumnSum(lists, i) == Reduce(PowerSum(PolySum(fs), i + 1))
  {
    if fs != [] {
      var m := |fs| - 1;
      ColumnSumIsShare(fs[..m], lists[..m], n, i);
      var a := PowerSum(PolySum(fs[..m]), i + 1);
      var b := PowerSum(fs[m], i + 1);
      assert lists[m] == Shares(fs[m], n);
      assert lists[..|lists| - 1] == lists[..m];
      assert ColumnSum(lists, i) == Add(Reduce(a), Reduce(b));
      PowerSumPAdd(PolySum(fs[..m]), fs[m], i + 1);
      AddMod(a, b);
    }
  }

  /**
   * combine is linear in the shares: when every dealer j handed out the n
   * shares of its polynomial fs[j], the combined shares are the n shares of
   * the summed polynomial.
   */
  lemma CombinedAreShares(fs: seq<Poly>, lists: seq<seq<Scalar>>, n: nat)
    requires |lists| == |fs|
    requires forall j :: 0 <= j < |fs| ==> lists[j] == Shares(fs[j], n)
    ensures forall j :: 0 <= j < |lists| ==> n <= |lists[j]|
    ensures CombinedShares(lists, n) == Shares(PolySum(fs), n)
  {
    var combined := CombinedShares(lists, n);
    var shares := Shares(PolySum(fs), n);
    forall i | 0 <= i < n
      ensures combined[i] == shares[i]
    {
      ColumnSumIsShare(fs, lists, n, i);
    }
    assert |combined| == |shares| == n;
  }

  /**
   * combine is linear in the keys: when every dealer's public key encodes
   * f_j(0) * B, the keys decode and add up to the point of the summed
   * polynomial's constant term.
   */
  lemma {:induction false} CombinedPublicKey(prim: Primitives, fs: seq<Poly>, keys: seq<seq<Byte>>)
    requires prim.Valid()
    requires |keys| == |fs|
    requires forall j :: 0 <= j < |fs| ==> keys[j] == prim.compress(MulBasepoint(Reduce(Horner(fs[j], 0))))
    ensures forall j :: 0 <= j < |keys| ==> Decodable(prim, keys[j])
    ensures SumPoints(Decoded(prim, keys)) == MulBasepoint(Reduce(Horner(PolySum(fs), 0)))
  {
    KeysDecodable(prim, fs, keys);
    if fs != [] {
      var m := |fs| - 1;
      CombinedPublicKey(prim, fs[..m], keys[..m]);
      DecodedStep(prim, keys, m);
      assert keys[..m + 1] == keys;
      var a := Horner(PolySum(fs[..m]), 0);
      var b := Horner(fs[m], 0);
      assert prim.decompress(keys[m]).value == MulBasepoint(Reduce(b));
      HornerPAdd(PolySum(fs[..m]), fs[m], 0);
      AddMod(a, b);
    }
  }

  /** Keys that are compressed points decode. */
  lemma KeysDecodable(prim: Primitives, fs: seq<Poly>, keys: seq<seq<Byte>>)
    requires prim.Valid()
    requires |keys| == |fs|
    requires forall j :: 0 <= j < |fs| ==> keys[j] == prim.compress(MulBasepoint(Reduce(Horner(fs[j], 0))))
    ensures forall j :: 0 <= j < |keys| ==> Decodable(prim, keys[j])
  {
  }

  /**
   * A joint key from n dealers, each sharing its own polynomial over the
   * same n nodes: combine succeeds, and the result holds the n shares of the
   * summed polynomial and the public key of its constant term, which is
   * exactly what one dealer with that polynomial would have handed out.
   */
  lemma JointKey(prim: Primitives, fs: seq<Poly>, keys: seq<seq<Byte>>, lists: seq<seq<Scalar>>, n: nat)
    requires prim.Valid()
    requires |fs| == n && |keys| == n && |lists| == n
    requires forall j :: 0 <= j < n ==> keys[j] == prim.compress(MulBasepoint(Reduce(Horner(fs[j], 0))))
    requires forall j :: 0 <= j < n ==> lists[j] == Shares(fs[j], n)
    ensures Combinable(prim, keys, lists, n)
    ensures CombinedShares(lists, n) == Shares(PolySum(fs), n)
    ensures SumPoints(Decoded(prim, keys)) == MulBasepoint(Reduce(Horner(PolySum(fs), 0)))
  {
    CombinedPublicKey(prim, fs, keys);
    CombinedAreShares(fs, lists, n);
  }

  // ---------------------------------------------------------------------
  // The scenarios.

  /**
   * With at most seven nodes, any two participants' evaluation points (in
   * [1, 7]) differ by a unit modulo L, so the interpolation weights exist.
   */
  lemma SmallSchemeSeparated(nodes: set<int>, n: int)
    requires n <= 7
    ensures Separated(Xs(nodes, n))
  {
    var xs := Xs(nodes, n);
    XsIncreasing(nodes, n);
    forall i, j | 0 <= i < |xs| && 0 <= j < |xs| && i != j
      ensures IsUnit(xs[i] - xs[j])
    {
      SmallUnit(xs[i] - xs[j]);
    }
  }

  /** p holds the key and the n shares a dealer with polynomial f hands out. */
  ghost predicate Dealt(prim: Primitives, p: Params, f: Poly, n: int)
    reads p
  {
    f != [] && p.publicKey == prim.compress(MulBasepoint(Reduce(f[0]))) && p.privateShares == Shares(f, n)
  }

  /** What `generate` returns is the key and the shares of the dealer polynomial. */
  lemma GeneratedIsDealt(prim: Primitives, p: Params, secret: Bytes32, t: int, draws: seq<Bytes32>, n: int)
    requires |draws| >= t - 1
    requires p.publicKey == prim.compress(MulBasepoint(SecretScalar(prim, secret)))
    requires p.privateShares == Shares(DealerPoly(t, SecretScalar(prim, secret), draws), n)
    ensures Dealt(prim, p, DealerPoly(t, SecretScalar(prim, secret), draws), n)
  {
  }

  /**
   * The two rounds, the combination and the check that follow key
   * generation in both scenarios, for a scheme whose shares are those of a
   * polynomial f with at most as many coefficients as participants.
   */
  method SignAndVerify(tsig: ThresholdSigEd25519, params: Params, nodes: set<int>, rnd: seq<Bytes64>, prim: Primitives,
                       ghost f: Poly)
    returns (check: Result<bool, VerifyError>)
    requires prim.Valid() && Dealt(prim, params, f, tsig.n)
    requires |f| == |Xs(nodes, tsig.n)| == tsig.t && Separated(Xs(nodes, tsig.n))
    requires |rnd| >= |Xs(nodes, tsig.n)|
    modifies params
    ensures check == Ok(true)
  {
    var Ri := tsig.GatherRi(params, TO_SIGN, nodes, rnd, prim);
    ghost var nonces := params.sig.value;
    var R := tsig.ComputeR(Ri);
    var k := ComputeK(prim, params.publicKey, R, TO_SIGN);
    var cache := new LagrangeCache();
    var res := tsig.GatherSignatures(params, k, nodes, cache);
    var signature := tsig.ComputeSignature(R, res, prim);
    check := Verify(prim, params.publicKey, signature, TO_SIGN);
    TranscriptVerifies(prim, f, tsig.n, nodes, nonces, params.publicKey, Ri, R, k, res, signature);
  }

  /** The values the two rounds produce, as `ThresholdSignatureVerifies` describes them, are accepted. */
  lemma TranscriptVerifies(prim: Primitives, f: Poly, n: int, nodes: set<int>, nonces: seq<Scalar>, publicKey: seq<Byte>,
                           Ri: seq<Point>, R: Point, k: Scalar, res: seq<Scalar>, signature: seq<Byte>)
    requires prim.Valid() && f != [] && |f| == |Xs(nodes, n)| && Separated(Xs(nodes, n))
    requires |nonces| == |Xs(nodes, n)| && publicKey == prim.compress(MulBasepoint(Reduce(f[0])))
    requires Ri == Commitments(nonces) && R == SumPoints(Ri[..|f|]) && k == ComputeK(prim, publicKey, R, TO_SIGN)
    requires InRange(Xs(nodes, n), |Shares(f, n)|) && InRange(Xs(nodes, n), |LagrangeCoefs(n, nodes)|)
    requires res == Partials(Shares(f, n), LagrangeCoefs(n, nodes), k, nonces, Xs(nodes, n))
    requires signature == prim.compress(R) + Encode(Sum(res[..|f|]))
    ensures Verify(prim, publicKey, signature, TO_SIGN) == Ok(true)
  {
    assert Ri[..|f|] == Ri && res[..|f|] == res;
    ThresholdSignatureVerifies(prim, f, n, nodes, nonces, TO_SIGN);
  }

  /**
   * `testSignature`: a (4, 7) scheme from one dealer; nodes 1, 3, 4 and 6
   * sign "test" and `verify` accepts.  secret and draws are the dealer's
   * randomness, rnd the signers' nonce randomness.
   */
  method TestSignature(secret: Bytes32, draws: seq<Bytes32>, rnd: seq<Bytes64>, prim: Primitives)
    returns (check: Result<bool, VerifyError>)
    requires prim.Valid() && |draws| >= 3 && |rnd| >= 4
    ensures check == Ok(true)
  {
    var tsig := new ThresholdSigEd25519(4, 7);
    var params := tsig.Generate(secret, draws, prim);
    var nodes := {1, 3, 4, 6};
    FourSigners();
    SmallSchemeSeparated(nodes, 7);
    GeneratedIsDealt(prim, params, secret, 4, draws, 7);
    check := SignAndVerify(tsig, params, nodes, rnd, prim, DealerPoly(4, SecretScalar(prim, secret), draws));
  }

  /**
   * `testSignaturePedDKG`: five dealers each run `generate` for a (3, 5)
   * scheme, `combine` sums their parameters, and nodes 1, 3 and 4 sign
   * "test" under the joint key; `verify` accepts.
   */
  method TestSignaturePedDKG(secrets: seq<Bytes32>, draws: seq<seq<Bytes32>>, rnd: seq<Bytes64>, prim: Primitives)
    returns (check: Result<bool, VerifyError>)
    requires prim.Valid() && |secrets| == 5 && |draws| == 5 && |rnd| >= 3
    requires forall j :: 0 <= j < 5 ==> |draws[j]| >= 2
    ensures check == Ok(true)
  {
    var tsig := new ThresholdSigEd25519(3, 5);
    var dealers, fs := DealFive(tsig, secrets, draws, prim);
    var combined := Combine(dealers, prim);
    DealersJointKey(prim, dealers, fs, 5);
    var params := combined.value;
    PolySumLength(fs, 3);
    JointDealt(prim, params, PolySum(fs), 5);
    var nodes := {1, 3, 4};
    ThreeSigners();
    SmallSchemeSeparated(nodes, 5);
    check := SignAndVerify(tsig, params, nodes, rnd, prim, PolySum(fs));
  }

  /**
   * The five `generate` calls of `testSignaturePedDKG`: dealer j draws
   * secrets[j] and draws[j] and shares its own polynomial fs[j] over the
   * same five nodes.
   */
  method DealFive(tsig: ThresholdSigEd25519, secrets: seq<Bytes32>, draws: seq<seq<Bytes32>>, prim: Primitives)
    returns (dealers: seq<Params>, ghost fs: seq<Poly>)
    requires tsig.t == 3 && tsig.n == 5 && |secrets| == 5 && |draws| == 5
    requires forall j :: 0 <= j < 5 ==> |draws[j]| >= 2
    ensures |dealers| == 5 && |fs| == 5
    ensures forall j :: 0 <= j < 5 ==> |fs[j]| == 3 && Dealt(prim, dealers[j], fs[j], 5)
  {
    var params1 := tsig.Generate(secrets[0], draws[0], prim);
    var params2 := tsig.Generate(secrets[1], draws[1], prim);
    var params3 := tsig.Generate(secrets[2], draws[2], prim);
    var params4 := tsig.Generate(secrets[3], draws[3], prim);
    var params5 := tsig.Generate(secrets[4], draws[4], prim);
    fs := seq(5, j requires 0 <= j < 5 => DealerPoly(3, SecretScalar(prim, secrets[j]), draws[j]));
    GeneratedIsDealt(prim, params1, secrets[0], 3, draws[0], 5);
    GeneratedIsDealt(prim, params2, secrets[1], 3, draws[1], 5);
    GeneratedIsDealt(prim, params3, secrets[2], 3, draws[2], 5);
    GeneratedIsDealt(prim, params4, secrets[3], 3, draws[3], 5);
    GeneratedIsDealt(prim, params5, secrets[4], 3, draws[4], 5);
    dealers := [params1, params2, params3, params4, params5];
    forall j | 0 <= j < 5
      ensures |fs[j]| == 3 && Dealt(prim, dealers[j], fs[j], 5)
    {
      if j == 0 {
      } else if j == 1 {
      } else if j == 2 {
      } else if j == 3 {
      } else {
      }
    }
  }

  /** The signers of `testSignature`: nodes 1, 3, 4 and 6 of seven, at the points 2, 4, 5 and 7. */
  lemma FourSigners()
    ensures Xs({1, 3, 4, 6}, 7) == [2, 4, 5, 7]
  {
  }

  /** The signers of `testSignaturePedDKG`: nodes 1, 3 and 4 of five, at the points 2, 4 and 5. */
  lemma ThreeSigners()
    ensures Xs({1, 3, 4}, 5) == [2, 4, 5]
  {
  }

  /** Parameters holding the shares and the key of f are those a dealer of f hands out. */
  lemma JointDealt(prim: Primitives, p: Params, f: Poly, n: int)
    requires f != [] && p.privateShares == Shares(f, n)
    requires p.publicKey == prim.compress(MulBasepoint(Reduce(Horner(f, 0))))
    ensures Dealt(prim, p, f, n)
  {
    HornerAtZero(f);
  }

  /** Dealers that each dealt their own polynomial over n nodes combine into the dealer of the summed polynomial. */
  lemma DealersJointKey(prim: Primitives, dealers: seq<Params>, fs: seq<Poly>, n: nat)
    requires prim.Valid() && |dealers| == n && |fs| == n
    requires forall j :: 0 <= j < n ==> Dealt(prim, dealers[j], fs[j], n)
    ensures Combinable(prim, Keys(dealers), ShareLists(dealers), n)
    ensures CombinedShares(ShareLists(dealers), n) == Shares(PolySum(fs), n)
    ensures SumPoints(Decoded(prim, Keys(dealers))) == MulBasepoint(Reduce(Horner(PolySum(fs), 0)))
  {
    forall j | 0 <= j < n
      ensures Keys(dealers)[j] == prim.compress(MulBasepoint(Reduce(Horner(fs[j], 0))))
    {
      HornerAtZero(fs[j]);
    }
    JointKey(prim, fs, Keys(dealers), ShareLists(dealers), n);
  }
}
