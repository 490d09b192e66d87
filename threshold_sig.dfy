/**
 * `ThresholdSigEd25519`: t-of-n threshold Ed25519 (Schnorr) signatures.
 *
 * A dealer hashes a 32-byte secret, clamps it into the Ed25519 secret
 * scalar, and Shamir-splits that scalar over n nodes with a random
 * polynomial of t coefficients (node i holds the value at i + 1).  To sign,
 * each participating node draws a nonce and publishes its multiple of B
 * (round 1); the coordinator sums the first t of these into R and derives
 * the challenge k; each node returns share * lagrange * k + nonce (round 2);
 * the coordinator sums the first t partial signatures into s and emits
 * R || s, which `verify` checks as an ordinary Ed25519 signature.
 */
module ThresholdSig {
  import opened ScalarField
  import opened Bytes
  import opened Wrappers
  import opened ScalarCodec
  import opened Group
  import opened Polynomials
  import opened Interpolation
  import opened Lagrange

  /** `PREFIX`: 32 bytes of 0xFF, hashed in front of every nonce. */
  const PREFIX: seq<Byte> := [
    0xFF, 0xFF, 0xFF, 0xFF, 0xFF, 0xFF, 0xFF, 0xFF, 0xFF, 0xFF, 0xFF, 0xFF, 0xFF, 0xFF, 0xFF, 0xFF,
    0xFF, 0xFF, 0xFF, 0xFF, 0xFF, 0xFF, 0xFF, 0xFF, 0xFF, 0xFF, 0xFF, 0xFF, 0xFF, 0xFF, 0xFF, 0xFF
  ]

  /** 2^254: the bit RFC 8032 section 5.1.5 sets in every secret scalar. */
  const TWO_254: int := 0x4000000000000000000000000000000000000000000000000000000000000000

  // ---------------------------------------------------------------------
  // Key material and secret sharing.

  /** `ThresholdSigEd25519Params`: what a dealer hands out; `sig` holds the round-1 nonces. */
  class Params {
    var privateKey: Option<Scalar>
    var publicKey: seq<Byte>
    var privateShares: seq<Scalar>
    var sig: Option<seq<Scalar>>

    constructor (privateKey: Option<Scalar>, publicKey: seq<Byte>, privateShares: seq<Scalar>, sig: Option<seq<Scalar>>)
      ensures this.privateKey == privateKey && this.publicKey == publicKey
      ensures this.privateShares == privateShares && this.sig == sig
    {
      this.privateKey := privateKey;
      this.publicKey := publicKey;
      this.privateShares := privateShares;
      this.sig := sig;
    }
  }

  /** `b & m` on an unsigned byte. */
  function And8(b: Byte, m: bv8): Byte {
    ((b as bv8) & m) as int
  }

  /** `b | m` on an unsigned byte. */
  function Or8(b: Byte, m: bv8): Byte {
    ((b as bv8) | m) as int
  }

  /**
   * The first 32 bytes of the hash after `hash[0] &= 248; hash[31] &= 127; hash[31] |= 64`:
   * the low three bits of byte 0 and the top bit of byte 31 cleared, bit 6 of byte 31
   * set, every other byte kept.
   */
  function Clamped(h: Bytes32): (c: Bytes32)
    ensures (c[0] as bv8) & 7 == 0 && (c[0] as bv8) & 248 == (h[0] as bv8) & 248
    ensures (c[31] as bv8) & 0xC0 == 0x40 && (c[31] as bv8) & 63 == (h[31] as bv8) & 63
    ensures forall i :: 1 <= i < 31 ==> c[i] == h[i]
  {
    var lo := And8(h[0], 248);
    var hi := Or8(And8(h[31], 127), 64);
    ClampedLowBits(h[0]);
    ClampedTopBits(h[31]);
    h[0 := lo][31 := hi]
  }

  /** The Ed25519 secret scalar derived from a secret: `fromBits` of the clamped hash. */
  function SecretScalar(prim: Primitives, secret: seq<Byte>): Scalar {
    FromBits(Clamped(prim.sha512(secret)[..32]))
  }

  /** The coefficients `new Polynom(order, a0)` draws: a0, then order - 1 values of `fromBits`. */
  function DealerPoly(order: int, a0: Scalar, draws: seq<Bytes32>): (f: seq<Scalar>)
    requires |draws| >= order - 1
    ensures |f| == if order > 1 then order else 1
    ensures f[0] == a0
  {
    [a0] + seq(if order > 1 then order - 1 else 0, k requires 0 <= k < order - 1 => FromBits(draws[k]))
  }

  /** The n shares of the polynomial f: node i gets f(i + 1) mod L. */
  function Shares(f: seq<int>, n: int): (shares: seq<Scalar>)
    ensures |shares| == if n > 0 then n else 0
  {
    seq(if n > 0 then n else 0, i => Reduce(PowerSum(f, i + 1)))
  }

  /** `Polynom`: the dealer's random polynomial, lowest coefficient first. */
  class Polynom {
    var coefficients: seq<Scalar>

    /** `new Polynom(order, a0)`, with the random 32-byte draws passed in. */
    constructor (order: Int32, a0: Scalar, draws: seq<Bytes32>)
      requires |draws| >= order - 1
      ensures coefficients == DealerPoly(order, a0, draws)
    {
      var cs := [a0];
      var i := 1;
      while i < order
        invariant 1 <= i && (i == 1 || i <= order)
        invariant cs == [a0] + seq(i - 1, k requires 0 <= k < i - 1 => FromBits(draws[k]))
      {
        cs := cs + [FromBits(draws[i - 1])];
        i := i + 1;
      }
      coefficients := cs;
    }

    /** `at(x)`: the polynomial's value at x, sum of c[i] * x^i, modulo L. */
    method At(x: Scalar) returns (res: Scalar)
      requires coefficients != []
      ensures res == Reduce(PowerSum(coefficients, x))
    {
      res := coefficients[0];
      assert coefficients[..1] == [] + [coefficients[0]];
      var cp: Scalar := 1;
      var i := 1;
      while i < |coefficients|
        invariant 1 <= i <= |coefficients|
        invariant cp == Reduce(Pow(x, i - 1))
        invariant res == Reduce(PowerSum(coefficients[..i], x))
      {
        assert coefficients[..i + 1][..i] == coefficients[..i];
        HornerLoopStep(coefficients[i], x, Pow(x, i - 1), cp, PowerSum(coefficients[..i], x), res);
        cp := Mul(cp, x);
        res := Add(Mul(coefficients[i], cp), res);
        i := i + 1;
      }
      assert coefficients[..i] == coefficients;
    }
  }

  /** One iteration of `at`: cp becomes x^i and res gains c * x^i, modulo L. */
  lemma HornerLoopStep(c: Scalar, x: Scalar, p: int, cp: Scalar, acc: int, res: Scalar)
    requires cp == Reduce(p) && res == Reduce(acc)
    ensures Mul(cp, x) == Reduce(p * x)
    ensures Add(Mul(c, Mul(cp, x)), res) == Reduce(acc + c * (p * x))
  {
    ModMul(cp, p, x, x);
    ModMul(c, c, Mul(cp, x), p * x);
    ModAdd(Mul(c, Mul(cp, x)), c * (p * x), res, acc);
  }

  // ---------------------------------------------------------------------
  // The clamped secret scalar (section 5.1.5 of RFC 8032).

  lemma LowBitsCleared(x: bv8)
    ensures ((x & 248) as int) % 8 == 0
  {
  }

  lemma TopBitsSet(x: bv8)
    ensures 64 <= ((x & 127) | 64) as int < 128
  {
  }

  /** `x & 248` clears bits 0 to 2 and keeps bits 3 to 7. */
  lemma ClampedLowBits(b: Byte)
    ensures (And8(b, 248) as bv8) & 7 == 0
    ensures (And8(b, 248) as bv8) & 248 == (b as bv8) & 248
  {
    ByteRoundTrip((b as bv8) & 248);
  }

  /** `(x & 127) | 64` clears bit 7, sets bit 6 and keeps bits 0 to 5. */
  lemma ClampedTopBits(b: Byte)
    ensures (Or8(And8(b, 127), 64) as bv8) & 0xC0 == 0x40
    ensures (Or8(And8(b, 127), 64) as bv8) & 63 == (b as bv8) & 63
  {
    var x := (b as bv8) & 127;
    assert And8(b, 127) as bv8 == x by { ByteRoundTrip(x); }
    assert Or8(And8(b, 127), 64) as bv8 == x | 64 by { ByteRoundTrip(x | 64); }
    TopBitsKept(b as bv8);
  }

  lemma TopBitsKept(x: bv8)
    ensures ((x & 127) | 64) & 0xC0 == 0x40
    ensures ((x & 127) | 64) & 63 == x & 63
  {
  }

  lemma ByteRoundTrip(y: bv8)
    ensures (y as int) as bv8 == y
  {
  }

  lemma ClampedLowByte(b: Byte)
    ensures And8(b, 248) % 8 == 0
  {
    LowBitsCleared(b as bv8);
  }

  lemma ClampedTopByte(b: Byte)
    ensures 64 <= Or8(And8(b, 127), 64) < 128
  {
    var y := (b as bv8) & 127;
    assert And8(b, 127) == y as int;
    ByteRoundTrip(y);
    assert Or8(y as int, 64) == (y | 64) as int;
    TopBitsSet(b as bv8);
  }

  /**
   * A clamped scalar is a multiple of 8 (the cofactor) in [2^254, 2^255):
   * the lowest three bits are cleared, bit 255 is cleared and bit 254 is set.
   */
  lemma ClampedRange(h: Bytes32)
    ensures LeValue(Clamped(h)) % 8 == 0
    ensures TWO_254 <= LeValue(Clamped(h)) < TWO_255
  {
    var c := Clamped(h);
    ClampedBytes(h);
    SplitBytes(c);
    Pow256Of31();
    ClampedArith(LeValue(c), c[0], LeValue(c[1..31]), Pow256(30), c[31], Pow256(31));
  }

  lemma ClampedBytes(h: Bytes32)
    ensures Clamped(h)[0] % 8 == 0
    ensures 64 <= Clamped(h)[31] < 128
  {
    ClampedLowByte(h[0]);
    ClampedTopByte(h[31]);
  }

  /** A 32-byte value is its low byte, 30 middle bytes and its top byte. */
  lemma SplitBytes(c: Bytes32)
    ensures LeValue(c) == (c[0] + 256 * LeValue(c[1..31])) + c[31] * Pow256(31)
    ensures LeValue(c[1..31]) < Pow256(30)
  {
    var low := c[..31];
    assert c == low + [c[31]];
    LeValueSnoc(low, c[31]);
    assert low == [c[0]] + c[1..31];
    assert LeValue(low) == c[0] + 256 * LeValue(c[1..31]);
    LeValueBound(c[1..31]);
  }

  lemma ClampedArith(v: int, c0: int, mid: int, p30: int, top: int, p31: int)
    requires v == (c0 + 256 * mid) + top * p31
    requires 0 <= c0 < 256 && c0 % 8 == 0 && 0 <= mid < p30 && p31 == 256 * p30
    requires 64 <= top < 128 && 256 * p31 == TWO_256
    ensures v % 8 == 0
    ensures TWO_254 <= v < TWO_255
  {
    assert p31 == 0x100000000000000000000000000000000000000000000000000000000000000;
    assert c0 + 256 * mid < p31;
  }

  /** The secret scalar is the clamped value reduced modulo L (`fromBits` drops nothing). */
  lemma SecretScalarValue(prim: Primitives, secret: seq<Byte>)
    ensures SecretScalar(prim, secret) == LeValue(Clamped(prim.sha512(secret)[..32])) % L
  {
    var c := Clamped(prim.sha512(secret)[..32]);
    ClampedRange(prim.sha512(secret)[..32]);
    SmallMod(LeValue(c), TWO_255);
  }

  // ---------------------------------------------------------------------
  // The protocol object.

  /** `ThresholdSigEd25519(t, n)`. */
  class ThresholdSigEd25519 {
    const t: Int32
    const n: Int32

    constructor (t: Int32, n: Int32)
      ensures this.t == t && this.n == n
    {
      this.t := t;
      this.n := n;
    }

    /**
     * `generate()`, with the 32-byte secret and the polynomial's random
     * draws passed in: the clamped secret scalar, its public key, and n
     * shares of a random polynomial with t coefficients whose constant term
     * is the secret scalar.
     */
    method Generate(secret: Bytes32, draws: seq<Bytes32>, prim: Primitives) returns (params: Params)
      requires |draws| >= t - 1
      ensures fresh(params)
      ensures params.privateKey == Some(SecretScalar(prim, secret))
      ensures params.publicKey == prim.compress(MulBasepoint(SecretScalar(prim, secret)))
      ensures params.privateShares == Shares(DealerPoly(t, SecretScalar(prim, secret), draws), n)
      ensures params.sig == None
    {
      var publicKey := CreatePublicKey(secret, prim);
      var privateKey := CreatePrivateKey(secret, prim);
      var privateShares := ShamirSplit(privateKey, n, draws);
      params := new Params(Some(privateKey), publicKey, privateShares, None);
    }

    /** `shamirSplit(secret, n)`: share i is the dealer polynomial at i + 1. */
    method ShamirSplit(secret: Scalar, n: Int32, draws: seq<Bytes32>) returns (result: seq<Scalar>)
      requires |draws| >= t - 1
      ensures result == Shares(DealerPoly(t, secret, draws), n)
    {
      result := [];
      var poly := new Polynom(t, secret, draws);
      var i := 0;
      while i < n
        invariant 0 <= i && (i == 0 || i <= n)
        invariant poly.coefficients == DealerPoly(t, secret, draws)
        invariant result == Shares(DealerPoly(t, secret, draws), i)
      {
        var x := ScalarFromBigInteger(i + 1);
        SmallMod(i + 1, L);
        var v := poly.At(x);
        result := result + [v];
        i := i + 1;
      }
    }

    /** `createPublicKey(secret)`: the compressed point B times the clamped secret scalar. */
    method CreatePublicKey(secret: seq<Byte>, prim: Primitives) returns (publicKey: seq<Byte>)
      ensures publicKey == prim.compress(MulBasepoint(SecretScalar(prim, secret)))
    {
      var digest := prim.sha512(secret);
      var hash := new Byte[64](i requires 0 <= i < 64 => digest[i]);
      hash[0] := And8(hash[0], 248);
      hash[31] := And8(hash[31], 127);
      hash[31] := Or8(hash[31], 64);
      assert hash[..32] == Clamped(digest[..32]);
      var s := FromBits(hash[..32]);
      publicKey := prim.compress(MulBasepoint(s));
    }

    /**
     * `createPrivateKey(secret)`: SHA-512 of the secret, clamped in place,
     * first 32 bytes read with `fromBits`.
     */
    method CreatePrivateKey(secret: seq<Byte>, prim: Primitives) returns (s: Scalar)
      ensures s == SecretScalar(prim, secret)
      ensures s == LeValue(Clamped(prim.sha512(secret)[..32])) % L
    {
      var digest := prim.sha512(secret);
      var hash := new Byte[64](i requires 0 <= i < 64 => digest[i]);
      hash[0] := And8(hash[0], 248);
      hash[31] := And8(hash[31], 127);
      hash[31] := Or8(hash[31], 64);
      assert hash[..32] == Clamped(digest[..32]);
      s := FromBits(hash[..32]);
      SecretScalarValue(prim, secret);
    }

    /**
     * Round 1, `gatherRi(params, toSign, nodes)`: every node i in [0, n)
     * that is in `nodes`, in ascending order, draws its nonce; the nonces
     * are stored in `params.sig` and their multiples of B are returned, in
     * the same order.  `rnd[m]` is the randomness of the m-th participant.
     */
    method GatherRi(params: Params, toSign: seq<Byte>, nodes: set<int>, rnd: seq<Bytes64>, prim: Primitives)
      returns (Ri: seq<Point>)
      requires Covers(|params.privateShares|, nodes, n)
      requires |rnd| >= |Xs(nodes, n)|
      modifies params
      ensures params.privateKey == old(params.privateKey) && params.publicKey == old(params.publicKey)
      ensures params.privateShares == old(params.privateShares)
      ensures InRange(Xs(nodes, n), |params.privateShares|)
      ensures params.sig == Some(Nonces(prim, params.privateShares, toSign, Xs(nodes, n), rnd))
      ensures Ri == Commitments(params.sig.value)
    {
      var shares := params.privateShares;
      var Rs: seq<Scalar> := [];
      Ri := [];
      ghost var xs: seq<int> := [];
      var i := 0;
      while i < n
        invariant 0 <= i && (i == 0 || i <= n)
        invariant unchanged(params)
        invariant xs == Xs(nodes, i) && InRange(xs, |shares|) && |xs| <= |Xs(nodes, n)|
        invariant Rs == Nonces(prim, shares, toSign, xs, rnd)
        invariant Ri == Commitments(Rs)
      {
        Rs, Ri := DrawIfParticipant(shares, toSign, nodes, rnd, prim, i, Rs, Ri, xs);
        xs := Xs(nodes, i + 1);
        i := i + 1;
      }
      params.sig := Some(Rs);
    }

    /** One pass of the round-1 loop: node i, when it participates, appends its nonce and its nonce point. */
    method DrawIfParticipant(shares: seq<Scalar>, toSign: seq<Byte>, nodes: set<int>, rnd: seq<Bytes64>, prim: Primitives,
                             i: int, Rs: seq<Scalar>, Ri: seq<Point>, ghost xs: seq<int>)
      returns (Rs': seq<Scalar>, Ri': seq<Point>)
      requires 0 <= i < n && Covers(|shares|, nodes, n) && |rnd| >= |Xs(nodes, n)|
      requires xs == Xs(nodes, i) && InRange(xs, |shares|) && |xs| <= |Xs(nodes, n)|
      requires Rs == Nonces(prim, shares, toSign, xs, rnd) && Ri == Commitments(Rs)
      ensures InRange(Xs(nodes, i + 1), |shares|) && |Xs(nodes, i + 1)| <= |Xs(nodes, n)|
      ensures Rs' == Nonces(prim, shares, toSign, Xs(nodes, i + 1), rnd)
      ensures Ri' == Commitments(Rs')
    {
      Rs', Ri' := Rs, Ri;
      if i in nodes {
        SignerInRange(shares, shares, rnd, nodes, i, n);
        var privateShare := shares[i];
        var rs := ComputeRs(prim, privateShare, toSign, rnd[|Rs|]);
        NextNonce(prim, shares, toSign, rnd, nodes, i, n, Rs);
        CommitmentsSnoc(Rs, rs);
        Rs' := Rs + [rs];
        var res := MulBasepoint(rs);
        Ri' := Ri + [res];
      } else {
        NextParticipant(nodes, i, n, |shares|);
      }
    }

    /** `computeR(Ri)`: the sum of the first t nonce points (at least the first one). */
    method ComputeR(Ri: seq<Point>) returns (R: Point)
      requires |Ri| >= 1 && |Ri| >= t
      ensures R == SumPoints(Ri[..if t > 1 then t else 1])
    {
      R := Ri[0];
      assert Ri[..1] == [] + [Ri[0]];
      var i := 1;
      while i < t
        invariant 1 <= i <= |Ri| && (i == 1 || i <= t)
        invariant R == SumPoints(Ri[..i])
      {
        assert Ri[..i + 1][..i] == Ri[..i];
        R := PointAdd(R, Ri[i]);
        i := i + 1;
      }
    }

    /**
     * Round 2, `gatherSignatures(params, k, nodes)`: the idx-th participant
     * i (ascending, as in round 1) returns `computeSig(k, i + 1, share[i],
     * sig[idx], nodes)`, so each node pairs with its own round-1 nonce.
     * Every call reads the coefficient list through the cache, so all of
     * them use the list the cache held for `nodes` before the call, or the
     * one computed for n.
     */
    method GatherSignatures(params: Params, k: Scalar, nodes: set<int>, cache: LagrangeCache)
      returns (res: seq<Scalar>)
      requires Covers(|params.privateShares|, nodes, n)
      requires params.sig.Some? && |params.sig.value| >= |Xs(nodes, n)|
      requires Covers(|Lookup(cache.cached, n, nodes)|, nodes, n)
      modifies cache
      ensures InRange(Xs(nodes, n), |params.privateShares|) && InRange(Xs(nodes, n), |Lookup(old(cache.cached), n, nodes)|)
      ensures res == Partials(params.privateShares, Lookup(old(cache.cached), n, nodes), k, params.sig.value, Xs(nodes, n))
      ensures cache.cached == if Xs(nodes, n) == [] then old(cache.cached) else Stored(old(cache.cached), n, nodes)
    {
      var shares := params.privateShares;
      var sigs := params.sig.value;
      ghost var cached0 := cache.cached;
      ghost var coef := Lookup(cached0, n, nodes);
      res := [];
      var i := 0;
      while i < n
        invariant 0 <= i && (i == 0 || i <= n)
        invariant SignedBelow(shares, coef, k, sigs, nodes, n, i, res)
        invariant cache.cached == CacheAfter(cached0, n, nodes, |res|)
      {
        res := SignIfParticipant(k, shares, sigs, nodes, cache, i, res, coef, cached0);
        i := i + 1;
      }
    }

    /** The body of `gatherSignatures`' loop: node i appends its partial signature when it participates. */
    method SignIfParticipant(k: Scalar, shares: seq<Scalar>, sigs: seq<Scalar>, nodes: set<int>, cache: LagrangeCache,
                             i: int, res: seq<Scalar>, ghost coef: seq<Scalar>, ghost cached0: map<set<int>, seq<Scalar>>)
      returns (res': seq<Scalar>)
      requires 0 <= i < n
      requires SignedBelow(shares, coef, k, sigs, nodes, n, i, res)
      requires coef == Lookup(cached0, n, nodes) && cache.cached == CacheAfter(cached0, n, nodes, |res|)
      modifies cache
      ensures SignedBelow(shares, coef, k, sigs, nodes, n, i + 1, res')
      ensures cache.cached == CacheAfter(cached0, n, nodes, |res'|)
    {
      res' := res;
      if i in nodes {
        SignerInRange(shares, coef, sigs, nodes, i, n);
        CacheIgnoresSize(cached0, n, n, nodes);
        var privateShare := shares[i];
        var sig := sigs[|res|];
        var pt := ComputeSig(k, i + 1, privateShare, sig, nodes, cache);
        NextPartial(shares, coef, k, sigs, nodes, n, i, res, pt);
        res' := res + [pt];
      } else {
        SkipPartial(shares, coef, k, sigs, nodes, n, i, res);
      }
    }

    /** `computeSig(k, index, share, sig, nodes)`: share * coef[index - 1] * k + sig. */
    method ComputeSig(k: Scalar, index: int, privateShare: Scalar, sig: Scalar, nodes: set<int>, cache: LagrangeCache)
      returns (r: Scalar)
      requires 0 <= index - 1 < |Lookup(cache.cached, n, nodes)|
      modifies cache
      ensures r == PartialSig(privateShare, Lookup(old(cache.cached), n, nodes)[index - 1], k, sig)
      ensures cache.cached == Stored(old(cache.cached), n, nodes)
    {
      var coef := cache.GetLagrangeCoef(n, nodes);
      r := Add(Mul(Mul(privateShare, coef[index - 1]), k), sig);
    }

    /**
     * `computeSignature(R, res)`: the 64 bytes compress(R) || s, where s is
     * the sum of the first t partial signatures; `verify` reads R and s back.
     */
    method ComputeSignature(R: Point, res: seq<Scalar>, prim: Primitives) returns (signature: seq<Byte>)
      requires |res| >= t
      ensures signature == prim.compress(R) + Encode(Sum(res[..if t > 0 then t else 0]))
      ensures |signature| == 64 && signature[..32] == prim.compress(R)
      ensures FromBits(signature[32..]) == Sum(res[..if t > 0 then t else 0])
    {
      var s: Scalar := 0;
      var i := 0;
      while i < t
        invariant 0 <= i <= |res| && (i == 0 || i <= t)
        invariant s == Sum(res[..i])
      {
        assert res[..i + 1][..i] == res[..i];
        s := Add(s, res[i]);
        i := i + 1;
      }
      signature := prim.compress(R) + Encode(s);
      assert signature[32..] == Encode(s);
      FromBitsEncode(s);
    }
  }

  // ---------------------------------------------------------------------
  // Hashes, partial signatures and verification.

  /** Every participating node below n has an entry in a list of length len. */
  predicate Covers(len: int, nodes: set<int>, n: int) {
    forall i :: i in nodes && 0 <= i < n ==> i < len
  }

  /** Every evaluation point in xs names an entry of a list of length len. */
  predicate InRange(xs: seq<int>, len: int) {
    forall m :: 0 <= m < |xs| ==> 0 <= xs[m] - 1 < len
  }

  /** One more node considered: its evaluation point is appended when it participates, and stays in range. */
  lemma NextParticipant(nodes: set<int>, i: int, n: int, len: int)
    requires 0 <= i < n && Covers(len, nodes, n)
    ensures i in nodes ==> Xs(nodes, i + 1) == Xs(nodes, i) + [i + 1]
    ensures i !in nodes ==> Xs(nodes, i + 1) == Xs(nodes, i)
    ensures InRange(Xs(nodes, i + 1), len) && |Xs(nodes, i + 1)| <= |Xs(nodes, n)|
    ensures i in nodes ==> i < len
  {
    XsPrefix(nodes, i + 1, n);
    XsStep(nodes, i);
    if i !in nodes {
      assert Xs(nodes, i) + [] == Xs(nodes, i);
    }
  }

  /** What `computeRs` hashes: PREFIX || share || message || 64 random bytes. */
  function NonceInput(share: Scalar, toSign: seq<Byte>, rnd: Bytes64): (m: seq<Byte>)
    ensures |m| == 128 + |toSign|
  {
    PREFIX + Encode(share) + toSign + rnd
  }

  /** Every field of the nonce input can be read back at its offset. */
  lemma NonceInputFields(share: Scalar, toSign: seq<Byte>, rnd: Bytes64)
    ensures forall i :: 0 <= i < 32 ==> NonceInput(share, toSign, rnd)[i] == 0xFF
    ensures FromBits(NonceInput(share, toSign, rnd)[32..64]) == share
    ensures NonceInput(share, toSign, rnd)[64..64 + |toSign|] == toSign
    ensures NonceInput(share, toSign, rnd)[64 + |toSign|..] == rnd
  {
    var m := NonceInput(share, toSign, rnd);
    assert m[32..64] == Encode(share);
    FromBitsEncode(share);
    assert m[64..64 + |toSign|] == toSign;
    assert m[64 + |toSign|..] == rnd;
  }

  /** `computeRs(share, toSign)`: SHA-512 of the nonce input, reduced mod L. */
  function ComputeRs(prim: Primitives, share: Scalar, toSign: seq<Byte>, rnd: Bytes64): Scalar {
    FromBytesModOrderWide(prim.sha512(NonceInput(share, toSign, rnd)))
  }

  /**
   * What `computeK` hashes: compress(R) || publicKey || message.  Every field
   * can be read back at its offset.
   */
  function ChallengeInput(prim: Primitives, publicKey: seq<Byte>, R: Point, toSign: seq<Byte>): (m: seq<Byte>)
    ensures |m| == 32 + |publicKey| + |toSign|
    ensures m[..32] == prim.compress(R)
    ensures m[32..32 + |publicKey|] == publicKey && m[32 + |publicKey|..] == toSign
  {
    var m := prim.compress(R) + publicKey + toSign;
    assert m[32..32 + |publicKey|] == publicKey;
    assert m[32 + |publicKey|..] == toSign;
    m
  }

  /** `computeK(publicKey, R, toSign)`: SHA-512 of the challenge input, reduced mod L. */
  function ComputeK(prim: Primitives, publicKey: seq<Byte>, R: Point, toSign: seq<Byte>): Scalar {
    FromBytesModOrderWide(prim.sha512(ChallengeInput(prim, publicKey, R, toSign)))
  }

  /** The challenge the coordinator derives is the one `verify` recomputes from R || s. */
  lemma ChallengeAgrees(prim: Primitives, publicKey: seq<Byte>, R: Point, s: Scalar, signed: seq<Byte>)
    ensures FromBytesModOrderWide(prim.sha512(FirstHalf(prim.compress(R) + Encode(s)) + publicKey + signed))
         == ComputeK(prim, publicKey, R, signed)
  {
    assert FirstHalf(prim.compress(R) + Encode(s)) == prim.compress(R);
  }

  /** The nonces of the participants with evaluation points xs, in that order. */
  function Nonces(prim: Primitives, shares: seq<Scalar>, toSign: seq<Byte>, xs: seq<int>, rnd: seq<Bytes64>): (rs: seq<Scalar>)
    requires InRange(xs, |shares|)
    requires |rnd| >= |xs|
    ensures |rs| == |xs|
  {
    seq(|xs|, m requires 0 <= m < |xs| => ComputeRs(prim, shares[xs[m] - 1], toSign, rnd[m]))
  }

  /** The nonce points r * B broadcast in round 1, in the order of the nonces. */
  function Commitments(rs: seq<Scalar>): (ps: seq<Point>)
    ensures |ps| == |rs|
  {
    seq(|rs|, m requires 0 <= m < |rs| => MulBasepoint(rs[m]))
  }

  lemma CommitmentsSnoc(rs: seq<Scalar>, r: Scalar)
    ensures Commitments(rs + [r]) == Commitments(rs) + [MulBasepoint(r)]
  {
  }

  /** `computeSig`'s value: share * coef * k + nonce. */
  function PartialSig(share: Scalar, coef: Scalar, k: Scalar, nonce: Scalar): Scalar {
    Add(Mul(Mul(share, coef), k), nonce)
  }

  /** The partial signatures of the participants with evaluation points xs, in that order. */
  function Partials(shares: seq<Scalar>, coef: seq<Scalar>, k: Scalar, nonces: seq<Scalar>, xs: seq<int>): (res: seq<Scalar>)
    requires InRange(xs, |shares|) && InRange(xs, |coef|)
    requires |nonces| >= |xs|
    ensures |res| == |xs|
  {
    seq(|xs|, m requires 0 <= m < |xs| => PartialSig(shares[xs[m] - 1], coef[xs[m] - 1], k, nonces[m]))
  }

  lemma NoncesSnoc(prim: Primitives, shares: seq<Scalar>, toSign: seq<Byte>, xs: seq<int>, rnd: seq<Bytes64>, x: int)
    requires InRange(xs, |shares|)
    requires 0 <= x - 1 < |shares| && |rnd| > |xs|
    ensures Nonces(prim, shares, toSign, xs + [x], rnd)
         == Nonces(prim, shares, toSign, xs, rnd) + [ComputeRs(prim, shares[x - 1], toSign, rnd[|xs|])]
  {
  }

  /** The next signer's share, coefficient and nonce exist. */
  lemma SignerInRange<T>(shares: seq<Scalar>, coef: seq<Scalar>, sigs: seq<T>, nodes: set<int>, i: int, n: int)
    requires 0 <= i < n && i in nodes
    requires Covers(|shares|, nodes, n) && Covers(|coef|, nodes, n) && |sigs| >= |Xs(nodes, n)|
    ensures i < |shares| && i < |coef| && |Xs(nodes, i)| < |sigs|
  {
    NextParticipant(nodes, i, n, |shares|);
  }

  /** Appending the next signer's nonce extends the list over the participants below i + 1. */
  lemma NextNonce(prim: Primitives, shares: seq<Scalar>, toSign: seq<Byte>, rnd: seq<Bytes64>, nodes: set<int>, i: int, n: int,
                  rs: seq<Scalar>)
    requires 0 <= i < n && i in nodes
    requires Covers(|shares|, nodes, n) && |rnd| >= |Xs(nodes, n)|
    requires InRange(Xs(nodes, i), |shares|)
    requires i < |shares| && |Xs(nodes, i)| < |rnd|
    requires rs == Nonces(prim, shares, toSign, Xs(nodes, i), rnd)
    ensures InRange(Xs(nodes, i + 1), |shares|)
    ensures |Xs(nodes, i + 1)| == |Xs(nodes, i)| + 1 <= |Xs(nodes, n)|
    ensures rs + [ComputeRs(prim, shares[i], toSign, rnd[|rs|])] == Nonces(prim, shares, toSign, Xs(nodes, i + 1), rnd)
  {
    NextParticipant(nodes, i, n, |shares|);
    NoncesSnoc(prim, shares, toSign, Xs(nodes, i), rnd, i + 1);
  }

  /** The cache after `count` calls for `nodes` with size n. */
  function CacheAfter(cached0: map<set<int>, seq<Scalar>>, n: int, nodes: set<int>, count: nat): map<set<int>, seq<Scalar>> {
    if count == 0 then cached0 else Stored(cached0, n, nodes)
  }

  /** The partial signatures of the participants below i, and everything they index, are in range. */
  ghost predicate SignedBelow(shares: seq<Scalar>, coef: seq<Scalar>, k: Scalar, sigs: seq<Scalar>, nodes: set<int>, n: int,
                              i: int, res: seq<Scalar>)
  {
    && Covers(|shares|, nodes, n) && Covers(|coef|, nodes, n)
    && |Xs(nodes, i)| <= |Xs(nodes, n)| <= |sigs|
    && InRange(Xs(nodes, i), |shares|) && InRange(Xs(nodes, i), |coef|)
    && res == Partials(shares, coef, k, sigs, Xs(nodes, i))
  }

  /** Appending the next signer's partial signature extends the list over the participants below i + 1. */
  lemma NextPartial(shares: seq<Scalar>, coef: seq<Scalar>, k: Scalar, sigs: seq<Scalar>, nodes: set<int>, n: int,
                    i: int, res: seq<Scalar>, pt: Scalar)
    requires 0 <= i < n && i in nodes
    requires SignedBelow(shares, coef, k, sigs, nodes, n, i, res)
    requires i < |shares| && i < |coef| && |res| < |sigs|
    requires pt == PartialSig(shares[i], coef[i], k, sigs[|res|])
    ensures SignedBelow(shares, coef, k, sigs, nodes, n, i + 1, res + [pt])
  {
    NextParticipant(nodes, i, n, |shares|);
    NextParticipant(nodes, i, n, |coef|);
    PartialsSnoc(shares, coef, k, sigs, Xs(nodes, i), i + 1);
  }

  /** A node that does not participate adds nothing. */
  lemma SkipPartial(shares: seq<Scalar>, coef: seq<Scalar>, k: Scalar, sigs: seq<Scalar>, nodes: set<int>, n: int,
                    i: int, res: seq<Scalar>)
    requires 0 <= i < n && i !in nodes
    requires SignedBelow(shares, coef, k, sigs, nodes, n, i, res)
    ensures SignedBelow(shares, coef, k, sigs, nodes, n, i + 1, res)
  {
    NextParticipant(nodes, i, n, |shares|);
    NextParticipant(nodes, i, n, |coef|);
  }

  lemma PartialsSnoc(shares: seq<Scalar>, coef: seq<Scalar>, k: Scalar, nonces: seq<Scalar>, xs: seq<int>, x: int)
    requires InRange(xs, |shares|) && InRange(xs, |coef|)
    requires 0 <= x - 1 < |shares| && x - 1 < |coef| && |nonces| > |xs|
    ensures Partials(shares, coef, k, nonces, xs + [x])
         == Partials(shares, coef, k, nonces, xs) + [PartialSig(shares[x - 1], coef[x - 1], k, nonces[|xs|])]
  {
  }

  /** What `verify` throws. */
  datatype VerifyError = IllegalArgument | InvalidEncoding

  /** `Arrays.copyOfRange(signature, 0, 32)`: the first 32 bytes, zero-padded when the signature is shorter. */
  function FirstHalf(signature: seq<Byte>): (r: Bytes32)
    ensures forall i :: 0 <= i < 32 ==> r[i] == if i < |signature| then signature[i] else 0
  {
    if |signature| >= 32 then signature[..32] else signature + Zeros(32 - |signature|)
  }

  /**
   * `verify(publicKey, signature, signed)`: with R the first 32 bytes of the
   * signature and s the last 32, accepts iff compress(s * B - k * A) equals R,
   * where A is the decoded public key and k = H(R || publicKey || signed).
   * A public key that is not 32 bytes or a signature that is not 64 bytes is
   * an IllegalArgument; a 32-byte key that does not decode is an
   * InvalidEncoding.  Neither returns false.
   */
  function Verify(prim: Primitives, publicKey: seq<Byte>, signature: seq<Byte>, signed: seq<Byte>): (r: Result<bool, VerifyError>)
    ensures r.Ok? <==> |publicKey| == 32 && prim.decompress(publicKey).Some? && |signature| == 64
    ensures |publicKey| != 32 ==> r == Failure(IllegalArgument)
    ensures |publicKey| == 32 && prim.decompress(publicKey).None? ==> r == Failure(InvalidEncoding)
  {
    var R := FirstHalf(signature);
    var k := FromBytesModOrderWide(prim.sha512(R + publicKey + signed));
    if |publicKey| != 32 then
      Failure(IllegalArgument)
    else match prim.decompress(publicKey)
      case None => Failure(InvalidEncoding)
      case Some(A) =>
        if |signature| != 64 then
          Failure(IllegalArgument)
        else
          var negA := Negate(A);
          var s := FromBits(signature[32..]);
          var pt := DoubleScalarMulBasepoint(k, negA, s);
          Ok(prim.compress(pt) == R)
  }

  /** The Schnorr verification equation s * B = R + k * A, for some R encoded in the signature. */
  ghost predicate SchnorrEquation(prim: Primitives, publicKey: Bytes32, A: Point, signature: Bytes64, signed: seq<Byte>) {
    var k := FromBytesModOrderWide(prim.sha512(signature[..32] + publicKey + signed));
    exists R: Point :: prim.compress(R) == signature[..32]
      && MulBasepoint(FromBits(signature[32..])) == PointAdd(R, ScalarMul(k, A))
  }

  /** `verify` accepts exactly the signatures that satisfy the Schnorr equation. */
  lemma VerifyIsSchnorr(prim: Primitives, publicKey: Bytes32, A: Point, signature: Bytes64, signed: seq<Byte>)
    requires prim.decompress(publicKey) == Some(A)
    ensures Verify(prim, publicKey, signature, signed) == Ok(true) <==> SchnorrEquation(prim, publicKey, A, signature, signed)
  {
    var k := FromBytesModOrderWide(prim.sha512(signature[..32] + publicKey + signed));
    var s := FromBits(signature[32..]);
    var pt := DoubleScalarMulBasepoint(k, Negate(A), s);
    if Verify(prim, publicKey, signature, signed) == Ok(true) {
      SchnorrArith(k, A.dlog, s, pt.dlog);
      assert prim.compress(pt) == signature[..32];
    }
    if SchnorrEquation(prim, publicKey, A, signature, signed) {
      var R: Point :| prim.compress(R) == signature[..32]
        && MulBasepoint(s) == PointAdd(R, ScalarMul(k, A));
      SchnorrArith(k, A.dlog, s, R.dlog);
      assert pt == R;
    }
  }

  /** s = r + k a  iff  k (-a) + s = r, modulo L. */
  lemma SchnorrArith(k: Scalar, a: Scalar, s: Scalar, r: Scalar)
    ensures s == Add(r, Mul(k, a)) <==> Add(Mul(k, Neg(a)), s) == r
  {
    NegProduct(k, a);
    CancelPair(Mul(k, Neg(a)), Mul(k, a), s, r);
  }

  /** An honestly formed signature is accepted: the completeness of `verify`. */
  lemma VerifyAccepts(prim: Primitives, A: Point, R: Point, s: Scalar, signed: seq<Byte>)
    requires prim.Valid()
    requires MulBasepoint(s) == PointAdd(R, ScalarMul(ComputeK(prim, prim.compress(A), R, signed), A))
    ensures Verify(prim, prim.compress(A), prim.compress(R) + Encode(s), signed) == Ok(true)
  {
    var publicKey := prim.compress(A);
    var signature := prim.compress(R) + Encode(s);
    assert signature[..32] == prim.compress(R);
    assert signature[32..] == Encode(s);
    FromBitsEncode(s);
    assert SchnorrEquation(prim, publicKey, A, signature, signed);
    VerifyIsSchnorr(prim, publicKey, A, signature, signed);
  }

  // ---------------------------------------------------------------------
  // The combined signature is a valid Ed25519 signature.

  /**
   * Adding partial signatures share_j * w_j * k + r_j gives the sum of the
   * nonces plus k times the weighted sum of the shares.
   */
  lemma {:induction false} SumOfPartials(res: seq<Scalar>, vals: seq<Scalar>, ws: seq<Scalar>, nonces: seq<Scalar>, k: Scalar, m: nat)
    requires m <= |res| && m <= |vals| && m <= |ws| && m <= |nonces|
    requires WeightedPartials(res, vals, ws, nonces, k, m)
    ensures Sum(res[..m]) == Add(Sum(nonces[..m]), Mul(Dot(vals, ws, m), k))
  {
    if m == 0 {
      assert res[..0] == [] && nonces[..0] == [];
    } else {
      SumOfPartials(res, vals, ws, nonces, k, m - 1);
      assert res[..m][..m - 1] == res[..m - 1];
      assert nonces[..m][..m - 1] == nonces[..m - 1];
      RegroupSum(Sum(nonces[..m - 1]), Dot(vals, ws, m - 1), Mul(vals[m - 1], ws[m - 1]), nonces[m - 1], k);
    }
  }

  /**
   * With exactly as many participants as f has coefficients or more, at
   * pairwise separated points, the partial signatures over shares of f
   * add up to the sum of the nonces plus k * f(0): the Lagrange
   * coefficients recombine the shares into the secret.
   */
  lemma PartialsCombine(f: seq<int>, n: int, nodes: set<int>, k: Scalar, nonces: seq<Scalar>)
    requires 1 <= |f| <= |Xs(nodes, n)| && Separated(Xs(nodes, n))
    requires |nonces| == |Xs(nodes, n)|
    ensures InRange(Xs(nodes, n), |Shares(f, n)|) && InRange(Xs(nodes, n), |LagrangeCoefs(n, nodes)|)
    ensures Sum(Partials(Shares(f, n), LagrangeCoefs(n, nodes), k, nonces, Xs(nodes, n)))
         == Add(Sum(nonces), Mul(k, Reduce(f[0])))
  {
    var xs := Xs(nodes, n);
    var shares := Shares(f, n);
    var coef := LagrangeCoefs(n, nodes);
    SharesAreValues(f, n, nodes);
    CoefsAreWeights(n, nodes);
    WeightedFromPoints(f, shares, coef, k, nonces, xs);
    SumOfAllPartials(Partials(shares, coef, k, nonces, xs), Evaluations(f, xs), Weights(xs), nonces, k);
    Reconstruction(f, xs);
    HornerAtZero(f);
    MulComm(Dot(Evaluations(f, xs), Weights(xs), |xs|), k);
  }

  /** The share of the participant at point x is f(x) mod L. */
  lemma SharesAreValues(f: seq<int>, n: int, nodes: set<int>)
    ensures InRange(Xs(nodes, n), |Shares(f, n)|)
    ensures ValuesAt(f, Shares(f, n), Xs(nodes, n))
  {
    var xs := Xs(nodes, n);
    forall j | 0 <= j < |xs|
      ensures Shares(f, n)[xs[j] - 1] == Reduce(Horner(f, xs[j]))
    {
      HornerIsPowerSum(f, xs[j]);
    }
  }

  /** The coefficient list computed for the participants holds each one's interpolation weight at its point. */
  lemma CoefsAreWeights(n: int, nodes: set<int>)
    ensures InRange(Xs(nodes, n), |LagrangeCoefs(n, nodes)|)
    ensures WeightsAt(LagrangeCoefs(n, nodes), Xs(nodes, n))
  {
    var xs := Xs(nodes, n);
    forall j | 0 <= j < |xs|
      ensures LagrangeCoefs(n, nodes)[xs[j] - 1] == Weight(xs, j)
    {
      CoefIsWeight(n, nodes, j);
    }
  }

  /** shares[x - 1] = f(x) mod L at every point x of xs. */
  ghost predicate ValuesAt(f: seq<int>, shares: seq<Scalar>, xs: seq<int>)
    requires InRange(xs, |shares|)
  {
    forall j :: 0 <= j < |xs| ==> shares[xs[j] - 1] == Reduce(Horner(f, xs[j]))
  }

  /** coef[x - 1] is the interpolation weight of the point x = xs[j]. */
  ghost predicate WeightsAt(coef: seq<Scalar>, xs: seq<int>)
    requires InRange(xs, |coef|)
  {
    forall j :: 0 <= j < |xs| ==> coef[xs[j] - 1] == Weight(xs, j)
  }

  lemma WeightedFromPoints(f: seq<int>, shares: seq<Scalar>, coef: seq<Scalar>, k: Scalar, nonces: seq<Scalar>, xs: seq<int>)
    requires InRange(xs, |shares|) && InRange(xs, |coef|) && |nonces| == |xs|
    requires ValuesAt(f, shares, xs) && WeightsAt(coef, xs)
    ensures WeightedPartials(Partials(shares, coef, k, nonces, xs), Evaluations(f, xs), Weights(xs), nonces, k, |xs|)
  {
    var res, vals, ws := Partials(shares, coef, k, nonces, xs), Evaluations(f, xs), Weights(xs);
    forall j | 0 <= j < |xs|
      ensures res[j] == PartialSig(vals[j], ws[j], k, nonces[j])
    {
      assert vals[j] == shares[xs[j] - 1];
      assert ws[j] == coef[xs[j] - 1];
    }
  }

  /** The sum of all the partial signatures. */
  lemma SumOfAllPartials(res: seq<Scalar>, vals: seq<Scalar>, ws: seq<Scalar>, nonces: seq<Scalar>, k: Scalar)
    requires |res| == |vals| == |ws| == |nonces|
    requires WeightedPartials(res, vals, ws, nonces, k, |res|)
    ensures Sum(res) == Add(Sum(nonces), Mul(Dot(vals, ws, |res|), k))
  {
    SumOfPartials(res, vals, ws, nonces, k, |res|);
    assert res[..|res|] == res && nonces[..|res|] == nonces;
  }

  /** res[j] = vals[j] * ws[j] * k + nonces[j] for every j < m. */
  ghost predicate WeightedPartials(res: seq<Scalar>, vals: seq<Scalar>, ws: seq<Scalar>, nonces: seq<Scalar>, k: Scalar, m: nat)
    requires m <= |res| && m <= |vals| && m <= |ws| && m <= |nonces|
  {
    forall j :: 0 <= j < m ==> res[j] == PartialSig(vals[j], ws[j], k, nonces[j])
  }

  lemma HornerAtZero(f: seq<int>)
    requires f != []
    ensures Horner(f, 0) == f[0]
  {
  }

  /** The nonce points add up to the point of the summed nonces. */
  lemma CommitmentsSum(nonces: seq<Scalar>)
    ensures SumPoints(Commitments(nonces)) == MulBasepoint(Sum(nonces))
  {
    SumPointsDlog(Commitments(nonces));
    assert seq(|nonces|, i requires 0 <= i < |nonces| => Commitments(nonces)[i].dlog) == nonces;
  }

  /**
   * Threshold signing is correct: t participants at separated points,
   * holding shares of a polynomial f with at most t coefficients, produce
   * the signature compress(R) || s with R the sum of their nonce points and
   * s the sum of their partial signatures, and `verify` accepts it under
   * the public key of f(0).
   */
  lemma ThresholdSignatureVerifies(prim: Primitives, f: seq<int>, n: int, nodes: set<int>, nonces: seq<Scalar>, msg: seq<Byte>)
    requires prim.Valid()
    requires 1 <= |f| <= |Xs(nodes, n)| && Separated(Xs(nodes, n))
    requires |nonces| == |Xs(nodes, n)|
    ensures InRange(Xs(nodes, n), |Shares(f, n)|) && InRange(Xs(nodes, n), |LagrangeCoefs(n, nodes)|)
    ensures var publicKey := prim.compress(MulBasepoint(Reduce(f[0])));
            var R := SumPoints(Commitments(nonces));
            var k := ComputeK(prim, publicKey, R, msg);
            var res := Partials(Shares(f, n), LagrangeCoefs(n, nodes), k, nonces, Xs(nodes, n));
            Verify(prim, publicKey, prim.compress(R) + Encode(Sum(res)), msg) == Ok(true)
  {
    var A := MulBasepoint(Reduce(f[0]));
    var publicKey := prim.compress(A);
    var R := SumPoints(Commitments(nonces));
    var k := ComputeK(prim, publicKey, R, msg);
    PartialsCombine(f, n, nodes, k, nonces);
    CommitmentsSum(nonces);
    var s := Sum(Partials(Shares(f, n), LagrangeCoefs(n, nodes), k, nonces, Xs(nodes, n)));
    assert MulBasepoint(s) == PointAdd(R, ScalarMul(k, A));
    VerifyAccepts(prim, A, R, s, msg);
  }
}
