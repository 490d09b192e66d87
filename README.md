# Threshold Ed25519 signatures, modelled in Dafny

This project models `ThresholdSigEd25519` from weavechain/threshold-sig. It is a t-of-n
threshold signature scheme whose joint signatures are ordinary Ed25519 (Schnorr) signatures.
The model also covers the two end-to-end scenarios and the `combine` helper of the
repository's test class.

The scheme works as follows.

- **Dealing.** A dealer hashes a 32-byte secret with SHA-512 and clamps the first half into
  the Ed25519 secret scalar (`createPrivateKey`, `createPublicKey`). It then Shamir-splits
  that scalar over n nodes with a random polynomial of t coefficients (`Polynom`,
  `shamirSplit`, `generate`). Node i holds the polynomial's value at i + 1.
- **Round 1.** Every participating node derives a nonce r and publishes r·B (`gatherRi`).
- **Challenge.** The coordinator adds up the first t commitments into R (`computeR`). It
  derives the challenge k = H(R ‖ A ‖ m) (`computeK`).
- **Round 2.** Every participant returns share · λ · k + r (`gatherSignatures`,
  `computeSig`). Here λ is its Lagrange coefficient at 0 for the participating node set
  (`getLagrangeCoef`). λ is memoised per node set.
- **Output.** The coordinator adds up the first t partial signatures into s and emits
  R ‖ s (`computeSignature`). `verify` checks that pair as a standard Ed25519 signature.
- **PedDKG scenario.** Five dealers each run `generate`. `combine` adds their public keys
  and adds their shares position by position.

The field, group and byte-level pieces are modelled as follows.

- **Scalars** are integers modulo the group order L (`ScalarField`).
- **Points** are represented by their discrete logarithm with respect to the base point B
  (`Group`). Point addition and scalar multiplication are therefore arithmetic modulo L.
- **Curve encoding and SHA-512** are uninterpreted functions carried in a `Primitives`
  value. The only property assumed of them is that decompression undoes compression.
- **Randomness** is passed in as explicit parameters. These are the polynomial's 32-byte
  draws and each participant's 64 bytes of nonce randomness.
- **Byte strings** are sequences of bytes (`Bytes`, `ScalarCodec`). Scalars and the
  32-byte buffers are little-endian. `BigInteger.toByteArray` is big-endian two's
  complement (`Bytes.ToByteArray`), and `scalarFromBigInteger` reverses it into a
  little-endian 32-byte buffer.

The main results are these.

- **Correctness of the scheme.** For any polynomial f of t coefficients and any t
  participating nodes with pairwise-invertible evaluation points, the signature assembled
  from the two rounds verifies under the key f(0)·B (`ThresholdSig.ThresholdSignatureVerifies`).
  Its ingredients are:
  - Horner evaluation equals the power sum;
  - Lagrange reconstruction at 0 (`Interpolation.Reconstruction`, built on
    `Polynomials.VanishingPolyIsZero`);
  - at each participant's index, the list `getLagrangeCoef` computes holds that
    participant's Lagrange weight at 0 (`Lagrange.CoefIsWeight`);
  - the Schnorr equation.
- **combine is linear.** Combining m dealings of f1 … fm over m nodes yields exactly the
  dealing of f1 + … + fm over those m nodes (`ThresholdSigEd25519Test.JointKey`,
  `ThresholdSigEd25519Test.DealersJointKey`).
- **The two test scenarios** are methods whose postcondition is the test's own assertion:
  `verify` returns true.

## Model

| member | source | states |
|---|---|---|
| ThresholdSig.Polynom.constructor | src/main/java/com/weavechain/sig/ThresholdSigEd25519.java:263-270 | the coefficients are a0 followed by t - 1 values of `fromBits` of the random draws |
| ThresholdSig.DealerPoly | src/main/java/com/weavechain/sig/ThresholdSigEd25519.java:263-270 | a polynomial of `order` coefficients (one when order ≤ 1) whose constant term is a0 |
| ThresholdSig.Polynom.At | src/main/java/com/weavechain/sig/ThresholdSigEd25519.java:272-282 | the Horner-style loop returns the power sum Σ c_i·x^i reduced mod L |
| ThresholdSig.HornerLoopStep | src/main/java/com/weavechain/sig/ThresholdSigEd25519.java:276-279 | one loop step keeps cp = x^i and res = the partial power sum, both mod L |
| Polynomials.HornerIsPowerSum | src/main/java/com/weavechain/sig/ThresholdSigEd25519.java:272-282 | Horner evaluation equals the power sum Σ a_i·x^i |
| ThresholdSig.ThresholdSigEd25519.ShamirSplit | src/main/java/com/weavechain/sig/ThresholdSigEd25519.java:60-70 | node i's share is the dealer polynomial at i + 1, mod L, for i < n |
| ThresholdSig.ThresholdSigEd25519.Generate | src/main/java/com/weavechain/sig/ThresholdSigEd25519.java:40-58 | fresh parameters hold the clamped secret scalar, its public key compress(s·B), the Shamir shares of s, and no nonces |
| ThresholdSig.ThresholdSigEd25519.CreatePrivateKey | src/main/java/com/weavechain/sig/ThresholdSigEd25519.java:182-189 | the private key is the little-endian value of the clamped first half of SHA-512(secret), mod L |
| ThresholdSig.ThresholdSigEd25519.CreatePublicKey | src/main/java/com/weavechain/sig/ThresholdSigEd25519.java:172-180 | the public key is the compressed multiple of B by the same clamped scalar |
| ThresholdSig.ClampedBytes | src/main/java/com/weavechain/sig/ThresholdSigEd25519.java:174-176 | after clamping, byte 0 is a multiple of 8 and byte 31 lies in [64, 128) |
| ThresholdSig.ClampedRange | src/main/java/com/weavechain/sig/ThresholdSigEd25519.java:174-176 | the clamped value is a multiple of 8 in [2^254, 2^255) |
| ThresholdSig.SecretScalarValue | src/main/java/com/weavechain/sig/ThresholdSigEd25519.java:182-188 | `fromBits` of the clamped hash is its integer value reduced mod L |
| ThresholdSig.Clamped | src/main/java/com/weavechain/sig/ThresholdSigEd25519.java:183-186 | clamping clears the low three bits of byte 0 and the top bit of byte 31, sets bit 6 of byte 31, and keeps every other bit: bits 3 to 7 of byte 0, bits 0 to 5 of byte 31 and all of bytes 1 to 30 |
| ThresholdSig.Params.constructor | src/main/java/com/weavechain/sig/ThresholdSigEd25519.java:52-57 | the parameters hold the four given values: private key, public key, private shares and round-1 nonces |
| ThresholdSig.ThresholdSigEd25519.constructor | src/main/java/com/weavechain/sig/ThresholdSigEd25519.java:16-22 | the scheme object keeps the threshold t and the node count n it is given |
| ScalarCodec.ScalarFromBigInteger | src/main/java/com/weavechain/sig/ThresholdSigEd25519.java:249-257 | the 32-byte buffer holds the low bytes of the two's-complement value, least significant first; for 0 ≤ v < 2^255 the result is v mod L |
| ScalarCodec.CopiedBytes | src/main/java/com/weavechain/sig/ThresholdSigEd25519.java:250-255 | the reversing copy loop produces exactly the low 32 little-endian bytes of the value |
| ScalarCodec.LowBytesSmall | src/main/java/com/weavechain/sig/ThresholdSigEd25519.java:249-257 | for 0 ≤ v < 2^255 the copied bytes decode back to v mod L |
| ScalarCodec.FromBitsEncode | src/main/java/com/weavechain/sig/ThresholdSigEd25519.java:242 | `fromBits` inverts `toByteArray` on a reduced scalar |
| ScalarCodec.EncodeInjective | src/main/java/com/weavechain/sig/ThresholdSigEd25519.java:145 | distinct scalars have distinct 32-byte encodings |
| ScalarCodec.FromBitsIgnoresTopBit | src/main/java/com/weavechain/sig/ThresholdSigEd25519.java:242 | `fromBits` ignores the top bit of its last byte, so two signatures that differ only in bit 255 of s are read as the same s |
| ScalarCodec.WideAgreesWithBits | src/main/java/com/weavechain/sig/ThresholdSigEd25519.java:238-242 | below 2^255, `fromBits` of 32 bytes equals `fromBytesModOrderWide` of the same bytes zero-extended to 64 |
| Lagrange.LagrangeCache.GetLagrangeCoef | src/main/java/com/weavechain/sig/ThresholdSigEd25519.java:197-228 | returns the stored list for the node set if there is one, otherwise computes the list for `size` and stores it under the node set |
| Lagrange.LagrangeCache.constructor | src/main/java/com/weavechain/sig/ThresholdSigEd25519.java:32 | the cache starts empty |
| Lagrange.Indices | src/main/java/com/weavechain/sig/ThresholdSigEd25519.java:203-208 | the index list is 1, 2, …, size |
| Lagrange.CoefAt | src/main/java/com/weavechain/sig/ThresholdSigEd25519.java:210-222 | entry i is the product of x_j over the other participants, times the inverse of the product of (x_j − x_i) |
| Lagrange.Xs | src/main/java/com/weavechain/sig/ThresholdSigEd25519.java:76-77 | the evaluation points of the participants are node + 1 for each node below the bound, each in [1, bound] |
| Lagrange.XsIncreasing | src/main/java/com/weavechain/sig/ThresholdSigEd25519.java:76-77 | the evaluation points come in strictly increasing node order |
| Lagrange.CacheIgnoresSize | src/main/java/com/weavechain/sig/ThresholdSigEd25519.java:198-201 | once a list is stored for a node set, every later call with that set returns it whatever size it asks for, and leaves the cache unchanged |
| Lagrange.CoefsExtend | src/main/java/com/weavechain/sig/ThresholdSigEd25519.java:210-222 | for node sets below size, a longer list agrees with the shorter one on its first size entries |
| Lagrange.TwoOfThreeCoefs | src/main/java/com/weavechain/sig/ThresholdSigEd25519.java:210-222 | for nodes {0, 2} of three, the coefficients are 3·(3 − 1)⁻¹ and 1·(1 − 3)⁻¹ |
| Lagrange.CoefIsWeight | src/main/java/com/weavechain/sig/ThresholdSigEd25519.java:210-222 | the coefficient at each participant's index is its Lagrange weight at 0 over the participants' evaluation points |
| Interpolation.Reconstruction | src/main/java/com/weavechain/sig/ThresholdSigEd25519.java:210-222 | for a polynomial of at most as many coefficients as there are separated points, the weighted sum of its values at the points is its value at 0 |
| Polynomials.VanishingPolyIsZero | src/main/java/com/weavechain/sig/ThresholdSigEd25519.java:210-222 | a polynomial of at most t coefficients that vanishes mod L at t separated points vanishes everywhere mod L |
| ThresholdSig.ThresholdSigEd25519.GatherRi | src/main/java/com/weavechain/sig/ThresholdSigEd25519.java:72-90 | the participants' nonces, in node order, are stored as `sig`; the returned points are their multiples of B in the same order; nothing else changes |
| ThresholdSig.NextParticipant | src/main/java/com/weavechain/sig/ThresholdSigEd25519.java:76-85 | each node considered appends its evaluation point when it participates and stays within the share list |
| ThresholdSig.ThresholdSigEd25519.DrawIfParticipant | src/main/java/com/weavechain/sig/ThresholdSigEd25519.java:76-85 | one pass of the round-1 loop appends node i's nonce and nonce point exactly when i participates, keeping the nonces and the points in the same order |
| ThresholdSig.NonceInput | src/main/java/com/weavechain/sig/ThresholdSigEd25519.java:154-166 | the hashed nonce input is 128 bytes plus the message |
| ThresholdSig.NonceInputFields | src/main/java/com/weavechain/sig/ThresholdSigEd25519.java:24-28 | the nonce input starts with the 32 bytes 0xFF of PREFIX, and the share, the message and the 64 random bytes can be read back at their offsets |
| ThresholdSig.ThresholdSigEd25519.ComputeR | src/main/java/com/weavechain/sig/ThresholdSigEd25519.java:96-103 | R is the sum of the first t commitments (the first one alone when t ≤ 1) |
| ThresholdSig.CommitmentsSum | src/main/java/com/weavechain/sig/ThresholdSigEd25519.java:96-103 | the sum of the commitments is the commitment to the sum of the nonces |
| ThresholdSig.ThresholdSigEd25519.GatherSignatures | src/main/java/com/weavechain/sig/ThresholdSigEd25519.java:114-130 | the partial signatures, in node order, use the participants' shares, the coefficients the cache held beforehand (or computes) and the round-1 nonces in the same order; the cache gains the node set's list |
| ThresholdSig.ThresholdSigEd25519.SignIfParticipant | src/main/java/com/weavechain/sig/ThresholdSigEd25519.java:118-127 | one pass of the round-2 loop appends node i's partial signature exactly when i participates, using the next round-1 nonce, and stores the coefficient list once the first participant signs |
| ThresholdSig.ChallengeInput | src/main/java/com/weavechain/sig/ThresholdSigEd25519.java:105-112 | the hashed challenge input is compress(R), then the public key, then the message, each readable at its offset |
| ThresholdSig.ChallengeAgrees | src/main/java/com/weavechain/sig/ThresholdSigEd25519.java:231-238 | the challenge `verify` recomputes from R ‖ s is the challenge `computeK` gave the signers |
| ThresholdSig.ThresholdSigEd25519.ComputeSig | src/main/java/com/weavechain/sig/ThresholdSigEd25519.java:149-152 | a partial signature is share · λ_index · k + nonce, with λ taken from the cache |
| ThresholdSig.ThresholdSigEd25519.ComputeSignature | src/main/java/com/weavechain/sig/ThresholdSigEd25519.java:136-147 | the signature is compress(R) followed by the encoding of the sum of the first t partial signatures; its second half decodes to that sum |
| ThresholdSig.PartialsCombine | src/main/java/com/weavechain/sig/ThresholdSigEd25519.java:114-130 | with t separated participants, the partial signatures add up to Σ nonces + k · f(0) |
| ThresholdSig.SumOfPartials | src/main/java/com/weavechain/sig/ThresholdSigEd25519.java:136-141 | a prefix of weighted partial signatures adds up to the nonces plus k times the weighted share sum |
| ThresholdSig.Verify | src/main/java/com/weavechain/sig/ThresholdSigEd25519.java:230-247 | succeeds exactly when the key is 32 bytes and decodes and the signature is 64 bytes; a key of another length is IllegalArgument and an undecodable key is InvalidEncoding |
| ThresholdSig.FirstHalf | src/main/java/com/weavechain/sig/ThresholdSigEd25519.java:231 | the first 32 bytes of the signature, padded with zeros when it is shorter |
| ThresholdSig.VerifyIsSchnorr | src/main/java/com/weavechain/sig/ThresholdSigEd25519.java:230-247 | `verify` returns true exactly when s·B = R + k·A for a point R encoded in the first half |
| ThresholdSig.VerifyAccepts | src/main/java/com/weavechain/sig/ThresholdSigEd25519.java:230-247 | a pair (R, s) with s·B = R + k·A is accepted |
| ThresholdSig.SchnorrArith | src/main/java/com/weavechain/sig/ThresholdSigEd25519.java:243 | s = r + k·a exactly when −k·a + s = r, so the double-scalar multiply recovers R |
| ThresholdSig.ThresholdSignatureVerifies | src/main/java/com/weavechain/sig/ThresholdSigEd25519.java:72-147 | the two-round signature from the shares of any t-coefficient polynomial f, over t separated participants, verifies under compress(f(0)·B) |
| ThresholdSigEd25519Test.Combine | src/test/java/com/weavechain/sig/ThresholdSigEd25519Test.java:53-74 | returns nothing exactly when a key fails to decode or a dealer has too few shares; otherwise the public key is the compressed sum of the decoded keys and share i is the sum of the dealers' share i, for i below the dealer count |
| ThresholdSigEd25519Test.AddShares | src/test/java/com/weavechain/sig/ThresholdSigEd25519Test.java:64-66 | the running share sums gain one dealer's shares position by position, or fail when that dealer has too few |
| ThresholdSigEd25519Test.ColumnSumIsShare | src/test/java/com/weavechain/sig/ThresholdSigEd25519Test.java:62-67 | the sum of the dealers' shares at position i is the summed polynomial at i + 1 |
| ThresholdSigEd25519Test.CombinedAreShares | src/test/java/com/weavechain/sig/ThresholdSigEd25519Test.java:62-67 | the combined share list is the Shamir dealing of the summed polynomial |
| ThresholdSigEd25519Test.CombinedPublicKey | src/test/java/com/weavechain/sig/ThresholdSigEd25519Test.java:61-63 | the sum of the decoded dealer keys is the summed polynomial's constant term times B |
| ThresholdSigEd25519Test.PolySumLength | src/test/java/com/weavechain/sig/ThresholdSigEd25519Test.java:62-67 | polynomials of equal length add up to one of that length |
| ThresholdSigEd25519Test.JointKey | src/test/java/com/weavechain/sig/ThresholdSigEd25519Test.java:53-74 | m dealings of f1 … fm over m nodes combine without error into the dealing of f1 + … + fm over those nodes |
| ThresholdSigEd25519Test.DealersJointKey | src/test/java/com/weavechain/sig/ThresholdSigEd25519Test.java:82-89 | five generated dealings combine into the dealing of their summed polynomial |
| ThresholdSigEd25519Test.GeneratedIsDealt | src/main/java/com/weavechain/sig/ThresholdSigEd25519.java:40-58 | what `generate` returns is a dealing of its polynomial: key f(0)·B and shares f(i + 1) |
| ThresholdSigEd25519Test.SmallSchemeSeparated | src/test/java/com/weavechain/sig/ThresholdSigEd25519Test.java:23 | any node set below 7 has pairwise-invertible evaluation points |
| ThresholdSigEd25519Test.FourSigners | src/test/java/com/weavechain/sig/ThresholdSigEd25519Test.java:28-32 | nodes {1, 3, 4, 6} of seven sign at evaluation points 2, 4, 5, 7 |
| ThresholdSigEd25519Test.ThreeSigners | src/test/java/com/weavechain/sig/ThresholdSigEd25519Test.java:91-94 | nodes {1, 3, 4} of five sign at evaluation points 2, 4, 5 |
| ThresholdSigEd25519Test.SignAndVerify | src/test/java/com/weavechain/sig/ThresholdSigEd25519Test.java:34-49 | the two rounds run on any dealing by t separated participants produce a signature that `verify` accepts |
| ThresholdSigEd25519Test.TranscriptVerifies | src/test/java/com/weavechain/sig/ThresholdSigEd25519Test.java:34-49 | the transcript of the two rounds satisfies `verify` |
| ThresholdSigEd25519Test.TestSignature | src/test/java/com/weavechain/sig/ThresholdSigEd25519Test.java:20-50 | the 4-of-7 scenario with nodes {1, 3, 4, 6}: `verify` returns true |
| ThresholdSigEd25519Test.TestSignaturePedDKG | src/test/java/com/weavechain/sig/ThresholdSigEd25519Test.java:76-112 | the 3-of-5 scenario with five combined dealers and nodes {1, 3, 4}: `verify` returns true |
| ThresholdSigEd25519Test.DealFive | src/test/java/com/weavechain/sig/ThresholdSigEd25519Test.java:82-86 | five calls of `generate` yield five dealings of three-coefficient polynomials |

## Left out

- SHA-512 and the curve's point encoding and decoding are uninterpreted functions. The only assumption is that decompression undoes compression.
- Curve arithmetic is modelled on discrete logarithms. Cofactor and small-order points are not modelled.
- `SecureRandom` is not modelled. The polynomial's draws, each nonce's 64 random bytes and each dealer's secret are parameters.
- `Scalar.fromBits` is modelled as the low 255 bits reduced modulo L at once. The library keeps such values unreduced until the next scalar operation. The source always stores the private key unreduced, because the clamped value lies in [2^254, 2^255) and so exceeds L (`ClampedRange`). The model stores it reduced. For t ≥ 2 the shares go through `Polynom.at`'s multiply-and-add, which reduces them. For t ≤ 1, `Polynom.at` returns the constant coefficient unchanged, so the shares are unreduced too. Their byte encodings then enter the nonce hash, so the source's nonces differ from the model's. `mulBasepoint` of either value gives the same point.
- `computeRi` and `computeSignature(int, …)` are one-line forwards to `computeRs` and `computeSig`. They have no members of their own.
- Lagrange.Indices: the source's index loop `for (int i = 1; i <= size; i++)` never ends when `size` is `Integer.MAX_VALUE`, because the 32-bit `i` wraps. The model's integers are unbounded, so its loop always ends. The same 32-bit bound on list sizes and node counts is not modelled anywhere else either.
- `mulBasepoint` and `sha512` are modelled as `Group.MulBasepoint` and `Primitives.sha512`.
- The cache is a `ThreadLocal` static map written under a lock in the source. The model has a single `LagrangeCache` object passed to the methods that use it. Thread confinement and the lock are not modelled, and the scenarios start from an empty cache.
- The cache is keyed by the node set alone, so a list stored for one size is returned for another. `CacheIgnoresSize` and `CoefsExtend` state what this means: for node sets below both sizes, the stored list agrees with the fresh one on the shorter prefix.
- The Lagrange coefficients are proved to be the interpolation weights when the evaluation points' pairwise differences are invertible modulo L. L's primality is not proved. The test scenarios discharge invertibility for differences of at most 6 with explicit inverses.
- `computeR` and `computeSignature` sum only the first t round values. The correctness theorem therefore takes exactly t participants, as both scenarios have.
- `combine` sizes the share list by the number of dealers, as the source does. This is n when every node deals, as in the PedDKG scenario.
- `verify` throws on a key or signature of the wrong length and on an undecodable key. The model returns an error value in those cases.
- `ThresholdSigEd25519Params.java` is not part of this model. `ThresholdSig.Params` has the four fields `privateKey`, `publicKey`, `privateShares` and `sig`.
- `combine` prints the exception it catches with `System.out.println` before returning null. The model returns `None` and does not model the printing.
- ThresholdSig.ThresholdSigEd25519.ComputeR: requires at least t points, and at least one. With fewer, `Ri.get(i)` throws IndexOutOfBoundsException, which is how the source signals too few participants. The model does not return that error.
- ThresholdSig.ThresholdSigEd25519.ComputeSignature: requires at least t partial signatures. With fewer, `res.get(i)` throws IndexOutOfBoundsException. The model does not return that error.
- ThresholdSig.ThresholdSigEd25519.GatherRi: requires a private share for every participating node below n. Without one, `getPrivateShares().get(i)` throws IndexOutOfBoundsException. The model does not return that error.
- ThresholdSig.ThresholdSigEd25519.GatherSignatures: requires that round 1 has run, so `sig` is set. Otherwise `getSig()` is null and throws NullPointerException. It also requires a nonce for every participant and a share for every participating node; otherwise `get` throws IndexOutOfBoundsException. And it requires a coefficient list long enough for every participant. A list cached for a smaller size can be too short, and then `coef.get(index - 1)` throws IndexOutOfBoundsException. The model returns none of these errors.
- ThresholdSig.ThresholdSigEd25519.ComputeSig: requires `index - 1` to lie within the coefficient list. Otherwise `coef.get(index - 1)` throws IndexOutOfBoundsException. The model does not return that error.
- Java strings are modelled as their UTF-8 bytes. The build script `build.gradle.kts` is not modelled.
