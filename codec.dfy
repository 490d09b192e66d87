/**
 * The curve library's byte encodings of scalars (`Scalar.fromBits`,
 * `Scalar.toByteArray`, `Scalar.fromBytesModOrderWide`) and the protocol's
 * own conversion of a `BigInteger` to a scalar, `scalarFromBigInteger`.
 */
module ScalarCodec {
  import opened ScalarField
  import opened Bytes

  /**
   * `Scalar.fromBits`: the low 255 bits of a 32-byte little-endian string.
   * The library keeps that value unreduced; the model takes its residue mod L
   * at once, which is all that scalar arithmetic and basepoint multiplication see.
   */
  function FromBits(bs: Bytes32): Scalar {
    (LeValue(bs) % TWO_255) % L
  }

  /** `Scalar.toByteArray`: the canonical 32-byte little-endian encoding. */
  function Encode(s: Scalar): (bs: Bytes32)
    ensures LeValue(bs) == s
  {
    assert L < Pow256(32) by { Pow256Of32(); }
    LeValueOfLeBytes(s, 32);
    LeBytes(s, 32)
  }

  /** `Scalar.fromBytesModOrderWide`: a 64-byte little-endian digest reduced mod L. */
  function FromBytesModOrderWide(d: Bytes64): Scalar {
    LeValue(d) % L
  }

  /** Reading back an encoded scalar gives the scalar. */
  lemma FromBitsEncode(s: Scalar)
    ensures FromBits(Encode(s)) == s
  {
    var v := LeValue(Encode(s));
    assert v == s;
    assert s < TWO_255;
    SmallMod(s, TWO_255);
    SmallMod(s, L);
  }

  /** `fromBits` ignores the top bit of its last byte. */
  lemma FromBitsIgnoresTopBit(bs: Bytes32)
    ensures FromBits(bs[31 := bs[31] % 128]) == FromBits(bs)
  {
    var low := bs[..31];
    assert bs == low + [bs[31]];
    assert bs[31 := bs[31] % 128] == low + [bs[31] % 128];
    LeValueSnoc(low, bs[31]);
    LeValueSnoc(low, bs[31] % 128);
    LeValueBound(low);
    Pow256Of31();
    TopBitDropped(LeValue(low), bs[31], Pow256(31));
  }

  lemma TopBitDropped(x: int, b: int, p: int)
    requires 0 <= x < p && 0 <= b < 256 && 256 * p == TWO_256
    ensures (x + b * p) % TWO_255 == (x + (b % 128) * p) % TWO_255
  {
    assert 128 * p == TWO_255;
    var q := b / 128;
    assert x + b * p == (x + (b % 128) * p) + q * TWO_255;
    assert 0 <= x + (b % 128) * p < TWO_255;
    SmallMod(x + (b % 128) * p, TWO_255);
  }

  /**
   * Below 2^255 the two decodings agree: `fromBits` of a 32-byte string is
   * `fromBytesModOrderWide` of the same string zero-extended to 64 bytes.
   */
  lemma WideAgreesWithBits(bs: Bytes32)
    requires LeValue(bs) < TWO_255
    ensures FromBytesModOrderWide(bs + Zeros(32)) == FromBits(bs)
  {
    LeValueZeroExtend(bs, 32);
    SmallMod(LeValue(bs), TWO_255);
  }

  lemma SmallMod(x: int, m: int)
    requires 0 <= x < m
    ensures x % m == x
  {
  }

  /** Two scalars with the same encoding are equal. */
  lemma EncodeInjective(s: Scalar, s': Scalar)
    requires Encode(s) == Encode(s')
    ensures s == s'
  {
    assert LeValue(Encode(s)) == LeValue(Encode(s'));
  }

  // ---------------------------------------------------------------------
  // scalarFromBigInteger

  /**
   * The 32 bytes `scalarFromBigInteger` hands to `fromBits`: the last (least
   * significant) min(n, 32) bytes of the n-byte big-endian two's complement
   * encoding of v, least significant first, followed by zeros.
   */
  function LowBytes(v: int): (bs: Bytes32)
  {
    var n := TwosLength(v);
    var m := Min(n, 32);
    LeBytes(v % Pow256(n), n)[..m] + Zeros(32 - m)
  }

  /**
   * `scalarFromBigInteger(value)`: copies the low-order bytes of
   * `value.toByteArray()` into a 32-byte buffer in reverse (little-endian)
   * order and reads the buffer with `fromBits`.  Every value in [0, 2^255),
   * in particular every node index, comes out as itself modulo L.
   */
  method ScalarFromBigInteger(v: int) returns (s: Scalar)
    ensures s == FromBits(LowBytes(v))
    ensures 0 <= v < TWO_255 ==> s == v % L
  {
    var data := ToByteArray(v);
    var dest := new Byte[32](_ => 0);
    var start := if |data| > 32 then |data| - 32 else 0;
    var j := start;
    while j < |data|
      invariant start <= j <= |data|
      invariant forall i :: 0 <= i < j - start ==> dest[i] == data[|data| - 1 - i]
      invariant forall i :: j - start <= i < 32 ==> dest[i] == 0
    {
      dest[j - start] := data[|data| - 1 + start - j];
      j := j + 1;
    }
    CopiedBytes(v, data, dest[..]);
    s := FromBits(dest[..]);
    if 0 <= v < TWO_255 {
      LowBytesSmall(v);
    }
  }

  /** The buffer the copy loop fills is `LowBytes(v)`. */
  lemma CopiedBytes(v: int, data: seq<Byte>, dest: seq<Byte>)
    requires data == ToByteArray(v) && |dest| == 32
    requires forall i :: 0 <= i < Min(|data|, 32) ==> dest[i] == data[|data| - 1 - i]
    requires forall i :: Min(|data|, 32) <= i < 32 ==> dest[i] == 0
    ensures dest == LowBytes(v)
  {
    var n := TwosLength(v);
    var m := Min(n, 32);
    var le := LeBytes(v % Pow256(n), n);
    assert data == Reverse(le);
    forall i | 0 <= i < 32
      ensures dest[i] == LowBytes(v)[i]
    {
      if i < m {
        assert data[n - 1 - i] == le[i];
      }
    }
  }

  /** A value in [0, 2^255) goes through `scalarFromBigInteger` unchanged, up to reduction mod L. */
  lemma LowBytesSmall(v: int)
    requires 0 <= v < TWO_255
    ensures FromBits(LowBytes(v)) == v % L
  {
    var n := TwosLength(v);
    var m := Min(n, 32);
    TwosLengthBound(v);
    SmallMod(v, Pow256(n));
    LeBytesPrefix(v, n, m);
    LeValueZeroExtend(LeBytes(v, m), 32 - m);
    LeValueOfLeBytesMod(v, m);
    if m == 32 {
      Pow256Of32();
    }
    SmallMod(v, Pow256(m));
    SmallMod(v, TWO_255);
  }
}
