/**
 * Byte strings and the integer encodings the protocol uses: little-endian
 * scalars, big-endian two's complement (`BigInteger.toByteArray`), and the
 * subset types for 32- and 64-byte strings.
 */
module Bytes {

  /** A byte as an unsigned value; the bit operations convert to `bv8` where they happen. */
  type Byte = b: int | 0 <= b < 256

  type Bytes32 = s: seq<Byte> | |s| == 32 witness Zeros(32)

  type Bytes64 = s: seq<Byte> | |s| == 64 witness Zeros(64)

  /** Java's `int`. */
  type Int32 = x: int | -0x8000_0000 <= x < 0x8000_0000

  const TWO_255: int := 0x8000000000000000000000000000000000000000000000000000000000000000
  const TWO_256: int := 0x1_0000000000000000000000000000000000000000000000000000000000000000

  function Zeros(n: nat): (z: seq<Byte>)
    ensures |z| == n && forall i :: 0 <= i < n ==> z[i] == 0
  {
    seq(n, _ => 0)
  }

  function Min(a: int, b: int): int { if a <= b then a else b }

  /** 256^n */
  function Pow256(n: nat): (p: nat)
    ensures p >= 1
  {
    if n == 0 then 1 else 256 * Pow256(n - 1)
  }

  /** The value of a little-endian byte string. */
  function LeValue(bs: seq<Byte>): nat {
    if bs == [] then 0 else bs[0] + 256 * LeValue(bs[1..])
  }

  /** The n low-order bytes of w, least significant first. */
  function LeBytes(w: nat, n: nat): (bs: seq<Byte>)
    ensures |bs| == n
  {
    if n == 0 then [] else [w % 256] + LeBytes(w / 256, n - 1)
  }

  function Reverse(s: seq<Byte>): (r: seq<Byte>)
    ensures |r| == |s|
    ensures forall i :: 0 <= i < |s| ==> r[i] == s[|s| - 1 - i]
  {
    if s == [] then [] else [s[|s| - 1]] + Reverse(s[..|s| - 1])
  }

  /**
   * Length of `BigInteger.toByteArray(v)`: the fewest bytes that hold v in
   * two's complement, sign bit included.
   */
  function TwosLength(v: int): (n: nat)
    ensures n >= 1
    decreases if v < 0 then -v else v
  {
    if -128 <= v < 128 then 1 else 1 + TwosLength(v / 256)
  }

  /** `BigInteger.toByteArray(v)`: minimal big-endian two's complement. */
  function ToByteArray(v: int): (data: seq<Byte>)
    ensures |data| == TwosLength(v)
  {
    var n := TwosLength(v);
    Reverse(LeBytes(v % Pow256(n), n))
  }

  // ---------------------------------------------------------------------
  // Lemmas.

  lemma {:induction false} LeValueBound(bs: seq<Byte>)
    ensures LeValue(bs) < Pow256(|bs|)
  {
    if bs != [] {
      LeValueBound(bs[1..]);
    }
  }

  /** Decoding an encoding of a value that fits gives the value back. */
  lemma {:induction false} LeValueOfLeBytes(w: nat, n: nat)
    requires w < Pow256(n)
    ensures LeValue(LeBytes(w, n)) == w
  {
    if n > 0 {
      assert w / 256 < Pow256(n - 1);
      LeValueOfLeBytes(w / 256, n - 1);
      assert LeBytes(w, n)[1..] == LeBytes(w / 256, n - 1);
    }
  }

  /** Encoding the value of a byte string gives the byte string back. */
  lemma {:induction false} LeBytesOfLeValue(bs: seq<Byte>)
    ensures LeBytes(LeValue(bs), |bs|) == bs
  {
    if bs != [] {
      LeBytesOfLeValue(bs[1..]);
      var w := LeValue(bs);
      assert w % 256 == bs[0];
      assert w / 256 == LeValue(bs[1..]);
    }
  }

  /** Dividing by 256 and taking the remainder modulo 256^n commute as expected. */
  lemma DivModUnique(w: int, d: int, q: int, r: int)
    requires d > 0 && 0 <= r < d && w == d * q + r
    ensures w % d == r && w / d == q
  {
    var q' := w / d;
    var r' := w % d;
    assert d * (q - q') == r' - r;
    SmallMultiple(d, q - q');
  }

  lemma SmallMultiple(d: int, k: int)
    requires d > 0 && -d < d * k < d
    ensures k == 0
  {
    if k > 0 {
      MulAtLeast(d, k);
    }
  }

  lemma {:induction false} MulAtLeast(d: nat, k: nat)
    requires k >= 1
    ensures d * k >= d
  {
    if k > 1 {
      MulAtLeast(d, k - 1);
      assert d * k == d * (k - 1) + d;
    }
  }

  lemma {:induction false} LeValueOfLeBytesMod(w: nat, n: nat)
    ensures LeValue(LeBytes(w, n)) == w % Pow256(n)
  {
    if n > 0 {
      LeValueOfLeBytesMod(w / 256, n - 1);
      LeBytesModStep(w, n);
    }
  }

  lemma LeBytesModStep(w: nat, n: nat)
    requires n > 0
    requires LeValue(LeBytes(w / 256, n - 1)) == (w / 256) % Pow256(n - 1)
    ensures LeValue(LeBytes(w, n)) == w % Pow256(n)
  {
    var w1 := w / 256;
    var r0 := w % 256;
    assert LeBytes(w, n)[1..] == LeBytes(w1, n - 1);
    var p := Pow256(n - 1);
    var a := w1 / p;
    var b := w1 % p;
    assert LeValue(LeBytes(w, n)) == r0 + 256 * b;
    SplitDigit(w, w1, r0, p, a, b);
    DivModUnique(w, 256 * p, a, 256 * b + r0);
  }

  lemma SplitDigit(w: int, w1: int, r0: int, p: int, a: int, b: int)
    requires p > 0 && 0 <= r0 < 256 && 0 <= b < p
    requires w == 256 * w1 + r0 && w1 == p * a + b
    ensures w == (256 * p) * a + (256 * b + r0)
    ensures 0 <= 256 * b + r0 < 256 * p
  {
  }

  /** A prefix of a little-endian encoding is the shorter encoding. */
  lemma {:induction false} LeBytesPrefix(w: nat, n: nat, k: nat)
    requires k <= n
    ensures LeBytes(w, n)[..k] == LeBytes(w, k)
  {
    if k > 0 {
      LeBytesPrefix(w / 256, n - 1, k - 1);
    }
  }

  /** Zero-extending a little-endian encoding does not change its value. */
  lemma {:induction false} LeValueZeroExtend(bs: seq<Byte>, k: nat)
    ensures LeValue(bs + Zeros(k)) == LeValue(bs)
  {
    if bs == [] {
      assert bs + Zeros(k) == Zeros(k);
      ZerosValue(k);
    } else {
      assert (bs + Zeros(k))[1..] == bs[1..] + Zeros(k);
      LeValueZeroExtend(bs[1..], k);
    }
  }

  lemma {:induction false} ZerosValue(k: nat)
    ensures LeValue(Zeros(k)) == 0
  {
    if k > 0 {
      assert Zeros(k)[1..] == Zeros(k - 1);
      ZerosValue(k - 1);
    }
  }

  /** A non-negative value fits in its two's complement length, with its sign bit clear. */
  lemma {:induction false} TwosLengthBound(v: int)
    requires v >= 0
    ensures 2 * v < Pow256(TwosLength(v))
  {
    if !(v < 128) {
      TwosLengthBound(v / 256);
    }
  }

  lemma Pow256Of32()
    ensures Pow256(32) == TWO_256
  {
    assert Pow256(0) == 1;
    assert Pow256(1) == 256;
    assert Pow256(2) == 65536;
    assert Pow256(3) == 16777216;
    assert Pow256(4) == 4294967296;
    assert Pow256(5) == 1099511627776;
    assert Pow256(6) == 281474976710656;
    assert Pow256(7) == 72057594037927936;
    assert Pow256(8) == 18446744073709551616;
    assert Pow256(9) == 4722366482869645213696;
    assert Pow256(10) == 1208925819614629174706176;
    assert Pow256(11) == 309485009821345068724781056;
    assert Pow256(12) == 79228162514264337593543950336;
    assert Pow256(13) == 20282409603651670423947251286016;
    assert Pow256(14) == 5192296858534827628530496329220096;
    assert Pow256(15) == 1329227995784915872903807060280344576;
    assert Pow256(16) == 340282366920938463463374607431768211456;
    assert Pow256(17) == 87112285931760246646623899502532662132736;
    assert Pow256(18) == 22300745198530623141535718272648361505980416;
    assert Pow256(19) == 5708990770823839524233143877797980545530986496;
    assert Pow256(20) == 1461501637330902918203684832716283019655932542976;
    assert Pow256(21) == 374144419156711147060143317175368453031918731001856;
    assert Pow256(22) == 95780971304118053647396689196894323976171195136475136;
    assert Pow256(23) == 24519928653854221733733552434404946937899825954937634816;
    assert Pow256(24) == 6277101735386680763835789423207666416102355444464034512896;
    assert Pow256(25) == 1606938044258990275541962092341162602522202993782792835301376;
    assert Pow256(26) == 411376139330301510538742295639337626245683966408394965837152256;
    assert Pow256(27) == 105312291668557186697918027683670432318895095400549111254310977536;
    assert Pow256(28) == 26959946667150639794667015087019630673637144422540572481103610249216;
    assert Pow256(29) == 6901746346790563787434755862277025452451108972170386555162524223799296;
    assert Pow256(30) == 1766847064778384329583297500742918515827483896875618958121606201292619776;
    assert Pow256(31) == 452312848583266388373324160190187140051835877600158453279131187530910662656;
    assert Pow256(32) == 115792089237316195423570985008687907853269984665640564039457584007913129639936;
  }

  /** The value of a byte string with one more most significant byte. */
  lemma {:induction false} LeValueSnoc(bs: seq<Byte>, b: Byte)
    ensures LeValue(bs + [b]) == LeValue(bs) + b * Pow256(|bs|)
  {
    if bs != [] {
      assert (bs + [b])[1..] == bs[1..] + [b];
      LeValueSnoc(bs[1..], b);
      SnocStep(bs[0], LeValue(bs[1..]), b, Pow256(|bs| - 1));
    } else {
      assert LeValue([b]) == b + 256 * LeValue([]);
    }
  }

  lemma SnocStep(b0: int, v: int, b: int, p: int)
    ensures b0 + 256 * (v + b * p) == (b0 + 256 * v) + b * (256 * p)
  {
  }

  lemma Pow256Of31()
    ensures Pow256(31) == 256 * Pow256(30)
    ensures 256 * Pow256(31) == TWO_256
  {
    Pow256Of32();
  }
}
