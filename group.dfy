/**
 * The Ed25519 group and the primitives the protocol treats as black boxes.
 *
 * A point of the prime-order subgroup is represented by its discrete
 * logarithm to the base B, so point addition is scalar addition and
 * multiplication by a scalar is scalar multiplication.  SHA-512 and point
 * compression/decompression are not modelled: they are function-valued
 * fields of `Primitives`, constrained only by the round trip of the point
 * encoding.
 */
module Group {
  import opened ScalarField
  import opened Bytes
  import opened Wrappers

  /** The point dlog * B. */
  datatype Point = Point(dlog: Scalar)

  const IDENTITY: Point := Point(0)

  /** `Constants.ED25519_BASEPOINT` */
  const BASEPOINT: Point := Point(1)

  function PointAdd(p: Point, q: Point): Point { Point(Add(p.dlog, q.dlog)) }

  function Negate(p: Point): Point { Point(Neg(p.dlog)) }

  function ScalarMul(s: Scalar, p: Point): Point { Point(Mul(s, p.dlog)) }

  /** `mulBasepoint(s)`: s * B. */
  function MulBasepoint(s: Scalar): (p: Point)
    ensures p == ScalarMul(s, BASEPOINT)
  {
    Point(s)
  }

  /** `EdwardsPoint.vartimeDoubleScalarMultiplyBasepoint(a, A, b)`: a * A + b * B. */
  function DoubleScalarMulBasepoint(a: Scalar, p: Point, b: Scalar): Point {
    PointAdd(ScalarMul(a, p), MulBasepoint(b))
  }

  /** Sum of a list of points, accumulated left to right from the identity. */
  function SumPoints(ps: seq<Point>): Point {
    if ps == [] then IDENTITY else PointAdd(SumPoints(ps[..|ps| - 1]), ps[|ps| - 1])
  }

  /** The discrete log of a sum of points is the sum of their discrete logs. */
  lemma {:induction false} SumPointsDlog(ps: seq<Point>)
    ensures SumPoints(ps).dlog == Sum(seq(|ps|, i requires 0 <= i < |ps| => ps[i].dlog))
  {
    if ps != [] {
      var prefix := ps[..|ps| - 1];
      SumPointsDlog(prefix);
      assert seq(|ps|, i requires 0 <= i < |ps| => ps[i].dlog)[..|ps| - 1]
          == seq(|prefix|, i requires 0 <= i < |prefix| => prefix[i].dlog);
    }
  }

  /** SHA-512 and the point encoding, supplied from outside the model. */
  datatype Primitives = Primitives(
    sha512: seq<Byte> -> Bytes64,
    compress: Point -> Bytes32,
    decompress: Bytes32 -> Option<Point>)
  {
    /** Decompressing a compressed point gives the point back. */
    ghost predicate Valid() {
      forall p: Point :: decompress(compress(p)) == Some(p)
    }
  }
}
