/** Options and results, as the source's `Option` and `Result`. */
module Wrappers {
  datatype Option<+T> = None | Some(value: T) {
    predicate IsFailure() {
      None?
    }

    function PropagateFailure<U>(): Option<U>
      requires None?
    {
      None
    }

    function Extract(): T
      requires Some?
    {
      value
    }
  }

  datatype Result<+T, +E> = Ok(value: T) | Err(error: E) {
    function ToOption(): Option<T> {
      match this
      case Ok(value) => Some(value)
      case Err(_) => None
    }
  }

  type byte = b: int | 0 <= b < 256

  const U64_MAX: nat := 0xffff_ffff_ffff_ffff

  type u64 = n: int | 0 <= n <= U64_MAX

  /** Keccak-256. */
  type Keccak = seq<byte> -> seq<byte>

  ghost predicate IsHash(keccak: Keccak) {
    forall data :: |keccak(data)| == 32
  }
}

/**
The group every proof of this project lives in.

The points of Ed25519 form a cyclic group of order 8 * L, with L prime. A `Point` is an integer
standing for its residue modulo 8 * L, the multiple of one generator of that group, chosen so that
the base point is 8. The points of the prime-order subgroup are the multiples of eight; where only
those occur, a `SubPoint` d stands for the point 8 * d, so that d counts modulo L. A `Scalar` is an
integer standing for its residue modulo L.
 */
module Ed25519 {
  import opened Wrappers
  import Arithmetic
  import PowersOfTwo
  import Vectors

  type Scalar = int
  type Point = int
  type SubPoint = int

  // All that the proofs use of the order is its residue modulo eight. It is 2^252 +
  // 27742317777372353535851937790883648493, the witness.
  type Modulus = m: int | m > 0 && m % 8 == 5
    witness 7237005577332262213973186563042994240857116359379907606001950938285454250989

  const L: Modulus

  // The inverse of eight: ed25519/src/scalar.rs gives its bytes
  const INV_EIGHT: Scalar := InverseOfEight(L)

  function InverseOfEight(m: Modulus): (r: int)
    ensures 8 * r == 3 * m + 1
  {
    (3 * m + 1) / 8
  }

  // The inverse for Ed25519's order is the constant in the source.
  lemma InverseOfEightIs()
    ensures InverseOfEight(7237005577332262213973186563042994240857116359379907606001950938285454250989) ==
            2713877091499598330239944961141122840321418634767465352250731601857045344121
  {
  }

  const BASEPOINT: Point := 8

  function Red(a: int): (r: int)
    ensures 0 <= r < L
  {
    a % L
  }

  // Equality of scalars, and of points of the prime-order subgroup.
  ghost predicate Eq(a: int, b: int) {
    Red(a) == Red(b)
  }

  // Equality of points of the whole group.
  ghost predicate EqPoint(p: Point, q: Point) {
    p % (8 * L) == q % (8 * L)
  }

  /**
  What is taken from outside the repository: the hash functions, the encoding of points, scalar
  inversion, the second generator, and the constant a Bulletproof+ transcript starts with. `Valid` lists
  all that is assumed of them.
   */
  datatype Curve = Curve(
    compress: Point -> seq<byte>,
    decompress: seq<byte> -> Option<Point>,
    scalarBytes: Scalar -> seq<byte>,
    hash: seq<byte> -> Scalar,
    hashToPoint: seq<byte> -> SubPoint,
    invert: Scalar -> Scalar,
    h: SubPoint,
    plusTranscript: seq<byte>)
  {
    ghost predicate Valid() {
      && (forall p :: 0 <= p < 8 * L ==> |compress(p)| == 32 && decompress(compress(p)) == Some(p))
      // Only canonical encodings decode
      && (forall data {:trigger decompress(data)} ::
            decompress(data).Some? ==> 0 <= decompress(data).value < 8 * L && compress(decompress(data).value) == data)
      && (forall s :: 0 <= s < L ==> |scalarBytes(s)| == 32 && PowersOfTwo.LittleEndian(scalarBytes(s)) == s)
      && (forall data :: hash(data) % L != 0)
      && (forall s {:trigger invert(s)} :: s % L != 0 ==> (s * invert(s)) % L == 1)
    }

    function Encode(p: Point): (data: seq<byte>)
      requires Valid()
      ensures |data| == 32
      ensures decompress(data) == Some(p % (8 * L))
    {
      compress(p % (8 * L))
    }

    function EncodeScalar(s: Scalar): (data: seq<byte>)
      requires Valid()
      ensures |data| == 32 && PowersOfTwo.LittleEndian(data) == Red(s)
    {
      scalarBytes(Red(s))
    }

    // A point of the prime-order subgroup, scaled by the inverse of eight and encoded.
    function Transmit(d: SubPoint): (data: seq<byte>)
      requires Valid()
    {
      Encode(8 * (d * INV_EIGHT))
    }

    // Decompression followed by a multiplication by the cofactor: the point 8 * p is the `SubPoint` p.
    // What is received is thirty-two bytes.
    function Receive(data: seq<byte>): (d: Option<SubPoint>)
      ensures d.Some? ==> |data| == 32
    {
      if |data| == 32 then decompress(data) else None
    }
  }

  // All that is assumed can be had, if the order is prime, and if a point fits in thirty-two bytes.
  lemma ValidCurve() returns (c: Curve)
    requires Arithmetic.IsPrime(L) && 8 * L <= Vectors.Pow2(256)
    ensures c.Valid()
  {
    hide Vectors.Pow2;
    c := Curve((p: Point) => PowersOfTwo.LittleBytes(if p < 0 then 0 else p, 32),
               (data: seq<byte>) =>
                 if |data| == 32 && PowersOfTwo.LittleEndian(data) < 8 * L then Some(PowersOfTwo.LittleEndian(data)) else None,
               (s: Scalar) => PowersOfTwo.LittleBytes(if s < 0 then 0 else s, 32),
               (data: seq<byte>) => 1,
               (data: seq<byte>) => 1,
               (s: Scalar) => Arithmetic.Inverse(s, L),
               1, []);
    forall p | 0 <= p < 8 * L
      ensures |c.compress(p)| == 32 && c.decompress(c.compress(p)) == Some(p)
    {
      PowersOfTwo.LittleBytesStandFor(p, 32);
    }
    forall data | c.decompress(data).Some?
      ensures 0 <= c.decompress(data).value < 8 * L && c.compress(c.decompress(data).value) == data
    {
      PowersOfTwo.BytesOfTheirNumber(data);
    }
    forall s | 0 <= s < L
      ensures |c.scalarBytes(s)| == 32 && PowersOfTwo.LittleEndian(c.scalarBytes(s)) == s
    {
      PowersOfTwo.LittleBytesStandFor(s, 32);
    }
    forall s | s % L != 0
      ensures (s * c.invert(s)) % L == 1
    {
      Arithmetic.PrimeInverse(s, L);
    }
    Residue(1);
  }

  // Points of Ed25519 do.
  lemma PointsFit()
    ensures 8 * 7237005577332262213973186563042994240857116359379907606001950938285454250989 <= Vectors.Pow2(256)
  {
    hide Vectors.Pow2;
    PowersOfTwo.SmallPowers();
    PowersOfTwo.Pow2Add(8, 8);
    PowersOfTwo.Pow2Add(16, 16);
    PowersOfTwo.Pow2Add(32, 32);
    PowersOfTwo.Pow2Add(64, 64);
    PowersOfTwo.Pow2Add(128, 128);
  }

  /** The opening of a Pedersen commitment: ed25519/src/commitment.rs. */
  datatype Commitment = Commitment(mask: Scalar, amount: nat) {
    function Commit(c: Curve): SubPoint {
      mask + amount * c.h
    }
  }

  // What decodes is the encoding of what it decodes to, and no other.
  lemma DecodedIs(c: Curve, data: seq<byte>)
    requires c.Valid() && c.decompress(data).Some?
    ensures |data| == 32 && data == c.Encode(c.decompress(data).value)
  {
    var p := c.decompress(data).value;
    Arithmetic.ModIs(p, 8 * L, 0, p);
  }

  lemma EncodesPoint(c: Curve, p: Point, q: Point)
    requires c.Valid()
    ensures c.Encode(p) == c.Encode(q) <==> EqPoint(p, q)
  {
  }

  lemma EncodesScalar(c: Curve, s: Scalar, t: Scalar)
    requires c.Valid()
    ensures c.EncodeScalar(s) == c.EncodeScalar(t) <==> Eq(s, t)
  {
  }

  // Two integers are equal modulo L exactly when a multiple of L separates them.
  lemma EqFromMultiple(a: int, b: int, k: int)
    requires a == b + k * L
    ensures Eq(a, b)
  {
    Arithmetic.AddMultiple(b, L, k);
  }

  lemma EqToMultiple(a: int, b: int) returns (k: int)
    requires Eq(a, b)
    ensures a == b + k * L
  {
    k := a / L - b / L;
  }

  lemma EqAdd(a: int, b: int, c: int, d: int)
    requires Eq(a, b) && Eq(c, d)
    ensures Eq(a + c, b + d) && Eq(a - c, b - d)
  {
    var k := EqToMultiple(a, b);
    var m := EqToMultiple(c, d);
    EqFromMultiple(a + c, b + d, k + m);
    EqFromMultiple(a - c, b - d, k - m);
  }

  lemma EqMul(a: int, b: int, c: int, d: int)
    requires Eq(a, b) && Eq(c, d)
    ensures Eq(a * c, b * d)
  {
    var k := EqToMultiple(a, b);
    var m := EqToMultiple(c, d);
    var n := k * d + b * m + k * m * L;
    assert a * c == (b + k * L) * (d + m * L);
    assert (b + k * L) * (d + m * L) == b * d + n * L;
    EqFromMultiple(a * c, b * d, n);
  }

  lemma EqScale(x: int, a: int, b: int)
    requires Eq(a, b)
    ensures Eq(x * a, x * b)
  {
    EqMul(x, x, a, b);
  }

  lemma InverseWorks(c: Curve, x: Scalar)
    requires c.Valid()
    requires !Eq(x, 0)
    ensures Eq(x * c.invert(x), 1)
  {
    Residue(0);
    Residue(1);
  }

  lemma CofactorCleared(d: int)
    ensures Eq(8 * (d * INV_EIGHT), d)
  {
    EqFromMultiple(8 * INV_EIGHT, 1, 3);
    EqScale(d, 8 * INV_EIGHT, 1);
    assert d * (8 * INV_EIGHT) == 8 * (d * INV_EIGHT);
  }

  lemma ModOfMod(p: int)
    ensures (p % (8 * L)) % L == p % L
  {
    var q := p / (8 * L);
    assert p == 8 * L * q + p % (8 * L);
    EqFromMultiple(p, p % (8 * L), 8 * q);
  }

  // Scaling by the inverse of eight before encoding and by eight after decoding is the identity
  // on the prime-order subgroup.
  lemma TransmitReceive(c: Curve, d: SubPoint)
    requires c.Valid()
    ensures c.Receive(c.Transmit(d)).Some?
    ensures Eq(c.Receive(c.Transmit(d)).value, d)
  {
    var p := 8 * (d * INV_EIGHT);
    ModOfMod(p);
    CofactorCleared(d);
  }

  lemma EqTransitive(a: int, b: int, d: int)
    requires Eq(a, b) && Eq(b, d)
    ensures Eq(a, d)
  {
  }

  lemma EqSymmetric(a: int, b: int)
    requires Eq(a, b)
    ensures Eq(b, a)
  {
  }

  // The same for points of the whole group.
  lemma EqPointFromMultiple(p: Point, q: Point, k: int)
    requires p == q + k * (8 * L)
    ensures EqPoint(p, q)
  {
    Arithmetic.AddMultiple(q, 8 * L, k);
  }

  lemma ReducedPoint(p: Point)
    ensures EqPoint(p % (8 * L), p)
  {
    Arithmetic.ModIs(p % (8 * L), 8 * L, 0, p % (8 * L));
  }

  lemma EqPointToMultiple(p: Point, q: Point) returns (k: int)
    requires EqPoint(p, q)
    ensures p == q + k * (8 * L)
  {
    k := p / (8 * L) - q / (8 * L);
  }

  lemma EqPointAdd(p: Point, q: Point, r: Point, s: Point)
    requires EqPoint(p, q) && EqPoint(r, s)
    ensures EqPoint(p + r, q + s) && EqPoint(p - r, q - s)
  {
    var k := EqPointToMultiple(p, q);
    var m := EqPointToMultiple(r, s);
    EqPointFromMultiple(p + r, q + s, k + m);
    EqPointFromMultiple(p - r, q - s, k - m);
  }

  lemma EqPointScale(x: int, p: Point, q: Point)
    requires EqPoint(p, q)
    ensures EqPoint(x * p, x * q)
  {
    var k := EqPointToMultiple(p, q);
    assert x * p == x * q + (x * k) * (8 * L);
    EqPointFromMultiple(x * p, x * q, x * k);
  }

  // Points of the prime-order subgroup are equal when their multiples of eight agree modulo L.
  lemma EqPointOfEight(a: SubPoint, b: SubPoint)
    ensures EqPoint(8 * a, 8 * b) <==> Eq(a, b)
  {
    if Eq(a, b) {
      var k := EqToMultiple(a, b);
      EqPointFromMultiple(8 * a, 8 * b, k);
    }
    if EqPoint(8 * a, 8 * b) {
      var k := EqPointToMultiple(8 * a, 8 * b);
      EqFromMultiple(a, b, k);
    }
  }

  lemma EqPointTransitive(p: Point, q: Point, r: Point)
    requires EqPoint(p, q) && EqPoint(q, r)
    ensures EqPoint(p, r) && EqPoint(r, p)
  {
  }

  lemma RedEq(a: int)
    ensures Eq(Red(a), a)
  {
    Residue(Red(a));
  }

  lemma Residue(r: int)
    requires 0 <= r < L
    ensures Red(r) == r
  {
    Arithmetic.ModIs(r, L, 0, r);
  }
}
