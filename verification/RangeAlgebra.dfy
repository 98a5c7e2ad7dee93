/**
The arithmetic behind the range proofs: bit decompositions, the vector carrying the powers of z and
of two, and the constant term of the inner product.
 */
module RangeAlgebra {
  import opened Wrappers
  import opened Ed25519
  import opened Arithmetic
  import opened Vectors
  import opened Accumulator

  const COMMITMENT_BITS: nat := 64
  const MAX_COMMITMENTS: nat := 16

  function Bit(a: nat, i: nat): (b: nat)
    ensures b == 0 || b == 1
  {
    (a / Pow2(i)) % 2
  }

  /** The bits of an amount, least significant first. */
  function Bits(a: nat, k: nat): (r: Vector)
    ensures |r| == k
  {
    seq(k, i requires 0 <= i < k => Bit(a, i))
  }

  /** The bits of `m` amounts; those past the end of the list are zero. */
  function AllBits(amounts: seq<nat>, m: nat): (r: Vector)
    ensures |r| == m * COMMITMENT_BITS
  {
    seq(m * COMMITMENT_BITS, k requires 0 <= k < m * COMMITMENT_BITS => BitAt(amounts, k))
  }

  lemma AllBitsAreBits(amounts: seq<nat>, m: nat)
    ensures forall i :: 0 <= i < m * COMMITMENT_BITS ==> AllBits(amounts, m)[i] == 0 || AllBits(amounts, m)[i] == 1
  {
  }

  function BitAt(amounts: seq<nat>, k: nat): (b: nat)
    ensures b == 0 || b == 1
  {
    if k / COMMITMENT_BITS < |amounts| then Bit(amounts[k / COMMITMENT_BITS], k % COMMITMENT_BITS) else 0
  }

  /** z^(from + j) * 2^i at position 64 * j + i. */
  function ZTwos(z: Scalar, from: nat, m: nat): (r: Vector)
    ensures |r| == m * COMMITMENT_BITS
  {
    seq(m * COMMITMENT_BITS, k requires 0 <= k < m * COMMITMENT_BITS => ZTwosAt(z, from, k))
  }

  function ZTwosAt(z: Scalar, from: nat, k: nat): int {
    Pow(z, from + k / COMMITMENT_BITS) * Pow(2, k % COMMITMENT_BITS)
  }

  function Twos(): (r: Vector)
    ensures |r| == COMMITMENT_BITS
  {
    PowVec(2, COMMITMENT_BITS)
  }

  lemma ZTwosRow(s: Scalar, z: Vector, twos: Vector, m: nat, j: nat, i: nat)
    requires z == PowVec(s, 3 + m) && twos == Twos() && j < m && i < COMMITMENT_BITS
    ensures ZTwos(s, 2, m)[j * COMMITMENT_BITS + i] == z[2 + j] * twos[i]
  {
    hide Pow;
    var at := j * COMMITMENT_BITS + i;
    ModIs(at, COMMITMENT_BITS, j, i);
  }

  /** The sum of z^(from + j) * values[j] for j below k; values past the end are zero. */
  function ZSum(z: Scalar, from: nat, values: seq<int>, k: nat): int {
    if k == 0 then 0
    else ZSum(z, from, values, k - 1) + (if k - 1 < |values| then Pow(z, from + k - 1) * values[k - 1] else 0)
  }

  lemma HalveAgain(a: nat, i: nat)
    ensures (a / Pow2(i)) / 2 == a / Pow2(i + 1)
  {
    assert Pow2(i + 1) == 2 * Pow2(i);
    HalveQuotient(a, Pow2(i));
  }

  lemma EmptySum(a: Vector)
    requires a == []
    ensures Sum(a) == 0
  {
  }

  lemma EmptyDot(a: Vector, b: Vector)
    requires a == [] && b == []
    ensures Dot(a, b) == 0
  {
  }

  // The bits of an amount recompose to it.
  lemma {:induction false} BitsRecompose(a: nat, k: nat)
    ensures Dot(Bits(a, k), PowVec(2, k)) == a - Pow2(k) * (a / Pow2(k))
  {
    hide Dot, Sum, Pow, Pow2;
    if k == 0 {
      EmptyDot(Bits(a, 0), PowVec(2, 0));
      Pow2Half(0);
      DivIs(a, 1, a, 0);
    } else {
      Pow2Half(k);
      BitsRecompose(a, k - 1);
      var b, w := Bit(a, k - 1), Pow(2, k - 1);
      assert Bits(a, k) == Bits(a, k - 1) + [b];
      assert PowVec(2, k) == PowVec(2, k - 1) + [w];
      DotSnoc(Bits(a, k - 1), PowVec(2, k - 1), b, w);
      PowOfTwo(k - 1);
      HalveAgain(a, k - 1);
      TopBit(Pow2(k - 1), a / Pow2(k - 1));
    }
  }

  lemma TopBit(p: int, q: nat)
    ensures - p * q + (q % 2) * p == - (2 * p) * (q / 2)
  {
    var h := q / 2;
    assert q == 2 * h + q % 2;
    assert p * q == p * (2 * h) + p * (q % 2);
  }

  lemma {:induction false} PowOfTwo(k: nat)
    ensures Pow(2, k) == Pow2(k)
  {
    if k > 0 {
      PowOfTwo(k - 1);
    }
  }

  lemma AmountRecomposes(a: nat)
    requires a < Pow2(COMMITMENT_BITS)
    ensures Dot(Bits(a, COMMITMENT_BITS), Twos()) == a
  {
    BitsRecompose(a, COMMITMENT_BITS);
    DivIs(a, Pow2(COMMITMENT_BITS), 0, a);
  }

  // The last block of sixty-four positions.
  lemma LastBlock(amounts: seq<nat>, z: Scalar, from: nat, m: nat)
    requires m > 0
    ensures var a := if m - 1 < |amounts| then amounts[m - 1] else 0;
            && AllBits(amounts, m) == AllBits(amounts, m - 1) + Bits(a, COMMITMENT_BITS)
            && ZTwos(z, from, m) == ZTwos(z, from, m - 1) + Scale(Twos(), Pow(z, from + (m - 1)))
  {
    var a := if m - 1 < |amounts| then amounts[m - 1] else 0;
    var n := (m - 1) * COMMITMENT_BITS;
    forall k | 0 <= k < m * COMMITMENT_BITS
      ensures AllBits(amounts, m)[k] == (AllBits(amounts, m - 1) + Bits(a, COMMITMENT_BITS))[k]
      ensures ZTwos(z, from, m)[k] == (ZTwos(z, from, m - 1) + Scale(Twos(), Pow(z, from + (m - 1))))[k]
    {
      if k >= n {
        assert k / COMMITMENT_BITS == m - 1 && k % COMMITMENT_BITS == k - n;
      }
      if m - 1 >= |amounts| && k >= n {
        ZeroBit(k - n);
      }
    }
  }

  lemma ZeroBit(i: nat)
    ensures Bit(0, i) == 0
  {
    DivIs(0, Pow2(i), 0, 0);
  }

  lemma {:induction false} BitsAgainstZTwos(amounts: seq<nat>, z: Scalar, from: nat, m: nat)
    requires forall i :: 0 <= i < |amounts| ==> amounts[i] < Pow2(COMMITMENT_BITS)
    ensures Dot(AllBits(amounts, m), ZTwos(z, from, m)) == ZSum(z, from, amounts, m)
  {
    hide Dot, Bits, AllBits, ZTwos, Twos, Sum, Times, Scale, Pow, Pow2;
    if m == 0 {
      EmptyDot(AllBits(amounts, 0), ZTwos(z, from, 0));
    } else {
      BitsAgainstZTwos(amounts, z, from, m - 1);
      LastBlock(amounts, z, from, m);
      var a := if m - 1 < |amounts| then amounts[m - 1] else 0;
      var zPow := Pow(z, from + (m - 1));
      DotConcat(AllBits(amounts, m - 1), ZTwos(z, from, m - 1), Bits(a, COMMITMENT_BITS), Scale(Twos(), zPow));
      BlockDot(a, zPow);
    }
  }

  lemma BlockDot(a: nat, zPow: int)
    requires a < Pow2(COMMITMENT_BITS)
    ensures Dot(Bits(a, COMMITMENT_BITS), Scale(Twos(), zPow)) == zPow * a
  {
    hide Dot, Bits, Twos, Scale;
    DotComm(Bits(a, COMMITMENT_BITS), Scale(Twos(), zPow));
    DotScale(zPow, Twos(), Bits(a, COMMITMENT_BITS));
    DotComm(Bits(a, COMMITMENT_BITS), Twos());
    AmountRecomposes(a);
  }

  function Repeat(x: int, n: nat): (r: seq<int>)
    ensures |r| == n
    ensures forall i :: 0 <= i < n ==> r[i] == x
  {
    seq(n, i => x)
  }

  lemma {:induction false} SumZTwos(z: Scalar, from: nat, m: nat, n: nat)
    requires m <= n
    ensures Sum(ZTwos(z, from, m)) == ZSum(z, from, Repeat(Sum(Twos()), n), m)
  {
    hide Twos, Repeat, ZTwos, Scale, Pow, Sum;
    if m > 0 {
      SumZTwos(z, from, m - 1, n);
      LastBlock([], z, from, m);
      var zPow := Pow(z, from + (m - 1));
      SumConcat(ZTwos(z, from, m - 1), Scale(Twos(), zPow));
      assert Scale(Twos(), zPow) == Lin(zPow, Twos(), 0, Twos());
      SumLin(zPow, Twos(), 0, Twos());
    } else {
      EmptySum(ZTwos(z, from, 0));
    }
  }

  // Raising every power of z by one multiplies the sum by z.
  lemma {:induction false} ZSumShift(z: Scalar, from: nat, values: seq<int>, k: nat)
    ensures z * ZSum(z, from, values, k) == ZSum(z, from + 1, values, k)
  {
    if k > 0 {
      ZSumShift(z, from, values, k - 1);
      if k - 1 < |values| {
        var s, p, v := ZSum(z, from, values, k - 1), Pow(z, from + k - 1), values[k - 1];
        assert Pow(z, from + 1 + k - 1) == p * z;
        ShiftTerm(z, s, p, v);
      }
    }
  }

  lemma ShiftTerm(z: int, s: int, p: int, v: int)
    ensures z * (s + p * v) == z * s + (p * z) * v
  {
  }

  // Values past the end of the list add nothing.
  lemma {:induction false} ZSumPadding(z: Scalar, from: nat, values: seq<int>, k: nat)
    requires |values| <= k
    ensures ZSum(z, from, values, k) == ZSum(z, from, values, |values|)
  {
    if |values| < k {
      ZSumPadding(z, from, values, k - 1);
    }
  }

  ghost predicate EqVec(a: Vector, b: Vector) {
    |a| == |b| && forall i :: 0 <= i < |a| ==> Eq(a[i], b[i])
  }

  // The commitments, weighted by powers of z, are the weighted masks and amounts.
  lemma {:induction false} ZSumOfCommitments(c: Curve, z: Scalar, from: nat, V: seq<SubPoint>, openings: seq<Commitment>, k: nat)
    requires |V| == |openings| && k <= |V|
    requires forall i :: 0 <= i < |V| ==> Eq(V[i], openings[i].Commit(c))
    ensures Eq(ZSum(z, from, V, k), ZSum(z, from, Masks(openings), k) + ZSum(z, from, Amounts(openings), k) * c.h)
  {
    hide *;
    if k == 0 {
      ZSumEmpty(z, from, V);
      ZSumEmpty(z, from, Masks(openings));
      ZSumEmpty(z, from, Amounts(openings));
      EqFromMultiple(0, 0, 0);
    } else {
      ZSumOfCommitments(c, z, from, V, openings, k - 1);
      ZSumStep(z, from, V, k);
      ZSumStep(z, from, Masks(openings), k);
      ZSumStep(z, from, Amounts(openings), k);
      CommitmentStep(c, V[k - 1], openings[k - 1], Pow(z, from + k - 1), ZSum(z, from, V, k - 1),
                     ZSum(z, from, Masks(openings), k - 1), ZSum(z, from, Amounts(openings), k - 1));
    }
  }

  // Nor do zeros.
  lemma {:induction false} ZSumZeros(z: Scalar, from: nat, values: seq<int>, zeros: nat, k: nat)
    ensures ZSum(z, from, values + Constant(0, zeros), k) == ZSum(z, from, values, k)
  {
    if k > 0 {
      ZSumZeros(z, from, values, zeros, k - 1);
    }
  }

  lemma ZSumEmpty(z: Scalar, from: nat, values: seq<int>)
    ensures ZSum(z, from, values, 0) == 0
  {
  }

  lemma ZSumStep(z: Scalar, from: nat, values: seq<int>, k: nat)
    requires 0 < k <= |values|
    ensures ZSum(z, from, values, k) == ZSum(z, from, values, k - 1) + Pow(z, from + k - 1) * values[k - 1]
  {
  }

  lemma CommitmentStep(c: Curve, v: SubPoint, opening: Commitment, p: int, zv: int, zm: int, za: int)
    requires Eq(v, opening.Commit(c)) && Eq(zv, zm + za * c.h)
    ensures Eq(zv + p * v, (zm + p * opening.mask) + (za + p * opening.amount) * c.h)
  {
    hide Eq;
    EqScale(p, v, opening.Commit(c));
    EqAdd(zv, zm + za * c.h, p * v, p * opening.Commit(c));
    CommitmentTerm(zm, za, p, opening.mask, opening.amount, c.h);
  }

  lemma CommitmentTerm(zm: int, za: int, p: int, mask: int, amount: int, h: int)
    ensures zm + za * h + p * (mask + amount * h) == (zm + p * mask) + (za + p * amount) * h
  {
  }

  function Masks(openings: seq<Commitment>): (r: Vector)
    ensures |r| == |openings|
    ensures forall i :: 0 <= i < |r| ==> r[i] == openings[i].mask
  {
    seq(|openings|, i requires 0 <= i < |openings| => openings[i].mask)
  }

  function Amounts(openings: seq<Commitment>): (r: seq<nat>)
    ensures |r| == |openings|
    ensures forall i :: 0 <= i < |r| ==> r[i] == openings[i].amount
  {
    seq(|openings|, i requires 0 <= i < |openings| => openings[i].amount)
  }

  lemma {:induction false} SumEq(a: Vector, b: Vector)
    requires EqVec(a, b)
    ensures Eq(Sum(a), Sum(b))
  {
    if a != [] {
      SumEq(a[1..], b[1..]);
      EqAdd(a[0], b[0], Sum(a[1..]), Sum(b[1..]));
    }
  }

  lemma DotEq(a: Vector, b: Vector, g: Vector)
    requires EqVec(a, b) && |g| == |a|
    ensures Eq(Dot(a, g), Dot(b, g))
  {
    hide Dot, Sum, Times, Eq;
    DotIsSum(a, g);
    DotIsSum(b, g);
    assert EqVec(Times(a, g), Times(b, g)) by { TimesEq(a, b, g); }
    SumEq(Times(a, g), Times(b, g));
  }

  lemma TimesEq(a: Vector, b: Vector, g: Vector)
    requires EqVec(a, b) && |g| == |a|
    ensures EqVec(Times(a, g), Times(b, g))
  {
    hide Eq;
    forall i | 0 <= i < |a|
      ensures Eq(Times(a, g)[i], Times(b, g)[i])
    {
      EqScale(g[i], a[i], b[i]);
    }
  }

  lemma {:induction false} PowInverse(y: Scalar, yInv: Scalar, i: nat)
    requires Eq(y * yInv, 1)
    ensures Eq(Pow(y, i) * Pow(yInv, i), 1)
  {
    hide Eq;
    if i == 0 {
      EqFromMultiple(1, 1, 0);
    } else {
      PowInverse(y, yInv, i - 1);
      EqMul(Pow(y, i - 1) * Pow(yInv, i - 1), 1, y * yInv, 1);
      Regroup(Pow(y, i - 1), Pow(yInv, i - 1), y, yInv);
    }
  }

  lemma Regroup(p: int, q: int, y: int, w: int)
    ensures (p * y) * (q * w) == (p * q) * (y * w)
  {
  }

  // ---------------------------------------------------------------------------------------------
  // What both range proofs share.

  function Padded(n: nat): (m: nat)
    ensures m >= n && m >= 1
  {
    Pow2(PaddedLog(n, 0))
  }

  function PaddedLog(n: nat, k: nat): (r: nat)
    ensures r >= k && Pow2(r) >= n
    ensures r > k ==> Pow2(r - 1) < n
    decreases n - Pow2(k)
  {
    if Pow2(k) >= n then k else PaddedLog(n, k + 1)
  }

  // The padded size is the only power of two which is large enough while its half is not.
  lemma PaddedIs(n: nat, k: nat)
    requires n <= Pow2(k) && (k == 0 || Pow2(k - 1) < n)
    ensures Padded(n) == Pow2(k)
  {
    var r := PaddedLog(n, 0);
    if r < k {
      Pow2Monotone(r, k - 1);
    } else if k < r {
      Pow2Monotone(k, r - 1);
    }
  }

  lemma PaddedOfRows(n: nat)
    requires n > 0
    ensures Padded(n * COMMITMENT_BITS) == Padded(n) * COMMITMENT_BITS
  {
    var k := PaddedLog(n, 0);
    PaddedRows(n);
    assert Pow2(k + 6) == 2 * Pow2(k + 5);
    assert Pow2(5) == 32;
    if k > 0 {
      assert Pow2(k) == 2 * Pow2(k - 1);
    }
    PaddedIs(n * COMMITMENT_BITS, k + 6);
  }

  // Padding is stable: a list part of the way to its padded size has the same padded size.
  lemma PaddedPartway(n: nat, k: nat)
    requires n <= k <= Padded(n)
    ensures Padded(k) == Padded(n)
  {
    PaddedIs(k, PaddedLog(n, 0));
  }

  method PadToPowerOf2(n: nat) returns (padded: nat)
    ensures padded == Padded(n)
  {
    padded := 1;
    ghost var k: nat := 0;
    while padded < n
      invariant padded == Pow2(k) && PaddedLog(n, 0) == PaddedLog(n, k)
      decreases n - padded
    {
      padded := padded * 2;
      k := k + 1;
    }
  }

  method Powers(x: Scalar, len: nat) returns (res: Vector)
    requires len != 0
    ensures res == PowVec(x, len)
  {
    res := [1, x];
    assert Pow(x, 0) == 1 && Pow(x, 1) == x;
    for i := 2 to if len < 2 then 2 else len
      invariant |res| == i
      invariant forall k :: 0 <= k < i ==> res[k] == Pow(x, k)
    {
      res := res + [res[i - 1] * x];
    }
    res := res[..len];
  }

  // The rows of the inner-product argument are a power of two.
  lemma PaddedRows(n: nat)
    ensures Padded(n) * COMMITMENT_BITS == Pow2(PaddedLog(n, 0) + 6)
  {
    var k := PaddedLog(n, 0);
    assert Pow2(k + 6) == 2 * Pow2(k + 5) == 4 * Pow2(k + 4) == 8 * Pow2(k + 3) == 16 * Pow2(k + 2) == 32 * Pow2(k + 1);
  }

  function EncodeAll(c: Curve, points: seq<Point>): seq<byte>
    requires c.Valid()
  {
    if points == [] then [] else c.Encode(points[0]) + EncodeAll(c, points[1..])
  }

  /** The commitments as they are hashed: scaled by the inverse of eight. */
  function Scaled(commitments: seq<Point>): (r: seq<Point>)
    ensures |r| == |commitments|
    ensures forall i :: 0 <= i < |r| ==> r[i] == commitments[i] * INV_EIGHT
  {
    seq(|commitments|, i requires 0 <= i < |commitments| => commitments[i] * INV_EIGHT)
  }

  /** The statement commits to the openings. */
  predicate Consistent(c: Curve, commitments: seq<Point>, openings: seq<Commitment>) {
    && |commitments| == |openings|
    && forall i :: 0 <= i < |openings| ==> commitments[i] % (8 * L) == (8 * openings[i].Commit(c)) % (8 * L)
  }

  lemma ConsistentScaled(c: Curve, commitments: seq<Point>, openings: seq<Commitment>)
    requires Consistent(c, commitments, openings)
    ensures forall i :: 0 <= i < |openings| ==> Eq(Scaled(commitments)[i], openings[i].Commit(c))
  {
    hide Eq, Commitment.Commit;
    forall i | 0 <= i < |openings|
      ensures Eq(Scaled(commitments)[i], openings[i].Commit(c))
    {
      ScaledPoint(commitments[i], openings[i].Commit(c));
    }
  }

  lemma ScaledPoint(p: Point, d: SubPoint)
    requires p % (8 * L) == (8 * d) % (8 * L)
    ensures Eq(p * INV_EIGHT, d)
  {
    ModOfMod(p);
    ModOfMod(8 * d);
    assert Eq(p, 8 * d);
    hide Eq;
    EqScale(INV_EIGHT, p, 8 * d);
    CofactorCleared(d);
    Eighth(p, d);
    EqTransitive(p * INV_EIGHT, 8 * (d * INV_EIGHT), d);
  }

  lemma Eighth(p: int, d: int)
    ensures INV_EIGHT * (8 * d) == 8 * (d * INV_EIGHT) && INV_EIGHT * p == p * INV_EIGHT
  {
  }

  /** A statement: between one and sixteen commitments. */
  predicate IsStatement<T>(commitments: seq<T>) {
    1 <= |commitments| <= MAX_COMMITMENTS
  }

  predicate EnoughGenerators(generators: Generators) {
    |generators.G| == |generators.H| == MAX_COMMITMENTS * COMMITMENT_BITS
  }

  lemma PaddedFits(n: nat, generators: Generators)
    requires EnoughGenerators(generators) && n <= MAX_COMMITMENTS
    ensures Padded(n) * COMMITMENT_BITS <= |generators.G|
  {
    assert Pow2(4) == 16;
    if PaddedLog(n, 0) > 4 {
      Pow2Monotone(4, PaddedLog(n, 0) - 1);
    } else {
      Pow2Monotone(PaddedLog(n, 0), 4);
    }
  }

  /** The accumulator only ever holds as many rows as there are generators. */
  ghost predicate ValidBatch(verifier: InternalBatchVerifier, generators: Generators)
    reads verifier
  {
    EnoughGenerators(generators) && |verifier.gBold| == |verifier.hBold| <= |generators.G|
  }
}
