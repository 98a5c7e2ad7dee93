/** ringct/bulletproofs/src/plus/aggregate_range_proof.rs: Figure 3 of the Bulletproofs+ paper. */
module PlusRangeProof {
  import opened Wrappers
  import opened Ed25519
  import opened Vectors
  import opened Accumulator
  import opened RangeAlgebra
  import Wip = WeightedInnerProduct

  datatype Proof = Proof(A: seq<byte>, wip: Wip.WipProof)

  // ---------------------------------------------------------------------------------------------
  // The transcript.

  function InitialTranscript(c: Curve, commitments: seq<Point>): Scalar
    requires c.Valid()
  {
    c.hash(c.plusTranscript + c.EncodeScalar(c.hash(EncodeAll(c, Scaled(commitments)))))
  }

  function TranscriptA(c: Curve, transcript: Scalar, A: seq<byte>): (yz: (Scalar, Scalar))
    requires c.Valid()
    ensures !Eq(yz.0, 0)
  {
    var y := c.hash(c.EncodeScalar(transcript) + A);
    (y, c.hash(c.EncodeScalar(y)))
  }

  function DeriveKeys(c: Curve, commitments: seq<Point>, A: seq<byte>): (yz: (Scalar, Scalar))
    requires c.Valid()
    ensures !Eq(yz.0, 0)
  {
    TranscriptA(c, InitialTranscript(c, commitments), A)
  }

  // ---------------------------------------------------------------------------------------------
  // The vectors of the statement, and the point the weighted inner-product argument is about.

  /** z^(2 (j + 1)) * 2^i at position 64 * j + i: the sum of the paper's d_j, each times a power of z. */
  function D(z: Scalar, m: nat): (r: Vector)
    ensures |r| == m * COMMITMENT_BITS
  {
    ZTwos(z * z, 1, m)
  }

  /** y^n, ..., y */
  function Descending(y: Scalar, n: nat): (r: Vector)
    ensures |r| == n
  {
    Reverse(Wip.YVec(y, n))
  }

  function HShift(y: Scalar, z: Scalar, m: nat): (r: Vector)
    ensures |r| == m * COMMITMENT_BITS
  {
    Shift(Times(D(z, m), Descending(y, m * COMMITMENT_BITS)), z)
  }

  /** The scalar of `c.h` in the point below. */
  function HScalar(y: Scalar, z: Scalar, m: nat): Scalar {
    var n := m * COMMITMENT_BITS;
    Sum(Wip.YVec(y, n)) * z - Sum(D(z, m)) * Pow(y, n + 1) * z - Sum(Wip.YVec(y, n)) * (z * z)
  }

  function AHat(c: Curve, g: Vector, h: Vector, V: seq<SubPoint>, A: SubPoint, y: Scalar, z: Scalar, m: nat): SubPoint
    requires |g| == |h| == m * COMMITMENT_BITS
  {
    A - z * Sum(g) + Dot(HShift(y, z, m), h) + Pow(y, |g| + 1) * ZSum(z * z, 1, V, |V|) + HScalar(y, z, m) * c.h
  }

  // ---------------------------------------------------------------------------------------------
  // The shifted vectors satisfy the weighted inner-product relation.

  /** The prover's vectors. */
  function ShiftedLeft(aL: Vector, z: Scalar): (r: Vector)
    ensures |r| == |aL|
  {
    Shift(aL, -z)
  }

  function ShiftedRight(aL: Vector, y: Scalar, z: Scalar, m: nat): (r: Vector)
    requires |aL| == m * COMMITMENT_BITS
    ensures |r| == |aL|
  {
    Plus(Shift(aL, -1), HShift(y, z, m))
  }

  // y^(n - i) * y^(i + 1) == y^(n + 1)
  lemma WeightsMeet(y: Scalar, n: nat, i: nat)
    requires i < n
    ensures Descending(y, n)[i] * Wip.YVec(y, n)[i] == Pow(y, n + 1)
  {
    PowAdd(y, n - i, i + 1);
  }

  lemma BitTerm(a: int, z: int, dd: int, d: int, y: int, w: int, top: int)
    requires a == 0 || a == 1
    requires dd == d * w && w * y == top
    ensures ((a + -z) * (a + -1 + (dd + z))) * y == (z - z * z) * y + top * (a * d + -z * d)
  {
    assert dd * y == d * top by { assert d * w * y == d * (w * y); }
    BitExpand(a, z, dd, y);
    assert (a + -z) * (dd * y) == (a + -z) * (d * top);
  }

  lemma BitExpand(a: int, z: int, dd: int, y: int)
    requires a == 0 || a == 1
    ensures ((a + -z) * (a + -1 + (dd + z))) * y == (z - z * z) * y + (a + -z) * (dd * y)
  {
  }

  lemma WeightedVector(aL: Vector, y: Scalar, z: Scalar, m: nat)
    requires |aL| == m * COMMITMENT_BITS
    requires forall i :: 0 <= i < |aL| ==> aL[i] == 0 || aL[i] == 1
    ensures var n := m * COMMITMENT_BITS;
            Times(Times(ShiftedLeft(aL, z), ShiftedRight(aL, y, z, m)), Wip.YVec(y, n)) ==
            Lin(z - z * z, Wip.YVec(y, n), Pow(y, n + 1), Lin(1, Times(aL, D(z, m)), -z, D(z, m)))
  {
    hide D, Descending, Wip.YVec, Pow;
    var n := m * COMMITMENT_BITS;
    var yVec, d, w := Wip.YVec(y, n), D(z, m), Descending(y, n);
    forall i | 0 <= i < n
      ensures Times(Times(ShiftedLeft(aL, z), ShiftedRight(aL, y, z, m)), yVec)[i] ==
              Lin(z - z * z, yVec, Pow(y, n + 1), Lin(1, Times(aL, d), -z, d))[i]
    {
      WeightsMeet(y, n, i);
      BitTerm(aL[i], z, d[i] * w[i], d[i], yVec[i], w[i], Pow(y, n + 1));
    }
  }

  lemma WeightedProduct(aL: Vector, y: Scalar, z: Scalar, m: nat)
    requires |aL| == m * COMMITMENT_BITS
    requires forall i :: 0 <= i < |aL| ==> aL[i] == 0 || aL[i] == 1
    ensures var n := m * COMMITMENT_BITS;
            Dot3(ShiftedLeft(aL, z), ShiftedRight(aL, y, z, m), Wip.YVec(y, n)) ==
            (z - z * z) * Sum(Wip.YVec(y, n)) + Pow(y, n + 1) * (Dot(aL, D(z, m)) - z * Sum(D(z, m)))
  {
    hide *;
    var n := m * COMMITMENT_BITS;
    var yVec, d := Wip.YVec(y, n), D(z, m);
    WeightedVector(aL, y, z, m);
    Dot3IsSum(ShiftedLeft(aL, z), ShiftedRight(aL, y, z, m), yVec);
    SumLin(z - z * z, yVec, Pow(y, n + 1), Lin(1, Times(aL, d), -z, d));
    SumLin(1, Times(aL, d), -z, d);
    DotIsSum(aL, d);
  }

  lemma Dot3IsSum(a: Vector, b: Vector, y: Vector)
    requires |a| == |b| == |y|
    ensures Dot3(a, b, y) == Sum(Times(Times(a, b), y))
  {
  }

  /** What the openings' masks add to the prover's mask. */
  function ShiftedAlpha(alpha: Scalar, openings: seq<Commitment>, y: Scalar, z: Scalar, n: nat): Scalar {
    alpha + Pow(y, n + 1) * ZSum(z * z, 1, Masks(openings), |openings|)
  }

  // The statement's point is the relation of the shifted witness.
  lemma HonestRelation(c: Curve, g: Vector, h: Vector, V: seq<SubPoint>, openings: seq<Commitment>, A: SubPoint, y: Scalar,
                       z: Scalar, m: nat, alpha: Scalar, aL: Vector, w: Wip.WipWitness)
    requires |g| == |h| == m * COMMITMENT_BITS && |V| == |openings| <= m
    requires forall i :: 0 <= i < |V| ==> Eq(V[i], openings[i].Commit(c)) && openings[i].amount < Pow2(COMMITMENT_BITS)
    requires aL == AllBits(Amounts(openings), m)
    requires Eq(A, alpha + Dot(aL, g) + Dot(Shift(aL, -1), h))
    requires w == Wip.WipWitness(ShiftedLeft(aL, z), ShiftedRight(aL, y, z, m), ShiftedAlpha(alpha, openings, y, z, |g|))
    ensures Eq(AHat(c, g, h, V, A, y, z, m), Wip.Relation(c, y, w, g, h))
  {
    hide *;
    var n := |g|;
    var amounts := Amounts(openings);
    var s, top := z * z, Pow(y, n + 1);
    AllBitsAreBits(amounts, m);
    WeightedProduct(aL, y, z, m);
    BitsAgainstZTwos(amounts, s, 1, m);
    DIs(z, m);
    ZSumPadding(s, 1, amounts, m);
    ZSumOfCommitments(c, s, 1, V, openings, |V|);
    LeftDot(aL, z, g);
    DotPlus(Shift(aL, -1), HShift(y, z, m), h);
    AHatIs(c, g, h, V, A, y, z, m);
    HScalarIs(y, z, m);
    RelationIs(c, y, w, g, h);
    WitnessIs(aL, alpha, openings, y, z, m);
    Balance(A, alpha, Dot(aL, g), Dot(Shift(aL, -1), h), z, Sum(g), Dot(HShift(y, z, m), h), top,
            ZSum(s, 1, V, |V|), ZSum(s, 1, Masks(openings), |V|), ZSum(s, 1, amounts, |V|), Sum(Wip.YVec(y, n)),
            Sum(D(z, m)), c.h);
  }

  lemma DIs(z: Scalar, m: nat)
    ensures D(z, m) == ZTwos(z * z, 1, m)
  {
  }

  lemma LeftDot(aL: Vector, z: Scalar, g: Vector)
    requires |aL| == |g|
    ensures Dot(ShiftedLeft(aL, z), g) == Dot(aL, g) - z * Sum(g)
  {
    hide Dot, Sum, Shift;
    ShiftDot(aL, -z, g);
  }

  // What is hidden where the two sides are compared.
  lemma AHatIs(c: Curve, g: Vector, h: Vector, V: seq<SubPoint>, A: SubPoint, y: Scalar, z: Scalar, m: nat)
    requires |g| == |h| == m * COMMITMENT_BITS
    ensures AHat(c, g, h, V, A, y, z, m) ==
            A - z * Sum(g) + Dot(HShift(y, z, m), h) + Pow(y, |g| + 1) * ZSum(z * z, 1, V, |V|) + HScalar(y, z, m) * c.h
  {
  }

  lemma HScalarIs(y: Scalar, z: Scalar, m: nat)
    ensures var n := m * COMMITMENT_BITS;
            HScalar(y, z, m) ==
            Sum(Wip.YVec(y, n)) * z - Sum(D(z, m)) * Pow(y, n + 1) * z - Sum(Wip.YVec(y, n)) * (z * z)
  {
  }

  lemma RelationIs(c: Curve, y: Scalar, w: Wip.WipWitness, g: Vector, h: Vector)
    requires |w.a| == |w.b| == |g| == |h|
    ensures Wip.Relation(c, y, w, g, h) ==
            Dot(w.a, g) + Dot(w.b, h) + Dot3(w.a, w.b, Wip.YVec(y, |g|)) * c.h + w.alpha
  {
  }

  lemma WitnessIs(aL: Vector, alpha: Scalar, openings: seq<Commitment>, y: Scalar, z: Scalar, m: nat)
    requires |aL| == m * COMMITMENT_BITS
    ensures ShiftedRight(aL, y, z, m) == Plus(Shift(aL, -1), HShift(y, z, m))
    ensures ShiftedAlpha(alpha, openings, y, z, |aL|) ==
            alpha + Pow(y, |aL| + 1) * ZSum(z * z, 1, Masks(openings), |openings|)
  {
  }

  lemma Balance(A: int, alpha: int, lg: int, rh: int, z: int, sg: int, sh: int, top: int, v: int, masks: int, amounts: int,
                ySum: int, dSum: int, h: int)
    requires Eq(A, alpha + lg + rh)
    requires Eq(v, masks + amounts * h)
    ensures Eq(A - z * sg + sh + top * v + (ySum * z - dSum * top * z - ySum * (z * z)) * h,
               lg - z * sg + (rh + sh) + ((z - z * z) * ySum + top * (amounts - z * dSum)) * h + (alpha + top * masks))
  {
    hide Eq;
    var t := (ySum * z - dSum * top * z - ySum * (z * z)) * h;
    var k := EqToMultiple(A, alpha + lg + rh);
    var j := EqToMultiple(v, masks + amounts * h);
    assert top * v == top * (masks + amounts * h) + top * j * L by { MultipleOut(top, v, masks + amounts * h, j); }
    BalanceExact(z, top, masks, amounts, ySum, dSum, h);
    EqFromMultiple(A - z * sg + sh + top * v + t,
                   lg - z * sg + (rh + sh) + ((z - z * z) * ySum + top * (amounts - z * dSum)) * h + (alpha + top * masks),
                   k + top * j);
  }

  lemma MultipleOut(top: int, v: int, w: int, j: int)
    requires v == w + j * L
    ensures top * v == top * w + top * j * L
  {
  }

  lemma BalanceExact(z: int, top: int, masks: int, amounts: int, ySum: int, dSum: int, h: int)
    ensures top * (masks + amounts * h) + (ySum * z - dSum * top * z - ySum * (z * z)) * h ==
            ((z - z * z) * ySum + top * (amounts - z * dSum)) * h + top * masks
  {
    assert (z - z * z) * ySum + top * (amounts - z * dSum) ==
           top * amounts + (ySum * z - dSum * top * z - ySum * (z * z));
    Spread(top * amounts, ySum * z - dSum * top * z - ySum * (z * z), h, top, masks, amounts);
  }

  lemma Spread(p: int, q: int, h: int, top: int, masks: int, amounts: int)
    requires p == top * amounts
    ensures (p + q) * h == top * (amounts * h) + q * h
    ensures top * (masks + amounts * h) == top * masks + top * (amounts * h)
  {
  }

  // ---------------------------------------------------------------------------------------------
  // What it means for a proof to be valid.

  /** The statement's point has an argument of the weighted inner product. */
  ghost predicate Holds(c: Curve, generators: Generators, commitments: seq<Point>, proof: Proof)
    requires c.Valid() && EnoughGenerators(generators) && IsStatement(commitments)
  {
    PaddedFits(|commitments|, generators);
    var m := Padded(|commitments|);
    var n := m * COMMITMENT_BITS;
    var (y, z) := DeriveKeys(c, commitments, proof.A);
    match c.Receive(proof.A)
    case None => false
    case Some(A) =>
      var g, h := generators.G[..n], generators.H[..n];
      Wip.Accepts(c, y, Wip.Round(g, h, AHat(c, g, h, Scaled(commitments), A, y, z, m), z), proof.wip)
  }

  // ---------------------------------------------------------------------------------------------
  // The computation shared by the prover and the verifier.

  /** The prover and the verifier's shared results. */
  datatype AHatComputation = AHatComputation(y: Scalar, hShift: Vector, top: Scalar, z: Scalar, zPow: Vector,
                                             aHat: SubPoint)

  /** The vector with the powers of two in its block `j`, counted from zero, and zeros elsewhere. */
  method DJ(j: nat, m: nat) returns (res: Vector)
    requires j < m
    ensures |res| == m * COMMITMENT_BITS
    ensures forall k :: 0 <= k < |res| ==>
              res[k] == if k / COMMITMENT_BITS == j then Pow(2, k % COMMITMENT_BITS) else 0
  {
    hide Pow;
    res := [];
    for i := 0 to j * COMMITMENT_BITS
      invariant res == Constant(0, i)
    {
      res := res + [0];
    }
    var twos := Powers(2, COMMITMENT_BITS);
    ghost var before := res;
    res := res + twos;
    for i := 0 to (m - (j + 1)) * COMMITMENT_BITS
      invariant res == before + twos + Constant(0, i)
    {
      res := res + [0];
    }
  }

  /** The even powers of z, and d. */
  method ComputeD(z: Scalar, m: nat) returns (zPow: Vector, d: Vector)
    requires m > 0
    ensures |zPow| == m + 1
    ensures forall j :: 0 <= j <= m ==> zPow[j] == Pow(z * z, j + 1)
    ensures d == D(z, m)
  {
    zPow := [z * z];
    PowOne(z * z);
    hide Pow;
    d := Constant(0, m * COMMITMENT_BITS);
    for j := 0 to m
      invariant |zPow| == j + 1 && |d| == m * COMMITMENT_BITS
      invariant forall i :: 0 <= i <= j ==> zPow[i] == Pow(z * z, i + 1)
      invariant forall k :: 0 <= k < |d| ==> d[k] == if k / COMMITMENT_BITS < j then ZTwosAt(z * z, 1, k) else 0
    {
      PowNext(z * z, j + 1);
      zPow := zPow + [zPow[j] * zPow[0]];
      var dj := DJ(j, m);
      ghost var before := d;
      d := Plus(d, Scale(dj, zPow[j]));
      forall k | 0 <= k < |d|
        ensures d[k] == if k / COMMITMENT_BITS < j + 1 then ZTwosAt(z * z, 1, k) else 0
      {
        assert before[k] == if k / COMMITMENT_BITS < j then ZTwosAt(z * z, 1, k) else 0;
      }
    }
  }

  lemma PowOne(x: int)
    ensures Pow(x, 1) == x
  {
    assert Pow(x, 0) == 1;
  }

  lemma PowNext(x: int, n: nat)
    ensures Pow(x, n + 1) == Pow(x, n) * x
  {
  }

  method PadPoints(V: seq<SubPoint>) returns (res: seq<SubPoint>)
    ensures res == V + Constant(0, Padded(|V|) - |V|)
  {
    res := V;
    var padded := PadToPowerOf2(|res|);
    while |res| < padded
      invariant |V| <= |res| <= Padded(|V|) && padded == Padded(|V|)
      invariant res == V + Constant(0, |res| - |V|)
    {
      res := res + [0];
      PaddedPartway(|V|, |res|);
      padded := PadToPowerOf2(|res|);
    }
  }

  method SumCommitments(V: seq<SubPoint>, ghost s: Scalar, zPow: Vector) returns (sum: SubPoint)
    requires |V| <= |zPow| && forall j :: 0 <= j < |zPow| ==> zPow[j] == Pow(s, j + 1)
    ensures sum == ZSum(s, 1, V, |V|)
  {
    hide Pow;
    sum := 0;
    for j := 0 to |V|
      invariant sum == ZSum(s, 1, V, j)
    {
      sum := sum + V[j] * zPow[j];
    }
  }

  /** The terms of the statement's point other than A. */
  method SumTerms(c: Curve, negZ: Scalar, hShift: Vector, generators: Generators, top: Scalar, sum: SubPoint, hScalar: Scalar)
    returns (point: SubPoint)
    requires |hShift| == |generators.G| == |generators.H|
    ensures point == negZ * Sum(generators.G) + Dot(hShift, generators.H) + top * sum + hScalar * c.h
  {
    hide Msm, Dot, Sum;
    var terms: seq<(Scalar, SubPoint)> := [];
    Nothing();
    for i := 0 to |hShift|
      invariant Msm(terms) == negZ * Sum(generators.G[..i]) + Dot(hShift[..i], generators.H[..i])
    {
      MsmSnoc(terms, negZ, generators.G[i]);
      MsmSnoc(terms + [(negZ, generators.G[i])], hShift[i], generators.H[i]);
      SumPrefix(generators.G, i);
      DotPrefix(hShift, generators.H, i);
      terms := terms + [(negZ, generators.G[i])] + [(hShift[i], generators.H[i])];
    }
    assert hShift[..|hShift|] == hShift && generators.G[..|hShift|] == generators.G && generators.H[..|hShift|] == generators.H;
    MsmSnoc(terms, top, sum);
    MsmSnoc(terms + [(top, sum)], hScalar, c.h);
    point := Msm(terms + [(top, sum)] + [(hScalar, c.h)]);
  }

  lemma Nothing()
    ensures Msm([]) == 0 && Sum([]) == 0 && Dot([], []) == 0
  {
  }

  method ComputeAHat(c: Curve, points: seq<SubPoint>, generators: Generators, transcript: Scalar, data: seq<byte>)
    returns (res: Option<AHatComputation>)
    requires c.Valid() && points != []
    requires |generators.G| == |generators.H| == Padded(|points|) * COMMITMENT_BITS
    ensures res.Some? <==> c.Receive(data).Some?
    ensures res.Some? ==>
              var m := Padded(|points|);
              var n := m * COMMITMENT_BITS;
              var (y, z) := TranscriptA(c, transcript, data);
              && res.value.y == y && res.value.z == z
              && res.value.hShift == HShift(y, z, m) && res.value.top == Pow(y, n + 1)
              && |res.value.zPow| == m + 1
              && (forall j :: 0 <= j <= m ==> res.value.zPow[j] == Pow(z * z, j + 1))
              && res.value.aHat == AHat(c, generators.G, generators.H, points, c.Receive(data).value, y, z, m)
  {
    hide Sum, Dot, Pow, ZSum, TranscriptA, D, Padded, Constant, Scale, Shift, Times;
    var yz := TranscriptA(c, transcript, data);
    var y, z := yz.0, yz.1;
    var A := c.Receive(data);
    if A.None? {
      return None;
    }
    var V := PadPoints(points);
    var m := |V|;
    var mn := m * COMMITMENT_BITS;
    var zPow, d := ComputeD(z, m);
    var ascending := Wip.AscendingPowers(y, mn);
    var ySum := Sum(ascending);
    var descending := Reverse(ascending);
    var hShift := Shift(Times(d, descending), z);
    assert descending == Descending(y, mn);
    PowNext(y, mn);
    var top := descending[0] * y;
    var sum := SumCommitments(V, z * z, zPow);
    ZSumZeros(z * z, 1, points, m - |points|, m);
    ZSumPadding(z * z, 1, points, m);
    var point := SumTerms(c, -z, hShift, generators, top, sum, ySum * z - Sum(d) * top * z - ySum * (z * z));
    AHatParts(c, generators.G, generators.H, points, A.value, y, z, m, sum, point);
    res := Some(AHatComputation(y, hShift, top, z, zPow, A.value + point));
  }

  lemma AHatParts(c: Curve, g: Vector, h: Vector, V: seq<SubPoint>, A: SubPoint, y: Scalar, z: Scalar, m: nat,
                  sum: SubPoint, point: SubPoint)
    requires |g| == |h| == m * COMMITMENT_BITS
    requires sum == ZSum(z * z, 1, V, |V|)
    requires var n := m * COMMITMENT_BITS;
             var ySum := Sum(Wip.YVec(y, n));
             point == -z * Sum(g) + Dot(HShift(y, z, m), h) + Pow(y, n + 1) * sum
                      + (ySum * z - Sum(D(z, m)) * Pow(y, n + 1) * z - ySum * (z * z)) * c.h
    ensures A + point == AHat(c, g, h, V, A, y, z, m)
  {
    hide *;
    AHatIs(c, g, h, V, A, y, z, m);
    HScalarIs(y, z, m);
  }

  // ---------------------------------------------------------------------------------------------
  // The prover.

  /** The bits of an amount, least significant first. */
  method U64Decompose(value: nat) returns (bits: Vector)
    ensures bits == Bits(value, 64)
  {
    var a := new Scalar[64](_ => 0);
    for bit := 0 to 64
      invariant forall k :: 0 <= k < bit ==> a[k] == Bit(value, k)
    {
      a[bit] := (value / Pow2(bit)) % 2;
    }
    bits := a[..];
  }

  method DecomposeAll(openings: seq<Commitment>, m: nat) returns (aL: Vector)
    ensures aL == AllBits(Amounts(openings), m)
  {
    hide Bits, AllBits;
    aL := [];
    NoBits(Amounts(openings));
    for j := 0 to m
      invariant aL == AllBits(Amounts(openings), j)
    {
      var bits := U64Decompose(if j < |openings| then openings[j].amount else 0);
      aL := aL + bits;
      LastBlock(Amounts(openings), 0, 0, j + 1);
    }
  }

  lemma NoBits(amounts: seq<nat>)
    ensures AllBits(amounts, 0) == []
  {
  }

  method CommitBits(c: Curve, generators: Generators, aL: Vector, aR: Vector, alpha: Scalar) returns (A: seq<byte>)
    requires c.Valid()
    requires |aL| == |aR| == |generators.G| == |generators.H|
    ensures A == c.Transmit(Dot(aL, generators.G) + Dot(aR, generators.H) + alpha)
  {
    hide Msm, Dot, Zip;
    var terms := Zip(aL, generators.G) + Zip(aR, generators.H) + [(alpha, 1)];
    Wip.Ip.MsmTerms(aL, generators.G, aR, generators.H, alpha, 1);
    A := c.Encode(8 * (Msm(terms) * INV_EIGHT));
  }

  method MaskSum(alpha: Scalar, openings: seq<Commitment>, ghost s: Scalar, zPow: Vector, top: Scalar) returns (res: Scalar)
    requires |openings| <= |zPow| && forall j :: 0 <= j < |zPow| ==> zPow[j] == Pow(s, j + 1)
    ensures res == alpha + top * ZSum(s, 1, Masks(openings), |openings|)
  {
    hide Pow, ZSum;
    res := alpha;
    ZSumEmpty(s, 1, Masks(openings));
    for j := 0 to |openings|
      invariant res == alpha + top * ZSum(s, 1, Masks(openings), j)
    {
      ZSumStep(s, 1, Masks(openings), j + 1);
      MaskTerm(top, ZSum(s, 1, Masks(openings), j), zPow[j], openings[j].mask);
      res := res + zPow[j] * openings[j].mask * top;
    }
  }

  lemma MaskTerm(top: int, sum: int, z: int, mask: int)
    ensures top * (sum + z * mask) == top * sum + z * mask * top
  {
  }

  /** What the prover draws from its random number generator. */
  datatype Blinds = Blinds(alpha: Scalar, wip: Wip.Blinds)

  /** The proof is the one which these openings and blinds make. */
  ghost predicate MadeFrom(c: Curve, generators: Generators, commitments: seq<Point>, openings: seq<Commitment>, blinds: Blinds,
                           proof: Proof)
    requires c.Valid() && EnoughGenerators(generators) && IsStatement(openings)
  {
    PaddedFits(|openings|, generators);
    var m := Padded(|openings|);
    var n := m * COMMITMENT_BITS;
    var g, h := generators.G[..n], generators.H[..n];
    var aL := AllBits(Amounts(openings), m);
    var (y, z) := DeriveKeys(c, commitments, proof.A);
    var w := Wip.WipWitness(ShiftedLeft(aL, z), ShiftedRight(aL, y, z, m), ShiftedAlpha(blinds.alpha, openings, y, z, n));
    && proof.A == c.Transmit(Dot(aL, g) + Dot(Shift(aL, -1), h) + blinds.alpha)
    && Wip.MadeFrom(c, y, Wip.ProverState(w, g, h, z), blinds.wip, proof.wip)
  }

  /** The prover after it has sent A: the argument for the shifted vectors. */
  method ProveShifted(c: Curve, generators: Generators, aHat: AHatComputation, ghost m: nat, aL: Vector, alpha: Scalar,
                      openings: seq<Commitment>, blinds: Wip.Blinds)
    returns (wip: Wip.WipProof, ghost w: Wip.WipWitness)
    requires c.Valid() && !Eq(aHat.y, 0) && |openings| <= m == Padded(|openings|)
    requires |generators.G| == |generators.H| == |aL| == m * COMMITMENT_BITS
    requires aHat.hShift == HShift(aHat.y, aHat.z, m) && aHat.top == Pow(aHat.y, |aL| + 1)
    requires |aHat.zPow| == m + 1 && forall j :: 0 <= j <= m ==> aHat.zPow[j] == Pow(aHat.z * aHat.z, j + 1)
    requires |blinds.d| == PaddedLog(|openings|, 0) + 6
    ensures w == Wip.WipWitness(ShiftedLeft(aL, aHat.z), ShiftedRight(aL, aHat.y, aHat.z, m),
                                ShiftedAlpha(alpha, openings, aHat.y, aHat.z, |aL|))
    ensures Wip.Accepts(c, aHat.y, Wip.Round(generators.G, generators.H,
                                             Wip.Relation(c, aHat.y, w, generators.G, generators.H), aHat.z), wip)
    ensures Wip.MadeFrom(c, aHat.y, Wip.ProverState(w, generators.G, generators.H, aHat.z), blinds, wip)
  {
    hide Pow, ZSum, Wip.Relation, Wip.Accepts, Wip.YVec, Wip.MadeFrom, Padded, HShift, Eq;
    var shiftedL := Shift(aL, -aHat.z);
    var shiftedR := Plus(Shift(aL, -1), aHat.hShift);
    var shiftedAlpha := MaskSum(alpha, openings, aHat.z * aHat.z, aHat.zPow, aHat.top);
    PaddedRows(|openings|);
    PaddedIsItself(|aL|, PaddedLog(|openings|, 0) + 6);
    var yVec := Wip.AscendingPowers(aHat.y, |generators.G|);
    var witness' := Wip.NewWitness(shiftedL, shiftedR, shiftedAlpha);
    w := Wip.WipWitness(shiftedL, shiftedR, shiftedAlpha);
    assert witness'.value == w;
    var res := Wip.Prove(c, generators, aHat.y, yVec, aHat.z, witness'.value, blinds, PaddedLog(|openings|, 0) + 6);
    wip := res.value;
  }

  lemma PaddedIsItself(n: nat, k: nat)
    requires n == Pow2(k)
    ensures Padded(n) == n
  {
    if k > 0 {
      Pow2Strict(k - 1, k);
    }
    PaddedIs(n, k);
  }

  method Prove(c: Curve, generators: Generators, commitments: seq<Point>, openings: seq<Commitment>, blinds: Blinds)
    returns (res: Option<Proof>)
    requires c.Valid() && EnoughGenerators(generators)
    requires IsStatement(commitments) && IsStatement(openings)
    requires forall i :: 0 <= i < |openings| ==> openings[i].amount < Pow2(COMMITMENT_BITS)
    requires |blinds.wip.d| == PaddedLog(|openings|, 0) + 6
    ensures res.Some? <==> Consistent(c, commitments, openings)
    ensures res.Some? ==>
              Holds(c, generators, commitments, res.value) && MadeFrom(c, generators, commitments, openings, blinds, res.value)
  {
    hide Pow, ZSum, Wip.Relation, Wip.Accepts, Wip.MadeFrom, Padded, HShift, Eq, Dot, AHat, Pow2, InitialTranscript,
         TranscriptA, Scaled, AllBits, Amounts;
    if !Consistent(c, commitments, openings) {
      return None;
    }
    var V := PadPoints(Scaled(commitments));
    var m := |V|;
    PaddedPartway(|commitments|, m);
    PaddedFits(|commitments|, generators);
    PaddedOfRows(m);
    var n := PadToPowerOf2(m * COMMITMENT_BITS);
    var reduced := Wip.Reduce(generators, n);
    var aL := DecomposeAll(openings, m);
    var aR := Shift(aL, -1);
    var A := CommitBits(c, reduced, aL, aR, blinds.alpha);
    TransmitReceive(c, Dot(aL, reduced.G) + Dot(aR, reduced.H) + blinds.alpha);
    var computed := ComputeAHat(c, V, reduced, InitialTranscript(c, commitments), A);
    var aHat := computed.value;
    ghost var w;
    var wip;
    wip, w := ProveShifted(c, reduced, aHat, m, aL, blinds.alpha, openings, blinds.wip);
    res := Some(Proof(A, wip));
    HonestHolds(c, generators, commitments, openings, m, aL, blinds.alpha, V, w, res.value);
  }

  lemma HonestHolds(c: Curve, generators: Generators, commitments: seq<Point>, openings: seq<Commitment>, m: nat, aL: Vector,
                    alpha: Scalar, V: seq<SubPoint>, w: Wip.WipWitness, proof: Proof)
    requires c.Valid() && EnoughGenerators(generators)
    requires IsStatement(commitments) && Consistent(c, commitments, openings)
    requires forall i :: 0 <= i < |openings| ==> openings[i].amount < Pow2(COMMITMENT_BITS)
    requires m == Padded(|commitments|) && m * COMMITMENT_BITS <= |generators.G|
    requires aL == AllBits(Amounts(openings), m)
    requires c.Receive(proof.A).Some?
    requires var n := m * COMMITMENT_BITS;
             Eq(c.Receive(proof.A).value,
                Dot(aL, generators.G[..n]) + Dot(Shift(aL, -1), generators.H[..n]) + alpha)
    requires var (y, z) := DeriveKeys(c, commitments, proof.A);
             w == Wip.WipWitness(ShiftedLeft(aL, z), ShiftedRight(aL, y, z, m), ShiftedAlpha(alpha, openings, y, z, |aL|))
    requires var (y, z) := DeriveKeys(c, commitments, proof.A);
             var g, h := generators.G[..m * COMMITMENT_BITS], generators.H[..m * COMMITMENT_BITS];
             Wip.Accepts(c, y, Wip.Round(g, h, Wip.Relation(c, y, w, g, h), z), proof.wip)
    ensures Holds(c, generators, commitments, proof)
  {
    hide Pow, ZSum, Wip.Relation, Wip.Accepts, Padded, HShift, Eq, Dot, AHat, Pow2, DeriveKeys, Scaled,
         AllBits, Amounts, ShiftedRight, ShiftedLeft, ShiftedAlpha;
    var (y, z) := DeriveKeys(c, commitments, proof.A);
    var g, h := generators.G[..m * COMMITMENT_BITS], generators.H[..m * COMMITMENT_BITS];
    var A := c.Receive(proof.A).value;
    ConsistentScaled(c, commitments, openings);
    HonestRelation(c, g, h, Scaled(commitments), openings, A, y, z, m, alpha, aL, w);
    var relation := Wip.Relation(c, y, w, g, h);
    EqSymmetric(AHat(c, g, h, Scaled(commitments), A, y, z, m), relation);
    Wip.AcceptsCongruent(c, y, Wip.Round(g, h, relation, z), AHat(c, g, h, Scaled(commitments), A, y, z, m), proof.wip);
  }

  // ---------------------------------------------------------------------------------------------
  // The batch verifier.

  /** The proof has the right shape and all of its points decode; nothing is said about its validity. */
  ghost predicate WellFormed(c: Curve, commitments: seq<Point>, proof: Proof) {
    c.Receive(proof.A).Some? && Wip.WellFormed(c, Padded(|commitments|) * COMMITMENT_BITS, proof.wip)
  }

  /** The point a queued proof adds to the batch, per unit of weight. */
  ghost function Effect(c: Curve, generators: Generators, commitments: seq<Point>, proof: Proof): SubPoint
    requires c.Valid() && EnoughGenerators(generators) && IsStatement(commitments)
    requires WellFormed(c, commitments, proof)
  {
    PaddedFits(|commitments|, generators);
    var m := Padded(|commitments|);
    var n := m * COMMITMENT_BITS;
    var (y, z) := DeriveKeys(c, commitments, proof.A);
    var g, h := generators.G[..n], generators.H[..n];
    Wip.ProofEffect(c, generators, n, y, AHat(c, g, h, Scaled(commitments), c.Receive(proof.A).value, y, z, m), z, proof.wip)
  }

  method Verify(c: Curve, verifier: InternalBatchVerifier, generators: Generators, commitments: seq<Point>,
                proof: Proof, weight: Scalar)
    returns (ok: bool)
    requires c.Valid() && ValidBatch(verifier, generators)
    requires IsStatement(commitments)
    modifies verifier
    ensures ValidBatch(verifier, generators)
    ensures ok <==> WellFormed(c, commitments, proof)
    ensures ok ==> verifier.Eval(c.h, 1, generators) ==
                   old(verifier.Eval(c.h, 1, generators)) + weight * Effect(c, generators, commitments, proof)
  {
    hide Pow, Padded, HShift, Eq, Dot, AHat, Pow2, InitialTranscript, TranscriptA, Scaled, Wip.WellFormed, Wip.ProofEffect,
         Wip.YVec, Msm;
    PaddedFits(|commitments|, generators);
    PaddedOfRows(|commitments|);
    var n := PadToPowerOf2(|commitments| * COMMITMENT_BITS);
    var reduced := Wip.Reduce(generators, n);
    var computed := ComputeAHat(c, Scaled(commitments), reduced, InitialTranscript(c, commitments), proof.A);
    if computed.None? {
      return false;
    }
    var aHat := computed.value;
    var yVec := Wip.AscendingPowers(aHat.y, n);
    ok := Wip.Verify(c, verifier, generators, n, aHat.y, yVec, aHat.aHat, aHat.z, proof.wip, weight);
  }

  // A proof is valid exactly when queueing it leaves the batch's sum unchanged.
  lemma HoldsIffNoEffect(c: Curve, generators: Generators, commitments: seq<Point>, proof: Proof)
    requires c.Valid() && EnoughGenerators(generators) && IsStatement(commitments)
    ensures Holds(c, generators, commitments, proof) <==>
            WellFormed(c, commitments, proof) && Eq(Effect(c, generators, commitments, proof), 0)
  {
    hide Pow, Padded, Eq, Dot, AHat, Pow2, DeriveKeys, Scaled, Wip.WellFormed, Wip.ProofEffect, Wip.Accepts;
    PaddedFits(|commitments|, generators);
    var m := Padded(|commitments|);
    var n := m * COMMITMENT_BITS;
    var (y, z) := DeriveKeys(c, commitments, proof.A);
    if c.Receive(proof.A).Some? {
      var aHat := AHat(c, generators.G[..n], generators.H[..n], Scaled(commitments), c.Receive(proof.A).value, y, z, m);
      Wip.AcceptsIffWellFormedAndNoEffect(c, generators, n, y, aHat, z, proof.wip);
    }
  }
}
