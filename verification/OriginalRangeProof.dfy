/** ringct/bulletproofs/src/original/mod.rs: the aggregate range proof. */
module OriginalRangeProof {
  import opened Wrappers
  import opened Ed25519
  import opened Vectors
  import opened Accumulator
  import opened RangeAlgebra
  import Ip = InnerProduct

  datatype Proof = Proof(A: seq<byte>, S: seq<byte>, T1: seq<byte>, T2: seq<byte>,
                         tauX: Scalar, mu: Scalar, tHat: Scalar, ip: Ip.IpProof)

  /** What the prover draws from its random number generator. */
  datatype Blinds = Blinds(alpha: Scalar, sL: Vector, sR: Vector, rho: Scalar, tau1: Scalar, tau2: Scalar)

  // ---------------------------------------------------------------------------------------------
  // The transcript.

  function InitialTranscript(c: Curve, commitments: seq<Point>): Scalar
    requires c.Valid()
  {
    c.hash(EncodeAll(c, Scaled(commitments)))
  }

  function TranscriptAS(c: Curve, transcript: Scalar, A: seq<byte>, S: seq<byte>): (yz: (Scalar, Scalar))
    requires c.Valid()
    ensures !Eq(yz.0, 0)
  {
    var y := c.hash(c.EncodeScalar(transcript) + A + S);
    (y, c.hash(c.EncodeScalar(y)))
  }

  function TranscriptT12(c: Curve, transcript: Scalar, T1: seq<byte>, T2: seq<byte>): Scalar
    requires c.Valid()
  {
    c.hash(c.EncodeScalar(transcript) + c.EncodeScalar(transcript) + T1 + T2)
  }

  function TranscriptTauX(c: Curve, transcript: Scalar, tauX: Scalar, mu: Scalar, tHat: Scalar): Scalar
    requires c.Valid()
  {
    c.hash(c.EncodeScalar(transcript) + c.EncodeScalar(transcript) + c.EncodeScalar(tauX) +
           c.EncodeScalar(mu) + c.EncodeScalar(tHat))
  }

  // ---------------------------------------------------------------------------------------------
  // The vectors l and r, and the polynomial they define.

  function L0(aL: Vector, z: Scalar): (r: Vector)
    ensures |r| == |aL|
  {
    Shift(aL, -z)
  }

  function R0(aR: Vector, z: Scalar, yPow: Vector, zTwos: Vector): (r: Vector)
    requires |aR| == |yPow| == |zTwos|
    ensures |r| == |aR|
  {
    Plus(Times(Shift(aR, z), yPow), zTwos)
  }

  // The constant term: the bits being zero or one is all it takes.
  lemma ConstantTerm(aL: Vector, z: Scalar, yPow: Vector, zTwos: Vector)
    requires |aL| == |yPow| == |zTwos|
    requires forall i :: 0 <= i < |aL| ==> aL[i] == 0 || aL[i] == 1
    ensures Dot(L0(aL, z), R0(Shift(aL, -1), z, yPow, zTwos)) ==
            (z - z * z) * Sum(yPow) + Dot(aL, zTwos) - z * Sum(zTwos)
  {
    hide *;
    var l, r := L0(aL, z), R0(Shift(aL, -1), z, yPow, zTwos);
    ConstantTermVector(aL, z, yPow, zTwos);
    DotIsSum(l, r);
    DotIsSum(aL, zTwos);
    SumLin(z - z * z, yPow, 1, Lin(1, Times(aL, zTwos), -z, zTwos));
    SumLin(1, Times(aL, zTwos), -z, zTwos);
  }

  lemma ConstantTermVector(aL: Vector, z: Scalar, yPow: Vector, zTwos: Vector)
    requires |aL| == |yPow| == |zTwos|
    requires forall i :: 0 <= i < |aL| ==> aL[i] == 0 || aL[i] == 1
    ensures Times(L0(aL, z), R0(Shift(aL, -1), z, yPow, zTwos)) ==
            Lin(z - z * z, yPow, 1, Lin(1, Times(aL, zTwos), -z, zTwos))
  {
    hide *;
    var l, r := L0(aL, z), R0(Shift(aL, -1), z, yPow, zTwos);
    var inner := Lin(1, Times(aL, zTwos), -z, zTwos);
    forall i | 0 <= i < |aL|
      ensures Times(l, r)[i] == Lin(z - z * z, yPow, 1, inner)[i]
    {
      ConstantTermAt(aL, z, yPow, zTwos, i);
    }
  }

  lemma ConstantTermAt(aL: Vector, z: Scalar, yPow: Vector, zTwos: Vector, i: nat)
    requires i < |aL| == |yPow| == |zTwos|
    requires aL[i] == 0 || aL[i] == 1
    ensures Times(L0(aL, z), R0(Shift(aL, -1), z, yPow, zTwos))[i] ==
            Lin(z - z * z, yPow, 1, Lin(1, Times(aL, zTwos), -z, zTwos))[i]
  {
    BitProduct(aL[i], z, yPow[i], zTwos[i]);
  }

  lemma BitProduct(a: int, z: int, y: int, w: int)
    requires a == 0 || a == 1
    ensures (a + -z) * ((a + -1 + z) * y + w) == (z - z * z) * y + (a * w + -z * w)
  {
  }

  // ---------------------------------------------------------------------------------------------
  // The two equations of the range proof, as the points a proof adds to the batch. The equations
  // are numbered as in the Bulletproofs paper.

  /** Equation 65: the polynomial's value, against the commitments. */
  function Residual65(c: Curve, V: seq<SubPoint>, m: nat, ySum: Scalar, z: Scalar, x: Scalar,
                      T1: SubPoint, T2: SubPoint, tauX: Scalar, tHat: Scalar): SubPoint {
    (tHat - (z - z * z) * ySum + ZSum(z, 3, Repeat(Sum(Twos()), m), m)) * c.h + tauX
    - ZSum(z, 2, V, |V|) - x * T1 - x * x * T2
  }

  /** Equation 66: the point the inner-product argument is about. */
  function InnerPoint(c: Curve, g: Vector, h: Vector, A: SubPoint, S: SubPoint, z: Scalar, x: Scalar, xIp: Scalar,
                      yInvPow: Vector, zTwos: Vector, tHat: Scalar, mu: Scalar): SubPoint
    requires |g| == |h| == |yInvPow| == |zTwos|
  {
    A + x * S - z * Sum(g) + Dot(Shift(Times(yInvPow, zTwos), z), h) + xIp * tHat * c.h - mu
  }

  // ---------------------------------------------------------------------------------------------
  // An honest prover satisfies both.

  lemma Honest65(c: Curve, V: seq<SubPoint>, openings: seq<Commitment>, m: nat, yPow: Vector, z: Scalar, x: Scalar,
                 T1: SubPoint, T2: SubPoint, t1: Scalar, t2: Scalar, tau1: Scalar, tau2: Scalar, tHat: Scalar)
    requires |V| == |openings| <= m && |yPow| == m * COMMITMENT_BITS
    requires forall i :: 0 <= i < |V| ==> Eq(V[i], openings[i].Commit(c)) && openings[i].amount < Pow2(COMMITMENT_BITS)
    requires Eq(T1, t1 * c.h + tau1) && Eq(T2, t2 * c.h + tau2)
    requires var aL := AllBits(Amounts(openings), m);
             tHat == Dot(L0(aL, z), R0(Shift(aL, -1), z, yPow, ZTwos(z, 2, m))) + x * t1 + x * x * t2
    ensures Eq(Residual65(c, V, m, Sum(yPow), z, x, T1, T2,
                          (tau2 * x + tau1) * x + ZSum(z, 2, Masks(openings), |V|), tHat), 0)
  {
    hide *;
    var amounts := Amounts(openings);
    var aL := AllBits(amounts, m);
    AllBitsAreBits(amounts, m);
    ConstantTerm(aL, z, yPow, ZTwos(z, 2, m));
    BitsAgainstZTwos(amounts, z, 2, m);
    SumZTwos(z, 2, m, m);
    ZSumShift(z, 2, Repeat(Sum(Twos()), m), m);
    ZSumPadding(z, 2, amounts, m);
    ZSumOfCommitments(c, z, 2, V, openings, |V|);
    Balance65(c, V, m, Sum(yPow), z, x, T1, T2, t1, t2, tau1, tau2, tHat,
              ZSum(z, 2, Masks(openings), |V|), ZSum(z, 2, amounts, |V|));
  }

  lemma Balance65(c: Curve, V: seq<SubPoint>, m: nat, ySum: Scalar, z: Scalar, x: Scalar, T1: SubPoint, T2: SubPoint,
                  t1: Scalar, t2: Scalar, tau1: Scalar, tau2: Scalar, tHat: Scalar, masks: Scalar, amounts: Scalar)
    requires Eq(T1, t1 * c.h + tau1) && Eq(T2, t2 * c.h + tau2)
    requires Eq(ZSum(z, 2, V, |V|), masks + amounts * c.h)
    requires tHat == (z - z * z) * ySum + amounts - ZSum(z, 3, Repeat(Sum(Twos()), m), m) + x * t1 + x * x * t2
    ensures Eq(Residual65(c, V, m, ySum, z, x, T1, T2, (tau2 * x + tau1) * x + masks, tHat), 0)
  {
    hide ZSum, Sum, Twos, Repeat, Eq;
    var twos := ZSum(z, 3, Repeat(Sum(Twos()), m), m);
    var v := ZSum(z, 2, V, |V|);
    var tauX := (tau2 * x + tau1) * x + masks;
    var lead := (tHat - (z - z * z) * ySum + twos) * c.h + tauX;
    EqScale(x, T1, t1 * c.h + tau1);
    EqScale(x * x, T2, t2 * c.h + tau2);
    EqFromMultiple(lead, lead, 0);
    EqAdd(lead, lead, v, masks + amounts * c.h);
    EqAdd(lead - v, lead - (masks + amounts * c.h), x * T1, x * (t1 * c.h + tau1));
    EqAdd(lead - v - x * T1, lead - (masks + amounts * c.h) - x * (t1 * c.h + tau1),
          x * x * T2, x * x * (t2 * c.h + tau2));
    Cancel65(tHat, (z - z * z) * ySum, twos, c.h, amounts, masks, x, t1, t2, tau1, tau2);
  }

  lemma Cancel65(tHat: int, yPart: int, twos: int, h: int, amounts: int, masks: int, x: int, t1: int, t2: int,
                 tau1: int, tau2: int)
    requires tHat == yPart + amounts - twos + x * t1 + x * x * t2
    ensures (tHat - yPart + twos) * h + ((tau2 * x + tau1) * x + masks) - (masks + amounts * h)
            - x * (t1 * h + tau1) - x * x * (t2 * h + tau2) == 0
  {
    assert (tHat - yPart + twos) * h == (amounts + x * t1 + x * x * t2) * h;
  }

  /** The honest prover's r, written without the powers of y that cancel against the generators. */
  function Unweighted(aR: Vector, sR: Vector, x: Scalar, z: Scalar, yInvPow: Vector, zTwos: Vector): (r: Vector)
    requires |aR| == |sR| == |yInvPow| == |zTwos|
    ensures |r| == |aR|
  {
    Plus(Lin(1, aR, x, sR), Shift(Times(yInvPow, zTwos), z))
  }

  lemma UnweightedAt(r: int, w: int, y: int, aR: int, sR: int, x: int, z: int, zTwos: int)
    requires Eq(y * w, 1)
    requires r == ((aR + z) * y + zTwos) + x * (sR * y)
    ensures Eq(r * w, (aR + x * sR) + (w * zTwos + z))
  {
    EqScale(aR + z + x * sR, y * w, 1);
    Spread(y, w, aR, sR, x, z, zTwos);
    EqAdd((aR + z + x * sR) * (y * w), (aR + z + x * sR) * 1, w * zTwos, w * zTwos);
  }

  lemma Spread(y: int, w: int, aR: int, sR: int, x: int, z: int, zTwos: int)
    ensures (((aR + z) * y + zTwos) + x * (sR * y)) * w == (aR + z + x * sR) * (y * w) + w * zTwos
  {
  }

  lemma HonestR(y: Scalar, yInv: Scalar, n: nat, aR: Vector, sR: Vector, x: Scalar, z: Scalar, zTwos: Vector)
    requires |aR| == |sR| == |zTwos| == n
    requires Eq(y * yInv, 1)
    ensures var r := Lin(1, R0(aR, z, PowVec(y, n), zTwos), x, Times(sR, PowVec(y, n)));
            EqVec(Times(r, PowVec(yInv, n)), Unweighted(aR, sR, x, z, PowVec(yInv, n), zTwos))
  {
    hide Eq, Pow;
    var r := Lin(1, R0(aR, z, PowVec(y, n), zTwos), x, Times(sR, PowVec(y, n)));
    forall i | 0 <= i < n
      ensures Eq(Times(r, PowVec(yInv, n))[i], Unweighted(aR, sR, x, z, PowVec(yInv, n), zTwos)[i])
    {
      PowInverse(y, yInv, i);
      UnweightedAt(r[i], Pow(yInv, i), Pow(y, i), aR[i], sR[i], x, z, zTwos[i]);
    }
  }

  lemma Honest66(c: Curve, g: Vector, h: Vector, aL: Vector, aR: Vector, blinds: Blinds, A: SubPoint, S: SubPoint,
                 y: Scalar, yInv: Scalar, z: Scalar, x: Scalar, xIp: Scalar, zTwos: Vector, l: Vector, r: Vector)
    requires var n := |g|;
             |h| == |aL| == |aR| == |blinds.sL| == |blinds.sR| == |zTwos| == n
    requires Eq(y * yInv, 1)
    requires Eq(A, blinds.alpha + Dot(aL, g) + Dot(aR, h))
    requires Eq(S, blinds.rho + Dot(blinds.sL, g) + Dot(blinds.sR, h))
    requires l == Lin(1, L0(aL, z), x, blinds.sL)
    requires r == Lin(1, R0(aR, z, PowVec(y, |g|), zTwos), x, Times(blinds.sR, PowVec(y, |g|)))
    ensures Eq(InnerPoint(c, g, h, A, S, z, x, xIp, PowVec(yInv, |g|), zTwos, Dot(l, r), blinds.alpha + blinds.rho * x),
               Ip.Relation(l, r, g, Times(h, PowVec(yInv, |g|)), xIp * c.h))
  {
    hide *;
    var yInvPow := PowVec(yInv, |g|);
    var zPart := Shift(Times(yInvPow, zTwos), z);
    HonestLDot(g, aL, blinds.sL, z, x);
    HonestR(y, yInv, |g|, aR, blinds.sR, x, z, zTwos);
    Ip.DotTimesRight(r, h, yInvPow);
    DotEq(Times(r, yInvPow), Unweighted(aR, blinds.sR, x, z, yInvPow, zTwos), h);
    UnweightedDot(aR, blinds.sR, x, z, yInvPow, zTwos, h);
    Balance66(A, S, blinds.alpha, blinds.rho, x, z * Sum(g), Dot(aL, g), Dot(aR, h), Dot(blinds.sL, g), Dot(blinds.sR, h),
              Dot(zPart, h), Dot(l, r), xIp, c.h, Dot(l, g), Dot(r, Times(h, yInvPow)));
    InnerPointIs(c, g, h, A, S, z, x, xIp, yInvPow, zTwos, Dot(l, r), blinds.alpha + blinds.rho * x);
    RelationIs(l, r, g, Times(h, yInvPow), xIp * c.h);
  }

  lemma InnerPointIs(c: Curve, g: Vector, h: Vector, A: SubPoint, S: SubPoint, z: Scalar, x: Scalar, xIp: Scalar,
                     yInvPow: Vector, zTwos: Vector, tHat: Scalar, mu: Scalar)
    requires |g| == |h| == |yInvPow| == |zTwos|
    ensures InnerPoint(c, g, h, A, S, z, x, xIp, yInvPow, zTwos, tHat, mu) ==
            A + x * S - z * Sum(g) + Dot(Shift(Times(yInvPow, zTwos), z), h) + xIp * tHat * c.h - mu
  {
  }

  lemma RelationIs(a: Vector, b: Vector, g: Vector, h: Vector, u: SubPoint)
    requires |a| == |b| == |g| == |h|
    ensures Ip.Relation(a, b, g, h, u) == Dot(a, g) + Dot(b, h) + Dot(a, b) * u
  {
  }

  lemma HonestLDot(g: Vector, aL: Vector, sL: Vector, z: Scalar, x: Scalar)
    requires |g| == |aL| == |sL|
    ensures Dot(Lin(1, L0(aL, z), x, sL), g) == Dot(aL, g) - z * Sum(g) + x * Dot(sL, g)
  {
    hide *;
    DotLin(1, L0(aL, z), x, sL, g);
    ShiftDot(aL, -z, g);
    L0Is(aL, z);
  }

  lemma L0Is(aL: Vector, z: Scalar)
    ensures L0(aL, z) == Shift(aL, -z)
  {
  }

  lemma UnweightedDot(aR: Vector, sR: Vector, x: Scalar, z: Scalar, yInvPow: Vector, zTwos: Vector, h: Vector)
    requires |aR| == |sR| == |yInvPow| == |zTwos| == |h|
    ensures Dot(Unweighted(aR, sR, x, z, yInvPow, zTwos), h) ==
            Dot(aR, h) + x * Dot(sR, h) + Dot(Shift(Times(yInvPow, zTwos), z), h)
  {
    hide Dot, Sum, Lin, Plus, Shift, Times;
    DotPlus(Lin(1, aR, x, sR), Shift(Times(yInvPow, zTwos), z), h);
    DotLin(1, aR, x, sR, h);
  }

  lemma Balance66(A: int, S: int, alpha: int, rho: int, x: int, zg: int, lg: int, rh: int, slg: int, srh: int,
                  zPart: int, tHat: int, xIp: int, h: int, lDot: int, rDot: int)
    requires Eq(A, alpha + lg + rh) && Eq(S, rho + slg + srh)
    requires lDot == lg - zg + x * slg
    requires Eq(rDot, rh + x * srh + zPart)
    ensures Eq(A + x * S - zg + zPart + xIp * tHat * h - (alpha + rho * x), lDot + rDot + tHat * (xIp * h))
  {
    hide Eq;
    var rest := zPart - zg + xIp * tHat * h - (alpha + rho * x);
    EqFromMultiple(rest, rest, 0);
    EqFromMultiple(lDot + tHat * (xIp * h), lDot + tHat * (xIp * h), 0);
    EqScale(x, S, rho + slg + srh);
    EqAdd(A, alpha + lg + rh, x * S, x * (rho + slg + srh));
    EqAdd(A + x * S, alpha + lg + rh + x * (rho + slg + srh), rest, rest);
    EqAdd(rDot, rh + x * srh + zPart, lDot + tHat * (xIp * h), lDot + tHat * (xIp * h));
    assert x * (rho + slg + srh) == x * rho + x * slg + x * srh;
    assert tHat * (xIp * h) == xIp * tHat * h;
    EqSymmetric(rDot + (lDot + tHat * (xIp * h)), rh + x * srh + zPart + (lDot + tHat * (xIp * h)));
    EqTransitive(A + x * S + rest, rh + x * srh + zPart + (lDot + tHat * (xIp * h)), rDot + (lDot + tHat * (xIp * h)));
  }

  // ---------------------------------------------------------------------------------------------
  // What it means for a proof to be valid.

  datatype Keys = Keys(y: Scalar, z: Scalar, x: Scalar, xIp: Scalar)

  function DeriveKeys(c: Curve, commitments: seq<Point>, proof: Proof): (keys: Keys)
    requires c.Valid()
    ensures !Eq(keys.y, 0)
  {
    var (y, z) := TranscriptAS(c, InitialTranscript(c, commitments), proof.A, proof.S);
    var x := TranscriptT12(c, z, proof.T1, proof.T2);
    Keys(y, z, x, TranscriptTauX(c, x, proof.tauX, proof.mu, proof.tHat))
  }

  /** The proof's points, with the cofactor cleared. */
  datatype Points = Points(A: SubPoint, S: SubPoint, T1: SubPoint, T2: SubPoint)

  function DecodePoints(c: Curve, proof: Proof): Option<Points> {
    match (c.Receive(proof.A), c.Receive(proof.S), c.Receive(proof.T1), c.Receive(proof.T2))
    case (Some(A), Some(S), Some(T1), Some(T2)) => Some(Points(A, S, T1, T2))
    case _ => None
  }

  function Equation65(c: Curve, commitments: seq<Point>, keys: Keys, points: Points, proof: Proof): SubPoint {
    var m := Padded(|commitments|);
    Residual65(c, Scaled(commitments), m, Sum(PowVec(keys.y, m * COMMITMENT_BITS)), keys.z, keys.x,
               points.T1, points.T2, proof.tauX, proof.tHat)
  }

  function Equation66(c: Curve, generators: Generators, m: nat, keys: Keys, points: Points, proof: Proof): SubPoint
    requires m * COMMITMENT_BITS <= |generators.G| && m * COMMITMENT_BITS <= |generators.H|
  {
    var n := m * COMMITMENT_BITS;
    InnerPoint(c, generators.G[..n], generators.H[..n], points.A, points.S, keys.z, keys.x, keys.xIp,
               PowVec(c.invert(keys.y), n), ZTwos(keys.z, 2, m), proof.tHat, proof.mu)
  }

  /** The paper's verification equations hold. */
  ghost predicate Holds(c: Curve, generators: Generators, commitments: seq<Point>, proof: Proof)
    requires c.Valid() && EnoughGenerators(generators) && IsStatement(commitments)
  {
    PaddedFits(|commitments|, generators);
    var m := Padded(|commitments|);
    var keys := DeriveKeys(c, commitments, proof);
    match DecodePoints(c, proof)
    case None => false
    case Some(points) =>
      && Eq(Equation65(c, commitments, keys, points, proof), 0)
      && var st := Ip.Start(generators, PowVec(c.invert(keys.y), m * COMMITMENT_BITS), m * COMMITMENT_BITS,
                            Equation66(c, generators, m, keys, points, proof), keys.xIp);
         Ip.Accepts(c, keys.xIp * c.h, st, proof.ip)
  }

  // ---------------------------------------------------------------------------------------------
  // The prover.

  method BitVector(openings: seq<Commitment>, m: nat) returns (res: Vector)
    requires |openings| <= m
    ensures res == AllBits(Amounts(openings), m)
  {
    var n := m * COMMITMENT_BITS;
    var aL := new Scalar[n](_ => 0);
    for i := 0 to |openings|
      invariant forall k :: 0 <= k < i * COMMITMENT_BITS ==> aL[k] == BitAt(Amounts(openings), k)
      invariant forall k :: i * COMMITMENT_BITS <= k < n ==> aL[k] == 0
    {
      var amount := openings[i].amount;
      for j := 0 to COMMITMENT_BITS
        invariant amount == openings[i].amount / Pow2(j)
        invariant forall k :: 0 <= k < i * COMMITMENT_BITS + j ==> aL[k] == BitAt(Amounts(openings), k)
        invariant forall k :: i * COMMITMENT_BITS + j <= k < n ==> aL[k] == 0
      {
        ghost var at := i * COMMITMENT_BITS + j;
        assert at / COMMITMENT_BITS == i && at % COMMITMENT_BITS == j;
        aL[i * COMMITMENT_BITS + j] := amount % 2;
        HalveAgain(openings[i].amount, j);
        amount := amount / 2;
      }
    }
    forall k | 0 <= k < n
      ensures aL[k] == BitAt(Amounts(openings), k)
    {
      if |openings| * COMMITMENT_BITS <= k {
        assert k / COMMITMENT_BITS >= |openings|;
      }
    }
    res := aL[..];
  }

  method AddZTwos(r: Vector, ghost s: Scalar, z: Vector, twos: Vector, m: nat) returns (res: Vector)
    requires |r| == m * COMMITMENT_BITS
    requires z == PowVec(s, 3 + m) && twos == Twos()
    ensures res == Plus(r, ZTwos(s, 2, m))
  {
    hide Pow, PowVec, ZTwosAt;
    ghost var zTwos := ZTwos(s, 2, m);
    var n := m * COMMITMENT_BITS;
    var a := new Scalar[n](k requires 0 <= k < n => r[k]);
    for j := 0 to m
      invariant forall k :: 0 <= k < j * COMMITMENT_BITS ==> a[k] == r[k] + zTwos[k]
      invariant forall k :: j * COMMITMENT_BITS <= k < n ==> a[k] == r[k]
    {
      for i := 0 to COMMITMENT_BITS
        invariant forall k :: 0 <= k < j * COMMITMENT_BITS + i ==> a[k] == r[k] + zTwos[k]
        invariant forall k :: j * COMMITMENT_BITS + i <= k < n ==> a[k] == r[k]
      {
        ZTwosRow(s, z, twos, m, j, i);
        a[j * COMMITMENT_BITS + i] := a[j * COMMITMENT_BITS + i] + z[2 + j] * twos[i];
      }
    }
    res := a[..];
  }

  /** A point blinded by a multiple of the base point, with a term for each bold generator. */
  method CommitVectors(c: Curve, generators: Generators, blind: Scalar, left: Vector, right: Vector)
    returns (data: seq<byte>)
    requires c.Valid()
    requires |left| == |right| <= |generators.G| == |generators.H|
    ensures var n := |left|;
            data == c.Transmit(blind + Dot(left, generators.G[..n]) + Dot(right, generators.H[..n]))
  {
    hide Dot, Msm, Zip;
    var n := |left|;
    var terms := [(blind, 1)] + Zip(left, generators.G[..n]) + Zip(right, generators.H[..n]);
    MsmSingle(blind, 1);
    MsmZip(left, generators.G[..n]);
    MsmZip(right, generators.H[..n]);
    MsmConcat([(blind, 1)], Zip(left, generators.G[..n]));
    MsmConcat([(blind, 1)] + Zip(left, generators.G[..n]), Zip(right, generators.H[..n]));
    data := c.Encode(8 * (Msm(terms) * INV_EIGHT));
  }

  method CommitScalar(c: Curve, value: Scalar, blind: Scalar) returns (data: seq<byte>)
    requires c.Valid()
    ensures data == c.Transmit(value * c.h + blind)
  {
    MsmPair(value * INV_EIGHT, c.h, blind * INV_EIGHT, 1);
    assert value * INV_EIGHT * c.h + blind * INV_EIGHT * 1 == (value * c.h + blind) * INV_EIGHT;
    data := c.Encode(8 * Msm([(value * INV_EIGHT, c.h), (blind * INV_EIGHT, 1)]));
  }

  method MaskSum(z: Vector, ghost s: Scalar, openings: seq<Commitment>, initial: Scalar) returns (res: Scalar)
    requires 2 + |openings| <= |z| && z == PowVec(s, |z|)
    ensures res == initial + ZSum(s, 2, Masks(openings), |openings|)
  {
    res := initial;
    for i := 0 to |openings|
      invariant res == initial + ZSum(s, 2, Masks(openings), i)
    {
      res := res + z[2 + i] * openings[i].mask;
    }
  }

  // The value of the polynomial at x.
  lemma PolynomialValue(l0: Vector, l1: Vector, r0: Vector, r1: Vector, x: Scalar)
    requires |l0| == |l1| == |r0| == |r1|
    ensures Dot(Lin(1, l0, x, l1), Lin(1, r0, x, r1)) ==
            Dot(l0, r0) + x * (Dot(l0, r1) + Dot(r0, l1)) + x * x * Dot(l1, r1)
  {
    hide *;
    DotCross(1, l0, x, l1, 1, r0, x, r1);
    DotComm(l1, r0);
    Polynomial(x, Dot(l0, r0), Dot(l0, r1), Dot(r0, l1), Dot(l1, r1));
  }

  lemma Polynomial(x: int, a: int, b: int, d: int, e: int)
    ensures 1 * (1 * a + x * b) + x * (1 * d + x * e) == a + x * (b + d) + x * x * e
  {
  }

  /** The prover's vectors. */
  datatype Run = Run(m: nat, keys: Keys, aL: Vector, l0: Vector, r0: Vector, r1: Vector, l: Vector, r: Vector)

  /** What the prover computes, in terms of the challenges derived from its own proof. */
  ghost predicate HonestRun(c: Curve, generators: Generators, commitments: seq<Point>, openings: seq<Commitment>,
                            blinds: Blinds, proof: Proof, run: Run)
    requires c.Valid() && EnoughGenerators(generators)
  {
    var keys := run.keys;
    var n := |run.aL|;
    && run.m == Padded(|openings|) && keys == DeriveKeys(c, commitments, proof)
    && run.aL == AllBits(Amounts(openings), run.m)
    && n <= |generators.G| && |blinds.sL| == |blinds.sR| == n
    && proof.A == c.Transmit(blinds.alpha + Dot(run.aL, generators.G[..n]) + Dot(Shift(run.aL, -1), generators.H[..n]))
    && proof.S == c.Transmit(blinds.rho + Dot(blinds.sL, generators.G[..n]) + Dot(blinds.sR, generators.H[..n]))
    && run.l0 == L0(run.aL, keys.z)
    && run.r0 == R0(Shift(run.aL, -1), keys.z, PowVec(keys.y, n), ZTwos(keys.z, 2, run.m))
    && run.r1 == Times(blinds.sR, PowVec(keys.y, n))
    && proof.T1 == c.Transmit((Dot(run.l0, run.r1) + Dot(run.r0, blinds.sL)) * c.h + blinds.tau1)
    && proof.T2 == c.Transmit(Dot(blinds.sL, run.r1) * c.h + blinds.tau2)
    && run.l == Lin(1, run.l0, keys.x, blinds.sL) && run.r == Lin(1, run.r0, keys.x, run.r1)
    && proof.tHat == Dot(run.l, run.r)
    && proof.tauX == (blinds.tau2 * keys.x + blinds.tau1) * keys.x + ZSum(keys.z, 2, Masks(openings), |openings|)
    && proof.mu == blinds.alpha + blinds.rho * keys.x
    && var st := Ip.Start(generators, PowVec(c.invert(keys.y), n), n, 0, keys.xIp);
       Ip.Accepts(c, keys.xIp * c.h, st.(P := Ip.Relation(run.l, run.r, st.g, st.h, keys.xIp * c.h)), proof.ip)
  }

  /** The proof is the one which these openings and blinds make. */
  ghost predicate MadeFrom(c: Curve, generators: Generators, commitments: seq<Point>, openings: seq<Commitment>, blinds: Blinds,
                           proof: Proof)
    requires c.Valid() && EnoughGenerators(generators)
  {
    exists run :: HonestRun(c, generators, commitments, openings, blinds, proof, run)
  }

  lemma HonestFirst(c: Curve, generators: Generators, commitments: seq<Point>, openings: seq<Commitment>,
                    blinds: Blinds, proof: Proof, run: Run)
    requires c.Valid() && EnoughGenerators(generators)
    requires Consistent(c, commitments, openings)
    requires forall i :: 0 <= i < |openings| ==> openings[i].amount < Pow2(COMMITMENT_BITS)
    requires HonestRun(c, generators, commitments, openings, blinds, proof, run)
    ensures DecodePoints(c, proof).Some?
    ensures Eq(Equation65(c, commitments, DeriveKeys(c, commitments, proof), DecodePoints(c, proof).value, proof), 0)
  {
    hide Dot, Sum, Lin, Times, Shift, PowVec, AllBits, ZTwos, ZSum, R0, L0, Eq, Masks, Amounts, Twos, Repeat, Pow2,
         Ip.Relation, Ip.Accepts, Residual65, Padded, DeriveKeys;
    var m := Padded(|openings|);
    var n := m * COMMITMENT_BITS;
    var keys := DeriveKeys(c, commitments, proof);
    var aL := AllBits(Amounts(openings), m);
    var aR := Shift(aL, -1);
    var l0, r0, r1 := run.l0, run.r0, run.r1;
    var t1 := Dot(l0, r1) + Dot(r0, blinds.sL);
    var t2 := Dot(blinds.sL, r1);
    TransmitReceive(c, blinds.alpha + Dot(aL, generators.G[..n]) + Dot(aR, generators.H[..n]));
    TransmitReceive(c, blinds.rho + Dot(blinds.sL, generators.G[..n]) + Dot(blinds.sR, generators.H[..n]));
    TransmitReceive(c, t1 * c.h + blinds.tau1);
    TransmitReceive(c, t2 * c.h + blinds.tau2);
    var points := DecodePoints(c, proof).value;
    ConsistentScaled(c, commitments, openings);
    PolynomialValue(l0, blinds.sL, r0, r1, keys.x);
    Honest65(c, Scaled(commitments), openings, m, PowVec(keys.y, n), keys.z, keys.x, points.T1, points.T2,
             t1, t2, blinds.tau1, blinds.tau2, proof.tHat);
  }

  lemma HonestSecond(c: Curve, generators: Generators, commitments: seq<Point>, openings: seq<Commitment>,
                     blinds: Blinds, proof: Proof, run: Run)
    requires c.Valid() && EnoughGenerators(generators)
    requires HonestRun(c, generators, commitments, openings, blinds, proof, run)
    requires DecodePoints(c, proof).Some?
    ensures var m := Padded(|openings|);
            var n := m * COMMITMENT_BITS;
            var keys := DeriveKeys(c, commitments, proof);
            var st := Ip.Start(generators, PowVec(c.invert(keys.y), n), n,
                               Equation66(c, generators, m, keys, DecodePoints(c, proof).value, proof), keys.xIp);
            Ip.Accepts(c, keys.xIp * c.h, st, proof.ip)
  {
    hide Dot, Sum, Lin, Times, Shift, PowVec, AllBits, ZTwos, ZSum, R0, L0, Eq, Masks, Amounts, Twos, Repeat, Pow2,
         Ip.Relation, Ip.Accepts, InnerPoint, Residual65, Padded, DeriveKeys;
    var m := Padded(|openings|);
    var n := m * COMMITMENT_BITS;
    var keys := DeriveKeys(c, commitments, proof);
    var aL := AllBits(Amounts(openings), m);
    var aR := Shift(aL, -1);
    var g, h := generators.G[..n], generators.H[..n];
    TransmitReceive(c, blinds.alpha + Dot(aL, g) + Dot(aR, h));
    TransmitReceive(c, blinds.rho + Dot(blinds.sL, g) + Dot(blinds.sR, h));
    var points := DecodePoints(c, proof).value;
    InverseWorks(c, keys.y);
    Honest66(c, g, h, aL, aR, blinds, points.A, points.S, keys.y, c.invert(keys.y), keys.z, keys.x, keys.xIp,
             ZTwos(keys.z, 2, m), run.l, run.r);
    var st := Ip.Start(generators, PowVec(c.invert(keys.y), n), n, 0, keys.xIp);
    var relation := Ip.Relation(run.l, run.r, st.g, st.h, keys.xIp * c.h);
    var inner := Equation66(c, generators, m, keys, points, proof);
    EqSymmetric(inner, relation);
    Ip.AcceptsCongruent(c, keys.xIp * c.h, st.(P := relation), inner, proof.ip);
  }

  lemma HonestHolds(c: Curve, generators: Generators, commitments: seq<Point>, openings: seq<Commitment>,
                    blinds: Blinds, proof: Proof, run: Run)
    requires c.Valid() && EnoughGenerators(generators)
    requires IsStatement(commitments) && Consistent(c, commitments, openings)
    requires forall i :: 0 <= i < |openings| ==> openings[i].amount < Pow2(COMMITMENT_BITS)
    requires HonestRun(c, generators, commitments, openings, blinds, proof, run)
    ensures Holds(c, generators, commitments, proof)
  {
    hide Eq, HonestRun, Equation65, Equation66, DecodePoints, DeriveKeys, Ip.Accepts, Padded, PowVec, Pow2;
    PaddedFits(|commitments|, generators);
    HonestFirst(c, generators, commitments, openings, blinds, proof, run);
    HonestSecond(c, generators, commitments, openings, blinds, proof, run);
  }

  /** The vectors of the polynomials l and r, and the commitments to the coefficients of their product. */
  method ProvePolynomial(c: Curve, y: Scalar, zScalar: Scalar, m: nat, aL: Vector, blinds: Blinds)
    returns (z: Vector, l0: Vector, r0: Vector, r1: Vector, T1: seq<byte>, T2: seq<byte>)
    requires c.Valid()
    requires m > 0 && |aL| == |blinds.sL| == |blinds.sR| == m * COMMITMENT_BITS
    ensures z == PowVec(zScalar, 3 + m)
    ensures l0 == L0(aL, zScalar)
    ensures r0 == R0(Shift(aL, -1), zScalar, PowVec(y, |aL|), ZTwos(zScalar, 2, m))
    ensures r1 == Times(blinds.sR, PowVec(y, |aL|))
    ensures T1 == c.Transmit((Dot(l0, r1) + Dot(r0, blinds.sL)) * c.h + blinds.tau1)
    ensures T2 == c.Transmit(Dot(blinds.sL, r1) * c.h + blinds.tau2)
  {
    hide Dot, Times, ZTwos, Shift, Plus;
    z := Powers(zScalar, 3 + m);
    var twos := Powers(2, COMMITMENT_BITS);
    assert z[1] == zScalar by { assert Pow(zScalar, 1) == zScalar; }
    var aR := Shift(aL, -1);

    l0 := Shift(aL, -z[1]);
    var yPow := Powers(y, |aR|);
    r0 := AddZTwos(Times(Shift(aR, z[1]), yPow), zScalar, z, twos, m);
    r1 := Times(blinds.sR, yPow);
    var t1 := Dot(l0, r1) + Dot(r0, blinds.sL);
    var t2 := Dot(blinds.sL, r1);

    T1 := CommitScalar(c, t1, blinds.tau1);
    T2 := CommitScalar(c, t2, blinds.tau2);
  }

  /** The inner-product argument at the end of the proof. */
  method ProveInner(c: Curve, generators: Generators, y: Scalar, xIp: Scalar, l: Vector, r: Vector)
    returns (ip: Ip.IpProof)
    requires c.Valid()
    requires |l| == |r| && exists k: nat :: |l| == Pow2(k)
    requires |l| <= |generators.G| && |l| <= |generators.H|
    ensures var st := Ip.Start(generators, PowVec(c.invert(y), |l|), |l|, 0, xIp);
            Ip.Accepts(c, xIp * c.h, st.(P := Ip.Relation(l, r, st.g, st.h, xIp * c.h)), ip)
  {
    hide Dot, Sum, Ip.Relation, Ip.Accepts;
    var yInvPow := Powers(c.invert(y), |l|);
    var w := Ip.NewWitness(l, r);
    var res := Ip.Prove(c, generators, Ip.IpStatement(yInvPow, xIp), xIp, w.value);
    ip := res.value;
  }

  lemma KeysOf(c: Curve, commitments: seq<Point>, proof: Proof, y: Scalar, z: Scalar, x: Scalar, xIp: Scalar)
    requires c.Valid()
    requires (y, z) == TranscriptAS(c, InitialTranscript(c, commitments), proof.A, proof.S)
    requires x == TranscriptT12(c, z, proof.T1, proof.T2)
    requires xIp == TranscriptTauX(c, x, proof.tauX, proof.mu, proof.tHat)
    ensures DeriveKeys(c, commitments, proof) == Keys(y, z, x, xIp)
  {
  }

  method Prove(c: Curve, generators: Generators, commitments: seq<Point>, openings: seq<Commitment>, blinds: Blinds)
    returns (res: Option<Proof>)
    requires c.Valid() && EnoughGenerators(generators)
    requires IsStatement(commitments) && IsStatement(openings)
    requires forall i :: 0 <= i < |openings| ==> openings[i].amount < Pow2(COMMITMENT_BITS)
    requires |blinds.sL| == |blinds.sR| == Padded(|openings|) * COMMITMENT_BITS
    ensures res.Some? <==> Consistent(c, commitments, openings)
    ensures res.Some? ==>
              Holds(c, generators, commitments, res.value) && MadeFrom(c, generators, commitments, openings, blinds, res.value)
  {
    hide Dot, Sum, Lin, Times, AllBits, ZTwos, ZSum, Eq, Masks, Amounts, Pow2, Plus, Shift, L0, R0, Ip.Start,
         Ip.Relation, Ip.Accepts, Padded, Holds, InitialTranscript, TranscriptTauX, TranscriptT12, TranscriptAS, PowVec,
         Ip.Replay, Scaled, Zip, Msm, Repeat, DeriveKeys, Curve.Transmit, Curve.Encode;
    if !Consistent(c, commitments, openings) {
      return None;
    }
    var transcript := InitialTranscript(c, commitments);
    var m := PadToPowerOf2(|openings|);
    var n := m * COMMITMENT_BITS;
    PaddedFits(|openings|, generators);

    var aL := BitVector(openings, m);
    var aR := Shift(aL, -1);
    var A := CommitVectors(c, generators, blinds.alpha, aL, aR);
    var S := CommitVectors(c, generators, blinds.rho, blinds.sL, blinds.sR);

    var yz := TranscriptAS(c, transcript, A, S);
    var y := yz.0;
    var zScalar := yz.1;
    transcript := yz.1;
    var z, l0, r0, r1, T1, T2 := ProvePolynomial(c, y, yz.1, m, aL, blinds);

    transcript := TranscriptT12(c, transcript, T1, T2);
    var x := transcript;

    var l := Lin(1, l0, x, blinds.sL);
    var r := Lin(1, r0, x, r1);
    var tHat := Dot(l, r);
    var tauX := MaskSum(z, zScalar, openings, (blinds.tau2 * x + blinds.tau1) * x);
    var mu := blinds.alpha + blinds.rho * x;

    transcript := TranscriptTauX(c, transcript, tauX, mu, tHat);
    PaddedRows(|openings|);
    var ip := ProveInner(c, generators, y, transcript, l, r);
    var proof := Proof(A, S, T1, T2, tauX, mu, tHat, ip);
    KeysOf(c, commitments, proof, y, zScalar, x, transcript);
    ghost var run := Run(m, Keys(y, zScalar, x, transcript), aL, l0, r0, r1, l, r);
    HonestHolds(c, generators, commitments, openings, blinds, proof, run);
    assert HonestRun(c, generators, commitments, openings, blinds, proof, run);
    res := Some(proof);
  }

  // ---------------------------------------------------------------------------------------------
  // The batch verifier.

  /** Makes room for the rows of this proof. */
  method Extend(verifier: InternalBatchVerifier, rows: nat, generators: Generators)
    requires |verifier.gBold| == |verifier.hBold| <= |generators.G| == |generators.H| && rows <= |generators.G|
    modifies verifier`gBold, verifier`hBold
    ensures |verifier.gBold| == |verifier.hBold| <= |generators.G|
    ensures rows <= |verifier.gBold| && old(|verifier.gBold|) <= |verifier.gBold|
    ensures forall gPoint, hPoint :: verifier.Eval(gPoint, hPoint, generators) == old(verifier.Eval(gPoint, hPoint, generators))
  {
    hide Dot, Sum, Msm;
    while |verifier.gBold| < rows
      invariant |verifier.gBold| == |verifier.hBold| <= |generators.G|
      invariant old(|verifier.gBold|) <= |verifier.gBold|
      invariant Dot(verifier.gBold, generators.G[..|verifier.gBold|]) ==
                old(Dot(verifier.gBold, generators.G[..|verifier.gBold|]))
      invariant Dot(verifier.hBold, generators.H[..|verifier.hBold|]) ==
                old(Dot(verifier.hBold, generators.H[..|verifier.hBold|]))
      decreases rows - |verifier.gBold|
    {
      ghost var k := |verifier.gBold|;
      DotSnoc(verifier.gBold, generators.G[..k], 0, generators.G[k]);
      DotSnoc(verifier.hBold, generators.H[..k], 0, generators.H[k]);
      assert generators.G[..k] + [generators.G[k]] == generators.G[..k + 1];
      assert generators.H[..k] + [generators.H[k]] == generators.H[..k + 1];
      verifier.gBold := verifier.gBold + [0];
      verifier.hBold := verifier.hBold + [0];
    }
  }

  method AddConstantG(verifier: InternalBatchVerifier, n: nat, s: Scalar)
    requires n <= |verifier.gBold|
    modifies verifier`gBold
    ensures |verifier.gBold| == old(|verifier.gBold|)
    ensures forall g :: |g| == |verifier.gBold| ==> Dot(verifier.gBold, g) == Dot(old(verifier.gBold), g) + s * Sum(g[..n])
  {
    hide *;
    ghost var before := verifier.gBold;
    for i := 0 to n
      invariant |verifier.gBold| == |before|
      invariant forall j :: 0 <= j < i ==> verifier.gBold[j] == before[j] + s
      invariant forall j :: i <= j < |before| ==> verifier.gBold[j] == before[j]
    {
      verifier.gBold := verifier.gBold[i := verifier.gBold[i] + s];
    }
    forall g | |g| == |before|
      ensures Dot(verifier.gBold, g) == Dot(before, g) + s * Sum(g[..n])
    {
      AddedDot(before, verifier.gBold, Constant(s, n), g);
      DotConstant(s, g[..n]);
    }
  }

  method AddConstantH(verifier: InternalBatchVerifier, n: nat, s: Scalar)
    requires n <= |verifier.hBold|
    modifies verifier`hBold
    ensures |verifier.hBold| == old(|verifier.hBold|)
    ensures forall h :: |h| == |verifier.hBold| ==> Dot(verifier.hBold, h) == Dot(old(verifier.hBold), h) + s * Sum(h[..n])
  {
    hide *;
    ghost var before := verifier.hBold;
    for i := 0 to n
      invariant |verifier.hBold| == |before|
      invariant forall j :: 0 <= j < i ==> verifier.hBold[j] == before[j] + s
      invariant forall j :: i <= j < |before| ==> verifier.hBold[j] == before[j]
    {
      verifier.hBold := verifier.hBold[i := verifier.hBold[i] + s];
    }
    forall h | |h| == |before|
      ensures Dot(verifier.hBold, h) == Dot(before, h) + s * Sum(h[..n])
    {
      AddedDot(before, verifier.hBold, Constant(s, n), h);
      DotConstant(s, h[..n]);
    }
  }

  method AddZTwosRows(rows: Vector, m: nat, weight: Scalar, yInvPow: Vector, ghost s: Scalar, z: Vector, twos: Vector)
    returns (res: Vector)
    requires |yInvPow| == m * COMMITMENT_BITS <= |rows|
    requires z == PowVec(s, 3 + m) && twos == Twos()
    ensures |res| == |rows|
    ensures PartlyAdded(rows, res, Scale(Times(yInvPow, ZTwos(s, 2, m)), weight), |yInvPow|)
  {
    assert COMMITMENT_BITS == 64;
    hide *;
    res := rows;
    ghost var terms := Scale(Times(yInvPow, ZTwos(s, 2, m)), weight);
    NoneAdded(rows, terms);
    for j := 0 to m
      invariant |res| == |rows| && PartlyAdded(rows, res, terms, j * 64)
    {
      for i := 0 to 64
        invariant |res| == |rows| && PartlyAdded(rows, res, terms, j * 64 + i)
      {
        var fullI := j * 64 + i;
        TermAt(weight, yInvPow, s, z, twos, m, j, i);
        AddOne(rows, res, terms, fullI);
        res := res[fullI := res[fullI] + RowTerm(weight, yInvPow[fullI], z[2 + j], twos[i])];
      }
    }
  }

  function RowTerm(weight: Scalar, yInv: Scalar, z: Scalar, two: Scalar): Scalar {
    weight * yInv * z * two
  }

  lemma TermAt(weight: Scalar, yInvPow: Vector, s: Scalar, z: Vector, twos: Vector, m: nat, j: nat, i: nat)
    requires |yInvPow| == m * COMMITMENT_BITS && j < m && i < 64
    requires z == PowVec(s, 3 + m) && twos == Twos()
    ensures Scale(Times(yInvPow, ZTwos(s, 2, m)), weight)[j * 64 + i] == RowTerm(weight, yInvPow[j * 64 + i], z[2 + j], twos[i])
  {
    var k := j * 64 + i;
    assert k / 64 == j && k % 64 == i;
    FourFactors(weight, yInvPow[k], z[2 + j], twos[i]);
  }

  lemma FourFactors(w: int, y: int, z: int, t: int)
    ensures y * (z * t) * w == w * y * z * t
  {
  }

  method QueueCommitments(verifier: InternalBatchVerifier, V: seq<SubPoint>, m: nat, ghost s: Scalar, z: Vector, weight: Scalar)
    requires |V| <= m && z == PowVec(s, 3 + m)
    modifies verifier`other
    ensures Msm(verifier.other) == old(Msm(verifier.other)) + weight * ZSum(s, 2, V, |V|)
  {
    hide Msm, ZSum;
    ZSumEmpty(s, 2, V);
    for i := 0 to |V|
      invariant Msm(verifier.other) == old(Msm(verifier.other)) + weight * ZSum(s, 2, V, i)
    {
      MsmSnoc(verifier.other, weight * z[2 + i], V[i]);
      ZSumStep(s, 2, V, i + 1);
      ThreeFactors(weight, ZSum(s, 2, V, i), z[2 + i], V[i]);
      verifier.other := verifier.other + [(weight * z[2 + i], V[i])];
    }
  }

  method SubtractTwos(verifier: InternalBatchVerifier, m: nat, ghost s: Scalar, z: Vector, weight: Scalar, twosSum: Scalar)
    requires z == PowVec(s, 3 + m)
    modifies verifier`h
    ensures verifier.h == old(verifier.h) - weight * ZSum(s, 3, Repeat(twosSum, m), m)
  {
    hide ZSum;
    ghost var sums := Repeat(twosSum, m);
    ZSumEmpty(s, 3, sums);
    for i := 0 to m
      invariant verifier.h == old(verifier.h) - weight * ZSum(s, 3, sums, i)
    {
      ZSumStep(s, 3, sums, i + 1);
      ThreeFactors(weight, ZSum(s, 3, sums, i), z[3 + i], twosSum);
      verifier.h := verifier.h - weight * z[3 + i] * twosSum;
    }
  }

  method Queue65(c: Curve, verifier: InternalBatchVerifier, V: seq<SubPoint>, m: nat, ySum: Scalar, ghost s: Scalar,
                 z: Vector, twosSum: Scalar, x: Scalar, T1: SubPoint, T2: SubPoint, tauX: Scalar, tHat: Scalar,
                 weight: Scalar)
    requires |V| <= m && z == PowVec(s, 3 + m) && twosSum == Sum(Twos())
    modifies verifier`g, verifier`h, verifier`other
    ensures verifier.g * 1 + verifier.h * c.h + Msm(verifier.other) ==
            old(verifier.g * 1 + verifier.h * c.h + Msm(verifier.other)) +
            weight * Residual65(c, V, m, ySum, s, x, T1, T2, tauX, tHat)
  {
    hide Msm, Sum, PowVec, Twos, Residual65, ZSum, Repeat;
    verifier.h := verifier.h + weight * tHat;
    verifier.g := verifier.g + weight * tauX;
    var negated := -weight;
    verifier.h := verifier.h + negated * (z[1] - z[2]) * ySum;
    QueueCommitments(verifier, V, m, s, z, negated);
    SubtractTwos(verifier, m, s, z, negated, twosSum);
    MsmSnoc(verifier.other, negated * x, T1);
    verifier.other := verifier.other + [(negated * x, T1)];
    MsmSnoc(verifier.other, negated * (x * x), T2);
    verifier.other := verifier.other + [(negated * (x * x), T2)];
    assert z[1] == s && z[2] == s * s by { FirstPowers(s, z, 3 + m); }
    Sum65(c, V, m, ySum, s, x, T1, T2, tauX, tHat, weight, old(verifier.g), old(verifier.h), old(Msm(verifier.other)),
          ZSum(s, 2, V, |V|), ZSum(s, 3, Repeat(twosSum, m), m));
  }

  lemma FirstPowers(s: Scalar, z: Vector, n: nat)
    requires n >= 3 && z == PowVec(s, n)
    ensures z[1] == s && z[2] == s * s
  {
    assert Pow(s, 0) == 1 && Pow(s, 1) == s && Pow(s, 2) == s * s;
  }

  lemma ThreeFactors(w: int, sum: int, a: int, b: int)
    ensures w * (sum + a * b) == w * sum + w * a * b
  {
  }

  lemma Sum65(c: Curve, V: seq<SubPoint>, m: nat, ySum: Scalar, z: Scalar, x: Scalar, T1: SubPoint, T2: SubPoint,
              tauX: Scalar, tHat: Scalar, w: Scalar, g: Scalar, h: Scalar, msm: int, vs: int, twos: int)
    requires vs == ZSum(z, 2, V, |V|) && twos == ZSum(z, 3, Repeat(Sum(Twos()), m), m)
    ensures (g + w * tauX) * 1 + (h + w * tHat + -w * (z - z * z) * ySum - -w * twos) * c.h +
            (msm + -w * vs + -w * x * T1 + -w * (x * x) * T2) ==
            (g * 1 + h * c.h + msm) + w * Residual65(c, V, m, ySum, z, x, T1, T2, tauX, tHat)
  {
    hide ZSum, Sum, Twos, Repeat;
    Expand65(c.h, ySum, z, x, T1, T2, tauX, tHat, w, g, h, msm, vs, twos);
  }

  lemma Expand65(hp: int, ySum: int, z: int, x: int, T1: int, T2: int, tauX: int, tHat: int, w: int, g: int, h: int,
                 msm: int, vs: int, twos: int)
    ensures (g + w * tauX) * 1 + (h + w * tHat + -w * (z - z * z) * ySum - -w * twos) * hp +
            (msm + -w * vs + -w * x * T1 + -w * (x * x) * T2) ==
            (g * 1 + h * hp + msm) + w * ((tHat - (z - z * z) * ySum + twos) * hp + tauX - vs - x * T1 - x * x * T2)
  {
    var yz := (z - z * z) * ySum;
    assert -w * (z - z * z) * ySum == -w * yz;
    assert w * ((tHat - yz + twos) * hp) == (w * tHat - w * yz + w * twos) * hp;
  }

  method Queue66(c: Curve, verifier: InternalBatchVerifier, generators: Generators, m: nat, ghost s: Scalar, z: Vector,
                 twos: Vector, yInvPow: Vector, keys: Keys, points: Points, tHat: Scalar, mu: Scalar, weight: Scalar)
    requires m * COMMITMENT_BITS == |yInvPow| <= |verifier.gBold| == |verifier.hBold| <= |generators.G| == |generators.H|
    requires z == PowVec(s, 3 + m) && twos == Twos() && keys.z == s
    modifies verifier
    ensures |verifier.gBold| == |verifier.hBold| == old(|verifier.gBold|)
    ensures var n := m * COMMITMENT_BITS;
            verifier.Eval(1, c.h, generators) == old(verifier.Eval(1, c.h, generators)) +
            weight * InnerPoint(c, generators.G[..n], generators.H[..n], points.A, points.S, s, keys.x, keys.xIp,
                                yInvPow, ZTwos(s, 2, m), tHat, mu)
  {
    hide Dot, Msm, Sum, ZTwos, Times, Shift, PowVec, Twos, PartlyAdded, Scale, InnerPoint;
    ghost var n := |yInvPow|;
    ghost var g, h := generators.G[..|verifier.gBold|], generators.H[..|verifier.hBold|];
    assert g[..n] == generators.G[..n] && h[..n] == generators.H[..n];
    MsmSnoc(verifier.other, weight, points.A);
    verifier.other := verifier.other + [(weight, points.A)];
    MsmSnoc(verifier.other, weight * keys.x, points.S);
    verifier.other := verifier.other + [(weight * keys.x, points.S)];
    var ipZ := weight * z[1];
    AddConstantH(verifier, |yInvPow|, ipZ);
    AddConstantG(verifier, |yInvPow|, -ipZ);
    ghost var before := verifier.hBold;
    verifier.hBold := AddZTwosRows(verifier.hBold, m, weight, yInvPow, s, z, twos);
    AllAdded(before, verifier.hBold, Times(yInvPow, ZTwos(s, 2, m)), weight, n, h);
    verifier.h := verifier.h + weight * keys.xIp * tHat;
    verifier.g := verifier.g + weight * -mu;
    FirstPowers(s, z, 3 + m);
    Sum66(c, g[..n], h[..n], points, s, keys.x, keys.xIp, yInvPow, ZTwos(s, 2, m), tHat, mu, weight,
          old(verifier.g), old(verifier.h));
  }

  lemma Sum66(c: Curve, g: Vector, h: Vector, points: Points, z: Scalar, x: Scalar, xIp: Scalar, yInvPow: Vector,
              zTwos: Vector, tHat: Scalar, mu: Scalar, w: Scalar, gScalar: Scalar, hScalar: Scalar)
    requires |g| == |h| == |yInvPow| == |zTwos|
    ensures (gScalar * 1 + hScalar * c.h) +
            w * InnerPoint(c, g, h, points.A, points.S, z, x, xIp, yInvPow, zTwos, tHat, mu) ==
            (gScalar + w * -mu) * 1 + (hScalar + w * xIp * tHat) * c.h + w * points.A + w * x * points.S
            + w * z * Sum(h) + -(w * z) * Sum(g) + w * Dot(Times(yInvPow, zTwos), h)
  {
    hide Dot, Sum, Times, Shift;
    ShiftDot(Times(yInvPow, zTwos), z, h);
    Expand66(w, gScalar, hScalar, c.h, points.A, points.S, x, z, Sum(g), Sum(h), Dot(Times(yInvPow, zTwos), h), xIp, tHat, mu);
  }

  lemma Expand66(w: int, g: int, hs: int, hp: int, A: int, S: int, x: int, z: int, sg: int, sh: int, d: int, xIp: int,
                 tHat: int, mu: int)
    ensures (g * 1 + hs * hp) + w * (A + x * S - z * sg + (d + z * sh) + xIp * tHat * hp - mu) ==
            (g + w * -mu) * 1 + (hs + w * xIp * tHat) * hp + w * A + w * x * S + w * z * sh + -(w * z) * sg + w * d
  {
  }

  /** The proof has the right shape and all of its points decode; nothing is said about its validity. */
  ghost predicate WellFormed(c: Curve, commitments: seq<Point>, proof: Proof) {
    && DecodePoints(c, proof).Some?
    && Ip.IsLog(|proof.ip.L|, Padded(|commitments|) * COMMITMENT_BITS)
    && |proof.ip.L| == |proof.ip.R|
    && Ip.Decodable(c, proof.ip.L) && Ip.Decodable(c, proof.ip.R)
  }

  /** Equations 66 to 68: the inner-product argument's point and what its verification adds. */
  function Equation68(c: Curve, generators: Generators, m: nat, keys: Keys, points: Points, proof: Proof): SubPoint
    requires c.Valid()
    requires m * COMMITMENT_BITS <= |generators.G| && m * COMMITMENT_BITS <= |generators.H|
    requires |proof.ip.L| == |proof.ip.R| && m * COMMITMENT_BITS <= Pow2(|proof.ip.L|)
  {
    Equation66(c, generators, m, keys, points, proof) +
    Ip.Residual(c, generators, m * COMMITMENT_BITS,
                Ip.IpStatement(PowVec(c.invert(keys.y), m * COMMITMENT_BITS), keys.xIp),
                Ip.Challenges(c, keys.xIp, proof.ip.L, proof.ip.R), proof.ip)
  }

  /** The point the queued proof adds to the batch. */
  ghost function Effect(c: Curve, generators: Generators, commitments: seq<Point>, proof: Proof,
                        weight: Scalar, ipWeight: Scalar): SubPoint
    requires c.Valid() && EnoughGenerators(generators) && IsStatement(commitments)
    requires WellFormed(c, commitments, proof)
  {
    PaddedFits(|commitments|, generators);
    var keys := DeriveKeys(c, commitments, proof);
    var points := DecodePoints(c, proof).value;
    Weighted(weight, Equation65(c, commitments, keys, points, proof),
             ipWeight, Equation68(c, generators, Padded(|commitments|), keys, points, proof))
  }

  function Weighted(w: Scalar, a: SubPoint, v: Scalar, b: SubPoint): SubPoint {
    w * a + v * b
  }

  method Verify(c: Curve, verifier: InternalBatchVerifier, generators: Generators, commitments: seq<Point>,
                proof: Proof, weight: Scalar, ipWeight: Scalar)
    returns (ok: bool)
    requires c.Valid() && ValidBatch(verifier, generators)
    requires IsStatement(commitments)
    modifies verifier
    ensures ValidBatch(verifier, generators)
    ensures ok <==> WellFormed(c, commitments, proof)
    ensures ok ==> verifier.Eval(1, c.h, generators) ==
                   old(verifier.Eval(1, c.h, generators)) + Effect(c, generators, commitments, proof, weight, ipWeight)
  {
    hide Dot, Msm, Sum, Times, ZTwos, PowVec, Twos, Scaled, Padded, Pow2, Ip.Residual, Ip.Challenges, Ip.IsLog, Ip.Decodable,
         InnerPoint, Residual65, InitialTranscript, TranscriptAS, TranscriptT12, TranscriptTauX, Pow, ZSum, Shift, Plus, Lin,
         Ip.Cross, Coefficients, Reverse, Repeat, Eq, PaddedLog, Effect, DeriveKeys, Equation65, Equation68;
    var m := PadToPowerOf2(|commitments|);
    var ipRows := m * COMMITMENT_BITS;
    PaddedFits(|commitments|, generators);
    Extend(verifier, ipRows, generators);

    var yz := TranscriptAS(c, InitialTranscript(c, commitments), proof.A, proof.S);
    var y := yz.0;
    var z := Powers(yz.1, 3 + m);
    var x := TranscriptT12(c, yz.1, proof.T1, proof.T2);
    var xIp := TranscriptTauX(c, x, proof.tauX, proof.mu, proof.tHat);
    var keys := Keys(y, yz.1, x, xIp);

    var decoded := DecodePoints(c, proof);
    if decoded.None? {
      return false;
    }
    var points := decoded.value;
    var yPow := Powers(y, ipRows);
    var yInvPow := Powers(c.invert(y), ipRows);
    var twos := Powers(2, COMMITMENT_BITS);
    TwosIs();

    ghost var start := verifier.Eval(1, c.h, generators);
    Queue65(c, verifier, Scaled(commitments), m, Sum(yPow), yz.1, z, Sum(twos), x, points.T1, points.T2,
            proof.tauX, proof.tHat, weight);
    ghost var a := Residual65(c, Scaled(commitments), m, Sum(yPow), yz.1, x, points.T1, points.T2, proof.tauX, proof.tHat);
    assert verifier.Eval(1, c.h, generators) == start + weight * a;
    Queue66(c, verifier, generators, m, yz.1, z, twos, yInvPow, keys, points, proof.tHat, proof.mu, ipWeight);
    var res := Ip.Verify(c, verifier, generators, ipRows, Ip.IpStatement(yInvPow, xIp), xIp, ipWeight, proof.ip);
    assert res.Err? ==> res.error.IncorrectAmountOfGenerators? || res.error.DifferingLrLengths? || res.error.InvalidPoint?;
    ok := res.Ok?;
    KeysOf(c, commitments, proof, y, yz.1, x, xIp);
    if ok {
      EffectIs(c, generators, commitments, proof, weight, ipWeight, keys, points, m, a);
    }
  }

  // The three contributions of a queued proof.
  lemma EffectIs(c: Curve, generators: Generators, commitments: seq<Point>, proof: Proof, weight: Scalar, ipWeight: Scalar,
                 keys: Keys, points: Points, m: nat, a: SubPoint)
    requires c.Valid() && EnoughGenerators(generators) && IsStatement(commitments)
    requires WellFormed(c, commitments, proof)
    requires keys == DeriveKeys(c, commitments, proof) && Some(points) == DecodePoints(c, proof) && m == Padded(|commitments|)
    requires a == Residual65(c, Scaled(commitments), m, Sum(PowVec(keys.y, m * COMMITMENT_BITS)), keys.z, keys.x,
                             points.T1, points.T2, proof.tauX, proof.tHat)
    ensures m * COMMITMENT_BITS <= |generators.G| && m * COMMITMENT_BITS <= Pow2(|proof.ip.L|)
    ensures var n := m * COMMITMENT_BITS;
            Effect(c, generators, commitments, proof, weight, ipWeight) ==
            weight * a + ipWeight * InnerPoint(c, generators.G[..n], generators.H[..n], points.A, points.S, keys.z, keys.x,
                                               keys.xIp, PowVec(c.invert(keys.y), n), ZTwos(keys.z, 2, m), proof.tHat,
                                               proof.mu)
            + ipWeight * Ip.Residual(c, generators, n, Ip.IpStatement(PowVec(c.invert(keys.y), n), keys.xIp),
                                     Ip.Challenges(c, keys.xIp, proof.ip.L, proof.ip.R), proof.ip)
  {
    hide Sum, PowVec, Scaled, Padded, Pow2, Ip.Residual, Ip.Challenges, Ip.Decodable, InnerPoint, Residual65, DeriveKeys, ZTwos;
    PaddedFits(|commitments|, generators);
  }

  lemma TwosIs()
    ensures Twos() == PowVec(2, COMMITMENT_BITS)
  {
  }

  // Validity, with the inner-product argument's acceptance written as one sum.
  lemma HoldsIffEquations(c: Curve, generators: Generators, commitments: seq<Point>, proof: Proof)
    requires c.Valid() && EnoughGenerators(generators) && IsStatement(commitments)
    ensures var m := Padded(|commitments|);
            m * COMMITMENT_BITS <= |generators.G|
    ensures WellFormed(c, commitments, proof) ==> |proof.ip.L| == |proof.ip.R| &&
                                                  Padded(|commitments|) * COMMITMENT_BITS <= Pow2(|proof.ip.L|)
    ensures Holds(c, generators, commitments, proof) <==>
            && WellFormed(c, commitments, proof)
            && var keys := DeriveKeys(c, commitments, proof);
               var points := DecodePoints(c, proof).value;
            && Eq(Equation65(c, commitments, keys, points, proof), 0)
            && Eq(Equation68(c, generators, Padded(|commitments|), keys, points, proof), 0)
  {
    hide Eq, Ip.Residual, Ip.Challenges, PowVec, Padded, DeriveKeys, Ip.Replay, Ip.Relation, Ip.Decodable,
         Equation65, Equation66, Pow2, DecodePoints;
    var m := Padded(|commitments|);
    var n := m * COMMITMENT_BITS;
    PaddedFits(|commitments|, generators);
    PaddedRows(|commitments|);
    Ip.LogOfPow2(|proof.ip.L|, PaddedLog(|commitments|, 0) + 6);
    var keys := DeriveKeys(c, commitments, proof);
    if DecodePoints(c, proof).Some? && |proof.ip.L| == |proof.ip.R| {
      if n == Pow2(|proof.ip.L|) {
        var e66 := Equation66(c, generators, m, keys, DecodePoints(c, proof).value, proof);
        var statement := Ip.IpStatement(PowVec(c.invert(keys.y), n), keys.xIp);
        var challenges := Ip.Challenges(c, keys.xIp, proof.ip.L, proof.ip.R);
        Ip.LogOfPow2(|proof.ip.L|, |proof.ip.L|);
        Ip.AcceptsIffResidualCancels(c, generators, n, statement, e66, keys.xIp, proof.ip, challenges);
      }
    }
  }

  // A proof is valid exactly when queueing it leaves the batch's sum unchanged, whatever the weights.
  lemma HoldsIffNoEffect(c: Curve, generators: Generators, commitments: seq<Point>, proof: Proof)
    requires c.Valid() && EnoughGenerators(generators) && IsStatement(commitments)
    ensures Holds(c, generators, commitments, proof) <==>
            && WellFormed(c, commitments, proof)
            && forall weight, ipWeight :: Eq(Effect(c, generators, commitments, proof, weight, ipWeight), 0)
  {
    hide Eq, Holds, Ip.IsLog, Ip.Decodable, Equation65, Equation68, DeriveKeys, DecodePoints, Padded, Pow2;
    HoldsIffEquations(c, generators, commitments, proof);
    if WellFormed(c, commitments, proof) {
      var keys := DeriveKeys(c, commitments, proof);
      var points := DecodePoints(c, proof).value;
      var a := Equation65(c, commitments, keys, points, proof);
      var b := Equation68(c, generators, Padded(|commitments|), keys, points, proof);
      forall weight, ipWeight
        ensures Effect(c, generators, commitments, proof, weight, ipWeight) == Weighted(weight, a, ipWeight, b)
      {
      }
      if forall weight, ipWeight :: Eq(Effect(c, generators, commitments, proof, weight, ipWeight), 0) {
        forall weight, ipWeight
          ensures Eq(Weighted(weight, a, ipWeight, b), 0)
        {
          assert Eq(Effect(c, generators, commitments, proof, weight, ipWeight), 0);
        }
      }
      WeightsApart(a, b);
    }
  }

  /** The two equations of a well-formed proof, as the points which are to vanish. */
  ghost function EffectParts(c: Curve, generators: Generators, commitments: seq<Point>, proof: Proof): (SubPoint, SubPoint)
    requires c.Valid() && EnoughGenerators(generators) && IsStatement(commitments) && WellFormed(c, commitments, proof)
  {
    PaddedFits(|commitments|, generators);
    var keys := DeriveKeys(c, commitments, proof);
    var points := DecodePoints(c, proof).value;
    (Equation65(c, commitments, keys, points, proof),
     Equation68(c, generators, Padded(|commitments|), keys, points, proof))
  }

  lemma EffectIsWeighted(c: Curve, generators: Generators, commitments: seq<Point>, proof: Proof, weight: Scalar,
                         ipWeight: Scalar)
    requires c.Valid() && EnoughGenerators(generators) && IsStatement(commitments) && WellFormed(c, commitments, proof)
    ensures var (a, b) := EffectParts(c, generators, commitments, proof);
            Effect(c, generators, commitments, proof, weight, ipWeight) == weight * a + ipWeight * b
  {
    hide Ip.IsLog, Ip.Decodable, Equation65, Equation68, DeriveKeys, DecodePoints, Padded, Pow2;
  }

  lemma HoldsIffParts(c: Curve, generators: Generators, commitments: seq<Point>, proof: Proof)
    requires c.Valid() && EnoughGenerators(generators) && IsStatement(commitments) && WellFormed(c, commitments, proof)
    ensures var (a, b) := EffectParts(c, generators, commitments, proof);
            Holds(c, generators, commitments, proof) <==> Eq(a, 0) && Eq(b, 0)
  {
    hide Eq, Holds, Ip.IsLog, Ip.Decodable, Equation65, Equation68, DeriveKeys, DecodePoints, Padded, Pow2;
    HoldsIffEquations(c, generators, commitments, proof);
  }

  lemma WeightsApart(a: int, b: int)
    ensures Eq(a, 0) && Eq(b, 0) <==> forall w, v :: Eq(Weighted(w, a, v, b), 0)
  {
    hide Eq;
    if Eq(a, 0) && Eq(b, 0) {
      forall w, v
        ensures Eq(Weighted(w, a, v, b), 0)
      {
        EqScale(w, a, 0);
        EqScale(v, b, 0);
        EqAdd(w * a, w * 0, v * b, v * 0);
      }
    }
    if forall w, v :: Eq(Weighted(w, a, v, b), 0) {
      assert Eq(Weighted(1, a, 0, b), 0) && Eq(Weighted(0, a, 1, b), 0);
    }
  }
}
