/**
wallet/src/send and ringct: the proofs of a signed transaction, as whoever receives it reads them. They are the bytes of
canonical scalars and of points, and they are valid as they are read.
 */
module TransactionProofs {
  import opened Wrappers
  import opened PowersOfTwo
  import opened Ed25519
  import opened Vectors
  import opened Accumulator
  import opened RangeAlgebra
  import Orig = OriginalRangeProof
  import Bpp = PlusRangeProof
  import Ip = InnerProduct
  import Wip = WeightedInnerProduct
  import Bulletproofs
  import RangeProofAnswers
  import Clsag
  import ClsagDecoys
  import Tx = Transactions
  import TransactionSizes
  import Fee
  import TransactionHashes
  import Send = SendAmounts
  import SignedTransactions

  // ---------------------------------------------------------------------------------------------
  // What is read.

  /** `Clsag::read` */
  function ReadClsag(clsag: Tx.Clsag): Clsag.Signature {
    Clsag.Signature(clsag.D, seq(|clsag.s|, i requires 0 <= i < |clsag.s| => LittleEndian(clsag.s[i])), LittleEndian(clsag.c1))
  }

  /** `Bulletproof::read` and `Bulletproof::read_plus` */
  function ReadBulletproof(bp: Tx.Bulletproof): Bulletproofs.Bulletproof {
    match bp
    case Original(A, S, T1, T2, tauX, mu, ls, rs, a, b, tHat) =>
      Bulletproofs.Original(Orig.Proof(A, S, T1, T2, LittleEndian(tauX), LittleEndian(mu), LittleEndian(tHat),
                                       Ip.IpProof(ls, rs, LittleEndian(a), LittleEndian(b))))
    case Plus(A, wipA, wipB, rAnswer, sAnswer, deltaAnswer, ls, rs) =>
      Bulletproofs.Plus(Bpp.Proof(A, Wip.WipProof(ls, rs, wipA, wipB, LittleEndian(rAnswer), LittleEndian(sAnswer),
                                                  LittleEndian(deltaAnswer))))
  }

  // ---------------------------------------------------------------------------------------------
  // Signatures.

  lemma SameStep(c: Curve, st: Clsag.Statement, response: Scalar, response': Scalar, i: nat, challenge: Scalar, challenge': Scalar)
    requires c.Valid() && i < |st.ring| && Red(response) == Red(response') && Red(challenge) == Red(challenge')
    ensures Clsag.Step(c, st, response, i, challenge) == Clsag.Step(c, st, response', i, challenge')
  {
    hide Clsag.MuP, Clsag.MuC, Clsag.RoundHash, Red, Curve.Valid;
    EqScale(Clsag.MuP(c, st), challenge, challenge');
    EqScale(Clsag.MuC(c, st), challenge, challenge');
  }

  // Only the residues of a signature's scalars count.
  lemma {:induction false} SameWalk(c: Curve, st: Clsag.Statement, s: seq<Scalar>, s': seq<Scalar>, count: nat, challenge: Scalar,
                                    challenge': Scalar)
    requires c.Valid() && |st.ring| == |s| == |s'| > 0 && Red(challenge) == Red(challenge')
    requires forall i :: 0 <= i < |s| ==> Red(s[i]) == Red(s'[i])
    ensures Red(Clsag.Walk(c, st, s, 0, count, challenge)) == Red(Clsag.Walk(c, st, s', 0, count, challenge'))
  {
    hide Clsag.Step, Red;
    if count > 0 {
      SameWalk(c, st, s, s', count - 1, challenge, challenge');
      var i := (0 + count - 1) % |s|;
      SameStep(c, st, s[i], s'[i], i, Clsag.Walk(c, st, s, 0, count - 1, challenge),
               Clsag.Walk(c, st, s', 0, count - 1, challenge'));
    }
  }

  // A signature as it is read from what was written of it has the verdict of the signature.
  lemma ReadVerdict(c: Curve, signature: Clsag.Signature, ring: seq<(seq<byte>, seq<byte>)>, I: seq<byte>, pseudoOut: seq<byte>,
                    msg: seq<byte>)
    requires c.Valid()
    ensures Clsag.Verdict(c, ReadClsag(SignedTransactions.ClsagBytes(c, signature)), ring, I, pseudoOut, msg) ==
            Clsag.Verdict(c, signature, ring, I, pseudoOut, msg)
  {
    hide Clsag.Walk, Red, Clsag.IsKeyImage, Clsag.IsIdentity;
    var read := ReadClsag(SignedTransactions.ClsagBytes(c, signature));
    forall i | 0 <= i < |signature.s|
      ensures Red(read.s[i]) == Red(signature.s[i])
    {
      RedEq(signature.s[i]);
    }
    RedEq(signature.c1);
    if |ring| == |signature.s| && Clsag.DecodeRing(c, ring).Some? && c.decompress(I).Some? && c.decompress(pseudoOut).Some? &&
       c.decompress(signature.D).Some? && ring != [] {
      var st := Clsag.Statement(Clsag.DecodeRing(c, ring).value, c.decompress(I).value, c.decompress(pseudoOut).value, msg,
                                8 * c.decompress(signature.D).value, signature.D);
      SameWalk(c, st, read.s, signature.s, |signature.s|, read.c1, signature.c1);
    }
  }

  // ---------------------------------------------------------------------------------------------
  // Range proofs.

  /** The proof with the residues of its answers. */
  function ReducedOriginal(p: Orig.Proof): Orig.Proof {
    p.(tauX := Red(p.tauX), mu := Red(p.mu), tHat := Red(p.tHat), ip := p.ip.(a := Red(p.ip.a), b := Red(p.ip.b)))
  }

  function ReducedPlus(p: Bpp.Proof): Bpp.Proof {
    p.(wip := p.wip.(rAnswer := Red(p.wip.rAnswer), sAnswer := Red(p.wip.sAnswer), deltaAnswer := Red(p.wip.deltaAnswer)))
  }

  lemma ReadIsReduced(c: Curve, p: Bulletproofs.Bulletproof)
    requires c.Valid()
    ensures ReadBulletproof(SignedTransactions.BulletproofBytes(c, p)) ==
            match p
            case Original(bp) => Bulletproofs.Original(ReducedOriginal(bp))
            case Plus(bp) => Bulletproofs.Plus(ReducedPlus(bp))
  {
    hide Red;
  }

  lemma SameScalar(c: Curve, s: Scalar)
    requires c.Valid()
    ensures c.EncodeScalar(Red(s)) == c.EncodeScalar(s)
  {
    RedEq(s);
  }

  lemma SameKeys(c: Curve, V: seq<Point>, p: Orig.Proof)
    requires c.Valid()
    ensures Orig.DeriveKeys(c, V, ReducedOriginal(p)) == Orig.DeriveKeys(c, V, p)
  {
    hide Orig.InitialTranscript, Orig.TranscriptAS, Orig.TranscriptT12, Red, Curve.EncodeScalar;
    SameScalar(c, p.tauX);
    SameScalar(c, p.mu);
    SameScalar(c, p.tHat);
  }

  // Both of the equations are affine in the answers, or a product of them, so that only their residues count.
  lemma SameEquation65(c: Curve, V: seq<Point>, keys: Orig.Keys, points: Orig.Points, p: Orig.Proof)
    ensures Eq(Orig.Equation65(c, V, keys, points, ReducedOriginal(p)), Orig.Equation65(c, V, keys, points, p))
  {
    hide Eq, Red, Orig.Residual65, Padded, PowVec, Sum, Scaled, ZSum;
    var m := Padded(|V|);
    var p' := ReducedOriginal(p);
    RangeProofAnswers.Equation65Differs(c, Scaled(V), Scaled(V), m, Sum(PowVec(keys.y, m * COMMITMENT_BITS)), keys.z, keys.x,
                                        points.T1, points.T1, points.T2, points.T2, p.tauX, p'.tauX, p.tHat, p'.tHat);
    RangeProofAnswers.NoDifference(keys.z, Scaled(V), |V|);
    RedEq(p.tauX);
    RedEq(p.tHat);
    var j := EqToMultiple(p'.tHat, p.tHat);
    var k := EqToMultiple(p'.tauX, p.tauX);
    Multiples(j, k, c.h);
    EqFromMultiple(Orig.Equation65(c, V, keys, points, p'), Orig.Equation65(c, V, keys, points, p), j * c.h + k);
  }

  lemma Multiples(j: int, k: int, h: int)
    ensures j * L * h + k * L == (j * h + k) * L
  {
    assert j * L * h == j * h * L;
  }

  lemma SameEquation66(c: Curve, generators: Generators, m: nat, keys: Orig.Keys, points: Orig.Points, p: Orig.Proof)
    requires m * COMMITMENT_BITS <= |generators.G| && m * COMMITMENT_BITS <= |generators.H|
    ensures Eq(Orig.Equation66(c, generators, m, keys, points, ReducedOriginal(p)),
               Orig.Equation66(c, generators, m, keys, points, p))
  {
    hide Eq, Red, Orig.InnerPoint, PowVec, ZTwos;
    var p' := ReducedOriginal(p);
    var n := m * COMMITMENT_BITS;
    RangeProofAnswers.Equation66Differs(c, generators.G[..n], generators.H[..n], points.A, points.A, points.S, points.S, keys.z, keys.x,
                                        keys.xIp, PowVec(c.invert(keys.y), n), ZTwos(keys.z, 2, m), p.tHat, p'.tHat, p.mu, p'.mu);
    RedEq(p.mu);
    RedEq(p.tHat);
    var j := EqToMultiple(p'.tHat, p.tHat);
    var k := EqToMultiple(p'.mu, p.mu);
    Multiples(keys.xIp * j, -k, c.h);
    assert keys.xIp * (j * L) * c.h == keys.xIp * j * L * c.h;
    EqFromMultiple(Orig.Equation66(c, generators, m, keys, points, p'), Orig.Equation66(c, generators, m, keys, points, p),
                   keys.xIp * j * c.h - k);
  }

  /** What the last answers of the inner-product argument add. */
  function Last(a: int, b: int, g: int, h: int, u: int): int {
    a * g + b * h + a * b * u
  }

  lemma SameLast(a: int, a': int, b: int, b': int, g: int, h: int, u: int)
    requires Eq(a', a) && Eq(b', b)
    ensures Eq(Last(a', b', g, h, u), Last(a, b, g, h, u))
  {
    hide Eq;
    EqFromMultiple(g, g, 0);
    EqFromMultiple(h, h, 0);
    EqFromMultiple(u, u, 0);
    EqMul(a', a, g, g);
    EqMul(b', b, h, h);
    EqMul(a', a, b', b);
    EqMul(a' * b', a * b, u, u);
    EqAdd(a' * g, a * g, b' * h, b * h);
    EqAdd(a' * g + b' * h, a * g + b * h, a' * b' * u, a * b * u);
  }

  lemma SameEquation68(c: Curve, generators: Generators, m: nat, keys: Orig.Keys, points: Orig.Points, p: Orig.Proof)
    requires c.Valid() && m * COMMITMENT_BITS <= |generators.G| && m * COMMITMENT_BITS <= |generators.H|
    requires |p.ip.L| == |p.ip.R| && m * COMMITMENT_BITS <= Pow2(|p.ip.L|)
    ensures Eq(Orig.Equation68(c, generators, m, keys, points, ReducedOriginal(p)),
               Orig.Equation68(c, generators, m, keys, points, p))
  {
    hide Eq, Red, Orig.Equation66, PowVec, Ip.Cross, Dot, Times, Reverse, Coefficients, Ip.Challenges, Pow2, Curve.Valid;
    var p' := ReducedOriginal(p);
    var n := m * COMMITMENT_BITS;
    SameEquation66(c, generators, m, keys, points, p);
    var challenges := Ip.Challenges(c, keys.xIp, p.ip.L, p.ip.R);
    var products := Coefficients(challenges);
    var g := Dot(products[..n], generators.G[..n]);
    var h := Dot(Times(Reverse(products)[..n], PowVec(c.invert(keys.y), n)[..n]), generators.H[..n]);
    RedEq(p.ip.a);
    RedEq(p.ip.b);
    SameLast(p.ip.a, p'.ip.a, p.ip.b, p'.ip.b, g, h, keys.xIp * c.h);
    var cross := Ip.Cross(c, challenges, p.ip.L, p.ip.R);
    var e, e' := Orig.Equation66(c, generators, m, keys, points, p), Orig.Equation66(c, generators, m, keys, points, p');
    EqFromMultiple(cross, cross, 0);
    EqAdd(e', e, cross, cross);
    EqAdd(e' + cross, e + cross, Last(p'.ip.a, p'.ip.b, g, h, keys.xIp * c.h), Last(p.ip.a, p.ip.b, g, h, keys.xIp * c.h));
  }

  lemma OriginalAsRead(c: Curve, generators: Generators, V: seq<Point>, p: Orig.Proof)
    requires c.Valid() && EnoughGenerators(generators) && IsStatement(V) && Orig.Holds(c, generators, V, p)
    ensures Orig.Holds(c, generators, V, ReducedOriginal(p))
  {
    hide Eq, Red, Orig.Equation65, Orig.Equation66, Orig.Equation68, Orig.DeriveKeys, Padded, Pow2, Orig.Holds, Ip.IsLog,
         Ip.Decodable;
    PaddedFits(|V|, generators);
    var p' := ReducedOriginal(p);
    Orig.HoldsIffEquations(c, generators, V, p);
    Orig.HoldsIffEquations(c, generators, V, p');
    SameKeys(c, V, p);
    var keys := Orig.DeriveKeys(c, V, p);
    var points := Orig.DecodePoints(c, p).value;
    SameEquation65(c, V, keys, points, p);
    SameEquation68(c, generators, Padded(|V|), keys, points, p);
    EqTransitive(Orig.Equation65(c, V, keys, points, p'), Orig.Equation65(c, V, keys, points, p), 0);
    EqTransitive(Orig.Equation68(c, generators, Padded(|V|), keys, points, p'),
                 Orig.Equation68(c, generators, Padded(|V|), keys, points, p), 0);
  }

  /** What the last answers of a Bulletproof+ add. */
  function LastPlus(r: int, s: int, delta: int, e: int, g: int, h: int, y: int, u: int): int {
    r * e * g + s * e * h + r * y * s * u + delta
  }

  lemma SameLastPlus(r: int, r': int, s: int, s': int, delta: int, delta': int, e: int, g: int, h: int, y: int, u: int)
    requires Eq(r', r) && Eq(s', s) && Eq(delta', delta)
    ensures Eq(LastPlus(r', s', delta', e, g, h, y, u), LastPlus(r, s, delta, e, g, h, y, u))
  {
    hide Eq;
    EqFromMultiple(e, e, 0);
    EqFromMultiple(g, g, 0);
    EqFromMultiple(h, h, 0);
    EqFromMultiple(y, y, 0);
    EqFromMultiple(u, u, 0);
    EqMul(r', r, e, e);
    EqMul(r' * e, r * e, g, g);
    EqMul(s', s, e, e);
    EqMul(s' * e, s * e, h, h);
    EqMul(r', r, y, y);
    EqMul(r' * y, r * y, s', s);
    EqMul(r' * y * s', r * y * s, u, u);
    EqAdd(r' * e * g, r * e * g, s' * e * h, s * e * h);
    EqAdd(r' * e * g + s' * e * h, r * e * g + s * e * h, r' * y * s' * u, r * y * s * u);
    EqAdd(r' * e * g + s' * e * h + r' * y * s' * u, r * e * g + s * e * h + r * y * s * u, delta', delta);
  }

  lemma SameWipEffect(c: Curve, generators: Generators, yVec: Vector, P: SubPoint, challenges: seq<Challenge>, e: Scalar,
                      A: SubPoint, B: SubPoint, p: Wip.WipProof, p': Wip.WipProof, yInvPow: Vector)
    requires |challenges| == |p.L| == |p.R|
    requires |generators.G| == |generators.H| == |yInvPow| == Pow2(|challenges|) && |yVec| > 0
    requires p' == p.(rAnswer := Red(p.rAnswer), sAnswer := Red(p.sAnswer), deltaAnswer := Red(p.deltaAnswer))
    ensures Eq(Wip.Effect(c, generators, yVec, P, challenges, e, A, B, p', yInvPow),
               Wip.Effect(c, generators, yVec, P, challenges, e, A, B, p, yInvPow))
  {
    hide Eq, Red, Ip.Cross, Dot, Times, Reverse, Coefficients, Pow2;
    var products := Coefficients(challenges);
    var g := Dot(Times(products, yInvPow), generators.G);
    var h := Dot(Reverse(products), generators.H);
    RedEq(p.rAnswer);
    RedEq(p.sAnswer);
    RedEq(p.deltaAnswer);
    SameLastPlus(p.rAnswer, p'.rAnswer, p.sAnswer, p'.sAnswer, p.deltaAnswer, p'.deltaAnswer, e, g, h, yVec[0], c.h);
    var rest := e * e * (P + Ip.Cross(c, challenges, p.L, p.R)) + e * A + B;
    EqFromMultiple(rest, rest, 0);
    EqAdd(LastPlus(p'.rAnswer, p'.sAnswer, p'.deltaAnswer, e, g, h, yVec[0], c.h),
          LastPlus(p.rAnswer, p.sAnswer, p.deltaAnswer, e, g, h, yVec[0], c.h), rest, rest);
  }

  lemma PlusAsRead(c: Curve, generators: Generators, V: seq<Point>, p: Bpp.Proof)
    requires c.Valid() && EnoughGenerators(generators) && IsStatement(V) && Bpp.Holds(c, generators, V, p)
    ensures Bpp.Holds(c, generators, V, ReducedPlus(p))
  {
    hide Eq, Red, Bpp.Holds, Bpp.DeriveKeys, Bpp.AHat, Padded, Pow2, Ip.Decodable, Wip.Effect, Wip.TranscriptPair,
         Wip.LastTranscript, Wip.YVec, PowVec, Ip.Challenges, Scaled;
    PaddedFits(|V|, generators);
    var p' := ReducedPlus(p);
    Bpp.HoldsIffNoEffect(c, generators, V, p);
    Bpp.HoldsIffNoEffect(c, generators, V, p');
    var m := Padded(|V|);
    var n := m * COMMITMENT_BITS;
    var (y, z) := Bpp.DeriveKeys(c, V, p.A);
    var aHat := Bpp.AHat(c, generators.G[..n], generators.H[..n], Scaled(V), c.Receive(p.A).value, y, z, m);
    var e := Wip.TranscriptPair(c, Wip.LastTranscript(c, z, p.wip.L, p.wip.R), p.wip.A, p.wip.B);
    RangeProofAnswers.Positive(|p.wip.L|);
    SameWipEffect(c, Wip.Reduce(generators, n), Wip.YVec(y, n), aHat, Ip.Challenges(c, z, p.wip.L, p.wip.R), e,
                  c.Receive(p.wip.A).value, c.Receive(p.wip.B).value, p.wip, p'.wip, PowVec(c.invert(y), n));
    EqTransitive(Bpp.Effect(c, generators, V, p'), Bpp.Effect(c, generators, V, p), 0);
  }

  // A valid range proof is valid as it is read from what was written of it.
  lemma ValidAsRead(c: Curve, generators: Bulletproofs.AllGenerators, data: seq<seq<byte>>, p: Bulletproofs.Bulletproof)
    requires c.Valid() && generators.Enough() && Bulletproofs.Valid(c, generators, data, p)
    ensures Bulletproofs.Valid(c, generators, data, ReadBulletproof(SignedTransactions.BulletproofBytes(c, p)))
  {
    hide Orig.Holds, Bpp.Holds, Red;
    ReadIsReduced(c, p);
    var commitments := Bulletproofs.Decompress(c, data).value;
    match p {
      case Original(bp) => OriginalAsRead(c, generators.original, commitments, bp);
      case Plus(bp) => PlusAsRead(c, generators.plus, commitments, bp);
    }
  }

  // ---------------------------------------------------------------------------------------------
  // A signed transaction.

  /** The verdict on the k-th signature of a transaction, given the ring its input names. */
  function VerdictAt(c: Curve, keccak: Keccak, tx: Tx.Transaction, k: nat, ring: seq<ClsagDecoys.Member>)
    : Result<(), Clsag.ClsagError>
    requires c.Valid() && IsHash(keccak) && TransactionSizes.IsClsag(tx)
    requires var prunable := tx.body.proofs.value.prunable; k < |prunable.clsags| && k < |prunable.pseudoOuts|
    requires k < |tx.prefix.inputs| && tx.prefix.inputs[k].ToKey?
  {
    var prunable := tx.body.proofs.value.prunable;
    Clsag.Verdict(c, ReadClsag(prunable.clsags[k]), Clsag.EncodeRing(c, ring), tx.prefix.inputs[k].keyImage, prunable.pseudoOuts[k],
                  TransactionHashes.SignatureHash(keccak, tx).value)
  }

  /** All there is to check of the amounts of a transaction, of nothing but the transaction. */
  ghost predicate AmountsProven(c: Curve, generators: Bulletproofs.AllGenerators, tx: Tx.Transaction)
    requires c.Valid() && generators.Enough() && TransactionSizes.IsClsag(tx)
  {
    var base, prunable := tx.body.proofs.value.base, tx.body.proofs.value.prunable;
    && |base.commitments| == |tx.prefix.outputs| && |prunable.pseudoOuts| == |tx.prefix.inputs|
    // Every output is worth an amount of sixty-four bits
    && Bulletproofs.Valid(c, generators, base.commitments, ReadBulletproof(prunable.bulletproof))
    // What is spent is worth what is made and the fee
    && Bulletproofs.Decompress(c, base.commitments).Some? && Bulletproofs.Decompress(c, prunable.pseudoOuts).Some?
    && EqPoint(Sum(Bulletproofs.Decompress(c, prunable.pseudoOuts).value),
               Sum(Bulletproofs.Decompress(c, base.commitments).value) + 8 * (base.fee * c.h))
  }

  lemma {:induction false} SumReduced(points: seq<Point>)
    ensures EqPoint(Sum(Bulletproofs.Reduced(points)), Sum(points))
  {
    hide EqPoint;
    if points == [] {
      EqPointFromMultiple(0, 0, 0);
    } else {
      SumReduced(points[1..]);
      ReducedPoint(points[0]);
      assert Bulletproofs.Reduced(points)[1..] == Bulletproofs.Reduced(points[1..]);
      EqPointAdd(points[0] % (8 * L), points[0], Sum(Bulletproofs.Reduced(points[1..])), Sum(points[1..]));
    }
  }

  /** The parts of a transaction which are looked at. */
  lemma AssembledParts(c: Curve, plan: Fee.Plan, images: seq<seq<byte>>, outputs: seq<SignedTransactions.Output>,
                       fee: nat, commitments: seq<Point>, proof: Bulletproofs.Bulletproof, signed: seq<(Clsag.Signature, Point)>)
    requires c.Valid() && |images| == |plan.keyOffsets|
    ensures var tx := SignedTransactions.Assemble(c, plan, images, outputs, fee, commitments, proof, signed);
            && TransactionSizes.IsClsag(tx) && |tx.prefix.inputs| == |images| && |tx.prefix.outputs| == |outputs|
            && var base, prunable := tx.body.proofs.value.base, tx.body.proofs.value.prunable;
            && base.fee == fee && base.commitments == Bulletproofs.CompressAll(c, commitments)
            && prunable.bulletproof == SignedTransactions.BulletproofBytes(c, proof)
            && prunable.pseudoOuts == Bulletproofs.CompressAll(c, SignedTransactions.Map(SignedTransactions.PseudoOut, signed))
            && |prunable.clsags| == |signed|
            && forall k :: 0 <= k < |signed| ==> prunable.clsags[k] == SignedTransactions.ClsagBytes(c, signed[k].0)
  {
    hide SignedTransactions.BulletproofBytes, SignedTransactions.ClsagBytes, Curve.Encode;
  }

  // Pseudo-outs which balance still do as they are read.
  lemma BalancedAsRead(c: Curve, pseudoOuts: seq<Point>, commitments: seq<Point>, fee: u64)
    requires c.Valid() && Send.Balanced(c, pseudoOuts, commitments, fee)
    ensures var outs := Bulletproofs.Decompress(c, Bulletproofs.CompressAll(c, pseudoOuts));
            var made := Bulletproofs.Decompress(c, Bulletproofs.CompressAll(c, commitments));
            outs.Some? && made.Some? && EqPoint(Sum(outs.value), Sum(made.value) + 8 * (fee * c.h))
  {
    hide EqPoint, Sum;
    Bulletproofs.DecompressCompressed(c, pseudoOuts);
    Bulletproofs.DecompressCompressed(c, commitments);
    SumReduced(pseudoOuts);
    SumReduced(commitments);
    var paid := 8 * (fee * c.h);
    EqPointFromMultiple(paid, paid, 0);
    EqPointAdd(Sum(Bulletproofs.Reduced(commitments)), Sum(commitments), paid, paid);
    EqPointTransitive(Sum(Bulletproofs.Reduced(pseudoOuts)), Sum(pseudoOuts), Sum(commitments) + paid);
    EqPointTransitive(Sum(Bulletproofs.Reduced(commitments)) + paid, Sum(commitments) + paid, Sum(commitments) + paid);
    EqPointTransitive(Sum(Bulletproofs.Reduced(pseudoOuts)), Sum(commitments) + paid,
                      Sum(Bulletproofs.Reduced(commitments)) + paid);
  }

  lemma ClsagIsHashed(keccak: Keccak, tx: Tx.Transaction)
    requires TransactionSizes.IsClsag(tx)
    ensures TransactionHashes.SignatureHash(keccak, tx).Some?
  {
  }

  // Whatever was signed proves its amounts, by what can be read from it.
  lemma SignedIsProven(c: Curve, keccak: Keccak, generators: Bulletproofs.AllGenerators, intent: Send.Intent,
                       images: seq<seq<byte>>, drawn: SignedTransactions.Drawn, weight: nat, necessaryFee: nat,
                       tx: Tx.Transaction, parts: SignedTransactions.Parts)
    requires c.Valid() && IsHash(keccak) && generators.Enough()
    requires |drawn.outputs| == |drawn.masks|
    requires SignedTransactions.Signed(c, keccak, generators, intent, images, drawn, weight, necessaryFee, tx, parts)
    ensures TransactionSizes.IsClsag(tx) && AmountsProven(c, generators, tx)
  {
    hide Bulletproofs.Valid, Curve.Encode, Send.Funded, Send.OutputAmounts, Send.FeePaid, ReadBulletproof,
         SignedTransactions.BulletproofBytes, SignedTransactions.ClsagBytes, SignedTransactions.Assemble, Send.Balanced,
         Send.Commitments, Bulletproofs.CompressAll, Bulletproofs.Decompress, EqPoint, Sum, SignedTransactions.Map, Fee.Weight,
         Fee.Follows, SignedTransactions.ProvedWith, SignedTransactions.Verifies, Curve.Valid, IsHash;
    var fee := Send.FeePaid(intent.Amounts(), intent.payments, necessaryFee);
    AssembledParts(c, intent.Plan(), images, drawn.outputs, fee, parts.commitments, parts.proof, parts.signed);
    ValidAsRead(c, generators, Bulletproofs.CompressAll(c, parts.commitments), parts.proof);
    BalancedAsRead(c, SignedTransactions.Map(SignedTransactions.PseudoOut, parts.signed), parts.commitments, fee);
    VerifiesCounts(c, keccak, tx, parts);
    CountsAre(c, drawn.masks, Send.OutputAmounts(intent.Amounts(), intent.payments, intent.payments, necessaryFee));
  }

  lemma VerifiesCounts(c: Curve, keccak: Keccak, tx: Tx.Transaction, parts: SignedTransactions.Parts)
    requires c.Valid() && IsHash(keccak) && SignedTransactions.Verifies(c, keccak, tx, parts)
    ensures |parts.inputs| == |parts.pseudoMasks| == |parts.signed| == |tx.prefix.inputs|
  {
  }

  lemma CountsAre(c: Curve, masks: seq<Scalar>, amounts: seq<u64>)
    requires |masks| == |amounts|
    ensures |Send.Commitments(c, masks, amounts)| == |masks|
  {
  }

  /** The k-th signature, as it is read, has the verdict of an honest one; its ring is at the offsets its input has. */
  ghost predicate ReadsAsHonest(c: Curve, keccak: Keccak, tx: Tx.Transaction, parts: SignedTransactions.Parts, k: nat)
    requires c.Valid() && IsHash(keccak)
  {
    && TransactionSizes.IsClsag(tx)
    && k < |parts.inputs| == |parts.pseudoMasks| == |tx.prefix.inputs| && tx.prefix.inputs[k].ToKey?
    && var prunable := tx.body.proofs.value.prunable;
    && k < |prunable.clsags| == |prunable.pseudoOuts| && parts.inputs[k].context.decoys.Valid()
    && tx.prefix.inputs[k].keyOffsets == parts.inputs[k].context.decoys.offsets
    && VerdictAt(c, keccak, tx, k, parts.inputs[k].context.decoys.ring) ==
       Clsag.ExpectedFor(c, parts.inputs[k], parts.pseudoMasks[k])
  }

  // And its signatures have the verdicts of honest ones.
  lemma SignedVerdicts(c: Curve, keccak: Keccak, generators: Bulletproofs.AllGenerators, intent: Send.Intent,
                       images: seq<seq<byte>>, drawn: SignedTransactions.Drawn, weight: nat, necessaryFee: nat,
                       tx: Tx.Transaction, parts: SignedTransactions.Parts, k: nat)
    requires c.Valid() && IsHash(keccak) && generators.Enough() && k < |tx.prefix.inputs|
    requires SignedTransactions.Signed(c, keccak, generators, intent, images, drawn, weight, necessaryFee, tx, parts)
    ensures ReadsAsHonest(c, keccak, tx, parts, k)
  {
    hide Bulletproofs.Valid, Curve.Encode, Send.Funded, Send.OutputAmounts, Send.FeePaid, TransactionHashes.SignatureHash,
         Clsag.Verdict, Clsag.ExpectedFor, Clsag.EncodeRing, ReadClsag, SignedTransactions.BulletproofBytes,
         SignedTransactions.ClsagBytes, SignedTransactions.Assemble, Send.Balanced, Send.Commitments, Bulletproofs.CompressAll,
         SignedTransactions.Map, Fee.Weight, Fee.Follows, SignedTransactions.ProvedWith, Curve.Valid, IsHash;
    var fee := Send.FeePaid(intent.Amounts(), intent.payments, necessaryFee);
    AssembledParts(c, intent.Plan(), images, drawn.outputs, fee, parts.commitments, parts.proof, parts.signed);
    ClsagIsHashed(keccak, tx);
    ReadVerdict(c, parts.signed[k].0, Clsag.EncodeRing(c, parts.inputs[k].context.decoys.ring), tx.prefix.inputs[k].keyImage,
                tx.body.proofs.value.prunable.pseudoOuts[k], TransactionHashes.SignatureHash(keccak, tx).value);
  }
}
