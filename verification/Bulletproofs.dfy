/** ringct/bulletproofs/src/lib.rs and the public half of batch_verifier.rs: both kinds of proof. */
module Bulletproofs {
  import opened Wrappers
  import opened Ed25519
  import opened Vectors
  import opened Accumulator
  import opened RangeAlgebra
  import Orig = OriginalRangeProof
  import Bpp = PlusRangeProof

  datatype Bulletproof = Original(original: Orig.Proof) | Plus(plus: Bpp.Proof)

  datatype BulletproofError = NoCommitments | TooManyCommitments

  /** The generators of either kind of proof. */
  datatype AllGenerators = AllGenerators(original: Generators, plus: Generators) {
    predicate Enough() {
      EnoughGenerators(original) && EnoughGenerators(plus)
    }
  }

  /** The weights drawn when a proof is queued; a Bulletproof+ has one. */
  datatype Weights = Weights(first: Scalar, second: Scalar)

  /** What `CompressedPoint::decompress` gives for a whole list, if every entry decodes. */
  function Decompress(c: Curve, data: seq<seq<byte>>): (points: Option<seq<Point>>)
    ensures points.Some? ==> |points.value| == |data|
  {
    if data == [] then Some([])
    else
      match (c.decompress(data[0]), Decompress(c, data[1..]))
      case (Some(p), Some(rest)) => Some([p] + rest)
      case _ => None
  }

  /** A proof for between one and sixteen commitments, for which the paper's equations hold. */
  ghost predicate Valid(c: Curve, generators: AllGenerators, data: seq<seq<byte>>, proof: Bulletproof)
    requires c.Valid() && generators.Enough()
  {
    match Decompress(c, data)
    case None => false
    case Some(commitments) =>
      && IsStatement(commitments)
      && match proof
         case Original(bp) => Orig.Holds(c, generators.original, commitments, bp)
         case Plus(bp) => Bpp.Holds(c, generators.plus, commitments, bp)
  }

  function Commit(c: Curve, outputs: seq<Commitment>): (commitments: seq<Point>)
    ensures Consistent(c, commitments, outputs)
  {
    seq(|outputs|, i requires 0 <= i < |outputs| => 8 * outputs[i].Commit(c))
  }

  function CompressAll(c: Curve, points: seq<Point>): (data: seq<seq<byte>>)
    requires c.Valid()
    ensures |data| == |points|
  {
    seq(|points|, i requires 0 <= i < |points| => c.Encode(points[i]))
  }

  lemma {:induction false} DecompressCompressed(c: Curve, points: seq<Point>)
    requires c.Valid()
    ensures Decompress(c, CompressAll(c, points)) == Some(Reduced(points))
  {
    if points != [] {
      assert CompressAll(c, points)[1..] == CompressAll(c, points[1..]);
      DecompressCompressed(c, points[1..]);
      assert Reduced(points) == [points[0] % (8 * L)] + Reduced(points[1..]);
    }
  }

  function Reduced(points: seq<Point>): (r: seq<Point>)
    ensures |r| == |points|
  {
    seq(|points|, i requires 0 <= i < |points| => points[i] % (8 * L))
  }

  lemma ReducedConsistent(c: Curve, outputs: seq<Commitment>)
    ensures Consistent(c, Reduced(Commit(c, outputs)), outputs)
  {
    hide Commitment.Commit;
    forall i | 0 <= i < |outputs|
      ensures Reduced(Commit(c, outputs))[i] % (8 * L) == (8 * outputs[i].Commit(c)) % (8 * L)
    {
      ReducedTwice(8 * outputs[i].Commit(c));
    }
  }

  lemma ReducedTwice(p: Point)
    ensures p % (8 * L) % (8 * L) == p % (8 * L)
  {
    ReducedPoint(p);
  }

  // ---------------------------------------------------------------------------------------------
  // Proving.

  method Prove(c: Curve, generators: AllGenerators, outputs: seq<Commitment>, blinds: Orig.Blinds)
    returns (res: Result<Bulletproof, BulletproofError>)
    requires c.Valid() && generators.Enough()
    requires forall i :: 0 <= i < |outputs| ==> outputs[i].amount < Pow2(COMMITMENT_BITS)
    requires IsStatement(outputs) ==> |blinds.sL| == |blinds.sR| == Padded(|outputs|) * COMMITMENT_BITS
    ensures res == Err(NoCommitments) <==> outputs == []
    ensures res == Err(TooManyCommitments) <==> |outputs| > MAX_COMMITMENTS
    ensures res.Ok? ==>
              && res.value.Original? && Valid(c, generators, CompressAll(c, Commit(c, outputs)), res.value)
              && Orig.MadeFrom(c, generators.original, Reduced(Commit(c, outputs)), outputs, blinds, res.value.original)
  {
    hide Orig.Holds, Bpp.Holds, Orig.MadeFrom, Consistent, Padded, Commit;
    if outputs == [] {
      return Err(NoCommitments);
    }
    if |outputs| > MAX_COMMITMENTS {
      return Err(TooManyCommitments);
    }
    var commitments := Reduced(Commit(c, outputs));
    ReducedConsistent(c, outputs);
    ConsistentLength(c, commitments, outputs);
    var proof := Orig.Prove(c, generators.original, commitments, outputs, blinds);
    DecompressCompressed(c, Commit(c, outputs));
    res := Ok(Original(proof.value));
  }

  method ProvePlus(c: Curve, generators: AllGenerators, outputs: seq<Commitment>, blinds: Bpp.Blinds)
    returns (res: Result<Bulletproof, BulletproofError>)
    requires c.Valid() && generators.Enough()
    requires forall i :: 0 <= i < |outputs| ==> outputs[i].amount < Pow2(COMMITMENT_BITS)
    requires IsStatement(outputs) ==> |blinds.wip.d| == PaddedLog(|outputs|, 0) + 6
    ensures res == Err(NoCommitments) <==> outputs == []
    ensures res == Err(TooManyCommitments) <==> |outputs| > MAX_COMMITMENTS
    ensures res.Ok? ==>
              && res.value.Plus? && Valid(c, generators, CompressAll(c, Commit(c, outputs)), res.value)
              && Bpp.MadeFrom(c, generators.plus, Reduced(Commit(c, outputs)), outputs, blinds, res.value.plus)
  {
    hide Orig.Holds, Bpp.Holds, Bpp.MadeFrom, Consistent, PaddedLog, Commit;
    if outputs == [] {
      return Err(NoCommitments);
    }
    if |outputs| > MAX_COMMITMENTS {
      return Err(TooManyCommitments);
    }
    var commitments := Reduced(Commit(c, outputs));
    ReducedConsistent(c, outputs);
    ConsistentLength(c, commitments, outputs);
    var proof := Bpp.Prove(c, generators.plus, commitments, outputs, blinds);
    DecompressCompressed(c, Commit(c, outputs));
    res := Ok(Plus(proof.value));
  }

  lemma ConsistentLength(c: Curve, commitments: seq<Point>, outputs: seq<Commitment>)
    requires Consistent(c, commitments, outputs)
    ensures |commitments| == |outputs|
  {
  }

  // ---------------------------------------------------------------------------------------------
  // Verifying.

  class BatchVerifier {
    const original: InternalBatchVerifier
    const plus: InternalBatchVerifier

    constructor (c: Curve, ghost generators: AllGenerators)
      requires generators.Enough()
      ensures fresh(original) && fresh(plus) && Usable(generators)
      ensures original.Eval(1, c.h, generators.original) == 0 && plus.Eval(c.h, 1, generators.plus) == 0
    {
      original := new InternalBatchVerifier();
      plus := new InternalBatchVerifier();
      new;
      EmptyBatch(original, generators.original, 1, c.h);
      EmptyBatch(plus, generators.plus, c.h, 1);
    }

    ghost predicate Usable(generators: AllGenerators)
      reads original, plus
    {
      original != plus && ValidBatch(original, generators.original) && ValidBatch(plus, generators.plus)
    }

    /** What has been queued sums to the identity. */
    ghost predicate Sums(c: Curve, generators: AllGenerators)
      requires Usable(generators)
      reads original, plus
    {
      && Eq(original.Eval(1, c.h, generators.original), 0)
      && Eq(plus.Eval(c.h, 1, generators.plus), 0)
    }

    method Verify(c: Curve, generators: AllGenerators) returns (accepted: bool)
      requires Usable(generators)
      ensures accepted <==> Sums(c, generators)
    {
      hide Eq;
      accepted := original.Verify(1, c.h, generators.original);
      if accepted {
        accepted := plus.Verify(c.h, 1, generators.plus);
      }
    }
  }

  lemma EmptyBatch(verifier: InternalBatchVerifier, generators: Generators, gPoint: SubPoint, hPoint: SubPoint)
    requires verifier.g == 0 && verifier.h == 0
    requires verifier.gBold == [] && verifier.hBold == [] && verifier.other == []
    ensures verifier.Eval(gPoint, hPoint, generators) == 0
  {
  }

  /** The commitments and the proof decode, for between one and sixteen outputs, and the lists fit them. */
  ghost predicate WellFormed(c: Curve, data: seq<seq<byte>>, proof: Bulletproof)
    requires c.Valid()
  {
    && Decompress(c, data).Some? && IsStatement(Decompress(c, data).value)
    && match proof
       case Original(bp) => Orig.WellFormed(c, Decompress(c, data).value, bp)
       case Plus(bp) => Bpp.WellFormed(c, Decompress(c, data).value, bp)
  }

  /** What a queued proof adds to the batch of the original's, and to that of the Bulletproofs+. */
  ghost function Added(c: Curve, generators: AllGenerators, data: seq<seq<byte>>, proof: Bulletproof, weights: Weights)
    : (SubPoint, SubPoint)
    requires c.Valid() && generators.Enough() && WellFormed(c, data, proof)
  {
    var commitments := Decompress(c, data).value;
    match proof
    case Original(bp) => (Orig.Effect(c, generators.original, commitments, bp, weights.first, weights.second), 0)
    case Plus(bp) => (0, weights.first * Bpp.Effect(c, generators.plus, commitments, bp))
  }

  /** Queues a proof, or fails on one which is malformed. */
  method BatchVerify(c: Curve, generators: AllGenerators, verifier: BatchVerifier, data: seq<seq<byte>>, proof: Bulletproof,
                     weights: Weights)
    returns (ok: bool)
    requires c.Valid() && generators.Enough() && verifier.Usable(generators)
    modifies verifier.original, verifier.plus
    ensures verifier.Usable(generators)
    ensures ok <==> WellFormed(c, data, proof)
    ensures proof.Original? ==> unchanged(verifier.plus)
    ensures proof.Plus? ==> unchanged(verifier.original)
    ensures ok ==>
              var (original, plus) := Added(c, generators, data, proof, weights);
              && verifier.original.Eval(1, c.h, generators.original) ==
                 old(verifier.original.Eval(1, c.h, generators.original)) + original
              && verifier.plus.Eval(c.h, 1, generators.plus) == old(verifier.plus.Eval(c.h, 1, generators.plus)) + plus
    ensures Valid(c, generators, data, proof) ==> ok && verifier.Sums(c, generators) == old(verifier.Sums(c, generators))
    ensures ok && proof.Plus? && !Eq(weights.first, 0) && old(verifier.Sums(c, generators)) && verifier.Sums(c, generators) ==>
              Valid(c, generators, data, proof)
  {
    hide Eq, Orig.Holds, Bpp.Holds, Orig.WellFormed, Bpp.WellFormed, Orig.Effect, Bpp.Effect, Dot, Msm;
    var decoded := Decompress(c, data);
    if decoded.None? || !IsStatement(decoded.value) {
      return false;
    }
    var commitments := decoded.value;
    match proof {
      case Original(bp) =>
        Orig.HoldsIffNoEffect(c, generators.original, commitments, bp);
        ghost var before := verifier.original.Eval(1, c.h, generators.original);
        ok := Orig.Verify(c, verifier.original, generators.original, commitments, bp, weights.first, weights.second);
        if Orig.Holds(c, generators.original, commitments, bp) {
          AddNothing(before, Orig.Effect(c, generators.original, commitments, bp, weights.first, weights.second));
        }
      case Plus(bp) =>
        Bpp.HoldsIffNoEffect(c, generators.plus, commitments, bp);
        ghost var before := verifier.plus.Eval(c.h, 1, generators.plus);
        ok := Bpp.Verify(c, verifier.plus, generators.plus, commitments, bp, weights.first);
        if ok {
          AddWeighted(c, before, weights.first, Bpp.Effect(c, generators.plus, commitments, bp));
        }
    }
  }

  lemma AddNothing(before: int, effect: int)
    requires Eq(effect, 0)
    ensures Eq(before + effect, 0) <==> Eq(before, 0)
  {
    hide Eq;
    if Eq(before, 0) {
      EqAdd(before, 0, effect, 0);
    }
    if Eq(before + effect, 0) {
      EqAdd(before + effect, 0, effect, 0);
    }
  }

  // A multiple of a point is the identity exactly when the point is, if the scalar is not zero.
  lemma AddWeighted(c: Curve, before: int, weight: Scalar, effect: int)
    requires c.Valid()
    ensures Eq(effect, 0) ==> (Eq(before + weight * effect, 0) <==> Eq(before, 0))
    ensures !Eq(weight, 0) && Eq(before, 0) && Eq(before + weight * effect, 0) ==> Eq(effect, 0)
  {
    hide Eq;
    if Eq(effect, 0) {
      EqScale(weight, effect, 0);
      AddNothing(before, weight * effect);
    }
    if !Eq(weight, 0) && Eq(before, 0) && Eq(before + weight * effect, 0) {
      InverseWorks(c, weight);
      EqAdd(before + weight * effect, 0, before, 0);
      EqScale(c.invert(weight), weight * effect, 0);
      EqScale(effect, weight * c.invert(weight), 1);
      assert c.invert(weight) * (weight * effect) == weight * c.invert(weight) * effect;
      EqSymmetric(weight * c.invert(weight) * effect, effect);
      EqTransitive(effect, weight * c.invert(weight) * effect, 0);
    }
  }

  /** `Bulletproof::verify`: a batch of one proof. */
  method Verify(c: Curve, generators: AllGenerators, data: seq<seq<byte>>, proof: Bulletproof, weights: Weights)
    returns (accepted: bool)
    requires c.Valid() && generators.Enough()
    ensures accepted <==>
            && WellFormed(c, data, proof)
            && var (original, plus) := Added(c, generators, data, proof, weights); Eq(original, 0) && Eq(plus, 0)
    ensures Valid(c, generators, data, proof) ==> accepted
    ensures proof.Plus? && !Eq(weights.first, 0) ==> (accepted <==> Valid(c, generators, data, proof))
  {
    hide Eq, Valid, Added, WellFormed, InternalBatchVerifier.Eval;
    var verifier := new BatchVerifier(c, generators);
    NoneSum();
    accepted := BatchVerify(c, generators, verifier, data, proof, weights);
    if accepted {
      accepted := verifier.Verify(c, generators);
    }
  }

  lemma NoneSum()
    ensures Eq(0, 0)
  {
  }

  // ---------------------------------------------------------------------------------------------
  // Proofs which are not valid.

  // A proof which is not valid is accepted only for weights on one line: the weights of any two acceptances are
  // proportional. Of a Bulletproof+, only zero is.
  lemma InvalidOnOneLine(c: Curve, generators: AllGenerators, data: seq<seq<byte>>, proof: Bulletproof, w: Weights, v: Weights)
    requires c.Valid() && generators.Enough() && WellFormed(c, data, proof) && !Valid(c, generators, data, proof)
    requires var (original, plus) := Added(c, generators, data, proof, w); Eq(original, 0) && Eq(plus, 0)
    requires var (original, plus) := Added(c, generators, data, proof, v); Eq(original, 0) && Eq(plus, 0)
    ensures proof.Original? ==> Eq(w.first * v.second - v.first * w.second, 0)
    ensures proof.Plus? ==> Eq(w.first, 0) && Eq(v.first, 0)
  {
    hide Eq, Orig.Effect, Bpp.Effect, Orig.Holds, Bpp.Holds, Orig.WellFormed, Bpp.WellFormed, Decompress;
    var commitments := Decompress(c, data).value;
    match proof {
      case Original(bp) => OriginalOnOneLine(c, generators.original, commitments, bp, w, v);
      case Plus(bp) =>
        var effect := Bpp.Effect(c, generators.plus, commitments, bp);
        Bpp.HoldsIffNoEffect(c, generators.plus, commitments, bp);
        NoZeroDivisors(c, w.first, effect);
        NoZeroDivisors(c, v.first, effect);
    }
  }

  lemma OriginalOnOneLine(c: Curve, generators: Generators, commitments: seq<Point>, bp: Orig.Proof, w: Weights, v: Weights)
    requires c.Valid() && EnoughGenerators(generators) && IsStatement(commitments) && Orig.WellFormed(c, commitments, bp)
    requires !Orig.Holds(c, generators, commitments, bp)
    requires Eq(Orig.Effect(c, generators, commitments, bp, w.first, w.second), 0)
    requires Eq(Orig.Effect(c, generators, commitments, bp, v.first, v.second), 0)
    ensures Eq(w.first * v.second - v.first * w.second, 0)
  {
    hide *;
    var (a, b) := Orig.EffectParts(c, generators, commitments, bp);
    Orig.EffectIsWeighted(c, generators, commitments, bp, w.first, w.second);
    Orig.EffectIsWeighted(c, generators, commitments, bp, v.first, v.second);
    Orig.HoldsIffParts(c, generators, commitments, bp);
    Proportional(c, a, b, w.first, w.second, v.first, v.second);
  }

  lemma NoZeroDivisors(c: Curve, a: Scalar, b: Scalar)
    requires c.Valid() && Eq(a * b, 0)
    ensures Eq(a, 0) || Eq(b, 0)
  {
    hide Eq;
    if !Eq(a, 0) {
      InverseWorks(c, a);
      EqScale(c.invert(a), a * b, 0);
      EqScale(b, a * c.invert(a), 1);
      assert c.invert(a) * (a * b) == b * (a * c.invert(a));
      EqSymmetric(b * (a * c.invert(a)), b);
      EqTransitive(b, b * (a * c.invert(a)), 0);
    }
  }

  // Two equations in two unknowns have only zero for a solution, unless they are proportional.
  lemma Proportional(c: Curve, a: int, b: int, w: int, w': int, v: int, v': int)
    requires c.Valid() && Eq(w * a + w' * b, 0) && Eq(v * a + v' * b, 0) && !(Eq(a, 0) && Eq(b, 0))
    ensures Eq(w * v' - v * w', 0)
  {
    hide Eq;
    var det := w * v' - v * w';
    EqScale(v', w * a + w' * b, 0);
    EqScale(w', v * a + v' * b, 0);
    EqAdd(v' * (w * a + w' * b), 0, w' * (v * a + v' * b), 0);
    EqScale(v, w * a + w' * b, 0);
    EqScale(w, v * a + v' * b, 0);
    EqAdd(w * (v * a + v' * b), 0, v * (w * a + w' * b), 0);
    Determinants(a, b, w, w', v, v');
    NoZeroDivisors(c, det, a);
    NoZeroDivisors(c, det, b);
  }

  lemma Determinants(a: int, b: int, w: int, w': int, v: int, v': int)
    ensures v' * (w * a + w' * b) - w' * (v * a + v' * b) == (w * v' - v * w') * a
    ensures w * (v * a + v' * b) - v * (w * a + w' * b) == (w * v' - v * w') * b
  {
  }

  // ---------------------------------------------------------------------------------------------
  // Batches.

  type Queued = (seq<seq<byte>>, Bulletproof, Weights)

  ghost predicate AllWellFormed(c: Curve, queue: seq<Queued>)
    requires c.Valid()
  {
    forall i :: 0 <= i < |queue| ==> WellFormed(c, queue[i].0, queue[i].1)
  }

  /** What all queued proofs add to the two batches. */
  ghost function AllAdded(c: Curve, generators: AllGenerators, queue: seq<Queued>): (SubPoint, SubPoint)
    requires c.Valid() && generators.Enough() && AllWellFormed(c, queue)
  {
    if queue == [] then (0, 0)
    else
      var (data, proof, weights) := queue[|queue| - 1];
      var (original, plus) := AllAdded(c, generators, queue[..|queue| - 1]);
      var (more, morePlus) := Added(c, generators, data, proof, weights);
      (original + more, plus + morePlus)
  }

  lemma OneMoreAdded(c: Curve, generators: AllGenerators, queue: seq<Queued>, i: nat)
    requires c.Valid() && generators.Enough() && i < |queue| && AllWellFormed(c, queue[..i])
    requires WellFormed(c, queue[i].0, queue[i].1)
    ensures AllWellFormed(c, queue[..i + 1])
    ensures var (original, plus) := AllAdded(c, generators, queue[..i]);
            var (more, morePlus) := Added(c, generators, queue[i].0, queue[i].1, queue[i].2);
            AllAdded(c, generators, queue[..i + 1]) == (original + more, plus + morePlus)
  {
    hide WellFormed, Added;
    assert queue[..i + 1][..i] == queue[..i];
  }

  // Valid proofs add nothing.
  lemma {:induction false} ValidAddNothing(c: Curve, generators: AllGenerators, queue: seq<Queued>)
    requires c.Valid() && generators.Enough()
    requires forall i :: 0 <= i < |queue| ==> Valid(c, generators, queue[i].0, queue[i].1)
    ensures AllWellFormed(c, queue)
    ensures var (original, plus) := AllAdded(c, generators, queue); Eq(original, 0) && Eq(plus, 0)
  {
    hide Eq, WellFormed, Added, Valid;
    NoneSum();
    forall i | 0 <= i < |queue|
      ensures WellFormed(c, queue[i].0, queue[i].1)
    {
      ValidAddsNothing(c, generators, queue[i].0, queue[i].1, queue[i].2);
    }
    if queue != [] {
      var n := |queue| - 1;
      ValidAddNothing(c, generators, queue[..n]);
      ValidAddsNothing(c, generators, queue[n].0, queue[n].1, queue[n].2);
      var (original, plus) := AllAdded(c, generators, queue[..n]);
      var (more, morePlus) := Added(c, generators, queue[n].0, queue[n].1, queue[n].2);
      EqAdd(original, 0, more, 0);
      EqAdd(plus, 0, morePlus, 0);
    }
  }

  lemma ValidAddsNothing(c: Curve, generators: AllGenerators, data: seq<seq<byte>>, proof: Bulletproof, weights: Weights)
    requires c.Valid() && generators.Enough() && Valid(c, generators, data, proof)
    ensures WellFormed(c, data, proof)
    ensures var (original, plus) := Added(c, generators, data, proof, weights); Eq(original, 0) && Eq(plus, 0)
  {
    hide Eq, Orig.Effect, Bpp.Effect, Orig.Holds, Bpp.Holds, Orig.WellFormed, Bpp.WellFormed;
    NoneSum();
    var commitments := Decompress(c, data).value;
    match proof {
      case Original(bp) => Orig.HoldsIffNoEffect(c, generators.original, commitments, bp);
      case Plus(bp) =>
        Bpp.HoldsIffNoEffect(c, generators.plus, commitments, bp);
        EqScale(weights.first, Bpp.Effect(c, generators.plus, commitments, bp), 0);
    }
  }

  // A batch is accepted exactly if all of its proofs are well-formed, and what they add cancels in either half: so
  // for any number of valid proofs, under any weights.
  method VerifyBatch(c: Curve, generators: AllGenerators, queue: seq<Queued>) returns (accepted: bool)
    requires c.Valid() && generators.Enough()
    ensures accepted <==>
            && AllWellFormed(c, queue)
            && var (original, plus) := AllAdded(c, generators, queue); Eq(original, 0) && Eq(plus, 0)
    ensures (forall i :: 0 <= i < |queue| ==> Valid(c, generators, queue[i].0, queue[i].1)) ==> accepted
  {
    hide Eq, Valid, WellFormed, AllAdded, Added, InternalBatchVerifier.Eval;
    var verifier := new BatchVerifier(c, generators);
    if forall i :: 0 <= i < |queue| ==> Valid(c, generators, queue[i].0, queue[i].1) {
      ValidAddNothing(c, generators, queue);
    }
    NoneAdded(c, generators, queue);
    for i := 0 to |queue|
      invariant fresh(verifier.original) && fresh(verifier.plus) && verifier.Usable(generators)
      invariant AllWellFormed(c, queue[..i])
      invariant AllAdded(c, generators, queue[..i]) ==
                (verifier.original.Eval(1, c.h, generators.original), verifier.plus.Eval(c.h, 1, generators.plus))
    {
      var (data, proof, weights) := queue[i];
      ghost var before := (verifier.original.Eval(1, c.h, generators.original), verifier.plus.Eval(c.h, 1, generators.plus));
      var ok := BatchVerify(c, generators, verifier, data, proof, weights);
      if !ok {
        return false;
      }
      OneMoreAdded(c, generators, queue, i);
    }
    assert queue[..|queue|] == queue;
    accepted := verifier.Verify(c, generators);
  }

  lemma NoneAdded(c: Curve, generators: AllGenerators, queue: seq<Queued>)
    requires c.Valid() && generators.Enough()
    ensures AllWellFormed(c, queue[..0]) && AllAdded(c, generators, queue[..0]) == (0, 0)
  {
  }

  function Lists(proof: Bulletproof): (seq<seq<byte>>, seq<seq<byte>>) {
    match proof
    case Original(bp) => (bp.ip.L, bp.ip.R)
    case Plus(bp) => (bp.wip.L, bp.wip.R)
  }

  lemma OriginalLengths(c: Curve, generators: Generators, commitments: seq<Point>, proof: Orig.Proof)
    requires c.Valid() && EnoughGenerators(generators) && IsStatement(commitments)
    requires Orig.Holds(c, generators, commitments, proof)
    ensures |proof.ip.L| == |proof.ip.R| && Padded(|commitments|) * COMMITMENT_BITS == Pow2(|proof.ip.L|)
  {
    hide Pow2, Eq, Orig.Equation65, Orig.Equation66, Orig.DeriveKeys, Orig.Ip.Replay, Padded, PowVec;
    PaddedFits(|commitments|, generators);
  }

  lemma PlusLengths(c: Curve, generators: Generators, commitments: seq<Point>, proof: Bpp.Proof)
    requires c.Valid() && EnoughGenerators(generators) && IsStatement(commitments)
    requires Bpp.Holds(c, generators, commitments, proof)
    ensures |proof.wip.L| == |proof.wip.R| && Padded(|commitments|) * COMMITMENT_BITS == Pow2(|proof.wip.L|)
  {
    hide Pow2, Bpp.DeriveKeys, Bpp.AHat, Bpp.Wip.Replay, Bpp.Wip.FinalHolds, Padded;
    PaddedFits(|commitments|, generators);
  }

  // The lengths of a valid proof's lists depend on the number of commitments only.
  lemma ListLengths(c: Curve, generators: AllGenerators, data: seq<seq<byte>>, proof: Bulletproof)
    requires c.Valid() && generators.Enough() && Valid(c, generators, data, proof)
    ensures |Lists(proof).0| == |Lists(proof).1| == PaddedLog(|data|, 0) + 6
  {
    hide Pow2, PaddedLog, Padded, Orig.Holds, Bpp.Holds, Decompress, Orig.Ip.IsLog;
    var commitments := Decompress(c, data).value;
    match proof {
      case Original(bp) =>
        OriginalLengths(c, generators.original, commitments, bp);
        ListLength(|bp.ip.L|, |commitments|);
      case Plus(bp) =>
        PlusLengths(c, generators.plus, commitments, bp);
        ListLength(|bp.wip.L|, |commitments|);
    }
  }

  lemma ListLength(len: nat, n: nat)
    requires Padded(n) * COMMITMENT_BITS == Pow2(len)
    ensures len == PaddedLog(n, 0) + 6
  {
    hide Pow2, PaddedLog, Padded;
    PaddedRows(n);
    Orig.Ip.LogOfPow2(len, PaddedLog(n, 0) + 6);
    Orig.Ip.LogOfPow2(len, len);
  }

  ghost predicate AllWhole(points: seq<seq<byte>>) {
    forall i :: 0 <= i < |points| ==> |points[i]| == 32
  }

  /** Each encoded point is thirty-two bytes. */
  ghost predicate PointsWhole(proof: Bulletproof) {
    && AllWhole(Lists(proof).0) && AllWhole(Lists(proof).1)
    && match proof
       case Original(bp) => |bp.A| == |bp.S| == |bp.T1| == |bp.T2| == 32
       case Plus(bp) => |bp.A| == |bp.wip.A| == |bp.wip.B| == 32
  }

  lemma ValidIsWhole(c: Curve, generators: AllGenerators, data: seq<seq<byte>>, proof: Bulletproof)
    requires c.Valid() && generators.Enough() && Valid(c, generators, data, proof)
    ensures PointsWhole(proof)
  {
    hide Orig.Holds, Bpp.Holds, Decompress, Orig.Ip.IsLog, Orig.Effect, Bpp.Effect, Eq, Padded;
    var commitments := Decompress(c, data).value;
    match proof {
      case Original(bp) => Orig.HoldsIffNoEffect(c, generators.original, commitments, bp);
      case Plus(bp) => Bpp.HoldsIffNoEffect(c, generators.plus, commitments, bp);
    }
  }
}
