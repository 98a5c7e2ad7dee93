/**
wallet/src/send: `transaction_without_signatures` and `sign`. What is validated is signed, and what is signed
is serialized with the weight it was validated with.
 */
module SignedTransactions {
  import opened Wrappers
  import opened Ed25519
  import opened Vectors
  import opened Fee
  import opened TransactionSizes
  import RangeAlgebra
  import Tx = Transactions
  import Orig = OriginalRangeProof
  import Bpp = PlusRangeProof
  import Bulletproofs
  import Clsag
  import ClsagDecoys
  import Send = SendAmounts
  import SendMultisig
  import Extra
  import TransactionHashes

  // ---------------------------------------------------------------------------------------------
  // The transaction, from what it is made of.

  function ScalarBytes(c: Curve, s: Scalar): (data: seq<byte>)
    requires c.Valid()
    ensures |data| == 32
  {
    c.EncodeScalar(s)
  }

  function BulletproofBytes(c: Curve, proof: Bulletproofs.Bulletproof): Tx.Bulletproof
    requires c.Valid()
  {
    match proof
    case Original(p) =>
      Tx.Original(p.A, p.S, p.T1, p.T2, ScalarBytes(c, p.tauX), ScalarBytes(c, p.mu), p.ip.L, p.ip.R,
                  ScalarBytes(c, p.ip.a), ScalarBytes(c, p.ip.b), ScalarBytes(c, p.tHat))
    case Plus(p) =>
      Tx.Plus(p.A, p.wip.A, p.wip.B, ScalarBytes(c, p.wip.rAnswer), ScalarBytes(c, p.wip.sAnswer),
              ScalarBytes(c, p.wip.deltaAnswer), p.wip.L, p.wip.R)
  }

  function ClsagBytes(c: Curve, signature: Clsag.Signature): Tx.Clsag
    requires c.Valid()
  {
    Tx.Clsag(seq(|signature.s|, i requires 0 <= i < |signature.s| => ScalarBytes(c, signature.s[i])),
             ScalarBytes(c, signature.c1), signature.D)
  }

  /** An output: its key, its view tag, and its encrypted amount. */
  datatype Output = Output(key: seq<byte>, viewTag: byte, encryptedAmount: seq<byte>) {
    predicate Valid() {
      |key| == 32 && |encryptedAmount| == 8
    }
  }

  function Inputs(plan: Plan, keyImages: seq<seq<byte>>): (inputs: seq<Tx.Input>)
    requires |keyImages| == |plan.keyOffsets|
    ensures |inputs| == |keyImages|
    ensures forall i :: 0 <= i < |inputs| ==> inputs[i] == Tx.ToKey(None, plan.keyOffsets[i], keyImages[i])
  {
    seq(|keyImages|, i requires 0 <= i < |keyImages| => Tx.ToKey(None, plan.keyOffsets[i], keyImages[i]))
  }

  function Prefix(c: Curve, plan: Plan, keyImages: seq<seq<byte>>, outputs: seq<Output>): Tx.TransactionPrefix
    requires |keyImages| == |plan.keyOffsets|
  {
    Tx.TransactionPrefix(
      Tx.NoTimelock,
      Inputs(plan, keyImages),
      seq(|outputs|, i requires 0 <= i < |outputs| =>
        Tx.Output(None, outputs[i].key, if plan.plus then Some(outputs[i].viewTag) else None)),
      plan.extra)
  }

  function Base(c: Curve, fee: nat, outputs: seq<Output>, commitments: seq<Point>): Tx.RctBase
    requires c.Valid()
  {
    Tx.RctBase(fee, [],
               seq(|outputs|, i requires 0 <= i < |outputs| => Tx.CompactAmount(outputs[i].encryptedAmount)),
               seq(|commitments|, i requires 0 <= i < |commitments| => c.Encode(commitments[i])))
  }

  function Prunable(c: Curve, proof: Bulletproofs.Bulletproof, signed: seq<(Clsag.Signature, Point)>): Tx.RctPrunable
    requires c.Valid()
  {
    Tx.ClsagProofs(BulletproofBytes(c, proof),
                   seq(|signed|, i requires 0 <= i < |signed| => ClsagBytes(c, signed[i].0)),
                   seq(|signed|, i requires 0 <= i < |signed| => c.Encode(signed[i].1)))
  }

  /** With no signatures this is `transaction_without_signatures`, and with them what `sign` returns. */
  function Assemble(c: Curve, plan: Plan, keyImages: seq<seq<byte>>, outputs: seq<Output>, fee: nat, commitments: seq<Point>,
                    proof: Bulletproofs.Bulletproof, signed: seq<(Clsag.Signature, Point)>): Tx.Transaction
    requires c.Valid() && |keyImages| == |plan.keyOffsets|
  {
    Tx.Transaction(Prefix(c, plan, keyImages, outputs),
                   Tx.Proofs(Some(Tx.RctProofs(Base(c, fee, outputs, commitments), Prunable(c, proof, signed)))))
  }

  /** The signatures are for rings of this length, and there is one for each input. */
  ghost predicate SignaturesFit(signed: seq<(Clsag.Signature, Point)>, inputs: nat, ring: nat) {
    |signed| == inputs && forall i :: 0 <= i < |signed| ==> |signed[i].0.D| == 32 && |signed[i].0.s| == ring
  }

  lemma BulletproofBytesWhole(c: Curve, proof: Bulletproofs.Bulletproof)
    requires c.Valid() && Bulletproofs.PointsWhole(proof)
    ensures Whole(BulletproofBytes(c, proof))
    ensures BulletproofBytes(c, proof).Plus? <==> proof.Plus?
    ensures BulletproofBytes(c, proof).L == Bulletproofs.Lists(proof).0
    ensures BulletproofBytes(c, proof).R == Bulletproofs.Lists(proof).1
  {
    hide ScalarBytes;
  }

  lemma ClsagBytesWhole(c: Curve, signature: Clsag.Signature, ring: nat)
    requires c.Valid() && |signature.D| == 32 && |signature.s| == ring
    ensures ClsagWhole(ClsagBytes(c, signature), ring)
  {
    hide ScalarBytes;
  }

  lemma PrunableFits(c: Curve, generators: Bulletproofs.AllGenerators, plan: Plan, commitments: seq<Point>,
                     proof: Bulletproofs.Bulletproof, signed: seq<(Clsag.Signature, Point)>)
    requires c.Valid() && generators.Enough()
    requires |commitments| == plan.outputs <= 16 && (proof.Plus? <==> plan.plus)
    requires Bulletproofs.Valid(c, generators, Bulletproofs.CompressAll(c, commitments), proof)
    requires SignaturesFit(signed, |plan.keyOffsets|, plan.Ring())
    ensures PrunableShaped(Prunable(c, proof, signed), plan.Shape())
  {
    hide Bulletproofs.Valid, Bulletproofs.CompressAll, BulletproofBytes, Whole, Bulletproofs.PointsWhole, ClsagBytes, ClsagWhole,
         RangeAlgebra.PaddedLog, Curve.Encode;
    Bulletproofs.ValidIsWhole(c, generators, Bulletproofs.CompressAll(c, commitments), proof);
    Bulletproofs.ListLengths(c, generators, Bulletproofs.CompressAll(c, commitments), proof);
    BulletproofBytesWhole(c, proof);
    forall i | 0 <= i < |signed|
      ensures ClsagWhole(ClsagBytes(c, signed[i].0), plan.Ring())
    {
      ClsagBytesWhole(c, signed[i].0, plan.Ring());
    }
  }

  // What is assembled follows the plan.
  lemma AssembledFollows(c: Curve, generators: Bulletproofs.AllGenerators, plan: Plan, keyImages: seq<seq<byte>>,
                         outputs: seq<Output>, fee: nat, commitments: seq<Point>, proof: Bulletproofs.Bulletproof,
                         signed: seq<(Clsag.Signature, Point)>)
    requires c.Valid() && generators.Enough()
    requires |keyImages| == |plan.keyOffsets| && forall i :: 0 <= i < |keyImages| ==> |keyImages[i]| == 32
    requires |outputs| == |commitments| == plan.outputs <= 16 && forall i :: 0 <= i < |outputs| ==> outputs[i].Valid()
    requires Bulletproofs.Valid(c, generators, Bulletproofs.CompressAll(c, commitments), proof) && (proof.Plus? <==> plan.plus)
    requires SignaturesFit(signed, |plan.keyOffsets|, plan.Ring())
    ensures var tx := Assemble(c, plan, keyImages, outputs, fee, commitments, proof, signed);
            Follows(tx, plan) && IsClsag(tx) && FeeOf(tx) == fee
  {
    hide Bulletproofs.Valid, Bulletproofs.CompressAll, PrunableShaped, Prunable, SignaturesFit, LrLen, Curve.Encode;
    PrunableFits(c, generators, plan, commitments, proof, signed);
    PrunableKind(c, proof, signed);
  }

  lemma PrunableKind(c: Curve, proof: Bulletproofs.Bulletproof, signed: seq<(Clsag.Signature, Point)>)
    requires c.Valid()
    ensures Prunable(c, proof, signed).ClsagProofs?
  {
  }

  // ---------------------------------------------------------------------------------------------
  // Orders.

  function Map<S, T>(f: S -> T, s: seq<S>): (r: seq<T>)
    ensures |r| == |s|
    ensures forall i :: 0 <= i < |s| ==> r[i] == f(s[i])
  {
    seq(|s|, i requires 0 <= i < |s| => f(s[i]))
  }

  lemma {:induction false} MapPermuted<S, T>(f: S -> T, a: seq<S>, b: seq<S>)
    requires multiset(a) == multiset(b)
    ensures multiset(Map(f, a)) == multiset(Map(f, b))
    decreases |a|
  {
    hide Map;
    if a == [] {
      assert |multiset(b)| == 0;
      assert b == [];
    } else {
      var i := PermutedRest(a, b);
      MapPermuted(f, a[1..], b[..i] + b[i + 1..]);
      MapFirst(f, a);
      MapTaken(f, b, i);
    }
  }

  lemma MapFirst<S, T>(f: S -> T, s: seq<S>)
    requires s != []
    ensures multiset(Map(f, s)) == multiset(Map(f, s[1..])) + multiset{f(s[0])}
  {
    assert Map(f, s) == [f(s[0])] + Map(f, s[1..]);
  }

  lemma MapTaken<S, T>(f: S -> T, s: seq<S>, i: nat)
    requires i < |s|
    ensures multiset(Map(f, s)) == multiset(Map(f, s[..i] + s[i + 1..])) + multiset{f(s[i])}
  {
    assert Map(f, s) == Map(f, s[..i]) + [f(s[i])] + Map(f, s[i + 1..]);
    assert Map(f, s[..i] + s[i + 1..]) == Map(f, s[..i]) + Map(f, s[i + 1..]);
  }

  lemma {:induction false} TotalAnywhere(amounts: seq<u64>, i: nat)
    requires i < |amounts|
    ensures Send.Total(amounts) == amounts[i] + Send.Total(amounts[..i] + amounts[i + 1..])
  {
    if i == 0 {
      assert amounts[..0] + amounts[1..] == amounts[1..];
    } else {
      TotalAnywhere(amounts[1..], i - 1);
      assert (amounts[..i] + amounts[i + 1..])[1..] == amounts[1..][..i - 1] + amounts[1..][i..];
    }
  }

  lemma {:induction false} TotalPermuted(a: seq<u64>, b: seq<u64>)
    requires multiset(a) == multiset(b)
    ensures Send.Total(a) == Send.Total(b)
    decreases |a|
  {
    hide Send.Total;
    assert |a| == |multiset(a)| == |multiset(b)| == |b|;
    if a == [] {
      assert b == [];
    } else {
      var i := PermutedRest(a, b);
      assert a[..0] + a[1..] == a[1..];
      TotalPermuted(a[1..], b[..i] + b[i + 1..]);
      TotalAnywhere(a, 0);
      TotalAnywhere(b, i);
    }
  }

  function AmountOf(spent: Send.SpentInput): u64 {
    spent.amount
  }

  function OffsetsOf(spent: Send.SpentInput): seq<nat> {
    spent.offsets
  }

  // Nothing that is checked of a transaction to sign depends on the order of its inputs.
  lemma InAnyOrder(intent: Send.Intent, sorted: Send.Intent, weight: nat, necessaryFee: nat)
    requires sorted == intent.(inputs := sorted.inputs) && multiset(sorted.inputs) == multiset(intent.inputs)
    requires intent.feeRate.Valid() && IsNecessary(intent.feeRate, PlannedWeight(intent.Plan()), weight, necessaryFee)
    requires Send.Funded(intent.Amounts(), intent.payments, necessaryFee)
    ensures Send.Funded(sorted.Amounts(), sorted.payments, necessaryFee)
    ensures IsNecessary(sorted.feeRate, PlannedWeight(sorted.Plan()), weight, necessaryFee)
    ensures |sorted.inputs| == |intent.inputs|
  {
    hide IsNecessary, PlannedWeight;
    assert |sorted.inputs| == |multiset(sorted.inputs)| == |multiset(intent.inputs)| == |intent.inputs|;
    MapPermuted(AmountOf, sorted.inputs, intent.inputs);
    assert sorted.Amounts() == Map(AmountOf, sorted.inputs) && intent.Amounts() == Map(AmountOf, intent.inputs);
    TotalPermuted(sorted.Amounts(), intent.Amounts());
    MapPermuted(OffsetsOf, sorted.inputs, intent.inputs);
    assert sorted.Plan().keyOffsets == Map(OffsetsOf, sorted.inputs);
    assert intent.Plan().keyOffsets == Map(OffsetsOf, intent.inputs);
    PlannedWeightPermuted(sorted.Plan(), intent.Plan());
  }

  // ---------------------------------------------------------------------------------------------
  // Signing.

  /** What is known of an input to spend it: the secret of its key, its ring, and its opening. */
  datatype Spending = Spending(key: Scalar, decoys: ClsagDecoys.Decoys, commitment: Commitment) {
    function Input(): Clsag.Input {
      Clsag.Input(key, Clsag.Context(commitment, decoys))
    }
  }

  datatype SignError = WrongPrivateKey | ClsagFailed(error: Clsag.ClsagError)

  type Spend = (Send.SpentInput, Spending)

  /** An input under its key image, with what is known to spend it. */
  type Entry = (seq<byte>, Spend)

  function InputOf(e: Entry): Send.SpentInput {
    e.1.0
  }

  function ImageOf(e: Entry): seq<byte> {
    e.0
  }

  /** What is known is of the input. */
  ghost predicate Matches(spend: Spend) {
    spend.1.decoys.Valid() && spend.1.decoys.offsets == spend.0.offsets && spend.1.commitment.amount == spend.0.amount
  }

  /** The secret is that of the input's key. */
  predicate KeyIs(spend: Spend) {
    (BASEPOINT * Red(spend.1.key)) % (8 * L) == spend.0.key % (8 * L)
  }

  function KeyImage(c: Curve, spend: Spend): (image: seq<byte>)
    requires c.Valid()
    ensures |image| == 32
  {
    c.Encode(Clsag.ImageGenerator(c, spend.0.key) * Red(spend.1.key))
  }

  /** The signer's member in the ring is the input: it has its key, and its commitment opens. */
  ghost predicate InRing(c: Curve, spend: Spend)
    requires c.Valid()
  {
    spend.1.Input().Valid(c) && spend.1.Input().KeyMatches()
  }

  /** The input under its own key image, with its own secret. */
  ghost predicate Ready(c: Curve, e: Entry)
    requires c.Valid()
  {
    Matches(e.1) && KeyIs(e.1) && e.0 == KeyImage(c, e.1)
  }

  // The key image is that of the ring's member.
  lemma ImageIs(c: Curve, e: Entry)
    requires c.Valid() && Ready(c, e) && InRing(c, e.1)
    ensures e.0 == c.Encode(e.1.1.Input().KeyImage(c))
  {
    var key := e.1.1.Input().context.Signer().0;
    assert EqPoint(e.1.0.key, key);
    assert c.Encode(e.1.0.key) == c.Encode(key);
  }

  method KeyImages(c: Curve, spends: seq<Spend>) returns (images: Option<seq<seq<byte>>>)
    requires c.Valid()
    ensures images.Some? <==> forall i :: 0 <= i < |spends| ==> KeyIs(spends[i])
    ensures images.Some? ==>
              |images.value| == |spends| && forall i :: 0 <= i < |spends| ==> images.value[i] == KeyImage(c, spends[i])
  {
    hide KeyImage, KeyIs;
    var found: seq<seq<byte>> := [];
    for i := 0 to |spends|
      invariant |found| == i
      invariant forall k :: 0 <= k < i ==> KeyIs(spends[k]) && found[k] == KeyImage(c, spends[k])
    {
      if !KeyIs(spends[i]) {
        return None;
      }
      found := found + [KeyImage(c, spends[i])];
    }
    images := Some(found);
  }

  method OpenContexts(c: Curve, entries: seq<Entry>) returns (res: Result<seq<Clsag.Input>, Clsag.ClsagError>)
    requires c.Valid() && forall i :: 0 <= i < |entries| ==> Matches(entries[i].1)
    ensures res.Ok? <==> forall i :: 0 <= i < |entries| ==> entries[i].1.1.Input().Valid(c)
    ensures res.Ok? ==> |res.value| == |entries| && forall i :: 0 <= i < |entries| ==> res.value[i] == entries[i].1.1.Input()
  {
    hide Clsag.Context.Valid;
    var inputs: seq<Clsag.Input> := [];
    for i := 0 to |entries|
      invariant |inputs| == i
      invariant forall k :: 0 <= k < i ==> inputs[k] == entries[k].1.1.Input() && entries[k].1.1.Input().Valid(c)
    {
      var spending := entries[i].1.1;
      var context := Clsag.NewContext(c, spending.decoys, spending.commitment);
      if context.Err? {
        return Err(context.error);
      }
      inputs := inputs + [Clsag.Input(spending.key, context.value)];
    }
    res := Ok(inputs);
  }

  /** The range proof is the one which these openings and blinds make. */
  ghost predicate ProvedWith(c: Curve, generators: Bulletproofs.AllGenerators, openings: seq<Commitment>, blinds: Orig.Blinds,
                             plusBlinds: Bpp.Blinds, proof: Bulletproofs.Bulletproof)
    requires c.Valid() && generators.Enough()
  {
    && 0 < |openings| <= 16
    && var commitments := Bulletproofs.Reduced(Bulletproofs.Commit(c, openings));
       match proof
       case Original(p) => Orig.MadeFrom(c, generators.original, commitments, openings, blinds, p)
       case Plus(p) => Bpp.MadeFrom(c, generators.plus, commitments, openings, plusBlinds, p)
  }

  /** The range proof of the outputs, of the transaction's kind. */
  method ProveOutputs(c: Curve, generators: Bulletproofs.AllGenerators, plus: bool, openings: seq<Commitment>,
                      blinds: Orig.Blinds, plusBlinds: Bpp.Blinds)
    returns (proof: Bulletproofs.Bulletproof)
    requires c.Valid() && generators.Enough() && 0 < |openings| <= 16
    requires forall i :: 0 <= i < |openings| ==> openings[i].amount < Pow2(64)
    requires |blinds.sL| == |blinds.sR| == RangeAlgebra.Padded(|openings|) * 64
    requires |plusBlinds.wip.d| == RangeAlgebra.PaddedLog(|openings|, 0) + 6
    ensures proof.Plus? <==> plus
    ensures Bulletproofs.Valid(c, generators, Bulletproofs.CompressAll(c, Bulletproofs.Commit(c, openings)), proof)
    ensures ProvedWith(c, generators, openings, blinds, plusBlinds, proof)
  {
    hide Orig.MadeFrom, Bpp.MadeFrom, Bulletproofs.Valid, RangeAlgebra.Padded, RangeAlgebra.PaddedLog, Bulletproofs.Commit,
         Bulletproofs.CompressAll, Pow2;
    var res;
    if plus {
      res := Bulletproofs.ProvePlus(c, generators, openings, plusBlinds);
    } else {
      res := Bulletproofs.Prove(c, generators, openings, blinds);
    }
    match res {
      case Ok(value) => proof := value;
      case Err(NoCommitments) => assert false;
      case Err(TooManyCommitments) => assert false;
    }
  }

  /** The openings of the outputs' commitments. */
  function Openings(masks: seq<Scalar>, amounts: seq<u64>): (r: seq<Commitment>)
    requires |masks| == |amounts|
    ensures |r| == |masks|
  {
    seq(|masks|, i requires 0 <= i < |masks| => Commitment(masks[i], amounts[i]))
  }

  lemma OpeningsCommit(c: Curve, masks: seq<Scalar>, amounts: seq<u64>)
    requires |masks| == |amounts|
    ensures Bulletproofs.Commit(c, Openings(masks, amounts)) == Send.Commitments(c, masks, amounts)
    ensures forall i :: 0 <= i < |masks| ==> Openings(masks, amounts)[i].amount < Pow2(64)
  {
    hide Pow2, Commitment.Commit;
    Extra.SmallLengths();
  }

  /** What a signed transaction is made of. */
  datatype Parts = Parts(inputs: seq<Clsag.Input>, pseudoMasks: seq<Scalar>, commitments: seq<Point>,
                         proof: Bulletproofs.Bulletproof, signed: seq<(Clsag.Signature, Point)>)

  /** The answer of a verifier to the k-th signature, given the ring. All else is in the transaction. */
  function VerdictOf(c: Curve, keccak: Keccak, tx: Tx.Transaction, k: nat, input: Clsag.Input, signature: Clsag.Signature)
    : Result<(), Clsag.ClsagError>
    requires c.Valid() && IsHash(keccak) && IsClsag(tx)
    requires k < |tx.prefix.inputs| && tx.prefix.inputs[k].ToKey? && k < |tx.body.proofs.value.prunable.pseudoOuts|
  {
    Clsag.Verdict(c, signature, Clsag.EncodeRing(c, input.context.decoys.ring), tx.prefix.inputs[k].keyImage,
                  tx.body.proofs.value.prunable.pseudoOuts[k], TransactionHashes.SignatureHash(keccak, tx).value)
  }

  /** Every signature is answered as an honest one, for the transaction's own message. */
  ghost predicate Verifies(c: Curve, keccak: Keccak, tx: Tx.Transaction, parts: Parts)
    requires c.Valid() && IsHash(keccak)
  {
    && |parts.inputs| == |parts.pseudoMasks| == |parts.signed| == |tx.prefix.inputs| && IsClsag(tx)
    && |tx.body.proofs.value.prunable.pseudoOuts| == |parts.inputs|
    && forall k :: 0 <= k < |parts.inputs| ==>
         && tx.prefix.inputs[k].ToKey? && parts.inputs[k].context.decoys.Valid()
         && tx.prefix.inputs[k].keyOffsets == parts.inputs[k].context.decoys.offsets
         && VerdictOf(c, keccak, tx, k, parts.inputs[k], parts.signed[k].0) ==
            Clsag.ExpectedFor(c, parts.inputs[k], parts.pseudoMasks[k])
  }

  /** What a signed transaction has been shown to be. */
  ghost predicate Signed(c: Curve, keccak: Keccak, generators: Bulletproofs.AllGenerators, intent: Send.Intent,
                         images: seq<seq<byte>>, drawn: Drawn, weight: nat, necessaryFee: nat, tx: Tx.Transaction, parts: Parts)
    requires c.Valid() && IsHash(keccak) && generators.Enough()
  {
    && Send.Funded(intent.Amounts(), intent.payments, necessaryFee) && |images| == |intent.inputs|
    && |drawn.masks| == |intent.payments|
    && var amounts := Send.OutputAmounts(intent.Amounts(), intent.payments, intent.payments, necessaryFee);
    && var fee := Send.FeePaid(intent.Amounts(), intent.payments, necessaryFee);
    && parts.commitments == Send.Commitments(c, drawn.masks, amounts)
    && tx == Assemble(c, intent.Plan(), images, drawn.outputs, fee, parts.commitments, parts.proof, parts.signed)
    && Follows(tx, intent.Plan())
    // With change, it weighs what it was validated to weigh
    && (Send.Changes(intent.payments) > 0 ==> Weight(tx) == weight)
    // The range proof is valid for the commitments, and is the one which their openings and what was drawn for it make
    && Bulletproofs.Valid(c, generators, Bulletproofs.CompressAll(c, parts.commitments), parts.proof)
    && ProvedWith(c, generators, Openings(drawn.masks, amounts), drawn.blinds, drawn.plusBlinds, parts.proof)
    // The pseudo-outs are worth the outputs and the fee
    && Send.Balanced(c, Map(PseudoOut, parts.signed), parts.commitments, fee)
    && Verifies(c, keccak, tx, parts)
  }

  function PseudoOut(signed: (Clsag.Signature, Point)): Point {
    signed.1
  }

  /** The signatures, for the transaction's own message, are the ones which what was drawn makes. */
  ghost predicate SignedWith(c: Curve, keccak: Keccak, tx: Tx.Transaction, parts: Parts, randomness: seq<Clsag.Randomness>)
    requires c.Valid() && IsHash(keccak)
  {
    && IsClsag(tx) && |parts.inputs| == |parts.pseudoMasks| == |parts.signed| == |randomness|
    && (forall k :: 0 <= k < |randomness| - 1 ==> parts.pseudoMasks[k] == randomness[k].mask)
    && forall k :: 0 <= k < |randomness| ==>
         && parts.inputs[k].context.decoys.Valid() && |randomness[k].s| == |parts.inputs[k].context.decoys.ring|
         && Clsag.MadeOf(c, parts.inputs[k], parts.pseudoMasks[k], randomness[k].nonce, randomness[k].s,
                         TransactionHashes.SignatureHash(keccak, tx).value, parts.signed[k].0)
  }

  /** The order of the transaction: the entries by their key images, the greatest first. */
  function Ordered(entries: seq<Entry>): (r: seq<Entry>)
    ensures |r| == |entries| && multiset(r) == multiset(entries) && SendMultisig.Sorted(r)
  {
    SendMultisig.SortSorts(entries);
    SendMultisig.Sort(entries)
  }

  lemma AllPermuted<T>(a: seq<T>, b: seq<T>, p: T -> bool)
    requires multiset(a) == multiset(b) && forall i :: 0 <= i < |a| ==> p(a[i])
    ensures forall i :: 0 <= i < |b| ==> p(b[i])
  {
    forall i | 0 <= i < |b|
      ensures p(b[i])
    {
      assert b[i] in multiset(b);
      assert b[i] in a;
    }
  }

  lemma OrderedAll(entries: seq<Entry>, p: Entry -> bool)
    ensures (forall i :: 0 <= i < |entries| ==> p(entries[i])) <==>
            (forall k :: 0 <= k < |entries| ==> p(Ordered(entries)[k]))
  {
    hide Ordered;
    if forall i :: 0 <= i < |entries| ==> p(entries[i]) {
      AllPermuted(entries, Ordered(entries), p);
    }
    if forall k :: 0 <= k < |entries| ==> p(Ordered(entries)[k]) {
      AllPermuted(Ordered(entries), entries, p);
    }
  }

  /** What is drawn, and what is derived for the outputs. */
  datatype Drawn = Drawn(outputs: seq<Output>, masks: seq<Scalar>, blinds: Orig.Blinds, plusBlinds: Bpp.Blinds)
  {
    ghost predicate Fits(intent: Send.Intent) {
      && |outputs| == |masks| == |intent.payments| && (forall i :: 0 <= i < |outputs| ==> outputs[i].Valid())
      && |blinds.sL| == |blinds.sR| == RangeAlgebra.Padded(|masks|) * 64
      && |plusBlinds.wip.d| == RangeAlgebra.PaddedLog(|masks|, 0) + 6
    }
  }

  /** What is drawn for the inputs. */
  ghost predicate RandomnessFits(randomness: seq<Clsag.Randomness>, inputs: nat, ring: nat) {
    |randomness| == inputs && forall i :: 0 <= i < |randomness| ==> |randomness[i].s| == ring
  }

  /** What there is of a transaction before it is signed: its fee, its commitments, and its range proof. */
  method Prepare(c: Curve, generators: Bulletproofs.AllGenerators, intent: Send.Intent, ghost weight: nat,
                 ghost validatedFee: nat, drawn: Drawn)
    returns (necessaryFee: nat, fee: u64, commitments: seq<Point>, proof: Bulletproofs.Bulletproof)
    requires c.Valid() && generators.Enough()
    requires intent.feeRate.Valid() && intent.Plan().Valid() && 2 <= |intent.payments| <= 16
    requires IsNecessary(intent.feeRate, PlannedWeight(intent.Plan()), weight, validatedFee)
    requires Send.Funded(intent.Amounts(), intent.payments, validatedFee) && drawn.Fits(intent)
    ensures necessaryFee == validatedFee && fee == Send.FeePaid(intent.Amounts(), intent.payments, validatedFee)
    ensures commitments ==
            Send.Commitments(c, drawn.masks,
                             Send.OutputAmounts(intent.Amounts(), intent.payments, intent.payments, validatedFee))
    ensures |commitments| == |intent.payments| && (proof.Plus? <==> intent.Plan().plus)
    ensures Bulletproofs.Valid(c, generators, Bulletproofs.CompressAll(c, commitments), proof)
    ensures ProvedWith(c, generators,
                       Openings(drawn.masks, Send.OutputAmounts(intent.Amounts(), intent.payments, intent.payments, validatedFee)),
                       drawn.blinds, drawn.plusBlinds, proof)
  {
    hide Send.Funded, Send.FeePaid, Send.OutputAmounts, Send.Commitments, Bulletproofs.Commit, Bulletproofs.CompressAll,
         Bulletproofs.Valid, ProvedWith, IsNecessary, PlannedWeight, LrLen, RangeAlgebra.Padded, RangeAlgebra.PaddedLog,
         Openings, Follows, Weight;
    var plan := intent.Plan();
    var weighed;
    weighed, necessaryFee := WeightAndNecessaryFee(plan, intent.feeRate);
    NecessaryIsUnique(intent.feeRate, PlannedWeight(plan), weight, validatedFee, weighed, necessaryFee);
    var amounts := Send.CommitmentAmounts(intent.Amounts(), intent.payments, necessaryFee);
    fee := Send.TransactionFee(intent.Amounts(), intent.payments, necessaryFee);
    OpeningsCommit(c, drawn.masks, amounts);
    commitments := Send.Commitments(c, drawn.masks, amounts);
    proof := ProveOutputs(c, generators, plan.plus, Openings(drawn.masks, amounts), drawn.blinds, drawn.plusBlinds);
  }

  /** The inputs are in their order: their signatures, and the transaction. */
  method SignOrdered(c: Curve, keccak: Keccak, generators: Bulletproofs.AllGenerators, intent: Send.Intent, entries: seq<Entry>,
                     ghost weight: nat, ghost validatedFee: nat, drawn: Drawn, randomness: seq<Clsag.Randomness>)
    returns (res: Result<Tx.Transaction, Clsag.ClsagError>, ghost parts: Option<Parts>)
    requires c.Valid() && IsHash(keccak) && generators.Enough()
    requires 0 < |intent.inputs| <= ADDRESSABLE && intent.Supported() && 2 <= |intent.payments| <= 16
    requires intent.feeRate.Valid() && intent.Plan().Valid()
    requires IsNecessary(intent.feeRate, PlannedWeight(intent.Plan()), weight, validatedFee)
    requires Send.Funded(intent.Amounts(), intent.payments, validatedFee)
    requires Map(InputOf, entries) == intent.inputs && forall i :: 0 <= i < |entries| ==> Ready(c, entries[i])
    requires drawn.Fits(intent) && RandomnessFits(randomness, |intent.inputs|, intent.Ring())
    ensures res.Ok? <==> forall i :: 0 <= i < |entries| ==> InRing(c, entries[i].1)
    ensures res.Ok? ==>
              && parts.Some?
              && Signed(c, keccak, generators, intent, Map(ImageOf, entries), drawn, weight, validatedFee, res.value, parts.value)
              && SignedWith(c, keccak, res.value, parts.value, randomness)
  {
    hide ProvedWith, Openings, Send.Funded, Send.FeePaid, Send.OutputAmounts, Send.Commitments, Bulletproofs.CompressAll,
         Bulletproofs.Valid, IsNecessary, PlannedWeight, Clsag.Answered, Clsag.MadeOf, Send.Balanced, RangeAlgebra.Padded,
         RangeAlgebra.PaddedLog, Signed, Clsag.Input.KeyMatches, Clsag.Context.Valid, Curve.Encode, Assemble, Map, KeyIs,
         KeyImage, TransactionHashes.SignatureHash;
    parts := None;
    var contexts := OpenContexts(c, entries);
    if contexts.Err? {
      res := Err(contexts.error);
      return;
    }
    EntriesFit(c, intent, entries);
    var plan := intent.Plan();
    var necessaryFee, fee, commitments, proof := Prepare(c, generators, intent, weight, validatedFee, drawn);
    var images := Map(ImageOf, entries);
    var unsigned := Assemble(c, plan, images, drawn.outputs, fee, commitments, proof, []);
    MessageOf(c, keccak, plan, images, drawn.outputs, fee, commitments, proof, []);
    var msg := TransactionHashes.SignatureHash(keccak, unsigned).value;
    ghost var pseudoMasks;
    var signed;
    signed, pseudoMasks := Send.SignInputs(c, contexts.value, intent.payments, necessaryFee, drawn.masks, msg, randomness,
                                           intent.Amounts());
    if signed.Err? {
      res := Err(signed.error);
      return;
    }
    var tx := Assemble(c, plan, images, drawn.outputs, fee, commitments, proof, signed.value);
    assert Map(PseudoOut, signed.value) == seq(|entries|, i requires 0 <= i < |entries| => signed.value[i].1);
    res := Ok(tx);
    parts := Some(Parts(contexts.value, pseudoMasks, commitments, proof, signed.value));
    MessageOf(c, keccak, plan, images, drawn.outputs, fee, commitments, proof, signed.value);
    AssembledIs(c, plan, images, drawn.outputs, fee, commitments, proof, signed.value);
    SignedIs(c, keccak, generators, intent, entries, drawn, weight, validatedFee, parts.value, msg);
  }

  lemma AssembledIs(c: Curve, plan: Plan, images: seq<seq<byte>>, outputs: seq<Output>, fee: nat, commitments: seq<Point>,
                    proof: Bulletproofs.Bulletproof, signed: seq<(Clsag.Signature, Point)>)
    requires c.Valid() && |images| == |plan.keyOffsets|
    ensures IsClsag(Assemble(c, plan, images, outputs, fee, commitments, proof, signed))
  {
    hide Prefix, Base, BulletproofBytes, ClsagBytes;
  }

  // What was prepared is, with signatures for its message, what a signed transaction is to be.
  lemma SignedIs(c: Curve, keccak: Keccak, generators: Bulletproofs.AllGenerators, intent: Send.Intent, entries: seq<Entry>,
                 drawn: Drawn, weight: nat, necessaryFee: nat, parts: Parts, msg: seq<byte>)
    requires c.Valid() && IsHash(keccak) && generators.Enough()
    requires intent.Supported() && 2 <= |intent.payments| <= 16 && intent.feeRate.Valid() && intent.Plan().Valid()
    requires IsNecessary(intent.feeRate, PlannedWeight(intent.Plan()), weight, necessaryFee)
    requires Send.Funded(intent.Amounts(), intent.payments, necessaryFee) && drawn.Fits(intent)
    requires Map(InputOf, entries) == intent.inputs
    requires forall i :: 0 <= i < |entries| ==> Ready(c, entries[i]) && InRing(c, entries[i].1)
    requires parts.commitments ==
             Send.Commitments(c, drawn.masks,
                              Send.OutputAmounts(intent.Amounts(), intent.payments, intent.payments, necessaryFee))
    requires Bulletproofs.Valid(c, generators, Bulletproofs.CompressAll(c, parts.commitments), parts.proof)
    requires ProvedWith(c, generators,
                        Openings(drawn.masks, Send.OutputAmounts(intent.Amounts(), intent.payments, intent.payments, necessaryFee)),
                        drawn.blinds, drawn.plusBlinds, parts.proof)
    requires parts.proof.Plus? <==> intent.Plan().plus
    requires |parts.inputs| == |parts.pseudoMasks| == |parts.signed| == |entries|
    requires forall k :: 0 <= k < |entries| ==>
               && parts.inputs[k] == entries[k].1.1.Input()
               && Clsag.Answered(c, parts.inputs[k], parts.pseudoMasks[k], parts.signed[k].0, parts.signed[k].1, msg)
               && |parts.signed[k].0.D| == 32 && |parts.signed[k].0.s| == |parts.inputs[k].context.decoys.ring|
    requires Send.Balanced(c, Map(PseudoOut, parts.signed), parts.commitments,
                           Send.FeePaid(intent.Amounts(), intent.payments, necessaryFee))
    requires var fee := Send.FeePaid(intent.Amounts(), intent.payments, necessaryFee);
             TransactionHashes.SignatureHash(keccak,
               Assemble(c, intent.Plan(), Map(ImageOf, entries), drawn.outputs, fee, parts.commitments, parts.proof, [])) == Some(msg)
    ensures var fee := Send.FeePaid(intent.Amounts(), intent.payments, necessaryFee);
            Signed(c, keccak, generators, intent, Map(ImageOf, entries), drawn, weight, necessaryFee,
                   Assemble(c, intent.Plan(), Map(ImageOf, entries), drawn.outputs, fee, parts.commitments, parts.proof,
                            parts.signed),
                   parts)
  {
    hide ProvedWith, Openings, Send.Funded, Send.FeePaid, Send.OutputAmounts, Send.Commitments, Bulletproofs.CompressAll,
         Bulletproofs.Valid, Follows, Weight, IsNecessary, PlannedWeight, Clsag.Answered, Send.Balanced, LrLen,
         RangeAlgebra.Padded, RangeAlgebra.PaddedLog, Send.Changes, Curve.Encode, Assemble, Map, KeyIs, KeyImage, Verifies,
         InRing, TransactionHashes.SignatureHash;
    EntriesFit(c, intent, entries);
    var plan := intent.Plan();
    var fee := Send.FeePaid(intent.Amounts(), intent.payments, necessaryFee);
    var images := Map(ImageOf, entries);
    var tx := Assemble(c, plan, images, drawn.outputs, fee, parts.commitments, parts.proof, parts.signed);
    MessageOf(c, keccak, plan, images, drawn.outputs, fee, parts.commitments, parts.proof, parts.signed);
    AssembledFollows(c, generators, plan, images, drawn.outputs, fee, parts.commitments, parts.proof, parts.signed);
    ChangePaid(intent.Amounts(), intent.payments, necessaryFee);
    if Send.Changes(intent.payments) > 0 {
      WeightOfNecessary(plan, intent.feeRate, weight, necessaryFee, tx);
    }
    SignedVerifies(c, keccak, plan, entries, drawn.outputs, fee, parts, msg);
  }

  // The message does not depend on the signatures.
  lemma MessageOf(c: Curve, keccak: Keccak, plan: Plan, images: seq<seq<byte>>, outputs: seq<Output>, fee: nat,
                  commitments: seq<Point>, proof: Bulletproofs.Bulletproof, signed: seq<(Clsag.Signature, Point)>)
    requires c.Valid() && IsHash(keccak) && |images| == |plan.keyOffsets|
    ensures var hash := TransactionHashes.SignatureHash(keccak,
                          Assemble(c, plan, images, outputs, fee, commitments, proof, signed));
            && hash.Some? && |hash.value| == 32
            && hash == TransactionHashes.SignatureHash(keccak,
                         Assemble(c, plan, images, outputs, fee, commitments, proof, []))
  {
    hide Prefix, Base, BulletproofBytes, ClsagBytes;
  }

  // What is answered for the message, the key images and the pseudo-outs which are in the transaction.
  lemma SignedVerifies(c: Curve, keccak: Keccak, plan: Plan, entries: seq<Entry>, outputs: seq<Output>, fee: nat, parts: Parts,
                       msg: seq<byte>)
    requires c.Valid() && IsHash(keccak) && |entries| == |plan.keyOffsets|
    requires forall i :: 0 <= i < |entries| ==>
               && Ready(c, entries[i]) && InRing(c, entries[i].1)
               && plan.keyOffsets[i] == entries[i].1.1.decoys.offsets
    requires |parts.inputs| == |parts.pseudoMasks| == |parts.signed| == |entries|
    requires forall k :: 0 <= k < |entries| ==>
               && parts.inputs[k] == entries[k].1.1.Input()
               && Clsag.Answered(c, parts.inputs[k], parts.pseudoMasks[k], parts.signed[k].0, parts.signed[k].1, msg)
    requires var tx := Assemble(c, plan, Map(ImageOf, entries), outputs, fee, parts.commitments, parts.proof, parts.signed);
             TransactionHashes.SignatureHash(keccak, tx) == Some(msg)
    ensures Verifies(c, keccak, Assemble(c, plan, Map(ImageOf, entries), outputs, fee, parts.commitments, parts.proof, parts.signed),
                     parts)
  {
    hide Ready, InRing, Curve.Encode, Clsag.Verdict, Clsag.ExpectedFor, Clsag.EncodeRing, TransactionHashes.SignatureHash,
         BulletproofBytes, ClsagBytes, Base, Clsag.Input.KeyImage;
    forall k | 0 <= k < |entries|
      ensures entries[k].0 == c.Encode(entries[k].1.1.Input().KeyImage(c))
    {
      ImageIs(c, entries[k]);
    }
  }

  lemma EntriesFit(c: Curve, intent: Send.Intent, entries: seq<Entry>)
    requires c.Valid() && Map(InputOf, entries) == intent.inputs && forall i :: 0 <= i < |entries| ==> Ready(c, entries[i])
    requires intent.Supported() && intent.Plan().Valid()
    ensures |entries| == |intent.inputs|
    ensures forall i :: 0 <= i < |entries| ==>
              && |entries[i].1.1.decoys.ring| == intent.Ring() && |entries[i].0| == 32
              && entries[i].1.1.decoys.offsets == intent.Plan().keyOffsets[i]
              && entries[i].1.1.Input().context.commitment.amount == intent.Amounts()[i]
  {
    hide KeyIs, KeyImage;
    forall i | 0 <= i < |entries|
      ensures |entries[i].1.1.decoys.ring| == intent.Ring()
      ensures entries[i].1.1.decoys.offsets == intent.Plan().keyOffsets[i]
      ensures entries[i].1.1.Input().context.commitment.amount == intent.Amounts()[i]
    {
      assert Ready(c, entries[i]) && InputOf(entries[i]) == intent.inputs[i];
      assert OffsetsFit(intent.Plan().keyOffsets[i], intent.Plan().Ring());
    }
  }

  // With change, the fee paid is the necessary one.
  lemma ChangePaid(amounts: seq<u64>, payments: seq<Send.InternalPayment>, necessaryFee: nat)
    requires Send.Funded(amounts, payments, necessaryFee)
    ensures Send.Changes(payments) > 0 ==> Send.FeePaid(amounts, payments, necessaryFee) == necessaryFee
  {
  }

  lemma OrderedPlan(c: Curve, intent: Send.Intent, sorted: Send.Intent)
    requires c.Valid() && intent.Acceptable(c) && |intent.inputs| <= ADDRESSABLE
    requires sorted == intent.(inputs := sorted.inputs) && multiset(sorted.inputs) == multiset(intent.inputs)
    ensures sorted.Plan().Valid() && sorted.Supported() && 0 < |sorted.inputs| == |intent.inputs|
  {
    hide Curve.Encode, Send.SpentInput.Spendable;
    assert |sorted.inputs| == |multiset(sorted.inputs)| == |multiset(intent.inputs)| == |intent.inputs|;
    forall i | 0 <= i < |sorted.inputs|
      ensures |sorted.inputs[i].offsets| == intent.Ring()
    {
      assert sorted.inputs[i] in multiset(sorted.inputs);
      assert sorted.inputs[i] in intent.inputs;
    }
  }

  /** The inputs of an intent in the order of a transaction. */
  function InOrder(intent: Send.Intent, ordered: seq<Entry>): Send.Intent {
    intent.(inputs := Map(InputOf, ordered))
  }

  function InputIn(spend: Spend): Send.SpentInput {
    spend.0
  }

  /**
  `sign`, of what was validated with this weight and this necessary fee. The inputs are put in the order of
  their key images; neither the weight nor the fee changes.
   */
  method Sign(c: Curve, keccak: Keccak, generators: Bulletproofs.AllGenerators, intent: Send.Intent, spends: seq<Spend>,
              ghost weight: nat, ghost validatedFee: nat, drawn: Drawn, randomness: seq<Clsag.Randomness>)
    returns (res: Result<Tx.Transaction, SignError>, ghost ordered: seq<Entry>, ghost parts: Option<Parts>)
    requires c.Valid() && IsHash(keccak) && generators.Enough()
    requires intent.Acceptable(c) && intent.feeRate.Valid() && |intent.inputs| <= ADDRESSABLE
    requires IsNecessary(intent.feeRate, PlannedWeight(intent.Plan()), weight, validatedFee)
    requires Send.Funded(intent.Amounts(), intent.payments, validatedFee)
    requires Map(InputIn, spends) == intent.inputs && forall i :: 0 <= i < |spends| ==> Matches(spends[i])
    requires drawn.Fits(intent) && RandomnessFits(randomness, |intent.inputs|, intent.Ring())
    ensures res == Err(WrongPrivateKey) <==> exists i :: 0 <= i < |spends| && !KeyIs(spends[i])
    ensures res.Ok? <==> forall i :: 0 <= i < |spends| ==> KeyIs(spends[i]) && InRing(c, spends[i])
    ensures res.Ok? ==>
              && SendMultisig.Sorted(ordered) && multiset(ordered) == multiset(Imaged(c, spends))
              && ordered == Ordered(Imaged(c, spends))
              && parts.Some?
              && Signed(c, keccak, generators, InOrder(intent, ordered), Map(ImageOf, ordered), drawn, weight, validatedFee,
                        res.value, parts.value)
              && SignedWith(c, keccak, res.value, parts.value, randomness)
  {
    hide SignedWith, Send.Funded, Send.FeePaid, IsNecessary, PlannedWeight, LrLen, Map, Signed, InRing, KeyIs, KeyImage,
         Matches, Ordered, Drawn.Fits, RandomnessFits, Send.Intent.Acceptable, Fee.Plan.Valid, Ready, Imaged;
    parts, ordered := None, [];
    var images := KeyImages(c, spends);
    if images.None? {
      res := Err(WrongPrivateKey);
      return;
    }
    var entries := SendMultisig.Keyed(images.value, spends);
    AllReady(c, intent, spends, entries);
    var sorting := Ordered(entries);
    ordered := sorting;
    var sorted := InOrder(intent, sorting);
    OrderedEntries(c, intent, entries);
    InAnyOrder(intent, sorted, weight, validatedFee);
    OrderedPlan(c, intent, sorted);
    FitsOrdered(c, intent, sorted, drawn);
    var signed;
    signed, parts := SignOrdered(c, keccak, generators, sorted, sorting, weight, validatedFee, drawn, randomness);
    res := match signed
      case Ok(tx) => Ok(tx)
      case Err(error) => Err(ClsagFailed(error));
  }

  /** The inputs under their key images. */
  function Imaged(c: Curve, spends: seq<Spend>): (entries: seq<Entry>)
    requires c.Valid()
    ensures |entries| == |spends|
  {
    seq(|spends|, i requires 0 <= i < |spends| => (KeyImage(c, spends[i]), spends[i]))
  }

  lemma ImagedAre(c: Curve, spends: seq<Spend>)
    requires c.Valid()
    ensures forall i :: 0 <= i < |spends| ==> Imaged(c, spends)[i] == (KeyImage(c, spends[i]), spends[i])
  {
    hide KeyImage;
  }

  lemma KeyedIsImaged(c: Curve, images: seq<seq<byte>>, spends: seq<Spend>)
    requires c.Valid() && |images| == |spends| && forall i :: 0 <= i < |spends| ==> images[i] == KeyImage(c, spends[i])
    ensures SendMultisig.Keyed(images, spends) == Imaged(c, spends)
  {
    hide KeyImage;
  }

  lemma AllReady(c: Curve, intent: Send.Intent, spends: seq<Spend>, entries: seq<Entry>)
    requires c.Valid() && Map(InputIn, spends) == intent.inputs
    requires forall i :: 0 <= i < |spends| ==> Matches(spends[i]) && KeyIs(spends[i])
    requires |entries| == |spends| && forall i :: 0 <= i < |spends| ==> entries[i] == (KeyImage(c, spends[i]), spends[i])
    ensures entries == Imaged(c, spends) && Map(InputOf, entries) == intent.inputs
    ensures forall i :: 0 <= i < |entries| ==> Ready(c, entries[i])
  {
    hide KeyImage, KeyIs, Matches;
  }

  lemma OrderedEntries(c: Curve, intent: Send.Intent, entries: seq<Entry>)
    requires c.Valid() && Map(InputOf, entries) == intent.inputs
    requires forall i :: 0 <= i < |entries| ==> Ready(c, entries[i])
    ensures multiset(Map(InputOf, Ordered(entries))) == multiset(intent.inputs)
    ensures SendMultisig.Sorted(Ordered(entries))
    ensures forall i :: 0 <= i < |entries| ==> Ready(c, Ordered(entries)[i])
    ensures (forall i :: 0 <= i < |entries| ==> InRing(c, Ordered(entries)[i].1)) <==>
            (forall i :: 0 <= i < |entries| ==> InRing(c, entries[i].1))
  {
    hide Ready, InRing, Map;
    MapPermuted(InputOf, Ordered(entries), entries);
    OrderedAll(entries, (e: Entry) => Ready(c, e));
    OrderedAll(entries, (e: Entry) => InRing(c, e.1));
  }

  lemma FitsOrdered(c: Curve, intent: Send.Intent, sorted: Send.Intent, drawn: Drawn)
    requires c.Valid() && intent.Acceptable(c) && drawn.Fits(intent)
    requires sorted == intent.(inputs := sorted.inputs) && |sorted.inputs| == |intent.inputs|
    ensures drawn.Fits(sorted) && 2 <= |sorted.payments| <= 16
  {
    hide Curve.Encode, Send.SpentInput.Spendable, RangeAlgebra.Padded, RangeAlgebra.PaddedLog;
  }
}
