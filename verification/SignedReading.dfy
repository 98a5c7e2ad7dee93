/** wallet/src/send: whatever is signed can be read, by whoever is sent its bytes, as the transaction it is. */
module SignedReading {
  import opened Wrappers
  import opened PowersOfTwo
  import opened Ed25519
  import opened Vectors
  import opened Codec
  import opened Transactions
  import opened TransactionSizes
  import TransactionIo
  import Bulletproofs
  import Fee
  import VarInt
  import Clsag
  import Send = SendAmounts
  import SignedTransactions

  // ---------------------------------------------------------------------------------------------
  // What a transaction's parts must be to be read.

  ghost predicate AllReduced(scalars: seq<Bytes32>) {
    forall i :: 0 <= i < |scalars| ==> |scalars[i]| == 32 && Reduced(scalars[i])
  }

  ghost predicate ProofReduced(bp: Bulletproof) {
    match bp
    case Original(_, _, _, _, tauX, mu, _, _, a, b, tHat) => AllReduced([tauX, mu]) && AllReduced([a, b, tHat])
    case Plus(_, _, _, rAnswer, sAnswer, deltaAnswer, _, _) => AllReduced([rAnswer, sAnswer, deltaAnswer])
  }

  ghost predicate ClsagReduced(clsag: Transactions.Clsag) {
    AllReduced(clsag.s) && AllReduced([clsag.c1])
  }

  lemma ScalarOk(bytes: Bytes32)
    ensures ScalarCodec().ok(bytes) <==> |bytes| == 32 && Reduced(bytes)
    ensures PointCodec().ok(bytes) <==> |bytes| == 32
  {
    hide Reduced;
    GuardIs(Bytes(32), Reduced, bytes);
  }

  lemma ManyOk<T>(c: Codec<T>, values: seq<T>)
    requires forall i :: 0 <= i < |values| ==> c.ok(values[i])
    ensures Many(c, |values|).ok(values)
  {
  }

  lemma VecOk<T(!new)>(c: Codec<T>, bound: Option<nat>, values: seq<T>)
    requires forall i :: 0 <= i < |values| ==> c.ok(values[i])
    requires |values| < Pow2(64) && (bound.None? || |values| <= bound.value)
    ensures Vec(c, bound).ok(values)
  {
    VecIs(c, bound, values);
  }

  lemma PointsOk(points: seq<Bytes32>)
    requires AllOf(points, 32)
    ensures Many(PointCodec(), |points|).ok(points)
  {
    forall i | 0 <= i < |points|
      ensures PointCodec().ok(points[i])
    {
      ScalarOk(points[i]);
    }
    ManyOk(PointCodec(), points);
  }

  lemma ScalarsOk(scalars: seq<Bytes32>)
    requires AllReduced(scalars)
    ensures Many(ScalarCodec(), |scalars|).ok(scalars)
  {
    hide Reduced;
    forall i | 0 <= i < |scalars|
      ensures ScalarCodec().ok(scalars[i])
    {
      ScalarOk(scalars[i]);
    }
    ManyOk(ScalarCodec(), scalars);
  }

  lemma ListOk(points: seq<Bytes32>)
    requires AllOf(points, 32) && |points| <= MAX_LR
    ensures Vec(PointCodec(), Some(MAX_LR)).ok(points)
  {
    hide Pow2;
    Large();
    forall i | 0 <= i < |points|
      ensures PointCodec().ok(points[i])
    {
      ScalarOk(points[i]);
    }
    VecOk(PointCodec(), Some(MAX_LR), points);
  }

  lemma Large()
    ensures Pow2(64) == U64_MAX + 1
  {
    hide Pow2;
    SmallPowers();
    Pow2Add(8, 8);
    Pow2Add(16, 16);
    Pow2Add(32, 32);
  }

  // ---------------------------------------------------------------------------------------------
  // The prefix.

  lemma OffsetsOk(offsets: seq<nat>)
    requires |offsets| <= MAX_SIZE && forall i :: 0 <= i < |offsets| ==> offsets[i] <= U64_MAX
    ensures Vec(Num(64), Some(MAX_SIZE)).ok(offsets)
  {
    hide Pow2;
    Large();
    forall i | 0 <= i < |offsets|
      ensures Num(64).ok(offsets[i])
    {
    }
    VecOk(Num(64), Some(MAX_SIZE), offsets);
  }

  lemma InputOk(input: Input, offsets: seq<nat>)
    requires InputWhole(input, offsets)
    requires |offsets| <= MAX_SIZE && forall i :: 0 <= i < |offsets| ==> offsets[i] <= U64_MAX
    ensures InputCodec().ok(input)
  {
    hide Pow2, Vec;
    Large();
    OffsetsOk(offsets);
    ScalarOk(input.keyImage);
    var amounts := Iso(Num(64), IntoAmount, FromAmount);
    IsoIs(Num(64), IntoAmount, FromAmount, None);
    var rest := Both(Vec(Num(64), Some(MAX_SIZE)), PointCodec());
    BothIs(Vec(Num(64), Some(MAX_SIZE)), PointCodec(), (offsets, input.keyImage));
    BothIs(amounts, rest, (None, (offsets, input.keyImage)));
    IsoIs(Both(amounts, rest), IntoToKey, FromToKey, input);
    InputTagged(input);
  }

  lemma InputTagged(input: Input)
    requires input.ToKey? && InputBody(2).ok(input)
    ensures InputCodec().ok(input)
  {
    hide InputBody;
    GuardIs(Byte(), InputTag, 2);
    ThenIs(Guard(Byte(), InputTag), InputBody, (2, input));
    IsoIs(Then(Guard(Byte(), InputTag), InputBody), DropFirst, FromInput, input);
  }

  lemma OutputOk(output: Output, tagged: bool)
    requires OutputWhole(output, tagged)
    ensures OutputCodec(true).ok(output)
  {
    hide Pow2;
    Large();
    ScalarOk(output.key);
    var tag: byte := if tagged then 3 else 2;
    GuardIs(Num(64), IsZero, 0);
    IsoIs(Guard(Num(64), IsZero), NoAmount, FromAmount, None);
    IsoIs(Byte(), SomeTag, FromTag, output.viewTag);
    BothIs(PointCodec(), if tag == 3 then Iso(Byte(), SomeTag, FromTag) else Absent(), (output.key, output.viewTag));
    OutputTagged(output, tag);
  }

  lemma OutputTagged(output: Output, tag: byte)
    requires OutputAmount(true).ok(output.amount) && OutputBody(tag).ok((output.key, output.viewTag))
    requires tag == if output.viewTag.Some? then 3 else 2
    ensures OutputCodec(true).ok(output)
  {
    hide OutputAmount, OutputBody;
    GuardIs(Byte(), OutputTag, tag);
    ThenIs(Guard(Byte(), OutputTag), OutputBody, (tag, (output.key, output.viewTag)));
    BothIs(OutputAmount(true), Then(Guard(Byte(), OutputTag), OutputBody), (output.amount, (tag, (output.key, output.viewTag))));
    IsoIs(Both(OutputAmount(true), Then(Guard(Byte(), OutputTag), OutputBody)), IntoOutput, FromOutput, output);
  }

  /** A shape within the bounds of the reader. */
  ghost predicate Bounded(shape: Shape) {
    && 0 < |shape.keyOffsets| <= MAX_INPUTS && 0 < shape.outputs <= MAX_OUTPUTS && shape.extra <= MAX_SIZE
    && shape.ring <= MAX_SIZE && shape.lrLen <= MAX_LR
    && forall i :: 0 <= i < |shape.keyOffsets| ==>
         |shape.keyOffsets[i]| == shape.ring && forall j :: 0 <= j < shape.ring ==> shape.keyOffsets[i][j] <= U64_MAX
  }

  lemma PrefixOk(p: TransactionPrefix, shape: Shape)
    requires PrefixShaped(p, shape) && Bounded(shape)
    ensures PrefixCodec(2).ok(p)
  {
    hide Pow2, InputWhole, OutputWhole, InputCodec, OutputCodec;
    Large();
    forall i | 0 <= i < |p.inputs|
      ensures InputCodec().ok(p.inputs[i])
    {
      InputOk(p.inputs[i], shape.keyOffsets[i]);
    }
    forall i | 0 <= i < |p.outputs|
      ensures OutputCodec(true).ok(p.outputs[i])
    {
      OutputOk(p.outputs[i], shape.plus);
    }
    VecOk(InputCodec(), Some(MAX_INPUTS), p.inputs);
    VecOk(OutputCodec(true), Some(MAX_OUTPUTS), p.outputs);
    ExtraOk(p.extra);
    IsoIs(Num(64), IntoTimelock, FromTimelock, p.additionalTimelock);
    SpendsIs(p, shape);
    PrefixPartsOk(p);
  }

  lemma SpendsIs(p: TransactionPrefix, shape: Shape)
    requires PrefixShaped(p, shape) && |shape.keyOffsets| > 0
    ensures p.inputs != [] && p.inputs[0].ToKey? && p.inputs[0].keyOffsets == shape.keyOffsets[0]
  {
  }

  lemma ExtraOk(extra: seq<byte>)
    requires |extra| <= MAX_SIZE
    ensures Vec(Byte(), Some(MAX_SIZE)).ok(extra)
  {
    hide Pow2;
    Large();
    VecOk(Byte(), Some(MAX_SIZE), extra);
  }

  lemma PrefixPartsOk(p: TransactionPrefix)
    requires p.inputs != [] && p.inputs[0].ToKey? && TimelockCodec().ok(p.additionalTimelock)
    requires Vec(InputCodec(), Some(MAX_INPUTS)).ok(p.inputs) && Vec(OutputCodec(true), Some(MAX_OUTPUTS)).ok(p.outputs)
    requires Vec(Byte(), Some(MAX_SIZE)).ok(p.extra)
    ensures PrefixCodec(2).ok(p)
  {
    hide Vec, InputCodec, OutputCodec, TimelockCodec;
    GuardIs(Vec(InputCodec(), Some(MAX_INPUTS)), NotEmpty, p.inputs);
    BothIs(Vec(OutputCodec(true), Some(MAX_OUTPUTS)), Vec(Byte(), Some(MAX_SIZE)), (p.outputs, p.extra));
    var body := (inputs: seq<Input>) => PrefixBody(2, inputs);
    ThenIs(InputsCodec(), body, (p.inputs, (p.outputs, p.extra)));
    BothIs(TimelockCodec(), Then(InputsCodec(), body), FromPrefix(p));
    IsoIs(Both(TimelockCodec(), Then(InputsCodec(), body)), IntoPrefix, FromPrefix, p);
  }

  // ---------------------------------------------------------------------------------------------
  // The proofs.

  lemma AmountsOk(amounts: seq<EncryptedAmount>)
    requires forall i :: 0 <= i < |amounts| ==> amounts[i].CompactAmount? && |amounts[i].bytes| == 8
    ensures Many(EncryptedAmountCodec(true), |amounts|).ok(amounts)
  {
    forall i | 0 <= i < |amounts|
      ensures EncryptedAmountCodec(true).ok(amounts[i])
    {
      IsoIs(Bytes(8), IntoCompact, FromCompact, amounts[i]);
    }
    hide EncryptedAmountCodec;
    ManyOk(EncryptedAmountCodec(true), amounts);
  }

  lemma BaseOk(b: RctBase, t: RctType, inputs: nat, outputs: nat)
    requires BaseShaped(b, outputs) && b.pseudoOuts == [] && b.fee <= U64_MAX
    requires t.ClsagBulletproofType? || t.ClsagBulletproofPlusType?
    ensures BaseCodec(t, inputs, outputs).ok(b)
  {
    hide Pow2, EncryptedAmountCodec, Many;
    Large();
    AmountsOk(b.encryptedAmounts);
    PointsOk(b.commitments);
    PointsOk(b.pseudoOuts);
    var last := Both(Many(EncryptedAmountCodec(true), outputs), Many(PointCodec(), outputs));
    BothIs(Many(EncryptedAmountCodec(true), outputs), Many(PointCodec(), outputs), (b.encryptedAmounts, b.commitments));
    BothIs(Many(PointCodec(), 0), last, (b.pseudoOuts, (b.encryptedAmounts, b.commitments)));
    BothIs(Num(64), Both(Many(PointCodec(), 0), last), FromBase(b));
    IsoIs(BaseFields(t, inputs, outputs), IntoBase, FromBase, b);
  }

  lemma OriginalOk(bp: Bulletproof)
    requires bp.Original? && Whole(bp) && ProofReduced(bp) && |bp.L| <= MAX_LR && |bp.R| <= MAX_LR
    ensures BulletproofCodec(false).ok(bp)
  {
    hide Vec, Many, ScalarCodec, PointCodec, Reduced;
    var v := FromBulletproof(bp);
    PointsOk(v.0);
    ScalarsOk(v.1.0);
    ListOk(bp.L);
    ListOk(bp.R);
    ScalarsOk(v.1.1.1.1);
    var lists := Vec(PointCodec(), Some(MAX_LR));
    BothIs(lists, Many(ScalarCodec(), 3), v.1.1.1);
    BothIs(lists, Both(lists, Many(ScalarCodec(), 3)), v.1.1);
    BothIs(Many(ScalarCodec(), 2), Both(lists, Both(lists, Many(ScalarCodec(), 3))), v.1);
    BothIs(Many(PointCodec(), 4), Both(Many(ScalarCodec(), 2), Both(lists, Both(lists, Many(ScalarCodec(), 3)))), v);
    IsoIs(OriginalFieldsCodec(), IntoBulletproof, FromBulletproof, bp);
  }

  lemma PlusOk(bp: Bulletproof)
    requires bp.Plus? && Whole(bp) && ProofReduced(bp) && |bp.L| <= MAX_LR && |bp.R| <= MAX_LR
    ensures BulletproofCodec(true).ok(bp)
  {
    hide Vec, Many, ScalarCodec, PointCodec, Reduced;
    var v := FromBulletproofPlus(bp);
    PointsOk(v.0);
    ScalarsOk(v.1.0);
    ListOk(bp.L);
    ListOk(bp.R);
    var lists := Vec(PointCodec(), Some(MAX_LR));
    BothIs(lists, lists, v.1.1);
    BothIs(Many(ScalarCodec(), 3), Both(lists, lists), v.1);
    BothIs(Many(PointCodec(), 3), Both(Many(ScalarCodec(), 3), Both(lists, lists)), v);
    IsoIs(PlusFieldsCodec(), IntoBulletproofPlus, FromBulletproofPlus, bp);
  }

  lemma ClsagOk(clsag: Transactions.Clsag, ring: nat)
    requires ClsagWhole(clsag, ring) && ClsagReduced(clsag)
    ensures ClsagCodec(ring).ok(clsag)
  {
    hide Many, ScalarCodec, PointCodec, Reduced;
    ScalarsOk(clsag.s);
    ScalarOk(clsag.c1);
    ScalarOk(clsag.D);
    assert [clsag.c1][0] == clsag.c1;
    BothIs(ScalarCodec(), PointCodec(), (clsag.c1, clsag.D));
    BothIs(Many(ScalarCodec(), ring), Both(ScalarCodec(), PointCodec()), FromClsag(clsag));
    IsoIs(Both(Many(ScalarCodec(), ring), Both(ScalarCodec(), PointCodec())), IntoClsag, FromClsag, clsag);
  }

  ghost predicate PrunableReduced(p: RctPrunable) {
    p.ClsagProofs? && ProofReduced(p.bulletproof) && forall i :: 0 <= i < |p.clsags| ==> ClsagReduced(p.clsags[i])
  }

  lemma FieldsOk(p: RctPrunable, shape: Shape)
    requires PrunableShaped(p, shape) && PrunableReduced(p) && shape.lrLen <= MAX_LR
    ensures ClsagFieldsCodec(shape.plus, shape.ring, |shape.keyOffsets|).ok(FromClsagProofs(p))
  {
    hide BulletproofCodec, ClsagCodec, Many, ClsagWhole, ClsagReduced, ProofReduced, Whole, AllOf;
    var inputs := |shape.keyOffsets|;
    if shape.plus { PlusOk(p.bulletproof); } else { OriginalOk(p.bulletproof); }
    forall i | 0 <= i < |p.clsags|
      ensures ClsagCodec(shape.ring).ok(p.clsags[i])
    {
      ClsagOk(p.clsags[i], shape.ring);
    }
    ManyOk(ClsagCodec(shape.ring), p.clsags);
    PointsOk(p.pseudoOuts);
    BothIs(Many(ClsagCodec(shape.ring), inputs), Many(PointCodec(), inputs), (p.clsags, p.pseudoOuts));
    BothIs(BulletproofCodec(shape.plus), Both(Many(ClsagCodec(shape.ring), inputs), Many(PointCodec(), inputs)),
           FromClsagProofs(p));
  }

  lemma PrunableCodecIs(plus: bool, ring: nat, inputs: nat, outputs: nat)
    ensures PrunableCodec(if plus then ClsagBulletproofPlusType else ClsagBulletproofType, ring, inputs, outputs) ==
            Iso(After(Byte(), 1, ClsagFieldsCodec(plus, ring, inputs)), IntoClsagProofs, FromClsagProofs)
  {
    hide After, ClsagFieldsCodec, Iso, MlsagFieldsCodec;
  }

  lemma ClsagFieldsBack(p: RctPrunable)
    requires p.ClsagProofs?
    ensures IntoClsagProofs(FromClsagProofs(p)) == p
    ensures TypeOf(p) == if p.bulletproof.Plus? then ClsagBulletproofPlusType else ClsagBulletproofType
  {
  }

  lemma PrunableOk(p: RctPrunable, shape: Shape)
    requires PrunableShaped(p, shape) && PrunableReduced(p) && shape.lrLen <= MAX_LR
    ensures PrunableCodec(TypeOf(p), shape.ring, |shape.keyOffsets|, shape.outputs).ok(p)
  {
    hide ClsagFieldsCodec, ClsagWhole, Whole, AllOf, PrunableReduced, After, PrunableCodec;
    var inputs := |shape.keyOffsets|;
    FieldsOk(p, shape);
    PrunableCodecIs(shape.plus, shape.ring, inputs, shape.outputs);
    ClsagFieldsBack(p);
    AfterIs(Byte(), 1, ClsagFieldsCodec(shape.plus, shape.ring, inputs), FromClsagProofs(p));
    IsoIs(After(Byte(), 1, ClsagFieldsCodec(shape.plus, shape.ring, inputs)), IntoClsagProofs, FromClsagProofs, p);
  }

  lemma ProofsOk(p: RctProofs, shape: Shape)
    requires BaseShaped(p.base, shape.outputs) && p.base.pseudoOuts == [] && p.base.fee <= U64_MAX && shape.outputs > 0
    requires PrunableShaped(p.prunable, shape) && PrunableReduced(p.prunable) && shape.lrLen <= MAX_LR
    ensures ProofsCodec(shape.ring, |shape.keyOffsets|, shape.outputs).ok(p)
  {
    hide BaseCodec, PrunableCodec, BaseShaped, ClsagWhole, Whole, AllOf, PrunableReduced;
    var inputs := |shape.keyOffsets|;
    var t := TypeOf(p.prunable);
    BaseOk(p.base, t, inputs, shape.outputs);
    PrunableOk(p.prunable, shape);
    BothIs(BaseCodec(t, inputs, shape.outputs), PrunableCodec(t, shape.ring, inputs, shape.outputs), (p.base, p.prunable));
    TypeOk(t, shape.outputs);
    ProofsPartsOk(shape.ring, inputs, shape.outputs, p);
  }

  lemma TypeOk(t: RctType, outputs: nat)
    requires outputs > 0
    ensures RctTypeCodec(outputs).ok(t)
  {
    var named := Iso(Guard(Byte(), IsRctType), IntoRctType, FromRctType);
    GuardIs(Byte(), IsRctType, FromRctType(t));
    IsoIs(Guard(Byte(), IsRctType), IntoRctType, FromRctType, t);
    GuardIs(named, (t: RctType) => t.Borromean() || outputs > 0, t);
  }

  lemma ProofsPartsOk(ring: nat, inputs: nat, outputs: nat, p: RctProofs)
    requires RctTypeCodec(outputs).ok(TypeOf(p.prunable))
    requires TypedProofsCodec(ring, inputs, outputs, TypeOf(p.prunable)).ok((p.base, p.prunable))
    ensures ProofsCodec(ring, inputs, outputs).ok(p)
  {
    hide RctTypeCodec, TypedProofsCodec, TypeOf;
    var typed := (t: RctType) => TypedProofsCodec(ring, inputs, outputs, t);
    ThenIs(RctTypeCodec(outputs), typed, FromProofs(p));
    IsoIs(Then(RctTypeCodec(outputs), typed), IntoProofs, FromProofs, p);
  }

  // ---------------------------------------------------------------------------------------------
  // The transaction.

  lemma ShapedOk(tx: Transaction, shape: Shape)
    requires Shaped(tx, shape) && Bounded(shape)
    requires tx.body.proofs.value.base.pseudoOuts == [] && FeeOf(tx) <= U64_MAX
    requires PrunableReduced(tx.body.proofs.value.prunable)
    ensures TransactionCodec().ok(tx)
  {
    hide Pow2, PrefixCodec, ProofsCodec, BaseShaped, PrunableShaped, PrunableReduced, InputWhole, OutputWhole;
    Large();
    PrefixOk(tx.prefix, shape);
    RingIs(tx.prefix, shape);
    ProofsOk(tx.body.proofs.value, shape);
    BodyOk(tx.prefix, tx.body);
  }

  lemma RingIs(p: TransactionPrefix, shape: Shape)
    requires PrefixShaped(p, shape) && Bounded(shape)
    ensures RingLength(p.inputs) == shape.ring && |p.inputs| == |shape.keyOffsets| && |p.outputs| == shape.outputs
  {
  }

  lemma BodyOk(p: TransactionPrefix, body: Body)
    requires body.Proofs? && body.proofs.Some? && PrefixCodec(2).ok(p)
    requires ProofsCodec(RingLength(p.inputs), |p.inputs|, |p.outputs|).ok(body.proofs.value)
    ensures TransactionCodec().ok(Transaction(p, body))
  {
    hide PrefixCodec, ProofsCodec, RingLength, Pow2;
    Large();
    var proofs := Optional(ProofsCodec(RingLength(p.inputs), |p.inputs|, |p.outputs|));
    IsoIs(proofs, IntoBodyProofs, FromBodyProofs, body);
    var bodies := (p: TransactionPrefix) => BodyCodec(2, p);
    ThenIs(PrefixCodec(2), bodies, (p, body));
    var tx := Transaction(p, body);
    ThenIs(Num(64), VersionedCodec, FromTransaction(tx));
    IsoIs(Then(Num(64), VersionedCodec), IntoTransaction, FromTransaction, tx);
  }

  // ---------------------------------------------------------------------------------------------
  // What was signed.

  lemma {:induction false} InputsTakeSpace(keyOffsets: seq<seq<nat>>)
    ensures 34 * |keyOffsets| <= InputsSize(keyOffsets)
  {
    if keyOffsets != [] {
      InputsTakeSpace(keyOffsets[1..]);
    }
  }

  // A transaction within the limit of the weight has no more inputs than can be read.
  lemma FewInputs(plan: Fee.Plan, rate: Fee.FeeRate, weight: nat, fee: nat)
    requires rate.Valid() && Fee.IsNecessary(rate, Fee.PlannedWeight(plan), weight, fee) && weight < Send.MAX_TX_SIZE
    ensures |plan.keyOffsets| <= MAX_INPUTS
  {
    hide InputsSize, Fee.Clawback, PrunableSize, Fee.LrLen, VarInt.Encoding, Fee.CalculateFeeFromWeight, Fee.FeeLen, Fee.TooLong;
    InputsTakeSpace(plan.keyOffsets);
  }

  lemma ScalarBytesReduced(c: Curve, s: Scalar)
    requires c.Valid()
    ensures |SignedTransactions.ScalarBytes(c, s)| == 32 && Reduced(SignedTransactions.ScalarBytes(c, s))
  {
  }

  lemma AssembledReduced(c: Curve, proof: Bulletproofs.Bulletproof, signed: seq<(Clsag.Signature, Point)>)
    requires c.Valid()
    ensures PrunableReduced(SignedTransactions.Prunable(c, proof, signed))
  {
    hide Reduced, SignedTransactions.ScalarBytes, Curve.Encode;
    forall s: Scalar
      ensures |SignedTransactions.ScalarBytes(c, s)| == 32 && Reduced(SignedTransactions.ScalarBytes(c, s))
    {
      ScalarBytesReduced(c, s);
    }
  }

  lemma PlanBounded(plan: Fee.Plan)
    requires plan.Valid() && 0 < |plan.keyOffsets| <= MAX_INPUTS && 0 < plan.outputs && |plan.extra| <= MAX_SIZE
    ensures Bounded(plan.Shape())
  {
    hide Fee.LrLen;
    assert plan.Shape().lrLen == Fee.LrLen(plan.outputs) <= 10;
    forall i | 0 <= i < |plan.keyOffsets|
      ensures |plan.keyOffsets[i]| == plan.Ring() && forall j :: 0 <= j < plan.Ring() ==> plan.keyOffsets[i][j] <= U64_MAX
    {
      assert Fee.OffsetsFit(plan.keyOffsets[i], plan.Ring());
    }
  }

  // What was validated and signed is read from its serialization, whatever follows it, as the transaction it is.
  lemma SignedIsRead(c: Curve, keccak: Keccak, generators: Bulletproofs.AllGenerators, intent: Send.Intent,
                     images: seq<seq<byte>>, drawn: SignedTransactions.Drawn, weight: nat, necessaryFee: nat,
                     tx: Transaction, parts: SignedTransactions.Parts, rest: seq<byte>)
    requires c.Valid() && IsHash(keccak) && generators.Enough()
    requires intent.Payable(c) && intent.inputs != [] && intent.Plan().Valid() && intent.feeRate.Valid()
    requires Fee.IsNecessary(intent.feeRate, Fee.PlannedWeight(intent.Plan()), weight, necessaryFee) && weight < Send.MAX_TX_SIZE
    requires SignedTransactions.Signed(c, keccak, generators, intent, images, drawn, weight, necessaryFee, tx, parts)
    ensures TransactionIo.ReadTransaction(TransactionIo.WriteTransaction(tx) + rest) == Some((tx, rest))
  {
    hide Fee.IsNecessary, Fee.PlannedWeight, Send.SpentInput.Spendable, Bulletproofs.Valid, Send.Funded, Send.OutputAmounts,
         Send.FeePaid, Send.Commitments, Send.Balanced, SignedTransactions.Verifies, Fee.Weight, Shaped, Bounded,
         TransactionCodec, SignedTransactions.Prunable, PrunableReduced, Curve.Encode, SignedTransactions.Prefix,
         TransactionIo.ReadTransaction, TransactionIo.WriteTransaction, Bulletproofs.CompressAll, SignedTransactions.Map,
         Fee.Plan.Valid, Curve.Valid, IsHash;
    FewInputs(intent.Plan(), intent.feeRate, weight, necessaryFee);
    PlanBounded(intent.Plan());
    AssembledReduced(c, parts.proof, parts.signed);
    ShapedOk(tx, intent.Plan().Shape());
    TransactionIo.ReadIsWrite(TransactionIo.WriteTransaction(tx) + rest, tx, rest);
  }
}
