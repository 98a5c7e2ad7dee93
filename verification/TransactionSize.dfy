/** src/transaction.rs: pruning, and the size of transactions. */
module TransactionSizes {
  import opened Wrappers
  import opened Transactions
  import opened TransactionIo
  import VarInt

  // ---------------------------------------------------------------------------------------------
  // Pruning.

  /** A pruned transaction keeps the base of its proofs, and their type. */
  datatype PrunedBody = NoSignatures | PrunedProofs(proofs: Option<(RctType, RctBase)>)

  datatype PrunedTransaction = PrunedTransaction(prefix: TransactionPrefix, body: PrunedBody)

  /** `pruned_with_prunable` */
  function PrunedWithPrunable(tx: Transaction): (PrunedTransaction, seq<byte>) {
    match tx.body
    case Signatures(signatures) => (PrunedTransaction(tx.prefix, NoSignatures), WriteRawVec(WriteRingSignature, signatures))
    case Proofs(None) => (PrunedTransaction(tx.prefix, PrunedProofs(None)), [])
    case Proofs(Some(p)) =>
      var t := TypeOf(p.prunable);
      (PrunedTransaction(tx.prefix, PrunedProofs(Some((t, p.base)))), WritePrunable(p.prunable, t))
  }

  function WritePruned(tx: PrunedTransaction): seq<byte> {
    VarInt.Encoding(if tx.body.NoSignatures? then 1 else 2) + WritePrefix(tx.prefix) +
    match tx.body
    case NoSignatures => []
    case PrunedProofs(None) => [0]
    case PrunedProofs(Some((t, base))) => WriteBase(base, t)
  }

  // The pruned transaction, followed by its prunable part, is the transaction.
  lemma PrunedThenPrunable(tx: Transaction)
    ensures var (pruned, prunable) := PrunedWithPrunable(tx);
            WritePruned(pruned) + prunable == WriteTransaction(tx)
  {
    hide VarInt.Encoding, WritePrefix, WriteBase, WritePrunable, WriteRawVec, TypeOf;
    var start := VarInt.Encoding(tx.Version()) + WritePrefix(tx.prefix);
    match tx.body {
      case Signatures(signatures) =>
        assert start + [] == start;
      case Proofs(None) =>
        assert start + [0] + [] == start + [0];
      case Proofs(Some(p)) =>
        var t := TypeOf(p.prunable);
        assert start + WriteBase(p.base, t) + WritePrunable(p.prunable, t) ==
               start + (WriteBase(p.base, t) + WritePrunable(p.prunable, t));
    }
  }

  // ---------------------------------------------------------------------------------------------
  // Sizes.

  lemma {:induction false} RawVecSize<T>(f: T -> seq<byte>, values: seq<T>, size: nat)
    requires forall i :: 0 <= i < |values| ==> |f(values[i])| == size
    ensures |WriteRawVec(f, values)| == |values| * size
  {
    if values != [] {
      RawVecSize(f, values[1..], size);
      assert |values| * size == (|values| - 1) * size + size;
    }
  }

  /** Points or scalars, as long as they are. */
  ghost predicate AllOf(list: seq<seq<byte>>, size: nat) {
    forall i :: 0 <= i < |list| ==> |list[i]| == size
  }

  lemma PointsSize(points: seq<Bytes32>)
    requires AllOf(points, 32)
    ensures |WriteRawVec(WriteBytes, points)| == 32 * |points|
    ensures |WriteVec(WriteBytes, points)| == |VarInt.Encoding(|points|)| + 32 * |points|
  {
    hide VarInt.Encoding;
    RawVecSize(WriteBytes, points, 32);
  }

  /** The size of a Bulletproof(+), each of whose lists has this length. */
  function BulletproofSize(plus: bool, lrLen: nat): nat {
    (if plus then 6 * 32 else 9 * 32) + 2 * (|VarInt.Encoding(lrLen)| + 32 * lrLen)
  }

  /** Each point and scalar is thirty-two bytes. */
  ghost predicate Whole(bp: Bulletproof) {
    && |bp.A| == 32 && AllOf(bp.L, 32) && AllOf(bp.R, 32)
    && match bp
       case Original(_, S, T1, T2, tauX, mu, _, _, a, b, tHat) =>
         |S| == |T1| == |T2| == |tauX| == |mu| == |a| == |b| == |tHat| == 32
       case Plus(_, wipA, wipB, rAnswer, sAnswer, deltaAnswer, _, _) =>
         |wipA| == |wipB| == |rAnswer| == |sAnswer| == |deltaAnswer| == 32
  }

  lemma BulletproofSizeIs(bp: Bulletproof, lrLen: nat)
    requires Whole(bp) && |bp.L| == |bp.R| == lrLen
    ensures |WriteBulletproof(bp)| == BulletproofSize(bp.Plus?, lrLen)
  {
    hide VarInt.Encoding, WriteVec;
    PointsSize(bp.L);
    PointsSize(bp.R);
  }

  /** A CLSAG for a ring of this length. */
  ghost predicate ClsagWhole(c: Clsag, ring: nat) {
    |c.s| == ring && AllOf(c.s, 32) && |c.c1| == |c.D| == 32
  }

  lemma ClsagSize(c: Clsag, ring: nat)
    requires ClsagWhole(c, ring)
    ensures |WriteClsag(c)| == 32 * ring + 64
  {
    PointsSize(c.s);
  }

  lemma ClsagsSize(clsags: seq<Clsag>, ring: nat)
    requires forall i :: 0 <= i < |clsags| ==> ClsagWhole(clsags[i], ring)
    ensures |WriteRawVec(WriteClsag, clsags)| == |clsags| * (32 * ring + 64)
  {
    hide WriteClsag, ClsagWhole;
    forall i | 0 <= i < |clsags|
      ensures |WriteClsag(clsags[i])| == 32 * ring + 64
    {
      ClsagSize(clsags[i], ring);
    }
    RawVecSize(WriteClsag, clsags, 32 * ring + 64);
  }

  /** The size of inputs with these offsets. */
  function InputsSize(keyOffsets: seq<seq<nat>>): nat {
    if keyOffsets == [] then 0
    else 1 + 1 + |WriteVec((n: nat) => VarInt.Encoding(n), keyOffsets[0])| + 32 + InputsSize(keyOffsets[1..])
  }

  /** An input with these offsets, of a RingCT output. */
  ghost predicate InputWhole(i: Input, keyOffsets: seq<nat>) {
    i.ToKey? && i.amount == None && i.keyOffsets == keyOffsets && |i.keyImage| == 32
  }

  lemma InputSize(i: Input, keyOffsets: seq<nat>)
    requires InputWhole(i, keyOffsets)
    ensures |WriteInput(i)| == 1 + 1 + |WriteVec((n: nat) => VarInt.Encoding(n), keyOffsets)| + 32
  {
    hide WriteVec;
    ZeroEncoding();
  }

  lemma ZeroEncoding()
    ensures VarInt.Encoding(0) == [0] && VarInt.Encoding(2) == [2]
  {
  }

  lemma {:induction false} InputsSizeIs(inputs: seq<Input>, keyOffsets: seq<seq<nat>>)
    requires |inputs| == |keyOffsets| && forall i :: 0 <= i < |inputs| ==> InputWhole(inputs[i], keyOffsets[i])
    ensures |WriteRawVec(WriteInput, inputs)| == InputsSize(keyOffsets)
  {
    hide WriteInput, WriteVec, InputWhole;
    if inputs != [] {
      InputSize(inputs[0], keyOffsets[0]);
      InputsSizeIs(inputs[1..], keyOffsets[1..]);
    }
  }

  /** A RingCT output, with a view tag or without. */
  ghost predicate OutputWhole(o: Output, tagged: bool) {
    o.amount == None && |o.key| == 32 && (o.viewTag.Some? <==> tagged)
  }

  lemma OutputsSize(outputs: seq<Output>, tagged: bool)
    requires forall i :: 0 <= i < |outputs| ==> OutputWhole(outputs[i], tagged)
    ensures |WriteRawVec(WriteOutput, outputs)| == |outputs| * (if tagged then 35 else 34)
  {
    forall i | 0 <= i < |outputs|
      ensures |WriteOutput(outputs[i])| == if tagged then 35 else 34
    {
      ZeroEncoding();
    }
    hide OutputWhole, WriteOutput;
    RawVecSize(WriteOutput, outputs, if tagged then 35 else 34);
  }

  lemma AmountsSize(amounts: seq<EncryptedAmount>)
    requires forall i :: 0 <= i < |amounts| ==> amounts[i].CompactAmount? && |amounts[i].bytes| == 8
    ensures |WriteRawVec(WriteEncryptedAmount, amounts)| == |amounts| * 8
  {
    RawVecSize(WriteEncryptedAmount, amounts, 8);
  }

  /** A transaction with CLSAGs and a Bulletproof(+). */
  predicate IsClsag(tx: Transaction) {
    tx.body.Proofs? && tx.body.proofs.Some? && tx.body.proofs.value.prunable.ClsagProofs?
  }

  function FeeOf(tx: Transaction): nat
    requires IsClsag(tx)
  {
    tx.body.proofs.value.base.fee
  }

  function BulletproofOf(tx: Transaction): Bulletproof
    requires IsClsag(tx)
  {
    tx.body.proofs.value.prunable.bulletproof
  }

  /** All that decides the size of a transaction with CLSAGs, but for its fee. */
  datatype Shape = Shape(plus: bool, ring: nat, keyOffsets: seq<seq<nat>>, outputs: nat, lrLen: nat, extra: nat)

  ghost predicate PrefixShaped(p: TransactionPrefix, shape: Shape) {
    && p.additionalTimelock == NoTimelock && |p.extra| == shape.extra
    && |p.inputs| == |shape.keyOffsets|
    && (forall i :: 0 <= i < |p.inputs| ==> InputWhole(p.inputs[i], shape.keyOffsets[i]))
    && |p.outputs| == shape.outputs && forall i :: 0 <= i < |p.outputs| ==> OutputWhole(p.outputs[i], shape.plus)
  }

  ghost predicate BaseShaped(b: RctBase, outputs: nat) {
    && |b.encryptedAmounts| == |b.commitments| == outputs && AllOf(b.commitments, 32)
    && forall i :: 0 <= i < outputs ==> b.encryptedAmounts[i].CompactAmount? && |b.encryptedAmounts[i].bytes| == 8
  }

  ghost predicate PrunableShaped(p: RctPrunable, shape: Shape) {
    && p.ClsagProofs? && Whole(p.bulletproof) && (p.bulletproof.Plus? <==> shape.plus)
    && |p.bulletproof.L| == |p.bulletproof.R| == shape.lrLen
    && |p.clsags| == |p.pseudoOuts| == |shape.keyOffsets| && AllOf(p.pseudoOuts, 32)
    && forall i :: 0 <= i < |p.clsags| ==> ClsagWhole(p.clsags[i], shape.ring)
  }

  ghost predicate Shaped(tx: Transaction, shape: Shape) {
    && IsClsag(tx) && PrefixShaped(tx.prefix, shape)
    && BaseShaped(tx.body.proofs.value.base, shape.outputs)
    && PrunableShaped(tx.body.proofs.value.prunable, shape)
  }

  function PrefixSize(shape: Shape): nat {
    1 + |VarInt.Encoding(|shape.keyOffsets|)| + InputsSize(shape.keyOffsets)
    + |VarInt.Encoding(shape.outputs)| + shape.outputs * (if shape.plus then 35 else 34)
    + |VarInt.Encoding(shape.extra)| + shape.extra
  }

  function PrunableSize(shape: Shape): nat {
    1 + BulletproofSize(shape.plus, shape.lrLen) + |shape.keyOffsets| * (32 * shape.ring + 64) + 32 * |shape.keyOffsets|
  }

  /** The size of a transaction of a shape, without its fee. */
  function ShapeSize(shape: Shape): nat {
    1 + PrefixSize(shape) + (1 + shape.outputs * 40) + PrunableSize(shape)
  }

  lemma PrefixSizeIs(p: TransactionPrefix, shape: Shape)
    requires PrefixShaped(p, shape)
    ensures |WritePrefix(p)| == PrefixSize(shape)
  {
    hide VarInt.Encoding, WriteRawVec, WriteInput, WriteOutput, InputsSize, InputWhole, OutputWhole;
    ZeroEncoding();
    InputsSizeIs(p.inputs, shape.keyOffsets);
    OutputsSize(p.outputs, shape.plus);
  }

  lemma BaseSizeIs(b: RctBase, outputs: nat, t: RctType)
    requires BaseShaped(b, outputs) && (t.ClsagBulletproofType? || t.ClsagBulletproofPlusType?)
    ensures |WriteBase(b, t)| == 1 + |VarInt.Encoding(b.fee)| + outputs * 40
  {
    hide VarInt.Encoding, WriteRawVec, WriteEncryptedAmount, WriteBytes;
    PointsSize(b.commitments);
    AmountsSize(b.encryptedAmounts);
  }

  lemma PrunableSizeIs(p: RctPrunable, shape: Shape, t: RctType)
    requires PrunableShaped(p, shape)
    ensures |WritePrunable(p, t)| == PrunableSize(shape)
  {
    hide VarInt.Encoding, WriteRawVec, WriteBulletproof, WriteClsag, ClsagWhole, BulletproofSize;
    BulletproofSizeIs(p.bulletproof, shape.lrLen);
    ClsagsSize(p.clsags, shape.ring);
    PointsSize(p.pseudoOuts);
  }

  // A transaction's shape and its fee make its size.
  lemma ShapedSize(tx: Transaction, shape: Shape)
    requires Shaped(tx, shape)
    ensures |WriteTransaction(tx)| == ShapeSize(shape) + |VarInt.Encoding(FeeOf(tx))|
  {
    hide VarInt.Encoding, WritePrefix, WriteBase, WritePrunable, PrefixShaped, BaseShaped, PrefixSize, PrunableSize;
    var p := tx.body.proofs.value;
    ZeroEncoding();
    PrefixSizeIs(tx.prefix, shape);
    BaseSizeIs(p.base, shape.outputs, TypeOf(p.prunable));
    PrunableSizeIs(p.prunable, shape, TypeOf(p.prunable));
  }
}
