/**
src/transaction.rs, src/ringct.rs and the proofs' own `write` and `read`, each as it is sequenced in the
source. The closures it passes for the elements of a list are functions here.
 */
module TransactionIo {
  import opened Wrappers
  import opened Codec
  import opened Transactions
  import VarInt

  // ---------------------------------------------------------------------------------------------
  // Writing.

  function WriteRawVec<T>(f: T -> seq<byte>, values: seq<T>): seq<byte> {
    if values == [] then [] else f(values[0]) + WriteRawVec(f, values[1..])
  }

  function WriteVec<T>(f: T -> seq<byte>, values: seq<T>): seq<byte> {
    VarInt.Encoding(|values|) + WriteRawVec(f, values)
  }

  /** A point or a scalar, which is held as its bytes. */
  function WriteBytes(bytes: seq<byte>): seq<byte> {
    bytes
  }

  function WriteTimelock(t: Timelock): seq<byte> {
    match t
    case NoTimelock => VarInt.Encoding(0)
    case Block(block) => VarInt.Encoding(block)
    case Time(time) => VarInt.Encoding(time)
  }

  function WriteInput(i: Input): seq<byte> {
    match i
    case Gen(height) => [255] + VarInt.Encoding(height)
    case ToKey(amount, keyOffsets, keyImage) =>
      [2] + VarInt.Encoding(if amount.Some? then amount.value else 0)
      + WriteVec((n: nat) => VarInt.Encoding(n), keyOffsets)
      + keyImage
  }

  function WriteOutput(o: Output): seq<byte> {
    VarInt.Encoding(if o.amount.Some? then o.amount.value else 0)
    + [2 + if o.viewTag.Some? then 1 else 0]
    + o.key
    + (if o.viewTag.Some? then [o.viewTag.value] else [])
  }

  function WritePrefix(p: TransactionPrefix): seq<byte> {
    WriteTimelock(p.additionalTimelock)
    + WriteVec(WriteInput, p.inputs)
    + WriteVec(WriteOutput, p.outputs)
    + VarInt.Encoding(|p.extra|)
    + p.extra
  }

  function WriteEncryptedAmount(a: EncryptedAmount): seq<byte> {
    match a
    case OriginalAmount(mask, amount) => mask + amount
    case CompactAmount(bytes) => bytes
  }

  function WriteBase(b: RctBase, t: RctType): seq<byte> {
    [FromRctType(t)]
    + VarInt.Encoding(b.fee)
    + (if t.MlsagBorromeanType? then WriteRawVec(WriteBytes, b.pseudoOuts) else [])
    + WriteRawVec(WriteEncryptedAmount, b.encryptedAmounts)
    + WriteRawVec(WriteBytes, b.commitments)
  }

  function WriteBulletproof(bp: Bulletproof): seq<byte> {
    match bp
    case Original(A, S, T1, T2, tauX, mu, L, R, a, b, tHat) =>
      A + S + T1 + T2 + tauX + mu + WriteVec(WriteBytes, L) + WriteVec(WriteBytes, R) + a + b + tHat
    case Plus(A, wipA, wipB, rAnswer, sAnswer, deltaAnswer, L, R) =>
      A + wipA + wipB + rAnswer + sAnswer + deltaAnswer + WriteVec(WriteBytes, L) + WriteVec(WriteBytes, R)
  }

  function WriteMlsag(m: Mlsag): seq<byte> {
    WriteRawVec((ss: seq<Bytes32>) => WriteRawVec(WriteBytes, ss), m.ss) + m.cc
  }

  function WriteBorromean(b: BorromeanRange): seq<byte> {
    WriteRawVec(WriteBytes, b.s0) + WriteRawVec(WriteBytes, b.s1) + b.ee + WriteRawVec(WriteBytes, b.bitCommitments)
  }

  function WriteClsag(c: Clsag): seq<byte> {
    WriteRawVec(WriteBytes, c.s) + c.c1 + c.D
  }

  function WritePrunable(p: RctPrunable, t: RctType): seq<byte> {
    match p
    case AggregateMlsagBorromean(borromean, mlsag) => WriteRawVec(WriteBorromean, borromean) + WriteMlsag(mlsag)
    case MlsagBorromean(borromean, mlsags) => WriteRawVec(WriteBorromean, borromean) + WriteRawVec(WriteMlsag, mlsags)
    case MlsagBulletproofs(bulletproof, mlsags, pseudoOuts) => WriteMlsagBulletproofs(t, bulletproof, mlsags, pseudoOuts)
    case MlsagBulletproofsCompactAmount(bulletproof, mlsags, pseudoOuts) =>
      WriteMlsagBulletproofs(t, bulletproof, mlsags, pseudoOuts)
    case ClsagProofs(bulletproof, clsags, pseudoOuts) =>
      [1] + WriteBulletproof(bulletproof) + WriteRawVec(WriteClsag, clsags) + WriteRawVec(WriteBytes, pseudoOuts)
  }

  function WriteMlsagBulletproofs(t: RctType, bulletproof: Bulletproof, mlsags: seq<Mlsag>, pseudoOuts: seq<Bytes32>)
    : seq<byte>
  {
    (if t.MlsagBulletproofsType? then [1, 0, 0, 0] else [1])
    + WriteBulletproof(bulletproof) + WriteRawVec(WriteMlsag, mlsags) + WriteRawVec(WriteBytes, pseudoOuts)
  }

  function WriteProofs(p: RctProofs): seq<byte> {
    WriteBase(p.base, TypeOf(p.prunable)) + WritePrunable(p.prunable, TypeOf(p.prunable))
  }

  function WriteRingSignature(s: RingSignature): seq<byte> {
    WriteRawVec((signature: (Bytes32, Bytes32)) => signature.0 + signature.1, s)
  }

  /** What follows the prefix. */
  function WriteBody(body: Body): seq<byte> {
    match body
    case Signatures(signatures) => WriteRawVec(WriteRingSignature, signatures)
    case Proofs(None) => [0]
    case Proofs(Some(proofs)) => WriteProofs(proofs)
  }

  function WriteTransaction(tx: Transaction): seq<byte> {
    VarInt.Encoding(tx.Version()) + WritePrefix(tx.prefix) + WriteBody(tx.body)
  }

  // ---------------------------------------------------------------------------------------------
  // What is readable is written by its codec.

  lemma {:induction false} RawVecIs<T>(c: Codec<T>, f: T -> seq<byte>, values: seq<T>)
    requires forall i :: 0 <= i < |values| ==> c.write(values[i]) == f(values[i])
    ensures WriteMany(c, values) == WriteRawVec(f, values)
  {
    if values != [] {
      RawVecIs(c, f, values[1..]);
    }
  }

  lemma ManyIs<T>(c: Codec<T>, n: nat, f: T -> seq<byte>, values: seq<T>)
    requires Many(c, n).ok(values)
    requires forall t :: c.ok(t) ==> c.write(t) == f(t)
    ensures Many(c, n).write(values) == WriteRawVec(f, values)
  {
    RawVecIs(c, f, values);
  }

  lemma ListIs<T(!new)>(c: Codec<T>, bound: Option<nat>, f: T -> seq<byte>, values: seq<T>)
    requires Vec(c, bound).ok(values)
    requires forall t :: c.ok(t) ==> c.write(t) == f(t)
    ensures Vec(c, bound).write(values) == WriteVec(f, values)
  {
    hide Vec, VarInt.Encoding;
    VecIs(c, bound, values);
    RawVecIs(c, f, values);
  }

  lemma NumberWritten(n: nat)
    ensures Num(64).write(n) == VarInt.Encoding(n)
  {
  }

  lemma ByteWritten(b: byte)
    ensures Byte().write(b) == [b]
  {
  }

  lemma PointsWritten()
    ensures forall bytes :: PointCodec().write(bytes) == WriteBytes(bytes) && ScalarCodec().write(bytes) == WriteBytes(bytes)
    ensures forall bytes :: Bytes(32).write(bytes) == WriteBytes(bytes)
  {
  }

  lemma Four(a: seq<byte>, b: seq<byte>, c: seq<byte>, d: seq<byte>)
    ensures a + (b + (c + d)) == a + b + c + d
  {
  }

  lemma Five(a: seq<byte>, b: seq<byte>, c: seq<byte>, d: seq<byte>, e: seq<byte>)
    ensures a + (b + (c + (d + e))) == a + b + c + d + e
  {
    Four(b, c, d, e);
    Four(a, b, c, d);
    assert a + (b + c + d + e) == a + (b + c + d) + e;
  }

  lemma TimelockWritten(t: Timelock)
    ensures TimelockCodec().write(t) == WriteTimelock(t)
  {
    hide VarInt.Encoding;
    IsoIs(Num(64), IntoTimelock, FromTimelock, t);
  }

  lemma InputWritten(i: Input)
    requires InputCodec().ok(i)
    ensures InputCodec().write(i) == WriteInput(i)
  {
    hide Vec, VarInt.Encoding, WriteVec, Both, Then, Guard, Iso, Num, Byte, PointCodec;
    IsoIs(Then(Guard(Byte(), InputTag), InputBody), DropFirst, FromInput, i);
    ThenIs(Guard(Byte(), InputTag), InputBody, FromInput(i));
    GuardIs(Byte(), InputTag, FromInput(i).0);
    ByteWritten(FromInput(i).0);
    if i.Gen? {
      IsoIs(Num(64), IntoGen, FromGen, i);
      NumberWritten(i.height);
    } else {
      var offsets := Vec(Num(64), Some(MAX_SIZE));
      IsoIs(Both(Iso(Num(64), IntoAmount, FromAmount), Both(offsets, PointCodec())), IntoToKey, FromToKey, i);
      BothIs(Iso(Num(64), IntoAmount, FromAmount), Both(offsets, PointCodec()), FromToKey(i));
      BothIs(offsets, PointCodec(), FromToKey(i).1);
      IsoIs(Num(64), IntoAmount, FromAmount, i.amount);
      NumberWritten(FromAmount(i.amount));
      PointsWritten();
      OffsetsWritten(i.keyOffsets);
      Four([2], VarInt.Encoding(FromAmount(i.amount)), offsets.write(i.keyOffsets), i.keyImage);
    }
  }

  lemma OffsetsWritten(offsets: seq<nat>)
    requires Vec(Num(64), Some(MAX_SIZE)).ok(offsets)
    ensures Vec(Num(64), Some(MAX_SIZE)).write(offsets) == WriteVec((n: nat) => VarInt.Encoding(n), offsets)
  {
    hide Vec, WriteVec;
    ListIs(Num(64), Some(MAX_SIZE), (n: nat) => VarInt.Encoding(n), offsets);
  }

  lemma OutputWritten(rct: bool, o: Output)
    requires OutputCodec(rct).ok(o)
    ensures OutputCodec(rct).write(o) == WriteOutput(o)
  {
    hide VarInt.Encoding, Both, Then, Guard, Iso, Num, Byte, PointCodec, Absent;
    var v := FromOutput(o);
    IsoIs(Both(OutputAmount(rct), Then(Guard(Byte(), OutputTag), OutputBody)), IntoOutput, FromOutput, o);
    BothIs(OutputAmount(rct), Then(Guard(Byte(), OutputTag), OutputBody), v);
    ThenIs(Guard(Byte(), OutputTag), OutputBody, v.1);
    GuardIs(Byte(), OutputTag, v.1.0);
    ByteWritten(v.1.0);
    BothIs(PointCodec(), if v.1.0 == 3 then Iso(Byte(), SomeTag, FromTag) else Absent(), v.1.1);
    IsoIs(Guard(Num(64), IsZero), NoAmount, FromAmount, o.amount);
    GuardIs(Num(64), IsZero, FromAmount(o.amount));
    IsoIs(Num(64), SomeAmount, FromAmount, o.amount);
    NumberWritten(FromAmount(o.amount));
    IsoIs(Byte(), SomeTag, FromTag, o.viewTag);
    ByteWritten(FromTag(o.viewTag));
    AbsentWritten(o.viewTag);
    PointsWritten();
    Four(VarInt.Encoding(FromAmount(o.amount)), [v.1.0], o.key, if o.viewTag.Some? then [o.viewTag.value] else []);
  }

  lemma AbsentWritten(tag: Option<byte>)
    ensures Absent().write(tag) == []
  {
  }

  lemma ExtraWritten(extra: seq<byte>)
    ensures WriteMany(Byte(), extra) == extra
    decreases extra
  {
    if extra != [] {
      ExtraWritten(extra[1..]);
      assert extra == [extra[0]] + extra[1..];
    }
  }

  lemma InputsWritten(inputs: seq<Input>)
    requires Vec(InputCodec(), Some(MAX_INPUTS)).ok(inputs)
    ensures Vec(InputCodec(), Some(MAX_INPUTS)).write(inputs) == WriteVec(WriteInput, inputs)
  {
    hide Vec, WriteVec, InputCodec, WriteInput;
    forall i | InputCodec().ok(i)
      ensures InputCodec().write(i) == WriteInput(i)
    {
      InputWritten(i);
    }
    ListIs(InputCodec(), Some(MAX_INPUTS), WriteInput, inputs);
  }

  lemma OutputsWritten(rct: bool, bound: Option<nat>, outputs: seq<Output>)
    requires Vec(OutputCodec(rct), bound).ok(outputs)
    ensures Vec(OutputCodec(rct), bound).write(outputs) == WriteVec(WriteOutput, outputs)
  {
    hide Vec, WriteVec, OutputCodec, WriteOutput;
    forall o | OutputCodec(rct).ok(o)
      ensures OutputCodec(rct).write(o) == WriteOutput(o)
    {
      OutputWritten(rct, o);
    }
    ListIs(OutputCodec(rct), bound, WriteOutput, outputs);
  }

  lemma PrefixWritten(version: nat, p: TransactionPrefix)
    requires PrefixCodec(version).ok(p)
    ensures PrefixCodec(version).write(p) == WritePrefix(p)
  {
    hide TimelockCodec, InputCodec, OutputCodec, VarInt.Encoding, Vec, WriteTimelock, WriteVec, Both, Then, Guard, Iso, Byte;
    var maxOutputs := if IsMiner(p.inputs) then None else Some(MAX_OUTPUTS);
    var maxExtra := if IsMiner(p.inputs) then None else Some(MAX_SIZE);
    var rct := !IsMiner(p.inputs) && version == 2;
    var v := FromPrefix(p);
    IsoIs(Both(TimelockCodec(), Then(InputsCodec(), (inputs: seq<Input>) => PrefixBody(version, inputs))), IntoPrefix, FromPrefix, p);
    BothIs(TimelockCodec(), Then(InputsCodec(), (inputs: seq<Input>) => PrefixBody(version, inputs)), v);
    ThenIs(InputsCodec(), (inputs: seq<Input>) => PrefixBody(version, inputs), v.1);
    GuardIs(Vec(InputCodec(), Some(MAX_INPUTS)), NotEmpty, p.inputs);
    BothIs(Vec(OutputCodec(rct), maxOutputs), Vec(Byte(), maxExtra), v.1.1);
    TimelockWritten(p.additionalTimelock);
    InputsWritten(p.inputs);
    OutputsWritten(rct, maxOutputs, p.outputs);
    VecIs(Byte(), maxExtra, p.extra);
    ExtraWritten(p.extra);
    Five(WriteTimelock(p.additionalTimelock), WriteVec(WriteInput, p.inputs), WriteVec(WriteOutput, p.outputs),
         VarInt.Encoding(|p.extra|), p.extra);
  }

  lemma AmountWritten(compact: bool, a: EncryptedAmount)
    requires EncryptedAmountCodec(compact).ok(a)
    ensures EncryptedAmountCodec(compact).write(a) == WriteEncryptedAmount(a)
  {
    IsoIs(Bytes(8), IntoCompact, FromCompact, a);
    IsoIs(Both(Bytes(32), Bytes(32)), IntoOriginal, FromOriginal, a);
    BothIs(Bytes(32), Bytes(32), FromOriginal(a));
  }

  lemma AmountsWritten(compact: bool, n: nat, amounts: seq<EncryptedAmount>)
    requires Many(EncryptedAmountCodec(compact), n).ok(amounts)
    ensures Many(EncryptedAmountCodec(compact), n).write(amounts) == WriteRawVec(WriteEncryptedAmount, amounts)
  {
    hide EncryptedAmountCodec, WriteEncryptedAmount;
    forall a | EncryptedAmountCodec(compact).ok(a)
      ensures EncryptedAmountCodec(compact).write(a) == WriteEncryptedAmount(a)
    {
      AmountWritten(compact, a);
    }
    ManyIs(EncryptedAmountCodec(compact), n, WriteEncryptedAmount, amounts);
  }

  lemma PointListWritten(n: nat, points: seq<Bytes32>)
    requires Many(PointCodec(), n).ok(points)
    ensures Many(PointCodec(), n).write(points) == WriteRawVec(WriteBytes, points)
  {
    PointsWritten();
    ManyIs(PointCodec(), n, WriteBytes, points);
  }

  lemma BaseWritten(t: RctType, inputs: nat, outputs: nat, b: RctBase)
    requires BaseCodec(t, inputs, outputs).ok(b)
    ensures [FromRctType(t)] + BaseCodec(t, inputs, outputs).write(b) == WriteBase(b, t)
  {
    hide Many, VarInt.Encoding, EncryptedAmountCodec, WriteRawVec, PointCodec, Both, Then, Iso, Num, FromRctType;
    var v := FromBase(b);
    var borromean := t.MlsagBorromeanType?;
    var pseudoOuts := Many(PointCodec(), if borromean then inputs else 0);
    var amounts := Many(EncryptedAmountCodec(t.CompactEncryptedAmounts()), outputs);
    IsoIs(BaseFields(t, inputs, outputs), IntoBase, FromBase, b);
    BothIs(Num(64), Both(pseudoOuts, Both(amounts, Many(PointCodec(), outputs))), v);
    BothIs(pseudoOuts, Both(amounts, Many(PointCodec(), outputs)), v.1);
    BothIs(amounts, Many(PointCodec(), outputs), v.1.1);
    NumberWritten(b.fee);
    PointListWritten(if borromean then inputs else 0, b.pseudoOuts);
    PointListWritten(outputs, b.commitments);
    AmountsWritten(t.CompactEncryptedAmounts(), outputs, b.encryptedAmounts);
    if !borromean {
      NoneWritten(b.pseudoOuts);
    }
    Five([FromRctType(t)], VarInt.Encoding(b.fee), if borromean then WriteRawVec(WriteBytes, b.pseudoOuts) else [],
         WriteRawVec(WriteEncryptedAmount, b.encryptedAmounts), WriteRawVec(WriteBytes, b.commitments));
  }

  lemma NoneWritten(points: seq<Bytes32>)
    requires Many(PointCodec(), 0).ok(points)
    ensures WriteRawVec(WriteBytes, points) == []
  {
  }

  lemma PointVecWritten(points: seq<Bytes32>)
    requires Vec(PointCodec(), Some(MAX_LR)).ok(points)
    ensures Vec(PointCodec(), Some(MAX_LR)).write(points) == WriteVec(WriteBytes, points)
  {
    hide Vec, WriteVec;
    PointsWritten();
    ListIs(PointCodec(), Some(MAX_LR), WriteBytes, points);
  }

  lemma OriginalWritten(bp: Bulletproof)
    requires BulletproofCodec(false).ok(bp)
    ensures BulletproofCodec(false).write(bp) == WriteBulletproof(bp)
  {
    hide Vec, WriteVec, Both, Then, Iso, Many, PointCodec, ScalarCodec;
    var list := Vec(PointCodec(), Some(MAX_LR));
    var v := FromBulletproof(bp);
    IsoIs(OriginalFieldsCodec(), IntoBulletproof, FromBulletproof, bp);
    BothIs(Many(PointCodec(), 4), Both(Many(ScalarCodec(), 2), Both(list, Both(list, Many(ScalarCodec(), 3)))), v);
    BothIs(Many(ScalarCodec(), 2), Both(list, Both(list, Many(ScalarCodec(), 3))), v.1);
    BothIs(list, Both(list, Many(ScalarCodec(), 3)), v.1.1);
    BothIs(list, Many(ScalarCodec(), 3), v.1.1.1);
    PointVecWritten(v.1.1.0);
    PointVecWritten(v.1.1.1.0);
    OriginalInOrder(bp);
  }

  lemma OriginalInOrder(bp: Bulletproof)
    requires bp.Original?
    ensures var v := FromBulletproof(bp);
            Many(PointCodec(), 4).write(v.0) + (Many(ScalarCodec(), 2).write(v.1.0) +
              (WriteVec(WriteBytes, bp.L) + (WriteVec(WriteBytes, bp.R) + Many(ScalarCodec(), 3).write(v.1.1.1.1)))) ==
            WriteBulletproof(bp)
  {
    hide Many, WriteVec, PointCodec, ScalarCodec;
    FourWritten(bp.A, bp.S, bp.T1, bp.T2);
    TwoWritten(bp.tauX, bp.mu);
    ThreeWritten(bp.a, bp.b, bp.tHat);
    Five(bp.A + bp.S + bp.T1 + bp.T2, bp.tauX + bp.mu, WriteVec(WriteBytes, bp.L), WriteVec(WriteBytes, bp.R),
         bp.a + bp.b + bp.tHat);
    var start := bp.A + bp.S + bp.T1 + bp.T2;
    assert start + (bp.tauX + bp.mu) == start + bp.tauX + bp.mu;
    var lists := start + bp.tauX + bp.mu + WriteVec(WriteBytes, bp.L) + WriteVec(WriteBytes, bp.R);
    assert lists + (bp.a + bp.b + bp.tHat) == lists + bp.a + bp.b + bp.tHat;
  }

  lemma TwoWritten(a: Bytes32, b: Bytes32)
    ensures Many(ScalarCodec(), 2).write([a, b]) == a + b
  {
    assert [a, b][1..] == [b] && [b][1..] == [];
    assert WriteMany(ScalarCodec(), [b]) == b + [] == b;
  }

  lemma ThreeWritten(a: Bytes32, b: Bytes32, c: Bytes32)
    ensures Many(ScalarCodec(), 3).write([a, b, c]) == a + b + c
    ensures Many(PointCodec(), 3).write([a, b, c]) == a + b + c
  {
    ManyThree(ScalarCodec(), a, b, c);
    ManyThree(PointCodec(), a, b, c);
    assert a + (b + c) == a + b + c;
  }

  lemma ManyThree(codec: Codec<Bytes32>, a: Bytes32, b: Bytes32, c: Bytes32)
    requires codec.write(a) == a && codec.write(b) == b && codec.write(c) == c
    ensures WriteMany(codec, [a, b, c]) == a + (b + c)
  {
    assert [a, b, c][1..] == [b, c] && [b, c][1..] == [c] && [c][1..] == [];
    assert WriteMany(codec, [c]) == c + [] == c;
    assert WriteMany(codec, [b, c]) == b + c;
  }

  lemma FourWritten(a: Bytes32, b: Bytes32, c: Bytes32, d: Bytes32)
    ensures Many(PointCodec(), 4).write([a, b, c, d]) == a + b + c + d
  {
    ManyThree(PointCodec(), b, c, d);
    assert [a, b, c, d][1..] == [b, c, d];
    assert WriteMany(PointCodec(), [a, b, c, d]) == a + (b + (c + d));
    Four(a, b, c, d);
  }

  lemma PlusWritten(bp: Bulletproof)
    requires BulletproofCodec(true).ok(bp)
    ensures BulletproofCodec(true).write(bp) == WriteBulletproof(bp)
  {
    hide Vec, WriteVec, Both, Then, Iso, Many, PointCodec, ScalarCodec;
    var list := Vec(PointCodec(), Some(MAX_LR));
    var v := FromBulletproofPlus(bp);
    IsoIs(PlusFieldsCodec(), IntoBulletproofPlus, FromBulletproofPlus, bp);
    BothIs(Many(PointCodec(), 3), Both(Many(ScalarCodec(), 3), Both(list, list)), v);
    BothIs(Many(ScalarCodec(), 3), Both(list, list), v.1);
    BothIs(list, list, v.1.1);
    PointVecWritten(v.1.1.0);
    PointVecWritten(v.1.1.1);
    PlusInOrder(bp);
  }

  lemma PlusInOrder(bp: Bulletproof)
    requires bp.Plus?
    ensures var v := FromBulletproofPlus(bp);
            Many(PointCodec(), 3).write(v.0) + (Many(ScalarCodec(), 3).write(v.1.0) +
              (WriteVec(WriteBytes, bp.L) + WriteVec(WriteBytes, bp.R))) ==
            WriteBulletproof(bp)
  {
    hide Many, WriteVec, PointCodec, ScalarCodec;
    ThreeWritten(bp.A, bp.wipA, bp.wipB);
    ThreeWritten(bp.rAnswer, bp.sAnswer, bp.deltaAnswer);
    var start := bp.A + bp.wipA + bp.wipB;
    Four(start, bp.rAnswer + bp.sAnswer + bp.deltaAnswer, WriteVec(WriteBytes, bp.L), WriteVec(WriteBytes, bp.R));
    assert start + (bp.rAnswer + bp.sAnswer + bp.deltaAnswer) == start + bp.rAnswer + bp.sAnswer + bp.deltaAnswer;
  }

  lemma BulletproofWritten(plus: bool, bp: Bulletproof)
    requires BulletproofCodec(plus).ok(bp)
    ensures BulletproofCodec(plus).write(bp) == WriteBulletproof(bp)
  {
    hide BulletproofCodec;
    if plus { PlusWritten(bp); } else { OriginalWritten(bp); }
  }

  lemma MlsagWritten(decoys: nat, ss2Elements: nat, m: Mlsag)
    requires MlsagCodec(decoys, ss2Elements).ok(m)
    ensures MlsagCodec(decoys, ss2Elements).write(m) == WriteMlsag(m)
  {
    hide Many, ScalarCodec, WriteRawVec;
    var row := Many(ScalarCodec(), ss2Elements);
    IsoIs(Both(Many(row, decoys), ScalarCodec()), IntoMlsag, FromMlsag, m);
    BothIs(Many(row, decoys), ScalarCodec(), FromMlsag(m));
    PointsWritten();
    forall ss | row.ok(ss)
      ensures row.write(ss) == WriteRawVec(WriteBytes, ss)
    {
      ManyIs(ScalarCodec(), ss2Elements, WriteBytes, ss);
    }
    ManyIs(row, decoys, (ss: seq<Bytes32>) => WriteRawVec(WriteBytes, ss), m.ss);
  }

  lemma BorromeanWritten(b: BorromeanRange)
    requires BorromeanCodec().ok(b)
    ensures BorromeanCodec().write(b) == WriteBorromean(b)
  {
    hide Many, ScalarCodec, PointCodec, Bytes, WriteRawVec;
    var v := FromBorromean(b);
    IsoIs(Both(Many(Bytes(32), 64), Both(Many(Bytes(32), 64), Both(ScalarCodec(), Many(PointCodec(), 64)))),
          IntoBorromean, FromBorromean, b);
    BothIs(Many(Bytes(32), 64), Both(Many(Bytes(32), 64), Both(ScalarCodec(), Many(PointCodec(), 64))), v);
    BothIs(Many(Bytes(32), 64), Both(ScalarCodec(), Many(PointCodec(), 64)), v.1);
    BothIs(ScalarCodec(), Many(PointCodec(), 64), v.1.1);
    PointsWritten();
    ManyIs(Bytes(32), 64, WriteBytes, b.s0);
    ManyIs(Bytes(32), 64, WriteBytes, b.s1);
    ManyIs(PointCodec(), 64, WriteBytes, b.bitCommitments);
  }

  lemma ClsagWritten(decoys: nat, c: Clsag)
    requires ClsagCodec(decoys).ok(c)
    ensures ClsagCodec(decoys).write(c) == WriteClsag(c)
  {
    hide Many, ScalarCodec, PointCodec, WriteRawVec;
    IsoIs(Both(Many(ScalarCodec(), decoys), Both(ScalarCodec(), PointCodec())), IntoClsag, FromClsag, c);
    BothIs(Many(ScalarCodec(), decoys), Both(ScalarCodec(), PointCodec()), FromClsag(c));
    BothIs(ScalarCodec(), PointCodec(), FromClsag(c).1);
    PointsWritten();
    ManyIs(ScalarCodec(), decoys, WriteBytes, c.s);
  }

  // Lists of the proofs of a ring.
  lemma ManyMlsags(decoys: nat, n: nat, mlsags: seq<Mlsag>)
    requires Many(MlsagCodec(decoys, 2), n).ok(mlsags)
    ensures Many(MlsagCodec(decoys, 2), n).write(mlsags) == WriteRawVec(WriteMlsag, mlsags)
  {
    hide MlsagCodec;
    forall m | MlsagCodec(decoys, 2).ok(m)
      ensures MlsagCodec(decoys, 2).write(m) == WriteMlsag(m)
    {
      MlsagWritten(decoys, 2, m);
    }
    ManyIs(MlsagCodec(decoys, 2), n, WriteMlsag, mlsags);
  }

  lemma ManyBorromeans(n: nat, borromeans: seq<BorromeanRange>)
    requires Many(BorromeanCodec(), n).ok(borromeans)
    ensures Many(BorromeanCodec(), n).write(borromeans) == WriteRawVec(WriteBorromean, borromeans)
  {
    hide BorromeanCodec;
    forall b | BorromeanCodec().ok(b)
      ensures BorromeanCodec().write(b) == WriteBorromean(b)
    {
      BorromeanWritten(b);
    }
    ManyIs(BorromeanCodec(), n, WriteBorromean, borromeans);
  }

  lemma ManyClsags(decoys: nat, n: nat, clsags: seq<Clsag>)
    requires Many(ClsagCodec(decoys), n).ok(clsags)
    ensures Many(ClsagCodec(decoys), n).write(clsags) == WriteRawVec(WriteClsag, clsags)
  {
    hide ClsagCodec;
    forall c | ClsagCodec(decoys).ok(c)
      ensures ClsagCodec(decoys).write(c) == WriteClsag(c)
    {
      ClsagWritten(decoys, c);
    }
    ManyIs(ClsagCodec(decoys), n, WriteClsag, clsags);
  }

  lemma MlsagFieldsWritten(ring: nat, inputs: nat, v: MlsagFields)
    requires MlsagFieldsCodec(ring, inputs).ok(v)
    ensures MlsagFieldsCodec(ring, inputs).write(v) ==
            WriteBulletproof(v.0) + WriteRawVec(WriteMlsag, v.1.0) + WriteRawVec(WriteBytes, v.1.1)
  {
    hide BulletproofCodec, MlsagCodec, Many, PointCodec, WriteBulletproof, WriteRawVec;
    BothIs(BulletproofCodec(false), Both(Many(MlsagCodec(ring, 2), inputs), Many(PointCodec(), inputs)), v);
    BothIs(Many(MlsagCodec(ring, 2), inputs), Many(PointCodec(), inputs), v.1);
    BulletproofWritten(false, v.0);
    ManyMlsags(ring, inputs, v.1.0);
    PointsWritten();
    ManyIs(PointCodec(), inputs, WriteBytes, v.1.1);
  }

  lemma ClsagFieldsWritten(plus: bool, ring: nat, inputs: nat, v: ClsagFields)
    requires ClsagFieldsCodec(plus, ring, inputs).ok(v)
    ensures ClsagFieldsCodec(plus, ring, inputs).write(v) ==
            WriteBulletproof(v.0) + WriteRawVec(WriteClsag, v.1.0) + WriteRawVec(WriteBytes, v.1.1)
  {
    hide BulletproofCodec, ClsagCodec, Many, PointCodec, WriteBulletproof, WriteRawVec;
    BothIs(BulletproofCodec(plus), Both(Many(ClsagCodec(ring), inputs), Many(PointCodec(), inputs)), v);
    BothIs(Many(ClsagCodec(ring), inputs), Many(PointCodec(), inputs), v.1);
    BulletproofWritten(plus, v.0);
    ManyClsags(ring, inputs, v.1.0);
    PointsWritten();
    ManyIs(PointCodec(), inputs, WriteBytes, v.1.1);
  }

  lemma PrunableWritten(t: RctType, ring: nat, inputs: nat, outputs: nat, p: RctPrunable)
    requires PrunableCodec(t, ring, inputs, outputs).ok(p)
    ensures PrunableCodec(t, ring, inputs, outputs).write(p) == WritePrunable(p, t)
  {
    hide BorromeanCodec, MlsagCodec, MlsagFieldsCodec, ClsagFieldsCodec, After, Many, WriteBulletproof, WriteRawVec,
         WriteMlsag, Iso, Both, Then, Num, Byte;
    match t {
      case AggregateMlsagBorromeanType =>
        IsoIs(Both(Many(BorromeanCodec(), outputs), MlsagCodec(ring, inputs + 1)), IntoAggregate, FromAggregate, p);
        BothIs(Many(BorromeanCodec(), outputs), MlsagCodec(ring, inputs + 1), FromAggregate(p));
        ManyBorromeans(outputs, p.borromean);
        MlsagWritten(ring, inputs + 1, p.mlsag);
      case MlsagBorromeanType =>
        IsoIs(Both(Many(BorromeanCodec(), outputs), Many(MlsagCodec(ring, 2), inputs)), IntoMlsagBorromean, FromMlsagBorromean, p);
        BothIs(Many(BorromeanCodec(), outputs), Many(MlsagCodec(ring, 2), inputs), FromMlsagBorromean(p));
        ManyBorromeans(outputs, p.borromean);
        ManyMlsags(ring, inputs, p.mlsags);
      case MlsagBulletproofsType =>
        IsoIs(After(Bytes(4), [1, 0, 0, 0], MlsagFieldsCodec(ring, inputs)), IntoMlsagBulletproofs, FromMlsagBulletproofs, p);
        AfterIs(Bytes(4), [1, 0, 0, 0], MlsagFieldsCodec(ring, inputs), FromMlsagBulletproofs(p));
        MlsagFieldsWritten(ring, inputs, FromMlsagBulletproofs(p));
      case MlsagBulletproofsCompactAmountType =>
        IsoIs(After(Num(64), 1, MlsagFieldsCodec(ring, inputs)), IntoMlsagCompact, FromMlsagCompact, p);
        AfterIs(Num(64), 1, MlsagFieldsCodec(ring, inputs), FromMlsagCompact(p));
        MlsagFieldsWritten(ring, inputs, FromMlsagCompact(p));
        OneWritten();
      case ClsagBulletproofType => ClsagsWritten(false, ring, inputs, p);
      case ClsagBulletproofPlusType => ClsagsWritten(true, ring, inputs, p);
    }
  }

  lemma OneWritten()
    ensures Num(64).write(1) == [1] && Byte().write(1) == [1]
  {
  }

  lemma ClsagsWritten(plus: bool, ring: nat, inputs: nat, p: RctPrunable)
    requires Iso(After(Byte(), 1, ClsagFieldsCodec(plus, ring, inputs)), IntoClsagProofs, FromClsagProofs).ok(p)
    ensures p.ClsagProofs?
    ensures Iso(After(Byte(), 1, ClsagFieldsCodec(plus, ring, inputs)), IntoClsagProofs, FromClsagProofs).write(p) ==
            [1] + WriteBulletproof(p.bulletproof) + WriteRawVec(WriteClsag, p.clsags) + WriteRawVec(WriteBytes, p.pseudoOuts)
  {
    hide ClsagFieldsCodec, After, WriteBulletproof, WriteRawVec;
    IsoIs(After(Byte(), 1, ClsagFieldsCodec(plus, ring, inputs)), IntoClsagProofs, FromClsagProofs, p);
    AfterIs(Byte(), 1, ClsagFieldsCodec(plus, ring, inputs), FromClsagProofs(p));
    ClsagFieldsWritten(plus, ring, inputs, FromClsagProofs(p));
    OneWritten();
  }

  lemma ProofsWritten(ring: nat, inputs: nat, outputs: nat, p: RctProofs)
    requires ProofsCodec(ring, inputs, outputs).ok(p)
    ensures ProofsCodec(ring, inputs, outputs).write(p) == WriteProofs(p)
  {
    hide BaseCodec, PrunableCodec, TypeOf, RctTypeCodec, WriteBase, WritePrunable, Iso, Then, Both;
    var t := TypeOf(p.prunable);
    IsoIs(Then(RctTypeCodec(outputs), (t: RctType) => TypedProofsCodec(ring, inputs, outputs, t)), IntoProofs, FromProofs, p);
    ThenIs(RctTypeCodec(outputs), (t: RctType) => TypedProofsCodec(ring, inputs, outputs, t), FromProofs(p));
    BothIs(BaseCodec(t, inputs, outputs), PrunableCodec(t, ring, inputs, outputs), (p.base, p.prunable));
    RctTypeIs(outputs, t);
    BaseWritten(t, inputs, outputs, p.base);
    PrunableWritten(t, ring, inputs, outputs, p.prunable);
  }

  lemma RingSignatureWritten(members: nat, s: RingSignature)
    requires RingSignatureCodec(members).ok(s)
    ensures RingSignatureCodec(members).write(s) == WriteRingSignature(s)
  {
    hide WriteRawVec;
    ManyIs(Both(ScalarCodec(), ScalarCodec()), members, (signature: (Bytes32, Bytes32)) => signature.0 + signature.1, s);
  }

  lemma {:induction false} SignaturesWritten(inputs: seq<Input>, signatures: seq<RingSignature>)
    requires SignaturesCodec(inputs).ok(signatures)
    ensures SignaturesCodec(inputs).write(signatures) == WriteRawVec(WriteRingSignature, signatures)
  {
    hide RingSignatureCodec, WriteRingSignature;
    if inputs != [] && inputs[0].ToKey? {
      IsoIs(Both(RingSignatureCodec(|inputs[0].keyOffsets|), SignaturesCodec(inputs[1..])), IntoList, FromList, signatures);
      BothIs(RingSignatureCodec(|inputs[0].keyOffsets|), SignaturesCodec(inputs[1..]), FromList(signatures));
      SignaturesWritten(inputs[1..], FromList(signatures).1);
      RingSignatureWritten(|inputs[0].keyOffsets|, FromList(signatures).0);
    }
  }

  lemma BodyWritten(version: nat, p: TransactionPrefix, b: Body)
    requires BodyCodec(version, p).ok(b)
    ensures BodyCodec(version, p).write(b) == WriteBody(b)
  {
    hide SignaturesCodec, ProofsCodec, WriteProofs, WriteRingSignature, Iso;
    BodyVersion(version, p, b);
    if version == 1 {
      if |p.inputs| == 1 && p.inputs[0].Gen? {
        IsoIs(Empty(), IntoSignatures, FromSignatures, b);
      } else {
        IsoIs(SignaturesCodec(p.inputs), IntoSignatures, FromSignatures, b);
        SignaturesWritten(p.inputs, b.signatures);
      }
    } else {
      var c := ProofsCodec(RingLength(p.inputs), |p.inputs|, |p.outputs|);
      IsoIs(Optional(c), IntoBodyProofs, FromBodyProofs, b);
      if b.proofs.Some? {
        ProofsWritten(RingLength(p.inputs), |p.inputs|, |p.outputs|, b.proofs.value);
      }
    }
  }

  lemma TransactionWritten(tx: Transaction)
    requires TransactionCodec().ok(tx)
    ensures TransactionCodec().write(tx) == WriteTransaction(tx)
  {
    hide PrefixCodec, BodyCodec, VarInt.Encoding, WritePrefix, WriteBody, Iso, Then, Num;
    IsoIs(Then(Num(64), VersionedCodec), IntoTransaction, FromTransaction, tx);
    ThenIs(Num(64), VersionedCodec, FromTransaction(tx));
    ThenIs(PrefixCodec(tx.Version()), (p: TransactionPrefix) => BodyCodec(tx.Version(), p), (tx.prefix, tx.body));
    NumberWritten(tx.Version());
    PrefixWritten(tx.Version(), tx.prefix);
    BodyWritten(tx.Version(), tx.prefix, tx.body);
    var version := VarInt.Encoding(tx.Version());
    assert version + (WritePrefix(tx.prefix) + WriteBody(tx.body)) == version + WritePrefix(tx.prefix) + WriteBody(tx.body);
  }

  // ---------------------------------------------------------------------------------------------
  // Reading.

  function ReadByte(data: seq<byte>): Option<(byte, seq<byte>)> {
    if data == [] then None else Some((data[0], data[1..]))
  }

  function ReadBytes(n: nat, data: seq<byte>): Option<(seq<byte>, seq<byte>)> {
    if |data| < n then None else Some((data[..n], data[n..]))
  }

  function ReadNumber(data: seq<byte>): Option<(nat, seq<byte>)> {
    VarInt.Decoded(data, 0, 64).ToOption()
  }

  function ReadPoint(data: seq<byte>): Option<(Bytes32, seq<byte>)> {
    ReadBytes(32, data)
  }

  function ReadScalar(data: seq<byte>): Option<(Bytes32, seq<byte>)> {
    var bytes :- ReadBytes(32, data);
    if Reduced(bytes.0) then Some(bytes) else None
  }

  function ReadRawVec<T>(f: seq<byte> -> Option<(T, seq<byte>)>, n: nat, data: seq<byte>): Option<(seq<T>, seq<byte>)>
    decreases n
  {
    if n == 0 then Some(([], data))
    else
      var first :- f(data);
      var more :- ReadRawVec(f, n - 1, first.1);
      Some(([first.0] + more.0, more.1))
  }

  function ReadVec<T>(f: seq<byte> -> Option<(T, seq<byte>)>, bound: Option<nat>, data: seq<byte>)
    : Option<(seq<T>, seq<byte>)>
  {
    var declared :- ReadNumber(data);
    if bound.Some? && declared.0 > bound.value then None else ReadRawVec(f, declared.0, declared.1)
  }

  function ReadTimelock(data: seq<byte>): Option<(Timelock, seq<byte>)> {
    var raw :- ReadNumber(data);
    Some((if raw.0 == 0 then NoTimelock else if raw.0 < TIMELOCK_BLOCK_THRESHOLD then Block(raw.0) else Time(raw.0), raw.1))
  }

  function ReadInput(data: seq<byte>): Option<(Input, seq<byte>)> {
    var tag :- ReadByte(data);
    if tag.0 == 255 then
      var height :- ReadNumber(tag.1);
      Some((Gen(height.0), height.1))
    else if tag.0 == 2 then ReadToKey(tag.1)
    else None
  }

  function ReadToKey(data: seq<byte>): Option<(Input, seq<byte>)> {
    var amount :- ReadNumber(data);
    var keyOffsets :- ReadVec(ReadNumber, Some(MAX_SIZE), amount.1);
    var keyImage :- ReadPoint(keyOffsets.1);
    Some((ToKey(if amount.0 == 0 then None else Some(amount.0), keyOffsets.0, keyImage.0), keyImage.1))
  }

  function ReadOutput(rct: bool, data: seq<byte>): Option<(Output, seq<byte>)> {
    var amount :- ReadNumber(data);
    if rct && amount.0 != 0 then None
    else
      var tag :- ReadByte(amount.1);
      if tag.0 != 2 && tag.0 != 3 then None
      else
        var key :- ReadPoint(tag.1);
        if tag.0 == 3 then
          var viewTag :- ReadByte(key.1);
          Some((Output(if rct then None else Some(amount.0), key.0, Some(viewTag.0)), viewTag.1))
        else Some((Output(if rct then None else Some(amount.0), key.0, None), key.1))
  }

  function ReadPrefix(version: nat, data: seq<byte>): Option<(TransactionPrefix, seq<byte>)> {
    var timelock :- ReadTimelock(data);
    var inputs :- ReadVec(ReadInput, Some(MAX_INPUTS), timelock.1);
    if inputs.0 == [] then None
    else
      var miner := inputs.0[0].Gen?;
      var outputs :- ReadVec((d: seq<byte>) => ReadOutput(!miner && version == 2, d), if miner then None else Some(MAX_OUTPUTS),
                             inputs.1);
      var extra :- ReadVec(ReadByte, if miner then None else Some(MAX_SIZE), outputs.1);
      Some((TransactionPrefix(timelock.0, inputs.0, outputs.0, extra.0), extra.1))
  }

  function ReadEncryptedAmount(compact: bool, data: seq<byte>): Option<(EncryptedAmount, seq<byte>)> {
    if !compact then
      var mask :- ReadBytes(32, data);
      var amount :- ReadBytes(32, mask.1);
      Some((OriginalAmount(mask.0, amount.0), amount.1))
    else
      var amount :- ReadBytes(8, data);
      Some((CompactAmount(amount.0), amount.1))
  }

  /** The base, and the type before it; a zero in its place stands for no proofs. */
  function ReadBase(inputs: nat, outputs: nat, data: seq<byte>): Option<(Option<(RctType, RctBase)>, seq<byte>)> {
    var tag :- ReadByte(data);
    if tag.0 == 0 then Some((None, tag.1))
    else if tag.0 > 6 then None
    else
      var t := IntoRctType(tag.0);
      if !t.Borromean() && outputs == 0 then None
      else
        var fee :- ReadNumber(tag.1);
        var pseudoOuts :- if t.MlsagBorromeanType? then ReadRawVec(ReadPoint, inputs, fee.1) else Some(([], fee.1));
        var amounts :- ReadRawVec((d: seq<byte>) => ReadEncryptedAmount(t.CompactEncryptedAmounts(), d), outputs, pseudoOuts.1);
        var commitments :- ReadRawVec(ReadPoint, outputs, amounts.1);
        Some((Some((t, RctBase(fee.0, pseudoOuts.0, amounts.0, commitments.0))), commitments.1))
  }

  function ReadBulletproof(data: seq<byte>): Option<(Bulletproof, seq<byte>)> {
    var A :- ReadPoint(data);
    var S :- ReadPoint(A.1);
    var T1 :- ReadPoint(S.1);
    var T2 :- ReadPoint(T1.1);
    var tauX :- ReadScalar(T2.1);
    var mu :- ReadScalar(tauX.1);
    var L :- ReadVec(ReadPoint, Some(MAX_LR), mu.1);
    var R :- ReadVec(ReadPoint, Some(MAX_LR), L.1);
    var a :- ReadScalar(R.1);
    var b :- ReadScalar(a.1);
    var tHat :- ReadScalar(b.1);
    Some((Original(A.0, S.0, T1.0, T2.0, tauX.0, mu.0, L.0, R.0, a.0, b.0, tHat.0), tHat.1))
  }

  function ReadBulletproofPlus(data: seq<byte>): Option<(Bulletproof, seq<byte>)> {
    var A :- ReadPoint(data);
    var wipA :- ReadPoint(A.1);
    var wipB :- ReadPoint(wipA.1);
    var rAnswer :- ReadScalar(wipB.1);
    var sAnswer :- ReadScalar(rAnswer.1);
    var deltaAnswer :- ReadScalar(sAnswer.1);
    var L :- ReadVec(ReadPoint, Some(MAX_LR), deltaAnswer.1);
    var R :- ReadVec(ReadPoint, Some(MAX_LR), L.1);
    Some((Plus(A.0, wipA.0, wipB.0, rAnswer.0, sAnswer.0, deltaAnswer.0, L.0, R.0), R.1))
  }

  function ReadMlsag(decoys: nat, ss2Elements: nat, data: seq<byte>): Option<(Mlsag, seq<byte>)> {
    var ss :- ReadRawVec((d: seq<byte>) => ReadRawVec(ReadScalar, ss2Elements, d), decoys, data);
    var cc :- ReadScalar(ss.1);
    Some((Mlsag(ss.0, cc.0), cc.1))
  }

  function ReadUnreducedScalar(data: seq<byte>): Option<(Bytes32, seq<byte>)> {
    ReadBytes(32, data)
  }

  function ReadBorromean(data: seq<byte>): Option<(BorromeanRange, seq<byte>)> {
    var s0 :- ReadRawVec(ReadUnreducedScalar, 64, data);
    var s1 :- ReadRawVec(ReadUnreducedScalar, 64, s0.1);
    var ee :- ReadScalar(s1.1);
    var bitCommitments :- ReadRawVec(ReadPoint, 64, ee.1);
    Some((BorromeanRange(s0.0, s1.0, ee.0, bitCommitments.0), bitCommitments.1))
  }

  function ReadClsag(decoys: nat, data: seq<byte>): Option<(Clsag, seq<byte>)> {
    var s :- ReadRawVec(ReadScalar, decoys, data);
    var c1 :- ReadScalar(s.1);
    var D :- ReadPoint(c1.1);
    Some((Clsag(s.0, c1.0, D.0), D.1))
  }

  function ReadPrunable(t: RctType, ring: nat, inputs: nat, outputs: nat, data: seq<byte>): Option<(RctPrunable, seq<byte>)> {
    match t
    case AggregateMlsagBorromeanType =>
      var borromean :- ReadRawVec(ReadBorromean, outputs, data);
      var mlsag :- ReadMlsag(ring, inputs + 1, borromean.1);
      Some((AggregateMlsagBorromean(borromean.0, mlsag.0), mlsag.1))
    case MlsagBorromeanType =>
      var borromean :- ReadRawVec(ReadBorromean, outputs, data);
      var mlsags :- ReadRawVec((d: seq<byte>) => ReadMlsag(ring, 2, d), inputs, borromean.1);
      Some((MlsagBorromean(borromean.0, mlsags.0), mlsags.1))
    case MlsagBulletproofsType =>
      var count :- ReadBytes(4, data);
      if count.0 != [1, 0, 0, 0] then None
      else
        var proofs :- ReadMlsagProofs(ring, inputs, count.1);
        Some((MlsagBulletproofs(proofs.0.0, proofs.0.1.0, proofs.0.1.1), proofs.1))
    case MlsagBulletproofsCompactAmountType =>
      var count :- ReadNumber(data);
      if count.0 != 1 then None
      else
        var proofs :- ReadMlsagProofs(ring, inputs, count.1);
        Some((MlsagBulletproofsCompactAmount(proofs.0.0, proofs.0.1.0, proofs.0.1.1), proofs.1))
    case ClsagBulletproofType => ReadClsagProofs(false, ring, inputs, data)
    case ClsagBulletproofPlusType => ReadClsagProofs(true, ring, inputs, data)
  }

  function ReadMlsagProofs(ring: nat, inputs: nat, data: seq<byte>): Option<(MlsagFields, seq<byte>)> {
    var bulletproof :- ReadBulletproof(data);
    var mlsags :- ReadRawVec((d: seq<byte>) => ReadMlsag(ring, 2, d), inputs, bulletproof.1);
    var pseudoOuts :- ReadRawVec(ReadPoint, inputs, mlsags.1);
    Some(((bulletproof.0, (mlsags.0, pseudoOuts.0)), pseudoOuts.1))
  }

  function ReadClsagProofs(plus: bool, ring: nat, inputs: nat, data: seq<byte>): Option<(RctPrunable, seq<byte>)> {
    var count :- ReadByte(data);
    if count.0 != 1 then None
    else
      var bulletproof :- if plus then ReadBulletproofPlus(count.1) else ReadBulletproof(count.1);
      var clsags :- ReadRawVec((d: seq<byte>) => ReadClsag(ring, d), inputs, bulletproof.1);
      var pseudoOuts :- ReadRawVec(ReadPoint, inputs, clsags.1);
      Some((ClsagProofs(bulletproof.0, clsags.0, pseudoOuts.0), pseudoOuts.1))
  }

  function ReadProofs(ring: nat, inputs: nat, outputs: nat, data: seq<byte>): Option<(Option<RctProofs>, seq<byte>)> {
    var base :- ReadBase(inputs, outputs, data);
    if base.0.None? then Some((None, base.1))
    else
      var prunable :- ReadPrunable(base.0.value.0, ring, inputs, outputs, base.1);
      Some((Some(RctProofs(base.0.value.1, prunable.0)), prunable.1))
  }

  function ReadRingSignature(members: nat, data: seq<byte>): Option<(RingSignature, seq<byte>)> {
    ReadRawVec((d: seq<byte>) => ReadSignature(d), members, data)
  }

  function ReadSignature(data: seq<byte>): Option<((Bytes32, Bytes32), seq<byte>)> {
    var c :- ReadScalar(data);
    var s :- ReadScalar(c.1);
    Some(((c.0, s.0), s.1))
  }

  function ReadSignatures(inputs: seq<Input>, data: seq<byte>): Option<(seq<RingSignature>, seq<byte>)> {
    if inputs == [] then Some(([], data))
    else if inputs[0].Gen? then None
    else
      var signature :- ReadRingSignature(|inputs[0].keyOffsets|, data);
      var more :- ReadSignatures(inputs[1..], signature.1);
      Some(([signature.0] + more.0, more.1))
  }

  function ReadTransaction(data: seq<byte>): Option<(Transaction, seq<byte>)> {
    var version :- ReadNumber(data);
    var prefix :- ReadPrefix(version.0, version.1);
    var inputs := prefix.0.inputs;
    if version.0 == 1 then
      var signatures :- if |inputs| == 1 && inputs[0].Gen? then Some(([], prefix.1)) else ReadSignatures(inputs, prefix.1);
      Some((Transaction(prefix.0, Signatures(signatures.0)), signatures.1))
    else if version.0 == 2 then
      var ring := if inputs == [] || inputs[0].Gen? then 0 else |inputs[0].keyOffsets|;
      var proofs :- ReadProofs(ring, |inputs|, |prefix.0.outputs|, prefix.1);
      Some((Transaction(prefix.0, Proofs(proofs.0)), proofs.1))
    else None
  }

  // ---------------------------------------------------------------------------------------------
  // Reading is what the codecs do.

  ghost predicate SameReader<T(!new)>(c: Codec<T>, f: seq<byte> -> Option<(T, seq<byte>)>) {
    forall data :: c.read(data) == f(data)
  }

  lemma {:induction false} RawVecRead<T(!new)>(c: Codec<T>, f: seq<byte> -> Option<(T, seq<byte>)>, n: nat, data: seq<byte>)
    requires SameReader(c, f)
    ensures Many(c, n).read(data) == ReadRawVec(f, n, data)
    decreases n
  {
    if n > 0 {
      assert c.read(data) == f(data);
      if f(data).Some? {
        RawVecRead(c, f, n - 1, f(data).value.1);
      }
    }
  }

  lemma VecRead<T(!new)>(c: Codec<T>, f: seq<byte> -> Option<(T, seq<byte>)>, bound: Option<nat>, data: seq<byte>)
    requires SameReader(c, f)
    ensures Vec(c, bound).read(data) == ReadVec(f, bound, data)
  {
    hide SameReader, VarInt.Decoded;
    if ReadNumber(data).Some? {
      var (n, rest) := ReadNumber(data).value;
      RawVecRead(c, f, n, rest);
    }
  }

  lemma ThenRead<S, T>(first: Codec<S>, second: S -> Codec<T>, data: seq<byte>)
    ensures Then(first, second).read(data) ==
            match first.read(data)
            case None => None
            case Some((s, rest)) =>
              match second(s).read(rest)
              case None => None
              case Some((t, after)) => Some(((s, t), after))
  {
  }

  lemma BothRead<S, T>(first: Codec<S>, second: Codec<T>, data: seq<byte>)
    ensures Both(first, second).read(data) ==
            match first.read(data)
            case None => None
            case Some((s, rest)) =>
              match second.read(rest)
              case None => None
              case Some((t, after)) => Some(((s, t), after))
  {
  }

  lemma IsoRead<S, T>(c: Codec<S>, into: S -> T, from: T -> S, data: seq<byte>)
    ensures Iso(c, into, from).read(data) ==
            match c.read(data)
            case None => None
            case Some((s, rest)) => Some((into(s), rest))
  {
  }

  lemma GuardRead<T>(c: Codec<T>, accept: T -> bool, data: seq<byte>)
    ensures Guard(c, accept).read(data) ==
            match c.read(data)
            case None => None
            case Some((t, rest)) => if accept(t) then Some((t, rest)) else None
  {
  }

  lemma PlainRead()
    ensures SameReader(Byte(), ReadByte) && SameReader(Num(64), ReadNumber)
    ensures SameReader(PointCodec(), ReadPoint) && SameReader(ScalarCodec(), ReadScalar)
    ensures SameReader(Bytes(32), ReadUnreducedScalar)
  {
    hide VarInt.Decoded;
  }

  lemma TimelockRead(data: seq<byte>)
    ensures TimelockCodec().read(data) == ReadTimelock(data)
  {
    hide Num, ReadNumber, Iso;
    PlainRead();
    IsoRead(Num(64), IntoTimelock, FromTimelock, data);
    assert Num(64).read(data) == ReadNumber(data);
  }

  lemma InputRead(data: seq<byte>)
    ensures InputCodec().read(data) == ReadInput(data)
  {
    hide Vec, ReadVec, Both, Then, Guard, Iso, Num, Byte, PointCodec, ReadNumber, ReadByte, ReadPoint;
    PlainRead();
    IsoRead(Then(Guard(Byte(), InputTag), InputBody), DropFirst, FromInput, data);
    ThenRead(Guard(Byte(), InputTag), InputBody, data);
    GuardRead(Byte(), InputTag, data);
    assert Byte().read(data) == ReadByte(data);
    if ReadByte(data).Some? && InputTag(ReadByte(data).value.0) {
      InputBodyRead(ReadByte(data).value.0, ReadByte(data).value.1);
    }
  }

  lemma InputBodyRead(tag: byte, data: seq<byte>)
    requires InputTag(tag)
    ensures tag == 255 ==>
              InputBody(tag).read(data) == match ReadNumber(data)
                                           case None => None
                                           case Some((height, rest)) => Some((Gen(height), rest))
    ensures tag == 2 ==>
              InputBody(tag).read(data) == ReadToKey(data)
  {
    hide Vec, ReadVec, Both, Then, Guard, Iso, Num, Byte, PointCodec, ReadNumber, ReadPoint;
    PlainRead();
    assert Num(64).read(data) == ReadNumber(data);
    if tag == 255 {
      IsoRead(Num(64), IntoGen, FromGen, data);
    } else {
      var offsets := Vec(Num(64), Some(MAX_SIZE));
      var amount := Iso(Num(64), IntoAmount, FromAmount);
      IsoRead(Both(amount, Both(offsets, PointCodec())), IntoToKey, FromToKey, data);
      BothRead(amount, Both(offsets, PointCodec()), data);
      IsoRead(Num(64), IntoAmount, FromAmount, data);
      if ReadNumber(data).Some? {
        var rest := ReadNumber(data).value.1;
        BothRead(offsets, PointCodec(), rest);
        VecRead(Num(64), ReadNumber, Some(MAX_SIZE), rest);
        if ReadVec(ReadNumber, Some(MAX_SIZE), rest).Some? {
          var after := ReadVec(ReadNumber, Some(MAX_SIZE), rest).value.1;
          assert PointCodec().read(after) == ReadPoint(after);
        }
      }
    }
  }

  lemma OutputRead(rct: bool, data: seq<byte>)
    ensures OutputCodec(rct).read(data) == ReadOutput(rct, data)
  {
    hide Both, Then, Guard, Iso, Num, Byte, PointCodec, ReadNumber, ReadByte, ReadPoint, OutputBody;
    PlainRead();
    var tagged := Then(Guard(Byte(), OutputTag), OutputBody);
    IsoRead(Both(OutputAmount(rct), tagged), IntoOutput, FromOutput, data);
    BothRead(OutputAmount(rct), tagged, data);
    IsoRead(Guard(Num(64), IsZero), NoAmount, FromAmount, data);
    GuardRead(Num(64), IsZero, data);
    IsoRead(Num(64), SomeAmount, FromAmount, data);
    assert Num(64).read(data) == ReadNumber(data);
    if ReadNumber(data).Some? {
      var rest := ReadNumber(data).value.1;
      ThenRead(Guard(Byte(), OutputTag), OutputBody, rest);
      GuardRead(Byte(), OutputTag, rest);
      assert Byte().read(rest) == ReadByte(rest);
      if ReadByte(rest).Some? {
        OutputBodyRead(ReadByte(rest).value.0, ReadByte(rest).value.1);
      }
    }
  }

  lemma OutputBodyRead(tag: byte, data: seq<byte>)
    ensures OutputBody(tag).read(data) ==
            match ReadPoint(data)
            case None => None
            case Some((key, rest)) =>
              if tag == 3 then
                match ReadByte(rest)
                case None => None
                case Some((viewTag, after)) => Some(((key, Some(viewTag)), after))
              else Some(((key, None), rest))
  {
    hide Both, Iso, Byte, PointCodec, ReadByte, ReadPoint;
    PlainRead();
    BothRead(PointCodec(), if tag == 3 then Iso(Byte(), SomeTag, FromTag) else Absent(), data);
    assert PointCodec().read(data) == ReadPoint(data);
    if ReadPoint(data).Some? {
      var rest := ReadPoint(data).value.1;
      IsoRead(Byte(), SomeTag, FromTag, rest);
      assert Byte().read(rest) == ReadByte(rest);
    }
  }

  lemma ElementsRead(rct: bool)
    ensures SameReader(InputCodec(), ReadInput)
    ensures SameReader(OutputCodec(rct), (d: seq<byte>) => ReadOutput(rct, d))
  {
    hide InputCodec, OutputCodec, ReadInput, ReadOutput;
    forall data
      ensures InputCodec().read(data) == ReadInput(data) && OutputCodec(rct).read(data) == ReadOutput(rct, data)
    {
      InputRead(data);
      OutputRead(rct, data);
    }
  }

  lemma PrefixBodyRead(version: nat, inputs: seq<Input>, data: seq<byte>)
    requires inputs != []
    ensures var miner := inputs[0].Gen?;
            PrefixBody(version, inputs).read(data) ==
            match ReadVec((d: seq<byte>) => ReadOutput(!miner && version == 2, d),
                          if miner then None else Some(MAX_OUTPUTS), data)
            case None => None
            case Some((outputs, rest)) =>
              match ReadVec(ReadByte, if miner then None else Some(MAX_SIZE), rest)
              case None => None
              case Some((extra, after)) => Some(((outputs, extra), after))
  {
    hide OutputCodec, Vec, Both, ReadVec, Byte, ReadByte;
    var miner := inputs[0].Gen?;
    var rct := !miner && version == 2;
    var maxOutputs := if miner then None else Some(MAX_OUTPUTS);
    var maxExtra := if miner then None else Some(MAX_SIZE);
    var f := (d: seq<byte>) => ReadOutput(rct, d);
    PlainRead();
    ElementsRead(rct);
    BothRead(Vec(OutputCodec(rct), maxOutputs), Vec(Byte(), maxExtra), data);
    VecRead(OutputCodec(rct), f, maxOutputs, data);
    if ReadVec(f, maxOutputs, data).Some? {
      VecRead(Byte(), ReadByte, maxExtra, ReadVec(f, maxOutputs, data).value.1);
    }
  }

  lemma PrefixRead(version: nat, data: seq<byte>)
    ensures PrefixCodec(version).read(data) == ReadPrefix(version, data)
  {
    hide TimelockCodec, InputCodec, Vec, Both, Then, Guard, Iso, ReadTimelock, ReadVec, ReadOutput, PrefixBody;
    var rest := Then(InputsCodec(), (inputs: seq<Input>) => PrefixBody(version, inputs));
    ElementsRead(true);
    IsoRead(Both(TimelockCodec(), rest), IntoPrefix, FromPrefix, data);
    BothRead(TimelockCodec(), rest, data);
    TimelockRead(data);
    if ReadTimelock(data).Some? {
      var d := ReadTimelock(data).value.1;
      ThenRead(InputsCodec(), (inputs: seq<Input>) => PrefixBody(version, inputs), d);
      GuardRead(Vec(InputCodec(), Some(MAX_INPUTS)), NotEmpty, d);
      VecRead(InputCodec(), ReadInput, Some(MAX_INPUTS), d);
      if ReadVec(ReadInput, Some(MAX_INPUTS), d).Some? {
        var (inputs, d') := ReadVec(ReadInput, Some(MAX_INPUTS), d).value;
        if inputs != [] {
          PrefixBodyRead(version, inputs, d');
        }
      }
    }
  }

  lemma AmountRead(compact: bool)
    ensures SameReader(EncryptedAmountCodec(compact), (d: seq<byte>) => ReadEncryptedAmount(compact, d))
  {
    forall data
      ensures EncryptedAmountCodec(compact).read(data) == ReadEncryptedAmount(compact, data)
    {
      IsoRead(Bytes(8), IntoCompact, FromCompact, data);
      IsoRead(Both(Bytes(32), Bytes(32)), IntoOriginal, FromOriginal, data);
      BothRead(Bytes(32), Bytes(32), data);
    }
  }

  /** The fields of the base, without its type. */
  function ReadBaseFields(t: RctType, inputs: nat, outputs: nat, data: seq<byte>): Option<(RctBase, seq<byte>)> {
    var fee :- ReadNumber(data);
    var pseudoOuts :- if t.MlsagBorromeanType? then ReadRawVec(ReadPoint, inputs, fee.1) else Some(([], fee.1));
    var amounts :- ReadRawVec((d: seq<byte>) => ReadEncryptedAmount(t.CompactEncryptedAmounts(), d), outputs, pseudoOuts.1);
    var commitments :- ReadRawVec(ReadPoint, outputs, amounts.1);
    Some((RctBase(fee.0, pseudoOuts.0, amounts.0, commitments.0), commitments.1))
  }

  lemma BaseRead(t: RctType, inputs: nat, outputs: nat, data: seq<byte>)
    ensures BaseCodec(t, inputs, outputs).read(data) == ReadBaseFields(t, inputs, outputs, data)
  {
    hide Many, EncryptedAmountCodec, ReadEncryptedAmount, Both, Iso, Num, PointCodec, ReadNumber, ReadPoint, ReadRawVec;
    var n := if t.MlsagBorromeanType? then inputs else 0;
    var compact := t.CompactEncryptedAmounts();
    var amounts := Many(EncryptedAmountCodec(compact), outputs);
    var f := (d: seq<byte>) => ReadEncryptedAmount(compact, d);
    PlainRead();
    AmountRead(compact);
    IsoRead(BaseFields(t, inputs, outputs), IntoBase, FromBase, data);
    BothRead(Num(64), Both(Many(PointCodec(), n), Both(amounts, Many(PointCodec(), outputs))), data);
    assert Num(64).read(data) == ReadNumber(data);
    if ReadNumber(data).Some? {
      var d := ReadNumber(data).value.1;
      BothRead(Many(PointCodec(), n), Both(amounts, Many(PointCodec(), outputs)), d);
      RawVecRead(PointCodec(), ReadPoint, n, d);
      NoPointsRead(d);
      if ReadRawVec(ReadPoint, n, d).Some? {
        var d' := ReadRawVec(ReadPoint, n, d).value.1;
        BothRead(amounts, Many(PointCodec(), outputs), d');
        RawVecRead(EncryptedAmountCodec(compact), f, outputs, d');
        if ReadRawVec(f, outputs, d').Some? {
          RawVecRead(PointCodec(), ReadPoint, outputs, ReadRawVec(f, outputs, d').value.1);
        }
      }
    }
  }

  lemma NoPointsRead(data: seq<byte>)
    ensures ReadRawVec(ReadPoint, 0, data) == Some(([], data))
  {
  }

  lemma TwoRead<T>(f: seq<byte> -> Option<(T, seq<byte>)>, data: seq<byte>)
    ensures ReadRawVec(f, 2, data) ==
            match f(data)
            case None => None
            case Some((a, d)) =>
              match f(d)
              case None => None
              case Some((b, rest)) => Some(([a, b], rest))
  {
    hide ReadRawVec;
    OneMoreRead(f, 2, data);
    if f(data).Some? {
      var (a, d) := f(data).value;
      OneMoreRead(f, 1, d);
      if f(d).Some? {
        var (b, rest) := f(d).value;
        OneMoreRead(f, 0, rest);
        assert [b] + [] == [b] && [a] + [b] == [a, b];
      }
    }
  }

  lemma OneMoreRead<T>(f: seq<byte> -> Option<(T, seq<byte>)>, n: nat, data: seq<byte>)
    ensures n == 0 ==> ReadRawVec(f, n, data) == Some(([], data))
    ensures n > 0 ==>
              ReadRawVec(f, n, data) ==
              match f(data)
              case None => None
              case Some((first, rest)) =>
                match ReadRawVec(f, n - 1, rest)
                case None => None
                case Some((more, after)) => Some(([first] + more, after))
  {
  }

  lemma ThreeRead<T>(f: seq<byte> -> Option<(T, seq<byte>)>, data: seq<byte>)
    ensures ReadRawVec(f, 3, data) ==
            match f(data)
            case None => None
            case Some((a, d)) =>
              match f(d)
              case None => None
              case Some((b, e)) =>
                match f(e)
                case None => None
                case Some((c, rest)) => Some(([a, b, c], rest))
  {
    hide ReadRawVec;
    OneMoreRead(f, 3, data);
    if f(data).Some? {
      var (a, d) := f(data).value;
      TwoRead(f, d);
      if f(d).Some? {
        var (b, e) := f(d).value;
        if f(e).Some? { assert [a] + [b, f(e).value.0] == [a, b, f(e).value.0]; }
      }
    }
  }

  lemma FourRead<T>(f: seq<byte> -> Option<(T, seq<byte>)>, data: seq<byte>)
    ensures ReadRawVec(f, 4, data) ==
            match f(data)
            case None => None
            case Some((a, d)) =>
              match f(d)
              case None => None
              case Some((b, e)) =>
                match f(e)
                case None => None
                case Some((c, g)) =>
                  match f(g)
                  case None => None
                  case Some((h, rest)) => Some(([a, b, c, h], rest))
  {
    hide ReadRawVec;
    OneMoreRead(f, 4, data);
    if f(data).Some? {
      var (a, d) := f(data).value;
      ThreeRead(f, d);
      if f(d).Some? {
        var (b, e) := f(d).value;
        if f(e).Some? {
          var (c, g) := f(e).value;
          if f(g).Some? { assert [a] + [b, c, f(g).value.0] == [a, b, c, f(g).value.0]; }
        }
      }
    }
  }

  function ReadOriginalFields(data: seq<byte>): Option<(OriginalFields, seq<byte>)> {
    var points :- ReadRawVec(ReadPoint, 4, data);
    var scalars :- ReadRawVec(ReadScalar, 2, points.1);
    var L :- ReadVec(ReadPoint, Some(MAX_LR), scalars.1);
    var R :- ReadVec(ReadPoint, Some(MAX_LR), L.1);
    var last :- ReadRawVec(ReadScalar, 3, R.1);
    Some(((points.0, (scalars.0, (L.0, (R.0, last.0)))), last.1))
  }

  lemma OriginalFieldsRead(data: seq<byte>)
    ensures OriginalFieldsCodec().read(data) == ReadOriginalFields(data)
  {
    hide Many, Vec, Both, PointCodec, ScalarCodec, ReadPoint, ReadScalar, ReadRawVec, ReadVec;
    var points, scalars, last, list := Many(PointCodec(), 4), Many(ScalarCodec(), 2), Many(ScalarCodec(), 3),
      Vec(PointCodec(), Some(MAX_LR));
    PlainRead();
    BothRead(points, Both(scalars, Both(list, Both(list, last))), data);
    RawVecRead(PointCodec(), ReadPoint, 4, data);
    if ReadRawVec(ReadPoint, 4, data).Some? {
      var d := ReadRawVec(ReadPoint, 4, data).value.1;
      BothRead(scalars, Both(list, Both(list, last)), d);
      RawVecRead(ScalarCodec(), ReadScalar, 2, d);
      if ReadRawVec(ReadScalar, 2, d).Some? {
        ListsRead(last, ReadRawVec(ReadScalar, 2, d).value.1);
      }
    }
  }

  lemma ListsRead(last: Codec<seq<Bytes32>>, data: seq<byte>)
    requires last == Many(ScalarCodec(), 3)
    ensures var list := Vec(PointCodec(), Some(MAX_LR));
            Both(list, Both(list, last)).read(data) ==
            match ReadVec(ReadPoint, Some(MAX_LR), data)
            case None => None
            case Some((L, d)) =>
              match ReadVec(ReadPoint, Some(MAX_LR), d)
              case None => None
              case Some((R, e)) =>
                match ReadRawVec(ReadScalar, 3, e)
                case None => None
                case Some((scalars, rest)) => Some(((L, (R, scalars)), rest))
  {
    hide Many, Vec, Both, PointCodec, ScalarCodec, ReadPoint, ReadScalar, ReadRawVec, ReadVec;
    var list := Vec(PointCodec(), Some(MAX_LR));
    PlainRead();
    BothRead(list, Both(list, last), data);
    VecRead(PointCodec(), ReadPoint, Some(MAX_LR), data);
    if ReadVec(ReadPoint, Some(MAX_LR), data).Some? {
      var d := ReadVec(ReadPoint, Some(MAX_LR), data).value.1;
      BothRead(list, last, d);
      VecRead(PointCodec(), ReadPoint, Some(MAX_LR), d);
      if ReadVec(ReadPoint, Some(MAX_LR), d).Some? {
        RawVecRead(ScalarCodec(), ReadScalar, 3, ReadVec(ReadPoint, Some(MAX_LR), d).value.1);
      }
    }
  }

  lemma BulletproofRead(data: seq<byte>)
    ensures BulletproofCodec(false).read(data) == ReadBulletproof(data)
  {
    hide OriginalFieldsCodec, Iso, ReadPoint, ReadScalar, ReadRawVec, ReadVec;
    IsoRead(OriginalFieldsCodec(), IntoBulletproof, FromBulletproof, data);
    OriginalFieldsRead(data);
    FourRead(ReadPoint, data);
    if ReadRawVec(ReadPoint, 4, data).Some? {
      var d := ReadRawVec(ReadPoint, 4, data).value.1;
      TwoRead(ReadScalar, d);
      if ReadRawVec(ReadScalar, 2, d).Some? {
        var e := ReadRawVec(ReadScalar, 2, d).value.1;
        if ReadVec(ReadPoint, Some(MAX_LR), e).Some? {
          var g := ReadVec(ReadPoint, Some(MAX_LR), e).value.1;
          if ReadVec(ReadPoint, Some(MAX_LR), g).Some? {
            ThreeRead(ReadScalar, ReadVec(ReadPoint, Some(MAX_LR), g).value.1);
          }
        }
      }
    }
  }

  function ReadPlusFields(data: seq<byte>): Option<(PlusFields, seq<byte>)> {
    var points :- ReadRawVec(ReadPoint, 3, data);
    var scalars :- ReadRawVec(ReadScalar, 3, points.1);
    var L :- ReadVec(ReadPoint, Some(MAX_LR), scalars.1);
    var R :- ReadVec(ReadPoint, Some(MAX_LR), L.1);
    Some(((points.0, (scalars.0, (L.0, R.0))), R.1))
  }

  lemma PlusFieldsRead(data: seq<byte>)
    ensures PlusFieldsCodec().read(data) == ReadPlusFields(data)
  {
    hide Many, Vec, Both, PointCodec, ScalarCodec, ReadPoint, ReadScalar, ReadRawVec, ReadVec;
    var points, scalars, list := Many(PointCodec(), 3), Many(ScalarCodec(), 3), Vec(PointCodec(), Some(MAX_LR));
    PlainRead();
    BothRead(points, Both(scalars, Both(list, list)), data);
    RawVecRead(PointCodec(), ReadPoint, 3, data);
    if ReadRawVec(ReadPoint, 3, data).Some? {
      var d := ReadRawVec(ReadPoint, 3, data).value.1;
      BothRead(scalars, Both(list, list), d);
      RawVecRead(ScalarCodec(), ReadScalar, 3, d);
      if ReadRawVec(ReadScalar, 3, d).Some? {
        var e := ReadRawVec(ReadScalar, 3, d).value.1;
        BothRead(list, list, e);
        VecRead(PointCodec(), ReadPoint, Some(MAX_LR), e);
        if ReadVec(ReadPoint, Some(MAX_LR), e).Some? {
          VecRead(PointCodec(), ReadPoint, Some(MAX_LR), ReadVec(ReadPoint, Some(MAX_LR), e).value.1);
        }
      }
    }
  }

  lemma BulletproofPlusRead(data: seq<byte>)
    ensures BulletproofCodec(true).read(data) == ReadBulletproofPlus(data)
  {
    hide PlusFieldsCodec, Iso, ReadPoint, ReadScalar, ReadRawVec, ReadVec;
    IsoRead(PlusFieldsCodec(), IntoBulletproofPlus, FromBulletproofPlus, data);
    PlusFieldsRead(data);
    ThreeRead(ReadPoint, data);
    if ReadRawVec(ReadPoint, 3, data).Some? {
      ThreeRead(ReadScalar, ReadRawVec(ReadPoint, 3, data).value.1);
    }
  }

  lemma MlsagRead(decoys: nat, ss2Elements: nat)
    ensures SameReader(MlsagCodec(decoys, ss2Elements), (d: seq<byte>) => ReadMlsag(decoys, ss2Elements, d))
  {
    hide Many, Both, Iso, ScalarCodec, ReadScalar, ReadRawVec;
    var row := Many(ScalarCodec(), ss2Elements);
    var f := (d: seq<byte>) => ReadRawVec(ReadScalar, ss2Elements, d);
    PlainRead();
    forall data
      ensures row.read(data) == f(data)
    {
      RawVecRead(ScalarCodec(), ReadScalar, ss2Elements, data);
    }
    forall data
      ensures MlsagCodec(decoys, ss2Elements).read(data) == ReadMlsag(decoys, ss2Elements, data)
    {
      IsoRead(Both(Many(row, decoys), ScalarCodec()), IntoMlsag, FromMlsag, data);
      BothRead(Many(row, decoys), ScalarCodec(), data);
      RawVecRead(row, f, decoys, data);
      if ReadRawVec(f, decoys, data).Some? {
        var d := ReadRawVec(f, decoys, data).value.1;
        assert ScalarCodec().read(d) == ReadScalar(d);
      }
    }
  }

  lemma BorromeanRead()
    ensures SameReader(BorromeanCodec(), ReadBorromean)
  {
    hide Many, Both, Iso, Bytes, ScalarCodec, PointCodec, ReadUnreducedScalar, ReadScalar, ReadPoint, ReadRawVec;
    var scalars, points := Many(Bytes(32), 64), Many(PointCodec(), 64);
    PlainRead();
    forall data
      ensures BorromeanCodec().read(data) == ReadBorromean(data)
    {
      IsoRead(Both(scalars, Both(scalars, Both(ScalarCodec(), points))), IntoBorromean, FromBorromean, data);
      BothRead(scalars, Both(scalars, Both(ScalarCodec(), points)), data);
      RawVecRead(Bytes(32), ReadUnreducedScalar, 64, data);
      if ReadRawVec(ReadUnreducedScalar, 64, data).Some? {
        var d := ReadRawVec(ReadUnreducedScalar, 64, data).value.1;
        BothRead(scalars, Both(ScalarCodec(), points), d);
        RawVecRead(Bytes(32), ReadUnreducedScalar, 64, d);
        if ReadRawVec(ReadUnreducedScalar, 64, d).Some? {
          var e := ReadRawVec(ReadUnreducedScalar, 64, d).value.1;
          BothRead(ScalarCodec(), points, e);
          assert ScalarCodec().read(e) == ReadScalar(e);
          if ReadScalar(e).Some? {
            RawVecRead(PointCodec(), ReadPoint, 64, ReadScalar(e).value.1);
          }
        }
      }
    }
  }

  lemma ClsagRead(decoys: nat)
    ensures SameReader(ClsagCodec(decoys), (d: seq<byte>) => ReadClsag(decoys, d))
  {
    hide Many, Both, Iso, ScalarCodec, PointCodec, ReadScalar, ReadPoint, ReadRawVec;
    PlainRead();
    forall data
      ensures ClsagCodec(decoys).read(data) == ReadClsag(decoys, data)
    {
      IsoRead(Both(Many(ScalarCodec(), decoys), Both(ScalarCodec(), PointCodec())), IntoClsag, FromClsag, data);
      BothRead(Many(ScalarCodec(), decoys), Both(ScalarCodec(), PointCodec()), data);
      RawVecRead(ScalarCodec(), ReadScalar, decoys, data);
      if ReadRawVec(ReadScalar, decoys, data).Some? {
        var d := ReadRawVec(ReadScalar, decoys, data).value.1;
        BothRead(ScalarCodec(), PointCodec(), d);
        assert ScalarCodec().read(d) == ReadScalar(d);
        if ReadScalar(d).Some? {
          var e := ReadScalar(d).value.1;
          assert PointCodec().read(e) == ReadPoint(e);
        }
      }
    }
  }

  lemma MlsagFieldsRead(ring: nat, inputs: nat, data: seq<byte>)
    ensures MlsagFieldsCodec(ring, inputs).read(data) == ReadMlsagProofs(ring, inputs, data)
  {
    hide Many, Both, BulletproofCodec, MlsagCodec, PointCodec, ReadBulletproof, ReadMlsag, ReadPoint, ReadRawVec;
    var mlsags := Many(MlsagCodec(ring, 2), inputs);
    var f := (d: seq<byte>) => ReadMlsag(ring, 2, d);
    PlainRead();
    MlsagRead(ring, 2);
    BothRead(BulletproofCodec(false), Both(mlsags, Many(PointCodec(), inputs)), data);
    BulletproofRead(data);
    if ReadBulletproof(data).Some? {
      var d := ReadBulletproof(data).value.1;
      BothRead(mlsags, Many(PointCodec(), inputs), d);
      RawVecRead(MlsagCodec(ring, 2), f, inputs, d);
      if ReadRawVec(f, inputs, d).Some? {
        RawVecRead(PointCodec(), ReadPoint, inputs, ReadRawVec(f, inputs, d).value.1);
      }
    }
  }

  lemma AfterRead<S(!new), T(!new)>(c: Codec<S>, s: S, next: Codec<T>, data: seq<byte>)
    ensures After(c, s, next).read(data) ==
            match c.read(data)
            case None => None
            case Some((x, rest)) => if x == s then next.read(rest) else None
  {
    hide Iso, Both, Guard;
    IsoRead(Both(Guard(c, (x: S) => x == s), next), DropFirst, (t: T) => (s, t), data);
    BothRead(Guard(c, (x: S) => x == s), next, data);
    GuardRead(c, (x: S) => x == s, data);
  }

  lemma ClsagsRead(plus: bool, ring: nat, inputs: nat, data: seq<byte>)
    ensures Iso(After(Byte(), 1, ClsagFieldsCodec(plus, ring, inputs)), IntoClsagProofs, FromClsagProofs).read(data) ==
            ReadClsagProofs(plus, ring, inputs, data)
  {
    hide Many, Both, Iso, After, BulletproofCodec, ClsagCodec, PointCodec, Byte, ReadByte, ReadBulletproof, ReadBulletproofPlus,
         ReadClsag, ReadPoint, ReadRawVec;
    var clsags := Many(ClsagCodec(ring), inputs);
    var f := (d: seq<byte>) => ReadClsag(ring, d);
    PlainRead();
    ClsagRead(ring);
    IsoRead(After(Byte(), 1, ClsagFieldsCodec(plus, ring, inputs)), IntoClsagProofs, FromClsagProofs, data);
    AfterRead(Byte(), 1, ClsagFieldsCodec(plus, ring, inputs), data);
    assert Byte().read(data) == ReadByte(data);
    if ReadByte(data).Some? && ReadByte(data).value.0 == 1 {
      var d := ReadByte(data).value.1;
      BothRead(BulletproofCodec(plus), Both(clsags, Many(PointCodec(), inputs)), d);
      BulletproofRead(d);
      BulletproofPlusRead(d);
      var bulletproof := if plus then ReadBulletproofPlus(d) else ReadBulletproof(d);
      if bulletproof.Some? {
        var e := bulletproof.value.1;
        BothRead(clsags, Many(PointCodec(), inputs), e);
        RawVecRead(ClsagCodec(ring), f, inputs, e);
        if ReadRawVec(f, inputs, e).Some? {
          RawVecRead(PointCodec(), ReadPoint, inputs, ReadRawVec(f, inputs, e).value.1);
        }
      }
    }
  }

  lemma PrunableRead(t: RctType, ring: nat, inputs: nat, outputs: nat, data: seq<byte>)
    ensures PrunableCodec(t, ring, inputs, outputs).read(data) == ReadPrunable(t, ring, inputs, outputs, data)
  {
    hide Many, Both, Iso, After, BorromeanCodec, MlsagCodec, MlsagFieldsCodec, Num, Bytes, ReadNumber, ReadBorromean,
         ReadMlsag, ReadRawVec, ReadMlsagProofs, ReadClsagProofs, ClsagFieldsCodec;
    var f := (d: seq<byte>) => ReadMlsag(ring, 2, d);
    PlainRead();
    BorromeanRead();
    MlsagRead(ring, 2);
    match t {
      case AggregateMlsagBorromeanType =>
        IsoRead(Both(Many(BorromeanCodec(), outputs), MlsagCodec(ring, inputs + 1)), IntoAggregate, FromAggregate, data);
        BothRead(Many(BorromeanCodec(), outputs), MlsagCodec(ring, inputs + 1), data);
        RawVecRead(BorromeanCodec(), ReadBorromean, outputs, data);
        if ReadRawVec(ReadBorromean, outputs, data).Some? {
          var d := ReadRawVec(ReadBorromean, outputs, data).value.1;
          MlsagRead(ring, inputs + 1);
          assert MlsagCodec(ring, inputs + 1).read(d) == ReadMlsag(ring, inputs + 1, d);
        }
      case MlsagBorromeanType =>
        IsoRead(Both(Many(BorromeanCodec(), outputs), Many(MlsagCodec(ring, 2), inputs)), IntoMlsagBorromean,
                FromMlsagBorromean, data);
        BothRead(Many(BorromeanCodec(), outputs), Many(MlsagCodec(ring, 2), inputs), data);
        RawVecRead(BorromeanCodec(), ReadBorromean, outputs, data);
        if ReadRawVec(ReadBorromean, outputs, data).Some? {
          RawVecRead(MlsagCodec(ring, 2), f, inputs, ReadRawVec(ReadBorromean, outputs, data).value.1);
        }
      case MlsagBulletproofsType =>
        IsoRead(After(Bytes(4), [1, 0, 0, 0], MlsagFieldsCodec(ring, inputs)), IntoMlsagBulletproofs, FromMlsagBulletproofs, data);
        AfterRead(Bytes(4), [1, 0, 0, 0], MlsagFieldsCodec(ring, inputs), data);
        FourBytesRead(data);
        if ReadBytes(4, data).Some? {
          MlsagFieldsRead(ring, inputs, ReadBytes(4, data).value.1);
        }
      case MlsagBulletproofsCompactAmountType =>
        IsoRead(After(Num(64), 1, MlsagFieldsCodec(ring, inputs)), IntoMlsagCompact, FromMlsagCompact, data);
        AfterRead(Num(64), 1, MlsagFieldsCodec(ring, inputs), data);
        assert Num(64).read(data) == ReadNumber(data);
        if ReadNumber(data).Some? {
          MlsagFieldsRead(ring, inputs, ReadNumber(data).value.1);
        }
      case ClsagBulletproofType => ClsagsRead(false, ring, inputs, data);
      case ClsagBulletproofPlusType => ClsagsRead(true, ring, inputs, data);
    }
  }

  lemma FourBytesRead(data: seq<byte>)
    ensures Bytes(4).read(data) == ReadBytes(4, data)
  {
  }

  lemma RctTypeRead(outputs: nat, data: seq<byte>)
    ensures RctTypeCodec(outputs).read(data) ==
            match ReadByte(data)
            case None => None
            case Some((tag, rest)) =>
              if 1 <= tag <= 6 && (IntoRctType(tag).Borromean() || outputs > 0) then Some((IntoRctType(tag), rest)) else None
  {
    hide Guard, Iso, Byte, ReadByte, IntoRctType;
    var typed := Iso(Guard(Byte(), IsRctType), IntoRctType, FromRctType);
    PlainRead();
    GuardRead(typed, (t: RctType) => t.Borromean() || outputs > 0, data);
    IsoRead(Guard(Byte(), IsRctType), IntoRctType, FromRctType, data);
    GuardRead(Byte(), IsRctType, data);
    assert Byte().read(data) == ReadByte(data);
  }

  lemma ProofsRead(ring: nat, inputs: nat, outputs: nat, data: seq<byte>)
    ensures Optional(ProofsCodec(ring, inputs, outputs)).read(data) == ReadProofs(ring, inputs, outputs, data)
  {
    hide RctTypeCodec, BaseCodec, PrunableCodec, Iso, Then, Both, IntoRctType, ReadPrunable, ReadNumber, ReadRawVec, ReadPoint;
    var typed := (t: RctType) => TypedProofsCodec(ring, inputs, outputs, t);
    IsoRead(Then(RctTypeCodec(outputs), typed), IntoProofs, FromProofs, data);
    ThenRead(RctTypeCodec(outputs), typed, data);
    RctTypeRead(outputs, data);
    if data != [] && 1 <= data[0] <= 6 && (IntoRctType(data[0]).Borromean() || outputs > 0) {
      var t, d := IntoRctType(data[0]), data[1..];
      BothRead(BaseCodec(t, inputs, outputs), PrunableCodec(t, ring, inputs, outputs), d);
      BaseRead(t, inputs, outputs, d);
      if ReadBaseFields(t, inputs, outputs, d).Some? {
        PrunableRead(t, ring, inputs, outputs, ReadBaseFields(t, inputs, outputs, d).value.1);
      }
    }
  }

  lemma RingSignatureRead(members: nat, data: seq<byte>)
    ensures RingSignatureCodec(members).read(data) == ReadRingSignature(members, data)
  {
    hide Both, ScalarCodec, ReadScalar, ReadRawVec, Many;
    PlainRead();
    forall d
      ensures Both(ScalarCodec(), ScalarCodec()).read(d) == ReadSignature(d)
    {
      BothRead(ScalarCodec(), ScalarCodec(), d);
      assert ScalarCodec().read(d) == ReadScalar(d);
      if ReadScalar(d).Some? {
        var e := ReadScalar(d).value.1;
        assert ScalarCodec().read(e) == ReadScalar(e);
      }
    }
    RawVecRead(Both(ScalarCodec(), ScalarCodec()), (d: seq<byte>) => ReadSignature(d), members, data);
  }

  lemma {:induction false} SignaturesRead(inputs: seq<Input>, data: seq<byte>)
    ensures SignaturesCodec(inputs).read(data) == ReadSignatures(inputs, data)
  {
    hide Both, Iso, RingSignatureCodec, ReadRingSignature;
    if inputs != [] && inputs[0].ToKey? {
      var first := RingSignatureCodec(|inputs[0].keyOffsets|);
      IsoRead(Both(first, SignaturesCodec(inputs[1..])), IntoList, FromList, data);
      BothRead(first, SignaturesCodec(inputs[1..]), data);
      RingSignatureRead(|inputs[0].keyOffsets|, data);
      if first.read(data).Some? {
        SignaturesRead(inputs[1..], first.read(data).value.1);
      }
    }
  }

  function ReadBodySignatures(inputs: seq<Input>, data: seq<byte>): Option<(seq<RingSignature>, seq<byte>)> {
    if |inputs| == 1 && inputs[0].Gen? then Some(([], data)) else ReadSignatures(inputs, data)
  }

  lemma BodyRead(version: nat, p: TransactionPrefix, data: seq<byte>)
    ensures BodyCodec(version, p).read(data) ==
            if version == 1 then
              (match ReadBodySignatures(p.inputs, data)
               case None => None
               case Some((signatures, rest)) => Some((Signatures(signatures), rest)))
            else if version == 2 then
              (match ReadProofs(RingLength(p.inputs), |p.inputs|, |p.outputs|, data)
               case None => None
               case Some((proofs, rest)) => Some((Proofs(proofs), rest)))
            else None
  {
    hide Iso, Optional, SignaturesCodec, ProofsCodec, ReadSignatures, ReadProofs;
    var c := ProofsCodec(RingLength(p.inputs), |p.inputs|, |p.outputs|);
    IsoRead(Empty(), IntoSignatures, FromSignatures, data);
    IsoRead(SignaturesCodec(p.inputs), IntoSignatures, FromSignatures, data);
    SignaturesRead(p.inputs, data);
    IsoRead(Optional(c), IntoBodyProofs, FromBodyProofs, data);
    ProofsRead(RingLength(p.inputs), |p.inputs|, |p.outputs|, data);
  }

  lemma TransactionRead(data: seq<byte>)
    ensures TransactionCodec().read(data) == ReadTransaction(data)
  {
    hide Iso, Then, Num, PrefixCodec, BodyCodec, ReadNumber, ReadPrefix, ReadSignatures, ReadProofs;
    PlainRead();
    IsoRead(Then(Num(64), VersionedCodec), IntoTransaction, FromTransaction, data);
    ThenRead(Num(64), VersionedCodec, data);
    assert Num(64).read(data) == ReadNumber(data);
    if ReadNumber(data).Some? {
      var (version, d) := ReadNumber(data).value;
      ThenRead(PrefixCodec(version), (p: TransactionPrefix) => BodyCodec(version, p), d);
      PrefixRead(version, d);
      if ReadPrefix(version, d).Some? {
        var (p, e) := ReadPrefix(version, d).value;
        BodyRead(version, p, e);
      }
    }
  }

  // The source's reader and its writer, which are written down apart from each other, agree on every
  // sequence of bytes: a transaction is read, leaving a rest, exactly from what is written for it before that
  // rest, if it can be read back at all.
  lemma ReadIsWrite(data: seq<byte>, tx: Transaction, rest: seq<byte>)
    ensures ReadTransaction(data) == Some((tx, rest)) <==> data == WriteTransaction(tx) + rest && TransactionCodec().ok(tx)
  {
    hide Exact, TransactionCodec, WriteTransaction, ReadTransaction;
    TransactionExact();
    TransactionRead(data);
    if ReadTransaction(data) == Some((tx, rest)) {
      ReadIsWritten(TransactionCodec(), data);
      TransactionWritten(tx);
    }
    if data == WriteTransaction(tx) + rest && TransactionCodec().ok(tx) {
      TransactionWritten(tx);
      WrittenIsRead(TransactionCodec(), tx, rest);
    }
  }
}
