/** src/transaction.rs and src/ringct.rs: the serialization of transactions, of both versions and all RingCT types. */
module Transactions {
  import opened Wrappers
  import opened PowersOfTwo
  import opened Ed25519
  import opened Codec

  /** An encoded point or scalar. */
  type Bytes32 = seq<byte>

  const MAX_SIZE: nat := 1_000_000
  // The number of the smallest inputs, and outputs, which fit in the largest transaction
  const MAX_INPUTS: nat := 28571
  const MAX_OUTPUTS: nat := 29411
  // The number of points in a list of a Bulletproof's
  const MAX_LR: nat := 10

  // ---------------------------------------------------------------------------------------------
  // Shared pieces.

  predicate Reduced(bytes: seq<byte>) {
    LittleEndian(bytes) < L
  }

  /** A scalar, which must be canonically encoded. */
  function ScalarCodec(): Codec<Bytes32> {
    Guard(Bytes(32), Reduced)
  }

  function PointCodec(): Codec<Bytes32> {
    Bytes(32)
  }

  lemma SharedExact()
    ensures Exact(ScalarCodec()) && Exact(PointCodec()) && Exact(Byte()) && Exact(Num(64))
  {
    hide Exact;
    BytesExact(32);
    GuardExact(Bytes(32), Reduced);
    ByteExact();
    NumExact(64);
  }

  /** Reads nothing, as an absent value. */
  function Absent<T(==)>(): Codec<Option<T>> {
    Codec((data: seq<byte>) => Some((None, data)), (v: Option<T>) => [], (v: Option<T>) => v == None)
  }

  lemma AbsentExact<T(!new)>()
    ensures Exact(Absent<T>())
  {
    var c := Absent<T>();
    forall data, t, rest
      ensures c.read(data) == Some((t, rest)) <==> data == c.write(t) + rest && c.ok(t)
    {
      assert [] + rest == rest;
    }
  }

  /** Reads nothing, as an empty list. */
  function Empty<T(==)>(): Codec<seq<T>> {
    Codec((data: seq<byte>) => Some(([], data)), (v: seq<T>) => [], (v: seq<T>) => v == [])
  }

  lemma EmptyExact<T(!new)>()
    ensures Exact(Empty<T>())
  {
    var c := Empty<T>();
    forall data, t, rest
      ensures c.read(data) == Some((t, rest)) <==> data == c.write(t) + rest && c.ok(t)
    {
      assert [] + rest == rest;
    }
  }

  /** Fails. */
  function Fail<T>(): Codec<T> {
    Codec((data: seq<byte>) => None, (v: T) => [], (v: T) => false)
  }

  lemma FailExact<T(!new)>()
    ensures Exact(Fail<T>())
  {
  }

  function DropFirst<S, T>(v: (S, T)): T {
    v.1
  }

  /** A value after a fixed one. */
  function After<S(==), T(==)>(c: Codec<S>, s: S, next: Codec<T>): Codec<T> {
    Iso(Both(Guard(c, (x: S) => x == s), next), DropFirst, (t: T) => (s, t))
  }

  lemma AfterExact<S(!new), T(!new)>(c: Codec<S>, s: S, next: Codec<T>)
    requires Exact(c) && Exact(next)
    ensures Exact(After(c, s, next))
  {
    hide Exact;
    GuardExact(c, (x: S) => x == s);
    BothExact(Guard(c, (x: S) => x == s), next);
    IsoExact(Both(Guard(c, (x: S) => x == s), next), DropFirst, (t: T) => (s, t));
  }

  // ---------------------------------------------------------------------------------------------
  // The prefix.

  datatype Timelock = NoTimelock | Block(block: nat) | Time(time: nat)

  const TIMELOCK_BLOCK_THRESHOLD: nat := 500_000_000

  function IntoTimelock(raw: nat): Timelock {
    if raw == 0 then NoTimelock else if raw < TIMELOCK_BLOCK_THRESHOLD then Block(raw) else Time(raw)
  }

  function FromTimelock(t: Timelock): nat {
    match t
    case NoTimelock => 0
    case Block(block) => block
    case Time(time) => time
  }

  function TimelockCodec(): Codec<Timelock> {
    Iso(Num(64), IntoTimelock, FromTimelock)
  }

  lemma TimelockExact()
    ensures Exact(TimelockCodec())
  {
    hide Exact;
    SharedExact();
    IsoExact(Num(64), IntoTimelock, FromTimelock);
  }

  datatype Input = Gen(height: nat) | ToKey(amount: Option<nat>, keyOffsets: seq<nat>, keyImage: Bytes32)

  // An amount of zero is the same as none.
  function IntoAmount(amount: nat): Option<nat> {
    if amount == 0 then None else Some(amount)
  }

  function FromAmount(amount: Option<nat>): nat {
    if amount.Some? then amount.value else 0
  }

  function IntoGen(height: nat): Input {
    Gen(height)
  }

  function FromGen(input: Input): nat {
    if input.Gen? then input.height else 0
  }

  function IntoToKey(v: (Option<nat>, (seq<nat>, Bytes32))): Input {
    ToKey(v.0, v.1.0, v.1.1)
  }

  function FromToKey(input: Input): (Option<nat>, (seq<nat>, Bytes32)) {
    if input.ToKey? then (input.amount, (input.keyOffsets, input.keyImage)) else (None, ([], []))
  }

  predicate InputTag(tag: byte) {
    tag == 255 || tag == 2
  }

  function InputBody(tag: byte): Codec<Input> {
    if tag == 255 then Iso(Num(64), IntoGen, FromGen)
    else
      Iso(Both(Iso(Num(64), IntoAmount, FromAmount), Both(Vec(Num(64), Some(MAX_SIZE)), PointCodec())), IntoToKey, FromToKey)
  }

  function FromInput(input: Input): (byte, Input) {
    (if input.Gen? then 255 else 2, input)
  }

  function InputCodec(): Codec<Input> {
    Iso(Then(Guard(Byte(), InputTag), InputBody), DropFirst, FromInput)
  }

  lemma InputBodyExact(tag: byte)
    ensures Exact(InputBody(tag))
  {
    hide Exact;
    SharedExact();
    IsoExact(Num(64), IntoGen, FromGen);
    IsoExact(Num(64), IntoAmount, FromAmount);
    VecExact(Num(64), Some(MAX_SIZE));
    BothExact(Vec(Num(64), Some(MAX_SIZE)), PointCodec());
    BothExact(Iso(Num(64), IntoAmount, FromAmount), Both(Vec(Num(64), Some(MAX_SIZE)), PointCodec()));
    IsoExact(Both(Iso(Num(64), IntoAmount, FromAmount), Both(Vec(Num(64), Some(MAX_SIZE)), PointCodec())), IntoToKey, FromToKey);
  }

  lemma InputBodyTag(tag: byte, i: Input)
    requires InputBody(tag).ok(i)
    ensures i.Gen? <==> tag == 255
  {
    hide Both, Vec;
    IsoIs(Num(64), IntoGen, FromGen, i);
    IsoIs(Both(Iso(Num(64), IntoAmount, FromAmount), Both(Vec(Num(64), Some(MAX_SIZE)), PointCodec())),
          IntoToKey, FromToKey, i);
  }

  lemma InputExact()
    ensures Exact(InputCodec())
  {
    hide Exact, InputBody;
    SharedExact();
    GuardExact(Byte(), InputTag);
    forall tag
      ensures Exact(InputBody(tag))
    {
      InputBodyExact(tag);
    }
    forall tag, i | InputBody(tag).ok(i)
      ensures i.Gen? <==> tag == 255
    {
      InputBodyTag(tag, i);
    }
    ThenExact(Guard(Byte(), InputTag), InputBody);
    IsoExact(Then(Guard(Byte(), InputTag), InputBody), DropFirst, FromInput);
  }

  datatype Output = Output(amount: Option<nat>, key: Bytes32, viewTag: Option<byte>)

  predicate IsZero(amount: nat) {
    amount == 0
  }

  function NoAmount(amount: nat): Option<nat> {
    None
  }

  function SomeAmount(amount: nat): Option<nat> {
    Some(amount)
  }

  /** RingCT outputs have no amount, which is written as zero. */
  function OutputAmount(rct: bool): Codec<Option<nat>> {
    if rct then Iso(Guard(Num(64), IsZero), NoAmount, FromAmount) else Iso(Num(64), SomeAmount, FromAmount)
  }

  function SomeTag(tag: byte): Option<byte> {
    Some(tag)
  }

  function FromTag(tag: Option<byte>): byte {
    if tag.Some? then tag.value else 0
  }

  predicate OutputTag(tag: byte) {
    tag == 2 || tag == 3
  }

  function OutputBody(tag: byte): Codec<(Bytes32, Option<byte>)> {
    Both(PointCodec(), if tag == 3 then Iso(Byte(), SomeTag, FromTag) else Absent())
  }

  function IntoOutput(v: (Option<nat>, (byte, (Bytes32, Option<byte>)))): Output {
    Output(v.0, v.1.1.0, v.1.1.1)
  }

  function FromOutput(output: Output): (Option<nat>, (byte, (Bytes32, Option<byte>))) {
    (output.amount, (if output.viewTag.Some? then 3 else 2, (output.key, output.viewTag)))
  }

  function OutputCodec(rct: bool): Codec<Output> {
    Iso(Both(OutputAmount(rct), Then(Guard(Byte(), OutputTag), OutputBody)), IntoOutput, FromOutput)
  }

  lemma OutputBodyExact(tag: byte)
    ensures Exact(OutputBody(tag))
  {
    hide Exact;
    SharedExact();
    IsoExact(Byte(), SomeTag, FromTag);
    AbsentExact<byte>();
    BothExact(PointCodec(), if tag == 3 then Iso(Byte(), SomeTag, FromTag) else Absent());
  }

  lemma OutputBodyTag(tag: byte, v: (Bytes32, Option<byte>))
    requires OutputBody(tag).ok(v)
    ensures v.1.Some? <==> tag == 3
  {
    BothIs(PointCodec(), if tag == 3 then Iso(Byte(), SomeTag, FromTag) else Absent(), v);
    IsoIs(Byte(), SomeTag, FromTag, v.1);
  }

  lemma OutputExact(rct: bool)
    ensures Exact(OutputCodec(rct))
  {
    hide Exact, OutputBody;
    SharedExact();
    GuardExact(Num(64), IsZero);
    IsoExact(Guard(Num(64), IsZero), NoAmount, FromAmount);
    IsoExact(Num(64), SomeAmount, FromAmount);
    GuardExact(Byte(), OutputTag);
    forall tag
      ensures Exact(OutputBody(tag))
    {
      OutputBodyExact(tag);
    }
    forall tag, v | OutputBody(tag).ok(v)
      ensures v.1.Some? <==> tag == 3
    {
      OutputBodyTag(tag, v);
    }
    ThenExact(Guard(Byte(), OutputTag), OutputBody);
    BothExact(OutputAmount(rct), Then(Guard(Byte(), OutputTag), OutputBody));
    IsoExact(Both(OutputAmount(rct), Then(Guard(Byte(), OutputTag), OutputBody)), IntoOutput, FromOutput);
  }

  datatype TransactionPrefix =
    TransactionPrefix(additionalTimelock: Timelock, inputs: seq<Input>, outputs: seq<Output>, extra: seq<byte>)

  predicate NotEmpty(inputs: seq<Input>) {
    inputs != []
  }

  predicate IsMiner(inputs: seq<Input>) {
    inputs != [] && inputs[0].Gen?
  }

  function InputsCodec(): Codec<seq<Input>> {
    Guard(Vec(InputCodec(), Some(MAX_INPUTS)), NotEmpty)
  }

  /** The outputs and the extra, neither of them bounded for miner transactions. */
  function PrefixBody(version: nat, inputs: seq<Input>): Codec<(seq<Output>, seq<byte>)> {
    Both(Vec(OutputCodec(!IsMiner(inputs) && version == 2), if IsMiner(inputs) then None else Some(MAX_OUTPUTS)),
         Vec(Byte(), if IsMiner(inputs) then None else Some(MAX_SIZE)))
  }

  function IntoPrefix(v: (Timelock, (seq<Input>, (seq<Output>, seq<byte>)))): TransactionPrefix {
    TransactionPrefix(v.0, v.1.0, v.1.1.0, v.1.1.1)
  }

  function FromPrefix(p: TransactionPrefix): (Timelock, (seq<Input>, (seq<Output>, seq<byte>))) {
    (p.additionalTimelock, (p.inputs, (p.outputs, p.extra)))
  }

  function PrefixCodec(version: nat): Codec<TransactionPrefix> {
    Iso(Both(TimelockCodec(), Then(InputsCodec(), (inputs: seq<Input>) => PrefixBody(version, inputs))), IntoPrefix, FromPrefix)
  }

  lemma PrefixBodyExact(version: nat, inputs: seq<Input>)
    ensures Exact(PrefixBody(version, inputs))
  {
    hide Exact, OutputCodec;
    SharedExact();
    OutputExact(!IsMiner(inputs) && version == 2);
    VecExact(OutputCodec(!IsMiner(inputs) && version == 2), if IsMiner(inputs) then None else Some(MAX_OUTPUTS));
    VecExact(Byte(), if IsMiner(inputs) then None else Some(MAX_SIZE));
    BothExact(Vec(OutputCodec(!IsMiner(inputs) && version == 2), if IsMiner(inputs) then None else Some(MAX_OUTPUTS)),
              Vec(Byte(), if IsMiner(inputs) then None else Some(MAX_SIZE)));
  }

  lemma PrefixExact(version: nat)
    ensures Exact(PrefixCodec(version))
  {
    hide Exact, PrefixBody, InputCodec, TimelockCodec;
    TimelockExact();
    InputExact();
    VecExact(InputCodec(), Some(MAX_INPUTS));
    GuardExact(Vec(InputCodec(), Some(MAX_INPUTS)), NotEmpty);
    forall inputs
      ensures Exact(PrefixBody(version, inputs))
    {
      PrefixBodyExact(version, inputs);
    }
    ThenExact(InputsCodec(), (inputs: seq<Input>) => PrefixBody(version, inputs));
    BothExact(TimelockCodec(), Then(InputsCodec(), (inputs: seq<Input>) => PrefixBody(version, inputs)));
    IsoExact(Both(TimelockCodec(), Then(InputsCodec(), (inputs: seq<Input>) => PrefixBody(version, inputs))),
             IntoPrefix, FromPrefix);
  }

  // ---------------------------------------------------------------------------------------------
  // RingCT.

  datatype RctType =
    | AggregateMlsagBorromeanType
    | MlsagBorromeanType
    | MlsagBulletproofsType
    | MlsagBulletproofsCompactAmountType
    | ClsagBulletproofType
    | ClsagBulletproofPlusType
  {
    predicate CompactEncryptedAmounts() {
      MlsagBulletproofsCompactAmountType? || ClsagBulletproofType? || ClsagBulletproofPlusType?
    }

    predicate Borromean() {
      AggregateMlsagBorromeanType? || MlsagBorromeanType?
    }
  }

  predicate IsRctType(b: byte) {
    1 <= b <= 6
  }

  function IntoRctType(b: byte): RctType {
    if b == 1 then AggregateMlsagBorromeanType else if b == 2 then MlsagBorromeanType else if b == 3 then MlsagBulletproofsType
    else if b == 4 then MlsagBulletproofsCompactAmountType else if b == 5 then ClsagBulletproofType
    else ClsagBulletproofPlusType
  }

  function FromRctType(t: RctType): byte {
    match t
    case AggregateMlsagBorromeanType => 1
    case MlsagBorromeanType => 2
    case MlsagBulletproofsType => 3
    case MlsagBulletproofsCompactAmountType => 4
    case ClsagBulletproofType => 5
    case ClsagBulletproofPlusType => 6
  }

  /** The type's byte. Bulletproofs need an output. */
  function RctTypeCodec(outputs: nat): Codec<RctType> {
    Guard(Iso(Guard(Byte(), IsRctType), IntoRctType, FromRctType), (t: RctType) => t.Borromean() || outputs > 0)
  }

  lemma RctTypeExact(outputs: nat)
    ensures Exact(RctTypeCodec(outputs))
  {
    hide Exact;
    ByteExact();
    GuardExact(Byte(), IsRctType);
    IsoExact(Guard(Byte(), IsRctType), IntoRctType, FromRctType);
    GuardExact(Iso(Guard(Byte(), IsRctType), IntoRctType, FromRctType), (t: RctType) => t.Borromean() || outputs > 0);
  }

  datatype EncryptedAmount = OriginalAmount(mask: Bytes32, amount: Bytes32) | CompactAmount(bytes: seq<byte>)

  function IntoOriginal(v: (Bytes32, Bytes32)): EncryptedAmount {
    OriginalAmount(v.0, v.1)
  }

  function FromOriginal(a: EncryptedAmount): (Bytes32, Bytes32) {
    if a.OriginalAmount? then (a.mask, a.amount) else ([], [])
  }

  function IntoCompact(bytes: seq<byte>): EncryptedAmount {
    CompactAmount(bytes)
  }

  function FromCompact(a: EncryptedAmount): seq<byte> {
    if a.CompactAmount? then a.bytes else []
  }

  function EncryptedAmountCodec(compact: bool): Codec<EncryptedAmount> {
    if compact then Iso(Bytes(8), IntoCompact, FromCompact) else Iso(Both(Bytes(32), Bytes(32)), IntoOriginal, FromOriginal)
  }

  lemma EncryptedAmountExact(compact: bool)
    ensures Exact(EncryptedAmountCodec(compact))
  {
    hide Exact;
    BytesExact(8);
    BytesExact(32);
    IsoExact(Bytes(8), IntoCompact, FromCompact);
    BothExact(Bytes(32), Bytes(32));
    IsoExact(Both(Bytes(32), Bytes(32)), IntoOriginal, FromOriginal);
  }

  datatype RctBase = RctBase(fee: nat, pseudoOuts: seq<Bytes32>, encryptedAmounts: seq<EncryptedAmount>,
                             commitments: seq<Bytes32>)

  function IntoBase(v: (nat, (seq<Bytes32>, (seq<EncryptedAmount>, seq<Bytes32>)))): RctBase {
    RctBase(v.0, v.1.0, v.1.1.0, v.1.1.1)
  }

  function FromBase(b: RctBase): (nat, (seq<Bytes32>, (seq<EncryptedAmount>, seq<Bytes32>))) {
    (b.fee, (b.pseudoOuts, (b.encryptedAmounts, b.commitments)))
  }

  /** What is common to all types, after the type; only one of the types has the pseudo-outs here. */
  function BaseFields(t: RctType, inputs: nat, outputs: nat): Codec<(nat, (seq<Bytes32>, (seq<EncryptedAmount>, seq<Bytes32>)))> {
    Both(Num(64), Both(Many(PointCodec(), if t.MlsagBorromeanType? then inputs else 0),
                       Both(Many(EncryptedAmountCodec(t.CompactEncryptedAmounts()), outputs), Many(PointCodec(), outputs))))
  }

  function BaseCodec(t: RctType, inputs: nat, outputs: nat): Codec<RctBase> {
    Iso(BaseFields(t, inputs, outputs), IntoBase, FromBase)
  }

  lemma BaseExact(t: RctType, inputs: nat, outputs: nat)
    ensures Exact(BaseCodec(t, inputs, outputs))
  {
    hide Exact, EncryptedAmountCodec;
    SharedExact();
    EncryptedAmountExact(t.CompactEncryptedAmounts());
    ManyExact(PointCodec(), if t.MlsagBorromeanType? then inputs else 0);
    ManyExact(PointCodec(), outputs);
    ManyExact(EncryptedAmountCodec(t.CompactEncryptedAmounts()), outputs);
    BothExact(Many(EncryptedAmountCodec(t.CompactEncryptedAmounts()), outputs), Many(PointCodec(), outputs));
    BothExact(Many(PointCodec(), if t.MlsagBorromeanType? then inputs else 0),
              Both(Many(EncryptedAmountCodec(t.CompactEncryptedAmounts()), outputs), Many(PointCodec(), outputs)));
    BothExact(Num(64), Both(Many(PointCodec(), if t.MlsagBorromeanType? then inputs else 0),
                            Both(Many(EncryptedAmountCodec(t.CompactEncryptedAmounts()), outputs), Many(PointCodec(), outputs))));
    IsoExact(BaseFields(t, inputs, outputs), IntoBase, FromBase);
  }

  // ---------------------------------------------------------------------------------------------
  // Signatures and range proofs.

  datatype Bulletproof =
    | Original(A: Bytes32, S: Bytes32, T1: Bytes32, T2: Bytes32, tauX: Bytes32, mu: Bytes32, L: seq<Bytes32>, R: seq<Bytes32>,
               a: Bytes32, b: Bytes32, tHat: Bytes32)
    | Plus(A: Bytes32, wipA: Bytes32, wipB: Bytes32, rAnswer: Bytes32, sAnswer: Bytes32, deltaAnswer: Bytes32,
           L: seq<Bytes32>, R: seq<Bytes32>)

  type OriginalFields = (seq<Bytes32>, (seq<Bytes32>, (seq<Bytes32>, (seq<Bytes32>, seq<Bytes32>))))

  function OriginalFieldsCodec(): Codec<OriginalFields> {
    Both(Many(PointCodec(), 4), Both(Many(ScalarCodec(), 2), Both(Vec(PointCodec(), Some(MAX_LR)),
      Both(Vec(PointCodec(), Some(MAX_LR)), Many(ScalarCodec(), 3)))))
  }

  function IntoBulletproof(v: OriginalFields): Bulletproof {
    if |v.0| == 4 && |v.1.0| == 2 && |v.1.1.1.1| == 3 then
      Original(v.0[0], v.0[1], v.0[2], v.0[3], v.1.0[0], v.1.0[1], v.1.1.0, v.1.1.1.0,
               v.1.1.1.1[0], v.1.1.1.1[1], v.1.1.1.1[2])
    else Original([], [], [], [], [], [], [], [], [], [], [])
  }

  function FromBulletproof(bp: Bulletproof): OriginalFields {
    if bp.Original? then ([bp.A, bp.S, bp.T1, bp.T2], ([bp.tauX, bp.mu], (bp.L, (bp.R, [bp.a, bp.b, bp.tHat]))))
    else ([], ([], ([], ([], []))))
  }

  type PlusFields = (seq<Bytes32>, (seq<Bytes32>, (seq<Bytes32>, seq<Bytes32>)))

  function PlusFieldsCodec(): Codec<PlusFields> {
    Both(Many(PointCodec(), 3), Both(Many(ScalarCodec(), 3), Both(Vec(PointCodec(), Some(MAX_LR)),
      Vec(PointCodec(), Some(MAX_LR)))))
  }

  function IntoBulletproofPlus(v: PlusFields): Bulletproof {
    if |v.0| == 3 && |v.1.0| == 3 then
      Plus(v.0[0], v.0[1], v.0[2], v.1.0[0], v.1.0[1], v.1.0[2], v.1.1.0, v.1.1.1)
    else Plus([], [], [], [], [], [], [], [])
  }

  function FromBulletproofPlus(bp: Bulletproof): PlusFields {
    if bp.Plus? then ([bp.A, bp.wipA, bp.wipB], ([bp.rAnswer, bp.sAnswer, bp.deltaAnswer], (bp.L, bp.R)))
    else ([], ([], ([], [])))
  }

  function BulletproofCodec(plus: bool): Codec<Bulletproof> {
    if plus then Iso(PlusFieldsCodec(), IntoBulletproofPlus, FromBulletproofPlus)
    else Iso(OriginalFieldsCodec(), IntoBulletproof, FromBulletproof)
  }

  lemma OriginalFieldsExact()
    ensures Exact(OriginalFieldsCodec())
    ensures forall v :: OriginalFieldsCodec().ok(v) ==> |v.0| == 4 && |v.1.0| == 2 && |v.1.1.1.1| == 3
  {
    hide Exact, Vec;
    SharedExact();
    ManyExact(PointCodec(), 4);
    ManyExact(ScalarCodec(), 2);
    ManyExact(ScalarCodec(), 3);
    VecExact(PointCodec(), Some(MAX_LR));
    BothExact(Vec(PointCodec(), Some(MAX_LR)), Many(ScalarCodec(), 3));
    BothExact(Vec(PointCodec(), Some(MAX_LR)), Both(Vec(PointCodec(), Some(MAX_LR)), Many(ScalarCodec(), 3)));
    BothExact(Many(ScalarCodec(), 2), Both(Vec(PointCodec(), Some(MAX_LR)),
                                           Both(Vec(PointCodec(), Some(MAX_LR)), Many(ScalarCodec(), 3))));
    BothExact(Many(PointCodec(), 4), Both(Many(ScalarCodec(), 2), Both(Vec(PointCodec(), Some(MAX_LR)),
                                     Both(Vec(PointCodec(), Some(MAX_LR)), Many(ScalarCodec(), 3)))));
  }

  lemma PlusFieldsExact()
    ensures Exact(PlusFieldsCodec())
    ensures forall v :: PlusFieldsCodec().ok(v) ==> |v.0| == 3 && |v.1.0| == 3
  {
    hide Exact, Vec;
    SharedExact();
    ManyExact(PointCodec(), 3);
    ManyExact(ScalarCodec(), 3);
    VecExact(PointCodec(), Some(MAX_LR));
    BothExact(Vec(PointCodec(), Some(MAX_LR)), Vec(PointCodec(), Some(MAX_LR)));
    BothExact(Many(ScalarCodec(), 3), Both(Vec(PointCodec(), Some(MAX_LR)), Vec(PointCodec(), Some(MAX_LR))));
    BothExact(Many(PointCodec(), 3), Both(Many(ScalarCodec(), 3),
                                          Both(Vec(PointCodec(), Some(MAX_LR)), Vec(PointCodec(), Some(MAX_LR)))));
  }

  lemma BulletproofExact(plus: bool)
    ensures Exact(BulletproofCodec(plus))
  {
    hide Exact, OriginalFieldsCodec, PlusFieldsCodec;
    OriginalFieldsExact();
    PlusFieldsExact();
    forall v | OriginalFieldsCodec().ok(v)
      ensures FromBulletproof(IntoBulletproof(v)) == v
    {
      assert [v.0[0], v.0[1], v.0[2], v.0[3]] == v.0 && [v.1.0[0], v.1.0[1]] == v.1.0;
      assert [v.1.1.1.1[0], v.1.1.1.1[1], v.1.1.1.1[2]] == v.1.1.1.1;
    }
    forall v | PlusFieldsCodec().ok(v)
      ensures FromBulletproofPlus(IntoBulletproofPlus(v)) == v
    {
      assert [v.0[0], v.0[1], v.0[2]] == v.0 && [v.1.0[0], v.1.0[1], v.1.0[2]] == v.1.0;
    }
    IsoExact(PlusFieldsCodec(), IntoBulletproofPlus, FromBulletproofPlus);
    IsoExact(OriginalFieldsCodec(), IntoBulletproof, FromBulletproof);
  }

  lemma BulletproofKind(plus: bool, bp: Bulletproof)
    requires BulletproofCodec(plus).ok(bp)
    ensures bp.Plus? <==> plus
  {
    hide OriginalFieldsCodec, PlusFieldsCodec;
    IsoIs(PlusFieldsCodec(), IntoBulletproofPlus, FromBulletproofPlus, bp);
    IsoIs(OriginalFieldsCodec(), IntoBulletproof, FromBulletproof, bp);
  }

  datatype Mlsag = Mlsag(ss: seq<seq<Bytes32>>, cc: Bytes32)

  function IntoMlsag(v: (seq<seq<Bytes32>>, Bytes32)): Mlsag {
    Mlsag(v.0, v.1)
  }

  function FromMlsag(m: Mlsag): (seq<seq<Bytes32>>, Bytes32) {
    (m.ss, m.cc)
  }

  function MlsagCodec(decoys: nat, ss2Elements: nat): Codec<Mlsag> {
    Iso(Both(Many(Many(ScalarCodec(), ss2Elements), decoys), ScalarCodec()), IntoMlsag, FromMlsag)
  }

  lemma MlsagExact(decoys: nat, ss2Elements: nat)
    ensures Exact(MlsagCodec(decoys, ss2Elements))
  {
    hide Exact;
    SharedExact();
    ManyExact(ScalarCodec(), ss2Elements);
    ManyExact(Many(ScalarCodec(), ss2Elements), decoys);
    BothExact(Many(Many(ScalarCodec(), ss2Elements), decoys), ScalarCodec());
    IsoExact(Both(Many(Many(ScalarCodec(), ss2Elements), decoys), ScalarCodec()), IntoMlsag, FromMlsag);
  }

  // The scalars of Borromean ring signatures need not be reduced.
  datatype BorromeanRange = BorromeanRange(s0: seq<Bytes32>, s1: seq<Bytes32>, ee: Bytes32, bitCommitments: seq<Bytes32>)

  function IntoBorromean(v: (seq<Bytes32>, (seq<Bytes32>, (Bytes32, seq<Bytes32>)))): BorromeanRange {
    BorromeanRange(v.0, v.1.0, v.1.1.0, v.1.1.1)
  }

  function FromBorromean(b: BorromeanRange): (seq<Bytes32>, (seq<Bytes32>, (Bytes32, seq<Bytes32>))) {
    (b.s0, (b.s1, (b.ee, b.bitCommitments)))
  }

  function BorromeanCodec(): Codec<BorromeanRange> {
    Iso(Both(Many(Bytes(32), 64), Both(Many(Bytes(32), 64), Both(ScalarCodec(), Many(PointCodec(), 64)))),
        IntoBorromean, FromBorromean)
  }

  lemma BorromeanExact()
    ensures Exact(BorromeanCodec())
  {
    hide Exact;
    SharedExact();
    BytesExact(32);
    ManyExact(Bytes(32), 64);
    ManyExact(PointCodec(), 64);
    BothExact(ScalarCodec(), Many(PointCodec(), 64));
    BothExact(Many(Bytes(32), 64), Both(ScalarCodec(), Many(PointCodec(), 64)));
    BothExact(Many(Bytes(32), 64), Both(Many(Bytes(32), 64), Both(ScalarCodec(), Many(PointCodec(), 64))));
    IsoExact(Both(Many(Bytes(32), 64), Both(Many(Bytes(32), 64), Both(ScalarCodec(), Many(PointCodec(), 64)))),
             IntoBorromean, FromBorromean);
  }

  datatype Clsag = Clsag(s: seq<Bytes32>, c1: Bytes32, D: Bytes32)

  function IntoClsag(v: (seq<Bytes32>, (Bytes32, Bytes32))): Clsag {
    Clsag(v.0, v.1.0, v.1.1)
  }

  function FromClsag(c: Clsag): (seq<Bytes32>, (Bytes32, Bytes32)) {
    (c.s, (c.c1, c.D))
  }

  function ClsagCodec(decoys: nat): Codec<Clsag> {
    Iso(Both(Many(ScalarCodec(), decoys), Both(ScalarCodec(), PointCodec())), IntoClsag, FromClsag)
  }

  lemma ClsagExact(decoys: nat)
    ensures Exact(ClsagCodec(decoys))
  {
    hide Exact;
    SharedExact();
    ManyExact(ScalarCodec(), decoys);
    BothExact(ScalarCodec(), PointCodec());
    BothExact(Many(ScalarCodec(), decoys), Both(ScalarCodec(), PointCodec()));
    IsoExact(Both(Many(ScalarCodec(), decoys), Both(ScalarCodec(), PointCodec())), IntoClsag, FromClsag);
  }

  // ---------------------------------------------------------------------------------------------
  // The prunable part, by type.

  datatype RctPrunable =
    | AggregateMlsagBorromean(borromean: seq<BorromeanRange>, mlsag: Mlsag)
    | MlsagBorromean(borromean: seq<BorromeanRange>, mlsags: seq<Mlsag>)
    | MlsagBulletproofs(bulletproof: Bulletproof, mlsags: seq<Mlsag>, pseudoOuts: seq<Bytes32>)
    | MlsagBulletproofsCompactAmount(bulletproof: Bulletproof, mlsags: seq<Mlsag>, pseudoOuts: seq<Bytes32>)
    | ClsagProofs(bulletproof: Bulletproof, clsags: seq<Clsag>, pseudoOuts: seq<Bytes32>)

  /** `RctProofs::rct_type` */
  function TypeOf(p: RctPrunable): RctType {
    match p
    case AggregateMlsagBorromean(_, _) => AggregateMlsagBorromeanType
    case MlsagBorromean(_, _) => MlsagBorromeanType
    case MlsagBulletproofs(_, _, _) => MlsagBulletproofsType
    case MlsagBulletproofsCompactAmount(_, _, _) => MlsagBulletproofsCompactAmountType
    case ClsagProofs(bp, _, _) => if bp.Original? then ClsagBulletproofType else ClsagBulletproofPlusType
  }

  function IntoAggregate(v: (seq<BorromeanRange>, Mlsag)): RctPrunable {
    AggregateMlsagBorromean(v.0, v.1)
  }

  function FromAggregate(p: RctPrunable): (seq<BorromeanRange>, Mlsag) {
    if p.AggregateMlsagBorromean? then (p.borromean, p.mlsag) else ([], Mlsag([], []))
  }

  function IntoMlsagBorromean(v: (seq<BorromeanRange>, seq<Mlsag>)): RctPrunable {
    MlsagBorromean(v.0, v.1)
  }

  function FromMlsagBorromean(p: RctPrunable): (seq<BorromeanRange>, seq<Mlsag>) {
    if p.MlsagBorromean? then (p.borromean, p.mlsags) else ([], [])
  }

  type MlsagFields = (Bulletproof, (seq<Mlsag>, seq<Bytes32>))

  function NoBulletproof(): Bulletproof {
    Plus([], [], [], [], [], [], [], [])
  }

  function IntoMlsagBulletproofs(v: MlsagFields): RctPrunable {
    MlsagBulletproofs(v.0, v.1.0, v.1.1)
  }

  function FromMlsagBulletproofs(p: RctPrunable): MlsagFields {
    if p.MlsagBulletproofs? then (p.bulletproof, (p.mlsags, p.pseudoOuts)) else (NoBulletproof(), ([], []))
  }

  function IntoMlsagCompact(v: MlsagFields): RctPrunable {
    MlsagBulletproofsCompactAmount(v.0, v.1.0, v.1.1)
  }

  function FromMlsagCompact(p: RctPrunable): MlsagFields {
    if p.MlsagBulletproofsCompactAmount? then (p.bulletproof, (p.mlsags, p.pseudoOuts)) else (NoBulletproof(), ([], []))
  }

  type ClsagFields = (Bulletproof, (seq<Clsag>, seq<Bytes32>))

  function IntoClsagProofs(v: ClsagFields): RctPrunable {
    ClsagProofs(v.0, v.1.0, v.1.1)
  }

  function FromClsagProofs(p: RctPrunable): ClsagFields {
    if p.ClsagProofs? then (p.bulletproof, (p.clsags, p.pseudoOuts)) else (NoBulletproof(), ([], []))
  }

  function MlsagFieldsCodec(ring: nat, inputs: nat): Codec<MlsagFields> {
    Both(BulletproofCodec(false), Both(Many(MlsagCodec(ring, 2), inputs), Many(PointCodec(), inputs)))
  }

  function ClsagFieldsCodec(plus: bool, ring: nat, inputs: nat): Codec<ClsagFields> {
    Both(BulletproofCodec(plus), Both(Many(ClsagCodec(ring), inputs), Many(PointCodec(), inputs)))
  }

  /** The number of Bulletproofs, which must be one, is encoded in three ways. */
  function PrunableCodec(t: RctType, ring: nat, inputs: nat, outputs: nat): Codec<RctPrunable> {
    match t
    case AggregateMlsagBorromeanType =>
      Iso(Both(Many(BorromeanCodec(), outputs), MlsagCodec(ring, inputs + 1)), IntoAggregate, FromAggregate)
    case MlsagBorromeanType =>
      Iso(Both(Many(BorromeanCodec(), outputs), Many(MlsagCodec(ring, 2), inputs)), IntoMlsagBorromean, FromMlsagBorromean)
    case MlsagBulletproofsType =>
      Iso(After(Bytes(4), [1, 0, 0, 0], MlsagFieldsCodec(ring, inputs)), IntoMlsagBulletproofs, FromMlsagBulletproofs)
    case MlsagBulletproofsCompactAmountType =>
      Iso(After(Num(64), 1, MlsagFieldsCodec(ring, inputs)), IntoMlsagCompact, FromMlsagCompact)
    case ClsagBulletproofType =>
      Iso(After(Byte(), 1, ClsagFieldsCodec(false, ring, inputs)), IntoClsagProofs, FromClsagProofs)
    case ClsagBulletproofPlusType =>
      Iso(After(Byte(), 1, ClsagFieldsCodec(true, ring, inputs)), IntoClsagProofs, FromClsagProofs)
  }

  lemma FieldsExact(plus: bool, ring: nat, inputs: nat)
    ensures Exact(MlsagFieldsCodec(ring, inputs)) && Exact(ClsagFieldsCodec(plus, ring, inputs))
  {
    hide Exact, BulletproofCodec, MlsagCodec, ClsagCodec;
    SharedExact();
    BulletproofExact(false);
    BulletproofExact(plus);
    MlsagExact(ring, 2);
    ClsagExact(ring);
    ManyExact(MlsagCodec(ring, 2), inputs);
    ManyExact(ClsagCodec(ring), inputs);
    ManyExact(PointCodec(), inputs);
    BothExact(Many(MlsagCodec(ring, 2), inputs), Many(PointCodec(), inputs));
    BothExact(Many(ClsagCodec(ring), inputs), Many(PointCodec(), inputs));
    BothExact(BulletproofCodec(false), Both(Many(MlsagCodec(ring, 2), inputs), Many(PointCodec(), inputs)));
    BothExact(BulletproofCodec(plus), Both(Many(ClsagCodec(ring), inputs), Many(PointCodec(), inputs)));
  }

  lemma PrunableExact(t: RctType, ring: nat, inputs: nat, outputs: nat)
    ensures Exact(PrunableCodec(t, ring, inputs, outputs))
  {
    hide Exact, BorromeanCodec, MlsagCodec, MlsagFieldsCodec, ClsagFieldsCodec, After;
    match t {
      case AggregateMlsagBorromeanType =>
        BorromeanExact();
        ManyExact(BorromeanCodec(), outputs);
        MlsagExact(ring, inputs + 1);
        BothExact(Many(BorromeanCodec(), outputs), MlsagCodec(ring, inputs + 1));
        IsoExact(Both(Many(BorromeanCodec(), outputs), MlsagCodec(ring, inputs + 1)), IntoAggregate, FromAggregate);
      case MlsagBorromeanType =>
        BorromeanExact();
        ManyExact(BorromeanCodec(), outputs);
        MlsagExact(ring, 2);
        ManyExact(MlsagCodec(ring, 2), inputs);
        BothExact(Many(BorromeanCodec(), outputs), Many(MlsagCodec(ring, 2), inputs));
        IsoExact(Both(Many(BorromeanCodec(), outputs), Many(MlsagCodec(ring, 2), inputs)), IntoMlsagBorromean, FromMlsagBorromean);
      case MlsagBulletproofsType =>
        FieldsExact(false, ring, inputs);
        BytesExact(4);
        AfterExact(Bytes(4), [1, 0, 0, 0], MlsagFieldsCodec(ring, inputs));
        IsoExact(After(Bytes(4), [1, 0, 0, 0], MlsagFieldsCodec(ring, inputs)), IntoMlsagBulletproofs, FromMlsagBulletproofs);
      case MlsagBulletproofsCompactAmountType =>
        FieldsExact(false, ring, inputs);
        NumExact(64);
        AfterExact(Num(64), 1, MlsagFieldsCodec(ring, inputs));
        IsoExact(After(Num(64), 1, MlsagFieldsCodec(ring, inputs)), IntoMlsagCompact, FromMlsagCompact);
      case ClsagBulletproofType =>
        FieldsExact(false, ring, inputs);
        ByteExact();
        AfterExact(Byte(), 1, ClsagFieldsCodec(false, ring, inputs));
        IsoExact(After(Byte(), 1, ClsagFieldsCodec(false, ring, inputs)), IntoClsagProofs, FromClsagProofs);
      case ClsagBulletproofPlusType =>
        FieldsExact(true, ring, inputs);
        ByteExact();
        AfterExact(Byte(), 1, ClsagFieldsCodec(true, ring, inputs));
        IsoExact(After(Byte(), 1, ClsagFieldsCodec(true, ring, inputs)), IntoClsagProofs, FromClsagProofs);
    }
  }

  // The type can be told from what was read.
  lemma PrunableType(t: RctType, ring: nat, inputs: nat, outputs: nat, p: RctPrunable)
    requires PrunableCodec(t, ring, inputs, outputs).ok(p)
    ensures TypeOf(p) == t
  {
    hide BorromeanCodec, MlsagCodec, MlsagFieldsCodec, ClsagFieldsCodec, Both, Many, After;
    match t {
      case AggregateMlsagBorromeanType =>
        IsoIs(Both(Many(BorromeanCodec(), outputs), MlsagCodec(ring, inputs + 1)), IntoAggregate, FromAggregate, p);
      case MlsagBorromeanType =>
        IsoIs(Both(Many(BorromeanCodec(), outputs), Many(MlsagCodec(ring, 2), inputs)), IntoMlsagBorromean, FromMlsagBorromean, p);
      case MlsagBulletproofsType =>
        IsoIs(After(Bytes(4), [1, 0, 0, 0], MlsagFieldsCodec(ring, inputs)), IntoMlsagBulletproofs, FromMlsagBulletproofs, p);
      case MlsagBulletproofsCompactAmountType =>
        IsoIs(After(Num(64), 1, MlsagFieldsCodec(ring, inputs)), IntoMlsagCompact, FromMlsagCompact, p);
      case ClsagBulletproofType => ClsagKind(false, ring, inputs, p);
      case ClsagBulletproofPlusType => ClsagKind(true, ring, inputs, p);
    }
  }

  lemma ClsagKind(plus: bool, ring: nat, inputs: nat, p: RctPrunable)
    requires Iso(After(Byte(), 1, ClsagFieldsCodec(plus, ring, inputs)), IntoClsagProofs, FromClsagProofs).ok(p)
    ensures p.ClsagProofs? && (p.bulletproof.Plus? <==> plus)
  {
    hide BulletproofCodec, ClsagCodec, Many;
    IsoIs(After(Byte(), 1, ClsagFieldsCodec(plus, ring, inputs)), IntoClsagProofs, FromClsagProofs, p);
    AfterIs(Byte(), 1, ClsagFieldsCodec(plus, ring, inputs), FromClsagProofs(p));
    BothIs(BulletproofCodec(plus), Both(Many(ClsagCodec(ring), inputs), Many(PointCodec(), inputs)), FromClsagProofs(p));
    BulletproofKind(plus, p.bulletproof);
  }

  lemma AfterIs<S(!new), T(!new)>(c: Codec<S>, s: S, next: Codec<T>, t: T)
    ensures After(c, s, next).write(t) == c.write(s) + next.write(t)
    ensures After(c, s, next).ok(t) <==> c.ok(s) && next.ok(t)
  {
    IsoIs(Both(Guard(c, (x: S) => x == s), next), DropFirst, (t: T) => (s, t), t);
    BothIs(Guard(c, (x: S) => x == s), next, (s, t));
    GuardIs(c, (x: S) => x == s, s);
  }

  // ---------------------------------------------------------------------------------------------
  // Transactions.

  datatype RctProofs = RctProofs(base: RctBase, prunable: RctPrunable)

  function TypedProofsCodec(ring: nat, inputs: nat, outputs: nat, t: RctType): Codec<(RctBase, RctPrunable)> {
    Both(BaseCodec(t, inputs, outputs), PrunableCodec(t, ring, inputs, outputs))
  }

  function IntoProofs(v: (RctType, (RctBase, RctPrunable))): RctProofs {
    RctProofs(v.1.0, v.1.1)
  }

  // The type is not kept.
  function FromProofs(p: RctProofs): (RctType, (RctBase, RctPrunable)) {
    (TypeOf(p.prunable), (p.base, p.prunable))
  }

  function ProofsCodec(ring: nat, inputs: nat, outputs: nat): Codec<RctProofs> {
    Iso(Then(RctTypeCodec(outputs), (t: RctType) => TypedProofsCodec(ring, inputs, outputs, t)), IntoProofs, FromProofs)
  }

  lemma TypedProofsExact(ring: nat, inputs: nat, outputs: nat, t: RctType)
    ensures Exact(TypedProofsCodec(ring, inputs, outputs, t))
  {
    hide Exact, BaseCodec, PrunableCodec;
    BaseExact(t, inputs, outputs);
    PrunableExact(t, ring, inputs, outputs);
    BothExact(BaseCodec(t, inputs, outputs), PrunableCodec(t, ring, inputs, outputs));
  }

  lemma ProofsExact(ring: nat, inputs: nat, outputs: nat)
    ensures Exact(ProofsCodec(ring, inputs, outputs))
  {
    hide Exact, TypedProofsCodec, RctTypeCodec, TypeOf;
    RctTypeExact(outputs);
    forall t
      ensures Exact(TypedProofsCodec(ring, inputs, outputs, t))
    {
      TypedProofsExact(ring, inputs, outputs, t);
    }
    var c := Then(RctTypeCodec(outputs), (t: RctType) => TypedProofsCodec(ring, inputs, outputs, t));
    ThenExact(RctTypeCodec(outputs), (t: RctType) => TypedProofsCodec(ring, inputs, outputs, t));
    forall v | c.ok(v)
      ensures FromProofs(IntoProofs(v)) == v
    {
      ThenIs(RctTypeCodec(outputs), (t: RctType) => TypedProofsCodec(ring, inputs, outputs, t), v);
      TypedProofsType(ring, inputs, outputs, v.0, v.1);
    }
    IsoExact(c, IntoProofs, FromProofs);
  }

  lemma TypedProofsType(ring: nat, inputs: nat, outputs: nat, t: RctType, v: (RctBase, RctPrunable))
    requires TypedProofsCodec(ring, inputs, outputs, t).ok(v)
    ensures TypeOf(v.1) == t
  {
    hide BaseCodec, PrunableCodec;
    BothIs(BaseCodec(t, inputs, outputs), PrunableCodec(t, ring, inputs, outputs), v);
    PrunableType(t, ring, inputs, outputs, v.1);
  }

  // What is written for some proofs starts with the type, which is not zero.
  lemma ProofsStart(ring: nat, inputs: nat, outputs: nat, p: RctProofs)
    ensures var data := ProofsCodec(ring, inputs, outputs).write(p);
            data != [] && data[0] == FromRctType(TypeOf(p.prunable)) != 0
    ensures ProofsCodec(ring, inputs, outputs).write(p) ==
            [FromRctType(TypeOf(p.prunable))] + BaseCodec(TypeOf(p.prunable), inputs, outputs).write(p.base)
            + PrunableCodec(TypeOf(p.prunable), ring, inputs, outputs).write(p.prunable)
  {
    hide BaseCodec, PrunableCodec, TypeOf;
    var t := TypeOf(p.prunable);
    IsoIs(Then(RctTypeCodec(outputs), (t: RctType) => TypedProofsCodec(ring, inputs, outputs, t)), IntoProofs, FromProofs, p);
    ThenIs(RctTypeCodec(outputs), (t: RctType) => TypedProofsCodec(ring, inputs, outputs, t), FromProofs(p));
    BothIs(BaseCodec(t, inputs, outputs), PrunableCodec(t, ring, inputs, outputs), (p.base, p.prunable));
    RctTypeIs(outputs, t);
  }

  lemma RctTypeIs(outputs: nat, t: RctType)
    ensures RctTypeCodec(outputs).write(t) == [FromRctType(t)]
  {
  }

  /** A ring signature of a version 1 transaction. */
  type RingSignature = seq<(Bytes32, Bytes32)>

  function RingSignatureCodec(members: nat): Codec<RingSignature> {
    Many(Both(ScalarCodec(), ScalarCodec()), members)
  }

  lemma RingSignatureExact(members: nat)
    ensures Exact(RingSignatureCodec(members))
  {
    hide Exact;
    SharedExact();
    BothExact(ScalarCodec(), ScalarCodec());
    ManyExact(Both(ScalarCodec(), ScalarCodec()), members);
  }

  function IntoList(v: (RingSignature, seq<RingSignature>)): seq<RingSignature> {
    [v.0] + v.1
  }

  function FromList(s: seq<RingSignature>): (RingSignature, seq<RingSignature>) {
    if s == [] then ([], []) else (s[0], s[1..])
  }

  /** A signature for each input, none of which may generate coins. */
  function SignaturesCodec(inputs: seq<Input>): Codec<seq<RingSignature>> {
    if inputs == [] then Empty()
    else if inputs[0].Gen? then Fail()
    else Iso(Both(RingSignatureCodec(|inputs[0].keyOffsets|), SignaturesCodec(inputs[1..])), IntoList, FromList)
  }

  lemma {:induction false} SignaturesExact(inputs: seq<Input>)
    ensures Exact(SignaturesCodec(inputs))
  {
    hide Exact, RingSignatureCodec;
    if inputs == [] {
      EmptyExact<RingSignature>();
    } else if inputs[0].Gen? {
      FailExact<seq<RingSignature>>();
    } else {
      SignaturesExact(inputs[1..]);
      RingSignatureExact(|inputs[0].keyOffsets|);
      BothExact(RingSignatureCodec(|inputs[0].keyOffsets|), SignaturesCodec(inputs[1..]));
      IsoExact(Both(RingSignatureCodec(|inputs[0].keyOffsets|), SignaturesCodec(inputs[1..])), IntoList, FromList);
    }
  }

  /** What follows the prefix. */
  datatype Body = Signatures(signatures: seq<RingSignature>) | Proofs(proofs: Option<RctProofs>)

  function IntoSignatures(s: seq<RingSignature>): Body {
    Signatures(s)
  }

  function FromSignatures(b: Body): seq<RingSignature> {
    if b.Signatures? then b.signatures else []
  }

  function IntoBodyProofs(p: Option<RctProofs>): Body {
    Proofs(p)
  }

  function FromBodyProofs(b: Body): Option<RctProofs> {
    if b.Proofs? then b.proofs else None
  }

  /** The ring length is taken from the first input. */
  function RingLength(inputs: seq<Input>): nat {
    if inputs == [] || inputs[0].Gen? then 0 else |inputs[0].keyOffsets|
  }

  function BodyCodec(version: nat, p: TransactionPrefix): Codec<Body> {
    if version == 1 then
      if |p.inputs| == 1 && p.inputs[0].Gen? then Iso(Empty(), IntoSignatures, FromSignatures)
      else Iso(SignaturesCodec(p.inputs), IntoSignatures, FromSignatures)
    else if version == 2 then
      Iso(Optional(ProofsCodec(RingLength(p.inputs), |p.inputs|, |p.outputs|)), IntoBodyProofs, FromBodyProofs)
    else Fail()
  }

  lemma BodyExact(version: nat, p: TransactionPrefix)
    ensures Exact(BodyCodec(version, p))
  {
    hide Exact, ProofsCodec, SignaturesCodec;
    EmptyExact<RingSignature>();
    IsoExact(Empty(), IntoSignatures, FromSignatures);
    SignaturesExact(p.inputs);
    IsoExact(SignaturesCodec(p.inputs), IntoSignatures, FromSignatures);
    FailExact<Body>();
    var c := ProofsCodec(RingLength(p.inputs), |p.inputs|, |p.outputs|);
    ProofsExact(RingLength(p.inputs), |p.inputs|, |p.outputs|);
    forall proofs
      ensures c.write(proofs) != [] && c.write(proofs)[0] != 0
    {
      ProofsStart(RingLength(p.inputs), |p.inputs|, |p.outputs|, proofs);
    }
    OptionalExact(c);
    IsoExact(Optional(c), IntoBodyProofs, FromBodyProofs);
  }

  lemma BodyVersion(version: nat, p: TransactionPrefix, b: Body)
    requires BodyCodec(version, p).ok(b)
    ensures version == if b.Signatures? then 1 else 2
  {
    hide ProofsCodec, SignaturesCodec, Optional;
    IsoIs(Empty(), IntoSignatures, FromSignatures, b);
    IsoIs(SignaturesCodec(p.inputs), IntoSignatures, FromSignatures, b);
    IsoIs(Optional(ProofsCodec(RingLength(p.inputs), |p.inputs|, |p.outputs|)), IntoBodyProofs, FromBodyProofs, b);
  }

  /** A transaction; its version shows in its body. */
  datatype Transaction = Transaction(prefix: TransactionPrefix, body: Body) {
    function Version(): nat {
      if body.Signatures? then 1 else 2
    }
  }

  function IntoTransaction(v: (nat, (TransactionPrefix, Body))): Transaction {
    Transaction(v.1.0, v.1.1)
  }

  function FromTransaction(tx: Transaction): (nat, (TransactionPrefix, Body)) {
    (tx.Version(), (tx.prefix, tx.body))
  }

  function VersionedCodec(version: nat): Codec<(TransactionPrefix, Body)> {
    Then(PrefixCodec(version), (p: TransactionPrefix) => BodyCodec(version, p))
  }

  function TransactionCodec(): Codec<Transaction> {
    Iso(Then(Num(64), VersionedCodec), IntoTransaction, FromTransaction)
  }

  lemma VersionedExact(version: nat)
    ensures Exact(VersionedCodec(version))
  {
    hide Exact, PrefixCodec, BodyCodec;
    PrefixExact(version);
    forall p
      ensures Exact(BodyCodec(version, p))
    {
      BodyExact(version, p);
    }
    ThenExact(PrefixCodec(version), (p: TransactionPrefix) => BodyCodec(version, p));
  }

  // Whatever reads as a transaction is the transaction's only serialization, and whatever can be read
  // back is read back: for both versions, every RingCT type, and miner transactions.
  lemma TransactionExact()
    ensures Exact(TransactionCodec())
  {
    hide Exact, VersionedCodec;
    NumExact(64);
    forall version: nat
      ensures Exact(VersionedCodec(version))
    {
      VersionedExact(version);
    }
    var c := Then(Num(64), VersionedCodec);
    ThenExact(Num(64), VersionedCodec);
    forall v | c.ok(v)
      ensures FromTransaction(IntoTransaction(v)) == v
    {
      ThenIs(Num(64), VersionedCodec, v);
      VersionedVersion(v.0, v.1);
    }
    IsoExact(c, IntoTransaction, FromTransaction);
  }

  lemma VersionedVersion(version: nat, v: (TransactionPrefix, Body))
    requires VersionedCodec(version).ok(v)
    ensures version == if v.1.Signatures? then 1 else 2
  {
    hide PrefixCodec, BodyCodec;
    ThenIs(PrefixCodec(version), (p: TransactionPrefix) => BodyCodec(version, p), v);
    BodyVersion(version, v.0, v.1);
  }
}
