/**
interface/src/provides_fee_rates.rs, Bulletproof::calculate_clawback, and the fee's fixed point in
wallet/src/send/tx.rs.
 */
module Fee {
  import opened Wrappers
  import opened Arithmetic
  import opened PowersOfTwo
  import opened Vectors
  import opened Codec
  import opened Transactions
  import opened TransactionIo
  import opened TransactionSizes
  import opened RangeAlgebra
  import VarInt

  // ---------------------------------------------------------------------------------------------
  // The clawback of a Bulletproof(+).

  function Capped(outputs: nat): nat {
    if outputs < 16 then outputs else 16
  }

  /** The length of each of a proof's two lists of points. */
  function LrLen(outputs: nat): (n: nat)
    ensures 6 <= n <= 10
  {
    AtMostFour(Capped(outputs));
    PaddedLog(Capped(outputs), 0) + 6
  }

  lemma AtMostFour(n: nat)
    requires n <= 16
    ensures PaddedLog(n, 0) <= 4
  {
    SmallPowers();
    if PaddedLog(n, 0) > 4 {
      Pow2Monotone(4, PaddedLog(n, 0) - 1);
    }
  }

  /** Four fifths of what the proofs of this many outputs would take without aggregation, above what they take. */
  function Clawback(plus: bool, outputs: nat): (weight: nat) {
    var padded := Pow2(PaddedLog(Capped(outputs), 0));
    var fields := if plus then 6 else 9;
    var spread := (fields + 14) * 16 * padded;
    var size := (fields + 2 * LrLen(outputs)) * 32;
    if padded > 2 && size <= spread then (spread - size) * 4 / 5 else 0
  }

  method CalculateClawback(plus: bool, outputs: nat) returns (clawback: nat, lrLen: nat)
    ensures clawback == Clawback(plus, outputs) && lrLen == LrLen(outputs)
  {
    SmallPowers();
    AtMostFour(Capped(outputs));
    lrLen := 0;
    var paddedOutputs := 1;
    while paddedOutputs < Capped(outputs)
      invariant lrLen <= 4 && paddedOutputs == Pow2(lrLen)
      invariant PaddedLog(Capped(outputs), 0) == PaddedLog(Capped(outputs), lrLen)
      decreases 4 - lrLen
    {
      lrLen := lrLen + 1;
      paddedOutputs := Pow2(lrLen);
    }
    lrLen := lrLen + 6;
    clawback := 0;
    if paddedOutputs > 2 {
      var fields := if plus then 6 else 9;
      var base := ((fields + 2 * (6 + 1)) * 32) / 2;
      var size := (fields + 2 * lrLen) * 32;
      ClawbackFits(fields, lrLen - 6, paddedOutputs);
      clawback := (base * paddedOutputs - size) * 4 / 5;
    }
  }

  // The proofs of three outputs or more are smaller than what is charged for them.
  lemma ClawbackFits(fields: nat, log: nat, padded: nat)
    requires fields == 6 || fields == 9
    requires 2 <= log <= 4 && padded == (if log == 2 then 4 else if log == 3 then 8 else 16)
    ensures ((fields + 2 * (6 + 1)) * 32) / 2 == (fields + 14) * 16
    ensures (fields + 2 * (log + 6)) * 32 <= (fields + 14) * 16 * padded
  {
  }

  /** The bytes of a range proof's points and scalars. */
  function ProofBytes(plus: bool, outputs: nat): int {
    BulletproofSize(plus, LrLen(outputs)) - 2 * |VarInt.Encoding(LrLen(outputs))|
  }

  // A proof of more than two outputs is charged for as if there were one proof of two outputs for every two, but for a
  // fifth of what it saves.
  lemma ClawbackIs(plus: bool, outputs: nat)
    ensures outputs <= 2 ==> Clawback(plus, outputs) == 0
    ensures outputs > 2 ==>
              var proofs := Pow2(PaddedLog(Capped(outputs), 0)) / 2;
              && 2 <= proofs <= 8 && Capped(outputs) <= 2 * proofs
              && ProofBytes(plus, outputs) <= proofs * ProofBytes(plus, 2)
              && Clawback(plus, outputs) == 4 * (proofs * ProofBytes(plus, 2) - ProofBytes(plus, outputs)) / 5
  {
    hide Pow2, PaddedLog, ProofBytes;
    SmallPowers();
    LogsAre(Capped(outputs));
    LogsAre(2);
    ProofBytesAre(plus, outputs);
    ProofBytesAre(plus, 2);
    hide LrLen;
    if outputs > 2 {
      var log := PaddedLog(Capped(outputs), 0);
      ClawbackFits(if plus then 6 else 9, log, Pow2(log));
    }
  }

  lemma ProofBytesAre(plus: bool, outputs: nat)
    ensures ProofBytes(plus, outputs) == ((if plus then 6 else 9) + 2 * LrLen(outputs)) * 32
    ensures LrLen(outputs) == PaddedLog(Capped(outputs), 0) + 6
  {
    hide VarInt.Encoding, PaddedLog;
  }

  lemma LogsAre(n: nat)
    requires n <= 16
    ensures PaddedLog(n, 0) == if n <= 1 then 0 else if n <= 2 then 1 else if n <= 4 then 2 else if n <= 8 then 3 else 4
    ensures n <= Pow2(PaddedLog(n, 0))
  {
    SmallPowers();
    hide Pow2;
    if n > 1 { assert PaddedLog(n, 0) == PaddedLog(n, 1); }
    if n > 2 { assert PaddedLog(n, 1) == PaddedLog(n, 2); }
    if n > 4 { assert PaddedLog(n, 2) == PaddedLog(n, 3); }
    if n > 8 { assert PaddedLog(n, 3) == PaddedLog(n, 4); }
  }

  // ---------------------------------------------------------------------------------------------
  // Fee rates.

  datatype FeeRate = FeeRate(perWeight: nat, mask: nat) {
    ghost predicate Valid() {
      0 < perWeight <= U64_MAX && 0 < mask <= U64_MAX
    }
  }

  /** The fee of a weight, rounded up to a multiple of the mask. */
  function CalculateFeeFromWeight(rate: FeeRate, weight: nat): nat
    requires rate.Valid()
  {
    var fee := rate.perWeight * weight;
    (fee + rate.mask - 1) / rate.mask * rate.mask
  }

  function CalculateWeightFromFee(rate: FeeRate, fee: nat): nat
    requires rate.Valid()
  {
    fee / rate.perWeight
  }

  lemma RoundedUp(a: nat, m: nat)
    requires m > 0
    ensures a <= (a + m - 1) / m * m < a + m
  {
    var q := (a + m - 1) / m;
    assert a + m - 1 == m * q + (a + m - 1) % m;
    assert m * q == q * m;
  }

  // The fee is the least multiple of the mask which pays for the weight, fits in 128 bits for every
  // weight of 64 bits, and buys at least the weight it was made for.
  lemma FeePaysForWeight(rate: FeeRate, weight: nat)
    requires rate.Valid() && weight <= U64_MAX
    ensures var fee := CalculateFeeFromWeight(rate, weight);
            && fee % rate.mask == 0
            && rate.perWeight * weight <= fee < rate.perWeight * weight + rate.mask
            && fee <= 0xffff_ffff_ffff_ffff_ffff_ffff_ffff_ffff
            && CalculateWeightFromFee(rate, fee) >= weight
  {
    var fee := CalculateFeeFromWeight(rate, weight);
    RoundedUp(rate.perWeight * weight, rate.mask);
    var q := (rate.perWeight * weight + rate.mask - 1) / rate.mask;
    ModIs(fee, rate.mask, q, 0);
    ProductBound(rate.perWeight, weight, U64_MAX, U64_MAX);
    QuotientAtLeast(fee, rate.perWeight, weight);
  }

  lemma ProductBound(a: nat, b: nat, c: nat, d: nat)
    requires a <= c && b <= d
    ensures a * b <= c * d
  {
    assert a * b <= a * d;
    assert a * d <= c * d;
  }

  lemma QuotientAtLeast(fee: nat, p: nat, weight: nat)
    requires p > 0 && p * weight <= fee
    ensures fee / p >= weight
  {
    var q := fee / p;
    assert fee == p * q + fee % p && p * (q + 1) == p * q + p;
    if q < weight {
      ProductBound(p, q + 1, p, weight);
    }
  }

  lemma FeeIsMonotone(rate: FeeRate, a: nat, b: nat)
    requires rate.Valid() && a <= b
    ensures CalculateFeeFromWeight(rate, a) <= CalculateFeeFromWeight(rate, b)
  {
    var m := rate.mask;
    var x, y := rate.perWeight * a + m - 1, rate.perWeight * b + m - 1;
    assert x <= y by { ProductBound(rate.perWeight, a, rate.perWeight, b); }
    QuotientMonotone(x, y, m);
    ProductBound(x / m, m, y / m, m);
  }

  lemma QuotientMonotone(x: nat, y: nat, m: nat)
    requires m > 0 && x <= y
    ensures x / m <= y / m
  {
    QuotientAtLeast(y, m, x / m) by {
      assert x == m * (x / m) + x % m;
    }
  }

  // ---------------------------------------------------------------------------------------------
  // The fixed point.

  /** The length a fee takes, as it is computed: fees which do not fit count as the largest which does. */
  function FeeLen(fee: nat): (n: nat)
    ensures 1 <= n <= 10
  {
    var saturated := if fee <= U64_MAX then fee else U64_MAX;
    VarInt.VarIntLenIsLength(saturated);
    FitsTen(saturated);
    VarInt.VarIntLen(saturated)
  }

  lemma FitsTen(v: nat)
    requires v <= U64_MAX
    ensures |VarInt.Encoding(v)| <= 10
  {
    hide Pow2;
    SmallPowers();
    Pow2Add(8, 8);
    Pow2Add(16, 16);
    Pow2Add(32, 32);
    VarInt.LengthBound(v, 64);
  }

  lemma FeeLenIsMonotone(a: nat, b: nat)
    requires a <= b
    ensures FeeLen(a) <= FeeLen(b)
  {
    var x, y := if a <= U64_MAX then a else U64_MAX, if b <= U64_MAX then b else U64_MAX;
    VarInt.LongerIsNotShorter(x, y);
    VarInt.VarIntLenIsLength(x);
    VarInt.VarIntLenIsLength(y);
  }

  /** The fee is longer than it was reckoned to be. */
  ghost predicate TooLong(rate: FeeRate, baseWeight: nat, feeLen: nat)
    requires rate.Valid()
  {
    FeeLen(CalculateFeeFromWeight(rate, baseWeight + feeLen)) > feeLen
  }

  /** The least weight whose fee has the length the weight was reckoned with, and that fee. */
  ghost predicate IsNecessary(rate: FeeRate, baseWeight: nat, weight: nat, fee: nat)
    requires rate.Valid()
  {
    && fee == CalculateFeeFromWeight(rate, weight) && weight == baseWeight + FeeLen(fee)
    && forall k :: 1 <= k < FeeLen(fee) ==> TooLong(rate, baseWeight, k)
  }

  // There is only one such weight and fee.
  lemma NecessaryIsUnique(rate: FeeRate, baseWeight: nat, w: nat, f: nat, w': nat, f': nat)
    requires rate.Valid() && IsNecessary(rate, baseWeight, w, f) && IsNecessary(rate, baseWeight, w', f')
    ensures w == w' && f == f'
  {
    hide CalculateFeeFromWeight, FeeLen;
    assert !TooLong(rate, baseWeight, FeeLen(f)) && !TooLong(rate, baseWeight, FeeLen(f'));
  }

  // The search always ends with a fee of exactly the length assumed for it.
  method NecessaryFee(rate: FeeRate, baseWeight: nat) returns (weight: nat, fee: nat)
    requires rate.Valid() && baseWeight + 10 <= U64_MAX
    ensures IsNecessary(rate, baseWeight, weight, fee)
  {
    hide CalculateFeeFromWeight, FeeLen;
    var possibleWeights: seq<nat> := [];
    for i := 1 to 11
      invariant |possibleWeights| == i - 1
      invariant forall k :: 0 <= k < i - 1 ==> possibleWeights[k] == baseWeight + k + 1
    {
      possibleWeights := possibleWeights + [baseWeight + i];
    }
    var possibleFees: seq<nat> := [];
    for i := 0 to 10
      invariant |possibleFees| == i
      invariant forall k :: 0 <= k < i ==> possibleFees[k] == CalculateFeeFromWeight(rate, baseWeight + k + 1)
    {
      possibleFees := possibleFees + [CalculateFeeFromWeight(rate, possibleWeights[i])];
    }
    var found := false;
    weight, fee := 0, 0;
    for i := 0 to 10
      invariant !found
      invariant forall k :: 1 <= k <= i ==> TooLong(rate, baseWeight, k)
    {
      var feeLen := 1 + i;
      var possibleFee := possibleFees[i];
      if FeeLen(possibleFee) <= feeLen {
        if i > 0 {
          FeeIsMonotone(rate, baseWeight + i, baseWeight + i + 1);
          FeeLenIsMonotone(possibleFees[i - 1], possibleFee);
          assert TooLong(rate, baseWeight, i);
        }
        weight, fee := baseWeight + feeLen, possibleFee;
        found := true;
        break;
      }
    }
    assert found;
  }

  // ---------------------------------------------------------------------------------------------
  // The weight of what is signed.

  /** `Transaction::weight` */
  function Weight(tx: Transaction): nat
    requires IsClsag(tx)
  {
    |WriteTransaction(tx)| + Clawback(BulletproofOf(tx).Plus?, |tx.prefix.outputs|)
  }

  // No more inputs fit in memory.
  const ADDRESSABLE: nat := 0x1_0000_0000_0000

  /** All that decides the weight of a transaction to sign, but for its fee. */
  datatype Plan = Plan(plus: bool, keyOffsets: seq<seq<nat>>, outputs: nat, extra: seq<byte>) {
    function Ring(): nat {
      if plus then 16 else 11
    }

    function Shape(): Shape {
      TransactionSizes.Shape(plus, Ring(), keyOffsets, outputs, LrLen(outputs), |extra|)
    }

    ghost predicate Valid() {
      && |keyOffsets| <= ADDRESSABLE && outputs <= 16 && |extra| <= ADDRESSABLE
      && forall i :: 0 <= i < |keyOffsets| ==> OffsetsFit(keyOffsets[i], Ring())
    }
  }

  /** As many as there are members, each of sixty-four bits. */
  ghost predicate OffsetsFit(offsets: seq<nat>, ring: nat) {
    |offsets| == ring && forall i :: 0 <= i < |offsets| ==> offsets[i] <= U64_MAX
  }

  /** A transaction which was made as planned. */
  ghost predicate Follows(tx: Transaction, plan: Plan) {
    Shaped(tx, plan.Shape()) && tx.prefix.extra == plan.extra
  }

  /** The weight of a transaction made as planned, without its fee. */
  function PlannedWeight(plan: Plan): nat {
    ShapeSize(plan.Shape()) + Clawback(plan.plus, plan.outputs)
  }

  lemma WeightIsPlanned(plan: Plan, tx: Transaction)
    requires Follows(tx, plan)
    ensures IsClsag(tx) && Weight(tx) == PlannedWeight(plan) + |VarInt.Encoding(FeeOf(tx))|
  {
    hide VarInt.Encoding, Clawback, LrLen, ShapeSize, WriteTransaction;
    ShapedSize(tx, plan.Shape());
    ShapedKind(tx, plan.Shape());
  }

  lemma ShapedKind(tx: Transaction, shape: Shape)
    requires Shaped(tx, shape)
    ensures (BulletproofOf(tx).Plus? <==> shape.plus) && |tx.prefix.outputs| == shape.outputs
  {
  }

  // Transactions made to one plan weigh the same, but for the lengths of their fees.
  lemma WeightsDifferByFee(plan: Plan, a: Transaction, b: Transaction)
    requires Follows(a, plan) && Follows(b, plan)
    ensures Weight(a) - |VarInt.Encoding(FeeOf(a))| == Weight(b) - |VarInt.Encoding(FeeOf(b))|
  {
    hide Follows, Weight, PlannedWeight, VarInt.Encoding;
    WeightIsPlanned(plan, a);
    WeightIsPlanned(plan, b);
  }

  // A transaction paying the necessary fee has exactly the weight the fee was computed for: here
  // `shim` is the dummy transaction with a fee of zero, whose weight less one the search starts from.
  lemma SignedWeight(plan: Plan, shim: Transaction, tx: Transaction, weight: nat, fee: nat)
    requires Follows(shim, plan) && FeeOf(shim) == 0
    requires Follows(tx, plan) && FeeOf(tx) == fee <= U64_MAX
    requires weight == Weight(shim) - 1 + FeeLen(fee)
    ensures Weight(tx) == weight
  {
    hide Follows, Weight, PlannedWeight;
    WeightIsPlanned(plan, shim);
    WeightIsPlanned(plan, tx);
    ZeroEncoding();
    VarInt.VarIntLenIsLength(fee);
  }

  // ---------------------------------------------------------------------------------------------
  // The dummy transaction.

  /** An encoding of the base point. */
  function G(): (r: Bytes32)
    ensures |r| == 32
  {
    [88] + seq(31, i => 102)
  }

  function Copies<T>(t: T, n: nat): (r: seq<T>)
    ensures |r| == n
    ensures forall i :: 0 <= i < n ==> r[i] == t
  {
    seq(n, i => t)
  }

  /** The reader is given these bytes, and makes this of them. */
  function ShimBulletproof(plus: bool, lrLen: nat): Bulletproof {
    var identity, z := [1] + Zeros(31), Zeros(32);
    var list := Copies(identity, lrLen);
    if plus then Plus(identity, identity, identity, z, z, z, list, list)
    else Original(identity, identity, identity, identity, z, z, list, list, z, z, z)
  }

  function ShimClsag(ring: nat): Clsag {
    Clsag(Copies(Zeros(32), ring), Zeros(32), G())
  }

  function ShimPrefix(plan: Plan): TransactionPrefix {
    TransactionPrefix(
      NoTimelock,
      seq(|plan.keyOffsets|, i requires 0 <= i < |plan.keyOffsets| => ToKey(None, plan.keyOffsets[i], G())),
      Copies(Output(None, G(), if plan.plus then Some(0) else None), plan.outputs),
      plan.extra)
  }

  function ShimProofs(plan: Plan): RctProofs {
    var inputs := |plan.keyOffsets|;
    RctProofs(
      RctBase(0, [], Copies(CompactAmount(Zeros(8)), plan.outputs), Copies(G(), plan.outputs)),
      ClsagProofs(ShimBulletproof(plan.plus, LrLen(plan.outputs)), Copies(ShimClsag(plan.Ring()), inputs), Copies(G(), inputs)))
  }

  function Shim(plan: Plan): Transaction {
    Transaction(ShimPrefix(plan), Proofs(Some(ShimProofs(plan))))
  }

  // The dummy transaction is one made as planned, with a fee of zero.
  lemma ShimFollows(plan: Plan)
    ensures Follows(Shim(plan), plan) && FeeOf(Shim(plan)) == 0
  {
    hide LrLen, G, Zeros;
  }

  // The bytes from which the Bulletproof in it is read are indeed read as it.
  lemma ShimReads(plus: bool, lrLen: nat, rest: seq<byte>)
    requires lrLen <= MAX_LR
    ensures (if plus then ReadBulletproofPlus(WriteBulletproof(ShimBulletproof(plus, lrLen)) + rest)
             else ReadBulletproof(WriteBulletproof(ShimBulletproof(plus, lrLen)) + rest)) ==
            Some((ShimBulletproof(plus, lrLen), rest))
  {
    hide BulletproofCodec, ShimBulletproof, WriteBulletproof, ReadBulletproof, ReadBulletproofPlus, Exact;
    var bp := ShimBulletproof(plus, lrLen);
    BulletproofExact(plus);
    ShimBulletproofOk(plus, lrLen);
    BulletproofWritten(plus, bp);
    WrittenIsRead(BulletproofCodec(plus), bp, rest);
    if plus { BulletproofPlusRead(WriteBulletproof(bp) + rest); } else { BulletproofRead(WriteBulletproof(bp) + rest); }
  }

  lemma {:induction false} ZerosReduced(n: nat)
    ensures LittleEndian(Zeros(n)) == 0
  {
    if n > 0 {
      assert Zeros(n)[1..] == Zeros(n - 1);
      ZerosReduced(n - 1);
    }
  }

  lemma ShimPieces()
    ensures ScalarCodec().ok(Zeros(32)) && PointCodec().ok([1] + Zeros(31))
  {
    ZerosReduced(32);
    GuardIs(Bytes(32), Reduced, Zeros(32));
  }

  lemma ShimListOk(point: Bytes32, n: nat)
    requires PointCodec().ok(point) && n <= MAX_LR
    ensures Vec(PointCodec(), Some(MAX_LR)).ok(Copies(point, n))
  {
    hide Vec, Pow2, PointCodec;
    SmallPowers();
    Pow2Monotone(8, 64);
    VecIs(PointCodec(), Some(MAX_LR), Copies(point, n));
  }

  lemma ShimBulletproofOk(plus: bool, lrLen: nat)
    requires lrLen <= MAX_LR
    ensures BulletproofCodec(plus).ok(ShimBulletproof(plus, lrLen))
  {
    hide Vec, Many, Copies, ScalarCodec, PointCodec, Zeros;
    var bp := ShimBulletproof(plus, lrLen);
    var list := Vec(PointCodec(), Some(MAX_LR));
    var identity, z := [1] + Zeros(31), Zeros(32);
    ShimPieces();
    ShimListOk(identity, lrLen);
    if plus {
      var v := FromBulletproofPlus(bp);
      TripleOk(PointCodec(), identity);
      TripleOk(ScalarCodec(), z);
      IsoIs(PlusFieldsCodec(), IntoBulletproofPlus, FromBulletproofPlus, bp);
      BothIs(Many(PointCodec(), 3), Both(Many(ScalarCodec(), 3), Both(list, list)), v);
      BothIs(Many(ScalarCodec(), 3), Both(list, list), v.1);
      BothIs(list, list, v.1.1);
    } else {
      var v := FromBulletproof(bp);
      TripleOk(ScalarCodec(), z);
      PairOk(ScalarCodec(), z);
      QuadrupleOk(PointCodec(), identity);
      IsoIs(OriginalFieldsCodec(), IntoBulletproof, FromBulletproof, bp);
      BothIs(Many(PointCodec(), 4), Both(Many(ScalarCodec(), 2), Both(list, Both(list, Many(ScalarCodec(), 3)))), v);
      BothIs(Many(ScalarCodec(), 2), Both(list, Both(list, Many(ScalarCodec(), 3))), v.1);
      BothIs(list, Both(list, Many(ScalarCodec(), 3)), v.1.1);
      BothIs(list, Many(ScalarCodec(), 3), v.1.1.1);
    }
  }

  lemma PairOk<T>(c: Codec<T>, t: T)
    requires c.ok(t)
    ensures Many(c, 2).ok([t, t])
  {
  }

  lemma TripleOk<T>(c: Codec<T>, t: T)
    requires c.ok(t)
    ensures Many(c, 3).ok([t, t, t])
  {
  }

  lemma QuadrupleOk<T>(c: Codec<T>, t: T)
    requires c.ok(t)
    ensures Many(c, 4).ok([t, t, t, t])
  {
  }

  function ShimWeight(plan: Plan): nat {
    Weight(Shim(plan))
  }

  // ---------------------------------------------------------------------------------------------
  // No weight exceeds sixty-four bits.

  lemma {:induction false} NumbersFit(numbers: seq<nat>)
    requires forall i :: 0 <= i < |numbers| ==> numbers[i] <= U64_MAX
    ensures |WriteRawVec((n: nat) => VarInt.Encoding(n), numbers)| <= 10 * |numbers|
  {
    hide VarInt.Encoding;
    if numbers != [] {
      FitsTen(numbers[0]);
      NumbersFit(numbers[1..]);
    }
  }

  lemma {:induction false} InputsFit(keyOffsets: seq<seq<nat>>, ring: nat)
    requires ring <= 16 && forall i :: 0 <= i < |keyOffsets| ==> OffsetsFit(keyOffsets[i], ring)
    ensures InputsSize(keyOffsets) <= 204 * |keyOffsets|
  {
    hide VarInt.Encoding, WriteRawVec;
    if keyOffsets != [] {
      NumbersFit(keyOffsets[0]);
      FitsTen(ring);
      InputsFit(keyOffsets[1..], ring);
    }
  }

  lemma WeightFits(plan: Plan)
    requires plan.Valid()
    ensures PlannedWeight(plan) + 1 <= U64_MAX - 10
  {
    hide VarInt.Encoding, InputsSize;
    var n := |plan.keyOffsets|;
    InputsFit(plan.keyOffsets, plan.Ring());
    FitsTen(n);
    FitsTen(plan.outputs);
    FitsTen(|plan.extra|);
    FitsTen(LrLen(plan.outputs));
    ClawbackFewer(plan.plus, plan.outputs);
    InputsBound(n, plan.Ring());
  }

  lemma InputsBound(n: nat, ring: nat)
    requires ring <= 16
    ensures n * (32 * ring + 64) <= n * 576
  {
  }

  lemma ClawbackFewer(plus: bool, outputs: nat)
    ensures Clawback(plus, outputs) <= 6000
  {
    hide LrLen;
    SmallPowers();
    AtMostFour(Capped(outputs));
    Pow2Monotone(PaddedLog(Capped(outputs), 0), 4);
  }

  /** `weight_and_necessary_fee` */
  method WeightAndNecessaryFee(plan: Plan, rate: FeeRate) returns (weight: nat, fee: nat)
    requires plan.Valid() && rate.Valid()
    ensures weight <= U64_MAX && IsNecessary(rate, PlannedWeight(plan), weight, fee)
    ensures forall tx | Follows(tx, plan) && IsClsag(tx) && FeeOf(tx) == fee <= U64_MAX :: Weight(tx) == weight
  {
    hide *;
    ShimFollows(plan);
    var shim := Shim(plan);
    WeightIsPlanned(plan, shim);
    ZeroEncoding();
    WeightFits(plan);
    ShimWeightIs(plan);
    weight, fee := NecessaryFee(rate, ShimWeight(plan) - 1);
    NecessaryWeight(rate, PlannedWeight(plan), weight, fee);
    forall tx | Follows(tx, plan) && IsClsag(tx) && FeeOf(tx) == fee <= U64_MAX
      ensures Weight(tx) == weight
    {
      SignedWeight(plan, shim, tx, weight, fee);
    }
  }

  lemma NecessaryWeight(rate: FeeRate, baseWeight: nat, weight: nat, fee: nat)
    requires rate.Valid() && IsNecessary(rate, baseWeight, weight, fee)
    ensures weight == baseWeight + FeeLen(fee) <= baseWeight + 10
  {
  }

  // The necessary weight is that of whatever pays the necessary fee.
  lemma WeightOfNecessary(plan: Plan, rate: FeeRate, weight: nat, fee: nat, tx: Transaction)
    requires rate.Valid() && IsNecessary(rate, PlannedWeight(plan), weight, fee)
    requires Follows(tx, plan) && IsClsag(tx) && FeeOf(tx) == fee <= U64_MAX
    ensures Weight(tx) == weight
  {
    hide Follows, Weight, PlannedWeight, IsNecessary;
    NecessaryWeight(rate, PlannedWeight(plan), weight, fee);
    WeightIsPlanned(plan, tx);
    VarInt.VarIntLenIsLength(fee);
  }

  // The order of the inputs does not matter to the weight, nor so to the fee.
  lemma {:induction false} InputsSizeAnywhere(keyOffsets: seq<seq<nat>>, i: nat)
    requires i < |keyOffsets|
    ensures InputsSize(keyOffsets) == InputsSize([keyOffsets[i]]) + InputsSize(keyOffsets[..i] + keyOffsets[i + 1..])
  {
    hide WriteVec;
    if i == 0 {
      assert keyOffsets[..0] + keyOffsets[1..] == keyOffsets[1..];
    } else {
      InputsSizeAnywhere(keyOffsets[1..], i - 1);
      assert (keyOffsets[..i] + keyOffsets[i + 1..])[1..] == keyOffsets[1..][..i - 1] + keyOffsets[1..][i..];
    }
  }

  lemma {:induction false} InputsSizePermuted(a: seq<seq<nat>>, b: seq<seq<nat>>)
    requires multiset(a) == multiset(b)
    ensures |a| == |b| && InputsSize(a) == InputsSize(b)
  {
    hide InputsSize;
    assert |a| == |multiset(a)| == |multiset(b)| == |b|;
    if a == [] {
      assert b == [];
    } else {
      var i := PermutedRest(a, b);
      assert a[..0] + a[1..] == a[1..];
      InputsSizePermuted(a[1..], b[..i] + b[i + 1..]);
      InputsSizeAnywhere(a, 0);
      InputsSizeAnywhere(b, i);
    }
  }

  lemma Taken<T>(s: seq<T>, i: nat)
    requires i < |s|
    ensures multiset(s[..i] + s[i + 1..]) == multiset(s) - multiset{s[i]}
    ensures i == 0 ==> s[..i] + s[i + 1..] == s[1..]
  {
    assert s == s[..i] + [s[i]] + s[i + 1..];
  }

  // Two orders of the same things stay that without the first of one of them.
  lemma PermutedRest<T>(a: seq<T>, b: seq<T>) returns (i: nat)
    requires multiset(a) == multiset(b) && a != []
    ensures i < |b| && b[i] == a[0] && multiset(a[1..]) == multiset(b[..i] + b[i + 1..])
  {
    assert a[0] in multiset(b);
    i :| 0 <= i < |b| && b[i] == a[0];
    Taken(a, 0);
    Taken(b, i);
  }

  lemma PlannedWeightPermuted(a: Plan, b: Plan)
    requires multiset(a.keyOffsets) == multiset(b.keyOffsets)
    requires a.plus == b.plus && a.outputs == b.outputs && |a.extra| == |b.extra|
    ensures PlannedWeight(a) == PlannedWeight(b)
  {
    hide InputsSize, Clawback, LrLen, BulletproofSize, VarInt.Encoding;
    InputsSizePermuted(a.keyOffsets, b.keyOffsets);
  }

  lemma ShimWeightIs(plan: Plan)
    ensures IsClsag(Shim(plan)) && ShimWeight(plan) == Weight(Shim(plan))
  {
    hide Weight;
  }
}
