/** wallet/src/send: the amounts of a transaction, and the balance of its commitments. */
module SendAmounts {
  import opened Wrappers
  import opened Ed25519
  import opened Vectors
  import opened Fee
  import Extra
  import Transactions
  import TransactionSizes
  import Clsag
  import DecoySelection
  import WalletKeys

  type InternalPayment = WalletKeys.InternalPayment

  datatype SendError =
    | UnsupportedRctType
    | NoInputs
    | InvalidInputs
    | InvalidDecoyQuantity
    | NoOutputs
    | NoChange
    | IncorrectSerialization
    | MultiplePaymentIds
    | TooManyOutputs
    | TooMuchArbitraryData
    | AmountsUnrepresentable(inAmount: nat, outAmount: nat)
    | NotEnoughFunds(inputs: u64, outputs: u64, necessaryFee: u64)
    | TooLargeTransaction

  const MAX_BULLETPROOF_COMMITMENTS: nat := 16
  const MAX_TX_SIZE: nat := 300_000 / 2 - 600
  const U128_MAX: nat := 0xffff_ffff_ffff_ffff_ffff_ffff_ffff_ffff

  // ---------------------------------------------------------------------------------------------
  // Amounts.

  function Paid(payments: seq<InternalPayment>): (sum: nat) {
    if payments == [] then 0
    else (if payments[0].Payment? then payments[0].amount else 0) + Paid(payments[1..])
  }

  function Changes(payments: seq<InternalPayment>): nat {
    if payments == [] then 0 else (if payments[0].Change? then 1 else 0) + Changes(payments[1..])
  }

  predicate HasPaymentId(c: Curve, payment: InternalPayment)
    requires c.Valid()
  {
    payment.Address(c).paymentId.Some?
  }

  function PaymentIds(c: Curve, payments: seq<InternalPayment>): nat
    requires c.Valid()
  {
    if payments == [] then 0 else (if HasPaymentId(c, payments[0]) then 1 else 0) + PaymentIds(c, payments[1..])
  }

  function Total(amounts: seq<u64>): (sum: nat) {
    if amounts == [] then 0 else amounts[0] + Total(amounts[1..])
  }

  /** The funds suffice for the payments and the fee, and every amount fits in sixty-four bits. */
  ghost predicate Funded(inputs: seq<u64>, payments: seq<InternalPayment>, necessaryFee: nat) {
    && Changes(payments) <= 1
    && Total(inputs) <= U64_MAX && Paid(payments) + necessaryFee <= Total(inputs)
  }

  lemma CountsConcat(a: seq<InternalPayment>, p: InternalPayment)
    ensures Changes(a + [p]) == Changes(a) + (if p.Change? then 1 else 0)
    ensures Paid(a + [p]) == Paid(a) + (if p.Payment? then p.amount else 0)
  {
    if a != [] {
      assert (a + [p])[1..] == a[1..] + [p];
      CountsConcat(a[1..], p);
    } else {
      assert a + [p] == [p] && [p][1..] == [];
    }
  }

  lemma {:induction false} PaymentIdsConcat(c: Curve, a: seq<InternalPayment>, p: InternalPayment)
    requires c.Valid()
    ensures PaymentIds(c, a + [p]) == PaymentIds(c, a) + (if HasPaymentId(c, p) then 1 else 0)
  {
    hide HasPaymentId;
    if a != [] {
      assert (a + [p])[1..] == a[1..] + [p];
      PaymentIdsConcat(c, a[1..], p);
    } else {
      assert a + [p] == [p] && [p][1..] == [];
    }
  }

  lemma {:induction false} TotalConcat(a: seq<u64>, x: u64)
    ensures Total(a + [x]) == Total(a) + x
  {
    if a != [] {
      assert (a + [x])[1..] == a[1..] + [x];
      TotalConcat(a[1..], x);
    } else {
      assert a + [x] == [x] && [x][1..] == [];
    }
  }

  lemma {:induction false} ChangesBound(payments: seq<InternalPayment>)
    ensures Changes(payments) <= |payments|
    ensures Changes(payments) == |payments| <==> forall i :: 0 <= i < |payments| ==> payments[i].Change?
  {
    if payments != [] {
      ChangesBound(payments[1..]);
      assert forall i :: 1 <= i < |payments| ==> payments[i] == payments[1..][i - 1];
      if forall i :: 0 <= i < |payments| ==> payments[i].Change? {
        assert forall i :: 0 <= i < |payments| - 1 ==> payments[1..][i] == payments[i + 1];
      }
    }
  }

  method SumInputs(inputs: seq<u64>) returns (sum: nat)
    ensures sum == Total(inputs)
  {
    sum := 0;
    for i := 0 to |inputs|
      invariant sum == Total(inputs[..i])
    {
      assert inputs[..i + 1] == inputs[..i] + [inputs[i]];
      TotalConcat(inputs[..i], inputs[i]);
      sum := sum + inputs[i];
    }
    assert inputs[..|inputs|] == inputs;
  }

  method SumPayments(payments: seq<InternalPayment>) returns (sum: nat)
    ensures sum == Paid(payments)
  {
    sum := 0;
    for i := 0 to |payments|
      invariant sum == Paid(payments[..i])
    {
      assert payments[..i + 1] == payments[..i] + [payments[i]];
      CountsConcat(payments[..i], payments[i]);
      if payments[i].Payment? {
        sum := sum + payments[i].amount;
      }
    }
    assert payments[..|payments|] == payments;
  }

  method CountPayments(payments: seq<InternalPayment>) returns (anyPayment: bool, changeCount: nat)
    ensures anyPayment <==> exists i :: 0 <= i < |payments| && payments[i].Payment?
    ensures changeCount == Changes(payments)
  {
    anyPayment, changeCount := false, 0;
    for i := 0 to |payments|
      invariant anyPayment <==> exists k :: 0 <= k < i && payments[k].Payment?
      invariant changeCount == Changes(payments[..i])
    {
      assert payments[..i + 1] == payments[..i] + [payments[i]];
      CountsConcat(payments[..i], payments[i]);
      anyPayment := anyPayment || payments[i].Payment?;
      changeCount := changeCount + if payments[i].Change? then 1 else 0;
    }
    assert payments[..|payments|] == payments;
  }

  method CountPaymentIds(c: Curve, payments: seq<InternalPayment>) returns (count: nat)
    requires c.Valid()
    ensures count == PaymentIds(c, payments)
  {
    hide HasPaymentId;
    count := 0;
    for i := 0 to |payments|
      invariant count == PaymentIds(c, payments[..i])
    {
      assert payments[..i + 1] == payments[..i] + [payments[i]];
      PaymentIdsConcat(c, payments[..i], payments[i]);
      count := count + if HasPaymentId(c, payments[i]) then 1 else 0;
    }
    assert payments[..|payments|] == payments;
  }

  datatype SpentInput = SpentInput(key: Point, amount: u64, offsets: seq<u64>) {
    /** The key has neither torsion nor the identity as its value. */
    predicate Spendable() {
      DecoySelection.TorsionFree(key) && !Clsag.IsIdentity(key)
    }
  }

  /** A transaction to sign, as it is validated. The extra is the one made for it. */
  datatype Intent = Intent(rctType: Transactions.RctType, inputs: seq<SpentInput>, payments: seq<InternalPayment>,
                           data: seq<seq<byte>>, extra: seq<byte>, feeRate: FeeRate)
  {
    predicate Supported() {
      rctType.ClsagBulletproofType? || rctType.ClsagBulletproofPlusType?
    }

    function Ring(): nat {
      if rctType.ClsagBulletproofType? then 11 else 16
    }

    function Amounts(): (amounts: seq<u64>)
      ensures |amounts| == |inputs|
    {
      seq(|inputs|, i requires 0 <= i < |inputs| => inputs[i].amount)
    }

    function Plan(): Plan {
      Fee.Plan(rctType.ClsagBulletproofPlusType?, seq(|inputs|, i requires 0 <= i < |inputs| => inputs[i].offsets),
               |payments|, extra)
    }

    ghost predicate KeysDistinct(c: Curve)
      requires c.Valid()
    {
      forall i, j :: 0 <= i < j < |inputs| ==> c.Encode(inputs[i].key) != c.Encode(inputs[j].key)
    }

    /** What is asked of the outputs. */
    ghost predicate Payable(c: Curve)
      requires c.Valid()
    {
      && 2 <= |payments| <= MAX_BULLETPROOF_COMMITMENTS
      && Changes(payments) <= 1 && PaymentIds(c, payments) <= 1
      && (forall i :: 0 <= i < |data| ==> |data[i]| <= Extra.MAX_ARBITRARY_DATA_SIZE)
      && |extra| <= Extra.MAX_EXTRA_SIZE_BY_RELAY_RULE
    }

    ghost predicate Acceptable(c: Curve)
      requires c.Valid()
    {
      && Supported()
      && inputs != [] && KeysDistinct(c)
      && (forall i :: 0 <= i < |inputs| ==> inputs[i].Spendable() && |inputs[i].offsets| == Ring())
      && Payable(c)
    }

    /** What an error says. */
    ghost predicate Blamed(c: Curve, error: SendError, weight: nat, necessaryFee: nat)
      requires c.Valid()
    {
      var spent, out := Total(Amounts()), Saturated(Paid(payments) + necessaryFee);
      match error
      case UnsupportedRctType => !Supported()
      case NoInputs => inputs == []
      case InvalidInputs => !KeysDistinct(c) || exists i :: 0 <= i < |inputs| && !inputs[i].Spendable()
      case InvalidDecoyQuantity => exists i :: 0 <= i < |inputs| && |inputs[i].offsets| != Ring()
      case NoOutputs => Changes(payments) == |payments|
      case NoChange => |payments| < 2
      case IncorrectSerialization => Changes(payments) > 1
      case MultiplePaymentIds => PaymentIds(c, payments) > 1
      case TooManyOutputs => |payments| > MAX_BULLETPROOF_COMMITMENTS
      case TooMuchArbitraryData =>
        || (exists i :: 0 <= i < |data| && |data[i]| > Extra.MAX_ARBITRARY_DATA_SIZE)
        || |extra| > Extra.MAX_EXTRA_SIZE_BY_RELAY_RULE
      case AmountsUnrepresentable(inAmount, outAmount) =>
        inAmount == spent && outAmount == out && (spent > U64_MAX || out > U64_MAX)
      case NotEnoughFunds(from, to, fee) =>
        from == spent < out <= U64_MAX && to == Paid(payments) && fee == necessaryFee
      case TooLargeTransaction => weight >= MAX_TX_SIZE
    }
  }

  function Saturated(n: nat): nat {
    if n <= U128_MAX then n else U128_MAX
  }

  function KeySet(c: Curve, inputs: seq<SpentInput>): set<seq<byte>>
    requires c.Valid()
  {
    if inputs == [] then {} else KeySet(c, inputs[1..]) + {c.Encode(inputs[0].key)}
  }

  lemma {:induction false} InKeySet(c: Curve, inputs: seq<SpentInput>, key: seq<byte>)
    requires c.Valid()
    ensures key in KeySet(c, inputs) <==> exists i :: 0 <= i < |inputs| && c.Encode(inputs[i].key) == key
  {
    hide Curve.Encode;
    if inputs != [] {
      InKeySet(c, inputs[1..], key);
      if i :| 0 <= i < |inputs| && c.Encode(inputs[i].key) == key {
        assert i > 0 ==> inputs[1..][i - 1] == inputs[i];
      }
      if i :| 0 <= i < |inputs| - 1 && c.Encode(inputs[1..][i].key) == key {
        assert inputs[i + 1] == inputs[1..][i];
      }
    }
  }

  // There are as many keys as inputs exactly when no two inputs have the same key.
  lemma {:induction false} KeysCounted(c: Curve, inputs: seq<SpentInput>)
    requires c.Valid()
    ensures |KeySet(c, inputs)| <= |inputs|
    ensures |KeySet(c, inputs)| == |inputs| <==>
            forall i, j :: 0 <= i < j < |inputs| ==> c.Encode(inputs[i].key) != c.Encode(inputs[j].key)
  {
    hide Curve.Encode;
    if inputs != [] {
      var key, rest := c.Encode(inputs[0].key), inputs[1..];
      KeysCounted(c, rest);
      InKeySet(c, rest, key);
      if key in KeySet(c, rest) {
        var i :| 0 <= i < |rest| && c.Encode(rest[i].key) == key;
        assert inputs[i + 1] == rest[i];
        assert KeySet(c, inputs) == KeySet(c, rest);
      } else {
        assert forall j :: 1 <= j < |inputs| ==> inputs[j] == rest[j - 1];
        assert forall j :: 0 <= j < |rest| ==> rest[j] == inputs[j + 1];
      }
    }
  }

  method CollectKeys(c: Curve, inputs: seq<SpentInput>) returns (keys: set<seq<byte>>)
    requires c.Valid()
    ensures keys == KeySet(c, inputs)
  {
    keys := {};
    for i := |inputs| downto 0
      invariant keys == KeySet(c, inputs[i..])
    {
      assert inputs[i..][1..] == inputs[i + 1..];
      keys := keys + {c.Encode(inputs[i].key)};
    }
  }

  method ValidateInputs(c: Curve, intent: Intent) returns (res: Result<(), SendError>)
    requires c.Valid()
    ensures res.Ok? <==>
              && intent.Supported() && intent.inputs != [] && intent.KeysDistinct(c)
              && forall i :: 0 <= i < |intent.inputs| ==>
                   intent.inputs[i].Spendable() && |intent.inputs[i].offsets| == intent.Ring()
    ensures forall weight, fee :: res.Err? ==> intent.Blamed(c, res.error, weight, fee)
  {
    hide Curve.Encode, SpentInput.Spendable;
    if !intent.Supported() {
      return Err(UnsupportedRctType);
    }
    if intent.inputs == [] {
      return Err(NoInputs);
    }
    var keys := CollectKeys(c, intent.inputs);
    KeysCounted(c, intent.inputs);
    if |keys| != |intent.inputs| {
      return Err(InvalidInputs);
    }
    for i := 0 to |intent.inputs|
      invariant forall k :: 0 <= k < i ==> intent.inputs[k].Spendable() && |intent.inputs[k].offsets| == intent.Ring()
    {
      if !intent.inputs[i].Spendable() {
        return Err(InvalidInputs);
      }
      if |intent.inputs[i].offsets| != intent.Ring() {
        return Err(InvalidDecoyQuantity);
      }
    }
    res := Ok(());
  }

  method ValidateOutputs(c: Curve, intent: Intent) returns (res: Result<(), SendError>)
    requires c.Valid()
    ensures res.Ok? <==> intent.Payable(c)
    ensures forall weight, fee :: res.Err? ==> intent.Blamed(c, res.error, weight, fee)
  {
    var payments := intent.payments;
    var anyPayment, changeCount := CountPayments(payments);
    var paymentIds := CountPaymentIds(c, payments);
    ChangesBound(payments);
    if !anyPayment {
      return Err(NoOutputs);
    }
    if |payments| < 2 {
      return Err(NoChange);
    }
    if changeCount > 1 {
      return Err(IncorrectSerialization);
    }
    if paymentIds > 1 {
      return Err(MultiplePaymentIds);
    }
    if |payments| > MAX_BULLETPROOF_COMMITMENTS {
      return Err(TooManyOutputs);
    }
    for i := 0 to |intent.data|
      invariant forall k :: 0 <= k < i ==> |intent.data[k]| <= Extra.MAX_ARBITRARY_DATA_SIZE
    {
      if |intent.data[i]| > Extra.MAX_ARBITRARY_DATA_SIZE {
        return Err(TooMuchArbitraryData);
      }
    }
    if |intent.extra| > Extra.MAX_EXTRA_SIZE_BY_RELAY_RULE {
      return Err(TooMuchArbitraryData);
    }
    res := Ok(());
  }

  /** The checks of the funds and of the weight. */
  method ValidateFunds(c: Curve, intent: Intent, weight: nat, necessaryFee: nat) returns (res: Result<(), SendError>)
    requires c.Valid() && Changes(intent.payments) <= 1
    ensures res.Ok? <==> Funded(intent.Amounts(), intent.payments, necessaryFee) && weight < MAX_TX_SIZE
    ensures res.Err? ==> intent.Blamed(c, res.error, weight, necessaryFee)
  {
    var inAmount := SumInputs(intent.Amounts());
    var paymentsAmount := SumPayments(intent.payments);
    var outAmount := Saturated(paymentsAmount + necessaryFee);
    if inAmount > U64_MAX || outAmount > U64_MAX {
      return Err(AmountsUnrepresentable(inAmount, outAmount));
    }
    if inAmount < outAmount {
      return Err(NotEnoughFunds(inAmount, paymentsAmount, necessaryFee));
    }
    if weight >= MAX_TX_SIZE {
      return Err(TooLargeTransaction);
    }
    res := Ok(());
  }

  lemma AcceptablePlan(c: Curve, intent: Intent)
    requires c.Valid() && intent.Acceptable(c) && |intent.inputs| <= ADDRESSABLE
    ensures intent.Plan().Valid()
  {
    hide Curve.Encode, SpentInput.Spendable;
  }

  /**
  `validate`. What it accepts has a fee which is the fee of its weight, is funded, and makes
  transactions of exactly that weight, if they pay that fee.
   */
  method Validate(c: Curve, intent: Intent) returns (res: Result<(), SendError>, weight: nat, necessaryFee: nat)
    requires c.Valid() && intent.feeRate.Valid()
    requires |intent.inputs| <= ADDRESSABLE
    ensures intent.Acceptable(c) ==>
              && weight <= U64_MAX && IsNecessary(intent.feeRate, PlannedWeight(intent.Plan()), weight, necessaryFee)
              && forall tx | Follows(tx, intent.Plan()) && TransactionSizes.IsClsag(tx) &&
                             TransactionSizes.FeeOf(tx) == necessaryFee <= U64_MAX :: Weight(tx) == weight
    ensures res.Ok? <==>
            intent.Acceptable(c) && Funded(intent.Amounts(), intent.payments, necessaryFee) && weight < MAX_TX_SIZE
    ensures res.Err? ==> intent.Blamed(c, res.error, weight, necessaryFee)
  {
    hide Curve.Encode, SpentInput.Spendable, Intent.Blamed, Intent.KeysDistinct, Funded, Follows, Weight, PlannedWeight,
         IsNecessary;
    weight, necessaryFee := 0, 0;
    res := ValidateInputs(c, intent);
    if res.Err? {
      return;
    }
    res := ValidateOutputs(c, intent);
    if res.Err? {
      return;
    }
    AcceptablePlan(c, intent);
    weight, necessaryFee := WeightAndNecessaryFee(intent.Plan(), intent.feeRate);
    res := ValidateFunds(c, intent, weight, necessaryFee);
  }

  /** The amount of each output; change takes what neither the payments nor the fee do. */
  function OutputAmounts(inputs: seq<u64>, all: seq<InternalPayment>, payments: seq<InternalPayment>, necessaryFee: nat)
    : (amounts: seq<u64>)
    requires Funded(inputs, all, necessaryFee)
    ensures |amounts| == |payments|
  {
    seq(|payments|, i requires 0 <= i < |payments| =>
      match payments[i]
      case Payment(_, amount) => amount
      case Change(_) => Total(inputs) - (Paid(all) + necessaryFee))
  }

  /** The fee written: the necessary fee, unless there is no change to take what is left. */
  function FeePaid(inputs: seq<u64>, payments: seq<InternalPayment>, necessaryFee: nat): (fee: u64)
    requires Funded(inputs, payments, necessaryFee)
    ensures fee >= necessaryFee
  {
    if Changes(payments) > 0 then necessaryFee else Total(inputs) - Paid(payments)
  }

  method CommitmentAmounts(inputs: seq<u64>, payments: seq<InternalPayment>, necessaryFee: nat) returns (amounts: seq<u64>)
    requires Funded(inputs, payments, necessaryFee)
    ensures amounts == OutputAmounts(inputs, payments, payments, necessaryFee)
    ensures |amounts| == |payments|
    ensures forall o :: 0 <= o < |payments| && payments[o].Payment? ==> amounts[o] == payments[o].amount
    ensures forall o :: 0 <= o < |payments| && payments[o].Change? ==>
              Total(inputs) == Paid(payments) + necessaryFee + amounts[o]
  {
    amounts := [];
    for i := 0 to |payments|
      invariant |amounts| == i
      invariant forall k :: 0 <= k < i ==> amounts[k] == OutputAmounts(inputs, payments, payments, necessaryFee)[k]
    {
      var amount: u64;
      match payments[i] {
        case Payment(_, paid) => amount := paid;
        case Change(_) =>
          var funds := SumInputs(inputs);
          var paid := SumPayments(payments);
          amount := funds - (paid + necessaryFee);
      }
      amounts := amounts + [amount];
    }
  }

  method TransactionFee(inputs: seq<u64>, payments: seq<InternalPayment>, necessaryFee: nat) returns (fee: u64)
    requires Funded(inputs, payments, necessaryFee)
    ensures fee == FeePaid(inputs, payments, necessaryFee)
  {
    var _, changeCount := CountPayments(payments);
    if changeCount > 0 {
      return necessaryFee;
    }
    var funds := SumInputs(inputs);
    var paid := SumPayments(payments);
    fee := funds - paid;
  }

  lemma {:induction false} TotalOfOutputs(inputs: seq<u64>, all: seq<InternalPayment>, payments: seq<InternalPayment>,
                                          necessaryFee: nat)
    requires Funded(inputs, all, necessaryFee)
    ensures Total(OutputAmounts(inputs, all, payments, necessaryFee)) ==
            Paid(payments) + Changes(payments) * (Total(inputs) - (Paid(all) + necessaryFee))
  {
    if payments != [] {
      TotalOfOutputs(inputs, all, payments[1..], necessaryFee);
      assert OutputAmounts(inputs, all, payments, necessaryFee)[1..] == OutputAmounts(inputs, all, payments[1..], necessaryFee);
      hide Funded, OutputAmounts;
      OneMore(Changes(payments[1..]), Total(inputs) - (Paid(all) + necessaryFee));
    }
  }

  lemma OneMore(n: nat, x: int)
    ensures (1 + n) * x == x + n * x
  {
  }

  // Whatever is put in comes out or is paid as the fee, with and without change.
  lemma Conservation(inputs: seq<u64>, payments: seq<InternalPayment>, necessaryFee: nat)
    requires Funded(inputs, payments, necessaryFee)
    ensures Total(inputs) ==
            Total(OutputAmounts(inputs, payments, payments, necessaryFee)) + FeePaid(inputs, payments, necessaryFee)
  {
    TotalOfOutputs(inputs, payments, payments, necessaryFee);
  }

  // ---------------------------------------------------------------------------------------------
  // Commitments.

  /** The commitments to the outputs. */
  function Commitments(c: Curve, masks: seq<Scalar>, amounts: seq<u64>): (r: seq<Point>)
    requires |masks| == |amounts|
    ensures |r| == |amounts|
  {
    seq(|amounts|, i requires 0 <= i < |amounts| => 8 * Commitment(masks[i], amounts[i]).Commit(c))
  }

  lemma {:induction false} SumOfCommitments(c: Curve, masks: seq<Scalar>, amounts: seq<u64>)
    requires |masks| == |amounts|
    ensures Sum(Commitments(c, masks, amounts)) == 8 * (Sum(masks) + Total(amounts) * c.h)
  {
    if amounts != [] {
      SumOfCommitments(c, masks[1..], amounts[1..]);
      assert Commitments(c, masks, amounts)[1..] == Commitments(c, masks[1..], amounts[1..]);
      assert (amounts[0] + Total(amounts[1..])) * c.h == amounts[0] * c.h + Total(amounts[1..]) * c.h;
    }
  }

  lemma {:induction false} SameTotal(a: seq<nat>, b: seq<u64>)
    requires |a| == |b| && forall i :: 0 <= i < |a| ==> a[i] == b[i]
    ensures Sum(a) == Total(b)
  {
    if a != [] {
      SameTotal(a[1..], b[1..]);
    }
  }

  /** The outputs are worth the inputs, less the fee. */
  ghost predicate Balanced(c: Curve, pseudoOuts: seq<Point>, commitments: seq<Point>, fee: u64) {
    EqPoint(Sum(pseudoOuts), Sum(commitments) + 8 * (fee * c.h))
  }

  // Signing under the sum of the output masks balances the pseudo-outs with the commitments and the fee.
  method SignInputs(c: Curve, inputs: seq<Clsag.Input>, payments: seq<InternalPayment>, necessaryFee: nat,
                    masks: seq<Scalar>, msg: seq<byte>, randomness: seq<Clsag.Randomness>, ghost amounts: seq<u64>)
    returns (res: Result<seq<(Clsag.Signature, Point)>, Clsag.ClsagError>, ghost pseudoMasks: seq<Scalar>)
    requires c.Valid() && |msg| == 32 && inputs != []
    requires forall i :: 0 <= i < |inputs| ==> inputs[i].Valid(c)
    requires |randomness| == |inputs|
    requires forall i :: 0 <= i < |inputs| ==> |randomness[i].s| == |inputs[i].context.decoys.ring|
    requires |amounts| == |inputs| && forall i :: 0 <= i < |inputs| ==> inputs[i].context.commitment.amount == amounts[i]
    requires Funded(amounts, payments, necessaryFee) && |masks| == |payments|
    ensures res.Ok? <==> forall i :: 0 <= i < |inputs| ==> inputs[i].KeyMatches()
    ensures res.Ok? ==>
              && |res.value| == |pseudoMasks| == |inputs|
              && (forall i :: 0 <= i < |inputs| ==>
                    && Clsag.Answered(c, inputs[i], pseudoMasks[i], res.value[i].0, res.value[i].1, msg)
                    && |res.value[i].0.D| == 32 && |res.value[i].0.s| == |inputs[i].context.decoys.ring|)
              && (forall i :: 0 <= i < |inputs| - 1 ==> pseudoMasks[i] == randomness[i].mask)
              && (forall i :: 0 <= i < |inputs| ==>
                    inputs[i].context.decoys.Valid() &&
                    Clsag.MadeOf(c, inputs[i], pseudoMasks[i], randomness[i].nonce, randomness[i].s, msg, res.value[i].0))
              && Balanced(c, seq(|inputs|, i requires 0 <= i < |inputs| => res.value[i].1),
                          Commitments(c, masks, OutputAmounts(amounts, payments, payments, necessaryFee)),
                          FeePaid(amounts, payments, necessaryFee))
  {
    hide Clsag.Answered, Clsag.MadeOf, Funded, Sum;
    var sumOutputs := 0;
    Clsag.SumOfNone();
    for i := 0 to |masks|
      invariant sumOutputs == Sum(masks[..i])
    {
      SumPrefix(masks, i);
      sumOutputs := sumOutputs + masks[i];
    }
    assert masks[..|masks|] == masks;
    res, pseudoMasks := Clsag.Sign(c, inputs, sumOutputs, msg, randomness);
    if res.Ok? {
      ghost var pseudoOuts := seq(|inputs|, i requires 0 <= i < |inputs| => res.value[i].1);
      forall i | 0 <= i < |inputs|
        ensures pseudoOuts[i] == Clsag.PseudoOuts(c, inputs, pseudoMasks)[i]
      {
        AnsweredOut(c, inputs[i], pseudoMasks[i], res.value[i].0, res.value[i].1, msg);
      }
      assert pseudoOuts == Clsag.PseudoOuts(c, inputs, pseudoMasks);
      SignedBalance(c, inputs, payments, necessaryFee, masks, pseudoMasks, amounts);
    }
  }

  lemma AnsweredOut(c: Curve, input: Clsag.Input, mask: Scalar, signature: Clsag.Signature, pseudoOut: Point, msg: seq<byte>)
    requires c.Valid() && Clsag.Answered(c, input, mask, signature, pseudoOut, msg)
    ensures pseudoOut == Clsag.PseudoOut(c, mask, input.context.commitment.amount)
  {
  }

  lemma SignedBalance(c: Curve, inputs: seq<Clsag.Input>, payments: seq<InternalPayment>, necessaryFee: nat,
                      masks: seq<Scalar>, pseudoMasks: seq<Scalar>, amounts: seq<u64>)
    requires |inputs| == |pseudoMasks| == |amounts| && |masks| == |payments|
    requires forall i :: 0 <= i < |inputs| ==> inputs[i].context.commitment.amount == amounts[i]
    requires Funded(amounts, payments, necessaryFee) && Sum(pseudoMasks) == Sum(masks)
    ensures Balanced(c, Clsag.PseudoOuts(c, inputs, pseudoMasks),
                     Commitments(c, masks, OutputAmounts(amounts, payments, payments, necessaryFee)),
                     FeePaid(amounts, payments, necessaryFee))
  {
    hide Funded, Sum;
    var outs := OutputAmounts(amounts, payments, payments, necessaryFee);
    var fee := FeePaid(amounts, payments, necessaryFee);
    Clsag.PseudoOutsBalance(c, inputs, pseudoMasks);
    SameTotal(Clsag.InputAmounts(inputs), amounts);
    SumOfCommitments(c, masks, outs);
    Conservation(amounts, payments, necessaryFee);
    assert Total(amounts) * c.h == Total(outs) * c.h + fee * c.h by { SplitProduct(Total(outs), fee, c.h); }
    EqPointFromMultiple(Sum(Clsag.PseudoOuts(c, inputs, pseudoMasks)), Sum(Commitments(c, masks, outs)) + 8 * (fee * c.h), 0);
  }

  lemma SplitProduct(a: int, b: int, h: int)
    ensures (a + b) * h == a * h + b * h
  {
  }
}
