/** wallet/src/send/tx_keys.rs, tx.rs and mod.rs: what is made for some payments, and the whole of paying. */
module Sending {
  import opened Wrappers
  import opened Ed25519
  import opened WalletKeys
  import opened Delivery
  import opened Shuffling
  import Scan
  import Extra
  import Fee
  import Tx = Transactions
  import SendAmounts
  import SendMultisig
  import Signing = SignedTransactions
  import Bulletproofs
  import Orig = OriginalRangeProof
  import Bpp = PlusRangeProof
  import RangeAlgebra
  import Clsag
  import TransactionSizes
  import TransactionProofs
  import TransactionIo
  import SignedReading

  // ---------------------------------------------------------------------------------------------
  // The outputs.

  /** `shared_key_derivations` */
  method SharedKeys(c: Curve, keccak: Keccak, s: Sender, inputs: seq<Tx.Input>) returns (res: seq<SharedKeyDerivations>)
    requires c.Valid() && IsHash(keccak) && s.Valid()
    ensures |res| == |s.payments|
    ensures forall o :: 0 <= o < |res| ==> res[o] == DerivationsFor(c, keccak, s, Scan.UniquenessOf(keccak, inputs), o)
  {
    hide Sender.Valid, Sender.Ecdh, OutputDerivations, InternalPayment.Address;
    var ecdhs := Ecdhs(c, s);
    var uniqueness := Scan.UniquenessOf(keccak, inputs);
    res := [];
    for o := 0 to |s.payments|
      invariant |res| == o && forall k :: 0 <= k < o ==> res[k] == DerivationsFor(c, keccak, s, uniqueness, k)
    {
      var address := s.payments[o].Address(c);
      res := res + [OutputDerivations(c, keccak, if address.guaranteed then Some(uniqueness) else None, 8 * ecdhs[o], o)];
    }
  }

  /** `outputs` and `commitments_and_encrypted_amounts`: the outputs, and the masks of their commitments. */
  method Outputs(c: Curve, keccak: Keccak, s: Sender, inputs: seq<Tx.Input>, amounts: seq<u64>)
    returns (outputs: seq<Signing.Output>, masks: seq<Scalar>)
    requires c.Valid() && IsHash(keccak) && s.Valid() && |amounts| == |s.payments|
    ensures Derived(c, keccak, s, inputs, amounts, outputs, masks)
    ensures forall o :: 0 <= o < |outputs| ==> outputs[o].Valid()
  {
    hide Sender.Valid, DerivationsFor, InternalPayment.Address, CommitmentMask, CompactAmountEncryption, Commitment.Commit;
    var derivations := SharedKeys(c, keccak, s, inputs);
    ghost var uniqueness := Scan.UniquenessOf(keccak, inputs);
    outputs, masks := [], [];
    for o := 0 to |s.payments|
      invariant |outputs| == |masks| == o
      invariant forall k :: 0 <= k < o ==>
                  var sent := Send(c, keccak, s, uniqueness, k, amounts[k]);
                  && outputs[k] == Signing.Output(c.Encode(8 * sent.key), sent.viewTag, sent.encryptedAmount)
                  && masks[k] == CommitmentMask(c, DerivationsFor(c, keccak, s, uniqueness, k).sharedKey)
    {
      var key := derivations[o].sharedKey + s.payments[o].Address(c).spend;
      outputs := outputs + [Signing.Output(c.Encode(8 * key), derivations[o].viewTag,
                                           CompactAmountEncryption(c, keccak, derivations[o].sharedKey, amounts[o]))];
      masks := masks + [CommitmentMask(c, derivations[o].sharedKey)];
    }
  }

  // ---------------------------------------------------------------------------------------------
  // The extra.

  /** The payment ID of the extra: the first there is of an address, or, for two outputs, a dummy, masked. */
  method PaymentIdToSend(c: Curve, keccak: Keccak, s: Sender) returns (id: Option<Extra.PaymentId>)
    requires c.Valid() && IsHash(keccak) && s.Valid()
    ensures id == PaymentIdSent(c, keccak, s)
  {
    hide Sender.Ecdh, PaymentIdXor, Masked, InternalPayment.Address, FirstWithPaymentId;
    var ecdhs := Ecdhs(c, s);
    for o := 0 to |s.payments|
      invariant FirstWithPaymentId(c, s, 0) == FirstWithPaymentId(c, s, o)
    {
      FirstStep(c, s, o);
      var paymentId := s.payments[o].Address(c).paymentId;
      if paymentId.Some? {
        return Some(Extra.Encrypted(Masked(paymentId.value, PaymentIdXor(c, keccak, 8 * ecdhs[o]))));
      }
    }
    id := None;
    if |s.payments| == 2 {
      id := Some(Extra.Encrypted(PaymentIdXor(c, keccak, 8 * ecdhs[s.FirstPayment(0)])));
    }
  }

  lemma FirstStep(c: Curve, s: Sender, o: nat)
    requires c.Valid() && o < |s.payments|
    ensures FirstWithPaymentId(c, s, o) ==
            if s.payments[o].Address(c).paymentId.Some? then Some(o) else FirstWithPaymentId(c, s, o + 1)
    ensures FirstWithPaymentId(c, s, |s.payments|) == None
  {
    hide InternalPayment.Address;
  }

  /** `extra` */
  method MakeExtra(c: Curve, keccak: Keccak, s: Sender, data: seq<seq<byte>>) returns (extra: seq<byte>)
    requires c.Valid() && IsHash(keccak) && s.Valid()
    ensures extra == MadeExtra(c, keccak, s, data)
  {
    hide Extra.WriteAll, Extra.Sorted, PaymentIdSent, Sender.Valid, Sender.TxKeyPub, Sender.AdditionalKeyPub;
    var key, additional := TransactionKeysPub(c, s);
    var encoded: seq<seq<byte>> := [];
    for i := 0 to |additional|
      invariant |encoded| == i && forall k :: 0 <= k < i ==> encoded[k] == c.Encode(8 * additional[k])
    {
      encoded := encoded + [c.Encode(8 * additional[i])];
    }
    ghost var keys := Scan.EncodedKeys(c, s);
    assert |encoded| == |keys.1| && forall k :: 0 <= k < |encoded| ==> encoded[k] == keys.1[k];
    assert encoded == keys.1 && c.Encode(8 * key) == keys.0;
    var paymentId := PaymentIdToSend(c, keccak, s);
    var nonces := Extra.SenderNonces(paymentId, data);
    extra := Extra.WriteExtra(Extra.SenderExtra(c.Encode(8 * key), encoded, nonces));
  }

  // ---------------------------------------------------------------------------------------------
  // The whole of it.

  datatype PayError = Refused(refusal: SendAmounts.SendError) | NotSigned(error: Signing.SignError)

  /** What is taken from outside, and what the proofs are made with. */
  datatype Setting = Setting(c: Curve, keccak: Keccak, generators: Bulletproofs.AllGenerators) {
    ghost predicate Valid() {
      c.Valid() && IsHash(keccak) && generators.Enough()
    }
  }

  /** A transaction which was paid: what was validated and by whom, what was drawn, and what was made of it. */
  datatype Paying = Paying(setting: Setting, intent: SendAmounts.Intent, s: Sender, spends: seq<Signing.Spend>, weight: nat,
                           necessaryFee: nat, drawn: Signing.Drawn, randomness: seq<Clsag.Randomness>, tx: Tx.Transaction,
                           parts: Signing.Parts)
  {
    function Ordered(): seq<Signing.Entry>
      requires setting.c.Valid()
    {
      Signing.Ordered(Signing.Imaged(setting.c, spends))
    }

    /** The intent with its inputs in the order of the transaction. */
    function Sorted(): SendAmounts.Intent
      requires setting.c.Valid()
    {
      Signing.InOrder(intent, Ordered())
    }

    function Images(): seq<seq<byte>>
      requires setting.c.Valid()
    {
      Signing.Map(Signing.ImageOf, Ordered())
    }

    /** What was validated. */
    ghost predicate Validated()
      requires setting.c.Valid()
    {
      && intent.feeRate.Valid() && weight < SendAmounts.MAX_TX_SIZE
      && multiset(Sorted().inputs) == multiset(intent.inputs)
      && Sorted().Payable(setting.c) && Sorted().inputs != [] && Sorted().Plan().Valid()
      && Fee.IsNecessary(intent.feeRate, Fee.PlannedWeight(Sorted().Plan()), weight, necessaryFee)
    }

    /** What was made for those paid. */
    ghost predicate MadeFor()
      requires setting.Valid()
    {
      Made(setting.c, setting.keccak, Sorted(), Images(), drawn, necessaryFee, s)
    }

    ghost predicate Signed()
      requires setting.Valid()
    {
      && Signing.Signed(setting.c, setting.keccak, setting.generators, Sorted(), Images(), drawn, weight, necessaryFee, tx, parts)
      && Signing.SignedWith(setting.c, setting.keccak, tx, parts, randomness)
    }

    /** All that is known of what was paid. */
    ghost predicate Settled() {
      setting.Valid() && Validated() && MadeFor() && Signed()
    }

    /** It is of this intent, which was signed with what was drawn. */
    ghost predicate Of(setting': Setting, intent': SendAmounts.Intent, s': Sender, spends': seq<Signing.Spend>, weight': nat,
                       fee: nat, blinds: Orig.Blinds, plusBlinds: Bpp.Blinds, randomness': seq<Clsag.Randomness>,
                       tx': Tx.Transaction)
    {
      && this == Paying(setting', intent', s', spends', weight', fee, drawn, randomness', tx', parts)
      && drawn.blinds == blinds && drawn.plusBlinds == plusBlinds
    }

    /** It is of what was validated, with the payments in another order, and the extra made for that. */
    ghost predicate Is(validated: SendAmounts.Intent, sender: Sender, shuffled: seq<InternalPayment>) {
      && setting.Valid() && s == sender.(payments := shuffled) && s.Valid()
      && intent == Shuffled(validated, shuffled, MadeExtra(setting.c, setting.keccak, s, validated.data))
    }

    /** The scanner is for the address of the o-th output, which is not the identity. */
    ghost predicate ScannedBy(scanner: InternalScanner, o: nat, index: Option<SubaddressIndex>)
      reads scanner
    {
      && setting.Valid() && ScansFor(setting.c, scanner, s, o, index)
      && o < |drawn.outputs| && drawn.outputs[o].key != setting.c.Encode(0)
    }

    /** The o-th output arrives, in full, and the data with it. */
    ghost predicate ArrivesAt(scanner: InternalScanner, hash: seq<byte>, o: nat)
      reads scanner
    {
      && setting.Valid() && s.Valid() && o < |s.payments| == |intent.payments|
      && SendAmounts.Funded(intent.Amounts(), intent.payments, necessaryFee)
      && Arrives(setting.c, setting.keccak, scanner, s, Scan.Transaction(hash, tx), o, AmountDue(intent, necessaryFee, o))
      && Extra.ArbitraryDataIn(Scan.Transaction(hash, tx).Fields()) == intent.data
    }

    /** It can be read from its bytes, whatever follows them, and proves its amounts. */
    ghost predicate IsRead(rest: seq<byte>) {
      && TransactionIo.ReadTransaction(TransactionIo.WriteTransaction(tx) + rest) == Some((tx, rest))
      && setting.Valid() && TransactionSizes.IsClsag(tx) && TransactionProofs.AmountsProven(setting.c, setting.generators, tx)
    }
  }

  lemma SortedIs(c: Curve, intent: SendAmounts.Intent, spends: seq<Signing.Spend>, entries: seq<Signing.Entry>, weight: nat,
                 necessaryFee: nat)
    requires c.Valid() && intent.Acceptable(c) && intent.feeRate.Valid() && |intent.inputs| <= Fee.ADDRESSABLE
    requires Fee.IsNecessary(intent.feeRate, Fee.PlannedWeight(intent.Plan()), weight, necessaryFee)
    requires SendAmounts.Funded(intent.Amounts(), intent.payments, necessaryFee)
    requires Signing.Map(Signing.InputIn, spends) == intent.inputs
    requires forall i :: 0 <= i < |spends| ==> Signing.Matches(spends[i]) && Signing.KeyIs(spends[i])
    requires entries == Signing.Imaged(c, spends)
    ensures var ordered := Signing.Ordered(entries);
            var sorted := Signing.InOrder(intent, ordered);
            && |ordered| == |sorted.inputs| == |sorted.Plan().keyOffsets| == |intent.inputs| && sorted.Payable(c)
            && sorted.payments == intent.payments && sorted.extra == intent.extra && sorted.data == intent.data
            && sorted.inputs != [] && sorted.Plan().Valid() && multiset(sorted.inputs) == multiset(intent.inputs)
            && Fee.IsNecessary(sorted.feeRate, Fee.PlannedWeight(sorted.Plan()), weight, necessaryFee)
            && SendAmounts.Funded(sorted.Amounts(), sorted.payments, necessaryFee)
  {
    hide SendAmounts.Funded, Fee.IsNecessary, Fee.PlannedWeight, Signing.Map, Signing.KeyIs, Signing.KeyImage, Signing.Matches,
         Signing.Ordered, Signing.Ready, SendAmounts.Intent.KeysDistinct, SendAmounts.SpentInput.Spendable, Curve.Encode,
         Fee.Plan.Valid;
    Signing.ImagedAre(c, spends);
    Signing.AllReady(c, intent, spends, entries);
    Signing.OrderedEntries(c, intent, entries);
    var sorted := Signing.InOrder(intent, Signing.Ordered(entries));
    Signing.InAnyOrder(intent, sorted, weight, necessaryFee);
    Signing.OrderedPlan(c, intent, sorted);
  }

  /** Every key is the one of its input, which is in its ring. */
  ghost predicate AllOwned(c: Curve, spends: seq<Signing.Spend>)
    requires c.Valid()
  {
    forall i :: 0 <= i < |spends| ==> Signing.KeyIs(spends[i]) && Signing.InRing(c, spends[i])
  }

  /** `sign`: the inputs are put in order, and the outputs made for them. */
  method SignPaid(c: Curve, keccak: Keccak, generators: Bulletproofs.AllGenerators, intent: SendAmounts.Intent,
                  spends: seq<Signing.Spend>, s: Sender, ghost weight: nat, necessaryFee: nat, blinds: Orig.Blinds,
                  plusBlinds: Bpp.Blinds, randomness: seq<Clsag.Randomness>)
    returns (res: Result<Tx.Transaction, Signing.SignError>, ghost paid: Option<Paying>)
    requires c.Valid() && IsHash(keccak) && generators.Enough()
    requires intent.Acceptable(c) && intent.feeRate.Valid() && |intent.inputs| <= Fee.ADDRESSABLE
    requires weight < SendAmounts.MAX_TX_SIZE
    requires Fee.IsNecessary(intent.feeRate, Fee.PlannedWeight(intent.Plan()), weight, necessaryFee)
    requires SendAmounts.Funded(intent.Amounts(), intent.payments, necessaryFee)
    requires Signing.Map(Signing.InputIn, spends) == intent.inputs
    requires forall i :: 0 <= i < |spends| ==> Signing.Matches(spends[i])
    requires s.payments == intent.payments && s.Valid() && intent.extra == MadeExtra(c, keccak, s, intent.data)
    requires |blinds.sL| == |blinds.sR| == RangeAlgebra.Padded(|s.payments|) * 64
    requires |plusBlinds.wip.d| == RangeAlgebra.PaddedLog(|s.payments|, 0) + 6
    requires Signing.RandomnessFits(randomness, |spends|, intent.Ring())
    ensures res.Ok? <==> AllOwned(c, spends)
    ensures res.Ok? ==>
              && paid.Some?
              && paid.value.Of(Setting(c, keccak, generators), intent, s, spends, weight, necessaryFee, blinds, plusBlinds, randomness,
                               res.value)
              && paid.value.Settled()
  {
    hide SendAmounts.Funded, Fee.IsNecessary, Fee.PlannedWeight, Signing.Map, Signing.KeyIs, Signing.KeyImage, Signing.Matches,
         Signing.Ordered, Signing.Ready, Signing.InRing, Signing.Imaged, Signing.Signed, Signing.SignedWith,
         Signing.RandomnessFits, SendAmounts.Intent.Acceptable, SendAmounts.Intent.Payable, Curve.Encode, Fee.Plan.Valid,
         Sender.Valid, MadeExtra, Derived, RangeAlgebra.Padded, RangeAlgebra.PaddedLog, SendAmounts.OutputAmounts;
    paid := None;
    var images := Signing.KeyImages(c, spends);
    if images.None? {
      res := Err(Signing.WrongPrivateKey);
      return;
    }
    var entries := SendMultisig.Keyed(images.value, spends);
    Signing.KeyedIsImaged(c, images.value, spends);
    SortedIs(c, intent, spends, entries, weight, necessaryFee);
    var ordered := Signing.Ordered(entries);
    var sorted := Signing.InOrder(intent, ordered);
    var inputs := Signing.Inputs(sorted.Plan(), Signing.Map(Signing.ImageOf, ordered));
    var amounts := SendAmounts.CommitmentAmounts(sorted.Amounts(), sorted.payments, necessaryFee);
    var outputs, masks := Outputs(c, keccak, s, inputs, amounts);
    var made := Signing.Drawn(outputs, masks, blinds, plusBlinds);
    DerivedCounts(c, keccak, s, inputs, amounts, outputs, masks);
    ghost var order, parts;
    res, order, parts := Signing.Sign(c, keccak, generators, intent, spends, weight, necessaryFee, made, randomness);
    if res.Ok? {
      paid := Some(Paying(Setting(c, keccak, generators), intent, s, spends, weight, necessaryFee, made, randomness, res.value,
                          parts.value));
    }
  }

  lemma DerivedCounts(c: Curve, keccak: Keccak, s: Sender, inputs: seq<Tx.Input>, amounts: seq<u64>, outputs: seq<Signing.Output>,
                      masks: seq<Scalar>)
    requires c.Valid() && IsHash(keccak) && s.Valid() && Derived(c, keccak, s, inputs, amounts, outputs, masks)
    ensures |outputs| == |masks| == |s.payments|
  {
  }

  /** What was validated is acceptable, funded, and within the limit of the weight, and the inputs are the signer's. */
  ghost predicate CanPay(c: Curve, intent: SendAmounts.Intent, spends: seq<Signing.Spend>, weight: nat, necessaryFee: nat)
    requires c.Valid()
  {
    && intent.Acceptable(c) && SendAmounts.Funded(intent.Amounts(), intent.payments, necessaryFee)
    && weight < SendAmounts.MAX_TX_SIZE && AllOwned(c, spends)
  }

  /** `SignableTransaction::new` and `sign`. What was validated is shuffled before it is signed. */
  method Pay(c: Curve, keccak: Keccak, generators: Bulletproofs.AllGenerators, rctType: Tx.RctType, spends: seq<Signing.Spend>,
             s: Sender, shuffled: seq<InternalPayment>, data: seq<seq<byte>>, feeRate: Fee.FeeRate, blinds: Orig.Blinds,
             plusBlinds: Bpp.Blinds, randomness: seq<Clsag.Randomness>)
    returns (res: Result<Tx.Transaction, PayError>, intent: SendAmounts.Intent, weight: nat,
             necessaryFee: nat, ghost paid: Option<Paying>)
    requires c.Valid() && IsHash(keccak) && generators.Enough() && feeRate.Valid() && |spends| <= Fee.ADDRESSABLE
    requires forall i :: 0 <= i < |spends| ==> Signing.Matches(spends[i])
    requires multiset(shuffled) == multiset(s.payments)
    requires |blinds.sL| == |blinds.sR| == RangeAlgebra.Padded(|s.payments|) * 64
    requires |plusBlinds.wip.d| == RangeAlgebra.PaddedLog(|s.payments|, 0) + 6
    requires Signing.RandomnessFits(randomness, |spends|, if rctType.ClsagBulletproofType? then 11 else 16)
    ensures intent == SendAmounts.Intent(rctType, Signing.Map(Signing.InputIn, spends), s.payments, data, intent.extra, feeRate)
    ensures s.Valid() ==> intent.extra == MadeExtra(c, keccak, s, data)
    ensures res.Ok? <==> CanPay(c, intent, spends, weight, necessaryFee)
    ensures res.Err? && res.error.Refused? ==> intent.Blamed(c, res.error.refusal, weight, necessaryFee)
    ensures res.Ok? ==>
              && paid.Some? && paid.value.Is(intent, s, shuffled)
              && paid.value.Of(Setting(c, keccak, generators), paid.value.intent, paid.value.s, spends, weight, necessaryFee, blinds,
                               plusBlinds, randomness, res.value)
              && paid.value.Settled()
  {
    hide SendAmounts.Funded, Fee.IsNecessary, Fee.PlannedWeight, Signing.Map, Signing.KeyIs, Signing.Matches, Signing.InRing,
         Paying.Settled, SendAmounts.Intent.Payable, SendAmounts.Intent.Blamed, SendAmounts.Intent.KeysDistinct,
         SendAmounts.SpentInput.Spendable, Curve.Encode, Sender.Valid, MadeExtra, RangeAlgebra.Padded, RangeAlgebra.PaddedLog,
         Fee.Weight, Fee.Follows, Curve.Valid, IsHash;
    paid := None;
    var extra: seq<byte> := [];
    if s.Valid() {
      extra := MakeExtra(c, keccak, s, data);
    }
    intent := SendAmounts.Intent(rctType, Signing.Map(Signing.InputIn, spends), s.payments, data, extra, feeRate);
    var validated;
    validated, weight, necessaryFee := SendAmounts.Validate(c, intent);
    if validated.Err? {
      res := Err(Refused(validated.error));
      return;
    }
    ValidSender(c, intent, s);
    ShuffledIsValid(c, keccak, intent, s, shuffled, weight, necessaryFee);
    SameLength(shuffled, s.payments);
    var order := s.(payments := shuffled);
    extra := MakeExtra(c, keccak, order, data);
    var sent := Shuffled(intent, shuffled, extra);
    var signed;
    signed, paid := SignPaid(c, keccak, generators, sent, spends, order, weight, necessaryFee, blinds, plusBlinds, randomness);
    res := match signed
      case Ok(tx) => Ok(tx)
      case Err(error) => Err(NotSigned(error));
  }

  lemma SameLength<T>(a: seq<T>, b: seq<T>)
    requires multiset(a) == multiset(b)
    ensures |a| == |b|
  {
    assert |multiset(a)| == |a| && |multiset(b)| == |b|;
  }

  // The sum of the inputs does not depend on their order.
  lemma DueInAnyOrder(intent: SendAmounts.Intent, sorted: SendAmounts.Intent, necessaryFee: nat, o: nat)
    requires sorted == intent.(inputs := sorted.inputs) && multiset(sorted.inputs) == multiset(intent.inputs)
    requires SendAmounts.Funded(sorted.Amounts(), sorted.payments, necessaryFee) && o < |intent.payments|
    ensures SendAmounts.Funded(intent.Amounts(), intent.payments, necessaryFee)
    ensures AmountDue(intent, necessaryFee, o) == AmountDue(sorted, necessaryFee, o)
  {
    Signing.MapPermuted(Signing.AmountOf, sorted.inputs, intent.inputs);
    assert sorted.Amounts() == Signing.Map(Signing.AmountOf, sorted.inputs);
    assert intent.Amounts() == Signing.Map(Signing.AmountOf, intent.inputs);
    Signing.TotalPermuted(sorted.Amounts(), intent.Amounts());
  }

  // Whatever is paid can be read from its bytes, and proves its amounts.
  lemma PaidIsRead(paid: Paying, rest: seq<byte>)
    requires paid.Settled()
    ensures paid.IsRead(rest)
  {
    hide Made, Signing.Signed, Signing.SignedWith, SendAmounts.Intent.Payable, Fee.Plan.Valid, Fee.IsNecessary, Fee.PlannedWeight,
         Curve.Valid, IsHash, Curve.Encode, TransactionProofs.AmountsProven, TransactionIo.ReadTransaction,
         TransactionIo.WriteTransaction, Signing.Ordered, Signing.Map, Signing.Imaged;
    var (c, keccak, generators) := (paid.setting.c, paid.setting.keccak, paid.setting.generators);
    MadeIs(paid);
    TransactionProofs.SignedIsProven(c, keccak, generators, paid.Sorted(), paid.Images(), paid.drawn, paid.weight, paid.necessaryFee,
                                     paid.tx, paid.parts);
    SignedReading.SignedIsRead(c, keccak, generators, paid.Sorted(), paid.Images(), paid.drawn, paid.weight, paid.necessaryFee,
                               paid.tx, paid.parts, rest);
  }

  // It arrives, in full, at everyone it was paid to.
  lemma PaymentsArrive(paid: Paying, scanner: InternalScanner, hash: seq<byte>, o: nat, index: Option<SubaddressIndex>)
    requires paid.Settled() && paid.ScannedBy(scanner, o, index)
    ensures paid.ArrivesAt(scanner, hash, o)
  {
    hide Made, ScansFor, Arrives, AmountDue, Signing.Signed, Signing.SignedWith, SendAmounts.Funded, SendAmounts.Intent.Acceptable,
         SendAmounts.Intent.Payable, Fee.Plan.Valid, Fee.IsNecessary, Fee.PlannedWeight, Sender.Valid, Curve.Valid, IsHash, Curve.Encode,
         Signing.Ordered, Extra.ArbitraryDataIn, Extra.ReadAll, Signing.Map, Signing.Imaged;
    var (c, keccak, generators) := (paid.setting.c, paid.setting.keccak, paid.setting.generators);
    MadeIs(paid);
    SignedArrives(c, keccak, generators, paid.Sorted(), paid.Images(), paid.drawn, paid.weight, paid.necessaryFee, paid.tx, paid.parts,
                  paid.s, scanner, hash, o, index);
    DueInAnyOrder(paid.intent, paid.Sorted(), paid.necessaryFee, o);
  }

  lemma MadeIs(paid: Paying)
    requires paid.setting.Valid() && paid.MadeFor()
    ensures paid.s.payments == paid.intent.payments && paid.s.Valid()
    ensures SendAmounts.Funded(paid.Sorted().Amounts(), paid.Sorted().payments, paid.necessaryFee)
    ensures |paid.drawn.outputs| == |paid.drawn.masks| == |paid.s.payments|
  {
    hide SendAmounts.Funded, Curve.Encode, Signing.Ordered, Signing.Map, Signing.Imaged, Sender.Valid, MadeExtra, Curve.Valid, IsHash;
  }
}
