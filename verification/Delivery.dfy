/**
wallet/src/send/tx.rs, tx_keys.rs and wallet/src/scan.rs together: what is validated and signed is found by
those it is paid to.
 */
module Delivery {
  import opened Wrappers
  import opened Ed25519
  import opened WalletKeys
  import opened Scan
  import Extra
  import Fee
  import Tx = Transactions
  import SendAmounts
  import Signing = SignedTransactions
  import Bulletproofs
  import PowersOfTwo

  // ---------------------------------------------------------------------------------------------
  // What the sender makes for the payments.

  function PaymentIdSent(c: Curve, keccak: Keccak, s: Sender): Option<Extra.PaymentId>
    requires c.Valid() && IsHash(keccak) && s.Valid()
  {
    match EncryptedPaymentId(c, keccak, s)
    case None => None
    case Some(id) => Some(Extra.Encrypted(id))
  }

  /** `extra` */
  function MadeExtra(c: Curve, keccak: Keccak, s: Sender, data: seq<seq<byte>>): seq<byte>
    requires c.Valid() && IsHash(keccak) && s.Valid()
  {
    var (key, additional) := EncodedKeys(c, s);
    Extra.WriteAll(Extra.Sorted(Extra.SenderExtra(key, additional, Extra.SenderNonces(PaymentIdSent(c, keccak, s), data))))
  }

  /** `outputs`, and `commitments_and_encrypted_amounts`: what is derived for a transaction with these inputs. */
  ghost predicate Derived(c: Curve, keccak: Keccak, s: Sender, inputs: seq<Tx.Input>, amounts: seq<u64>,
                          outputs: seq<Signing.Output>, masks: seq<Scalar>)
    requires c.Valid() && IsHash(keccak) && s.Valid()
  {
    && |outputs| == |masks| == |amounts| == |s.payments|
    && var uniqueness := UniquenessOf(keccak, inputs);
       forall o :: 0 <= o < |amounts| ==>
         var sent := Send(c, keccak, s, uniqueness, o, amounts[o]);
         && outputs[o] == Signing.Output(c.Encode(8 * sent.key), sent.viewTag, sent.encryptedAmount)
         && masks[o] == CommitmentMask(c, DerivationsFor(c, keccak, s, uniqueness, o).sharedKey)
  }

  /** The amounts of the outputs. */
  function Amounts(intent: SendAmounts.Intent, necessaryFee: nat): (amounts: seq<u64>)
    requires SendAmounts.Funded(intent.Amounts(), intent.payments, necessaryFee)
    ensures |amounts| == |intent.payments|
  {
    SendAmounts.OutputAmounts(intent.Amounts(), intent.payments, intent.payments, necessaryFee)
  }

  /** The amount due to the o-th payee: what is to be paid, or for change what nobody else gets. */
  function AmountDue(intent: SendAmounts.Intent, necessaryFee: nat, o: nat): u64
    requires SendAmounts.Funded(intent.Amounts(), intent.payments, necessaryFee) && o < |intent.payments|
  {
    if intent.payments[o].Payment? then intent.payments[o].amount
    else SendAmounts.Total(intent.Amounts()) - SendAmounts.Paid(intent.payments) - necessaryFee
  }

  // ---------------------------------------------------------------------------------------------
  // What is validated of the payments.

  lemma {:induction false} AtMostOneChange(payments: seq<InternalPayment>, i: nat, j: nat)
    requires SendAmounts.Changes(payments) <= 1 && i < j < |payments|
    ensures payments[i].Payment? || payments[j].Payment?
  {
    if i > 0 {
      AtMostOneChange(payments[1..], i - 1, j - 1);
    } else if payments[0].Change? && payments[j].Change? {
      ChangeCounts(payments[1..], j - 1);
    }
  }

  lemma {:induction false} ChangeCounts(payments: seq<InternalPayment>, i: nat)
    requires i < |payments| && payments[i].Change?
    ensures SendAmounts.Changes(payments) > 0
  {
    if i > 0 {
      ChangeCounts(payments[1..], i - 1);
    }
  }

  lemma {:induction false} PaymentIdCounts(c: Curve, payments: seq<InternalPayment>, i: nat)
    requires c.Valid() && i < |payments| && SendAmounts.HasPaymentId(c, payments[i])
    ensures SendAmounts.PaymentIds(c, payments) > 0
  {
    hide SendAmounts.HasPaymentId;
    if i > 0 {
      PaymentIdCounts(c, payments[1..], i - 1);
    }
  }

  lemma {:induction false} AtMostOnePaymentId(c: Curve, payments: seq<InternalPayment>, i: nat, j: nat)
    requires c.Valid() && SendAmounts.PaymentIds(c, payments) <= 1 && i < j < |payments|
    ensures !SendAmounts.HasPaymentId(c, payments[i]) || !SendAmounts.HasPaymentId(c, payments[j])
  {
    hide SendAmounts.HasPaymentId;
    if i > 0 {
      AtMostOnePaymentId(c, payments[1..], i - 1, j - 1);
    } else if SendAmounts.HasPaymentId(c, payments[0]) && SendAmounts.HasPaymentId(c, payments[j]) {
      PaymentIdCounts(c, payments[1..], j - 1);
    }
  }

  // What is validated is all that the derivation of keys relies on.
  lemma ValidSender(c: Curve, intent: SendAmounts.Intent, s: Sender)
    requires c.Valid() && intent.Payable(c) && s.payments == intent.payments
    ensures s.Valid()
  {
    hide Curve.Encode, SendAmounts.SpentInput.Spendable;
    SendAmounts.ChangesBound(s.payments);
    forall i, j | 0 <= i < j < |s.payments|
      ensures s.payments[i].Payment? || s.payments[j].Payment?
    {
      AtMostOneChange(s.payments, i, j);
    }
  }

  /** The payment ID which the recipient of an output is to read: its address's, or, of two outputs, zeros. */
  function PaymentIdFor(c: Curve, s: Sender, o: nat): Option<Extra.PaymentId>
    requires c.Valid() && s.Valid() && o < |s.payments|
  {
    var id := s.payments[o].Address(c).paymentId;
    if id.Some? then Some(Extra.Encrypted(id.value))
    else if |s.payments| == 2 && o == s.FirstPayment(0) && FirstWithPaymentId(c, s, 0).None?
    then Some(Extra.Encrypted([0, 0, 0, 0, 0, 0, 0, 0]))
    else None
  }

  lemma PaymentIdIsRead(c: Curve, keccak: Keccak, intent: SendAmounts.Intent, s: Sender, o: nat)
    requires c.Valid() && IsHash(keccak) && intent.Payable(c) && s.payments == intent.payments && s.Valid()
    requires o < |s.payments| && PaymentIdFor(c, s, o).Some?
    ensures PaymentIdSent(c, keccak, s).Some? && PaymentIdSent(c, keccak, s).value.Encrypted?
    ensures Some(Extra.Encrypted(Masked(PaymentIdSent(c, keccak, s).value.id, PaymentIdXor(c, keccak, 8 * s.Ecdh(c, o))))) ==
            PaymentIdFor(c, s, o)
  {
    hide Masked, PaymentIdXor, Sender.Ecdh, InternalPayment.Address, FirstWithPaymentId, EncryptedPaymentId, Sender.Valid,
         Sender.FirstPayment, Curve.Encode, SendAmounts.SpentInput.Spendable;
    forall k | 0 <= k < |s.payments| && k != o
      ensures s.payments[k].Address(c).paymentId.None?
    {
      if s.payments[o].Address(c).paymentId.Some? {
        if k < o { AtMostOnePaymentId(c, s.payments, k, o); } else { AtMostOnePaymentId(c, s.payments, o, k); }
      }
    }
    PaymentIdIsReceived(c, keccak, s, o);
    assert PowersOfTwo.Zeros(8) == [0, 0, 0, 0, 0, 0, 0, 0];
  }

  // ---------------------------------------------------------------------------------------------
  // What is signed carries it.

  lemma SignedCarries(c: Curve, keccak: Keccak, s: Sender, plan: Fee.Plan, images: seq<seq<byte>>, drawn: Signing.Drawn, fee: nat,
                      amounts: seq<u64>, proof: Bulletproofs.Bulletproof, signed: seq<(Signing.Clsag.Signature, Point)>,
                      hash: seq<byte>, o: nat)
    requires c.Valid() && IsHash(keccak) && s.Valid() && |images| == |plan.keyOffsets| && o < |s.payments|
    requires Derived(c, keccak, s, Signing.Inputs(plan, images), amounts, drawn.outputs, drawn.masks)
    ensures var commitments := SendAmounts.Commitments(c, drawn.masks, amounts);
            var tx := Scan.Transaction(hash, Signing.Assemble(c, plan, images, drawn.outputs, fee, commitments, proof, signed));
            && tx.Uniqueness(keccak) == UniquenessOf(keccak, Signing.Inputs(plan, images))
            && Carries(c, tx, o, Send(c, keccak, s, tx.Uniqueness(keccak), o, amounts[o]))
  {
    hide Signing.Prunable, Curve.Encode, DerivationsFor, CommitmentMask, CompactAmountEncryption, Commitment.Commit,
         InternalPayment.Address, Sender.Valid, Signing.Inputs;
  }

  lemma SignedIsKeyed(c: Curve, keccak: Keccak, intent: SendAmounts.Intent, s: Sender, images: seq<seq<byte>>,
                      outputs: seq<Signing.Output>, fee: nat, commitments: seq<Point>, proof: Bulletproofs.Bulletproof,
                      signed: seq<(Signing.Clsag.Signature, Point)>, hash: seq<byte>)
    requires c.Valid() && IsHash(keccak) && s.Valid() && intent.Payable(c) && |images| == |intent.inputs|
    requires s.payments == intent.payments && intent.extra == MadeExtra(c, keccak, s, intent.data)
    ensures var tx := Scan.Transaction(hash, Signing.Assemble(c, intent.Plan(), images, outputs, fee, commitments, proof, signed));
            && KeyedBy(c, tx, s, PaymentIdSent(c, keccak, s), intent.data)
            && tx.content.prefix.additionalTimelock == Tx.NoTimelock
            && |tx.content.prefix.extra| <= Extra.MAX_EXTRA_SIZE_BY_RELAY_RULE
  {
    hide Signing.Prunable, Signing.Base, Curve.Encode, EncryptedPaymentId, Extra.WriteAll, Extra.Sorted, Extra.SenderExtra,
         Extra.SenderNonces, SendAmounts.SpentInput.Spendable, EncodedKeys, Sender.Valid;
  }

  /** The scanner is for the address an output is paid to. */
  ghost predicate ScansFor(c: Curve, scanner: InternalScanner, s: Sender, o: nat, index: Option<SubaddressIndex>)
    requires c.Valid()
    reads scanner
  {
    && scanner.Valid(c) && scanner.Has(c, index)
    && o < |s.payments| && s.payments[o].Address(c).guaranteed == scanner.guaranteed
    && AddressOf(c, scanner.pair, index, s.payments[o].Address(c))
    && (s.payments[o].ChangeWithView() ==> s.payments[o].change.pair == scanner.pair)
  }

  /**
  The output is found. What is found opens its commitment, and can be spent; it has the amount and the payment ID
  it was sent with, and is of the address's spend key, unless the hashes of the shared secret and of another one
  collide.
   */
  ghost predicate Arrives(c: Curve, keccak: Keccak, scanner: InternalScanner, s: Sender, tx: Transaction, o: nat, amount: u64)
    requires c.Valid() && IsHash(keccak) && s.Valid() && o < |s.payments|
    reads scanner
  {
    && o < |tx.Outputs()| && tx.Scanned(c) && tx.SeenAt(c, o).Some? && tx.KeysFor(c, o) != []
    && var seen := tx.SeenAt(c, o).value;
       var outcome := Outcome(c, Opening(c, keccak, scanner), tx, o);
       && outcome.Found?
       && OpensCommitment(c, outcome.received, seen)
       && (forall spendKey :: Spendable(scanner.pair, outcome.received, seen.key, spendKey))
       && (SecretIsTried(c, keccak, scanner, s, tx.Uniqueness(keccak), o) ==>
             && outcome.received.commitment.amount == amount
             && Eq(scanner.pair.SpendOf(c, outcome.received.subaddress), s.payments[o].Address(c).spend)
             && (PaymentIdFor(c, s, o).Some? ==> tx.PaymentId(outcome.received.paymentIdXor) == PaymentIdFor(c, s, o)))
  }

  lemma CarriedArrives(c: Curve, keccak: Keccak, scanner: InternalScanner, intent: SendAmounts.Intent, s: Sender, tx: Transaction,
                       o: nat, amount: u64, index: Option<SubaddressIndex>)
    requires c.Valid() && IsHash(keccak) && intent.Payable(c) && s.payments == intent.payments && s.Valid()
    requires ScansFor(c, scanner, s, o, index)
    requires KeyedBy(c, tx, s, PaymentIdSent(c, keccak, s), intent.data)
    requires var sent := Send(c, keccak, s, tx.Uniqueness(keccak), o, amount); Carries(c, tx, o, sent) && !Eq(sent.key, 0)
    ensures Arrives(c, keccak, scanner, s, tx, o, amount)
  {
    hide Opening, KeyedBy, Carries, Outcome, SecretIsTried, Spendable, OpensCommitment, Send, Sender.Valid, Sender.Ecdh, Eq,
         EqPoint, InternalPayment.Address, Transaction.SeenAt, Transaction.KeysFor, Transaction.Scanned, PaymentIdFor,
         PaymentIdXor, Masked, Extra.PaymentIdIn, SendAmounts.Intent.Payable, InternalScanner.Valid, InternalScanner.Has,
         AddressOf, Sender.TxKeyPub, Sender.AdditionalKeyPub, Curve.Valid, IsHash, PaymentIdSent, EncryptedPaymentId,
         Transaction.Uniqueness, Transaction.Outputs;
    SentIsFound(c, keccak, scanner, s, tx, o, amount, index, PaymentIdSent(c, keccak, s), intent.data);
    KeysAreRead(c, tx, s, PaymentIdSent(c, keccak, s), intent.data, o);
    if PaymentIdFor(c, s, o).Some? {
      PaymentIdIsRead(c, keccak, intent, s, o);
    }
  }

  /** What is signed is made for this sender: its extra, its outputs, and its masks. */
  ghost predicate Made(c: Curve, keccak: Keccak, intent: SendAmounts.Intent, images: seq<seq<byte>>, drawn: Signing.Drawn,
                       necessaryFee: nat, s: Sender)
    requires c.Valid() && IsHash(keccak)
  {
    && s.payments == intent.payments && s.Valid() && intent.extra == MadeExtra(c, keccak, s, intent.data)
    && |images| == |intent.inputs| && SendAmounts.Funded(intent.Amounts(), intent.payments, necessaryFee)
    && Derived(c, keccak, s, Signing.Inputs(intent.Plan(), images), Amounts(intent, necessaryFee), drawn.outputs, drawn.masks)
  }

  // A payment of a signed transaction arrives, in full, at whoever holds the address it was made to.
  lemma SignedArrives(c: Curve, keccak: Keccak, generators: Bulletproofs.AllGenerators, intent: SendAmounts.Intent,
                      images: seq<seq<byte>>, drawn: Signing.Drawn, weight: nat, necessaryFee: nat, content: Tx.Transaction,
                      parts: Signing.Parts, s: Sender, scanner: InternalScanner, hash: seq<byte>, o: nat,
                      index: Option<SubaddressIndex>)
    requires c.Valid() && IsHash(keccak) && generators.Enough() && intent.Payable(c)
    requires Made(c, keccak, intent, images, drawn, necessaryFee, s)
    requires ScansFor(c, scanner, s, o, index) && drawn.outputs[o].key != c.Encode(0)
    requires Signing.Signed(c, keccak, generators, intent, images, drawn, weight, necessaryFee, content, parts)
    ensures Arrives(c, keccak, scanner, s, Scan.Transaction(hash, content), o, AmountDue(intent, necessaryFee, o))
    ensures content.prefix.additionalTimelock == Tx.NoTimelock
    ensures Extra.ArbitraryDataIn(Scan.Transaction(hash, content).Fields()) == intent.data
  {
    hide Signing.Prunable, Curve.Encode, KeyedBy, Carries, Arrives, Send, Sender.Valid, Derived, MadeExtra, AddressOf,
         InternalScanner.Valid, InternalScanner.Has, InternalPayment.Address,
         Signing.Assemble, SendAmounts.Intent.Payable, SendAmounts.Funded, Bulletproofs.Valid, Fee.Follows, Signing.Verifies,
         SendAmounts.Balanced, SendAmounts.OutputAmounts, SendAmounts.FeePaid;
    var amounts := Amounts(intent, necessaryFee);
    var fee := SendAmounts.FeePaid(intent.Amounts(), intent.payments, necessaryFee);
    SignedCarries(c, keccak, s, intent.Plan(), images, drawn, fee, amounts, parts.proof, parts.signed, hash, o);
    SignedIsKeyed(c, keccak, intent, s, images, drawn.outputs, fee, parts.commitments, parts.proof, parts.signed, hash);
    DueIs(intent, necessaryFee, o);
    KeysAreRead(c, Scan.Transaction(hash, content), s, PaymentIdSent(c, keccak, s), intent.data, o);
    DerivedKey(c, keccak, s, intent, images, amounts, drawn, o);
    CarriedArrives(c, keccak, scanner, intent, s, Scan.Transaction(hash, content), o, amounts[o], index);
  }

  lemma DueIs(intent: SendAmounts.Intent, necessaryFee: nat, o: nat)
    requires SendAmounts.Funded(intent.Amounts(), intent.payments, necessaryFee) && o < |intent.payments|
    ensures AmountDue(intent, necessaryFee, o) == Amounts(intent, necessaryFee)[o]
  {
  }

  lemma DerivedKey(c: Curve, keccak: Keccak, s: Sender, intent: SendAmounts.Intent, images: seq<seq<byte>>, amounts: seq<u64>,
                   drawn: Signing.Drawn, o: nat)
    requires c.Valid() && IsHash(keccak) && s.Valid() && |images| == |intent.inputs| && o < |s.payments|
    requires Derived(c, keccak, s, Signing.Inputs(intent.Plan(), images), amounts, drawn.outputs, drawn.masks)
    requires drawn.outputs[o].key != c.Encode(0)
    ensures !Eq(Send(c, keccak, s, UniquenessOf(keccak, Signing.Inputs(intent.Plan(), images)), o, amounts[o]).key, 0)
  {
    hide Curve.Encode, Send, Sender.Valid, Eq, EqPoint;
    var key := Send(c, keccak, s, UniquenessOf(keccak, Signing.Inputs(intent.Plan(), images)), o, amounts[o]).key;
    if Eq(key, 0) {
      EqPointOfEight(key, 0);
      SameEncoding(c, 8 * key, 8 * 0);
    }
  }

  /** The output is reported as one of the transaction, with all the transaction says of it. */
  ghost predicate ReportsSent(c: Curve, keccak: Keccak, scanner: InternalScanner, s: Sender, tx: Transaction, o: nat, amount: u64,
                              output: WalletOutput)
    requires c.Valid() && IsHash(keccak) && s.Valid() && o < |s.payments|
    reads scanner
  {
    && output.transaction == tx.hash && output.indexInTransaction == o
    && output.metadata.additionalTimelock == tx.content.prefix.additionalTimelock
    && output.metadata.arbitraryData == Extra.ArbitraryDataIn(tx.Fields())
    && (SecretIsTried(c, keccak, scanner, s, tx.Uniqueness(keccak), o) ==>
          && output.commitment.amount == amount
          && Eq(scanner.pair.SpendOf(c, output.metadata.subaddress), s.payments[o].Address(c).spend)
          && (PaymentIdFor(c, s, o).Some? ==> output.metadata.paymentId == PaymentIdFor(c, s, o)))
  }

  lemma ArrivedIsFound(c: Curve, keccak: Keccak, scanner: InternalScanner, s: Sender, first: nat, tx: Transaction, o: nat,
                       amount: u64)
    requires c.Valid() && IsHash(keccak) && s.Valid() && o < |s.payments|
    requires Arrives(c, keccak, scanner, s, tx, o, amount)
    ensures o < |tx.Outputs()|
    ensures var output := OutputAt(c, Opening(c, keccak, scanner), first, tx, o);
            output.Some? && output.value.indexOnBlockchain == first + o &&
            ReportsSent(c, keccak, scanner, s, tx, o, amount, output.value)
  {
    hide Opening, Outcome, Transaction.SeenAt, Transaction.KeysFor, Transaction.Scanned, Transaction.PaymentId, PaymentIdFor,
         Spendable, OpensCommitment, SecretIsTried, Sender.Valid, Extra.ArbitraryDataIn, Curve.Valid, IsHash, Eq,
         InternalPayment.Address, Transaction.Uniqueness, ViewPair.SpendOf;
  }

  // An output which arrives is reported of every block with its transaction, at the index which counts the
  // RingCT outputs before it.
  lemma ArrivesInBlock(c: Curve, keccak: Keccak, scanner: InternalScanner, s: Sender, first: nat, txs: seq<Transaction>, t: nat,
                       o: nat, amount: u64) returns (output: WalletOutput)
    requires c.Valid() && IsHash(keccak) && s.Valid() && o < |s.payments| && t < |txs|
    requires Arrives(c, keccak, scanner, s, txs[t], o, amount)
    ensures output in OutputsIn(c, Opening(c, keccak, scanner), first, txs, |txs|)
    ensures output.indexOnBlockchain == first + Created(txs[..t]) + o
    ensures ReportsSent(c, keccak, scanner, s, txs[t], o, amount, output)
  {
    hide Opening, OutputAt, OutputsIn, Created, Arrives, ReportsSent, Sender.Valid, Curve.Valid, IsHash;
    ArrivedIsFound(c, keccak, scanner, s, first + Created(txs[..t]), txs[t], o, amount);
    FoundIsReported(c, Opening(c, keccak, scanner), first, txs, t, o);
    output := OutputAt(c, Opening(c, keccak, scanner), first + Created(txs[..t]), txs[t], o).value;
  }
}
