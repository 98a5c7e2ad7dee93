/**
wallet/src/send/mod.rs: the payments are shuffled after they are validated. Nothing which was validated depends on their
order.
 */
module Shuffling {
  import opened Wrappers
  import opened Ed25519
  import opened WalletKeys
  import opened Delivery
  import Scan
  import Extra
  import Fee
  import Layout
  import Pieces
  import SendAmounts
  import VarInt

  type Payments = seq<InternalPayment>

  lemma {:induction false} CountsAnywhere(c: Curve, payments: Payments, i: nat)
    requires c.Valid() && i < |payments|
    ensures var rest, p := payments[..i] + payments[i + 1..], payments[i];
            && SendAmounts.Changes(payments) == (if p.Change? then 1 else 0) + SendAmounts.Changes(rest)
            && SendAmounts.Paid(payments) == (if p.Payment? then p.amount else 0) + SendAmounts.Paid(rest)
            && SendAmounts.PaymentIds(c, payments) ==
               (if SendAmounts.HasPaymentId(c, p) then 1 else 0) + SendAmounts.PaymentIds(c, rest)
  {
    hide SendAmounts.HasPaymentId, Curve.Valid;
    if i == 0 {
      assert payments[..0] + payments[1..] == payments[1..];
    } else {
      CountsAnywhere(c, payments[1..], i - 1);
      assert (payments[..i] + payments[i + 1..])[1..] == payments[1..][..i - 1] + payments[1..][i..];
    }
  }

  lemma {:induction false} CountsPermuted(c: Curve, a: Payments, b: Payments)
    requires c.Valid() && multiset(a) == multiset(b)
    ensures |a| == |b| && SendAmounts.Changes(a) == SendAmounts.Changes(b) && SendAmounts.Paid(a) == SendAmounts.Paid(b)
    ensures SendAmounts.PaymentIds(c, a) == SendAmounts.PaymentIds(c, b)
    decreases |a|
  {
    hide SendAmounts.HasPaymentId, SendAmounts.Changes, SendAmounts.Paid, SendAmounts.PaymentIds, Curve.Valid;
    assert |a| == |multiset(a)| == |multiset(b)| == |b|;
    if a == [] {
      assert b == [];
    } else {
      var i := Fee.PermutedRest(a, b);
      assert a[..0] + a[1..] == a[1..];
      CountsPermuted(c, a[1..], b[..i] + b[i + 1..]);
      CountsAnywhere(c, a, 0);
      CountsAnywhere(c, b, i);
    }
  }

  lemma SomePermuted<T>(a: seq<T>, b: seq<T>, p: T -> bool)
    requires multiset(a) == multiset(b)
    ensures (exists i :: 0 <= i < |a| && p(a[i])) <==> exists i :: 0 <= i < |b| && p(b[i])
  {
    if i :| 0 <= i < |a| && p(a[i]) {
      assert a[i] in multiset(b);
    }
    if i :| 0 <= i < |b| && p(b[i]) {
      assert b[i] in multiset(a);
    }
  }

  lemma SameKind(s: Sender, t: Sender)
    requires multiset(s.payments) == multiset(t.payments)
    ensures |s.payments| == |t.payments| && (s.ShouldUseAdditionalKeys() <==> t.ShouldUseAdditionalKeys())
  {
    assert |s.payments| == |multiset(s.payments)| == |multiset(t.payments)| == |t.payments|;
    SomePermuted(s.payments, t.payments, (p: InternalPayment) => p.ToSubaddress());
    SomePermuted(s.payments, t.payments, (p: InternalPayment) => p.ChangeWithView());
  }

  lemma SomeId(c: Curve, s: Sender)
    requires c.Valid()
    ensures FirstWithPaymentId(c, s, 0).Some? <==> exists i :: 0 <= i < |s.payments| && SendAmounts.HasPaymentId(c, s.payments[i])
  {
    hide InternalPayment.Address;
  }

  lemma SameId(c: Curve, keccak: Keccak, s: Sender, t: Sender)
    requires c.Valid() && IsHash(keccak) && s.Valid() && t.Valid() && multiset(s.payments) == multiset(t.payments)
    ensures PaymentIdSent(c, keccak, s).Some? <==> PaymentIdSent(c, keccak, t).Some?
  {
    hide Sender.Valid, InternalPayment.Address, SendAmounts.HasPaymentId, Masked, PaymentIdXor, Sender.Ecdh, Curve.Valid, IsHash,
         FirstWithPaymentId;
    SameKind(s, t);
    SomeId(c, s);
    SomeId(c, t);
    SomePermuted(s.payments, t.payments, (p: InternalPayment) => c.Valid() && SendAmounts.HasPaymentId(c, p));
  }

  lemma {:induction false} FlatLength(list: seq<seq<byte>>)
    requires Pieces.AllOf32(list)
    ensures |Pieces.Flat(list)| == 32 * |list|
  {
    if list != [] {
      FlatLength(list[1..]);
    }
  }

  lemma NineIs()
    ensures VarInt.Encoding(9) == [9]
  {
  }

  // The length of the extra, by what there is of it.
  lemma ExtraLength(c: Curve, keccak: Keccak, s: Sender, data: seq<seq<byte>>)
    requires c.Valid() && IsHash(keccak) && s.Valid()
    ensures |MadeExtra(c, keccak, s, data)| ==
            33 + (if s.ShouldUseAdditionalKeys() then 1 + |VarInt.Encoding(|s.payments|)| + 32 * |s.payments| else 0)
            + (if PaymentIdSent(c, keccak, s).Some? then 11 else 0) + |Layout.Listed(Layout.DataBytes, data)|
  {
    hide VarInt.Encoding, Layout.Listed, Layout.DataBytes, Pieces.Flat, PaymentIdXor, Masked, Sender.Ecdh, Sender.TxKeyPub,
         Sender.AdditionalKeyPub, InternalPayment.Address, FirstWithPaymentId, Curve.Encode, IsHash, Extra.WriteAll, Extra.Sorted,
         Extra.SenderExtra, Extra.SenderNonces, Sender.ShouldUseAdditionalKeys;
    var (key, additional) := Scan.EncodedKeys(c, s);
    FlatLength(additional);
    NineIs();
    Layout.ExtraIs(key, additional, PaymentIdSent(c, keccak, s), data);
  }

  /** A transaction with its payments, and its extra, made in another order. */
  function Shuffled(intent: SendAmounts.Intent, payments: Payments, extra: seq<byte>): SendAmounts.Intent {
    intent.(payments := payments, extra := extra)
  }

  // What was accepted, funded, and weighed is that with its payments in any order.
  lemma ShuffledIsValid(c: Curve, keccak: Keccak, intent: SendAmounts.Intent, s: Sender, shuffled: Payments, weight: nat,
                        necessaryFee: nat)
    requires c.Valid() && IsHash(keccak) && intent.feeRate.Valid() && multiset(shuffled) == multiset(s.payments)
    requires s.payments == intent.payments && s.Valid() && intent.extra == MadeExtra(c, keccak, s, intent.data)
    requires intent.Acceptable(c) && SendAmounts.Funded(intent.Amounts(), intent.payments, necessaryFee)
    requires Fee.IsNecessary(intent.feeRate, Fee.PlannedWeight(intent.Plan()), weight, necessaryFee)
    ensures var t := s.(payments := shuffled);
            && t.Valid()
            && var sent := Shuffled(intent, shuffled, MadeExtra(c, keccak, t, intent.data));
               && sent.Acceptable(c) && SendAmounts.Funded(sent.Amounts(), sent.payments, necessaryFee)
               && Fee.IsNecessary(sent.feeRate, Fee.PlannedWeight(sent.Plan()), weight, necessaryFee)
  {
    hide Fee.IsNecessary, Fee.PlannedWeight, SendAmounts.Changes, SendAmounts.Paid, SendAmounts.PaymentIds, MadeExtra,
         Sender.Valid, SendAmounts.SpentInput.Spendable, Curve.Valid, IsHash, Curve.Encode, PaymentIdSent;
    var t := s.(payments := shuffled);
    CountsPermuted(c, shuffled, s.payments);
    ShuffledValid(c, s, t);
    SameKind(s, t);
    SameId(c, keccak, s, t);
    ExtraLength(c, keccak, s, intent.data);
    ExtraLength(c, keccak, t, intent.data);
    var sent := Shuffled(intent, shuffled, MadeExtra(c, keccak, t, intent.data));
    assert sent.Amounts() == intent.Amounts() && sent.Plan().keyOffsets == intent.Plan().keyOffsets;
    Fee.PlannedWeightPermuted(sent.Plan(), intent.Plan());
  }

  lemma ShuffledValid(c: Curve, s: Sender, t: Sender)
    requires c.Valid() && s.Valid() && t == s.(payments := t.payments) && multiset(t.payments) == multiset(s.payments)
    ensures t.Valid()
  {
    hide Curve.Valid;
    CountsPermuted(c, t.payments, s.payments);
    SendAmounts.ChangesBound(t.payments);
    SendAmounts.ChangesBound(s.payments);
    FewChanges(s.payments);
    forall i, j | 0 <= i < j < |t.payments|
      ensures t.payments[i].Payment? || t.payments[j].Payment?
    {
      AtMostOneChange(t.payments, i, j);
    }
    SomePermuted(s.payments, t.payments, (p: InternalPayment) => p.Payment?);
  }

  lemma {:induction false} FewChanges(payments: Payments)
    requires forall i, j :: 0 <= i < j < |payments| ==> payments[i].Payment? || payments[j].Payment?
    ensures SendAmounts.Changes(payments) <= 1
  {
    if payments != [] {
      FewChanges(payments[1..]);
      if payments[0].Change? {
        NoChanges(payments[1..]);
      }
    }
  }

  lemma {:induction false} NoChanges(payments: Payments)
    requires forall i :: 0 <= i < |payments| ==> payments[i].Payment?
    ensures SendAmounts.Changes(payments) == 0
  {
    if payments != [] {
      NoChanges(payments[1..]);
    }
  }
}
