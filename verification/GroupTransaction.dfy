/**
wallet/src/send/multisig.rs: a transaction signed by a group. It is what a single signer with the keys would have
made of the same outputs.
 */
module GroupTransactions {
  import opened Wrappers
  import opened Ed25519
  import opened Vectors
  import opened Fee
  import opened ClsagMultisig
  import opened SignedTransactions
  import opened SendMultisig
  import Tx = Transactions
  import Bulletproofs
  import Clsag
  import Send = SendAmounts
  import TransactionHashes

  /** The group's key for an input is the input's own; ring and amount are the input's. */
  ghost predicate SignsFor(input: Send.SpentInput, part: Part) {
    && GroupKeyIs(input, part)
    && part.context.decoys.offsets == input.offsets && part.context.commitment.amount == input.amount
  }

  predicate GroupKeyIs(input: Send.SpentInput, part: Part) {
    part.view.groupKey % (8 * L) == input.key % (8 * L)
  }

  /** `multisig`: the checks before the machines are made. */
  method Multisig(c: Curve, inputs: seq<Send.SpentInput>, parts: seq<Part>) returns (res: Result<(), SignError>)
    requires c.Valid() && |parts| == |inputs|
    requires forall i :: 0 <= i < |parts| ==> parts[i].context.decoys.Valid()
    ensures res.Ok? <==> forall i :: 0 <= i < |parts| ==> GroupKeyIs(inputs[i], parts[i]) && parts[i].context.Valid(c)
    ensures res == Err(WrongPrivateKey) <==>
            exists i :: 0 <= i < |parts| && !GroupKeyIs(inputs[i], parts[i]) &&
                        forall j :: 0 <= j < i ==> GroupKeyIs(inputs[j], parts[j]) && parts[j].context.Valid(c)
  {
    hide GroupKeyIs, Clsag.Context.Valid;
    for i := 0 to |parts|
      invariant forall j :: 0 <= j < i ==> GroupKeyIs(inputs[j], parts[j]) && parts[j].context.Valid(c)
    {
      if !GroupKeyIs(inputs[i], parts[i]) {
        return Err(WrongPrivateKey);
      }
      var context := Clsag.NewContext(c, parts[i].context.decoys, parts[i].context.commitment);
      if context.Err? {
        return Err(ClsagFailed(context.error));
      }
    }
    res := Ok(());
  }

  // ---------------------------------------------------------------------------------------------
  // The group as one signer.

  /** What a single signer would know of an input. */
  function SpendOf(v: (Send.SpentInput, Part)): Spend {
    (v.0, Spending(v.1.key, v.1.context.decoys, v.1.context.commitment))
  }

  function Spends(inputs: seq<Send.SpentInput>, parts: seq<Part>): (spends: seq<Spend>)
    requires |inputs| == |parts|
    ensures |spends| == |parts|
  {
    seq(|parts|, i requires 0 <= i < |parts| => SpendOf((inputs[i], parts[i])))
  }

  lemma SpendIsReady(c: Curve, input: Send.SpentInput, part: Part, included: seq<Participant>)
    requires c.Valid() && part.Valid(c, included) && SignsFor(input, part)
    ensures Matches(SpendOf((input, part))) && KeyIs(SpendOf((input, part))) && InRing(c, SpendOf((input, part)))
    ensures SpendOf((input, part)).1.Input() == part.Input()
    ensures KeyImage(c, SpendOf((input, part))) == c.Encode(part.Input().KeyImage(c))
  {
    hide SumOver, Eq, Curve.Encode, Clsag.ImageGenerator;
    assert EqPoint(input.key, part.context.Signer().0);
    Clsag.EncodeSame(c, input.key, part.context.Signer().0);
    SameGenerator(c, input.key, part.context.Signer().0);
  }

  lemma SameGenerator(c: Curve, p: Point, q: Point)
    requires c.Valid() && c.Encode(p) == c.Encode(q)
    ensures Clsag.ImageGenerator(c, p) == Clsag.ImageGenerator(c, q)
  {
  }

  /** Every part signs for the input in its place. */
  ghost predicate Grouped(c: Curve, inputs: seq<Send.SpentInput>, parts: seq<Part>, included: seq<Participant>) {
    && |parts| == |inputs|
    && forall i :: 0 <= i < |parts| ==>
         parts[i].Valid(c, included) && OneOrder(parts[i].order, parts[i].signers) && SignsFor(inputs[i], parts[i])
  }

  // Inputs and machines are sorted apart, and are in their places together: those of a single signer's entries.
  lemma Together(c: Curve, inputs: seq<Send.SpentInput>, parts: seq<Part>, included: seq<Participant>, images: seq<seq<byte>>)
    requires c.Valid() && Grouped(c, inputs, parts, included) && |images| == |parts|
    requires forall i :: 0 <= i < |parts| ==>
               parts[i].context.decoys.Valid() && images[i] == c.Encode(parts[i].Input().KeyImage(c))
    ensures Keyed(images, Spends(inputs, parts)) == Imaged(c, Spends(inputs, parts))
    ensures var ordered := Ordered(Imaged(c, Spends(inputs, parts)));
            var txInputs, clsags := Sort(Keyed(images, inputs)), Sort(Keyed(images, parts));
            forall k :: 0 <= k < |parts| ==>
              && ordered[k] == (clsags[k].0, SpendOf((txInputs[k].1, clsags[k].1)))
              && clsags[k].1.Valid(c, included) && OneOrder(clsags[k].1.order, clsags[k].1.signers)
              && SignsFor(txInputs[k].1, clsags[k].1)
  {
    hide Sort, Curve.Encode, Clsag.Input.KeyImage, Part.Valid, OneOrder, SignsFor, KeyImage;
    var both := Zip(inputs, parts);
    var spends := Spends(inputs, parts);
    forall i | 0 <= i < |parts|
      ensures images[i] == KeyImage(c, spends[i])
    {
      SpendIsReady(c, inputs[i], parts[i], included);
    }
    assert Keyed(images, spends) == Imaged(c, spends);
    assert Mapped(SpendOf, Keyed(images, both)) == Keyed(images, spends);
    SortMapped(SpendOf, Keyed(images, both));
    SortsAlign(images, both);
    assert Mapped(First, Keyed(images, both)) == Keyed(images, inputs);
    assert Mapped(Second, Keyed(images, both)) == Keyed(images, parts);
    forall k | 0 <= k < |parts|
      ensures var txInputs, clsags := Sort(Keyed(images, inputs)), Sort(Keyed(images, parts));
              && clsags[k].1.Valid(c, included) && OneOrder(clsags[k].1.order, clsags[k].1.signers)
              && SignsFor(txInputs[k].1, clsags[k].1)
    {
      var i := Placed(images, both, k);
    }
  }

  // ---------------------------------------------------------------------------------------------
  // Signing.

  /** The signatures in their order, if there are all of them. */
  method Complete(signatures: seq<Option<(Clsag.Signature, Point)>>) returns (res: Option<seq<(Clsag.Signature, Point)>>)
    ensures res.Some? <==> forall k :: 0 <= k < |signatures| ==> signatures[k].Some?
    ensures res.Some? ==>
              |res.value| == |signatures| && forall k :: 0 <= k < |signatures| ==> res.value[k] == signatures[k].value
  {
    var signed: seq<(Clsag.Signature, Point)> := [];
    for k := 0 to |signatures|
      invariant |signed| == k && forall j :: 0 <= j < k ==> signatures[j].Some? && signed[j] == signatures[j].value
    {
      if signatures[k].None? {
        return None;
      }
      signed := signed + [signatures[k].value];
    }
    res := Some(signed);
  }

  /** A single signer's signature with this mask would be accepted. */
  ghost predicate Accepted(c: Curve, e: Entry, mask: Scalar)
    requires c.Valid()
  {
    e.1.1.decoys.Valid() && Clsag.ExpectedFor(c, e.1.1.Input(), mask) == Ok(())
  }

  lemma GroupIsReady(c: Curve, intent: Send.Intent, parts: seq<Part>, included: seq<Participant>)
    requires c.Valid() && Grouped(c, intent.inputs, parts, included)
    ensures var spends := Spends(intent.inputs, parts);
            && Map(InputIn, spends) == intent.inputs
            && forall i :: 0 <= i < |spends| ==> Matches(spends[i]) && KeyIs(spends[i]) && InRing(c, spends[i])
  {
    hide SumOver, Eq, Curve.Encode, Clsag.ImageGenerator, Matches, KeyIs, InRing, KeyImage, SignsFor, Part.Valid, OneOrder;
    forall i | 0 <= i < |parts|
      ensures var spend := Spends(intent.inputs, parts)[i]; Matches(spend) && KeyIs(spend) && InRing(c, spend)
    {
      SpendIsReady(c, intent.inputs[i], parts[i], included);
    }
  }

  lemma PartsValid(c: Curve, inputs: seq<Send.SpentInput>, parts: seq<Part>, included: seq<Participant>)
    requires c.Valid() && Grouped(c, inputs, parts, included)
    ensures |parts| == |inputs| && forall i :: 0 <= i < |parts| ==> parts[i].Valid(c, included) && parts[i].context.decoys.Valid()
  {
    hide Interpolates, Clsag.Input.KeyMatches, OneOrder, SignsFor;
  }

  // In the order of the transaction, everything is still as it was validated.
  lemma InTransactionOrder(c: Curve, intent: Send.Intent, parts: seq<Part>, included: seq<Participant>, drawn: Drawn, weight: nat,
                           necessaryFee: nat)
    requires c.Valid() && Grouped(c, intent.inputs, parts, included)
    requires intent.Acceptable(c) && intent.feeRate.Valid() && |intent.inputs| <= ADDRESSABLE && drawn.Fits(intent)
    requires IsNecessary(intent.feeRate, PlannedWeight(intent.Plan()), weight, necessaryFee)
    requires Send.Funded(intent.Amounts(), intent.payments, necessaryFee)
    ensures var ordered := Ordered(Imaged(c, Spends(intent.inputs, parts)));
            var sorted := InOrder(intent, ordered);
            && |ordered| == |parts| == |sorted.inputs| == |intent.inputs| > 0
            && |drawn.masks| == |sorted.payments|
            && sorted.Supported() && sorted.Plan().Valid() && 2 <= |sorted.payments| <= 16 && drawn.Fits(sorted)
            && IsNecessary(sorted.feeRate, PlannedWeight(sorted.Plan()), weight, necessaryFee)
            && Send.Funded(sorted.Amounts(), sorted.payments, necessaryFee)
            && Map(InputOf, ordered) == sorted.inputs
            && forall k :: 0 <= k < |ordered| ==> Ready(c, ordered[k]) && InRing(c, ordered[k].1)
  {
    hide Send.Funded, IsNecessary, PlannedWeight, Map, InRing, KeyIs, KeyImage, Matches, Ordered, Drawn.Fits,
         Send.Intent.Acceptable, Fee.Plan.Valid, Ready, Grouped;
    GroupIsReady(c, intent, parts, included);
    PartsValid(c, intent.inputs, parts, included);
    var spends := Spends(intent.inputs, parts);
    var entries := Imaged(c, spends);
    AllReady(c, intent, spends, entries);
    OrderedEntries(c, intent, entries);
    var sorted := InOrder(intent, Ordered(entries));
    InAnyOrder(intent, sorted, weight, necessaryFee);
    OrderedPlan(c, intent, sorted);
    FitsOrdered(c, intent, sorted, drawn);
    MasksFit(intent, drawn);
  }

  lemma MasksFit(intent: Send.Intent, drawn: Drawn)
    requires drawn.Fits(intent)
    ensures |drawn.masks| == |intent.payments|
  {
  }

  // What is sorted apart is what is signed.
  lemma SortedApart(c: Curve, intent: Send.Intent, parts: seq<Part>, included: seq<Participant>, images: seq<seq<byte>>)
    requires c.Valid() && Grouped(c, intent.inputs, parts, included) && |images| == |parts|
    requires forall i :: 0 <= i < |parts| ==>
               parts[i].context.decoys.Valid() && images[i] == c.Encode(parts[i].Input().KeyImage(c))
    ensures var ordered := Ordered(Imaged(c, Spends(intent.inputs, parts)));
            var txInputs, clsags := Sort(Keyed(images, intent.inputs)), Sort(Keyed(images, parts));
            && intent.(inputs := Map(Second, txInputs)) == InOrder(intent, ordered)
            && Map(First, clsags) == Map(ImageOf, ordered)
            && forall k :: 0 <= k < |parts| ==>
                 && clsags[k].1.Valid(c, included) && OneOrder(clsags[k].1.order, clsags[k].1.signers)
                 && ordered[k].1.1.Input() == clsags[k].1.Input()
  {
    hide Sort, Ordered, Curve.Encode, Clsag.Input.KeyImage, Part.Valid, OneOrder, SignsFor, Imaged, Grouped;
    PartsValid(c, intent.inputs, parts, included);
    Together(c, intent.inputs, parts, included, images);
    var ordered := Ordered(Imaged(c, Spends(intent.inputs, parts)));
    var txInputs, clsags := Sort(Keyed(images, intent.inputs)), Sort(Keyed(images, parts));
    assert Map(Second, txInputs) == Map(InputOf, ordered);
    assert Map(First, clsags) == Map(ImageOf, ordered);
  }

  // The signatures' pseudo-outs balance.
  lemma GroupBalances(c: Curve, intent: Send.Intent, ordered: seq<Entry>, inputs: seq<Clsag.Input>, masks: seq<Scalar>,
                      outputMasks: seq<Scalar>, signed: seq<(Clsag.Signature, Point)>, necessaryFee: nat, msg: seq<byte>)
    requires c.Valid() && Map(InputOf, ordered) == intent.inputs && |masks| == |signed| == |inputs| == |ordered|
    requires forall k :: 0 <= k < |ordered| ==>
               && Ready(c, ordered[k]) && inputs[k] == ordered[k].1.1.Input()
               && Clsag.Answered(c, inputs[k], masks[k], signed[k].0, signed[k].1, msg)
    requires Send.Funded(intent.Amounts(), intent.payments, necessaryFee)
    requires |outputMasks| == |intent.payments| && Sum(masks) == Sum(outputMasks)
    ensures Send.Balanced(c, Map(PseudoOut, signed),
                          Send.Commitments(c, outputMasks,
                                           Send.OutputAmounts(intent.Amounts(), intent.payments, intent.payments, necessaryFee)),
                          Send.FeePaid(intent.Amounts(), intent.payments, necessaryFee))
  {
    hide Send.Funded, Sum, Clsag.Answered, KeyIs, KeyImage, Send.Balanced, Send.OutputAmounts, Send.FeePaid, Send.Commitments,
         Clsag.PseudoOut;
    forall k | 0 <= k < |ordered|
      ensures inputs[k].context.commitment.amount == intent.Amounts()[k]
      ensures Map(PseudoOut, signed)[k] == Clsag.PseudoOuts(c, inputs, masks)[k]
    {
      assert Ready(c, ordered[k]) && InputOf(ordered[k]) == intent.inputs[k];
      Send.AnsweredOut(c, inputs[k], masks[k], signed[k].0, signed[k].1, msg);
    }
    assert Map(PseudoOut, signed) == Clsag.PseudoOuts(c, inputs, masks);
    Send.SignedBalance(c, inputs, intent.payments, necessaryFee, outputMasks, masks, intent.Amounts());
  }

  /**
  `sign` and `complete`, of what was validated with this weight and this necessary fee: the key images from the
  shares, both sorts by them, the masks, the message, and the signatures for it. The transaction is a signed one as
  a single signer's is; there is none only if it would not be accepted.
   */
  method Sign(c: Curve, keccak: Keccak, generators: Bulletproofs.AllGenerators, seeded: Seeded, intent: Send.Intent,
              parts: seq<Part>, included: seq<Participant>, drawn: Drawn, drawnMasks: seq<Scalar>, ghost weight: nat,
              ghost validatedFee: nat)
    returns (res: Option<Tx.Transaction>, masks: seq<Scalar>, ghost ordered: seq<Entry>, ghost made: Option<Parts>)
    requires c.Valid() && IsHash(keccak) && generators.Enough() && included != []
    requires intent.Acceptable(c) && intent.feeRate.Valid() && |intent.inputs| <= ADDRESSABLE
    requires IsNecessary(intent.feeRate, PlannedWeight(intent.Plan()), weight, validatedFee)
    requires Send.Funded(intent.Amounts(), intent.payments, validatedFee)
    requires Grouped(c, intent.inputs, parts, included)
    requires drawn.Fits(intent) && |drawnMasks| == |parts|
    ensures |masks| == |ordered| == |parts| && ordered == Ordered(Imaged(c, Spends(intent.inputs, parts)))
    ensures Sum(masks) == Sum(drawn.masks) && forall i :: 0 <= i < |masks| - 1 ==> masks[i] == drawnMasks[i]
    ensures res.Some? <==> forall k :: 0 <= k < |ordered| ==> Accepted(c, ordered[k], masks[k])
    ensures res.Some? ==>
              && made.Some? && made.value.pseudoMasks == masks
              && Signed(c, keccak, generators, InOrder(intent, ordered), Map(ImageOf, ordered), drawn, weight, validatedFee,
                        res.value, made.value)
  {
    hide ProvedWith, Openings, Sort, Ordered, Map, Sum, Signed, Grouped, Spends, Imaged, Curve.Encode, Part.Valid, OneOrder,
         Ready, InRing, SignedBy, Send.Intent.Acceptable, Send.Funded, IsNecessary, PlannedWeight, Fee.Plan.Valid, Drawn.Fits,
         Assemble, Bulletproofs.Valid, Bulletproofs.CompressAll, Send.Commitments, Send.OutputAmounts, Send.FeePaid,
         Send.Balanced, Clsag.Answered, Clsag.ExpectedFor, Clsag.Input.KeyImage, Clsag.Input.KeyMatches,
         TransactionHashes.SignatureHash, Accepted;
    made := None;
    PartsValid(c, intent.inputs, parts, included);
    var images := SendMultisig.KeyImages(c, parts, included);
    var txInputs, clsags := Sort(Keyed(images, intent.inputs)), Sort(Keyed(images, parts));
    ordered := Ordered(Imaged(c, Spends(intent.inputs, parts)));
    InTransactionOrder(c, intent, parts, included, drawn, weight, validatedFee);
    SortedApart(c, intent, parts, included, images);
    var sorted := intent.(inputs := Map(Second, txInputs));
    masks := PseudoOutMasks(drawnMasks, Sum(drawn.masks));
    var necessaryFee, fee, commitments, proof := Prepare(c, generators, sorted, weight, validatedFee, drawn);
    var plan := sorted.Plan();
    var txImages := Map(First, clsags);
    MessageOf(c, keccak, plan, txImages, drawn.outputs, fee, commitments, proof, []);
    var unsigned := Assemble(c, plan, txImages, drawn.outputs, fee, commitments, proof, []);
    var msg := TransactionHashes.SignatureHash(keccak, unsigned).value;
    var signatures := SignEach(c, seeded, clsags, included, masks, msg);
    forall k | 0 <= k < |clsags|
      ensures signatures[k].Some? <==> Accepted(c, ordered[k], masks[k])
      ensures signatures[k].Some? ==>
                && Clsag.Answered(c, ordered[k].1.1.Input(), masks[k], signatures[k].value.0, signatures[k].value.1, msg)
                && |signatures[k].value.0.D| == 32
                && |signatures[k].value.0.s| == |ordered[k].1.1.Input().context.decoys.ring|
    {
      SignedByIs(c, clsags[k].1, masks[k], signatures[k], msg, ordered[k]);
    }
    var signed := Complete(signatures);
    if signed.None? {
      res := None;
      return;
    }
    res := Some(Assemble(c, plan, txImages, drawn.outputs, fee, commitments, proof, signed.value));
    ghost var inputs := seq(|ordered|, k requires 0 <= k < |ordered| => ordered[k].1.1.Input());
    GroupBalances(c, sorted, ordered, inputs, masks, drawn.masks, signed.value, necessaryFee, msg);
    made := Some(Parts(inputs, masks, commitments, proof, signed.value));
    SignedIs(c, keccak, generators, sorted, ordered, drawn, weight, validatedFee, made.value, msg);
  }

  lemma SignedByIs(c: Curve, part: Part, mask: Scalar, signature: Option<(Clsag.Signature, Point)>, msg: seq<byte>, e: Entry)
    requires c.Valid() && part.context.decoys.Valid() && SignedBy(c, part, mask, signature, msg)
    requires e.1.1.Input() == part.Input()
    ensures signature.Some? <==> Accepted(c, e, mask)
    ensures signature.Some? ==>
              && Clsag.Answered(c, e.1.1.Input(), mask, signature.value.0, signature.value.1, msg)
              && |signature.value.0.D| == 32 && |signature.value.0.s| == |e.1.1.Input().context.decoys.ring|
  {
    hide Clsag.Answered, Clsag.ExpectedFor;
  }
}
