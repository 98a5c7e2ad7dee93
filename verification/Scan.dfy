/** wallet/src/scan.rs: the outputs received in a block. */
module Scan {
  import opened Wrappers
  import opened Ed25519
  import opened WalletKeys
  import VarInt
  import Tx = Transactions
  import Extra

  datatype ScanError = InvalidScannableBlock | UnsupportedProtocol(hardforkVersion: nat)

  /** A transaction under its hash. What can be pruned of it is not looked at. */
  datatype Transaction = Transaction(hash: seq<byte>, content: Tx.Transaction) {
    function Outputs(): seq<Tx.Output> {
      content.prefix.outputs
    }

    function Proofs(): Option<Tx.RctProofs> {
      if content.body.Proofs? then content.body.proofs else None
    }

    function Uniqueness(keccak: Keccak): seq<byte> {
      UniquenessOf(keccak, content.prefix.inputs)
    }

    function Fields(): seq<Extra.ExtraField> {
      Extra.ReadAll(content.prefix.extra)
    }

    function Keys(c: Curve): Option<(seq<Point>, Option<seq<Point>>)> {
      Extra.KeysIn(c, Fields())
    }

    /** It has RingCT outputs, and keys to scan them with. */
    predicate Scanned(c: Curve) {
      content.Version() == 2 && Keys(c).Some?
    }

    /** The keys tried for an output, in their order: the transaction's, and the output's own. */
    function KeysFor(c: Curve, o: nat): seq<Point>
      requires Scanned(c)
    {
      var (txKeys, additional) := Keys(c).value;
      txKeys + (if additional.Some? && o < |additional.value| then [additional.value[o]] else [])
    }

    /** The payment ID, decrypted by a mask if it is encrypted. */
    function PaymentId(mask: Bytes8): Option<Extra.PaymentId> {
      match Extra.PaymentIdIn(Fields())
      case Some(Encrypted(id)) => Some(Extra.Encrypted(Masked(id, mask)))
      case id => id
    }

    function MetadataOf(received: Received): Metadata {
      Metadata(content.prefix.additionalTimelock, received.subaddress, PaymentId(received.paymentIdXor),
               Extra.ArbitraryDataIn(Fields()))
    }

    /** What there is to see of an output, if its key decodes and is not the identity. */
    function SeenAt(c: Curve, o: nat): Option<Seen>
      requires c.Valid() && o < |Outputs()|
    {
      var output, proofs := Outputs()[o], Proofs();
      if output.key == c.Encode(0) || c.decompress(output.key).None? then None
      else
        Some(Seen(c.decompress(output.key).value, output.viewTag, output.amount,
                  if proofs.Some? && o < |proofs.value.base.encryptedAmounts|
                  then Some(proofs.value.base.encryptedAmounts[o])
                  else None,
                  if proofs.Some? && o < |proofs.value.base.commitments| then Some(proofs.value.base.commitments[o]) else None))
    }
  }

  // "uniqueness"
  const UNIQUENESS: seq<byte> := [117, 110, 105, 113, 117, 101, 110, 101, 115, 115]

  function UniquenessOf(keccak: Keccak, inputs: seq<Tx.Input>): seq<byte> {
    keccak(UNIQUENESS + Identity(inputs))
  }

  /** What only one transaction can have: the height of its block, or the key images of its inputs. */
  function Identity(inputs: seq<Tx.Input>): seq<byte> {
    if inputs == [] then []
    else
      (match inputs[0]
       case Gen(height) => VarInt.Encoding(height)
       case ToKey(_, _, keyImage) => keyImage) + Identity(inputs[1..])
  }

  datatype Metadata = Metadata(additionalTimelock: Tx.Timelock, subaddress: Option<SubaddressIndex>,
                               paymentId: Option<Extra.PaymentId>, arbitraryData: seq<seq<byte>>)

  datatype WalletOutput = WalletOutput(transaction: seq<byte>, indexInTransaction: nat, indexOnBlockchain: nat, key: Point,
                                       keyOffset: Scalar, commitment: Commitment, metadata: Metadata)

  /** An output as it is reported. */
  function Reported(first: nat, tx: Transaction, o: nat, key: Point, received: Received): WalletOutput {
    WalletOutput(tx.hash, o, first + o, key, received.keyOffset, received.commitment, tx.MetadataOf(received))
  }

  // ---------------------------------------------------------------------------------------------
  // One output.

  /** What comes of trying a key for the output at a position of a transaction. */
  type Opener = (Transaction, Point, nat, Seen) -> Attempt

  /** What comes of it for a scanner. */
  function Opening(c: Curve, keccak: Keccak, scanner: InternalScanner): Opener
    requires c.Valid() && IsHash(keccak)
    reads scanner
  {
    var pair, guaranteed, subaddresses := scanner.pair, scanner.guaranteed, scanner.subaddresses;
    (tx: Transaction, key: Point, o: nat, seen: Seen) =>
      TryKey(c, keccak, pair, guaranteed, subaddresses, tx.Uniqueness(keccak), key, o, seen)
  }

  lemma OpeningIs(c: Curve, keccak: Keccak, scanner: InternalScanner, tx: Transaction, key: Point, o: nat, seen: Seen)
    requires c.Valid() && IsHash(keccak)
    ensures Opening(c, keccak, scanner)(tx, key, o, seen) == scanner.Try(c, keccak, tx.Uniqueness(keccak), key, o, seen)
  {
    hide TryKey;
  }

  /** What comes of trying keys until one is not passed over. */
  function FirstOf(open: Opener, tx: Transaction, o: nat, seen: Seen, keys: seq<Point>): Attempt {
    if keys == [] then Passed
    else
      var first := open(tx, keys[0], o, seen);
      if first.Passed? then FirstOf(open, tx, o, seen, keys[1..]) else first
  }

  function Outcome(c: Curve, open: Opener, tx: Transaction, o: nat): Attempt
    requires c.Valid() && o < |tx.Outputs()| && tx.Scanned(c)
  {
    match tx.SeenAt(c, o)
    case None => Passed
    case Some(seen) => FirstOf(open, tx, o, seen, tx.KeysFor(c, o))
  }

  method ScanOutput(c: Curve, keccak: Keccak, scanner: InternalScanner, tx: Transaction, o: nat) returns (res: Attempt)
    requires c.Valid() && IsHash(keccak) && o < |tx.Outputs()| && tx.Scanned(c)
    ensures res == Outcome(c, Opening(c, keccak, scanner), tx, o)
  {
    hide InternalScanner.Try, Opening, Transaction.SeenAt, Transaction.KeysFor, Transaction.Keys;
    ghost var open := Opening(c, keccak, scanner);
    var seen := tx.SeenAt(c, o);
    if seen.None? {
      return Passed;
    }
    var keys := tx.KeysFor(c, o);
    for i := 0 to |keys|
      invariant FirstOf(open, tx, o, seen.value, keys) ==
                FirstOf(open, tx, o, seen.value, keys[i..])
    {
      OpeningIs(c, keccak, scanner, tx, keys[i], o, seen.value);
      assert keys[i..][1..] == keys[i + 1..];
      res := scanner.Try(c, keccak, tx.Uniqueness(keccak), keys[i], o, seen.value);
      if !res.Passed? {
        return;
      }
    }
    res := Passed;
  }

  /** The output found at a position, if one is. */
  function OutputAt(c: Curve, open: Opener, first: nat, tx: Transaction, o: nat): Option<WalletOutput>
    requires c.Valid() && o < |tx.Outputs()|
  {
    if !tx.Scanned(c) || !Outcome(c, open, tx, o).Found? || tx.SeenAt(c, o).None? then None
    else
      var received := Outcome(c, open, tx, o).received;
      Some(Reported(first, tx, o, tx.SeenAt(c, o).value.key, received))
  }

  /** None of the outputs found misses what it needs. */
  ghost predicate Sound(c: Curve, open: Opener, tx: Transaction)
    requires c.Valid()
  {
    tx.Scanned(c) ==> forall o :: 0 <= o < |tx.Outputs()| ==> !Outcome(c, open, tx, o).Invalid?
  }

  // ---------------------------------------------------------------------------------------------
  // One transaction.

  /** The outputs found among the first `n`. */
  function OutputsOf(c: Curve, open: Opener, first: nat, tx: Transaction, n: nat): seq<WalletOutput>
    requires c.Valid() && n <= |tx.Outputs()|
  {
    if n == 0 then []
    else
      OutputsOf(c, open, first, tx, n - 1) +
      match OutputAt(c, open, first, tx, n - 1)
      case None => []
      case Some(output) => [output]
  }

  method ScanTransaction(c: Curve, keccak: Keccak, scanner: InternalScanner, first: nat, tx: Transaction)
    returns (res: Result<seq<WalletOutput>, ScanError>)
    requires c.Valid() && IsHash(keccak) && first <= U64_MAX
    ensures var open := Opening(c, keccak, scanner);
            res.Ok? ==> Sound(c, open, tx) && res.value == OutputsOf(c, open, first, tx, |tx.Outputs()|)
    ensures !tx.Scanned(c) || (Sound(c, Opening(c, keccak, scanner), tx) && first + |tx.Outputs()| <= U64_MAX) ==> res.Ok?
    ensures res.Err? ==> res.error == InvalidScannableBlock
  {
    hide Opening, Outcome, OutputsOf, OutputAt, Transaction.MetadataOf, Transaction.Keys, Transaction.SeenAt,
         Transaction.Scanned, Extra.KeysIn, Extra.ReadAll, Curve.Valid, IsHash;
    ghost var open := Opening(c, keccak, scanner);
    var fields := Extra.ReadExtra(tx.content.prefix.extra);
    var keys := Extra.Keys(c, fields);
    ScannedIs(c, tx);
    if tx.content.Version() != 2 || keys.None? {
      NoneFound(c, open, first, tx, |tx.Outputs()|);
      return Ok([]);
    }
    var found: seq<WalletOutput> := [];
    NoOutputs(c, open, first, tx);
    for o := 0 to |tx.Outputs()|
      invariant found == OutputsOf(c, open, first, tx, o)
      invariant forall k :: 0 <= k < o ==> !Outcome(c, open, tx, k).Invalid?
    {
      OneMoreOutput(c, open, first, tx, o);
      var attempt := ScanOutput(c, keccak, scanner, tx, o);
      if attempt.Invalid? {
        return Err(InvalidScannableBlock);
      }
      if attempt.Found? {
        if first + o > U64_MAX {
          return Err(InvalidScannableBlock);
        }
        var received := attempt.received;
        found := found + [Reported(first, tx, o, tx.SeenAt(c, o).value.key, received)];
      }
    }
    res := Ok(found);
  }

  lemma ScannedIs(c: Curve, tx: Transaction)
    ensures tx.Scanned(c) <==> tx.content.Version() == 2 && Extra.KeysIn(c, Extra.ReadAll(tx.content.prefix.extra)).Some?
  {
  }

  lemma NoOutputs(c: Curve, open: Opener, first: nat, tx: Transaction)
    requires c.Valid()
    ensures OutputsOf(c, open, first, tx, 0) == []
  {
  }

  lemma OneMoreOutput(c: Curve, open: Opener, first: nat, tx: Transaction, o: nat)
    requires c.Valid() && o < |tx.Outputs()| && tx.Scanned(c)
    ensures var outcome := Outcome(c, open, tx, o);
            var before := OutputsOf(c, open, first, tx, o);
            && (outcome.Found? ==>
                  && tx.SeenAt(c, o).Some?
                  && OutputsOf(c, open, first, tx, o + 1) ==
                     before + [Reported(first, tx, o, tx.SeenAt(c, o).value.key, outcome.received)])
            && (!outcome.Found? ==> OutputsOf(c, open, first, tx, o + 1) == before)
  {
    hide Outcome, Transaction.MetadataOf, Transaction.SeenAt;
    if Outcome(c, open, tx, o).Found? {
      FoundIsSeen(c, open, tx, o);
    }
  }

  lemma FoundIsSeen(c: Curve, open: Opener, tx: Transaction, o: nat)
    requires c.Valid() && o < |tx.Outputs()| && tx.Scanned(c)
    requires Outcome(c, open, tx, o).Found?
    ensures tx.SeenAt(c, o).Some?
  {
    hide Transaction.SeenAt;
  }

  lemma {:induction false} NoneFound(c: Curve, open: Opener, first: nat, tx: Transaction, n: nat)
    requires c.Valid() && n <= |tx.Outputs()| && !tx.Scanned(c)
    ensures OutputsOf(c, open, first, tx, n) == []
  {
    if n > 0 {
      NoneFound(c, open, first, tx, n - 1);
    }
  }

  /** Indexes on the blockchain which grow, from `from` and below `to`. */
  ghost predicate Ascending(outputs: seq<WalletOutput>, from: nat, to: nat) {
    && (forall i :: 0 <= i < |outputs| ==> from <= outputs[i].indexOnBlockchain < to)
    && (forall i, j :: 0 <= i < j < |outputs| ==> outputs[i].indexOnBlockchain < outputs[j].indexOnBlockchain)
  }

  lemma AscendingConcat(a: seq<WalletOutput>, b: seq<WalletOutput>, from: nat, middle: nat, to: nat)
    requires from <= middle <= to && Ascending(a, from, middle) && Ascending(b, middle, to)
    ensures Ascending(a + b, from, to)
  {
  }

  lemma {:induction false} OutputsAscend(c: Curve, open: Opener, first: nat, tx: Transaction, n: nat)
    requires c.Valid() && n <= |tx.Outputs()|
    ensures Ascending(OutputsOf(c, open, first, tx, n), first, first + n)
  {
    hide OutputAt, Transaction.SeenAt, Transaction.MetadataOf, Curve.Valid;
    if n > 0 {
      OutputsAscend(c, open, first, tx, n - 1);
      IndexedAt(c, open, first, tx, n - 1);
    }
  }

  lemma IndexedAt(c: Curve, open: Opener, first: nat, tx: Transaction, o: nat)
    requires c.Valid() && o < |tx.Outputs()|
    ensures var output := OutputAt(c, open, first, tx, o);
            output.Some? ==> output.value.indexOnBlockchain == first + o
  {
    hide Outcome, Transaction.SeenAt, Transaction.MetadataOf;
  }

  /** It is what is found at one of the first `n` positions. */
  ghost predicate IsFound(c: Curve, open: Opener, first: nat, tx: Transaction, n: nat,
                          output: WalletOutput)
    requires c.Valid() && n <= |tx.Outputs()|
  {
    exists o :: 0 <= o < n && OutputAt(c, open, first, tx, o) == Some(output)
  }

  lemma {:induction false} OutputsAre(c: Curve, open: Opener, first: nat, tx: Transaction, n: nat,
                                      output: WalletOutput)
    requires c.Valid() && n <= |tx.Outputs()|
    ensures output in OutputsOf(c, open, first, tx, n) <==> IsFound(c, open, first, tx, n, output)
  {
    hide OutputAt;
    if n > 0 {
      OutputsAre(c, open, first, tx, n - 1, output);
    }
  }

  // ---------------------------------------------------------------------------------------------
  // A block.

  datatype Block = Block(hardforkVersion: nat, expected: nat, miner: Transaction, transactions: seq<Transaction>,
                         outputIndex: Option<nat>)
  {
    function All(): seq<Transaction> {
      [miner] + transactions
    }
  }

  /** The RingCT outputs of some transactions. */
  function Created(txs: seq<Transaction>): nat {
    if txs == [] then 0
    else Created(txs[..|txs| - 1]) + (if txs[|txs| - 1].content.Version() == 2 then |txs[|txs| - 1].Outputs()| else 0)
  }

  /** The outputs found in the first `n` transactions. */
  function OutputsIn(c: Curve, open: Opener, first: nat, txs: seq<Transaction>, n: nat)
    : seq<WalletOutput>
    requires c.Valid() && n <= |txs|
  {
    if n == 0 then []
    else
      OutputsIn(c, open, first, txs, n - 1) +
      OutputsOf(c, open, first + Created(txs[..n - 1]), txs[n - 1], |txs[n - 1].Outputs()|)
  }

  /** From the twelfth hard fork on, payment IDs which are not encrypted are dropped. */
  function Kept(hardforkVersion: nat, output: WalletOutput): WalletOutput {
    if hardforkVersion >= 12 && output.metadata.paymentId.Some? && output.metadata.paymentId.value.Unencrypted?
    then output.(metadata := output.metadata.(paymentId := None))
    else output
  }

  /** The output but for its payment ID, which is missing if it is one which is not encrypted. */
  ghost predicate IsKept(hardforkVersion: nat, output: WalletOutput, kept: WalletOutput) {
    var id := output.metadata.paymentId;
    && kept == output.(metadata := output.metadata.(paymentId := kept.metadata.paymentId))
    && kept.metadata.paymentId == if hardforkVersion >= 12 && id.Some? && id.value.Unencrypted? then None else id
  }

  method Scan(c: Curve, keccak: Keccak, scanner: InternalScanner, block: Block)
    returns (res: Result<seq<WalletOutput>, ScanError>)
    requires c.Valid() && IsHash(keccak)
    requires block.outputIndex.Some? ==> block.outputIndex.value <= U64_MAX
    ensures res.Ok? <==>
            && |block.transactions| == block.expected
            && (block.outputIndex.Some? ==>
                  && block.hardforkVersion <= 16
                  && block.outputIndex.value + Created(block.All()) <= U64_MAX
                  && forall t :: 0 <= t < |block.All()| ==> Sound(c, Opening(c, keccak, scanner), block.All()[t]))
    ensures res.Ok? && block.outputIndex.None? ==> res.value == []
    ensures res.Ok? && block.outputIndex.Some? ==>
              var outputs := OutputsIn(c, Opening(c, keccak, scanner), block.outputIndex.value, block.All(), |block.All()|);
              && |res.value| == |outputs|
              && forall i :: 0 <= i < |outputs| ==> IsKept(block.hardforkVersion, outputs[i], res.value[i])
    ensures res == Err(UnsupportedProtocol(block.hardforkVersion)) <==>
            |block.transactions| == block.expected && block.outputIndex.Some? && block.hardforkVersion > 16
  {
    hide Opening, OutputsOf, OutputsIn, Sound, Created, Kept, IsKept, Curve.Valid, IsHash, Transaction.Scanned;
    if |block.transactions| != block.expected {
      return Err(InvalidScannableBlock);
    }
    if block.outputIndex.None? {
      return Ok([]);
    }
    var first := block.outputIndex.value;
    if block.hardforkVersion > 16 {
      return Err(UnsupportedProtocol(block.hardforkVersion));
    }
    ghost var open := Opening(c, keccak, scanner);
    var txs := block.All();
    var outputs: seq<WalletOutput> := [];
    var next := first;
    NoneCreated();
    OutputsInNone(c, open, first, txs);
    for t := 0 to |txs|
      invariant next == first + Created(txs[..t]) <= U64_MAX
      invariant outputs == OutputsIn(c, open, first, txs, t)
      invariant forall k :: 0 <= k < t ==> Sound(c, open, txs[k])
    {
      CreatedGrows(txs, t);
      OutputsInStep(c, open, first, txs, t);
      var found := ScanTransaction(c, keccak, scanner, next, txs[t]);
      if found.Err? {
        if txs[t].content.Version() != 2 { NotScanned(c, txs[t]); }
        return Err(found.error);
      }
      outputs := outputs + found.value;
      if txs[t].content.Version() == 2 {
        if next + |txs[t].Outputs()| > U64_MAX {
          return Err(InvalidScannableBlock);
        }
        next := next + |txs[t].Outputs()|;
      }
    }
    assert txs[..|txs|] == txs;
    KeptIs(block.hardforkVersion, outputs);
    var kept: seq<WalletOutput> := [];
    for i := 0 to |outputs|
      invariant |kept| == i && forall k :: 0 <= k < i ==> kept[k] == Kept(block.hardforkVersion, outputs[k])
    {
      kept := kept + [Kept(block.hardforkVersion, outputs[i])];
    }
    res := Ok(kept);
  }

  lemma KeptIs(hardforkVersion: nat, outputs: seq<WalletOutput>)
    ensures forall i :: 0 <= i < |outputs| ==> IsKept(hardforkVersion, outputs[i], Kept(hardforkVersion, outputs[i]))
  {
  }

  lemma OutputsInNone(c: Curve, open: Opener, first: nat, txs: seq<Transaction>)
    requires c.Valid()
    ensures OutputsIn(c, open, first, txs, 0) == []
  {
  }

  lemma OutputsInStep(c: Curve, open: Opener, first: nat, txs: seq<Transaction>, t: nat)
    requires c.Valid() && t < |txs|
    ensures OutputsIn(c, open, first, txs, t + 1) ==
            OutputsIn(c, open, first, txs, t) +
            OutputsOf(c, open, first + Created(txs[..t]), txs[t], |txs[t].Outputs()|)
  {
    hide OutputsOf, Created, Curve.Valid;
  }

  lemma NoneCreated()
    ensures Created([]) == 0
  {
  }

  lemma CreatedGrows(txs: seq<Transaction>, t: nat)
    requires t < |txs|
    ensures Created(txs[..t + 1]) == Created(txs[..t]) + (if txs[t].content.Version() == 2 then |txs[t].Outputs()| else 0)
    ensures Created(txs[..t + 1]) <= Created(txs)
  {
    assert txs[..t + 1][..t] == txs[..t];
    CreatedBound(txs, t + 1);
  }

  lemma {:induction false} CreatedBound(txs: seq<Transaction>, n: nat)
    requires n <= |txs|
    ensures Created(txs[..n]) <= Created(txs)
  {
    if n == |txs| {
      assert txs[..n] == txs;
    } else {
      var fewer := txs[..|txs| - 1];
      CreatedBound(fewer, n);
      assert fewer[..n] == txs[..n];
    }
  }

  // Every output of the block is reported at most once, in the order of the blockchain, and within the
  // indexes which are the block's.
  lemma {:induction false} BlockAscends(c: Curve, open: Opener, first: nat, txs: seq<Transaction>,
                                        n: nat)
    requires c.Valid() && n <= |txs|
    ensures Ascending(OutputsIn(c, open, first, txs, n), first, first + Created(txs[..n]))
  {
    hide OutputsOf, OutputsIn, Created, Ascending, Curve.Valid, Transaction.Scanned, Transaction.Outputs;
    if n == 0 {
      NoneCreated();
      NoneAscend(first);
      OutputsInNone(c, open, first, txs);
    } else {
      OutputsInStep(c, open, first, txs, n - 1);
      BlockAscends(c, open, first, txs, n - 1);
      var tx := txs[n - 1];
      var next := first + Created(txs[..n - 1]);
      CreatedGrows(txs, n - 1);
      if tx.content.Version() == 2 {
        OutputsAscend(c, open, next, tx, |tx.Outputs()|);
      } else {
        NotScanned(c, tx);
        NoneFound(c, open, next, tx, |tx.Outputs()|);
        NoneAscend(next);
      }
      AscendingConcat(OutputsIn(c, open, first, txs, n - 1), OutputsOf(c, open, next, tx, |tx.Outputs()|),
                      first, next, first + Created(txs[..n]));
    }
  }

  lemma NotScanned(c: Curve, tx: Transaction)
    requires tx.content.Version() != 2
    ensures !tx.Scanned(c)
  {
  }

  lemma NoneAscend(first: nat)
    ensures Ascending([], first, first)
  {
  }

  // What is reported is what is found in some transaction, at an index which counts the RingCT outputs
  // before it.
  lemma {:induction false} BlockOutputsAre(c: Curve, open: Opener, first: nat,
                                           txs: seq<Transaction>, n: nat, output: WalletOutput)
    requires c.Valid() && n <= |txs|
    ensures output in OutputsIn(c, open, first, txs, n) <==>
            exists t :: 0 <= t < n &&
                        IsFound(c, open, first + Created(txs[..t]), txs[t], |txs[t].Outputs()|, output)
  {
    hide IsFound, OutputsOf, Created;
    if n > 0 {
      BlockOutputsAre(c, open, first, txs, n - 1, output);
      OutputsAre(c, open, first + Created(txs[..n - 1]), txs[n - 1], |txs[n - 1].Outputs()|, output);
    }
  }

  // What is found at a position is reported.
  lemma FoundIsReported(c: Curve, open: Opener, first: nat, txs: seq<Transaction>, t: nat, o: nat)
    requires c.Valid() && t < |txs| && o < |txs[t].Outputs()|
    requires OutputAt(c, open, first + Created(txs[..t]), txs[t], o).Some?
    ensures OutputAt(c, open, first + Created(txs[..t]), txs[t], o).value in OutputsIn(c, open, first, txs, |txs|)
  {
    hide OutputAt, Created, OutputsIn, Curve.Valid;
    var at := first + Created(txs[..t]);
    var output := OutputAt(c, open, at, txs[t], o).value;
    assert IsFound(c, open, at, txs[t], |txs[t].Outputs()|, output);
    BlockOutputsAre(c, open, first, txs, |txs|, output);
  }

  // ---------------------------------------------------------------------------------------------
  // From the sender to the receiver.

  /** An output of the sender's, as it is in the transaction. */
  ghost predicate Carries(c: Curve, tx: Transaction, o: nat, sent: SentOutput)
    requires c.Valid()
  {
    && o < |tx.Outputs()| && tx.Proofs().Some?
    && var base := tx.Proofs().value.base;
    && o < |base.encryptedAmounts| && o < |base.commitments|
    && tx.Outputs()[o].key == c.Encode(8 * sent.key) && tx.Outputs()[o].amount.None?
    && (tx.Outputs()[o].viewTag.Some? ==> tx.Outputs()[o].viewTag.value == sent.viewTag)
    && base.encryptedAmounts[o] == Tx.CompactAmount(sent.encryptedAmount)
    && base.commitments[o] == c.Encode(8 * sent.commitment)
  }

  /** The sender's keys as they are encoded, the transaction's own and those of the outputs if there are any. */
  function EncodedKeys(c: Curve, s: Sender): (seq<byte>, seq<seq<byte>>)
    requires c.Valid() && s.Valid()
  {
    (c.Encode(8 * s.TxKeyPub(c)),
     if s.ShouldUseAdditionalKeys()
     then seq(|s.payments|, o requires 0 <= o < |s.payments| => c.Encode(8 * s.AdditionalKeyPub(c, o)))
     else [])
  }

  /** The extra is what the sender writes, with these nonces. */
  ghost predicate KeyedBy(c: Curve, tx: Transaction, s: Sender, paymentId: Option<Extra.PaymentId>, data: seq<seq<byte>>)
    requires c.Valid() && s.Valid()
  {
    && tx.content.Version() == 2 && (paymentId.Some? ==> paymentId.value.Valid())
    && (forall i :: 0 <= i < |data| ==> |data[i]| <= Extra.MAX_ARBITRARY_DATA_SIZE) && |s.payments| <= U64_MAX
    && var (key, additional) := EncodedKeys(c, s);
       tx.content.prefix.extra == Extra.WriteAll(Extra.Sorted(Extra.SenderExtra(key, additional, Extra.SenderNonces(paymentId, data))))
  }

  // The receiver reads the sender's keys from the extra, as the points they are.
  lemma KeysAreRead(c: Curve, tx: Transaction, s: Sender, paymentId: Option<Extra.PaymentId>, data: seq<seq<byte>>, o: nat)
    requires c.Valid() && s.Valid() && KeyedBy(c, tx, s, paymentId, data) && o < |s.payments|
    ensures tx.Scanned(c)
    ensures |tx.KeysFor(c, o)| == if s.ShouldUseAdditionalKeys() then 2 else 1
    ensures EqPoint(tx.KeysFor(c, o)[0], 8 * s.TxKeyPub(c))
    ensures s.ShouldUseAdditionalKeys() ==> EqPoint(tx.KeysFor(c, o)[1], 8 * s.AdditionalKeyPub(c, o))
    ensures Extra.PaymentIdIn(tx.Fields()) == paymentId
    ensures Extra.ArbitraryDataIn(tx.Fields()) == data <==>
            data == [] || |tx.content.prefix.extra| <= Extra.MAX_EXTRA_SIZE_BY_RELAY_RULE
  {
    hide EqPoint, Sender.TxKeyPub, Sender.AdditionalKeyPub, Extra.TransactionKeys, Extra.AdditionalKeys, Extra.SenderExtra,
         Extra.ReadAll, Extra.WriteAll, Extra.Sorted, Extra.PaymentIdIn, Extra.SenderNonces, Extra.ArbitraryDataIn;
    var (key, additional) := EncodedKeys(c, s);
    Extra.SenderExtraUnderstood(key, additional, paymentId, data);
    ReducedPoint(8 * s.TxKeyPub(c));
    if s.ShouldUseAdditionalKeys() {
      ReducedPoint(8 * s.AdditionalKeyPub(c, o));
    }
  }

  lemma OutputIsSeen(c: Curve, tx: Transaction, o: nat, sent: SentOutput)
    requires c.Valid() && Carries(c, tx, o, sent) && !Eq(sent.key, 0)
    ensures o < |tx.Outputs()| && tx.SeenAt(c, o).Some? && Shows(c, tx.SeenAt(c, o).value, sent)
  {
    hide EqPoint, Eq;
    ReducedPoint(8 * sent.key);
    SameEncoding(c, 8 * sent.key, 8 * 0);
    EqPointOfEight(sent.key, 0);
  }

  // What is seen of an output sent is never invalid.
  lemma SeenIsValid(c: Curve, keccak: Keccak, scanner: InternalScanner, tx: Transaction, o: nat, seen: Seen, sent: SentOutput,
                    key: Point)
    requires c.Valid() && IsHash(keccak) && Shows(c, seen, sent)
    ensures !scanner.Try(c, keccak, tx.Uniqueness(keccak), key, o, seen).Invalid?
  {
    hide EqPoint, Curve.Encode, Decrypt, PaymentIdXor, OutputDerivations, Transaction.Uniqueness,
         ViewPair.SubaddressDerivation, Commitment.Commit;
  }

  lemma {:induction false} FirstOfFinds(open: Opener, tx: Transaction, o: nat, seen: Seen, keys: seq<Point>, key: Point)
    returns (k: nat)
    requires forall i :: 0 <= i < |keys| ==> !open(tx, keys[i], o, seen).Invalid?
    requires key in keys && open(tx, key, o, seen).Found?
    ensures FirstOf(open, tx, o, seen, keys).Found?
    ensures k < |keys| && open(tx, keys[k], o, seen) == FirstOf(open, tx, o, seen, keys)
  {
    k := 0;
    if open(tx, keys[0], o, seen).Passed? {
      var later := FirstOfFinds(open, tx, o, seen, keys[1..], key);
      k := later + 1;
    }
  }

  // The first key decides if it opens the output, and else the second one.
  lemma FirstIs(open: Opener, tx: Transaction, o: nat, seen: Seen, keys: seq<Point>, key: Point)
    requires keys != [] && open(tx, key, o, seen).Found?
    requires keys[0] == key || (|keys| > 1 && keys[1] == key && open(tx, keys[0], o, seen).Passed?)
    ensures FirstOf(open, tx, o, seen, keys) == open(tx, key, o, seen)
  {
    if keys[0] != key {
      assert keys[1..][0] == key;
    }
  }

  /**
  The hash of what the transaction's key makes with the view key is not just so far from the hash of the shared
  secret that the output would seem to be for a spend key which is looked for.
   */
  ghost predicate NoCollision(c: Curve, keccak: Keccak, scanner: InternalScanner, s: Sender, uniqueness: seq<byte>, o: nat)
    requires c.Valid() && IsHash(keccak) && s.Valid() && o < |s.payments|
    reads scanner
  {
    var uniquely := if scanner.guaranteed then Some(uniqueness) else None;
    var secret := OutputDerivations(c, keccak, uniquely, 8 * s.Ecdh(c, o), o).sharedKey;
    var other := OutputDerivations(c, keccak, uniquely, 8 * (scanner.pair.view * s.TxKeyPub(c)), o).sharedKey;
    forall index :: scanner.Has(c, index) ==>
      !Eq(other + scanner.pair.SpendOf(c, index), secret + s.payments[o].Address(c).spend)
  }

  /** The shared secret is of the transaction's key, or that key, which is tried first, is not mistaken for it. */
  ghost predicate SecretIsTried(c: Curve, keccak: Keccak, scanner: InternalScanner, s: Sender, uniqueness: seq<byte>, o: nat)
    requires c.Valid() && IsHash(keccak) && s.Valid() && o < |s.payments|
    reads scanner
  {
    s.Ecdh(c, o) == scanner.pair.view * s.TxKeyPub(c) || NoCollision(c, keccak, scanner, s, uniqueness, o)
  }

  // Without a collision, a key whose secret it is not is passed over.
  lemma PassedOver(c: Curve, keccak: Keccak, scanner: InternalScanner, s: Sender, uniqueness: seq<byte>, o: nat, amount: u64,
                   seen: Seen, key: Point)
    requires c.Valid() && IsHash(keccak) && s.Valid() && o < |s.payments| && scanner.Valid(c)
    requires s.payments[o].Address(c).guaranteed == scanner.guaranteed
    requires Shows(c, seen, Send(c, keccak, s, uniqueness, o, amount)) && EqPoint(key, 8 * s.TxKeyPub(c))
    requires NoCollision(c, keccak, scanner, s, uniqueness, o)
    ensures scanner.Try(c, keccak, uniqueness, key, o, seen).Passed?
  {
    hide EqPoint, Eq, Curve.Encode, OutputDerivations, Decrypt, CompactAmountEncryption, CommitmentMask, PaymentIdXor,
         Commitment.Commit, Sender.Valid, Sender.Ecdh, Sender.TxKeyPub, InternalPayment.Address, ViewPair.SubaddressDerivation,
         ViewPair.SpendOf, Curve.Valid, IsHash, Curve.EncodeScalar;
    var uniquely := if scanner.guaranteed then Some(uniqueness) else None;
    var view, txKey := scanner.pair.view, s.TxKeyPub(c);
    EqPointScale(view, key, 8 * txKey);
    TimesEight(view, txKey);
    SameDerivations(c, keccak, uniquely, view * key, 8 * (view * txKey), o);
    var secret := OutputDerivations(c, keccak, uniquely, 8 * s.Ecdh(c, o), o).sharedKey;
    var other := OutputDerivations(c, keccak, uniquely, view * key, o).sharedKey;
    var spend := c.Encode(seen.key - 8 * other);
    if spend in scanner.subaddresses {
      var index := scanner.subaddresses[spend];
      assert scanner.Has(c, index);
      SameEncoding(c, seen.key - 8 * other, 8 * scanner.pair.SpendOf(c, index));
      SpendsMeet(seen.key, other, secret, s.payments[o].Address(c).spend, scanner.pair.SpendOf(c, index));
    }
  }

  lemma SpendsMeet(key: Point, other: Scalar, secret: Scalar, spend: SubPoint, found: SubPoint)
    requires EqPoint(key, 8 * (secret + spend)) && EqPoint(key - 8 * other, 8 * found)
    ensures Eq(other + found, secret + spend)
  {
    var j := EqPointToMultiple(key, 8 * (secret + spend));
    var k := EqPointToMultiple(key - 8 * other, 8 * found);
    EqFromMultiple(other + found, secret + spend, j - k);
  }

  // A payment is found by whoever holds the address it was made to, for every kind of address and every mix
  // of payments, from the bytes the sender writes. What is found opens the commitment, and can be spent. It is
  // what was sent, unless the hashes of the shared secret and of another one collide.
  lemma SentIsFound(c: Curve, keccak: Keccak, scanner: InternalScanner, s: Sender, tx: Transaction, o: nat, amount: u64,
                    index: Option<SubaddressIndex>, paymentId: Option<Extra.PaymentId>, data: seq<seq<byte>>)
    requires c.Valid() && IsHash(keccak) && s.Valid() && o < |s.payments| && scanner.Valid(c)
    requires AddressOf(c, scanner.pair, index, s.payments[o].Address(c)) && scanner.Has(c, index)
    requires s.payments[o].Address(c).guaranteed == scanner.guaranteed
    requires s.payments[o].ChangeWithView() ==> s.payments[o].change.pair == scanner.pair
    requires KeyedBy(c, tx, s, paymentId, data) && Carries(c, tx, o, Send(c, keccak, s, tx.Uniqueness(keccak), o, amount))
    requires !Eq(Send(c, keccak, s, tx.Uniqueness(keccak), o, amount).key, 0)
    ensures o < |tx.Outputs()| && tx.Scanned(c) && tx.SeenAt(c, o).Some? && tx.KeysFor(c, o) != []
    ensures var seen := tx.SeenAt(c, o).value;
            var outcome := Outcome(c, Opening(c, keccak, scanner), tx, o);
            && outcome.Found?
            && OpensCommitment(c, outcome.received, seen)
            && forall spendKey :: WalletKeys.Spendable(scanner.pair, outcome.received, seen.key, spendKey)
    ensures SecretIsTried(c, keccak, scanner, s, tx.Uniqueness(keccak), o) ==>
              var received := Outcome(c, Opening(c, keccak, scanner), tx, o).received;
              && received.commitment.amount == amount
              && Eq(scanner.pair.SpendOf(c, received.subaddress), s.payments[o].Address(c).spend)
              && received.paymentIdXor == PaymentIdXor(c, keccak, 8 * s.Ecdh(c, o))
  {
    hide Opening, InternalScanner.Try, Send, Sender.TxKeyPub, Sender.AdditionalKeyPub, Spendable, Eq, EqPoint, Commitment.Commit,
         InternalPayment.Address, Sender.Ecdh, PaymentIdXor, Transaction.SeenAt, Transaction.KeysFor,
         Transaction.Scanned, KeyedBy, Carries, Shows, OpensCommitment, Curve.Valid, IsHash, Sender.Valid, NoCollision,
         Transaction.Uniqueness, AddressOf, InternalScanner.Valid, InternalScanner.Has, Extra.ReadAll;
    KeysAreRead(c, tx, s, paymentId, data, o);
    OutputIsSeen(c, tx, o, Send(c, keccak, s, tx.Uniqueness(keccak), o, amount));
    var seen := tx.SeenAt(c, o).value;
    var keys := tx.KeysFor(c, o);
    CandidateExists(c, s, o, scanner.pair, index);
    var key := if s.Ecdh(c, o) == scanner.pair.view * s.TxKeyPub(c) then keys[0] else keys[1];
    EveryOutputIsReceived(c, scanner, keccak, s, tx.Uniqueness(keccak), o, amount, index, seen, key);
    var open := Opening(c, keccak, scanner);
    forall i | 0 <= i < |keys|
      ensures open(tx, keys[i], o, seen) == scanner.Try(c, keccak, tx.Uniqueness(keccak), keys[i], o, seen)
      ensures !open(tx, keys[i], o, seen).Invalid?
    {
      OpeningIs(c, keccak, scanner, tx, keys[i], o, seen);
      SeenIsValid(c, keccak, scanner, tx, o, seen, Send(c, keccak, s, tx.Uniqueness(keccak), o, amount), keys[i]);
    }
    var k := FirstOfFinds(open, tx, o, seen, keys, key);
    FoundIsSpendable(c, keccak, scanner, tx, o, keys[k], seen);
    if SecretIsTried(c, keccak, scanner, s, tx.Uniqueness(keccak), o) {
      if key != keys[0] {
        PassedOver(c, keccak, scanner, s, tx.Uniqueness(keccak), o, amount, seen, keys[0]);
      }
      FirstIs(open, tx, o, seen, keys, key);
    }
  }

  // What any key opens can be spent, and opens the commitment.
  lemma FoundIsSpendable(c: Curve, keccak: Keccak, scanner: InternalScanner, tx: Transaction, o: nat, key: Point, seen: Seen)
    requires c.Valid() && IsHash(keccak) && scanner.Valid(c)
    ensures var outcome := scanner.Try(c, keccak, tx.Uniqueness(keccak), key, o, seen);
            outcome.Found? ==>
              && OpensCommitment(c, outcome.received, seen)
              && forall spendKey :: Spendable(scanner.pair, outcome.received, seen.key, spendKey)
  {
    hide Spendable, OpensCommitment, Open, OutputDerivations, Commitment.Commit;
    var ecdh := scanner.pair.view * key;
    var derivations := OutputDerivations(c, keccak, if scanner.guaranteed then Some(tx.Uniqueness(keccak)) else None, ecdh, o);
    var outcome := scanner.Try(c, keccak, tx.Uniqueness(keccak), key, o, seen);
    forall spendKey
      ensures outcome.Found? ==> Spendable(scanner.pair, outcome.received, seen.key, spendKey)
    {
      OpenedOffset(c, keccak, scanner.pair, scanner.subaddresses, derivations, ecdh, seen, spendKey);
    }
    OpenedOffset(c, keccak, scanner.pair, scanner.subaddresses, derivations, ecdh, seen, 0);
  }
}
