/** wallet/src/scan.rs: what is reported of a block, whoever made its transactions, and of what a miner is paid. */
module ScanFindings {
  import opened Wrappers
  import opened Ed25519
  import opened WalletKeys
  import opened Scan
  import Tx = Transactions

  // ---------------------------------------------------------------------------------------------
  // Whatever is reported is the scanner's.

  // What comes of trying keys comes of one of them.
  lemma {:induction false} FirstOfIsOne(open: Opener, tx: Transaction, o: nat, seen: Seen, keys: seq<Point>) returns (k: nat)
    requires FirstOf(open, tx, o, seen, keys).Found?
    ensures k < |keys| && open(tx, keys[k], o, seen) == FirstOf(open, tx, o, seen, keys)
  {
    k := 0;
    if open(tx, keys[0], o, seen).Passed? {
      var later := FirstOfIsOne(open, tx, o, seen, keys[1..]);
      k := later + 1;
    }
  }

  /** What is known of the commitment to an output's amount: the amount itself, or what the proofs have. */
  ghost predicate Opens(c: Curve, commitment: Commitment, tx: Transaction, o: nat)
    requires c.Valid() && o < |tx.Outputs()|
  {
    match tx.Outputs()[o].amount
    case Some(amount) => commitment == Commitment(1, amount) && commitment.Commit(c) == 1 + amount * c.h
    case None =>
      && tx.Proofs().Some? && o < |tx.Proofs().value.base.commitments|
      && tx.Proofs().value.base.commitments[o] == c.Encode(8 * commitment.Commit(c))
  }

  /**
  The output is that of a transaction with RingCT outputs, at its position. Its key is the one there; who has the spend
  key has the secret of that key, and the opening of the output's commitment.
   */
  ghost predicate Owned(c: Curve, pair: ViewPair, tx: Transaction, o: nat, output: WalletOutput)
    requires c.Valid()
  {
    && tx.content.Version() == 2 && o < |tx.Outputs()|
    && output.transaction == tx.hash && output.indexInTransaction == o
    && c.decompress(tx.Outputs()[o].key) == Some(output.key) && tx.Outputs()[o].key != c.Encode(0)
    && Opens(c, output.commitment, tx, o)
    && (forall spendKey :: Eq(pair.spend, spendKey) ==> EqPoint(8 * (spendKey + output.keyOffset), output.key))
  }

  lemma FoundIsOwned(c: Curve, keccak: Keccak, scanner: InternalScanner, first: nat, tx: Transaction, o: nat)
    requires c.Valid() && IsHash(keccak) && scanner.Valid(c) && o < |tx.Outputs()|
    ensures var output := OutputAt(c, Opening(c, keccak, scanner), first, tx, o);
            output.Some? ==> Owned(c, scanner.pair, tx, o, output.value)
  {
    hide InternalScanner.Try, Opening, Eq, EqPoint, Curve.Valid, IsHash, Curve.Encode, Commitment.Commit, InternalScanner.Valid,
         InternalScanner.Has, Transaction.MetadataOf, Transaction.KeysFor, Transaction.Keys;
    var open := Opening(c, keccak, scanner);
    if OutputAt(c, open, first, tx, o).Some? {
      var seen := tx.SeenAt(c, o).value;
      var keys := tx.KeysFor(c, o);
      var k := FirstOfIsOne(open, tx, o, seen, keys);
      OpeningIs(c, keccak, scanner, tx, keys[k], o, seen);
      FoundIsSpendable(c, keccak, scanner, tx, o, keys[k], seen);
      var received := scanner.Try(c, keccak, tx.Uniqueness(keccak), keys[k], o, seen).received;
      forall spendKey | Eq(scanner.pair.spend, spendKey)
        ensures EqPoint(8 * (spendKey + received.keyOffset), seen.key)
      {
        assert Spendable(scanner.pair, received, seen.key, spendKey);
      }
    }
  }

  // Of any block at all, all that is reported can be spent with the spend key and is worth what is reported.
  lemma ReportedIsOwned(c: Curve, keccak: Keccak, scanner: InternalScanner, first: nat, txs: seq<Transaction>,
                        output: WalletOutput) returns (t: nat)
    requires c.Valid() && IsHash(keccak) && scanner.Valid(c)
    requires output in OutputsIn(c, Opening(c, keccak, scanner), first, txs, |txs|)
    ensures t < |txs| && Owned(c, scanner.pair, txs[t], output.indexInTransaction, output)
    ensures output.indexOnBlockchain == first + Created(txs[..t]) + output.indexInTransaction
  {
    hide Opening, OutputAt, Owned, Created, Curve.Valid, IsHash, InternalScanner.Valid;
    var open := Opening(c, keccak, scanner);
    BlockOutputsAre(c, open, first, txs, |txs|, output);
    t :| 0 <= t < |txs| && IsFound(c, open, first + Created(txs[..t]), txs[t], |txs[t].Outputs()|, output);
    var at := first + Created(txs[..t]);
    var o :| 0 <= o < |txs[t].Outputs()| && OutputAt(c, open, at, txs[t], o) == Some(output);
    FoundIsOwned(c, keccak, scanner, at, txs[t], o);
    PositionIs(c, scanner.pair, txs[t], o, output);
    IndexedAt(c, open, at, txs[t], o);
  }

  lemma PositionIs(c: Curve, pair: ViewPair, tx: Transaction, o: nat, output: WalletOutput)
    requires c.Valid() && Owned(c, pair, tx, o, output)
    ensures output.indexInTransaction == o
  {
  }

  // ---------------------------------------------------------------------------------------------
  // What a miner is paid is found.

  /** The transaction's key, of a transaction which pays only this address, from its secret. */
  function MinerKey(r: Scalar, address: Address): SubPoint {
    if address.subaddress then r * address.spend else r
  }

  function MinerDerivations(c: Curve, keccak: Keccak, r: Scalar, address: Address, uniqueness: seq<byte>, o: nat)
    : SharedKeyDerivations
    requires c.Valid() && IsHash(keccak)
  {
    OutputDerivations(c, keccak, if address.guaranteed then Some(uniqueness) else None, 8 * (r * address.view), o)
  }

  /** The output pays this amount, openly, to the address, under the transaction's secret. */
  ghost predicate Pays(c: Curve, keccak: Keccak, tx: Transaction, o: nat, r: Scalar, address: Address, amount: nat)
    requires c.Valid() && IsHash(keccak)
  {
    && tx.Scanned(c) && tx.KeysFor(c, o) != [] && EqPoint(tx.KeysFor(c, o)[0], 8 * MinerKey(r, address))
    && o < |tx.Outputs()|
    && var derivations := MinerDerivations(c, keccak, r, address, tx.Uniqueness(keccak), o);
    && !Eq(derivations.sharedKey + address.spend, 0)
    && tx.Outputs()[o].key == c.Encode(8 * (derivations.sharedKey + address.spend))
    && tx.Outputs()[o].amount == Some(amount)
    && (tx.Outputs()[o].viewTag.Some? ==> tx.Outputs()[o].viewTag.value == derivations.viewTag)
  }

  // The holder of the address makes the same secret of the transaction's key.
  lemma MinerSecret(c: Curve, pair: ViewPair, index: Option<SubaddressIndex>, address: Address, r: Scalar, key: Point)
    requires c.Valid() && AddressOf(c, pair, index, address) && EqPoint(key, 8 * MinerKey(r, address))
    ensures EqPoint(pair.view * key, 8 * (r * address.view))
  {
    hide EqPoint, ViewPair.SubaddressDerivation;
    EqPointScale(pair.view, key, 8 * MinerKey(r, address));
    TimesEight(pair.view, MinerKey(r, address));
    if address.subaddress {
      Around(pair.view, r, address.spend);
    }
    assert pair.view * MinerKey(r, address) == r * address.view;
  }

  lemma Around(a: int, b: int, p: int)
    ensures a * (b * p) == b * (a * p)
  {
  }

  lemma MinedIsSeen(c: Curve, keccak: Keccak, tx: Transaction, o: nat, r: Scalar, address: Address, amount: nat)
    requires c.Valid() && IsHash(keccak) && Pays(c, keccak, tx, o, r, address, amount)
    ensures tx.SeenAt(c, o).Some?
    ensures var seen := tx.SeenAt(c, o).value;
            var derivations := MinerDerivations(c, keccak, r, address, tx.Uniqueness(keccak), o);
            && EqPoint(seen.key, 8 * (derivations.sharedKey + address.spend)) && seen.amount == Some(amount)
            && (seen.viewTag.Some? ==> seen.viewTag.value == derivations.viewTag)
  {
    hide EqPoint, Eq, MinerDerivations, Transaction.Uniqueness, Transaction.Keys;
    var key := MinerDerivations(c, keccak, r, address, tx.Uniqueness(keccak), o).sharedKey + address.spend;
    ReducedPoint(8 * key);
    SameEncoding(c, 8 * key, 8 * 0);
    EqPointOfEight(key, 0);
  }

  // The transaction's key finds the output, with its amount.
  lemma MinedIsTried(c: Curve, keccak: Keccak, scanner: InternalScanner, index: Option<SubaddressIndex>, tx: Transaction, o: nat,
                     r: Scalar, address: Address, amount: nat)
    requires c.Valid() && IsHash(keccak) && scanner.Valid(c) && scanner.Has(c, index)
    requires AddressOf(c, scanner.pair, index, address) && address.guaranteed == scanner.guaranteed
    requires Pays(c, keccak, tx, o, r, address, amount)
    ensures tx.SeenAt(c, o).Some?
    ensures var outcome := scanner.Try(c, keccak, tx.Uniqueness(keccak), tx.KeysFor(c, o)[0], o, tx.SeenAt(c, o).value);
            && outcome.Found?
            && outcome.received.commitment == Commitment(1, amount)
            && Eq(scanner.pair.SpendOf(c, outcome.received.subaddress), address.spend)
            && outcome.received.paymentIdXor == PaymentIdXor(c, keccak, 8 * (r * address.view))
  {
    hide Open, OutputDerivations, Eq, EqPoint, Transaction.SeenAt, Transaction.KeysFor, Transaction.Keys, Transaction.Uniqueness,
         Curve.Valid, IsHash, Curve.Encode, PaymentIdXor, MinerKey, ViewPair.SubaddressDerivation, AddressOf;
    MinedIsSeen(c, keccak, tx, o, r, address, amount);
    var seen := tx.SeenAt(c, o).value;
    var key := tx.KeysFor(c, o)[0];
    var ecdh := scanner.pair.view * key;
    var uniquely := if scanner.guaranteed then Some(tx.Uniqueness(keccak)) else None;
    MinerSecret(c, scanner.pair, index, address, r, key);
    SameDerivations(c, keccak, uniquely, ecdh, 8 * (r * address.view), o);
    AddressSpend(c, scanner.pair, index, address);
    var derivations := OutputDerivations(c, keccak, uniquely, ecdh, o);
    OpenMined(c, keccak, scanner.pair, scanner.subaddresses, derivations, ecdh, address.spend, amount, seen);
    var subaddress := scanner.subaddresses[c.Encode(8 * address.spend)];
    SameEncoding(c, 8 * scanner.pair.SpendOf(c, subaddress), 8 * address.spend);
    EqPointOfEight(scanner.pair.SpendOf(c, subaddress), address.spend);
  }

  /** What is reported of a miner's output. */
  ghost predicate ReportsMined(c: Curve, keccak: Keccak, pair: ViewPair, tx: Transaction, o: nat, r: Scalar, address: Address,
                               amount: nat, output: WalletOutput)
    requires c.Valid() && IsHash(keccak)
  {
    && output.transaction == tx.hash && output.indexInTransaction == o
    && output.commitment == Commitment(1, amount)
    && Eq(pair.SpendOf(c, output.metadata.subaddress), address.spend)
    && output.metadata.paymentId == tx.PaymentId(PaymentIdXor(c, keccak, 8 * (r * address.view)))
  }

  lemma MinedIsFound(c: Curve, keccak: Keccak, scanner: InternalScanner, index: Option<SubaddressIndex>, first: nat,
                     tx: Transaction, o: nat, r: Scalar, address: Address, amount: nat)
    requires c.Valid() && IsHash(keccak) && scanner.Valid(c) && scanner.Has(c, index)
    requires AddressOf(c, scanner.pair, index, address) && address.guaranteed == scanner.guaranteed
    requires Pays(c, keccak, tx, o, r, address, amount)
    ensures var output := OutputAt(c, Opening(c, keccak, scanner), first, tx, o);
            && output.Some? && output.value.indexOnBlockchain == first + o
            && ReportsMined(c, keccak, scanner.pair, tx, o, r, address, amount, output.value)
  {
    hide Opening, InternalScanner.Try, Transaction.SeenAt, Transaction.KeysFor, Transaction.Scanned, Transaction.PaymentId,
         Eq, EqPoint, Curve.Valid, IsHash, PaymentIdXor, MinerDerivations, MinerKey, AddressOf, InternalScanner.Valid,
         InternalScanner.Has, Curve.Encode, Transaction.Uniqueness, ViewPair.SpendOf;
    var open := Opening(c, keccak, scanner);
    MinedIsTried(c, keccak, scanner, index, tx, o, r, address, amount);
    var seen := tx.SeenAt(c, o).value;
    OpeningIs(c, keccak, scanner, tx, tx.KeysFor(c, o)[0], o, seen);
    FirstIs(open, tx, o, seen, tx.KeysFor(c, o), tx.KeysFor(c, o)[0]);
  }

  // A miner's output is reported to the holder of the address, of every block with the transaction, with its amount.
  lemma MinedIsReported(c: Curve, keccak: Keccak, scanner: InternalScanner, index: Option<SubaddressIndex>, first: nat,
                        txs: seq<Transaction>, t: nat, o: nat, r: Scalar, address: Address, amount: nat)
    returns (output: WalletOutput)
    requires c.Valid() && IsHash(keccak) && scanner.Valid(c) && scanner.Has(c, index) && t < |txs|
    requires AddressOf(c, scanner.pair, index, address) && address.guaranteed == scanner.guaranteed
    requires Pays(c, keccak, txs[t], o, r, address, amount)
    ensures output in OutputsIn(c, Opening(c, keccak, scanner), first, txs, |txs|)
    ensures output.indexOnBlockchain == first + Created(txs[..t]) + o
    ensures ReportsMined(c, keccak, scanner.pair, txs[t], o, r, address, amount, output)
  {
    hide Opening, OutputAt, ReportsMined, Pays, Created, OutputsIn, Curve.Valid, IsHash, AddressOf, InternalScanner.Valid,
         InternalScanner.Has;
    PaidIs(c, keccak, txs[t], o, r, address, amount);
    MinedIsFound(c, keccak, scanner, index, first + Created(txs[..t]), txs[t], o, r, address, amount);
    FoundIsReported(c, Opening(c, keccak, scanner), first, txs, t, o);
    output := OutputAt(c, Opening(c, keccak, scanner), first + Created(txs[..t]), txs[t], o).value;
  }

  lemma PaidIs(c: Curve, keccak: Keccak, tx: Transaction, o: nat, r: Scalar, address: Address, amount: nat)
    requires c.Valid() && IsHash(keccak) && Pays(c, keccak, tx, o, r, address, amount)
    ensures o < |tx.Outputs()|
  {
  }
}
