/**
wallet/src/lib.rs, view_pair.rs, send/tx_keys.rs and scan.rs: what the sender derives for an output, and
what the receiver recovers of it. The sender's keys are points of the prime-order subgroup; those the receiver
sees may be any.
 */
module WalletKeys {
  import opened Wrappers
  import opened PowersOfTwo
  import opened Vectors
  import opened Ed25519
  import VarInt
  import Tx = Transactions

  // ---------------------------------------------------------------------------------------------
  // View pairs and addresses.

  /** The account and the address within it, not both zero. */
  datatype SubaddressIndex = SubaddressIndex(account: u32, address: u32)

  type u32 = n: int | 0 <= n < 0x1_0000_0000

  type Bytes8 = bytes: seq<byte> | |bytes| == 8 witness [0, 0, 0, 0, 0, 0, 0, 0]

  datatype Address = Address(spend: SubPoint, view: SubPoint, subaddress: bool, guaranteed: bool, paymentId: Option<Bytes8>)

  function U32Bytes(n: u32): (r: seq<byte>)
    ensures |r| == 4
  {
    [n % 256, n / 256 % 256, n / 256 / 256 % 256, n / 256 / 256 / 256]
  }

  // "SubAddr", and a zero byte
  const SUBADDRESS_LABEL: seq<byte> := [83, 117, 98, 65, 100, 100, 114, 0]

  datatype ViewPair = ViewPair(spend: SubPoint, view: Scalar) {
    function View(): SubPoint {
      view
    }

    function SubaddressDerivation(c: Curve, index: SubaddressIndex): Scalar
      requires c.Valid()
    {
      c.hash(SUBADDRESS_LABEL + c.EncodeScalar(view) + U32Bytes(index.account) + U32Bytes(index.address))
    }

    function SubaddressKeys(c: Curve, index: SubaddressIndex): (SubPoint, SubPoint)
      requires c.Valid()
    {
      var subaddressSpend := spend + SubaddressDerivation(c, index);
      (subaddressSpend, view * subaddressSpend)
    }

    /** The spend key of the main address, or of a subaddress. */
    function SpendOf(c: Curve, index: Option<SubaddressIndex>): SubPoint
      requires c.Valid()
    {
      if index.Some? then spend + SubaddressDerivation(c, index.value) else spend
    }

    /** The keys of the main address, or of a subaddress. */
    function Keys(c: Curve, index: Option<SubaddressIndex>): (SubPoint, SubPoint)
      requires c.Valid()
    {
      if index.Some? then SubaddressKeys(c, index.value) else (spend, View())
    }

    function LegacyAddress(): Address {
      Address(spend, View(), false, false, None)
    }

    function LegacyIntegratedAddress(paymentId: Bytes8): Address {
      Address(spend, View(), false, false, Some(paymentId))
    }

    function Subaddress(c: Curve, index: SubaddressIndex): Address
      requires c.Valid()
    {
      var keys := SubaddressKeys(c, index);
      Address(keys.0, keys.1, true, false, None)
    }

    /** The address of a `GuaranteedViewPair`. */
    function GuaranteedAddress(c: Curve, index: Option<SubaddressIndex>, paymentId: Option<Bytes8>): Address
      requires c.Valid()
    {
      var keys := Keys(c, index);
      Address(keys.0, keys.1, index.Some?, true, paymentId)
    }
  }

  /** An address of a view pair, of any of the kinds there are. */
  ghost predicate AddressOf(c: Curve, pair: ViewPair, index: Option<SubaddressIndex>, address: Address)
    requires c.Valid()
  {
    || (index == None && address == pair.LegacyAddress())
    || (index == None && exists id :: address == pair.LegacyIntegratedAddress(id))
    || (index.Some? && address == pair.Subaddress(c, index.value))
    || exists id :: address == pair.GuaranteedAddress(c, index, id)
  }

  // ---------------------------------------------------------------------------------------------
  // Derivations from a shared secret.

  datatype SharedKeyDerivations = SharedKeyDerivations(viewTag: byte, sharedKey: Scalar)

  // "view_tag", "commitment_mask" and "amount"
  const VIEW_TAG: seq<byte> := [118, 105, 101, 119, 95, 116, 97, 103]
  const COMMITMENT_MASK: seq<byte> := [99, 111, 109, 109, 105, 116, 109, 101, 110, 116, 95, 109, 97, 115, 107]
  const AMOUNT: seq<byte> := [97, 109, 111, 117, 110, 116]

  /** The shared point, free of torsion, and the output's index. */
  function OutputDerivation(c: Curve, ecdh: Point, o: nat): seq<byte>
    requires c.Valid()
  {
    c.Encode(8 * ecdh) + VarInt.Encoding(o)
  }

  function OutputDerivations(c: Curve, keccak: Keccak, uniqueness: Option<seq<byte>>, ecdh: Point, o: nat)
    : SharedKeyDerivations
    requires c.Valid() && IsHash(keccak)
  {
    var derivation := OutputDerivation(c, ecdh, o);
    SharedKeyDerivations(
      keccak(VIEW_TAG + derivation)[0],
      c.hash(if uniqueness.Some? then uniqueness.value + derivation else derivation))
  }

  /** Eight bytes under the exclusive or with others. */
  function Masked(bytes: seq<byte>, mask: Bytes8): Bytes8 {
    LittleBytes(Xor(LittleEndian(bytes), LittleEndian(mask)), 8)
  }

  // To mask twice is not to mask.
  lemma MaskedTwice(bytes: Bytes8, mask: Bytes8)
    ensures Masked(Masked(bytes, mask), mask) == bytes
  {
    hide Pow2;
    LittleEndianBound(bytes);
    LittleEndianBound(mask);
    XorBound(LittleEndian(bytes), LittleEndian(mask), 64);
    LittleBytesStandFor(Xor(LittleEndian(bytes), LittleEndian(mask)), 8);
    XorTwice(LittleEndian(bytes), LittleEndian(mask));
    BytesOfTheirNumber(bytes);
  }

  function PaymentIdXor(c: Curve, keccak: Keccak, ecdh: Point): Bytes8
    requires c.Valid() && IsHash(keccak)
  {
    keccak(c.Encode(8 * ecdh) + [0x8d])[..8]
  }

  // One point gives one set of derivations.
  lemma SameDerivations(c: Curve, keccak: Keccak, uniqueness: Option<seq<byte>>, a: Point, b: Point, o: nat)
    requires c.Valid() && IsHash(keccak) && EqPoint(a, b)
    ensures OutputDerivations(c, keccak, uniqueness, a, o) == OutputDerivations(c, keccak, uniqueness, b, o)
    ensures PaymentIdXor(c, keccak, a) == PaymentIdXor(c, keccak, b)
  {
    hide EqPoint;
    EqPointScale(8, a, b);
    SameEncoding(c, 8 * a, 8 * b);
  }

  lemma SameEncoding(c: Curve, p: Point, q: Point)
    requires c.Valid()
    ensures c.Encode(p) == c.Encode(q) <==> EqPoint(p, q)
  {
  }

  function CommitmentMask(c: Curve, sharedKey: Scalar): Scalar
    requires c.Valid()
  {
    c.hash(COMMITMENT_MASK + c.EncodeScalar(sharedKey))
  }

  function AmountMask(c: Curve, keccak: Keccak, sharedKey: Scalar): Bytes8
    requires c.Valid() && IsHash(keccak)
  {
    keccak(AMOUNT + c.EncodeScalar(sharedKey))[..8]
  }

  function CompactAmountEncryption(c: Curve, keccak: Keccak, sharedKey: Scalar, amount: nat): Bytes8
    requires c.Valid() && IsHash(keccak)
  {
    LittleBytes(Xor(amount, LittleEndian(AmountMask(c, keccak, sharedKey))), 8)
  }

  /** The opening of a commitment, out of an encrypted amount. The first amounts were encrypted with their masks, as scalars. */
  function Decrypt(c: Curve, keccak: Keccak, sharedKey: Scalar, encrypted: Tx.EncryptedAmount): Commitment
    requires c.Valid() && IsHash(keccak)
  {
    match encrypted
    case OriginalAmount(mask, amount) =>
      var maskSecret := c.hash(c.EncodeScalar(sharedKey));
      var amountSecret := c.hash(c.EncodeScalar(maskSecret));
      Commitment(LittleEndian(mask) - maskSecret, LittleEndian(c.EncodeScalar(LittleEndian(amount) - amountSecret)[..8]))
    case CompactAmount(bytes) =>
      Commitment(CommitmentMask(c, sharedKey),
                 LittleEndian(CompactAmountEncryption(c, keccak, sharedKey, LittleEndian(bytes))))
  }

  // What was encrypted compactly is decrypted.
  lemma DecryptEncrypted(c: Curve, keccak: Keccak, sharedKey: Scalar, amount: u64)
    requires c.Valid() && IsHash(keccak)
    ensures Decrypt(c, keccak, sharedKey, Tx.CompactAmount(CompactAmountEncryption(c, keccak, sharedKey, amount))) ==
            Commitment(CommitmentMask(c, sharedKey), amount)
  {
    hide Pow2, AmountMask;
    var mask := LittleEndian(AmountMask(c, keccak, sharedKey));
    LittleEndianBound(AmountMask(c, keccak, sharedKey));
    SixtyFour();
    XorBound(amount, mask, 64);
    LittleBytesStandFor(Xor(amount, mask), 8);
    XorTwice(amount, mask);
    LittleBytesStandFor(amount, 8);
  }

  // So is what was encrypted in the first way: the mask and the amount, each hidden by adding a hash. The order of the
  // group is larger than any amount.
  lemma DecryptOriginal(c: Curve, keccak: Keccak, sharedKey: Scalar, mask: Scalar, amount: u64)
    requires c.Valid() && IsHash(keccak) && U64_MAX < L
    ensures var maskSecret := c.hash(c.EncodeScalar(sharedKey));
            var amountSecret := c.hash(c.EncodeScalar(maskSecret));
            var encrypted := Tx.OriginalAmount(c.EncodeScalar(mask + maskSecret), c.EncodeScalar(amount + amountSecret));
            && Eq(Decrypt(c, keccak, sharedKey, encrypted).mask, mask)
            && Decrypt(c, keccak, sharedKey, encrypted).amount == amount
  {
    hide Pow2, Curve.EncodeScalar, Curve.Valid;
    var maskSecret := c.hash(c.EncodeScalar(sharedKey));
    var amountSecret := c.hash(c.EncodeScalar(maskSecret));
    Unhidden(mask, maskSecret);
    Unhidden(amount, amountSecret);
    SameScalarBytes(c, Red(amount + amountSecret) - amountSecret, amount);
    Residue(amount);
    FirstEight(c.EncodeScalar(amount), amount);
  }

  lemma Unhidden(a: int, b: int)
    ensures Eq(Red(a + b) - b, a)
  {
    RedEq(a + b);
    EqFromMultiple(-b, -b, 0);
    EqAdd(Red(a + b), a + b, -b, -b);
  }

  lemma SameScalarBytes(c: Curve, a: Scalar, b: Scalar)
    requires c.Valid() && Eq(a, b)
    ensures c.EncodeScalar(a) == c.EncodeScalar(b)
  {
  }

  lemma FirstEight(bytes: seq<byte>, amount: u64)
    requires |bytes| >= 8 && LittleEndian(bytes) == amount
    ensures LittleEndian(bytes[..8]) == amount
  {
    hide Pow2;
    LittleEndianSplit(bytes, 8);
    SixtyFour();
    LittleEndianBound(bytes[..8]);
    NoneAbove(LittleEndian(bytes[8..]), LittleEndian(bytes[..8]), Pow2(64), amount);
  }

  lemma NoneAbove(high: nat, low: nat, power: nat, v: nat)
    requires v == low + power * high && v < power
    ensures high == 0 && v == low
  {
    assert high == 0 || power * high >= power;
  }

  lemma SixtyFour()
    ensures Pow2(64) == U64_MAX + 1
  {
    hide Pow2;
    SmallPowers();
    Pow2Add(8, 8);
    Pow2Add(16, 16);
    Pow2Add(32, 32);
  }

  // ---------------------------------------------------------------------------------------------
  // Sending.

  datatype ChangeEnum =
    | AddressOnly(address: Address)
    | Standard(pair: ViewPair, subaddress: Option<SubaddressIndex>)
    | Guaranteed(pair: ViewPair, subaddress: Option<SubaddressIndex>)

  datatype InternalPayment = Payment(to: Address, amount: u64) | Change(change: ChangeEnum) {
    function Address(c: Curve): Address
      requires c.Valid()
    {
      match this
      case Payment(to, _) => to
      case Change(AddressOnly(address)) => address
      case Change(Standard(pair, subaddress)) =>
        if subaddress.Some? then pair.Subaddress(c, subaddress.value) else pair.LegacyAddress()
      case Change(Guaranteed(pair, subaddress)) => pair.GuaranteedAddress(c, subaddress, None)
    }

    /** A payment to a subaddress of which only the address is known. */
    predicate ToSubaddress() {
      match this
      case Payment(to, _) => to.subaddress
      case Change(AddressOnly(address)) => address.subaddress
      case _ => false
    }

    /** Change whose view key is known. */
    predicate ChangeWithView() {
      Change? && !change.AddressOnly?
    }
  }

  /** The keys drawn for a transaction are a stream: the transaction's own, and one for each output. */
  datatype Sender = Sender(payments: seq<InternalPayment>, keys: nat -> Scalar) {
    predicate HasPaymentsToSubaddresses() {
      exists i :: 0 <= i < |payments| && payments[i].ToSubaddress()
    }

    predicate ShouldUseAdditionalKeys() {
      HasPaymentsToSubaddresses() &&
      !(|payments| == 2 && exists i :: 0 <= i < |payments| && payments[i].ChangeWithView())
    }

    /** What `validate` establishes: a payment, and change at most once. */
    predicate Valid() {
      && |payments| >= 2
      && (exists i :: 0 <= i < |payments| && payments[i].Payment?)
      && (forall i, j :: 0 <= i < j < |payments| ==> payments[i].Payment? || payments[j].Payment?)
    }

    function FirstPayment(from: nat): (i: nat)
      requires exists j :: from <= j < |payments| && payments[j].Payment?
      ensures from <= i < |payments| && payments[i].Payment?
      ensures forall j :: from <= j < i ==> !payments[j].Payment?
      decreases |payments| - from
    {
      if payments[from].Payment? then from else FirstPayment(from + 1)
    }

    /** The transaction's public key: for the generator of the one subaddress paid, if it is the only key. */
    function TxKeyPub(c: Curve): SubPoint
      requires c.Valid() && Valid()
    {
      if HasPaymentsToSubaddresses() && !ShouldUseAdditionalKeys() then keys(0) * payments[FirstPayment(0)].to.spend
      else keys(0)
    }

    function AdditionalKeyPub(c: Curve, o: nat): SubPoint
      requires c.Valid() && o < |payments|
    {
      var address := payments[o].Address(c);
      if address.subaddress then keys(o + 1) * address.spend else keys(o + 1)
    }

    function Ecdh(c: Curve, o: nat): SubPoint
      requires c.Valid() && Valid() && o < |payments|
    {
      var address := payments[o].Address(c);
      var key := if address.subaddress && ShouldUseAdditionalKeys() then keys(o + 1) else keys(0);
      if payments[o].ChangeWithView() then payments[o].change.pair.view * TxKeyPub(c) else key * address.view
    }
  }

  // Keys of their own are used exactly if the transaction's cannot be shared: with a payment to a subaddress there is
  // another one to someone whose view key is not known.
  lemma AdditionalKeysNeeded(s: Sender)
    requires s.Valid()
    ensures s.ShouldUseAdditionalKeys() <==>
            exists i, j :: 0 <= i < |s.payments| && 0 <= j < |s.payments| && i != j && s.payments[i].ToSubaddress() &&
                           !s.payments[j].ChangeWithView()
  {
    if s.ShouldUseAdditionalKeys() {
      var i :| 0 <= i < |s.payments| && s.payments[i].ToSubaddress();
      var j := if i == 0 then 1 else 0;
      if s.payments[j].ChangeWithView() {
        j := if i + j == 1 then 2 else 1;
        assert s.payments[j].Payment?;
      }
      assert !s.payments[j].ChangeWithView();
    }
  }

  method TransactionKeys(s: Sender) returns (txKey: Scalar, additional: seq<Scalar>)
    ensures txKey == s.keys(0)
    ensures |additional| == if s.ShouldUseAdditionalKeys() then |s.payments| else 0
    ensures forall i :: 0 <= i < |additional| ==> additional[i] == s.keys(i + 1)
  {
    txKey := s.keys(0);
    additional := [];
    if s.ShouldUseAdditionalKeys() {
      for i := 0 to |s.payments|
        invariant |additional| == i && forall k :: 0 <= k < i ==> additional[k] == s.keys(k + 1)
      {
        additional := additional + [s.keys(i + 1)];
      }
    }
  }

  method TransactionKeysPub(c: Curve, s: Sender) returns (txKeyPub: SubPoint, additional: seq<SubPoint>)
    requires c.Valid() && s.Valid()
    ensures txKeyPub == s.TxKeyPub(c)
    ensures |additional| == if s.ShouldUseAdditionalKeys() then |s.payments| else 0
    ensures forall i :: 0 <= i < |additional| ==> additional[i] == s.AdditionalKeyPub(c, i)
  {
    var txKey, additionalKeys := TransactionKeys(s);
    if s.HasPaymentsToSubaddresses() && !s.ShouldUseAdditionalKeys() {
      return txKey * s.payments[s.FirstPayment(0)].to.spend, [];
    }
    additional := [];
    for i := 0 to |additionalKeys|
      invariant |additional| == i && forall k :: 0 <= k < i ==> additional[k] == s.AdditionalKeyPub(c, k)
    {
      var address := s.payments[i].Address(c);
      additional := additional + [if address.subaddress then additionalKeys[i] * address.spend else additionalKeys[i]];
    }
    txKeyPub := txKey;
  }

  method Ecdhs(c: Curve, s: Sender) returns (res: seq<SubPoint>)
    requires c.Valid() && s.Valid()
    ensures |res| == |s.payments|
    ensures forall o :: 0 <= o < |res| ==> res[o] == s.Ecdh(c, o)
  {
    var txKey, additionalKeys := TransactionKeys(s);
    var txKeyPub, _ := TransactionKeysPub(c, s);
    res := [];
    for o := 0 to |s.payments|
      invariant |res| == o && forall k :: 0 <= k < o ==> res[k] == s.Ecdh(c, k)
    {
      var payment := s.payments[o];
      var address := payment.Address(c);
      var key := if address.subaddress && o < |additionalKeys| then additionalKeys[o] else txKey;
      var ecdh;
      match payment {
        case Payment(_, _) => ecdh := key * address.view;
        case Change(AddressOnly(_)) => ecdh := key * address.view;
        case Change(Standard(pair, _)) => ecdh := pair.view * txKeyPub;
        case Change(Guaranteed(pair, _)) => ecdh := pair.view * txKeyPub;
      }
      res := res + [ecdh];
    }
  }

  /** An output as it is sent: its key, its view tag, its encrypted amount and the commitment to it. */
  datatype SentOutput = SentOutput(key: SubPoint, viewTag: byte, encryptedAmount: Bytes8, commitment: SubPoint)

  /** What a payment's output is derived from. */
  function DerivationsFor(c: Curve, keccak: Keccak, s: Sender, uniqueness: seq<byte>, o: nat): SharedKeyDerivations
    requires c.Valid() && IsHash(keccak) && s.Valid() && o < |s.payments|
  {
    OutputDerivations(c, keccak, if s.payments[o].Address(c).guaranteed then Some(uniqueness) else None, 8 * s.Ecdh(c, o), o)
  }

  /** The output for a payment of an amount. */
  function Send(c: Curve, keccak: Keccak, s: Sender, uniqueness: seq<byte>, o: nat, amount: u64): SentOutput
    requires c.Valid() && IsHash(keccak) && s.Valid() && o < |s.payments|
  {
    Seal(c, keccak, DerivationsFor(c, keccak, s, uniqueness, o), s.payments[o].Address(c).spend, amount)
  }

  // ---------------------------------------------------------------------------------------------
  // The sender's shared secret is one the receiver tries.

  // If the transaction's key is made for a subaddress, the payment to that subaddress is the only one
  // made to an address alone.
  lemma SingleSubaddress(s: Sender, o: nat)
    requires s.Valid() && o < |s.payments|
    requires s.HasPaymentsToSubaddresses() && !s.ShouldUseAdditionalKeys() && !s.payments[o].ChangeWithView()
    ensures s.payments[o].Payment? && s.payments[o].to.subaddress && s.FirstPayment(0) == o
  {
    var v :| 0 <= v < |s.payments| && s.payments[v].ChangeWithView();
    var p :| 0 <= p < |s.payments| && s.payments[p].ToSubaddress();
    assert p != v && o != v;
    assert s.payments[o].Payment?;
    assert p == o;
    var f := s.FirstPayment(0);
    assert f != v;
  }

  // The receiver holds the view pair of the address paid; for change, it is the sender's own.
  lemma CandidateExists(c: Curve, s: Sender, o: nat, pair: ViewPair, index: Option<SubaddressIndex>)
    requires c.Valid() && s.Valid() && o < |s.payments|
    requires AddressOf(c, pair, index, s.payments[o].Address(c))
    requires s.payments[o].ChangeWithView() ==> s.payments[o].change.pair == pair
    ensures s.Ecdh(c, o) == pair.view * s.TxKeyPub(c) ||
            (s.ShouldUseAdditionalKeys() && s.Ecdh(c, o) == pair.view * s.AdditionalKeyPub(c, o))
  {
    if s.HasPaymentsToSubaddresses() && !s.ShouldUseAdditionalKeys() && !s.payments[o].ChangeWithView() {
      SingleSubaddress(s, o);
    }
  }

  // ---------------------------------------------------------------------------------------------
  // Scanning.

  /** What the receiver learns of an output. */
  datatype Received = Received(keyOffset: Scalar, commitment: Commitment, subaddress: Option<SubaddressIndex>,
                               paymentIdXor: Bytes8)

  /**
  What there is to see of an output. Only those of a miner have their amounts; the others have encrypted ones
  and commitments, where the transaction's proofs have them.
   */
  datatype Seen = Seen(key: Point, viewTag: Option<byte>, amount: Option<nat>, encryptedAmount: Option<Tx.EncryptedAmount>,
                       commitment: Option<seq<byte>>)

  /** What comes of trying a key for an output. */
  datatype Attempt = Passed | Invalid | Found(received: Received)

  /** The output opened with the derivations from a shared secret, if they fit and its spend key is looked for. */
  function Open(c: Curve, keccak: Keccak, pair: ViewPair, subaddresses: map<seq<byte>, Option<SubaddressIndex>>,
                derivations: SharedKeyDerivations, ecdh: Point, seen: Seen): Attempt
    requires c.Valid() && IsHash(keccak)
  {
    var spend := c.Encode(seen.key - 8 * derivations.sharedKey);
    if seen.viewTag.Some? && seen.viewTag.value != derivations.viewTag then Passed
    else if spend !in subaddresses then Passed
    else
      var subaddress := subaddresses[spend];
      var offset := derivations.sharedKey +
                    (if subaddress.Some? then pair.SubaddressDerivation(c, subaddress.value) else 0);
      if seen.amount.Some? then
        Found(Received(offset, Commitment(1, seen.amount.value), subaddress, PaymentIdXor(c, keccak, ecdh)))
      else if seen.encryptedAmount.None? then Invalid
      else
        var commitment := Decrypt(c, keccak, derivations.sharedKey, seen.encryptedAmount.value);
        if seen.commitment != Some(c.Encode(8 * commitment.Commit(c))) then Passed
        else Found(Received(offset, commitment, subaddress, PaymentIdXor(c, keccak, ecdh)))
  }

  /** An output made of derivations, for a spend key and an amount. */
  function Seal(c: Curve, keccak: Keccak, derivations: SharedKeyDerivations, spend: SubPoint, amount: u64): SentOutput
    requires c.Valid() && IsHash(keccak)
  {
    SentOutput(derivations.sharedKey + spend, derivations.viewTag,
               CompactAmountEncryption(c, keccak, derivations.sharedKey, amount),
               Commitment(CommitmentMask(c, derivations.sharedKey), amount).Commit(c))
  }

  /** What is seen is what was sent; it may have no view tag. */
  ghost predicate Shows(c: Curve, seen: Seen, sent: SentOutput)
    requires c.Valid()
  {
    && EqPoint(seen.key, 8 * sent.key) && seen.amount.None?
    && (seen.viewTag.Some? ==> seen.viewTag.value == sent.viewTag)
    && seen.encryptedAmount == Some(Tx.CompactAmount(sent.encryptedAmount)) && seen.commitment == Some(c.Encode(8 * sent.commitment))
  }

  // The same derivations open what they have sealed.
  lemma OpenSealed(c: Curve, keccak: Keccak, pair: ViewPair, subaddresses: map<seq<byte>, Option<SubaddressIndex>>,
                   derivations: SharedKeyDerivations, ecdh: Point, spend: SubPoint, amount: u64, seen: Seen)
    requires c.Valid() && IsHash(keccak) && Shows(c, seen, Seal(c, keccak, derivations, spend, amount))
    requires c.Encode(8 * spend) in subaddresses
    ensures var outcome := Open(c, keccak, pair, subaddresses, derivations, ecdh, seen);
            && outcome.Found?
            && outcome.received.commitment == Commitment(CommitmentMask(c, derivations.sharedKey), amount)
            && outcome.received.subaddress == subaddresses[c.Encode(8 * spend)]
            && outcome.received.paymentIdXor == PaymentIdXor(c, keccak, ecdh)
  {
    hide Decrypt, CompactAmountEncryption, CommitmentMask, PaymentIdXor, Curve.Encode, Commitment.Commit, EqPoint,
         ViewPair.SubaddressDerivation;
    SealedSpend(c, seen.key, derivations.sharedKey, spend);
    DecryptEncrypted(c, keccak, derivations.sharedKey, amount);
  }

  // The derivations find a miner's output, whose amount is not hidden.
  lemma OpenMined(c: Curve, keccak: Keccak, pair: ViewPair, subaddresses: map<seq<byte>, Option<SubaddressIndex>>,
                  derivations: SharedKeyDerivations, ecdh: Point, spend: SubPoint, amount: nat, seen: Seen)
    requires c.Valid() && IsHash(keccak)
    requires EqPoint(seen.key, 8 * (derivations.sharedKey + spend)) && seen.amount == Some(amount)
    requires seen.viewTag.Some? ==> seen.viewTag.value == derivations.viewTag
    requires c.Encode(8 * spend) in subaddresses
    ensures var outcome := Open(c, keccak, pair, subaddresses, derivations, ecdh, seen);
            && outcome.Found?
            && outcome.received.commitment == Commitment(1, amount)
            && outcome.received.subaddress == subaddresses[c.Encode(8 * spend)]
            && outcome.received.paymentIdXor == PaymentIdXor(c, keccak, ecdh)
  {
    hide Decrypt, PaymentIdXor, Curve.Encode, Commitment.Commit, EqPoint, ViewPair.SubaddressDerivation;
    SealedSpend(c, seen.key, derivations.sharedKey, spend);
  }

  lemma SealedSpend(c: Curve, key: Point, shared: Scalar, spend: SubPoint)
    requires c.Valid() && EqPoint(key, 8 * (shared + spend))
    ensures c.Encode(key - 8 * shared) == c.Encode(8 * spend)
  {
    hide EqPoint;
    EqPointFromMultiple(8 * shared, 8 * shared, 0);
    EqPointAdd(key, 8 * (shared + spend), 8 * shared, 8 * shared);
    assert 8 * (shared + spend) - 8 * shared == 8 * spend;
    SameEncoding(c, key - 8 * shared, 8 * spend);
  }

  /** What was received can be spent with the secret of the spend key. */
  ghost predicate Spendable(pair: ViewPair, received: Received, key: Point, spendKey: Scalar) {
    Eq(pair.spend, spendKey) ==> EqPoint(8 * (spendKey + received.keyOffset), key)
  }

  /**
  What was received opens the commitment seen, or, where the amount is, the one which a miner's output stands for: to
  that amount, under a mask of one.
   */
  ghost predicate OpensCommitment(c: Curve, received: Received, seen: Seen)
    requires c.Valid()
  {
    match seen.amount
    case None => seen.commitment == Some(c.Encode(8 * received.commitment.Commit(c)))
    case Some(amount) => received.commitment == Commitment(1, amount) && received.commitment.Commit(c) == 1 + amount * c.h
  }

  lemma MaskOfOne(c: Curve, amount: nat)
    ensures Commitment(1, amount).Commit(c) == 1 + amount * c.h
  {
  }

  // Whatever derivations make of an output, the offset is the distance of its key from the spend key.
  lemma OpenedOffset(c: Curve, keccak: Keccak, pair: ViewPair, subaddresses: map<seq<byte>, Option<SubaddressIndex>>,
                     derivations: SharedKeyDerivations, ecdh: Point, seen: Seen, spendKey: Scalar)
    requires c.Valid() && IsHash(keccak)
    requires forall key :: key in subaddresses ==> key == c.Encode(8 * pair.SpendOf(c, subaddresses[key]))
    ensures var outcome := Open(c, keccak, pair, subaddresses, derivations, ecdh, seen);
            outcome.Found? ==> Spendable(pair, outcome.received, seen.key, spendKey) && OpensCommitment(c, outcome.received, seen)
  {
    hide Eq, EqPoint, Decrypt, PaymentIdXor, Curve.Encode, Commitment.Commit,
         ViewPair.SubaddressDerivation;
    var outcome := Open(c, keccak, pair, subaddresses, derivations, ecdh, seen);
    if seen.amount.Some? {
      MaskOfOne(c, seen.amount.value);
    }
    if outcome.Found? {
      var subaddress := outcome.received.subaddress;
      SameEncoding(c, seen.key - 8 * derivations.sharedKey, 8 * pair.SpendOf(c, subaddress));
      if Eq(pair.spend, spendKey) {
        OffsetAdds(pair.spend, spendKey, derivations.sharedKey,
                   if subaddress.Some? then pair.SubaddressDerivation(c, subaddress.value) else 0, seen.key);
      }
    }
  }

  class InternalScanner {
    const pair: ViewPair
    const guaranteed: bool
    // By the encoding of the spend key
    var subaddresses: map<seq<byte>, Option<SubaddressIndex>>

    ghost predicate Valid(c: Curve)
      requires c.Valid()
      reads this
    {
      && Has(c, None)
      && forall key :: key in subaddresses ==> key == c.Encode(8 * pair.SpendOf(c, subaddresses[key]))
    }

    /** The keys of the index are looked for. */
    ghost predicate Has(c: Curve, index: Option<SubaddressIndex>)
      requires c.Valid()
      reads this
    {
      c.Encode(8 * pair.SpendOf(c, index)) in subaddresses
    }

    constructor (c: Curve, pair': ViewPair, guaranteed': bool)
      requires c.Valid()
      ensures Valid(c) && pair == pair' && guaranteed == guaranteed'
    {
      pair := pair';
      guaranteed := guaranteed';
      subaddresses := map[c.Encode(8 * pair'.spend) := None];
    }

    method RegisterSubaddress(c: Curve, index: SubaddressIndex)
      requires c.Valid() && Valid(c)
      modifies this
      ensures Valid(c) && Has(c, Some(index))
      ensures subaddresses == old(subaddresses)[c.Encode(8 * pair.SpendOf(c, Some(index))) := Some(index)]
    {
      hide Curve.Encode, ViewPair.SubaddressDerivation;
      var spend := pair.SubaddressKeys(c, index).0;
      subaddresses := subaddresses[c.Encode(8 * spend) := Some(index)];
    }

    /** One key tried for an output. */
    function Try(c: Curve, keccak: Keccak, uniqueness: seq<byte>, key: Point, o: nat, seen: Seen): Attempt
      requires c.Valid() && IsHash(keccak)
      reads this
    {
      TryKey(c, keccak, pair, guaranteed, subaddresses, uniqueness, key, o, seen)
    }
  }

  function TryKey(c: Curve, keccak: Keccak, pair: ViewPair, guaranteed: bool,
                  subaddresses: map<seq<byte>, Option<SubaddressIndex>>, uniqueness: seq<byte>, key: Point, o: nat, seen: Seen)
    : Attempt
    requires c.Valid() && IsHash(keccak)
  {
    var ecdh := pair.view * key;
    var derivations := OutputDerivations(c, keccak, if guaranteed then Some(uniqueness) else None, ecdh, o);
    Open(c, keccak, pair, subaddresses, derivations, ecdh, seen)
  }

  lemma OffsetAdds(spend: int, spendKey: int, shared: int, derivation: int, key: Point)
    requires Eq(spend, spendKey) && EqPoint(key - 8 * shared, 8 * (spend + derivation))
    ensures EqPoint(8 * (spendKey + (shared + derivation)), key)
  {
    var k := EqToMultiple(spend, spendKey);
    var j := EqPointToMultiple(key - 8 * shared, 8 * (spend + derivation));
    EqPointFromMultiple(8 * (spendKey + (shared + derivation)), key, -(k + j));
  }

  /** The first payment from a position on whose address has a payment ID. */
  function FirstWithPaymentId(c: Curve, s: Sender, from: nat): (o: Option<nat>)
    requires c.Valid() && from <= |s.payments|
    ensures o.Some? ==> from <= o.value < |s.payments| && s.payments[o.value].Address(c).paymentId.Some?
    ensures o.None? ==> forall k :: from <= k < |s.payments| ==> s.payments[k].Address(c).paymentId.None?
    decreases |s.payments| - from
  {
    if from == |s.payments| then None
    else if s.payments[from].Address(c).paymentId.Some? then Some(from)
    else FirstWithPaymentId(c, s, from + 1)
  }

  /** The payment ID put in the transaction: of the payment which has one, or, for two outputs, a dummy of zeros. */
  function EncryptedPaymentId(c: Curve, keccak: Keccak, s: Sender): Option<Bytes8>
    requires c.Valid() && IsHash(keccak) && s.Valid()
  {
    match FirstWithPaymentId(c, s, 0)
    case Some(o) => Some(Masked(s.payments[o].Address(c).paymentId.value, PaymentIdXor(c, keccak, 8 * s.Ecdh(c, o))))
    case None => if |s.payments| == 2 then Some(PaymentIdXor(c, keccak, 8 * s.Ecdh(c, s.FirstPayment(0)))) else None
  }

  // The recipient with the payment ID reads it, by the mask received with its output; without any,
  // the recipient of one of two outputs reads zeros.
  lemma PaymentIdIsReceived(c: Curve, keccak: Keccak, s: Sender, o: nat)
    requires c.Valid() && IsHash(keccak) && s.Valid() && o < |s.payments|
    requires s.payments[o].Address(c).paymentId.Some? ||
             (|s.payments| == 2 && o == s.FirstPayment(0) && forall k :: 0 <= k < |s.payments| ==>
                s.payments[k].Address(c).paymentId.None?)
    requires forall k :: 0 <= k < |s.payments| && k != o ==> s.payments[k].Address(c).paymentId.None?
    ensures EncryptedPaymentId(c, keccak, s).Some?
    ensures Masked(EncryptedPaymentId(c, keccak, s).value, PaymentIdXor(c, keccak, 8 * s.Ecdh(c, o))) ==
            if s.payments[o].Address(c).paymentId.Some? then s.payments[o].Address(c).paymentId.value else Zeros(8)
  {
    hide Masked, PaymentIdXor, Sender.Ecdh, InternalPayment.Address, FirstWithPaymentId, EncryptedPaymentId, Sender.Valid,
         Sender.FirstPayment;
    var xor := PaymentIdXor(c, keccak, 8 * s.Ecdh(c, o));
    if s.payments[o].Address(c).paymentId.Some? {
      assert FirstWithPaymentId(c, s, 0) == Some(o);
      PaymentIdPut(c, keccak, s, o);
      MaskedTwice(s.payments[o].Address(c).paymentId.value, xor);
    } else {
      assert FirstWithPaymentId(c, s, 0) == None;
      DummyPut(c, keccak, s);
      MaskedSelf(xor);
    }
  }

  lemma PaymentIdPut(c: Curve, keccak: Keccak, s: Sender, o: nat)
    requires c.Valid() && IsHash(keccak) && s.Valid() && FirstWithPaymentId(c, s, 0) == Some(o)
    ensures o < |s.payments| && s.payments[o].Address(c).paymentId.Some?
    ensures EncryptedPaymentId(c, keccak, s) ==
            Some(Masked(s.payments[o].Address(c).paymentId.value, PaymentIdXor(c, keccak, 8 * s.Ecdh(c, o))))
  {
    hide Masked, PaymentIdXor, Sender.Ecdh, InternalPayment.Address, FirstWithPaymentId, Sender.Valid;
  }

  lemma DummyPut(c: Curve, keccak: Keccak, s: Sender)
    requires c.Valid() && IsHash(keccak) && s.Valid() && FirstWithPaymentId(c, s, 0) == None && |s.payments| == 2
    ensures EncryptedPaymentId(c, keccak, s) == Some(PaymentIdXor(c, keccak, 8 * s.Ecdh(c, s.FirstPayment(0))))
  {
    hide Masked, PaymentIdXor, Sender.Ecdh, InternalPayment.Address, FirstWithPaymentId, Sender.FirstPayment;
  }

  lemma MaskedSelf(mask: Bytes8)
    ensures Masked(mask, mask) == Zeros(8)
  {
    XorSelf(LittleEndian(mask));
    BytesOfZero(8);
  }

  lemma {:induction false} BytesOfZero(n: nat)
    ensures LittleBytes(0, n) == Zeros(n)
  {
    if n > 0 {
      BytesOfZero(n - 1);
    }
  }

  /** A key whose shared secret with the receiver is the sender's: the transaction's, or the output's own. */
  ghost predicate SharesSecret(c: Curve, view: Scalar, s: Sender, o: nat, key: Point)
    requires c.Valid() && s.Valid() && o < |s.payments|
  {
    || (EqPoint(key, 8 * s.TxKeyPub(c)) && s.Ecdh(c, o) == view * s.TxKeyPub(c))
    || (s.ShouldUseAdditionalKeys() && EqPoint(key, 8 * s.AdditionalKeyPub(c, o)) &&
        s.Ecdh(c, o) == view * s.AdditionalKeyPub(c, o))
  }

  lemma SharedSecret(c: Curve, view: Scalar, s: Sender, o: nat, key: Point)
    requires c.Valid() && s.Valid() && o < |s.payments| && SharesSecret(c, view, s, o, key)
    ensures EqPoint(view * key, 8 * s.Ecdh(c, o))
  {
    hide EqPoint, Sender.TxKeyPub, Sender.AdditionalKeyPub, Sender.Ecdh;
    if EqPoint(key, 8 * s.TxKeyPub(c)) && s.Ecdh(c, o) == view * s.TxKeyPub(c) {
      EqPointScale(view, key, 8 * s.TxKeyPub(c));
      TimesEight(view, s.TxKeyPub(c));
    } else {
      EqPointScale(view, key, 8 * s.AdditionalKeyPub(c, o));
      TimesEight(view, s.AdditionalKeyPub(c, o));
    }
  }

  lemma TimesEight(view: int, key: int)
    ensures view * (8 * key) == 8 * (view * key)
  {
  }

  // Every output is received by whoever holds the address it is paid to, with the key its secret is shared
  // through, for every mix of payments and every kind of address.
  lemma EveryOutputIsReceived(c: Curve, scanner: InternalScanner, keccak: Keccak, s: Sender, uniqueness: seq<byte>, o: nat,
                              amount: u64, index: Option<SubaddressIndex>, seen: Seen, key: Point)
    requires c.Valid() && IsHash(keccak) && s.Valid() && o < |s.payments| && scanner.Valid(c)
    requires AddressOf(c, scanner.pair, index, s.payments[o].Address(c)) && scanner.Has(c, index)
    requires s.payments[o].Address(c).guaranteed == scanner.guaranteed
    requires SharesSecret(c, scanner.pair.view, s, o, key)
    requires Shows(c, seen, Send(c, keccak, s, uniqueness, o, amount))
    ensures var outcome := scanner.Try(c, keccak, uniqueness, key, o, seen);
            && outcome.Found?
            && outcome.received.commitment.amount == amount
            && OpensCommitment(c, outcome.received, seen)
            && Eq(scanner.pair.SpendOf(c, outcome.received.subaddress), s.payments[o].Address(c).spend)
            && outcome.received.paymentIdXor == PaymentIdXor(c, keccak, 8 * s.Ecdh(c, o))
            && forall spendKey :: Spendable(scanner.pair, outcome.received, seen.key, spendKey)
  {
    hide Eq, EqPoint, OutputDerivations, CommitmentMask, PaymentIdXor, Curve.Encode, Commitment.Commit, Spendable,
         ViewPair.SubaddressDerivation, Open, Seal, Shows, SharesSecret, OpensCommitment, Sender.Ecdh, Sender.TxKeyPub,
         Sender.AdditionalKeyPub;
    var address := s.payments[o].Address(c);
    var uniquely := if scanner.guaranteed then Some(uniqueness) else None;
    var ecdh := scanner.pair.view * key;
    SharedSecret(c, scanner.pair.view, s, o, key);
    SameDerivations(c, keccak, uniquely, ecdh, 8 * s.Ecdh(c, o), o);
    var derivations := OutputDerivations(c, keccak, uniquely, ecdh, o);
    AddressSpend(c, scanner.pair, index, address);
    OpenSealed(c, keccak, scanner.pair, scanner.subaddresses, derivations, ecdh, address.spend, amount, seen);
    var received := Open(c, keccak, scanner.pair, scanner.subaddresses, derivations, ecdh, seen).received;
    SameEncoding(c, 8 * scanner.pair.SpendOf(c, received.subaddress), 8 * address.spend);
    EqPointOfEight(scanner.pair.SpendOf(c, received.subaddress), address.spend);
    forall spendKey
      ensures Spendable(scanner.pair, received, seen.key, spendKey)
    {
      OpenedOffset(c, keccak, scanner.pair, scanner.subaddresses, derivations, ecdh, seen, spendKey);
    }
    OpenedOffset(c, keccak, scanner.pair, scanner.subaddresses, derivations, ecdh, seen, 0);
  }

  lemma AddressSpend(c: Curve, pair: ViewPair, index: Option<SubaddressIndex>, address: Address)
    requires c.Valid() && AddressOf(c, pair, index, address)
    ensures address.spend == pair.SpendOf(c, index)
  {
  }
}
