/**
wallet/src/lib.rs and view_pair.rs: what the wallet's hashes are bound to. Two outputs, or two subaddresses, share a
secret only if a hash collides.
 */
module WalletSecrets {
  import opened Wrappers
  import opened PowersOfTwo
  import opened Ed25519
  import opened WalletKeys
  import Scan
  import VarInt
  import Pieces
  import Tx = Transactions

  /** Two byte strings with one scalar. */
  ghost predicate Collide(c: Curve, a: seq<byte>, b: seq<byte>) {
    a != b && c.hash(a) == c.hash(b)
  }

  // ---------------------------------------------------------------------------------------------
  // What is hashed, by the words in it.

  function Ascii(text: string): (bytes: seq<byte>)
    requires forall i :: 0 <= i < |text| ==> text[i] as int < 128
    ensures |bytes| == |text|
  {
    seq(|text|, i requires 0 <= i < |text| => text[i] as int)
  }

  // Every secret of an output and of a subaddress, as the comments of the code and the network have them.
  lemma HashesAre(c: Curve, keccak: Keccak, pair: ViewPair, index: SubaddressIndex, uniqueness: seq<byte>, ecdh: Point, o: nat,
                  sharedKey: Scalar, inputs: seq<Tx.Input>)
    requires c.Valid() && IsHash(keccak)
    ensures var derivation := c.Encode(8 * ecdh) + VarInt.Encoding(o);
            && OutputDerivations(c, keccak, None, ecdh, o) ==
               SharedKeyDerivations(keccak(Ascii("view_tag") + derivation)[0], c.hash(derivation))
            && OutputDerivations(c, keccak, Some(uniqueness), ecdh, o) ==
               SharedKeyDerivations(keccak(Ascii("view_tag") + derivation)[0], c.hash(uniqueness + derivation))
    ensures PaymentIdXor(c, keccak, ecdh) == keccak(c.Encode(8 * ecdh) + [0x8d])[..8]
    ensures CommitmentMask(c, sharedKey) == c.hash(Ascii("commitment_mask") + c.EncodeScalar(sharedKey))
    ensures AmountMask(c, keccak, sharedKey) == keccak(Ascii("amount") + c.EncodeScalar(sharedKey))[..8]
    ensures Scan.UniquenessOf(keccak, inputs) == keccak(Ascii("uniqueness") + Scan.Identity(inputs))
    ensures pair.SubaddressDerivation(c, index) ==
            c.hash(Ascii("SubAddr") + [0] + c.EncodeScalar(pair.view) + LittleBytes(index.account, 4) + LittleBytes(index.address, 4))
  {
    hide Curve.Encode, Curve.EncodeScalar, VarInt.Encoding, U32Bytes, LittleBytes, Curve.Valid, IsHash, Scan.Identity;
    assert VIEW_TAG == Ascii("view_tag") && COMMITMENT_MASK == Ascii("commitment_mask") && AMOUNT == Ascii("amount");
    assert Scan.UNIQUENESS == Ascii("uniqueness") && SUBADDRESS_LABEL == Ascii("SubAddr") + [0];
    U32BytesAre(index.account);
    U32BytesAre(index.address);
    BytesOfTheirNumber(U32Bytes(index.account));
    BytesOfTheirNumber(U32Bytes(index.address));
  }

  // ---------------------------------------------------------------------------------------------
  // Subaddresses.

  lemma U32BytesBind(m: u32, n: u32)
    requires U32Bytes(m) == U32Bytes(n)
    ensures m == n
  {
    U32BytesAre(m);
    U32BytesAre(n);
  }

  lemma U32BytesAre(n: u32)
    ensures LittleEndian(U32Bytes(n)) == n
  {
    var b := U32Bytes(n);
    assert b[1..][1..][1..][1..] == [];
    assert LittleEndian(b[1..][1..][1..]) == n / 256 / 256 / 256;
    assert LittleEndian(b[1..][1..]) == n / 256 / 256;
    assert LittleEndian(b[1..]) == n / 256;
  }

  // Different indexes have different spend keys, or a collision shows.
  lemma SubaddressesApart(c: Curve, pair: ViewPair, i: SubaddressIndex, j: SubaddressIndex) returns (a: seq<byte>, b: seq<byte>)
    requires c.Valid() && i != j
    ensures a != b && c.hash(a) == pair.SubaddressDerivation(c, i) && c.hash(b) == pair.SubaddressDerivation(c, j)
    ensures pair.SubaddressDerivation(c, i) == pair.SubaddressDerivation(c, j) ==> Collide(c, a, b)
  {
    hide U32Bytes, Curve.Valid;
    var start := SUBADDRESS_LABEL + c.EncodeScalar(pair.view);
    a := start + U32Bytes(i.account) + U32Bytes(i.address);
    b := start + U32Bytes(j.account) + U32Bytes(j.address);
    if a == b {
      assert [] + start == start;
      Pieces.PiecesBind(start, U32Bytes(i.account), U32Bytes(i.address), [], start, U32Bytes(j.account), U32Bytes(j.address), []);
      U32BytesBind(i.account, j.account);
      U32BytesBind(i.address, j.address);
    }
  }

  // ---------------------------------------------------------------------------------------------
  // Outputs.

  // A derivation tells its shared point and its position.
  lemma DerivationBinds(c: Curve, p: Point, q: Point, m: nat, n: nat)
    requires c.Valid() && m <= U64_MAX && n <= U64_MAX && OutputDerivation(c, p, m) == OutputDerivation(c, q, n)
    ensures EqPoint(8 * p, 8 * q) && m == n
  {
    hide EqPoint, Curve.Encode, VarInt.Encoding;
    var a, b := c.Encode(8 * p), c.Encode(8 * q);
    assert a == OutputDerivation(c, p, m)[..32] && b == OutputDerivation(c, q, n)[..32];
    SameEncoding(c, 8 * p, 8 * q);
    assert VarInt.Encoding(m) == OutputDerivation(c, p, m)[32..] && VarInt.Encoding(n) == OutputDerivation(c, q, n)[32..];
    EncodingBinds(m, n);
  }

  lemma EncodingBinds(m: u64, n: u64)
    requires VarInt.Encoding(m) == VarInt.Encoding(n)
    ensures m == n
  {
    hide VarInt.Encoding, VarInt.Decoded;
    SixtyFour();
    var data := VarInt.Encoding(m);
    assert data + [] == data;
    VarInt.DecodesIffEncoded(data, 0, 64, m, []);
    VarInt.DecodesIffEncoded(data, 0, 64, n, []);
  }

  // Two outputs of a transaction have two shared keys, whatever secrets they are made with, or a collision shows.
  lemma OutputsApart(c: Curve, keccak: Keccak, uniqueness: Option<seq<byte>>, p: Point, q: Point, m: nat, n: nat)
    returns (a: seq<byte>, b: seq<byte>)
    requires c.Valid() && IsHash(keccak) && m <= U64_MAX && n <= U64_MAX && (m != n || !EqPoint(8 * p, 8 * q))
    ensures a != b
    ensures OutputDerivations(c, keccak, uniqueness, p, m).sharedKey == OutputDerivations(c, keccak, uniqueness, q, n).sharedKey ==>
              Collide(c, a, b)
  {
    hide EqPoint, OutputDerivation, Curve.Valid;
    var start := if uniqueness.Some? then uniqueness.value else [];
    a, b := start + OutputDerivation(c, p, m), start + OutputDerivation(c, q, n);
    assert OutputDerivation(c, p, m) == a[|start|..] && OutputDerivation(c, q, n) == b[|start|..];
    if a == b {
      DerivationBinds(c, p, q, m, n);
    }
  }

  // ---------------------------------------------------------------------------------------------
  // Guaranteed outputs.

  ghost predicate Spends(inputs: seq<Tx.Input>) {
    forall i :: 0 <= i < |inputs| ==> inputs[i].ToKey? && |inputs[i].keyImage| == 32
  }

  function Images(inputs: seq<Tx.Input>): (images: seq<seq<byte>>)
    requires Spends(inputs)
    ensures |images| == |inputs|
  {
    seq(|inputs|, i requires 0 <= i < |inputs| => inputs[i].keyImage)
  }

  lemma {:induction false} IdentityIs(inputs: seq<Tx.Input>)
    requires Spends(inputs)
    ensures Scan.Identity(inputs) == Pieces.Flat(Images(inputs))
  {
    if inputs != [] {
      IdentityIs(inputs[1..]);
      assert Images(inputs) == [inputs[0].keyImage] + Images(inputs[1..]);
    }
  }

  // Unique transactions spend different key images, so that no other one has this uniqueness without a collision.
  lemma UniquenessBinds(keccak: Keccak, inputs: seq<Tx.Input>, inputs': seq<Tx.Input>)
    requires Spends(inputs) && Spends(inputs') && Images(inputs) != Images(inputs')
    ensures var a, b := Scan.UNIQUENESS + Pieces.Flat(Images(inputs)), Scan.UNIQUENESS + Pieces.Flat(Images(inputs'));
            && a != b && Scan.UniquenessOf(keccak, inputs) == keccak(a) && Scan.UniquenessOf(keccak, inputs') == keccak(b)
  {
    hide Images;
    IdentityIs(inputs);
    IdentityIs(inputs');
    ImagesAre(inputs);
    ImagesAre(inputs');
    var a, b := Scan.UNIQUENESS + Pieces.Flat(Images(inputs)), Scan.UNIQUENESS + Pieces.Flat(Images(inputs'));
    assert Pieces.Flat(Images(inputs)) == a[|Scan.UNIQUENESS|..] && Pieces.Flat(Images(inputs')) == b[|Scan.UNIQUENESS|..];
    if a == b {
      Pieces.FlatBinds(Images(inputs), Images(inputs'));
    }
  }

  // The uniqueness of a miner's transaction is that of its block.
  lemma MinerUniqueness(keccak: Keccak, height: u64, height': u64)
    ensures Scan.UniquenessOf(keccak, [Tx.Gen(height)]) == keccak(Scan.UNIQUENESS + VarInt.Encoding(height))
    ensures height != height' ==> Scan.UNIQUENESS + VarInt.Encoding(height) != Scan.UNIQUENESS + VarInt.Encoding(height')
  {
    hide VarInt.Encoding;
    var inputs := [Tx.Gen(height)];
    assert inputs[1..] == [] && Scan.Identity([]) == [];
    assert Scan.Identity(inputs) == VarInt.Encoding(height);
    var a, b := Scan.UNIQUENESS + VarInt.Encoding(height), Scan.UNIQUENESS + VarInt.Encoding(height');
    assert a[|Scan.UNIQUENESS|..] == VarInt.Encoding(height) && b[|Scan.UNIQUENESS|..] == VarInt.Encoding(height');
    if a == b {
      EncodingBinds(height, height');
    }
  }

  lemma ImagesAre(inputs: seq<Tx.Input>)
    requires Spends(inputs)
    ensures Pieces.AllOf32(Images(inputs))
  {
  }

  // A guaranteed output cannot be paid again by another transaction: the shared keys are different whatever the
  // shared points and positions are, or one of the two hashes collides. Without the guarantee, they are the same
  // wherever the shared point and the position are.
  lemma GuaranteedIsUnique(c: Curve, keccak: Keccak, inputs: seq<Tx.Input>, inputs': seq<Tx.Input>, p: Point, q: Point, m: nat,
                           n: nat)
    returns (a: seq<byte>, b: seq<byte>)
    requires c.Valid() && IsHash(keccak) && Spends(inputs) && Spends(inputs') && Images(inputs) != Images(inputs')
    ensures var one := OutputDerivations(c, keccak, Some(Scan.UniquenessOf(keccak, inputs)), p, m).sharedKey;
            var other := OutputDerivations(c, keccak, Some(Scan.UniquenessOf(keccak, inputs')), q, n).sharedKey;
            one == other ==> Collide(c, a, b) || (a != b && keccak(a) == keccak(b))
    ensures EqPoint(8 * p, 8 * q) && m == n ==>
              OutputDerivations(c, keccak, None, p, m).sharedKey == OutputDerivations(c, keccak, None, q, n).sharedKey
  {
    hide EqPoint, Curve.Encode, Scan.UniquenessOf, Curve.Valid, VarInt.Encoding;
    UniquenessBinds(keccak, inputs, inputs');
    SameEncoding(c, 8 * p, 8 * q);
    var u, v := Scan.UniquenessOf(keccak, inputs), Scan.UniquenessOf(keccak, inputs');
    a, b := Scan.UNIQUENESS + Pieces.Flat(Images(inputs)), Scan.UNIQUENESS + Pieces.Flat(Images(inputs'));
    if u != v {
      a, b := u + OutputDerivation(c, p, m), v + OutputDerivation(c, q, n);
      assert u == a[..32] && v == b[..32];
    }
  }

  // ---------------------------------------------------------------------------------------------
  // Change.

  // Change goes to the address of its view pair, of the subaddress asked for if there is one.
  lemma ChangeGoesHome(c: Curve, payment: InternalPayment)
    requires c.Valid() && payment.ChangeWithView()
    ensures var address := payment.Address(c);
            && AddressOf(c, payment.change.pair, payment.change.subaddress, address)
            && address.paymentId.None? && (address.guaranteed <==> payment.change.Guaranteed?)
            && (address.subaddress <==> payment.change.subaddress.Some?)
            && address.spend == payment.change.pair.SpendOf(c, payment.change.subaddress)
            && address.view == payment.change.pair.view *
                               (if payment.change.subaddress.Some? then address.spend else 1)
  {
  }
}
