/** The bytes of a wallet's transaction and of its extra, from the first to the last, as the network's format has them. */
module Layout {
  import opened Wrappers
  import opened PowersOfTwo
  import opened Ed25519
  import opened Vectors
  import opened Pieces
  import Codec
  import opened Transactions
  import opened TransactionIo
  import opened TransactionSizes
  import Extra
  import VarInt

  /** What some values are written as, one after another. */
  function Listed<T>(f: T -> seq<byte>, values: seq<T>): seq<byte> {
    Flat(seq(|values|, i requires 0 <= i < |values| => f(values[i])))
  }

  lemma NoneListed<T>(f: T -> seq<byte>)
    ensures Listed(f, []) == []
  {
  }

  lemma ListedStep<T>(f: T -> seq<byte>, values: seq<T>)
    requires values != []
    ensures Listed(f, values) == f(values[0]) + Listed(f, values[1..])
  {
    var all := seq(|values|, i requires 0 <= i < |values| => f(values[i]));
    assert all[1..] == seq(|values[1..]|, i requires 0 <= i < |values[1..]| => f(values[1..][i]));
  }

  lemma {:induction false} RawIsListed<T>(f: T -> seq<byte>, g: T -> seq<byte>, values: seq<T>)
    requires forall i :: 0 <= i < |values| ==> f(values[i]) == g(values[i])
    ensures WriteRawVec(f, values) == Listed(g, values)
  {
    if values != [] {
      RawIsListed(f, g, values[1..]);
      ListedStep(g, values);
    }
  }

  function Itself(bytes: seq<byte>): seq<byte> {
    bytes
  }

  function Number(n: nat): seq<byte> {
    VarInt.Encoding(n)
  }

  // ---------------------------------------------------------------------------------------------
  // The transaction.

  function InputBytes(input: Input): seq<byte> {
    if input.Gen? then []
    else [2, 0] + Number(|input.keyOffsets|) + Listed(Number, input.keyOffsets) + input.keyImage
  }

  function OutputBytes(output: Output): seq<byte> {
    if output.viewTag.Some? then [0, 3] + output.key + [output.viewTag.value] else [0, 2] + output.key
  }

  function AmountBytes(amount: EncryptedAmount): seq<byte> {
    if amount.CompactAmount? then amount.bytes else []
  }

  function ProofBytes(bp: Bulletproof): seq<byte> {
    match bp
    case Original(A, S, T1, T2, tauX, mu, ls, rs, a, b, tHat) =>
      Flat([A, S, T1, T2, tauX, mu]) + Number(|ls|) + Flat(ls) + Number(|rs|) + Flat(rs) + Flat([a, b, tHat])
    case Plus(A, wipA, wipB, rAnswer, sAnswer, deltaAnswer, ls, rs) =>
      Flat([A, wipA, wipB, rAnswer, sAnswer, deltaAnswer]) + Number(|ls|) + Flat(ls) + Number(|rs|) + Flat(rs)
  }

  function ClsagBytes(clsag: Clsag): seq<byte> {
    Flat(clsag.s) + clsag.c1 + clsag.D
  }

  /** The version, no timelock, the inputs, the outputs, and the extra. */
  function PrefixBytes(p: TransactionPrefix): seq<byte> {
    [2, 0]
    + Number(|p.inputs|) + Listed(InputBytes, p.inputs)
    + Number(|p.outputs|) + Listed(OutputBytes, p.outputs)
    + Number(|p.extra|) + p.extra
  }

  /** The type, the fee, the encrypted amounts, and the commitments; one Bulletproof, the CLSAGs, and the pseudo-outs. */
  function RctBytes(base: RctBase, bp: Bulletproof, clsags: seq<Clsag>, pseudoOuts: seq<Bytes32>): seq<byte> {
    [if bp.Plus? then 6 else 5] + Number(base.fee)
    + Listed(AmountBytes, base.encryptedAmounts) + Flat(base.commitments)
    + [1] + ProofBytes(bp) + Listed(ClsagBytes, clsags) + Flat(pseudoOuts)
  }

  lemma FlatIsListed(list: seq<seq<byte>>)
    ensures WriteRawVec(WriteBytes, list) == Flat(list)
  {
    RawIsListed(WriteBytes, Itself, list);
    assert seq(|list|, i requires 0 <= i < |list| => Itself(list[i])) == list;
  }

  lemma InputIs(input: Input, offsets: seq<nat>)
    requires InputWhole(input, offsets)
    ensures WriteInput(input) == InputBytes(input)
  {
    hide VarInt.Encoding, Listed;
    var number := (n: nat) => VarInt.Encoding(n);
    RawIsListed(number, Number, input.keyOffsets);
    ZeroEncoding();
    assert [2] + [0] == [2, 0];
  }

  lemma OutputIs(output: Output, tagged: bool)
    requires OutputWhole(output, tagged)
    ensures WriteOutput(output) == OutputBytes(output)
  {
    hide VarInt.Encoding;
    ZeroEncoding();
  }

  lemma ProofIs(bp: Bulletproof)
    ensures WriteBulletproof(bp) == ProofBytes(bp)
  {
    hide VarInt.Encoding;
    FlatIsListed(bp.L);
    FlatIsListed(bp.R);
    match bp {
      case Original(A, S, T1, T2, tauX, mu, ls, rs, a, b, tHat) =>
        FlatSix(A, S, T1, T2, tauX, mu);
        FlatFew(a, b, tHat, []);
      case Plus(A, wipA, wipB, rAnswer, sAnswer, deltaAnswer, ls, rs) =>
        FlatSix(A, wipA, wipB, rAnswer, sAnswer, deltaAnswer);
    }
  }

  lemma FlatSix(a: seq<byte>, b: seq<byte>, c: seq<byte>, d: seq<byte>, e: seq<byte>, f: seq<byte>)
    ensures Flat([a, b, c, d, e, f]) == a + b + c + d + e + f
  {
    hide Flat;
    FlatFew(a, b, c, []);
    FlatFew(d, e, f, []);
    FlatConcat([a, b, c], [d, e, f]);
    assert [a, b, c] + [d, e, f] == [a, b, c, d, e, f];
  }

  lemma PrefixIs(p: TransactionPrefix, shape: Shape)
    requires PrefixShaped(p, shape)
    ensures VarInt.Encoding(2) + WritePrefix(p) == PrefixBytes(p)
  {
    hide VarInt.Encoding, WriteInput, WriteOutput, InputWhole, OutputWhole, Listed, InputBytes, OutputBytes;
    ZeroEncoding();
    forall i | 0 <= i < |p.inputs|
      ensures WriteInput(p.inputs[i]) == InputBytes(p.inputs[i])
    {
      InputIs(p.inputs[i], shape.keyOffsets[i]);
    }
    forall i | 0 <= i < |p.outputs|
      ensures WriteOutput(p.outputs[i]) == OutputBytes(p.outputs[i])
    {
      OutputIs(p.outputs[i], shape.plus);
    }
    RawIsListed(WriteInput, InputBytes, p.inputs);
    RawIsListed(WriteOutput, OutputBytes, p.outputs);
    assert [2] + [0] == [2, 0];
  }

  lemma RctIs(proofs: RctProofs, shape: Shape)
    requires BaseShaped(proofs.base, shape.outputs) && PrunableShaped(proofs.prunable, shape)
    ensures var p := proofs.prunable; WriteProofs(proofs) == RctBytes(proofs.base, p.bulletproof, p.clsags, p.pseudoOuts)
  {
    hide VarInt.Encoding, WriteBulletproof, ProofBytes, WriteClsag, ClsagBytes, ClsagWhole, Listed, Flat, Whole, AllOf;
    var p := proofs.prunable;
    ProofIs(p.bulletproof);
    forall i | 0 <= i < |p.clsags|
      ensures WriteClsag(p.clsags[i]) == ClsagBytes(p.clsags[i])
    {
      ClsagIs(p.clsags[i]);
    }
    RawIsListed(WriteClsag, ClsagBytes, p.clsags);
    RawIsListed(WriteEncryptedAmount, AmountBytes, proofs.base.encryptedAmounts);
    FlatIsListed(proofs.base.commitments);
    FlatIsListed(p.pseudoOuts);
  }

  lemma ClsagIs(clsag: Clsag)
    ensures WriteClsag(clsag) == ClsagBytes(clsag)
  {
    FlatIsListed(clsag.s);
  }

  // Whatever the wallet makes, whose shape is that of its plan, is these bytes.
  lemma TransactionIs(tx: Transaction, shape: Shape)
    requires Shaped(tx, shape)
    ensures var proofs := tx.body.proofs.value;
            WriteTransaction(tx) ==
            PrefixBytes(tx.prefix) +
            RctBytes(proofs.base, proofs.prunable.bulletproof, proofs.prunable.clsags, proofs.prunable.pseudoOuts)
  {
    hide VarInt.Encoding, WritePrefix, WriteProofs, PrefixShaped, BaseShaped, PrunableShaped, PrefixBytes, RctBytes;
    PrefixIs(tx.prefix, shape);
    RctIs(tx.body.proofs.value, shape);
  }

  // ---------------------------------------------------------------------------------------------
  // The extra.

  /** A nonce with a marker. */
  function NonceBytes(marker: byte, bytes: seq<byte>): seq<byte> {
    [2] + Number(1 + |bytes|) + [marker] + bytes
  }

  function DataBytes(data: seq<byte>): seq<byte> {
    NonceBytes(127, data)
  }

  /** The transaction's key, those of the outputs if there are any, the payment ID if there is one, and the data. */
  function ExtraBytes(key: Bytes32, additional: seq<Bytes32>, paymentId: Option<Extra.PaymentId>, data: seq<seq<byte>>): seq<byte> {
    [1] + key
    + (if additional == [] then [] else [4] + Number(|additional|) + Flat(additional))
    + (if paymentId.None? then [] else NonceBytes(if paymentId.value.Encrypted? then 1 else 0, paymentId.value.id))
    + Listed(DataBytes, data)
  }

  lemma {:induction false} ManyIsListed<T>(c: Codec.Codec<T>, g: T -> seq<byte>, values: seq<T>)
    requires forall i :: 0 <= i < |values| ==> c.write(values[i]) == g(values[i])
    ensures Codec.WriteMany(c, values) == Listed(g, values)
  {
    if values != [] {
      ManyIsListed(c, g, values[1..]);
      ListedStep(g, values);
    }
  }

  function One(b: byte): seq<byte> {
    [b]
  }

  lemma {:induction false} OnesAre(bytes: seq<byte>)
    ensures Listed(One, bytes) == bytes
  {
    if bytes != [] {
      OnesAre(bytes[1..]);
      ListedStep(One, bytes);
      assert bytes == [bytes[0]] + bytes[1..];
    }
  }

  lemma NonceIs(nonce: seq<byte>)
    ensures Extra.WriteField(Extra.Nonce(nonce)) == [2] + Number(|nonce|) + nonce
  {
    hide VarInt.Encoding, Listed, Pow2, Codec.Vec, Codec.AllOk, Codec.WriteMany;
    Codec.VecIs(Codec.Byte(), Some(Extra.MAX_TX_EXTRA_NONCE_SIZE), nonce);
    ManyIsListed(Codec.Byte(), One, nonce);
    OnesAre(nonce);
  }

  lemma KeysAre(keys: seq<Bytes32>)
    ensures Extra.WriteField(Extra.PublicKeys(keys)) == [4] + Number(|keys|) + Flat(keys)
  {
    hide VarInt.Encoding, Listed, Pow2, Codec.Vec, Codec.AllOk, Codec.WriteMany, WriteRawVec, Flat;
    Codec.VecIs(PointCodec(), None, keys);
    ManyIsListed(PointCodec(), Itself, keys);
    RawIsListed(WriteBytes, Itself, keys);
    FlatIsListed(keys);
  }

  lemma MarkedIs(marker: byte, bytes: seq<byte>)
    ensures Extra.WriteField(Extra.Nonce([marker] + bytes)) == NonceBytes(marker, bytes)
  {
    hide VarInt.Encoding;
    NonceIs([marker] + bytes);
  }

  lemma {:induction false} DataAre(data: seq<seq<byte>>)
    ensures Extra.WriteAll(Extra.Nonces(Extra.Marked(data))) == Listed(DataBytes, data)
  {
    hide VarInt.Encoding, Extra.WriteField, DataBytes, Listed;
    var fields := Extra.Nonces(Extra.Marked(data));
    if data == [] {
      NoneListed(DataBytes);
    } else {
      DataAre(data[1..]);
      assert fields[1..] == Extra.Nonces(Extra.Marked(data[1..]));
      ListedStep(DataBytes, data);
      FirstData(data[0]);
    }
  }

  lemma FirstData(data: seq<byte>)
    ensures Extra.WriteField(Extra.Nonce([Extra.ARBITRARY_DATA_MARKER] + data)) == DataBytes(data)
  {
    hide VarInt.Encoding, Extra.WriteField;
    MarkedIs(127, data);
  }

  // Whatever extra the wallet makes is these bytes.
  lemma ExtraIs(key: Bytes32, additional: seq<Bytes32>, paymentId: Option<Extra.PaymentId>, data: seq<seq<byte>>)
    ensures Extra.WriteAll(Extra.Sorted(Extra.SenderExtra(key, additional, Extra.SenderNonces(paymentId, data)))) ==
            ExtraBytes(key, additional, paymentId, data)
  {
    hide VarInt.Encoding, Extra.WriteField, Extra.Sorted, Extra.WriteAll, NonceBytes, Listed, Flat;
    var nonces := Extra.SenderNonces(paymentId, data);
    Extra.SenderSorted(key, additional, nonces);
    var first := [Extra.PublicKey(key)];
    var second := if additional == [] then [] else [Extra.PublicKeys(additional)];
    var third := if paymentId.Some? then [Extra.Nonce(Extra.WritePaymentId(paymentId.value))] else [];
    var last := Extra.Nonces(Extra.Marked(data));
    assert Extra.SenderExtra(key, additional, nonces) == first + second + third + last;
    Extra.WriteAllConcat(first + second + third, last);
    Extra.WriteAllConcat(first + second, third);
    Extra.WriteAllConcat(first, second);
    OneField(Extra.PublicKey(key));
    KeyIs(key);
    DataAre(data);
    NoField();
    if additional != [] {
      OneField(Extra.PublicKeys(additional));
      KeysAre(additional);
    }
    if paymentId.Some? {
      OneField(Extra.Nonce(Extra.WritePaymentId(paymentId.value)));
      MarkedIs(if paymentId.value.Encrypted? then 1 else 0, paymentId.value.id);
    }
  }

  lemma OneField(field: Extra.ExtraField)
    ensures Extra.WriteAll([field]) == Extra.WriteField(field)
  {
    assert [field][1..] == [];
  }

  lemma NoField()
    ensures Extra.WriteAll([]) == []
  {
  }

  lemma KeyIs(key: Bytes32)
    ensures Extra.WriteField(Extra.PublicKey(key)) == [1] + key
  {
  }
}
