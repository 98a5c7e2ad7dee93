/** src/transaction.rs: the hash of a transaction, and the hash its signatures are for. */
module TransactionHashes {
  import opened Wrappers
  import opened PowersOfTwo
  import opened Codec
  import opened Transactions
  import opened TransactionIo
  import TransactionSizes
  import VarInt

  function HashedPrefix(version: nat, prefix: TransactionPrefix): seq<byte> {
    VarInt.Encoding(version) + WritePrefix(prefix)
  }

  function HashedBase(proofs: Option<RctProofs>): seq<byte> {
    if proofs.Some? then WriteBase(proofs.value.base, TypeOf(proofs.value.prunable)) else [0]
  }

  /** The hash of what is not prunable, of the second version, and the hash of what is. */
  function HashWithPrunable(keccak: Keccak, prefix: TransactionPrefix, proofs: Option<RctProofs>, prunable: seq<byte>): seq<byte> {
    keccak(keccak(HashedPrefix(2, prefix)) + keccak(HashedBase(proofs)) + prunable)
  }

  function PrunableHash(keccak: Keccak, proofs: Option<RctProofs>): seq<byte> {
    if proofs.Some? then keccak(WritePrunable(proofs.value.prunable, TypeOf(proofs.value.prunable))) else Zeros(32)
  }

  function Hash(keccak: Keccak, tx: Transaction): seq<byte> {
    match tx.body
    case Signatures(signatures) => keccak(HashedPrefix(1, tx.prefix) + WriteRawVec(WriteRingSignature, signatures))
    case Proofs(proofs) => HashWithPrunable(keccak, tx.prefix, proofs, PrunableHash(keccak, proofs))
  }

  /** A Bulletproof as it is signed: its lists are without their lengths. */
  function SignatureWrite(bp: Bulletproof): seq<byte> {
    match bp
    case Original(A, S, T1, T2, tauX, mu, L, R, a, b, tHat) =>
      A + S + T1 + T2 + tauX + mu + WriteRawVec(WriteBytes, L) + WriteRawVec(WriteBytes, R) + a + b + tHat
    case Plus(A, wipA, wipB, rAnswer, sAnswer, deltaAnswer, L, R) =>
      A + wipA + wipB + rAnswer + sAnswer + deltaAnswer + WriteRawVec(WriteBytes, L) + WriteRawVec(WriteBytes, R)
  }

  /** What is signed of the prunable proofs: those of ranges. */
  function PrunableSigned(p: RctPrunable): seq<byte> {
    match p
    case AggregateMlsagBorromean(borromean, _) => WriteRawVec(WriteBorromean, borromean)
    case MlsagBorromean(borromean, _) => WriteRawVec(WriteBorromean, borromean)
    case MlsagBulletproofs(bulletproof, _, _) => SignatureWrite(bulletproof)
    case MlsagBulletproofsCompactAmount(bulletproof, _, _) => SignatureWrite(bulletproof)
    case ClsagProofs(bulletproof, _, _) => SignatureWrite(bulletproof)
  }

  /** The message of a transaction's signatures, if it has any. */
  function SignatureHash(keccak: Keccak, tx: Transaction): (hash: Option<seq<byte>>)
    ensures hash.Some? && IsHash(keccak) ==> |hash.value| == 32
  {
    match tx.body
    case Signatures(_) =>
      if |tx.prefix.inputs| == 1 && tx.prefix.inputs[0].Gen? then None else Some(keccak(HashedPrefix(1, tx.prefix)))
    case Proofs(None) => None
    case Proofs(Some(proofs)) =>
      Some(HashWithPrunable(keccak, tx.prefix, Some(proofs), keccak(PrunableSigned(proofs.prunable))))
  }

  // The hash of the first version is that of the whole serialization.
  lemma FirstVersionHash(keccak: Keccak, tx: Transaction)
    requires tx.body.Signatures?
    ensures Hash(keccak, tx) == keccak(WriteTransaction(tx))
  {
    hide WritePrefix, WriteRawVec, VarInt.Encoding;
  }

  /** `hash_with_prunable_hash`, of a pruned transaction */
  function PrunedHash(keccak: Keccak, tx: TransactionSizes.PrunedTransaction, prunable: seq<byte>): Option<seq<byte>> {
    match tx.body
    case NoSignatures => None
    case PrunedProofs(proofs) =>
      var base := if proofs.Some? then WriteBase(proofs.value.1, proofs.value.0) else [0];
      Some(keccak(keccak(HashedPrefix(2, tx.prefix)) + keccak(base) + prunable))
  }

  // What was pruned leaves the hash of the transaction, given the hash of the prunable part. Without proofs
  // that is zeros, and not the hash of no bytes.
  lemma PrunedHashIsHash(keccak: Keccak, tx: Transaction)
    requires tx.body.Proofs?
    ensures var (pruned, prunable) := TransactionSizes.PrunedWithPrunable(tx);
            PrunedHash(keccak, pruned, if tx.body.proofs.Some? then keccak(prunable) else Zeros(32)) == Some(Hash(keccak, tx))
  {
    hide WritePrefix, WriteBase, WritePrunable, VarInt.Encoding, TypeOf;
  }

  // The hash of the second version is one of three hashes: of the serialization up to the end of the prefix, of what
  // follows up to the end of the base, and of the rest. The message has the first two of them, and as the third the
  // hash of what is signed of the range proofs.
  lemma HashedInThree(keccak: Keccak, tx: Transaction) returns (p: nat, q: nat)
    requires tx.body.Proofs? && tx.body.proofs.Some?
    ensures var data, proofs := WriteTransaction(tx), tx.body.proofs.value;
            && p <= q <= |data|
            && data[..p] == VarInt.Encoding(2) + WritePrefix(tx.prefix)
            && data[p..q] == WriteBase(proofs.base, TypeOf(proofs.prunable))
            && data[q..] == WritePrunable(proofs.prunable, TypeOf(proofs.prunable))
            && Hash(keccak, tx) == keccak(keccak(data[..p]) + keccak(data[p..q]) + keccak(data[q..]))
            && SignatureHash(keccak, tx) ==
               Some(keccak(keccak(data[..p]) + keccak(data[p..q]) + keccak(PrunableSigned(proofs.prunable))))
  {
    hide WritePrefix, WriteBase, WritePrunable, VarInt.Encoding, TypeOf, PrunableSigned;
    var proofs := tx.body.proofs.value;
    var t := TypeOf(proofs.prunable);
    var first := VarInt.Encoding(2) + WritePrefix(tx.prefix);
    var second, third := WriteBase(proofs.base, t), WritePrunable(proofs.prunable, t);
    p, q := |first|, |first| + |second|;
    var data := WriteTransaction(tx);
    assert data == first + second + third;
    assert data[..p] == first && data[p..q] == second && data[q..] == third;
  }

  // ---------------------------------------------------------------------------------------------
  // What the message binds.

  /** All a Bulletproof consists of, in its order. */
  function Pieces(bp: Bulletproof): seq<Bytes32> {
    match bp
    case Original(A, S, T1, T2, tauX, mu, L, R, a, b, tHat) => [A, S, T1, T2, tauX, mu] + (L + R) + [a, b, tHat]
    case Plus(A, wipA, wipB, rAnswer, sAnswer, deltaAnswer, L, R) => [A, wipA, wipB, rAnswer, sAnswer, deltaAnswer] + (L + R)
  }

  lemma {:induction false} RawConcat(a: seq<Bytes32>, b: seq<Bytes32>)
    ensures WriteRawVec(WriteBytes, a + b) == WriteRawVec(WriteBytes, a) + WriteRawVec(WriteBytes, b)
  {
    if a == [] {
      assert a + b == b;
    } else {
      assert (a + b)[1..] == a[1..] + b;
      RawConcat(a[1..], b);
    }
  }

  lemma RawSix(a: Bytes32, b: Bytes32, c: Bytes32, d: Bytes32, e: Bytes32, f: Bytes32)
    ensures WriteRawVec(WriteBytes, [a, b, c, d, e, f]) == a + b + c + d + e + f
  {
    RawThree(a, b, c);
    RawThree(d, e, f);
    RawConcat([a, b, c], [d, e, f]);
    assert [a, b, c] + [d, e, f] == [a, b, c, d, e, f];
  }

  lemma RawThree(a: Bytes32, b: Bytes32, c: Bytes32)
    ensures WriteRawVec(WriteBytes, [a, b, c]) == a + b + c
  {
    assert [a, b, c][1..] == [b, c] && [b, c][1..] == [c] && [c][1..] == [];
    assert WriteRawVec(WriteBytes, [c]) == c;
    assert WriteRawVec(WriteBytes, [b, c]) == b + c;
  }

  lemma SignedPieces(bp: Bulletproof)
    ensures SignatureWrite(bp) == WriteRawVec(WriteBytes, Pieces(bp))
  {
    hide WriteRawVec;
    RawConcat(bp.L, bp.R);
    match bp {
      case Original(A, S, T1, T2, tauX, mu, L, R, a, b, tHat) =>
        RawSix(A, S, T1, T2, tauX, mu);
        RawThree(a, b, tHat);
        RawConcat([A, S, T1, T2, tauX, mu], L + R);
        RawConcat([A, S, T1, T2, tauX, mu] + (L + R), [a, b, tHat]);
      case Plus(A, wipA, wipB, rAnswer, sAnswer, deltaAnswer, L, R) =>
        RawSix(A, wipA, wipB, rAnswer, sAnswer, deltaAnswer);
        RawConcat([A, wipA, wipB, rAnswer, sAnswer, deltaAnswer], L + R);
    }
  }

  lemma {:induction false} RawIsExact(a: seq<Bytes32>, b: seq<Bytes32>)
    requires TransactionSizes.AllOf(a, 32) && TransactionSizes.AllOf(b, 32)
    ensures WriteRawVec(WriteBytes, a) == WriteRawVec(WriteBytes, b) <==> a == b
  {
    if a != [] && b != [] {
      RawIsExact(a[1..], b[1..]);
      assert WriteRawVec(WriteBytes, a) == a[0] + WriteRawVec(WriteBytes, a[1..]);
      assert WriteRawVec(WriteBytes, b) == b[0] + WriteRawVec(WriteBytes, b[1..]);
      if WriteRawVec(WriteBytes, a) == WriteRawVec(WriteBytes, b) {
        assert WriteRawVec(WriteBytes, a)[..32] == a[0] && WriteRawVec(WriteBytes, b)[..32] == b[0];
        assert WriteRawVec(WriteBytes, a)[32..] == WriteRawVec(WriteBytes, a[1..]);
        assert WriteRawVec(WriteBytes, b)[32..] == WriteRawVec(WriteBytes, b[1..]);
        assert a == [a[0]] + a[1..] && b == [b[0]] + b[1..];
      }
    }
  }

  // Where one list ends and the other begins is not signed: two Bulletproofs of a kind are signed alike exactly
  // if they have the same pieces.
  lemma SignedAlike(a: Bulletproof, b: Bulletproof)
    requires TransactionSizes.Whole(a) && TransactionSizes.Whole(b) && (a.Plus? <==> b.Plus?)
    ensures SignatureWrite(a) == SignatureWrite(b) <==> Pieces(a) == Pieces(b)
    ensures SignatureWrite(a) == SignatureWrite(b) && |a.L| == |b.L| ==> a == b
  {
    hide SignatureWrite;
    SignedPieces(a);
    SignedPieces(b);
    RawIsExact(Pieces(a), Pieces(b));
    if Pieces(a) == Pieces(b) && |a.L| == |b.L| {
      SamePieces(a, b);
    }
  }

  lemma SamePieces(a: Bulletproof, b: Bulletproof)
    requires (a.Plus? <==> b.Plus?) && Pieces(a) == Pieces(b) && |a.L| == |b.L|
    ensures a == b
  {
    var n := |a.L| + |a.R|;
    assert Pieces(a)[6..6 + n] == a.L + a.R && Pieces(b)[6..6 + n] == b.L + b.R;
    assert a.L == (a.L + a.R)[..|a.L|] && b.L == (b.L + b.R)[..|a.L|];
    assert a.R == (a.L + a.R)[|a.L|..] && b.R == (b.L + b.R)[|a.L|..];
    var p, q := Pieces(a), Pieces(b);
    assert p[0] == q[0] && p[1] == q[1] && p[2] == q[2] && p[3] == q[3] && p[4] == q[4] && p[5] == q[5];
    if a.Original? {
      assert p[6 + n] == q[6 + n] && p[7 + n] == q[7 + n] && p[8 + n] == q[8 + n];
      assert a.a == p[6 + n] && a.b == p[7 + n] && a.tHat == p[8 + n];
      assert b.a == q[6 + n] && b.b == q[7 + n] && b.tHat == q[8 + n];
    }
  }

  // The split can differ.
  lemma SplitIsNotSigned(a: Bulletproof, b: Bulletproof, point: Bytes32)
    requires a.Plus? && a.L == [point] && a.R == [] && b == a.(L := [], R := [point])
    ensures a != b && SignatureWrite(a) == SignatureWrite(b)
  {
    assert WriteRawVec(WriteBytes, [point]) == point + [];
    assert WriteRawVec(WriteBytes, []) == [];
  }

  predicate HasProofs(tx: Transaction) {
    tx.body.Proofs? && tx.body.proofs.Some?
  }

  ghost predicate Distinguishes(keccak: Keccak, a: seq<byte>, b: seq<byte>) {
    keccak(a) == keccak(b) ==> a == b
  }

  /** None of what is hashed for the one message collides with its counterpart for the other. */
  ghost predicate NoCollision(keccak: Keccak, a: Transaction, b: Transaction)
    requires HasProofs(a) && HasProofs(b)
  {
    var p, q := a.body.proofs, b.body.proofs;
    var signedA, signedB := PrunableSigned(p.value.prunable), PrunableSigned(q.value.prunable);
    && Distinguishes(keccak, HashedPrefix(2, a.prefix), HashedPrefix(2, b.prefix))
    && Distinguishes(keccak, HashedBase(p), HashedBase(q))
    && Distinguishes(keccak, signedA, signedB)
    && Distinguishes(keccak, keccak(HashedPrefix(2, a.prefix)) + keccak(HashedBase(p)) + keccak(signedA),
                     keccak(HashedPrefix(2, b.prefix)) + keccak(HashedBase(q)) + keccak(signedB))
  }

  lemma ThreeHashes(a: seq<byte>, b: seq<byte>, c: seq<byte>, d: seq<byte>, e: seq<byte>, f: seq<byte>)
    requires |a| == |d| && |b| == |e| && a + b + c == d + e + f
    ensures a == d && b == e && c == f
  {
    assert a == (a + b + c)[..|a|] && d == (d + e + f)[..|a|];
    assert b == (a + b + c)[|a|..|a| + |b|] && e == (d + e + f)[|a|..|a| + |b|];
    assert c == (a + b + c)[|a| + |b|..] && f == (d + e + f)[|a| + |b|..];
  }

  lemma ReadableParts(tx: Transaction)
    requires TransactionCodec().ok(tx) && HasProofs(tx)
    ensures PrefixCodec(2).ok(tx.prefix)
    ensures var p := tx.body.proofs.value;
            var ring, inputs, outputs := RingLength(tx.prefix.inputs), |tx.prefix.inputs|, |tx.prefix.outputs|;
            && BaseCodec(TypeOf(p.prunable), inputs, outputs).ok(p.base)
            && PrunableCodec(TypeOf(p.prunable), ring, inputs, outputs).ok(p.prunable)
  {
    hide PrefixCodec, ProofsCodec, BaseCodec, PrunableCodec, Iso, Then, Both, Num, Optional, TypeOf;
    IsoIs(Then(Num(64), VersionedCodec), IntoTransaction, FromTransaction, tx);
    ThenIs(Num(64), VersionedCodec, FromTransaction(tx));
    ThenIs(PrefixCodec(2), (p: TransactionPrefix) => BodyCodec(2, p), (tx.prefix, tx.body));
    var ring, inputs, outputs := RingLength(tx.prefix.inputs), |tx.prefix.inputs|, |tx.prefix.outputs|;
    IsoIs(Optional(ProofsCodec(ring, inputs, outputs)), IntoBodyProofs, FromBodyProofs, tx.body);
    OptionalIs(ProofsCodec(ring, inputs, outputs), tx.body.proofs);
    ReadableProofs(ring, inputs, outputs, tx.body.proofs.value);
  }

  lemma OptionalIs<T>(c: Codec<T>, v: Option<T>)
    requires Optional(c).ok(v) && v.Some?
    ensures c.ok(v.value)
  {
  }

  lemma ReadableProofs(ring: nat, inputs: nat, outputs: nat, p: RctProofs)
    requires ProofsCodec(ring, inputs, outputs).ok(p)
    ensures BaseCodec(TypeOf(p.prunable), inputs, outputs).ok(p.base)
    ensures PrunableCodec(TypeOf(p.prunable), ring, inputs, outputs).ok(p.prunable)
  {
    hide BaseCodec, PrunableCodec, TypeOf, RctTypeCodec, Iso, Then, Both;
    var t := TypeOf(p.prunable);
    IsoIs(Then(RctTypeCodec(outputs), (t: RctType) => TypedProofsCodec(ring, inputs, outputs, t)), IntoProofs, FromProofs, p);
    ThenIs(RctTypeCodec(outputs), (t: RctType) => TypedProofsCodec(ring, inputs, outputs, t), FromProofs(p));
    BothIs(BaseCodec(t, inputs, outputs), PrunableCodec(t, ring, inputs, outputs), (p.base, p.prunable));
  }

  // Points and scalars which can be read are whole.

  lemma WholeMany(n: nat, list: seq<Bytes32>)
    ensures Many(PointCodec(), n).ok(list) ==> |list| == n && TransactionSizes.AllOf(list, 32)
    ensures Many(ScalarCodec(), n).ok(list) ==> |list| == n && TransactionSizes.AllOf(list, 32)
  {
    assert forall b :: PointCodec().ok(b) || ScalarCodec().ok(b) ==> |b| == 32;
  }

  lemma WholeVec(list: seq<Bytes32>)
    requires Vec(PointCodec(), Some(MAX_LR)).ok(list)
    ensures TransactionSizes.AllOf(list, 32)
  {
    WholeMany(|list|, list);
  }

  lemma WholeBulletproof(plus: bool, bp: Bulletproof)
    requires BulletproofCodec(plus).ok(bp)
    ensures TransactionSizes.Whole(bp) && (bp.Plus? <==> plus)
  {
    hide Vec, Both, Iso, Many, PointCodec, ScalarCodec;
    BulletproofKind(plus, bp);
    var list := Vec(PointCodec(), Some(MAX_LR));
    if plus {
      var v := FromBulletproofPlus(bp);
      IsoIs(PlusFieldsCodec(), IntoBulletproofPlus, FromBulletproofPlus, bp);
      BothIs(Many(PointCodec(), 3), Both(Many(ScalarCodec(), 3), Both(list, list)), v);
      BothIs(Many(ScalarCodec(), 3), Both(list, list), v.1);
      BothIs(list, list, v.1.1);
      WholeMany(3, v.0);
      WholeMany(3, v.1.0);
      assert |v.0[0]| == |v.0[1]| == |v.0[2]| == 32 && |v.1.0[0]| == |v.1.0[1]| == |v.1.0[2]| == 32;
    } else {
      var v := FromBulletproof(bp);
      IsoIs(OriginalFieldsCodec(), IntoBulletproof, FromBulletproof, bp);
      BothIs(Many(PointCodec(), 4), Both(Many(ScalarCodec(), 2), Both(list, Both(list, Many(ScalarCodec(), 3)))), v);
      BothIs(Many(ScalarCodec(), 2), Both(list, Both(list, Many(ScalarCodec(), 3))), v.1);
      BothIs(list, Both(list, Many(ScalarCodec(), 3)), v.1.1);
      BothIs(list, Many(ScalarCodec(), 3), v.1.1.1);
      WholeMany(4, v.0);
      WholeMany(2, v.1.0);
      WholeMany(3, v.1.1.1.1);
      assert |v.0[0]| == |v.0[1]| == |v.0[2]| == |v.0[3]| == 32 && |v.1.0[0]| == |v.1.0[1]| == 32;
      assert |v.1.1.1.1[0]| == |v.1.1.1.1[1]| == |v.1.1.1.1[2]| == 32;
    }
    WholeVec(bp.L);
    WholeVec(bp.R);
  }

  predicate IsBorromean(p: RctPrunable) {
    p.AggregateMlsagBorromean? || p.MlsagBorromean?
  }

  // What is known of the range proofs of each type.
  lemma ReadableRangeProofs(t: RctType, ring: nat, inputs: nat, outputs: nat, p: RctPrunable)
    requires PrunableCodec(t, ring, inputs, outputs).ok(p)
    ensures TypeOf(p) == t
    ensures IsBorromean(p) ==> Many(BorromeanCodec(), outputs).ok(p.borromean)
    ensures !IsBorromean(p) ==>
              TransactionSizes.Whole(p.bulletproof) && (p.bulletproof.Plus? <==> t == ClsagBulletproofPlusType)
  {
    hide BorromeanCodec, MlsagCodec, BulletproofCodec, ClsagCodec, Many, After, Iso, Both, Num, Byte, TransactionSizes.Whole;
    PrunableType(t, ring, inputs, outputs, p);
    match t {
      case AggregateMlsagBorromeanType =>
        IsoIs(Both(Many(BorromeanCodec(), outputs), MlsagCodec(ring, inputs + 1)), IntoAggregate, FromAggregate, p);
        BothIs(Many(BorromeanCodec(), outputs), MlsagCodec(ring, inputs + 1), FromAggregate(p));
      case MlsagBorromeanType =>
        IsoIs(Both(Many(BorromeanCodec(), outputs), Many(MlsagCodec(ring, 2), inputs)), IntoMlsagBorromean, FromMlsagBorromean, p);
        BothIs(Many(BorromeanCodec(), outputs), Many(MlsagCodec(ring, 2), inputs), FromMlsagBorromean(p));
      case MlsagBulletproofsType =>
        IsoIs(After(Bytes(4), [1, 0, 0, 0], MlsagFieldsCodec(ring, inputs)), IntoMlsagBulletproofs, FromMlsagBulletproofs, p);
        AfterIs(Bytes(4), [1, 0, 0, 0], MlsagFieldsCodec(ring, inputs), FromMlsagBulletproofs(p));
        ReadableMlsag(ring, inputs, FromMlsagBulletproofs(p));
      case MlsagBulletproofsCompactAmountType =>
        IsoIs(After(Num(64), 1, MlsagFieldsCodec(ring, inputs)), IntoMlsagCompact, FromMlsagCompact, p);
        AfterIs(Num(64), 1, MlsagFieldsCodec(ring, inputs), FromMlsagCompact(p));
        ReadableMlsag(ring, inputs, FromMlsagCompact(p));
      case ClsagBulletproofType => ReadableClsag(false, ring, inputs, p);
      case ClsagBulletproofPlusType => ReadableClsag(true, ring, inputs, p);
    }
  }

  lemma ReadableMlsag(ring: nat, inputs: nat, v: MlsagFields)
    requires MlsagFieldsCodec(ring, inputs).ok(v)
    ensures TransactionSizes.Whole(v.0) && v.0.Original?
  {
    hide BulletproofCodec, MlsagCodec, Many, PointCodec;
    BothIs(BulletproofCodec(false), Both(Many(MlsagCodec(ring, 2), inputs), Many(PointCodec(), inputs)), v);
    WholeBulletproof(false, v.0);
  }

  lemma ReadableClsag(plus: bool, ring: nat, inputs: nat, p: RctPrunable)
    requires Iso(After(Byte(), 1, ClsagFieldsCodec(plus, ring, inputs)), IntoClsagProofs, FromClsagProofs).ok(p)
    ensures p.ClsagProofs? && TransactionSizes.Whole(p.bulletproof) && (p.bulletproof.Plus? <==> plus)
  {
    hide BulletproofCodec, ClsagCodec, Many;
    IsoIs(After(Byte(), 1, ClsagFieldsCodec(plus, ring, inputs)), IntoClsagProofs, FromClsagProofs, p);
    AfterIs(Byte(), 1, ClsagFieldsCodec(plus, ring, inputs), FromClsagProofs(p));
    ClsagKind(plus, ring, inputs, p);
    BothIs(BulletproofCodec(plus), Both(Many(ClsagCodec(ring), inputs), Many(PointCodec(), inputs)), FromClsagProofs(p));
    WholeBulletproof(plus, p.bulletproof);
  }

  lemma SameBorromeans(n: nat, a: seq<BorromeanRange>, b: seq<BorromeanRange>)
    requires Many(BorromeanCodec(), n).ok(a) && Many(BorromeanCodec(), n).ok(b)
    requires WriteRawVec(WriteBorromean, a) == WriteRawVec(WriteBorromean, b)
    ensures a == b
  {
    hide BorromeanCodec, WriteRawVec, Many;
    BorromeanExact();
    ManyExact(BorromeanCodec(), n);
    ManyBorromeans(n, a);
    ManyBorromeans(n, b);
    var codec := Many(BorromeanCodec(), n);
    assert codec.write(a) + [] == codec.write(a) && codec.write(b) + [] == codec.write(b);
    assert codec.read(codec.write(a)) == Some((a, [])) && codec.read(codec.write(b)) == Some((b, []));
  }

  /** The range proofs are the same, but for where the lists of a Bulletproof are split. */
  ghost predicate SameRangeProofs(p: RctPrunable, q: RctPrunable) {
    && TypeOf(p) == TypeOf(q)
    && (IsBorromean(p) ==> IsBorromean(q) && p.borromean == q.borromean)
    && (!IsBorromean(p) ==>
          && !IsBorromean(q) && (p.bulletproof.Plus? <==> q.bulletproof.Plus?)
          && Pieces(p.bulletproof) == Pieces(q.bulletproof)
          && (|p.bulletproof.L| == |q.bulletproof.L| ==> p.bulletproof == q.bulletproof))
  }

  // Of every type, transactions with the same message have the same prefix, the same base, and the same range
  // proofs.
  lemma MessageBinds(keccak: Keccak, a: Transaction, b: Transaction)
    requires IsHash(keccak) && TransactionCodec().ok(a) && TransactionCodec().ok(b) && HasProofs(a) && HasProofs(b)
    requires NoCollision(keccak, a, b) && SignatureHash(keccak, a) == SignatureHash(keccak, b)
    ensures a.prefix == b.prefix && a.body.proofs.value.base == b.body.proofs.value.base
    ensures SameRangeProofs(a.body.proofs.value.prunable, b.body.proofs.value.prunable)
  {
    hide TransactionCodec, PrefixCodec, BaseCodec, PrunableCodec, WritePrefix, WriteBase, VarInt.Encoding, PrunableSigned, TypeOf,
         SameRangeProofs;
    var p, q := a.body.proofs, b.body.proofs;
    ThreeHashes(keccak(HashedPrefix(2, a.prefix)), keccak(HashedBase(p)), keccak(PrunableSigned(p.value.prunable)),
                keccak(HashedPrefix(2, b.prefix)), keccak(HashedBase(q)), keccak(PrunableSigned(q.value.prunable)));
    ReadableParts(a);
    ReadableParts(b);
    SamePrefix(2, a.prefix, b.prefix);
    SameBase(TypeOf(p.value.prunable), TypeOf(q.value.prunable), |a.prefix.inputs|, |a.prefix.outputs|, p.value.base, q.value.base);
    SignedIsSame(TypeOf(p.value.prunable), RingLength(a.prefix.inputs), |a.prefix.inputs|, |a.prefix.outputs|,
                 p.value.prunable, q.value.prunable);
  }

  lemma SignedIsSame(t: RctType, ring: nat, inputs: nat, outputs: nat, p: RctPrunable, q: RctPrunable)
    requires PrunableCodec(t, ring, inputs, outputs).ok(p) && PrunableCodec(t, ring, inputs, outputs).ok(q)
    requires PrunableSigned(p) == PrunableSigned(q)
    ensures SameRangeProofs(p, q)
  {
    hide PrunableCodec, SignatureWrite, TransactionSizes.Whole, Pieces, Many, WriteRawVec;
    ReadableRangeProofs(t, ring, inputs, outputs, p);
    ReadableRangeProofs(t, ring, inputs, outputs, q);
    if IsBorromean(p) {
      SameBorromeans(outputs, p.borromean, q.borromean);
    } else {
      SignedAlike(p.bulletproof, q.bulletproof);
    }
  }

  // Of the first version, they have the same prefix, which is all that is signed.
  lemma FirstMessageBinds(keccak: Keccak, a: Transaction, b: Transaction)
    requires TransactionCodec().ok(a) && TransactionCodec().ok(b) && a.body.Signatures? && b.body.Signatures?
    requires SignatureHash(keccak, a) == SignatureHash(keccak, b) != None
    requires Distinguishes(keccak, HashedPrefix(1, a.prefix), HashedPrefix(1, b.prefix))
    ensures a.prefix == b.prefix
  {
    hide PrefixCodec, BodyCodec, HashedPrefix, Iso, Then, Num;
    forall tx | tx == a || tx == b
      ensures PrefixCodec(1).ok(tx.prefix)
    {
      IsoIs(Then(Num(64), VersionedCodec), IntoTransaction, FromTransaction, tx);
      ThenIs(Num(64), VersionedCodec, FromTransaction(tx));
      ThenIs(PrefixCodec(1), (p: TransactionPrefix) => BodyCodec(1, p), (tx.prefix, tx.body));
    }
    SamePrefix(1, a.prefix, b.prefix);
  }

  lemma SamePrefix(version: nat, p: TransactionPrefix, q: TransactionPrefix)
    requires PrefixCodec(version).ok(p) && PrefixCodec(version).ok(q) && HashedPrefix(version, p) == HashedPrefix(version, q)
    ensures p == q
  {
    hide PrefixCodec, WritePrefix, VarInt.Encoding;
    PrefixExact(version);
    PrefixWritten(version, p);
    PrefixWritten(version, q);
    var n := |VarInt.Encoding(version)|;
    assert WritePrefix(p) == HashedPrefix(version, p)[n..] && WritePrefix(q) == HashedPrefix(version, q)[n..];
    assert WritePrefix(p) + [] == WritePrefix(p) && WritePrefix(q) + [] == WritePrefix(q);
    assert PrefixCodec(version).read(WritePrefix(p)) == Some((p, []));
    assert PrefixCodec(version).read(WritePrefix(q)) == Some((q, []));
  }

  lemma SameBase(t: RctType, u: RctType, inputs: nat, outputs: nat, a: RctBase, b: RctBase)
    requires BaseCodec(t, inputs, outputs).ok(a) && BaseCodec(u, inputs, outputs).ok(b) && WriteBase(a, t) == WriteBase(b, u)
    ensures t == u && a == b
  {
    hide BaseCodec;
    BaseStarts(a, t);
    BaseStarts(b, u);
    assert t == u;
    hide WriteBase;
    BaseExact(t, inputs, outputs);
    BaseWritten(t, inputs, outputs, a);
    BaseWritten(t, inputs, outputs, b);
    var codec := BaseCodec(t, inputs, outputs);
    assert codec.write(a) == WriteBase(a, t)[1..] && codec.write(b) == WriteBase(b, t)[1..];
    assert codec.write(a) + [] == codec.write(a);
    assert codec.read(codec.write(a)) == Some((a, [])) && codec.read(codec.write(b) + []) == Some((b, []));
  }

  lemma BaseStarts(b: RctBase, t: RctType)
    ensures WriteBase(b, t) != [] && WriteBase(b, t)[0] == FromRctType(t)
  {
    hide WriteRawVec, VarInt.Encoding;
  }
}
