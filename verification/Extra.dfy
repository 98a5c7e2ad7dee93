/** wallet/src/extra.rs: the fields of a transaction's extra. */
module Extra {
  import opened Wrappers
  import opened PowersOfTwo
  import opened Vectors
  import opened Ed25519
  import opened Codec
  import opened Transactions
  import VarInt

  const MAX_TX_EXTRA_NONCE_SIZE: nat := 255
  const MAX_EXTRA_SIZE_BY_RELAY_RULE: nat := 1060
  const U64_LIMIT: nat := U64_MAX + 1
  const PAYMENT_ID_MARKER: byte := 0
  const ENCRYPTED_PAYMENT_ID_MARKER: byte := 1
  const ARBITRARY_DATA_MARKER: byte := 127
  const MAX_ARBITRARY_DATA_SIZE: nat := MAX_TX_EXTRA_NONCE_SIZE - 1

  datatype ExtraField =
    | Padding(size: nat)
    | PublicKey(key: Bytes32)
    | Nonce(nonce: seq<byte>)
    | MergeMining(depth: nat, merkleRoot: Bytes32)
    | PublicKeys(keys: seq<Bytes32>)
    | MysteriousMinergate(blob: seq<byte>)

  // ---------------------------------------------------------------------------------------------
  // Fields.

  function NonceCodec(): Codec<seq<byte>> {
    Vec(Byte(), Some(MAX_TX_EXTRA_NONCE_SIZE))
  }

  function KeysCodec(): Codec<seq<Bytes32>> {
    Vec(PointCodec(), None)
  }

  function BlobCodec(): Codec<seq<byte>> {
    Vec(Byte(), None)
  }

  /** The declared length of a merge mining tag, and its fields. */
  function MiningCodec(): Codec<(nat, (nat, Bytes32))> {
    Both(Num(64), Both(Num(64), Bytes(32)))
  }

  /** The length declared for a merge mining tag. */
  function MiningLength(depth: nat): nat {
    VarInt.VarIntLen(depth) + 32
  }

  function WriteField(f: ExtraField): seq<byte> {
    match f
    case Padding(size) => [0] + Zeros(if size > 1 then size - 1 else 0)
    case PublicKey(key) => [1] + key
    case Nonce(nonce) => [2] + NonceCodec().write(nonce)
    case MergeMining(depth, root) => [3] + MiningCodec().write((MiningLength(depth), (depth, root)))
    case PublicKeys(keys) => [4] + KeysCodec().write(keys)
    case MysteriousMinergate(blob) => [0xDE] + BlobCodec().write(blob)
  }

  /** The fields which can be read once they are written. */
  ghost predicate Readable(f: ExtraField) {
    match f
    case Padding(size) => 1 <= size <= 255
    case PublicKey(key) => |key| == 32
    case Nonce(nonce) => |nonce| <= MAX_TX_EXTRA_NONCE_SIZE
    case MergeMining(depth, root) => depth < U64_LIMIT && |root| == 32
    case PublicKeys(keys) => |keys| < U64_LIMIT && forall i :: 0 <= i < |keys| ==> |keys[i]| == 32
    case MysteriousMinergate(blob) => |blob| < U64_LIMIT
  }

  /** Zeros up to the end, and no more than make for the largest padding. */
  function ReadPadding(data: seq<byte>): Option<nat> {
    if (forall i :: 0 <= i < |data| ==> data[i] == 0) && |data| <= 254 then Some(|data| + 1) else None
  }

  function ReadField(data: seq<byte>): (r: Option<(ExtraField, seq<byte>)>) {
    if data == [] then None
    else if data[0] == 0 then
      match ReadPadding(data[1..])
      case None => None
      case Some(size) => Some((Padding(size), []))
    else if data[0] == 1 then
      match PointCodec().read(data[1..])
      case None => None
      case Some((key, rest)) => Some((PublicKey(key), rest))
    else if data[0] == 2 then
      match NonceCodec().read(data[1..])
      case None => None
      case Some((nonce, rest)) => Some((Nonce(nonce), rest))
    else if data[0] == 3 then
      match MiningCodec().read(data[1..])
      case None => None
      case Some((v, rest)) =>
        var (len, (depth, root)) := v;
        if len < MiningLength(depth) || |rest| < len - MiningLength(depth) then None
        else Some((MergeMining(depth, root), rest[len - MiningLength(depth)..]))
    else if data[0] == 4 then
      match KeysCodec().read(data[1..])
      case None => None
      case Some((keys, rest)) => Some((PublicKeys(keys), rest))
    else if data[0] == 0xDE then
      match BlobCodec().read(data[1..])
      case None => None
      case Some((blob, rest)) => Some((MysteriousMinergate(blob), rest))
    else None
  }

  /** The loop reading padding: one byte after another, counted in eight bits. */
  method CountPadding(data: seq<byte>) returns (size: Option<nat>)
    ensures size == ReadPadding(data)
  {
    var n := 1;
    for i := 0 to |data|
      invariant n == i + 1 <= 255
      invariant forall k :: 0 <= k < i ==> data[k] == 0
    {
      if data[i] != 0 {
        return None;
      }
      if n == 255 {
        return None;
      }
      n := n + 1;
    }
    size := Some(n);
  }

  lemma ExtraExact()
    ensures Exact(NonceCodec()) && Exact(KeysCodec()) && Exact(BlobCodec()) && Exact(MiningCodec()) && Exact(PointCodec())
  {
    hide Exact;
    SharedExact();
    BytesExact(32);
    VecExact(Byte(), Some(MAX_TX_EXTRA_NONCE_SIZE));
    VecExact(PointCodec(), None);
    VecExact(Byte(), None);
    BothExact(Num(64), Bytes(32));
    BothExact(Num(64), Both(Num(64), Bytes(32)));
  }

  lemma SmallLengths()
    ensures Pow2(64) == U64_LIMIT
    ensures forall depth :: 0 <= depth < U64_LIMIT ==> MiningLength(depth) < U64_LIMIT
  {
    hide Pow2, VarInt.Encoding;
    SmallPowers();
    Pow2Add(8, 8);
    Pow2Add(16, 16);
    Pow2Add(32, 32);
    forall depth: nat | depth < U64_LIMIT
      ensures MiningLength(depth) < U64_LIMIT
    {
      VarInt.LengthBound(depth, 64);
      VarInt.VarIntLenIsLength(depth);
    }
  }

  lemma BytesOk(bytes: seq<byte>)
    ensures AllOk(Byte(), bytes)
  {
  }

  lemma PointsOk(points: seq<Bytes32>)
    ensures AllOk(PointCodec(), points) <==> forall i :: 0 <= i < |points| ==> |points[i]| == 32
  {
  }

  lemma MiningOk(len: nat, depth: nat, root: Bytes32)
    ensures MiningCodec().ok((len, (depth, root))) <==> len < U64_LIMIT && depth < U64_LIMIT && |root| == 32
  {
    hide Pow2;
    SmallLengths();
    BothIs(Num(64), Both(Num(64), Bytes(32)), (len, (depth, root)));
    BothIs(Num(64), Bytes(32), (depth, root));
  }

  lemma PaddingRoundTrip(size: nat)
    requires 1 <= size <= 255
    ensures ReadField(WriteField(Padding(size))) == Some((Padding(size), []))
  {
    assert WriteField(Padding(size))[1..] == Zeros(size - 1);
  }

  lemma NonceOk(nonce: seq<byte>)
    ensures NonceCodec().ok(nonce) <==> |nonce| <= MAX_TX_EXTRA_NONCE_SIZE
  {
    hide Pow2, Vec, AllOk;
    SmallLengths();
    BytesOk(nonce);
    VecIs(Byte(), Some(MAX_TX_EXTRA_NONCE_SIZE), nonce);
  }

  lemma KeysOk(keys: seq<Bytes32>)
    ensures KeysCodec().ok(keys) <==> |keys| < U64_LIMIT && forall i :: 0 <= i < |keys| ==> |keys[i]| == 32
  {
    hide Pow2, Vec, AllOk;
    SmallLengths();
    PointsOk(keys);
    VecIs(PointCodec(), None, keys);
  }

  lemma BlobOk(blob: seq<byte>)
    ensures BlobCodec().ok(blob) <==> |blob| < U64_LIMIT
  {
    hide Pow2, Vec, AllOk;
    SmallLengths();
    BytesOk(blob);
    VecIs(Byte(), None, blob);
  }

  lemma KeyOk(key: Bytes32)
    ensures PointCodec().ok(key) <==> |key| == 32
    ensures PointCodec().write(key) == key
  {
  }

  lemma KeyRoundTrip(key: Bytes32, rest: seq<byte>)
    requires |key| == 32
    ensures ReadField(WriteField(PublicKey(key)) + rest) == Some((PublicKey(key), rest))
  {
    hide Exact, NonceCodec, KeysCodec, BlobCodec, MiningCodec, PointCodec, ReadPadding;
    ExtraExact();
    KeyOk(key);
    assert (WriteField(PublicKey(key)) + rest)[1..] == PointCodec().write(key) + rest;
    WrittenIsRead(PointCodec(), key, rest);
  }

  lemma NonceRoundTrip(nonce: seq<byte>, rest: seq<byte>)
    requires |nonce| <= MAX_TX_EXTRA_NONCE_SIZE
    ensures ReadField(WriteField(Nonce(nonce)) + rest) == Some((Nonce(nonce), rest))
  {
    hide Exact, NonceCodec, KeysCodec, BlobCodec, MiningCodec, PointCodec, ReadPadding;
    ExtraExact();
    NonceOk(nonce);
    assert (WriteField(Nonce(nonce)) + rest)[1..] == NonceCodec().write(nonce) + rest;
    WrittenIsRead(NonceCodec(), nonce, rest);
  }

  lemma MiningRoundTrip(depth: nat, root: Bytes32, rest: seq<byte>)
    requires depth < U64_LIMIT && |root| == 32
    ensures ReadField(WriteField(MergeMining(depth, root)) + rest) == Some((MergeMining(depth, root), rest))
  {
    hide Exact, NonceCodec, KeysCodec, BlobCodec, MiningCodec, PointCodec, ReadPadding, MiningLength, Pow2;
    ExtraExact();
    var v := (MiningLength(depth), (depth, root));
    SmallLengths();
    MiningOk(MiningLength(depth), depth, root);
    assert (WriteField(MergeMining(depth, root)) + rest)[1..] == MiningCodec().write(v) + rest;
    WrittenIsRead(MiningCodec(), v, rest);
    assert rest[0..] == rest;
  }

  lemma KeysRoundTrip(keys: seq<Bytes32>, rest: seq<byte>)
    requires |keys| < U64_LIMIT && forall i :: 0 <= i < |keys| ==> |keys[i]| == 32
    ensures ReadField(WriteField(PublicKeys(keys)) + rest) == Some((PublicKeys(keys), rest))
  {
    hide Exact, NonceCodec, KeysCodec, BlobCodec, MiningCodec, PointCodec, ReadPadding;
    ExtraExact();
    KeysOk(keys);
    assert (WriteField(PublicKeys(keys)) + rest)[1..] == KeysCodec().write(keys) + rest;
    WrittenIsRead(KeysCodec(), keys, rest);
  }

  lemma BlobRoundTrip(blob: seq<byte>, rest: seq<byte>)
    requires |blob| < U64_LIMIT
    ensures ReadField(WriteField(MysteriousMinergate(blob)) + rest) == Some((MysteriousMinergate(blob), rest))
  {
    hide Exact, NonceCodec, KeysCodec, BlobCodec, MiningCodec, PointCodec, ReadPadding;
    ExtraExact();
    BlobOk(blob);
    assert (WriteField(MysteriousMinergate(blob)) + rest)[1..] == BlobCodec().write(blob) + rest;
    WrittenIsRead(BlobCodec(), blob, rest);
  }

  // A readable field is read back. Padding takes all that is left, so it must come last.
  lemma FieldRoundTrip(f: ExtraField, rest: seq<byte>)
    requires Readable(f) && (f.Padding? ==> rest == [])
    ensures ReadField(WriteField(f) + rest) == Some((f, rest))
  {
    hide ReadField, WriteField, Pow2;
    match f {
      case Padding(size) =>
        PaddingRoundTrip(size);
        assert WriteField(f) + [] == WriteField(f);
      case PublicKey(key) => KeyRoundTrip(key, rest);
      case Nonce(nonce) => NonceRoundTrip(nonce, rest);
      case MergeMining(depth, root) => MiningRoundTrip(depth, root, rest);
      case PublicKeys(keys) => KeysRoundTrip(keys, rest);
      case MysteriousMinergate(blob) => BlobRoundTrip(blob, rest);
    }
  }

  // ---------------------------------------------------------------------------------------------
  // The extra.

  /** The place of a field's kind in the order in which kinds are written. */
  function Rank(f: ExtraField): (n: nat)
    ensures n < 6
    ensures f.Padding? <==> n == 5
  {
    match f
    case PublicKey(_) => 0
    case PublicKeys(_) => 1
    case Nonce(_) => 2
    case MergeMining(_, _) => 3
    case MysteriousMinergate(_) => 4
    case Padding(_) => 5
  }

  /** The fields of one kind, in order. */
  function OfRank(fields: seq<ExtraField>, rank: nat): seq<ExtraField> {
    if fields == [] then []
    else OfRank(fields[..|fields| - 1], rank) + (if Rank(fields[|fields| - 1]) == rank then [fields[|fields| - 1]] else [])
  }

  /** The fields by kind, those of the kinds from `rank` on. */
  function SortedFrom(fields: seq<ExtraField>, rank: nat): seq<ExtraField>
    requires rank <= 6
    decreases 6 - rank
  {
    if rank == 6 then [] else OfRank(fields, rank) + SortedFrom(fields, rank + 1)
  }

  function Sorted(fields: seq<ExtraField>): seq<ExtraField> {
    SortedFrom(fields, 0)
  }

  function WriteAll(fields: seq<ExtraField>): seq<byte> {
    if fields == [] then [] else WriteField(fields[0]) + WriteAll(fields[1..])
  }

  lemma {:induction false} WriteAllConcat(a: seq<ExtraField>, b: seq<ExtraField>)
    ensures WriteAll(a + b) == WriteAll(a) + WriteAll(b)
  {
    hide WriteField;
    if a == [] {
      assert a + b == b;
    } else {
      assert (a + b)[1..] == a[1..] + b;
      WriteAllConcat(a[1..], b);
    }
  }

  /** The fields up to the first which cannot be read. */
  function ReadAll(data: seq<byte>): seq<ExtraField>
    decreases |data|
  {
    match ReadField(data)
    case None => []
    case Some((f, rest)) => if |rest| < |data| then [f] + ReadAll(rest) else []
  }

  /** One pass over the fields, for those of a kind. */
  method WriteRank(fields: seq<ExtraField>, rank: nat, before: seq<byte>) returns (w: seq<byte>)
    ensures w == before + WriteAll(OfRank(fields, rank))
  {
    hide WriteField, WriteAll, OfRank, Rank;
    w := before;
    NothingOfRank(rank);
    for i := 0 to |fields|
      invariant w == before + WriteAll(OfRank(fields[..i], rank))
    {
      OfRankSnoc(fields, rank, i);
      if Rank(fields[i]) == rank {
        WriteAllConcat(OfRank(fields[..i], rank), [fields[i]]);
        WriteOne(fields[i]);
        w := w + WriteField(fields[i]);
      }
    }
    assert fields[..|fields|] == fields;
  }

  lemma NothingOfRank(rank: nat)
    ensures OfRank([], rank) == [] && WriteAll([]) == []
  {
  }

  lemma OfRankSnoc(fields: seq<ExtraField>, rank: nat, i: nat)
    requires i < |fields|
    ensures OfRank(fields[..i + 1], rank) ==
            if Rank(fields[i]) == rank then OfRank(fields[..i], rank) + [fields[i]] else OfRank(fields[..i], rank)
  {
    assert fields[..i + 1][..i] == fields[..i];
    assert OfRank(fields[..i], rank) + [] == OfRank(fields[..i], rank);
  }

  method WriteExtra(fields: seq<ExtraField>) returns (w: seq<byte>)
    ensures w == WriteAll(Sorted(fields))
  {
    hide WriteField, OfRank, WriteAll;
    w := [];
    NothingOfRank(6);
    for rank := 0 to 6
      invariant w + WriteAll(SortedFrom(fields, rank)) == WriteAll(Sorted(fields))
    {
      w := WriteRank(fields, rank, w);
      WriteAllConcat(OfRank(fields, rank), SortedFrom(fields, rank + 1));
    }
  }

  lemma WriteOne(f: ExtraField)
    ensures WriteAll([f]) == WriteField(f)
  {
    hide WriteField;
    assert [f][1..] == [];
  }

  method ReadExtra(data: seq<byte>) returns (fields: seq<ExtraField>)
    ensures fields == ReadAll(data)
  {
    hide ReadField;
    fields := [];
    var rest := data;
    while rest != []
      invariant fields + ReadAll(rest) == ReadAll(data)
      decreases |rest|
    {
      FieldsShrink(rest);
      var field := ReadField(rest);
      if field.None? {
        break;
      }
      fields := fields + [field.value.0];
      rest := field.value.1;
    }
    NothingRead(rest);
  }

  lemma NothingRead(data: seq<byte>)
    requires data == [] || ReadField(data) == None
    ensures ReadAll(data) == []
  {
  }

  // A field is at least one byte.
  lemma FieldsShrink(data: seq<byte>)
    ensures ReadField(data).Some? ==> |ReadField(data).value.1| < |data|
  {
    hide Exact, Vec, MiningLength, MiningCodec;
    ExtraExact();
    if ReadField(data).Some? {
      if data[0] == 1 {
        ReadIsWritten(PointCodec(), data[1..]);
      } else if data[0] == 2 {
        ReadIsWritten(NonceCodec(), data[1..]);
      } else if data[0] == 3 {
        ReadIsWritten(MiningCodec(), data[1..]);
      } else if data[0] == 4 {
        ReadIsWritten(KeysCodec(), data[1..]);
      } else if data[0] == 0xDE {
        ReadIsWritten(BlobCodec(), data[1..]);
      }
    }
  }

  /** All are readable, and only the last may be padding. */
  ghost predicate AllReadable(fields: seq<ExtraField>) {
    && (forall i :: 0 <= i < |fields| ==> Readable(fields[i]))
    && (forall i :: 0 <= i < |fields| - 1 ==> !fields[i].Padding?)
  }

  lemma {:induction false} AllRoundTrip(fields: seq<ExtraField>)
    requires AllReadable(fields)
    ensures ReadAll(WriteAll(fields)) == fields
  {
    hide WriteField, ReadField, Readable;
    if fields == [] {
      NothingRead([]) by { NoField(); }
    } else {
      var rest := WriteAll(fields[1..]);
      AllRoundTrip(fields[1..]);
      if fields[0].Padding? {
        assert fields[1..] == [];
      }
      FieldRoundTrip(fields[0], rest);
      FieldsShrink(WriteField(fields[0]) + rest);
      assert fields == [fields[0]] + fields[1..];
    }
  }

  lemma NoField()
    ensures ReadField([]) == None
  {
  }

  lemma {:induction false} OfRankReadable(fields: seq<ExtraField>, rank: nat)
    requires forall i :: 0 <= i < |fields| ==> Readable(fields[i])
    ensures forall i :: 0 <= i < |OfRank(fields, rank)| ==>
              Readable(OfRank(fields, rank)[i]) && Rank(OfRank(fields, rank)[i]) == rank
  {
    hide Readable;
    if fields != [] {
      OfRankReadable(fields[..|fields| - 1], rank);
    }
  }

  lemma {:induction false} SortedReadable(fields: seq<ExtraField>, rank: nat)
    requires rank <= 6
    requires forall i :: 0 <= i < |fields| ==> Readable(fields[i])
    requires |OfRank(fields, 5)| <= 1
    ensures AllReadable(SortedFrom(fields, rank))
    decreases 6 - rank
  {
    hide Readable, OfRank;
    if rank < 6 {
      OfRankReadable(fields, rank);
      SortedReadable(fields, rank + 1);
      var first, rest := OfRank(fields, rank), SortedFrom(fields, rank + 1);
      var all: seq<ExtraField> := first + rest;
      assert rank == 5 ==> rest == [];
      forall i | 0 <= i < |all| - 1
        ensures !all[i].Padding?
      {
        if i < |first| {
          assert Rank(first[i]) == rank;
        }
      }
    }
  }

  // Reading what was written gives the fields by kind, those of a kind in their order, if nonces are no
  // longer than may be read and there is at most one padding.
  lemma ExtraRoundTrip(fields: seq<ExtraField>)
    requires forall i :: 0 <= i < |fields| ==> Readable(fields[i])
    requires |OfRank(fields, 5)| <= 1
    ensures ReadAll(WriteAll(Sorted(fields))) == Sorted(fields)
  {
    SortedReadable(fields, 0);
    AllRoundTrip(Sorted(fields));
  }

  // Whatever is read is readable, so what is not readable is not read back.
  lemma ReadReadable(data: seq<byte>)
    requires ReadField(data).Some?
    ensures Readable(ReadField(data).value.0)
    ensures ReadField(data).value.0.Padding? ==> ReadField(data).value.1 == []
  {
    hide Exact, NonceCodec, KeysCodec, BlobCodec, MiningCodec, PointCodec, MiningLength;
    ExtraExact();
    if data[0] == 1 {
      ReadIsWritten(PointCodec(), data[1..]);
      KeyOk(PointCodec().read(data[1..]).value.0);
    } else if data[0] == 2 {
      ReadIsWritten(NonceCodec(), data[1..]);
      NonceOk(NonceCodec().read(data[1..]).value.0);
    } else if data[0] == 3 {
      ReadIsWritten(MiningCodec(), data[1..]);
      var (len, (depth, root)) := MiningCodec().read(data[1..]).value.0;
      MiningOk(len, depth, root);
    } else if data[0] == 4 {
      ReadIsWritten(KeysCodec(), data[1..]);
      KeysOk(KeysCodec().read(data[1..]).value.0);
    } else if data[0] == 0xDE {
      ReadIsWritten(BlobCodec(), data[1..]);
      BlobOk(BlobCodec().read(data[1..]).value.0);
    }
  }

  lemma {:induction false} AllReadReadable(data: seq<byte>)
    ensures AllReadable(ReadAll(data))
    decreases |data|
  {
    hide ReadField, Readable;
    FieldsShrink(data);
    if ReadField(data).Some? {
      ReadReadable(data);
      var rest := ReadField(data).value.1;
      AllReadReadable(rest);
      if ReadField(data).value.0.Padding? {
        NoField();
        NothingRead(rest);
      }
    }
  }

  // Sorting loses no field, and puts paddings last.
  lemma {:induction false} InOfRank(fields: seq<ExtraField>, i: nat)
    requires i < |fields|
    ensures fields[i] in OfRank(fields, Rank(fields[i]))
  {
    var last := |fields| - 1;
    if i < last {
      InOfRank(fields[..last], i);
    }
  }

  lemma {:induction false} InSorted(fields: seq<ExtraField>, rank: nat, target: nat)
    requires rank <= target < 6
    ensures forall f :: f in OfRank(fields, target) ==> f in SortedFrom(fields, rank)
    decreases 6 - rank
  {
    hide OfRank;
    if rank < target {
      InSorted(fields, rank + 1, target);
    }
  }

  lemma {:induction false} PaddingsLast(fields: seq<ExtraField>, rank: nat)
    requires rank <= 5
    ensures |SortedFrom(fields, rank)| >= |OfRank(fields, 5)|
    ensures forall i :: |SortedFrom(fields, rank)| - |OfRank(fields, 5)| <= i < |SortedFrom(fields, rank)| ==>
              SortedFrom(fields, rank)[i] in OfRank(fields, 5)
    decreases 6 - rank
  {
    hide OfRank;
    if rank == 5 {
      assert SortedFrom(fields, 6) == [];
    } else {
      PaddingsLast(fields, rank + 1);
    }
  }

  lemma RankOf(f: ExtraField)
    ensures Rank(f) == 5 <==> f.Padding?
  {
  }

  lemma {:induction false} OfRankRanks(fields: seq<ExtraField>, rank: nat)
    ensures forall f :: f in OfRank(fields, rank) ==> Rank(f) == rank
  {
    if fields != [] {
      OfRankRanks(fields[..|fields| - 1], rank);
    }
  }

  // The conditions are exact: one field which is not readable, or a second padding, and what was written is
  // not read back.
  lemma ExtraRoundTripIff(fields: seq<ExtraField>)
    ensures ReadAll(WriteAll(Sorted(fields))) == Sorted(fields) <==>
            (forall i :: 0 <= i < |fields| ==> Readable(fields[i])) && |OfRank(fields, 5)| <= 1
  {
    hide ReadAll, WriteAll, Readable, OfRank, SortedFrom, Rank;
    var sorted := Sorted(fields);
    if ReadAll(WriteAll(sorted)) == sorted {
      AllReadReadable(WriteAll(sorted));
      forall i | 0 <= i < |fields|
        ensures Readable(fields[i])
      {
        InOfRank(fields, i);
        InSorted(fields, 0, Rank(fields[i]));
        assert fields[i] in sorted;
      }
      PaddingsLast(fields, 0);
      OfRankRanks(fields, 5);
      if |sorted| > 1 {
        var f := sorted[|sorted| - 2];
        assert |OfRank(fields, 5)| > 1 ==> f in OfRank(fields, 5);
        RankOf(f);
      }
    } else if (forall i :: 0 <= i < |fields| ==> Readable(fields[i])) && |OfRank(fields, 5)| <= 1 {
      ExtraRoundTrip(fields);
    }
  }

  lemma {:induction false} NoneOfRank(fields: seq<ExtraField>, rank: nat)
    requires forall i :: 0 <= i < |fields| ==> Rank(fields[i]) != rank
    ensures OfRank(fields, rank) == []
  {
    if fields != [] {
      NoneOfRank(fields[..|fields| - 1], rank);
    }
  }

  // ---------------------------------------------------------------------------------------------
  // The start of an extra.

  // A field of which some is missing is not read.
  lemma FieldCut(f: ExtraField, n: nat)
    requires Readable(f) && !f.Padding? && n < |WriteField(f)|
    ensures ReadField(WriteField(f)[..n]) == None
  {
    hide ReadField, WriteField, Readable;
    var data, more := WriteField(f)[..n], WriteField(f)[n..];
    assert data + more == WriteField(f) + [];
    FieldRoundTrip(f, []);
    if ReadField(data).Some? {
      Tagged(f, data);
      FieldGoesOn(data, more);
      assert false;
    }
  }

  lemma Tagged(f: ExtraField, data: seq<byte>)
    requires !f.Padding? && data <= WriteField(f) && ReadField(data).Some?
    ensures !ReadField(data).value.0.Padding?
  {
    hide NonceCodec, KeysCodec, BlobCodec, MiningCodec, PointCodec;
    assert data != [] && data[0] == WriteField(f)[0] != 0;
  }

  lemma FieldGoesOn(data: seq<byte>, more: seq<byte>)
    requires ReadField(data).Some? && !ReadField(data).value.0.Padding?
    ensures ReadField(data + more) == Some((ReadField(data).value.0, ReadField(data).value.1 + more))
  {
    hide Exact, NonceCodec, KeysCodec, BlobCodec, MiningCodec, PointCodec, MiningLength, ReadPadding;
    ExtraExact();
    assert (data + more)[1..] == data[1..] + more;
    if data[0] == 1 {
      ReadGoesOn(PointCodec(), data[1..], more);
    } else if data[0] == 2 {
      ReadGoesOn(NonceCodec(), data[1..], more);
    } else if data[0] == 3 {
      ReadGoesOn(MiningCodec(), data[1..], more);
      var (v, rest) := MiningCodec().read(data[1..]).value;
      var skipped := v.0 - MiningLength(v.1.0);
      assert (rest + more)[skipped..] == rest[skipped..] + more;
    } else if data[0] == 4 {
      ReadGoesOn(KeysCodec(), data[1..], more);
    } else if data[0] == 0xDE {
      ReadGoesOn(BlobCodec(), data[1..], more);
    }
  }

  /** How many fields are written in full within a size. */
  function Fitting(fields: seq<ExtraField>, size: nat): (k: nat)
    ensures k <= |fields|
  {
    if fields == [] || |WriteField(fields[0])| > size then 0
    else 1 + Fitting(fields[1..], size - |WriteField(fields[0])|)
  }

  lemma {:induction false} FittingIs(fields: seq<ExtraField>, size: nat)
    ensures var k := Fitting(fields, size);
            && |WriteAll(fields[..k])| <= size
            && (k < |fields| ==> |WriteAll(fields[..k + 1])| > size)
  {
    hide WriteField;
    if fields != [] {
      var first := |WriteField(fields[0])|;
      WriteFirst(fields, 1);
      assert fields[1..1] == [];
      if first <= size {
        var k := Fitting(fields[1..], size - first);
        FittingIs(fields[1..], size - first);
        WriteFirst(fields, k + 1);
        assert fields[1..k + 1] == fields[1..][..k];
        if k + 1 < |fields| {
          WriteFirst(fields, k + 2);
          assert fields[1..k + 2] == fields[1..][..k + 1];
        }
      }
    }
  }

  lemma WriteFirst(fields: seq<ExtraField>, k: nat)
    requires 0 < k <= |fields|
    ensures WriteAll(fields[..k]) == WriteField(fields[0]) + WriteAll(fields[1..k])
  {
    hide WriteField;
    assert fields[..k][1..] == fields[1..k];
  }

  // Of the start of an extra, the fields it has in full are read and nothing else.
  lemma {:induction false} StartRead(fields: seq<ExtraField>, size: nat)
    requires AllReadable(fields) && forall i :: 0 <= i < |fields| ==> !fields[i].Padding?
    requires size <= |WriteAll(fields)|
    ensures ReadAll(WriteAll(fields)[..size]) == fields[..Fitting(fields, size)]
  {
    hide WriteField, ReadField, Readable;
    if fields == [] {
      NothingRead([]);
    } else {
      var first, rest := WriteField(fields[0]), WriteAll(fields[1..]);
      if |first| > size {
        FieldCut(fields[0], size);
        assert WriteAll(fields)[..size] == first[..size];
        NothingRead(first[..size]);
      } else {
        var left := rest[..size - |first|];
        StartRead(fields[1..], size - |first|);
        assert WriteAll(fields)[..size] == first + left;
        FieldRoundTrip(fields[0], left);
        FieldsShrink(first + left);
        assert fields[..Fitting(fields, size)] == [fields[0]] + fields[1..][..Fitting(fields[1..], size - |first|)];
      }
    }
  }

  // ---------------------------------------------------------------------------------------------
  // The extra of a transaction sent.

  /** `Extra::new` and `push_nonce` */
  function SenderExtra(key: Bytes32, additional: seq<Bytes32>, nonces: seq<seq<byte>>): (fields: seq<ExtraField>) {
    [PublicKey(key)] + (if additional == [] then [] else [PublicKeys(additional)]) + Nonces(nonces)
  }

  function Nonces(nonces: seq<seq<byte>>): (fields: seq<ExtraField>)
    ensures |fields| == |nonces|
    ensures forall i :: 0 <= i < |fields| ==> fields[i] == Nonce(nonces[i])
  {
    seq(|nonces|, i requires 0 <= i < |nonces| => Nonce(nonces[i]))
  }

  lemma {:induction false} AllOfRank(fields: seq<ExtraField>, rank: nat)
    requires forall i :: 0 <= i < |fields| ==> Rank(fields[i]) == rank
    ensures OfRank(fields, rank) == fields
  {
    if fields != [] {
      var last := |fields| - 1;
      AllOfRank(fields[..last], rank);
      assert fields == fields[..last] + [fields[last]];
    }
  }

  lemma {:induction false} OfRankConcat(a: seq<ExtraField>, b: seq<ExtraField>, rank: nat)
    ensures OfRank(a + b, rank) == OfRank(a, rank) + OfRank(b, rank)
  {
    if b == [] {
      assert a + b == a;
    } else {
      var last := |b| - 1;
      assert (a + b)[..|a + b| - 1] == a + b[..last];
      OfRankConcat(a, b[..last], rank);
    }
  }

  lemma SenderOfRank(key: Bytes32, additional: seq<Bytes32>, nonces: seq<seq<byte>>, rank: nat)
    ensures OfRank(SenderExtra(key, additional, nonces), rank) ==
            if rank == 0 then [PublicKey(key)]
            else if rank == 1 then (if additional == [] then [] else [PublicKeys(additional)])
            else if rank == 2 then Nonces(nonces)
            else []
  {
    hide OfRank;
    var first := [PublicKey(key)];
    var second := if additional == [] then [] else [PublicKeys(additional)];
    OfRankConcat(first + second, Nonces(nonces), rank);
    OfRankConcat(first, second, rank);
    if rank == 0 { AllOfRank(first, rank); } else { NoneOfRank(first, rank); }
    if rank == 1 { AllOfRank(second, rank); } else { NoneOfRank(second, rank); }
    if rank == 2 { AllOfRank(Nonces(nonces), rank); } else { NoneOfRank(Nonces(nonces), rank); }
  }

  // The sender's extra is written in the order it was made in.
  lemma SenderSorted(key: Bytes32, additional: seq<Bytes32>, nonces: seq<seq<byte>>)
    ensures Sorted(SenderExtra(key, additional, nonces)) == SenderExtra(key, additional, nonces)
  {
    hide OfRank, SenderExtra, Nonces;
    var fields := SenderExtra(key, additional, nonces);
    SenderOfRank(key, additional, nonces, 0);
    SenderOfRank(key, additional, nonces, 1);
    SenderOfRank(key, additional, nonces, 2);
    SenderOfRank(key, additional, nonces, 3);
    SenderOfRank(key, additional, nonces, 4);
    SenderOfRank(key, additional, nonces, 5);
    assert SortedFrom(fields, 6) == [];
    assert SortedFrom(fields, 5) == [];
    assert SortedFrom(fields, 4) == [];
    assert SortedFrom(fields, 3) == [];
    assert SortedFrom(fields, 2) == Nonces(nonces);
    SenderExtraIs(key, additional, nonces);
  }

  lemma SenderExtraIs(key: Bytes32, additional: seq<Bytes32>, nonces: seq<seq<byte>>)
    ensures SenderExtra(key, additional, nonces) ==
            [PublicKey(key)] + ((if additional == [] then [] else [PublicKeys(additional)]) + Nonces(nonces))
  {
    hide Nonces;
  }

  /** The keys: all those of the transaction, and the first list of those of the outputs. */
  function TransactionKeys(fields: seq<ExtraField>): seq<Bytes32> {
    if fields == [] then []
    else (if fields[0].PublicKey? then [fields[0].key] else []) + TransactionKeys(fields[1..])
  }

  function AdditionalKeys(fields: seq<ExtraField>): Option<seq<Bytes32>> {
    if fields == [] then None
    else if fields[0].PublicKeys? then Some(fields[0].keys)
    else AdditionalKeys(fields[1..])
  }

  datatype PaymentId = Unencrypted(id: seq<byte>) | Encrypted(id: seq<byte>) {
    predicate Valid() {
      |id| == if Unencrypted? then 32 else 8
    }
  }

  function WritePaymentId(id: PaymentId): seq<byte> {
    [if id.Unencrypted? then PAYMENT_ID_MARKER else ENCRYPTED_PAYMENT_ID_MARKER] + id.id
  }

  /** All of a nonce is the payment ID. */
  function ReadPaymentId(nonce: seq<byte>): Option<PaymentId> {
    if nonce == [] then None
    else if nonce[0] == PAYMENT_ID_MARKER && |nonce| == 33 then Some(Unencrypted(nonce[1..]))
    else if nonce[0] == ENCRYPTED_PAYMENT_ID_MARKER && |nonce| == 9 then Some(Encrypted(nonce[1..]))
    else None
  }

  lemma PaymentIdExact(id: PaymentId, nonce: seq<byte>)
    ensures ReadPaymentId(nonce) == Some(id) <==> id.Valid() && nonce == WritePaymentId(id)
  {
    if ReadPaymentId(nonce) == Some(id) {
      assert nonce == [nonce[0]] + nonce[1..];
    }
  }

  /** The first nonce, as a payment ID. */
  function PaymentIdIn(fields: seq<ExtraField>): Option<PaymentId> {
    if fields == [] then None
    else if fields[0].Nonce? then ReadPaymentId(fields[0].nonce)
    else PaymentIdIn(fields[1..])
  }

  /** The nonces with the marker, without it. */
  function MarkedNonces(fields: seq<ExtraField>): seq<seq<byte>> {
    if fields == [] then []
    else (if IsMarked(fields[0]) then [fields[0].nonce[1..]] else []) + MarkedNonces(fields[1..])
  }

  predicate IsMarked(f: ExtraField) {
    f.Nonce? && f.nonce != [] && f.nonce[0] == ARBITRARY_DATA_MARKER
  }

  /** What of an extra is looked at for arbitrary data. */
  function Bounded(serialized: seq<byte>): seq<byte> {
    if |serialized| <= MAX_EXTRA_SIZE_BY_RELAY_RULE then serialized else serialized[..MAX_EXTRA_SIZE_BY_RELAY_RULE]
  }

  function ArbitraryDataIn(fields: seq<ExtraField>): seq<seq<byte>> {
    MarkedNonces(ReadAll(Bounded(WriteAll(Sorted(fields)))))
  }

  method ArbitraryData(fields: seq<ExtraField>) returns (res: seq<seq<byte>>)
    ensures res == ArbitraryDataIn(fields)
  {
    hide WriteAll, ReadAll, Sorted, MarkedNonces;
    var serialized := WriteExtra(fields);
    var boundedExtra := ReadExtra(Bounded(serialized));
    res := [];
    for i := 0 to |boundedExtra|
      invariant res + MarkedNonces(boundedExtra[i..]) == MarkedNonces(boundedExtra)
    {
      MarkedFrom(boundedExtra, i);
      if IsMarked(boundedExtra[i]) {
        res := res + [boundedExtra[i].nonce[1..]];
      }
    }
    NoneMarked();
    assert boundedExtra[|boundedExtra|..] == [] && res + [] == res;
  }

  lemma MarkedFrom(fields: seq<ExtraField>, i: nat)
    requires i < |fields|
    ensures MarkedNonces(fields[i..]) ==
            (if IsMarked(fields[i]) then [fields[i].nonce[1..]] else []) + MarkedNonces(fields[i + 1..])
  {
    assert fields[i..][1..] == fields[i + 1..];
  }

  /** A key which does not decode stands for the identity. */
  function KeyPoint(c: Curve, key: Bytes32): Point {
    if c.decompress(key).Some? then c.decompress(key).value else 0
  }

  function KeyPoints(c: Curve, keys: seq<Bytes32>): (points: seq<Point>)
    ensures |points| == |keys|
    ensures forall i :: 0 <= i < |keys| ==> points[i] == KeyPoint(c, keys[i])
  {
    seq(|keys|, i requires 0 <= i < |keys| => KeyPoint(c, keys[i]))
  }

  /** The keys, if there is one of the transaction. */
  function KeysIn(c: Curve, fields: seq<ExtraField>): Option<(seq<Point>, Option<seq<Point>>)> {
    if TransactionKeys(fields) == [] then None
    else
      Some((KeyPoints(c, TransactionKeys(fields)),
            match AdditionalKeys(fields)
            case None => None
            case Some(keys) => Some(KeyPoints(c, keys))))
  }

  method Keys(c: Curve, fields: seq<ExtraField>) returns (keys: Option<(seq<Point>, Option<seq<Point>>)>)
    ensures keys == KeysIn(c, fields)
  {
    hide TransactionKeys, AdditionalKeys, KeyPoint;
    var own: seq<Point> := [];
    var additional: Option<seq<Point>> := None;
    ghost var found: Option<seq<Bytes32>> := None;
    for i := 0 to |fields|
      invariant own + KeyPoints(c, TransactionKeys(fields[i..])) == KeyPoints(c, TransactionKeys(fields))
      invariant (if found.Some? then found else AdditionalKeys(fields[i..])) == AdditionalKeys(fields)
      invariant additional == if found.Some? then Some(KeyPoints(c, found.value)) else None
    {
      KeysFrom(fields, i);
      match fields[i] {
        case PublicKey(key) =>
          KeyPointsFirst(c, key, TransactionKeys(fields[i + 1..]));
          own := own + [KeyPoint(c, key)];
        case PublicKeys(keys) =>
          additional := if additional.Some? then additional else Some(KeyPoints(c, keys));
          found := if found.Some? then found else Some(keys);
        case _ =>
      }
    }
    NoKeys();
    assert KeyPoints(c, []) == [] && own + [] == own && fields[|fields|..] == [];
    if own == [] {
      return None;
    }
    keys := Some((own, additional));
  }

  lemma KeyPointsFirst(c: Curve, key: Bytes32, rest: seq<Bytes32>)
    ensures KeyPoints(c, [key] + rest) == [KeyPoint(c, key)] + KeyPoints(c, rest)
  {
  }

  lemma NoKeys()
    ensures TransactionKeys([]) == [] && AdditionalKeys([]) == None
  {
  }

  lemma KeysFrom(fields: seq<ExtraField>, i: nat)
    requires i < |fields|
    ensures TransactionKeys(fields[i..]) ==
            (if fields[i].PublicKey? then [fields[i].key] else []) + TransactionKeys(fields[i + 1..])
    ensures AdditionalKeys(fields[i..]) ==
            if fields[i].PublicKeys? then Some(fields[i].keys) else AdditionalKeys(fields[i + 1..])
  {
    assert fields[i..][1..] == fields[i + 1..];
  }

  // Whatever the fields are: every key of the transaction is read, in its place; the first list of those of the outputs
  // is, and the first nonce.
  lemma {:induction false} FieldsAreRead(before: seq<ExtraField>, f: ExtraField, after: seq<ExtraField>)
    ensures var fields := before + [f] + after;
            var own := if f.PublicKey? then [f.key] else [];
            && TransactionKeys(fields) == TransactionKeys(before) + own + TransactionKeys(after)
            && AdditionalKeys(fields) == (if AdditionalKeys(before).Some? then AdditionalKeys(before)
                                          else if f.PublicKeys? then Some(f.keys) else AdditionalKeys(after))
            && PaymentIdIn(fields) == (if HasNonce(before) then PaymentIdIn(before)
                                       else if f.Nonce? then ReadPaymentId(f.nonce) else PaymentIdIn(after))
    decreases |before|
  {
    hide ReadPaymentId, TransactionKeys, AdditionalKeys, PaymentIdIn, HasNonce;
    var fields := before + [f] + after;
    FirstIsRead(fields);
    if before == [] {
      assert fields == [f] + after && fields[1..] == after;
      NoneIsRead();
    } else {
      FieldsAreRead(before[1..], f, after);
      assert fields[1..] == before[1..] + [f] + after;
      FirstIsRead(before);
      HasNonceStep(before);
    }
  }

  lemma FirstIsRead(fields: seq<ExtraField>)
    requires fields != []
    ensures TransactionKeys(fields) == (if fields[0].PublicKey? then [fields[0].key] else []) + TransactionKeys(fields[1..])
    ensures AdditionalKeys(fields) == if fields[0].PublicKeys? then Some(fields[0].keys) else AdditionalKeys(fields[1..])
    ensures PaymentIdIn(fields) == if fields[0].Nonce? then ReadPaymentId(fields[0].nonce) else PaymentIdIn(fields[1..])
  {
    hide ReadPaymentId;
  }

  lemma NoneIsRead()
    ensures TransactionKeys([]) == [] && AdditionalKeys([]) == None && PaymentIdIn([]) == None && !HasNonce([])
  {
  }

  predicate HasNonce(fields: seq<ExtraField>) {
    exists i :: 0 <= i < |fields| && fields[i].Nonce?
  }

  lemma HasNonceStep(fields: seq<ExtraField>)
    requires fields != []
    ensures HasNonce(fields) <==> fields[0].Nonce? || HasNonce(fields[1..])
  {
    assert forall i :: 1 <= i < |fields| ==> fields[i] == fields[1..][i - 1];
  }

  // A key which does not decode is read as the identity, so that none is left out.
  lemma KeyIsRead(c: Curve, before: seq<ExtraField>, key: Bytes32, after: seq<ExtraField>)
    ensures var keys := KeysIn(c, before + [PublicKey(key)] + after);
            && keys.Some? && |TransactionKeys(before)| < |keys.value.0|
            && keys.value.0[|TransactionKeys(before)|] ==
               match c.decompress(key)
               case Some(point) => point
               case None => 0
  {
    hide TransactionKeys, AdditionalKeys;
    FieldsAreRead(before, PublicKey(key), after);
  }

  lemma {:induction false} NoncesRead(nonces: seq<seq<byte>>)
    ensures TransactionKeys(Nonces(nonces)) == [] && AdditionalKeys(Nonces(nonces)) == None
    ensures PaymentIdIn(Nonces(nonces)) == if nonces == [] then None else ReadPaymentId(nonces[0])
  {
    if nonces != [] {
      assert Nonces(nonces)[1..] == Nonces(nonces[1..]);
      NoncesRead(nonces[1..]);
    }
  }

  /** Arbitrary data as it is put into a nonce. */
  function Marked(data: seq<seq<byte>>): (r: seq<seq<byte>>)
    ensures |r| == |data|
  {
    seq(|data|, i requires 0 <= i < |data| => [ARBITRARY_DATA_MARKER] + data[i])
  }

  lemma {:induction false} MarkedRead(data: seq<seq<byte>>)
    ensures MarkedNonces(Nonces(Marked(data))) == data
  {
    if data != [] {
      assert Nonces(Marked(data))[1..] == Nonces(Marked(data[1..]));
      MarkedRead(data[1..]);
      assert Marked(data)[0][1..] == data[0];
      assert data == [data[0]] + data[1..];
    }
  }

  lemma {:induction false} MarkedNoncesConcat(a: seq<ExtraField>, b: seq<ExtraField>)
    ensures MarkedNonces(a + b) == MarkedNonces(a) + MarkedNonces(b)
  {
    hide IsMarked;
    if a == [] {
      assert a + b == b;
    } else {
      assert (a + b)[1..] == a[1..] + b;
      MarkedNoncesConcat(a[1..], b);
    }
  }

  // Without the last field, marked nonces are missing if it is one.
  lemma LastMarkedMissing(fields: seq<ExtraField>, k: nat)
    requires k < |fields| && IsMarked(fields[|fields| - 1])
    ensures |MarkedNonces(fields[..k])| < |MarkedNonces(fields)|
  {
    hide MarkedNonces, IsMarked;
    var last := |fields| - 1;
    assert fields == fields[..k] + fields[k..last] + [fields[last]];
    MarkedNoncesConcat(fields[..k] + fields[k..last], [fields[last]]);
    MarkedNoncesConcat(fields[..k], fields[k..last]);
    OneMarked(fields[last]);
  }

  lemma OneMarked(f: ExtraField)
    ensures |MarkedNonces([f])| == if IsMarked(f) then 1 else 0
  {
    assert [f][1..] == [];
  }

  /** The nonces a sender pushes. */
  function SenderNonces(paymentId: Option<PaymentId>, data: seq<seq<byte>>): seq<seq<byte>> {
    (if paymentId.Some? then [WritePaymentId(paymentId.value)] else []) + Marked(data)
  }

  lemma SenderMarked(key: Bytes32, additional: seq<Bytes32>, paymentId: Option<PaymentId>, data: seq<seq<byte>>)
    ensures var fields := SenderExtra(key, additional, SenderNonces(paymentId, data));
            && fields != [] && MarkedNonces(fields) == data
            && (data != [] ==> IsMarked(fields[|fields| - 1]))
  {
    hide MarkedNonces;
    var head := [PublicKey(key)];
    var keys := if additional == [] then [] else [PublicKeys(additional)];
    var id := if paymentId.Some? then [Nonce(WritePaymentId(paymentId.value))] else [];
    var rest := Nonces(Marked(data));
    assert SenderExtra(key, additional, SenderNonces(paymentId, data)) == head + keys + id + rest;
    MarkedNoncesConcat(head + keys + id, rest);
    MarkedNoncesConcat(head + keys, id);
    MarkedNoncesConcat(head, keys);
    OneMarked(PublicKey(key));
    OneMarked(PublicKeys(additional));
    NoneMarked();
    if paymentId.Some? { OneMarked(id[0]); }
    MarkedRead(data);
  }

  lemma NoneMarked()
    ensures MarkedNonces([]) == []
  {
  }

  lemma SenderKeys(key: Bytes32, additional: seq<Bytes32>, nonces: seq<seq<byte>>)
    ensures var fields := SenderExtra(key, additional, nonces);
            && TransactionKeys(fields) == [key]
            && AdditionalKeys(fields) == (if additional == [] then None else Some(additional))
            && PaymentIdIn(fields) == if nonces == [] then None else ReadPaymentId(nonces[0])
  {
    hide Nonces, ReadPaymentId;
    var fields := SenderExtra(key, additional, nonces);
    NoncesRead(nonces);
    if additional == [] {
      assert fields[1..] == Nonces(nonces);
    } else {
      assert fields[1] == PublicKeys(additional) == fields[1..][0] && fields[1..][1..] == Nonces(nonces);
    }
  }

  lemma SenderReadable(key: Bytes32, additional: seq<Bytes32>, nonces: seq<seq<byte>>)
    requires |key| == 32 && |additional| < U64_LIMIT && forall i :: 0 <= i < |additional| ==> |additional[i]| == 32
    requires forall i :: 0 <= i < |nonces| ==> |nonces[i]| <= MAX_TX_EXTRA_NONCE_SIZE
    ensures var fields := SenderExtra(key, additional, nonces);
            forall i :: 0 <= i < |fields| ==> Readable(fields[i]) && !fields[i].Padding?
  {
  }

  // Arbitrary data comes out of an extra exactly as it was put in if the extra, as it is written, is within
  // the bound of the relay rule, and not otherwise.
  lemma SenderDataUnderstood(fields: seq<ExtraField>, data: seq<seq<byte>>)
    requires forall i :: 0 <= i < |fields| ==> Readable(fields[i]) && !fields[i].Padding?
    requires Sorted(fields) == fields && MarkedNonces(fields) == data
    requires data != [] ==> fields != [] && IsMarked(fields[|fields| - 1])
    ensures ArbitraryDataIn(fields) == data <==> data == [] || |WriteAll(fields)| <= MAX_EXTRA_SIZE_BY_RELAY_RULE
  {
    hide WriteAll, ReadAll, Sorted, MarkedNonces, Readable, IsMarked;
    var serialized := WriteAll(fields);
    if |serialized| <= MAX_EXTRA_SIZE_BY_RELAY_RULE {
      AllRoundTrip(fields);
    } else {
      var k := Fitting(fields, MAX_EXTRA_SIZE_BY_RELAY_RULE);
      StartRead(fields, MAX_EXTRA_SIZE_BY_RELAY_RULE);
      FittingIs(fields, MAX_EXTRA_SIZE_BY_RELAY_RULE);
      assert fields[..|fields|] == fields;
      if data == [] {
        MarkedNoncesConcat(fields[..k], fields[k..]);
        assert fields == fields[..k] + fields[k..];
      } else {
        LastMarkedMissing(fields, k);
      }
    }
  }

  // The receiver finds the sender's keys and payment ID, and the arbitrary data as far as the bound allows.
  lemma SenderExtraUnderstood(key: Bytes32, additional: seq<Bytes32>, paymentId: Option<PaymentId>, data: seq<seq<byte>>)
    requires |key| == 32 && |additional| < U64_LIMIT && forall i :: 0 <= i < |additional| ==> |additional[i]| == 32
    requires paymentId.Some? ==> paymentId.value.Valid()
    requires forall i :: 0 <= i < |data| ==> |data[i]| <= MAX_ARBITRARY_DATA_SIZE
    ensures var sent := SenderExtra(key, additional, SenderNonces(paymentId, data));
            var fields := ReadAll(WriteAll(Sorted(sent)));
            && fields == sent
            && TransactionKeys(fields) == [key]
            && AdditionalKeys(fields) == (if additional == [] then None else Some(additional))
            && PaymentIdIn(fields) == paymentId
            && (ArbitraryDataIn(fields) == data <==>
                data == [] || |WriteAll(Sorted(sent))| <= MAX_EXTRA_SIZE_BY_RELAY_RULE)
  {
    hide ReadAll, WriteAll, Sorted, Readable, IsMarked, MarkedNonces, SenderExtra, ArbitraryDataIn, TransactionKeys,
         AdditionalKeys, PaymentIdIn;
    var nonces := SenderNonces(paymentId, data);
    var sent := SenderExtra(key, additional, nonces);
    SenderReadable(key, additional, nonces);
    SenderSorted(key, additional, nonces);
    AllRoundTrip(sent);
    SenderKeys(key, additional, nonces);
    if paymentId.Some? {
      PaymentIdExact(paymentId.value, nonces[0]);
    }
    SenderMarked(key, additional, paymentId, data);
    SenderDataUnderstood(sent, data);
  }
}
