/**
The EPEE format, as its writers produce it, and what epee/src makes of a document so written. A document is written
without anything of the decoder's.
 */
module EpeeDocument {
  import opened Wrappers
  import opened PowersOfTwo
  import opened Vectors
  import opened EpeeStack
  import opened EpeeIo
  import opened EpeeParser
  import opened Epee
  import Arithmetic

  // ---------------------------------------------------------------------------------------------
  // Documents, and how they are written.

  /** An integer's type says its width; a text, an array and an object have the width in which their length is written. */
  datatype Value =
    | Integer(intType: Type, value: int)
    | Float(bytes: seq<byte>)
    | Text(width: nat, bytes: seq<byte>)
    | Flag(flag: byte)
    | Record(width: nat, fields: seq<Field>)
  {
    function Kind(): Type {
      match this
      case Integer(intType, _) => intType
      case Float(_) => Double
      case Text(_, _) => String
      case Flag(_) => Bool
      case Record(_, _) => Object
    }

    ghost predicate Valid() {
      match this
      case Integer(intType, value) => IsInteger(intType) && InRange(intType, value)
      case Float(bytes) => |bytes| == 8
      case Text(width, bytes) => Fits(|bytes|, width)
      case Flag(_) => true
      case Record(width, fields) => Fits(|fields|, width) && forall i :: 0 <= i < |fields| ==> fields[i].Valid()
    }
  }

  /** A value under a key, or an array of values of a kind, with their number. */
  datatype Field = Field(key: seq<byte>, kind: Type, counted: Option<nat>, values: seq<Value>) {
    ghost predicate Valid() {
      && 1 <= |key| <= 255
      && (if counted.Some? then Fits(|values|, counted.value) else |values| == 1)
      && forall i :: 0 <= i < |values| ==> values[i].Kind() == kind && values[i].Valid()
    }
  }

  /** The bytes of an integer of a type. */
  function Bytes(intType: Type): nat
    requires IsInteger(intType)
  {
    match intType
    case Int64 => 8
    case Int32 => 4
    case Int16 => 2
    case Int8 => 1
    case Uint64 => 8
    case Uint32 => 4
    case Uint16 => 2
    case Uint8 => 1
  }

  predicate IsInteger(intType: Type) {
    !intType.Double? && !intType.String? && !intType.Bool? && !intType.Object?
  }

  predicate IsSigned(intType: Type) {
    intType.Int64? || intType.Int32? || intType.Int16? || intType.Int8?
  }

  ghost predicate InRange(intType: Type, value: int)
    requires IsInteger(intType)
  {
    if IsSigned(intType) then -1 * Pow2(8 * Bytes(intType) - 1) <= value < Pow2(8 * Bytes(intType) - 1)
    else 0 <= value < Pow2(8 * Bytes(intType))
  }

  /** A length of so many bytes, the power of two with this exponent, holds two bits less. */
  ghost predicate Fits(n: nat, width: nat) {
    width <= 3 && n < Pow2(8 * Pow2(width) - 2)
  }

  function WriteLength(n: nat, width: nat): seq<byte> {
    LittleBytes(4 * n + width, Pow2(width))
  }

  function WriteType(kind: Type): byte {
    match kind
    case Int64 => 1
    case Int32 => 2
    case Int16 => 3
    case Int8 => 4
    case Uint64 => 5
    case Uint32 => 6
    case Uint16 => 7
    case Uint8 => 8
    case Double => 9
    case String => 10
    case Bool => 11
    case Object => 12
  }

  function WriteInteger(intType: Type, value: int): seq<byte>
    requires IsInteger(intType)
  {
    LittleBytes(value % Pow2(8 * Bytes(intType)), Bytes(intType))
  }

  function WriteValue(v: Value): seq<byte>
    requires v.Valid()
    decreases v
  {
    match v
    case Integer(intType, value) => WriteInteger(intType, value)
    case Float(bytes) => bytes
    case Text(width, bytes) => WriteLength(|bytes|, width) + bytes
    case Flag(flag) => [flag]
    case Record(width, fields) => WriteLength(|fields|, width) + WriteFields(fields)
  }

  function WriteFields(fields: seq<Field>): seq<byte>
    requires forall i :: 0 <= i < |fields| ==> fields[i].Valid()
    decreases fields
  {
    if fields == [] then [] else WriteField(fields[0]) + WriteFields(fields[1..])
  }

  /** The kind of a field's values, marked if their number follows. */
  function WriteSpec(f: Field): seq<byte> {
    if f.counted.Some? then [WriteType(f.kind) + 128] + WriteLength(|f.values|, f.counted.value) else [WriteType(f.kind)]
  }

  function WriteField(f: Field): seq<byte>
    requires f.Valid()
    decreases f
  {
    [|f.key|] + f.key + WriteSpec(f) + WriteValues(f.values)
  }

  function WriteValues(values: seq<Value>): seq<byte>
    requires forall i :: 0 <= i < |values| ==> values[i].Valid()
    decreases values
  {
    if values == [] then [] else WriteValue(values[0]) + WriteValues(values[1..])
  }

  // "\x01\x11\x01\x01\x01\x01\x02\x01", and the version
  const PREAMBLE: seq<byte> := [1, 17, 1, 1, 1, 1, 2, 1, 1]

  function WriteDocument(width: nat, fields: seq<Field>): seq<byte>
    requires Record(width, fields).Valid()
  {
    PREAMBLE + WriteValue(Record(width, fields))
  }

  // ---------------------------------------------------------------------------------------------
  // The slots of the stack which it takes to skip what is written.

  function Max(a: nat, b: nat): nat {
    if a < b then b else a
  }

  function Slots(v: Value): nat
    decreases v
  {
    if v.Record? then Max(1, FieldsSlots(v.fields)) else 0
  }

  // All but the last of some items are skipped with the others waiting in a slot.
  function FieldsSlots(fields: seq<Field>): nat
    decreases fields
  {
    if fields == [] then 0
    else Max(FieldSlots(fields[0]) + (if |fields| > 1 then 1 else 0), FieldsSlots(fields[1..]))
  }

  function FieldSlots(f: Field): nat
    decreases f
  {
    Max(1, ValuesSlots(f.values))
  }

  function ValuesSlots(values: seq<Value>): nat
    decreases values
  {
    if values == [] then 0
    else Max(Slots(values[0]) + (if |values| > 1 then 1 else 0), ValuesSlots(values[1..]))
  }

  // ---------------------------------------------------------------------------------------------
  // Single pieces are read as they were written.

  // A number is read from any of the widths it fits in.
  lemma LengthIsRead(n: nat, width: nat, rest: seq<byte>)
    requires Fits(n, width)
    ensures VarInt(WriteLength(n, width) + rest) == Ok((n, rest))
  {
    hide Pow2, LittleBytes, LittleEndian;
    var bytes := WriteLength(n, width);
    Widths();
    Pow2Add(2, 8 * Pow2(width) - 2);
    SmallPowers();
    LittleBytesStandFor(4 * n + width, Pow2(width));
    LowestByte(4 * n + width, Pow2(width));
    LowestBits(n, width);
    var data := bytes + rest;
    assert data[..Pow2(width)] == bytes && data[Pow2(width)..] == rest;
  }

  lemma Widths()
    ensures Pow2(0) == 1 && Pow2(1) == 2 && Pow2(2) == 4 && Pow2(3) == 8
  {
  }

  lemma LowestByte(v: nat, n: nat)
    requires n > 0
    ensures LittleBytes(v, n)[0] == v % 256
  {
  }

  lemma LowestBits(n: nat, width: nat)
    requires width < 4
    ensures (4 * n + width) % 256 % 4 == width && (4 * n + width) / 4 == n
  {
  }

  lemma TypeIsRead(f: Field, rest: seq<byte>)
    requires f.Valid()
    ensures TypeSpec(WriteSpec(f) + rest) == Ok(((f.kind, |f.values|), rest))
  {
    hide VarInt, WriteLength;
    if f.counted.Some? {
      var length := WriteLength(|f.values|, f.counted.value);
      var data := [WriteType(f.kind) + 128] + length + rest;
      assert data[1..] == length + rest && data[..1] == [WriteType(f.kind) + 128];
      LengthIsRead(|f.values|, f.counted.value, rest);
    } else {
      var data := [WriteType(f.kind)] + rest;
      assert data[1..] == rest && data[..1] == [WriteType(f.kind)];
    }
  }

  lemma TextIsRead(width: nat, bytes: seq<byte>, rest: seq<byte>)
    requires Fits(|bytes|, width)
    ensures Str(WriteLength(|bytes|, width) + bytes + rest) == Ok((bytes, rest))
  {
    hide VarInt, WriteLength;
    assert WriteLength(|bytes|, width) + bytes + rest == WriteLength(|bytes|, width) + (bytes + rest);
    LengthIsRead(|bytes|, width, bytes + rest);
    TakenAll(bytes, rest);
  }

  lemma TakenAll(bytes: seq<byte>, rest: seq<byte>)
    ensures Take(bytes + rest, |bytes|) == Ok((bytes, rest))
  {
    assert (bytes + rest)[..|bytes|] == bytes && (bytes + rest)[|bytes|..] == rest;
  }

  // The head of an object is its number of fields.
  lemma RecordHead(width: nat, fields: seq<Field>, rest: seq<byte>)
    requires Record(width, fields).Valid()
    ensures Head(Item(Object), WriteValue(Record(width, fields)) + rest) == Ok((ObjectRead(|fields|), WriteFields(fields) + rest))
  {
    hide VarInt, WriteLength, WriteFields, WriteField, Pow2, LittleBytes, WriteInteger, Field.Valid, Str, Take;
    RecordIs(width, fields);
    var length := WriteLength(|fields|, width);
    assert WriteValue(Record(width, fields)) + rest == length + (WriteFields(fields) + rest);
    LengthIsRead(|fields|, width, WriteFields(fields) + rest);
  }

  lemma RecordIs(width: nat, fields: seq<Field>)
    requires Record(width, fields).Valid()
    ensures WriteValue(Record(width, fields)) == WriteLength(|fields|, width) + WriteFields(fields)
    ensures Fits(|fields|, width) && Record(width, fields).Kind() == Object
  {
    hide WriteLength, WriteFields;
  }

  // The head of a field is its key, and the kind and number of its values.
  lemma FieldHead(f: Field, rest: seq<byte>)
    requires f.Valid()
    ensures Head(Entry, WriteField(f) + rest) == Ok((EntryRead(f.key, f.kind, |f.values|), WriteValues(f.values) + rest))
  {
    hide TypeSpec, WriteSpec, WriteValues;
    var spec, after := WriteSpec(f), WriteValues(f.values) + rest;
    var size: seq<byte> := [|f.key|];
    assert WriteField(f) + rest == size + (f.key + (spec + after));
    TakenAll(size, f.key + (spec + after));
    TakenAll(f.key, spec + after);
    TypeIsRead(f, after);
  }

  // Any other value is the bytes it was written as.
  lemma SingleHead(v: Value, rest: seq<byte>)
    requires v.Valid() && !v.Record?
    ensures Head(Item(v.Kind()), WriteValue(v) + rest) == Ok((Unit, rest))
    ensures v.Text? ==> Str(WriteValue(v) + rest) == Ok((v.bytes, rest))
    ensures !v.Text? ==> Take(WriteValue(v) + rest, Size(v.Kind())) == Ok((WriteValue(v), rest))
  {
    hide Str, WriteLength, LittleBytes, Pow2;
    if v.Text? {
      TextIsRead(v.width, v.bytes, rest);
    } else {
      TakenAll(WriteValue(v), rest);
    }
  }

  // Of what is not written so, an empty key is refused, and every code but those of the types, marked or not.
  lemma OthersAreRefused(rest: seq<byte>, code: byte)
    ensures Key([0] + rest) == Err(EmptyKey) && Head(Entry, [0] + rest) == Err(EmptyKey)
    ensures TypeSpec([code] + rest) == Err(UnrecognizedType) <==>
            !exists kind: Type :: code == WriteType(kind) || code == WriteType(kind) + 128
  {
    var data: seq<byte> := [0] + rest;
    assert data[..1] == [0];
    CodeIsKind(code, rest);
  }

  lemma CodeIsKind(code: byte, rest: seq<byte>)
    ensures TypeSpec([code] + rest) == Err(UnrecognizedType) <==> !(1 <= code % 128 <= 12)
    ensures (exists kind: Type :: code == WriteType(kind) || code == WriteType(kind) + 128) <==> 1 <= code % 128 <= 12
  {
    hide VarIntLength, LittleEndian;
    var data: seq<byte> := [code] + rest;
    assert data[..1] == [code] && data[1..] == rest;
    if 1 <= code % 128 <= 12 {
      var kind := TypeOf(code % 128).value;
      assert WriteType(kind) == code % 128;
    }
  }

  // ---------------------------------------------------------------------------------------------
  // Whatever is written is skipped whole, with anything behind it, if and only if the stack has the slots.

  function Skipped(needed: nat, depth: nat, rest: seq<byte>): Result<seq<byte>, EpeeError> {
    if depth + needed <= MAX_OBJECT_DEPTH then Ok(rest) else Err(DepthLimitExceeded)
  }

  lemma {:induction false} ValueIsSkipped(v: Value, rest: seq<byte>, depth: nat)
    requires v.Valid() && depth <= MAX_OBJECT_DEPTH
    ensures SkipItem(Item(v.Kind()), WriteValue(v) + rest, depth) == Skipped(Slots(v), depth, rest)
    decreases v
  {
    hide Head, WriteValue;
    if v.Record? {
      RecordHead(v.width, v.fields, rest);
      if depth < MAX_OBJECT_DEPTH {
        FieldsAreSkipped(v.fields, rest, depth);
      }
    } else {
      SingleHead(v, rest);
    }
  }

  lemma {:induction false} FieldsAreSkipped(fields: seq<Field>, rest: seq<byte>, depth: nat)
    requires (forall i :: 0 <= i < |fields| ==> fields[i].Valid()) && depth < MAX_OBJECT_DEPTH
    ensures SkipMany(Entry, |fields|, WriteFields(fields) + rest, depth) == Skipped(FieldsSlots(fields), depth, rest)
    decreases fields
  {
    hide Head, SkipItem, WriteField, Field.Valid;
    if fields == [] {
      assert [] + rest == rest;
    } else {
      hide WriteFields;
      var after := WriteFields(fields[1..]) + rest;
      FieldsSplit(fields, rest);
      FieldIsSkipped(fields[0], after, if |fields| > 1 then depth + 1 else depth);
      FieldsAreSkipped(fields[1..], rest, depth);
    }
  }

  lemma {:induction false} FieldIsSkipped(f: Field, rest: seq<byte>, depth: nat)
    requires f.Valid() && depth <= MAX_OBJECT_DEPTH
    ensures SkipItem(Entry, WriteField(f) + rest, depth) == Skipped(FieldSlots(f), depth, rest)
    decreases f
  {
    hide Head, WriteField;
    FieldHead(f, rest);
    if depth < MAX_OBJECT_DEPTH {
      ValuesAreSkipped(f.kind, f.values, rest, depth);
    }
  }

  lemma {:induction false} ValuesAreSkipped(kind: Type, values: seq<Value>, rest: seq<byte>, depth: nat)
    requires forall i :: 0 <= i < |values| ==> values[i].Kind() == kind && values[i].Valid()
    requires depth < MAX_OBJECT_DEPTH
    ensures SkipMany(Item(kind), |values|, WriteValues(values) + rest, depth) == Skipped(ValuesSlots(values), depth, rest)
    decreases values
  {
    hide Head, SkipItem, WriteValue, Value.Valid, Value.Kind;
    if values == [] {
      assert [] + rest == rest;
    } else {
      hide WriteValues;
      var after := WriteValues(values[1..]) + rest;
      ValuesSplit(values, rest);
      ValueIsSkipped(values[0], after, if |values| > 1 then depth + 1 else depth);
      ValuesAreSkipped(kind, values[1..], rest, depth);
    }
  }

  // ---------------------------------------------------------------------------------------------
  // A document is walked to any of its parts.

  lemma DocumentStarts(width: nat, fields: seq<Field>)
    requires Record(width, fields).Valid()
    ensures var encoding := WriteDocument(width, fields);
            |encoding| > 8 && encoding[..8] == HEADER && encoding[8] == VERSION && encoding[9..] == WriteValue(Record(width, fields))
  {
    hide WriteValue;
    var encoding := WriteDocument(width, fields);
    assert encoding[..8] == PREAMBLE[..8];
    assert encoding[9..] == WriteValue(Record(width, fields));
  }

  /** The position in front of `n` items of a kind, with `lower` below them. */
  function Before(lower: seq<Slot>, kind: TypeOrEntry, n: nat, data: seq<byte>): Position
    requires n <= USIZE_MAX
  {
    Position(lower + Pushed(kind, n), data)
  }

  /** The slots in use below an item, the first of `n`. */
  function Below(lower: seq<Slot>, n: nat): nat {
    if n > 1 then |lower| + 1 else |lower|
  }

  lemma DropOne(lower: seq<Slot>, kind: TypeOrEntry, n: nat, data: seq<byte>, rest: seq<byte>, m: nat)
    requires 0 < n <= USIZE_MAX && m > 0 && SkipItem(kind, data, Below(lower, n)) == Ok(rest)
    ensures Dropped(Before(lower, kind, n, data), m) == Dropped(Before(lower, kind, n - 1, rest), m - 1)
  {
    hide SkipItem, Popped, Dropped;
    var slots := lower + Pushed(kind, n);
    assert slots[|slots| - 1].kind == kind;
    PushedAgain(lower, kind, n);
    DroppedOnce(Position(slots, data), m);
  }

  /** What is ahead of some fields, or values. */
  function FieldsAhead(fields: seq<Field>, rest: seq<byte>): seq<byte>
    requires forall k :: 0 <= k < |fields| ==> fields[k].Valid()
  {
    WriteFields(fields) + rest
  }

  function ValuesAhead(values: seq<Value>, rest: seq<byte>): seq<byte>
    requires forall k :: 0 <= k < |values| ==> values[k].Valid()
  {
    WriteValues(values) + rest
  }

  // With the fields before it dropped, the position is that of any field.
  lemma {:induction false} FieldReached(lower: seq<Slot>, fields: seq<Field>, i: nat, rest: seq<byte>)
    requires (forall k :: 0 <= k < |fields| ==> fields[k].Valid()) && i <= |fields| <= USIZE_MAX
    requires |lower| < MAX_OBJECT_DEPTH && |lower| + FieldsSlots(fields) <= MAX_OBJECT_DEPTH
    ensures Dropped(Before(lower, Entry, |fields|, FieldsAhead(fields, rest)), i) ==
            Ok(Before(lower, Entry, |fields| - i, FieldsAhead(fields[i..], rest)))
    decreases i
  {
    hide SkipItem, Field.Valid, Dropped, FieldsAhead, FieldsSlots, FieldSlots, Before;
    if i == 0 {
      assert fields[0..] == fields;
      DroppedNone(Before(lower, Entry, |fields|, FieldsAhead(fields, rest)));
    } else {
      SlotsOfFirst(fields);
      FirstFieldSkipped(fields, rest, Below(lower, |fields|));
      DropOne(lower, Entry, |fields|, FieldsAhead(fields, rest), FieldsAhead(fields[1..], rest), i);
      FieldReached(lower, fields[1..], i - 1, rest);
      assert fields[1..][i - 1..] == fields[i..];
    }
  }

  lemma FirstFieldSkipped(fields: seq<Field>, rest: seq<byte>, depth: nat)
    requires fields != [] && forall k :: 0 <= k < |fields| ==> fields[k].Valid()
    requires depth <= MAX_OBJECT_DEPTH && depth + FieldSlots(fields[0]) <= MAX_OBJECT_DEPTH
    ensures SkipItem(Entry, FieldsAhead(fields, rest), depth) == Ok(FieldsAhead(fields[1..], rest))
  {
    hide SkipItem, Field.Valid, WriteField, WriteFields, FieldSlots;
    FieldsSplit(fields, rest);
    FieldIsSkipped(fields[0], WriteFields(fields[1..]) + rest, depth);
  }

  lemma FieldsSplit(fields: seq<Field>, rest: seq<byte>)
    requires fields != [] && forall k :: 0 <= k < |fields| ==> fields[k].Valid()
    ensures WriteFields(fields) + rest == WriteField(fields[0]) + (WriteFields(fields[1..]) + rest)
  {
    hide WriteField, WriteFields, FieldSlots, Field.Valid;
    FirstField(fields);
    Grouped(WriteField(fields[0]), WriteFields(fields[1..]), rest);
  }

  lemma FirstField(fields: seq<Field>)
    requires fields != [] && forall k :: 0 <= k < |fields| ==> fields[k].Valid()
    ensures WriteFields(fields) == WriteField(fields[0]) + WriteFields(fields[1..])
  {
    hide WriteField, Field.Valid;
  }

  lemma Grouped(a: seq<byte>, b: seq<byte>, c: seq<byte>)
    ensures a + b + c == a + (b + c)
  {
  }

  lemma ValuesSplit(values: seq<Value>, rest: seq<byte>)
    requires values != [] && forall k :: 0 <= k < |values| ==> values[k].Valid()
    ensures WriteValues(values) + rest == WriteValue(values[0]) + (WriteValues(values[1..]) + rest)
  {
    hide WriteValue, WriteValues, Slots, Value.Valid;
    FirstValue(values);
    Grouped(WriteValue(values[0]), WriteValues(values[1..]), rest);
  }

  lemma FirstValue(values: seq<Value>)
    requires values != [] && forall k :: 0 <= k < |values| ==> values[k].Valid()
    ensures WriteValues(values) == WriteValue(values[0]) + WriteValues(values[1..])
  {
    hide WriteValue, Value.Valid;
  }

  // There, the field's key, kind and number of values are read, and its values are next.
  lemma FieldIsRead(lower: seq<Slot>, fields: seq<Field>, i: nat, rest: seq<byte>)
    requires (forall k :: 0 <= k < |fields| ==> fields[k].Valid()) && i < |fields| <= USIZE_MAX
    requires |lower| < MAX_OBJECT_DEPTH && |lower| + FieldsSlots(fields) <= MAX_OBJECT_DEPTH
    ensures |fields[i].values| <= USIZE_MAX
    ensures var f, at := fields[i], Before(lower, Entry, |fields| - i, FieldsAhead(fields[i..], rest));
            var below := lower + Pushed(Entry, |fields| - i - 1);
            Stepped(at.slots, at.data) ==
            Ok(Outcome(EntryRead(f.key, f.kind, |f.values|), below + Pushed(Item(f.kind), |f.values|),
                       ValuesAhead(f.values, FieldsAhead(fields[i + 1..], rest))))
    ensures |lower + Pushed(Entry, |fields| - i - 1)| + ValuesSlots(fields[i].values) <= MAX_OBJECT_DEPTH
  {
    hide Stepped, WriteField, WriteValues, FieldSlots, Field.Valid, ValuesSlots;
    hide WriteFields;
    var f := fields[i];
    var after := WriteFields(fields[i + 1..]) + rest;
    assert fields[i..][0] == f && fields[i..][1..] == fields[i + 1..];
    FieldsSplit(fields[i..], rest);
    SlotsOfSuffix(fields, i);
    SlotsOfFirst(fields[i..]);
    CountFits(f);
    FieldStepped(lower, f, |fields| - i, after);
  }

  lemma CountFits(f: Field)
    requires f.Valid()
    ensures |f.values| <= USIZE_MAX
  {
    hide Pow2;
    if f.counted.Some? {
      Widths();
      Pow2Monotone(8 * Pow2(f.counted.value) - 2, 64);
      Pow2Of64();
    }
  }

  lemma FieldStepped(lower: seq<Slot>, f: Field, n: nat, after: seq<byte>)
    requires f.Valid() && 0 < n <= USIZE_MAX && |f.values| <= USIZE_MAX
    requires |lower + Pushed(Entry, n - 1)| < MAX_OBJECT_DEPTH
    ensures Stepped(lower + Pushed(Entry, n), WriteField(f) + after) ==
            Ok(Outcome(EntryRead(f.key, f.kind, |f.values|), lower + Pushed(Entry, n - 1) + Pushed(Item(f.kind), |f.values|),
                       WriteValues(f.values) + after))
  {
    hide Head, Popped, WriteField, WriteValues, Field.Valid;
    FieldHead(f, after);
    PushedAgain(lower, Entry, n);
    var at := lower + Pushed(Entry, n);
    assert at[|at| - 1].kind == Entry;
  }

  lemma {:induction false} SlotsOfSuffix(fields: seq<Field>, i: nat)
    requires i <= |fields|
    ensures FieldsSlots(fields[i..]) <= FieldsSlots(fields)
  {
    hide FieldSlots;
    if i > 0 {
      SlotsOfSuffix(fields[1..], i - 1);
      assert fields[1..][i - 1..] == fields[i..];
    } else {
      assert fields[0..] == fields;
    }
  }

  lemma SlotsOfFirst(fields: seq<Field>)
    requires fields != []
    ensures FieldSlots(fields[0]) + (if |fields| > 1 then 1 else 0) <= FieldsSlots(fields)
    ensures 1 <= FieldSlots(fields[0]) && ValuesSlots(fields[0].values) <= FieldSlots(fields[0])
    ensures FieldsSlots(fields[1..]) <= FieldsSlots(fields)
  {
    hide ValuesSlots;
  }

  // With the values before it dropped, the position is that of any value of an array.
  lemma {:induction false} ValueReached(lower: seq<Slot>, kind: Type, values: seq<Value>, j: nat, rest: seq<byte>)
    requires forall k :: 0 <= k < |values| ==> values[k].Kind() == kind && values[k].Valid()
    requires j <= |values| <= USIZE_MAX && |lower| < MAX_OBJECT_DEPTH && |lower| + ValuesSlots(values) <= MAX_OBJECT_DEPTH
    ensures Dropped(Before(lower, Item(kind), |values|, ValuesAhead(values, rest)), j) ==
            Ok(Before(lower, Item(kind), |values| - j, ValuesAhead(values[j..], rest)))
    decreases j
  {
    hide SkipItem, Value.Valid, Value.Kind, Dropped, ValuesAhead, ValuesSlots, Slots, Before;
    if j == 0 {
      assert values[0..] == values;
      DroppedNone(Before(lower, Item(kind), |values|, ValuesAhead(values, rest)));
    } else {
      ValuesSlotsFall(values);
      FirstValueSkipped(kind, values, rest, Below(lower, |values|));
      DropOne(lower, Item(kind), |values|, ValuesAhead(values, rest), ValuesAhead(values[1..], rest), j);
      ValueReached(lower, kind, values[1..], j - 1, rest);
      assert values[1..][j - 1..] == values[j..];
    }
  }

  lemma FirstValueSkipped(kind: Type, values: seq<Value>, rest: seq<byte>, depth: nat)
    requires values != [] && forall k :: 0 <= k < |values| ==> values[k].Kind() == kind && values[k].Valid()
    requires depth <= MAX_OBJECT_DEPTH && depth + Slots(values[0]) <= MAX_OBJECT_DEPTH
    ensures SkipItem(Item(kind), ValuesAhead(values, rest), depth) == Ok(ValuesAhead(values[1..], rest))
  {
    hide SkipItem, Value.Valid, Value.Kind, WriteValue, WriteValues, Slots;
    ValuesSplit(values, rest);
    ValueIsSkipped(values[0], WriteValues(values[1..]) + rest, depth);
  }

  lemma ValuesSlotsFall(values: seq<Value>)
    requires values != []
    ensures Slots(values[0]) + (if |values| > 1 then 1 else 0) <= ValuesSlots(values) && ValuesSlots(values[1..]) <= ValuesSlots(values)
  {
    hide Slots;
  }

  // There, an integer is the one written, a text its bytes, and a flag or a float what it was.
  lemma ValueIsRead(values: seq<Value>, j: nat, rest: seq<byte>)
    requires (forall k :: 0 <= k < |values| ==> values[k].Valid()) && j < |values| && !values[j].Record?
    ensures var v, data := values[j], ValuesAhead(values[j..], rest);
            var after := ValuesAhead(values[j + 1..], rest);
            match v
            case Integer(kind, n) =>
              && Take(data, Size(kind)).Ok? && Take(data, Size(kind)).value.1 == after
              && IntegerOf(kind, Take(data, Size(kind)).value.0) == n
            case Float(bytes) => Take(data, Size(Double)) == Ok((bytes, after))
            case Text(_, bytes) => Str(data) == Ok((bytes, after))
            case Flag(flag) => data != [] && data[0] == flag && data[1..] == after
            case Record(_, _) => true
  {
    hide Str, WriteLength, WriteInteger, IntegerOf, Take, WriteValues;
    var v := values[j];
    var after := WriteValues(values[j + 1..]) + rest;
    assert values[j..][0] == v && values[j..][1..] == values[j + 1..];
    ValuesSplit(values[j..], rest);
    SingleHead(v, after);
    if v.Integer? {
      IntegerIsRead(v.intType, v.value);
    }
  }

  // Two's complement, both ways.
  lemma IntegerIsRead(kind: Type, n: int)
    requires IsInteger(kind) && InRange(kind, n)
    ensures IntegerOf(kind, WriteInteger(kind, n)) == n
  {
    hide Pow2;
    var k := Bytes(kind);
    Pow2Next(8 * k - 1);
    var written: nat := n % Pow2(8 * k);
    LittleBytesStandFor(written, k);
    Wrapped(n, Pow2(8 * k - 1), Pow2(8 * k));
  }

  lemma Wrapped(n: int, half: nat, whole: nat)
    requires whole == 2 * half && half > 0 && 0 <= n + half && n < whole
    ensures n % whole == if n < 0 then n + whole else n
  {
    if n < 0 {
      Arithmetic.ModIs(n, whole, -1, n + whole);
    } else {
      Arithmetic.ModIs(n, whole, 0, n);
    }
  }
}
