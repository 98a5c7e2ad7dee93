/** epee/src/stack.rs: the decoder's stack, in two fixed arrays. */
module EpeeStack {
  import opened Wrappers

  datatype Type = Int64 | Int32 | Int16 | Int8 | Uint64 | Uint32 | Uint16 | Uint8 | Double | String | Bool | Object

  datatype TypeOrEntry = Item(kind: Type) | Entry

  datatype EpeeError =
    | InternalError
    | InvalidHeader
    | InvalidVersion(version: Option<byte>)
    | Short(bytes: nat)
    | UnrecognizedType
    | EmptyKey
    | DepthLimitExceeded
    | TypeError
    | EpeeReuse

  const USIZE_MAX: nat := 0xffff_ffff_ffff_ffff

  type NonZero = n: nat | 1 <= n <= USIZE_MAX witness 1

  // The depth limit of the original library, and two more.
  const MAX_OBJECT_DEPTH: nat := 102

  /** So many items of a kind left to decode. */
  datatype Slot = Slot(kind: TypeOrEntry, amount: NonZero)

  function Code(kind: TypeOrEntry): (code: bv8)
    ensures code <= 12
  {
    match kind
    case Entry => 0
    case Item(Int64) => 1
    case Item(Int32) => 2
    case Item(Int16) => 3
    case Item(Int8) => 4
    case Item(Uint64) => 5
    case Item(Uint32) => 6
    case Item(Uint16) => 7
    case Item(Uint8) => 8
    case Item(Double) => 9
    case Item(String) => 10
    case Item(Bool) => 11
    case Item(Object) => 12
  }

  function Decode(code: bv8): (kind: Option<TypeOrEntry>)
    ensures kind.Some? ==> Code(kind.value) == code
    ensures kind.Some? <==> code <= 12
  {
    match code
    case 0 => Some(Entry)
    case 1 => Some(Item(Int64))
    case 2 => Some(Item(Int32))
    case 3 => Some(Item(Int16))
    case 4 => Some(Item(Int8))
    case 5 => Some(Item(Uint64))
    case 6 => Some(Item(Uint32))
    case 7 => Some(Item(Uint16))
    case 8 => Some(Item(Uint8))
    case 9 => Some(Item(Double))
    case 10 => Some(Item(String))
    case 11 => Some(Item(Bool))
    case 12 => Some(Item(Object))
    case _ => None
  }

  lemma CodesAreDistinct(a: TypeOrEntry, b: TypeOrEntry)
    requires Code(a) == Code(b)
    ensures a == b
  {
  }

  /** The four bits of a slot: the lower ones for even slots, the higher ones for odd slots. */
  function Nibble(packed: bv8, i: nat): bv8 {
    (if i % 2 == 1 then packed >> 4 else packed) & 0xf
  }

  function WithNibble(packed: bv8, i: nat, fourBits: bv8): bv8 {
    if i % 2 == 1 then (packed & (0xf0 >> 4)) | (fourBits << 4) else (packed & 0xf0) | fourBits
  }

  // Writing one half of a byte leaves the other half as it was.
  lemma NibbleWritten(packed: bv8, i: nat, j: nat, fourBits: bv8)
    requires fourBits <= 12
    ensures Nibble(WithNibble(packed, i, fourBits), j) == if i % 2 == j % 2 then fourBits else Nibble(packed, j)
  {
  }

  class Stack {
    const types: array<bv8>
    const amounts: array<NonZero>
    var depth: byte

    ghost predicate Valid()
      reads this, types, amounts
    {
      && types.Length == (MAX_OBJECT_DEPTH + 1) / 2 && amounts.Length == MAX_OBJECT_DEPTH
      && depth <= MAX_OBJECT_DEPTH
      && forall i :: 0 <= i < depth ==> Nibble(types[i / 2], i) <= 12
    }

    /** The stack, its top last. */
    ghost function Contents(): (slots: seq<Slot>)
      requires Valid()
      reads this, types, amounts
      ensures |slots| == depth
    {
      seq(depth, i requires 0 <= i < depth && Valid() reads this, types, amounts =>
        Slot(Decode(Nibble(types[i / 2], i)).value, amounts[i]))
    }

    constructor RootObject()
      ensures Valid() && fresh(types) && fresh(amounts)
      ensures Contents() == [Slot(Item(Object), 1)]
    {
      types := new bv8[(MAX_OBJECT_DEPTH + 1) / 2](_ => 0);
      amounts := new NonZero[MAX_OBJECT_DEPTH](_ => 1);
      depth := 1;
      new;
      NibbleWritten(types[0], 0, 0, Code(Item(Object)));
      types[0] := WithNibble(types[0], 0, Code(Item(Object)));
      CodesAreDistinct(Decode(Nibble(types[0], 0)).value, Item(Object));
    }

    method Get(i: nat) returns (kind: TypeOrEntry)
      requires Valid() && i < depth
      ensures kind == Contents()[i].kind
    {
      var entry := Nibble(types[i / 2], i);
      kind := Decode(entry).value;
    }

    method Set(i: nat, kind: TypeOrEntry)
      requires i < 2 * types.Length
      modifies types
      ensures Nibble(types[i / 2], i) == Code(kind)
      ensures forall j :: 0 <= j < 2 * types.Length && j != i ==> Nibble(types[j / 2], j) == old(Nibble(types[j / 2], j))
    {
      types[i / 2] := WithNibble(types[i / 2], i, Code(kind));
      NibbleWritten(old(types[i / 2]), i, i, Code(kind));
      forall j | 0 <= j < 2 * types.Length && j != i
        ensures Nibble(types[j / 2], j) == old(Nibble(types[j / 2], j))
      {
        if j / 2 == i / 2 {
          NibbleWritten(old(types[i / 2]), i, j, Code(kind));
        }
      }
    }

    method Peek() returns (top: Option<(TypeOrEntry, NonZero)>)
      requires Valid()
      ensures top.None? <==> Contents() == []
      ensures top.Some? ==> var slot := Contents()[|Contents()| - 1]; top.value == (slot.kind, slot.amount)
    {
      if depth == 0 {
        return None;
      }
      var kind := Get(depth - 1);
      top := Some((kind, amounts[depth - 1]));
    }

    method Pop() returns (kind: Option<TypeOrEntry>)
      requires Valid()
      modifies this`depth, amounts
      ensures Valid() && Contents() == Popped(old(Contents()))
      ensures kind == if old(Contents()) == [] then None else Some(old(Contents())[old(depth) - 1].kind)
    {
      if depth == 0 {
        return None;
      }
      hide Nibble, Decode;
      var i := depth - 1;
      var popped := Get(i);
      var amount: nat := (amounts[i] as nat) - 1;
      ghost var was := Contents();
      if amount != 0 {
        amounts[i] := amount;
        assert Contents() == was[..i] + [Slot(popped, amount)];
      } else {
        depth := depth - 1;
        assert Contents() == was[..i];
      }
      kind := Some(popped);
    }

    method Push(kind: TypeOrEntry, amount: nat) returns (res: Result<(), EpeeError>)
      requires Valid() && amount <= USIZE_MAX
      modifies this`depth, amounts, types
      ensures Valid()
      ensures res == (if old(depth) == MAX_OBJECT_DEPTH then Err(DepthLimitExceeded) else Ok(()))
      ensures Contents() == if res.Ok? then old(Contents()) + Pushed(kind, amount) else old(Contents())
    {
      if depth == MAX_OBJECT_DEPTH {
        return Err(DepthLimitExceeded);
      }
      if amount == 0 {
        return Ok(());
      }
      ghost var was := Contents();
      Set(depth, kind);
      amounts[depth] := amount;
      CodesAreDistinct(Decode(Nibble(types[depth / 2], depth)).value, kind);
      depth := depth + 1;
      assert forall i :: 0 <= i < |was| ==> Contents()[i] == was[i];
      res := Ok(());
    }
  }

  /** The stack with one item fewer of the kind on top. */
  function Popped(slots: seq<Slot>): (r: seq<Slot>) {
    if slots == [] then []
    else
      var lower, top := slots[..|slots| - 1], slots[|slots| - 1];
      if top.amount == 1 then lower else lower + [Slot(top.kind, top.amount - 1)]
  }

  /** What is pushed for so many items: nothing, if there are none. */
  function Pushed(kind: TypeOrEntry, amount: nat): (r: seq<Slot>)
    requires amount <= USIZE_MAX
  {
    if amount == 0 then [] else [Slot(kind, amount)]
  }
}
