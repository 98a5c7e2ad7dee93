/** epee/src/parser.rs: the iterative decoder, and the recursive parser it stands in for. */
module EpeeParser {
  import opened Wrappers
  import opened EpeeStack
  import opened EpeeIo

  datatype SingleStepResult = ObjectRead(fields: nat) | EntryRead(key: seq<byte>, kind: Type, len: nat) | Unit

  // ---------------------------------------------------------------------------------------------
  // What an item is.

  function TypeOf(code: int): Option<Type> {
    match code
    case 1 => Some(Int64)
    case 2 => Some(Int32)
    case 3 => Some(Int16)
    case 4 => Some(Int8)
    case 5 => Some(Uint64)
    case 6 => Some(Uint32)
    case 7 => Some(Uint16)
    case 8 => Some(Uint8)
    case 9 => Some(Double)
    case 10 => Some(String)
    case 11 => Some(Bool)
    case 12 => Some(Object)
    case _ => None
  }

  /** The bytes of an item whose type fixes its size. */
  function Size(kind: Type): (n: nat)
    ensures n > 0 <==> kind != String && kind != Object
  {
    match kind
    case Int64 | Uint64 | Double => 8
    case Int32 | Uint32 => 4
    case Int16 | Uint16 => 2
    case Int8 | Uint8 | Bool => 1
    case String | Object => 0
  }

  /** A type, and its number of items: one unless the array bit is set. */
  function TypeSpec(data: seq<byte>): (r: Reading<(Type, nat)>)
    ensures r.Ok? ==> |r.value.1| < |data| && r.value.0.1 <= USIZE_MAX
  {
    match Take(data, 1)
    case Err(e) => Err(e)
    case Ok((code, rest)) =>
      match TypeOf(code[0] % 128)
      case None => Err(UnrecognizedType)
      case Some(kind) =>
        if code[0] < 128 then Ok(((kind, 1), rest))
        else
          match VarInt(rest)
          case Err(e) => Err(e)
          case Ok((len, after)) => Ok(((kind, len), after))
  }

  function Key(data: seq<byte>): (r: Reading<seq<byte>>)
    ensures r.Ok? ==> |r.value.1| < |data|
  {
    match Take(data, 1)
    case Err(e) => Err(e)
    case Ok((len, rest)) => if len[0] == 0 then Err(EmptyKey) else Take(rest, len[0])
  }

  /** An item without the items nested in it. */
  function Head(kind: TypeOrEntry, data: seq<byte>): (r: Reading<SingleStepResult>)
    ensures r.Ok? ==> |r.value.1| < |data| && Nested(r.value.0).1 <= USIZE_MAX
    ensures r.Ok? ==> (r.value.0.Unit? <==> kind != Entry && kind != Item(Object))
  {
    match kind
    case Entry =>
      (match Key(data)
       case Err(e) => Err(e)
       case Ok((key, rest)) =>
         match TypeSpec(rest)
         case Err(e) => Err(e)
         case Ok(((itemKind, len), after)) => Ok((EntryRead(key, itemKind, len), after)))
    case Item(Object) =>
      (match VarInt(data)
       case Err(e) => Err(e)
       case Ok((fields, rest)) => Ok((ObjectRead(fields), rest)))
    case Item(String) =>
      (match Str(data)
       case Err(e) => Err(e)
       case Ok((_, rest)) => Ok((Unit, rest)))
    case Item(fixed) =>
      match Take(data, Size(fixed))
      case Err(e) => Err(e)
      case Ok((_, rest)) => Ok((Unit, rest))
  }

  /** The items nested in an item: the fields of an object, or the values of a field. */
  function Nested(head: SingleStepResult): (TypeOrEntry, nat) {
    match head
    case ObjectRead(fields) => (Entry, fields)
    case EntryRead(_, kind, len) => (Item(kind), len)
    case Unit => (Entry, 0)
  }

  // ---------------------------------------------------------------------------------------------
  // The recursive parser: it skips an item, below which `depth` slots of a stack would be in use.

  function SkipItem(kind: TypeOrEntry, data: seq<byte>, depth: nat): (r: Result<seq<byte>, EpeeError>)
    ensures r.Ok? ==> |r.value| < |data|
    decreases |data|, 0
  {
    match Head(kind, data)
    case Err(e) => Err(e)
    case Ok((head, rest)) =>
      if head.Unit? then Ok(rest)
      else if depth == MAX_OBJECT_DEPTH then Err(DepthLimitExceeded)
      else SkipMany(Nested(head).0, Nested(head).1, rest, depth)
  }

  /** Skips some items of one kind. All but the last of them are followed by others, which take a slot. */
  function SkipMany(kind: TypeOrEntry, n: nat, data: seq<byte>, depth: nat): (r: Result<seq<byte>, EpeeError>)
    ensures r.Ok? ==> |r.value| <= |data|
    decreases |data|, 1
  {
    if n == 0 then Ok(data)
    else
      match SkipItem(kind, data, if n > 1 then depth + 1 else depth)
      case Err(e) => Err(e)
      case Ok(rest) => SkipMany(kind, n - 1, rest, depth)
  }

  /** Skips all that is left on a stack, down to `stop` slots. */
  function SkipSlots(slots: seq<Slot>, data: seq<byte>, stop: nat): (r: Result<seq<byte>, EpeeError>)
    decreases |slots|
  {
    if |slots| <= stop then Ok(data)
    else
      var top := slots[|slots| - 1];
      match SkipMany(top.kind, top.amount, data, |slots| - 1)
      case Err(e) => Err(e)
      case Ok(rest) => SkipSlots(slots[..|slots| - 1], rest, stop)
  }

  // ---------------------------------------------------------------------------------------------
  // One step of the machine, and what it keeps.

  /** The outcome of a step: what was read, the stack, and the bytes left. */
  datatype Outcome = Outcome(head: SingleStepResult, slots: seq<Slot>, data: seq<byte>)

  function Stepped(slots: seq<Slot>, data: seq<byte>): (r: Result<Outcome, EpeeError>)
    requires slots != []
  {
    match Head(slots[|slots| - 1].kind, data)
    case Err(e) => Err(e)
    case Ok((head, rest)) =>
      if head.Unit? then Ok(Outcome(head, Popped(slots), rest))
      else if |Popped(slots)| == MAX_OBJECT_DEPTH then Err(DepthLimitExceeded)
      else Ok(Outcome(head, Popped(slots) + Pushed(Nested(head).0, Nested(head).1), rest))
  }

  // The item on top is skipped by what is left after a step.
  lemma StepIntoItem(slots: seq<Slot>, data: seq<byte>)
    requires slots != []
    ensures var stop := |Popped(slots)|;
            var skipped := SkipItem(slots[|slots| - 1].kind, data, stop);
            var step := Stepped(slots, data);
            && (step.Err? ==> skipped == Err(step.error))
            && (step.Ok? ==>
                  && |step.value.slots| >= stop && step.value.slots[..stop] == Popped(slots) && |step.value.data| < |data|
                  && SkipSlots(step.value.slots, step.value.data, stop) == skipped)
  {
    var stop := |Popped(slots)|;
    match Stepped(slots, data) {
      case Err(e) =>
      case Ok(Outcome(head, after, rest)) =>
        if |after| > stop {
          var top := after[|after| - 1];
          assert after[..|after| - 1] == Popped(slots);
          assert SkipItem(slots[|slots| - 1].kind, data, stop) == SkipMany(top.kind, top.amount, rest, stop);
          SkipNoSlots(Popped(slots), SkipMany(top.kind, top.amount, rest, stop), stop);
        }
    }
  }

  lemma SkipNoSlots(slots: seq<Slot>, r: Result<seq<byte>, EpeeError>, stop: nat)
    requires |slots| <= stop
    ensures r.Ok? ==> SkipSlots(slots, r.value, stop) == r
  {
  }

  // Skipping down to a slot is skipping down to a slot above it first.
  lemma {:induction false} SkipInStages(slots: seq<Slot>, data: seq<byte>, middle: nat, stop: nat)
    requires stop <= middle <= |slots|
    ensures SkipSlots(slots, data, stop) ==
            match SkipSlots(slots, data, middle)
            case Err(e) => Err(e)
            case Ok(rest) => SkipSlots(slots[..middle], rest, stop)
    decreases |slots|
  {
    if |slots| == middle {
      assert slots[..middle] == slots;
    } else {
      var top := slots[|slots| - 1];
      var lower := slots[..|slots| - 1];
      assert lower[..middle] == slots[..middle];
      match SkipMany(top.kind, top.amount, data, |slots| - 1) {
        case Err(e) =>
        case Ok(rest) => SkipInStages(lower, rest, middle, stop);
      }
    }
  }

  // The top item, and then the rest of the stack.
  lemma SkipTop(slots: seq<Slot>, data: seq<byte>, stop: nat)
    requires stop < |slots|
    ensures SkipSlots(slots, data, stop) ==
            match SkipItem(slots[|slots| - 1].kind, data, |Popped(slots)|)
            case Err(e) => Err(e)
            case Ok(rest) => SkipSlots(Popped(slots), rest, stop)
  {
    hide SkipItem;
    var top := slots[|slots| - 1];
    var n: nat := top.amount;
    PoppedTop(slots);
    ManyStep(top.kind, n, data, |slots| - 1);
    match SkipItem(top.kind, data, |Popped(slots)|) {
      case Err(e) =>
      case Ok(rest) =>
        if n == 1 {
          ManyNone(top.kind, rest, |slots| - 1);
        }
    }
  }

  lemma PoppedTop(slots: seq<Slot>)
    requires slots != []
    ensures var top, lower := slots[|slots| - 1], slots[..|slots| - 1];
            if top.amount == 1 then Popped(slots) == lower
            else
              && |Popped(slots)| == |slots| && Popped(slots)[..|slots| - 1] == lower
              && Popped(slots)[|slots| - 1] == Slot(top.kind, top.amount - 1)
  {
  }

  lemma ManyStep(kind: TypeOrEntry, n: nat, data: seq<byte>, depth: nat)
    requires n > 0
    ensures SkipMany(kind, n, data, depth) ==
            match SkipItem(kind, data, if n > 1 then depth + 1 else depth)
            case Err(e) => Err(e)
            case Ok(rest) => SkipMany(kind, n - 1, rest, depth)
  {
  }

  lemma ManyNone(kind: TypeOrEntry, data: seq<byte>, depth: nat)
    ensures SkipMany(kind, 0, data, depth) == Ok(data)
  {
  }

  // A step keeps what the parser makes of everything above any slot below the top one.
  lemma StepKeepsSkip(slots: seq<Slot>, data: seq<byte>, stop: nat)
    requires stop < |slots|
    ensures var step := Stepped(slots, data);
            && (step.Err? ==> SkipSlots(slots, data, stop) == Err(step.error))
            && (step.Ok? ==>
                  && |step.value.slots| >= stop && step.value.slots[..stop] == slots[..stop] && |step.value.data| < |data|
                  && SkipSlots(step.value.slots, step.value.data, stop) == SkipSlots(slots, data, stop))
  {
    hide SkipSlots, SkipItem, Head;
    StepIntoItem(slots, data);
    SkipTop(slots, data, stop);
    match Stepped(slots, data) {
      case Err(e) =>
      case Ok(Outcome(_, after, rest)) =>
        SkipInStages(after, rest, |Popped(slots)|, stop);
        assert after[..stop] == after[..|Popped(slots)|][..stop];
    }
  }

  // ---------------------------------------------------------------------------------------------
  // The machine.

  method ReadType(reader: Cursor) returns (res: Result<(Type, nat), EpeeError>)
    modifies reader
    ensures reader.Moved(TypeSpec(old(reader.data)), res)
  {
    var code := reader.ReadByte();
    if code.Err? {
      return Err(code.error);
    }
    var arrayBit := code.value / 128;
    var kind := TypeOf(code.value % 128);
    if kind.None? {
      return Err(UnrecognizedType);
    }
    var len := 1;
    if arrayBit != 0 {
      var read := reader.ReadVarInt();
      if read.Err? {
        return Err(read.error);
      }
      len := read.value;
    }
    res := Ok((kind.value, len));
  }

  method ReadKey(reader: Cursor) returns (res: Result<seq<byte>, EpeeError>)
    modifies reader
    ensures reader.Moved(Key(old(reader.data)), res)
  {
    var len := reader.ReadByte();
    if len.Err? {
      return Err(len.error);
    }
    if len.value == 0 {
      return Err(EmptyKey);
    }
    res := reader.ReadBytes(len.value);
  }

  /** The arms of the match in `single_step`, up to what they push. */
  method ReadHead(kind: TypeOrEntry, encoding: Cursor) returns (res: Result<SingleStepResult, EpeeError>)
    modifies encoding
    ensures encoding.Moved(Head(kind, old(encoding.data)), res)
  {
    hide VarInt, Str, Key, TypeSpec;
    match kind {
      case Item(String) =>
        var text := encoding.ReadStr();
        if text.Err? {
          return Err(text.error);
        }
        res := Ok(Unit);
      case Item(Object) =>
        var fields := encoding.ReadVarInt();
        if fields.Err? {
          return Err(fields.error);
        }
        res := Ok(ObjectRead(fields.value));
      case Entry =>
        var key := ReadKey(encoding);
        if key.Err? {
          return Err(key.error);
        }
        var spec := ReadType(encoding);
        if spec.Err? {
          return Err(spec.error);
        }
        res := Ok(EntryRead(key.value, spec.value.0, spec.value.1));
      case Item(fixed) =>
        var advanced := encoding.Advance(Size(fixed));
        if advanced.Err? {
          return Err(advanced.error);
        }
        res := Ok(Unit);
    }
  }

  method SingleStep(stack: Stack, encoding: Cursor) returns (res: Result<Option<SingleStepResult>, EpeeError>)
    requires stack.Valid()
    modifies stack`depth, stack.amounts, stack.types, encoding
    ensures stack.Valid()
    ensures var slots, data := old(stack.Contents()), old(encoding.data);
            if slots == [] then res == Ok(None) && stack.Contents() == [] && encoding.data == data
            else
              match Stepped(slots, data)
              case Err(e) => res == Err(e)
              case Ok(step) =>
                res == Ok(Some(step.head)) && stack.Contents() == step.slots && encoding.data == step.data
  {
    hide Head, Popped, Pushed;
    var popped := stack.Pop();
    if popped.None? {
      PoppedNothing();
      return Ok(None);
    }
    var head := ReadHead(popped.value, encoding);
    if head.Err? {
      return Err(head.error);
    }
    match head.value {
      case ObjectRead(fields) =>
        var pushed := stack.Push(Entry, fields);
        if pushed.Err? {
          return Err(pushed.error);
        }
      case EntryRead(_, kind, len) =>
        var pushed := stack.Push(Item(kind), len);
        if pushed.Err? {
          return Err(pushed.error);
        }
      case Unit =>
    }
    res := Ok(Some(head.value));
  }

  lemma PoppedNothing()
    ensures Popped([]) == []
  {
  }

  /** Steps through the entirety of the next item. */
  method Step(stack: Stack, encoding: Cursor) returns (res: Result<Option<()>, EpeeError>)
    requires stack.Valid()
    modifies stack`depth, stack.amounts, stack.types, encoding
    ensures stack.Valid()
    ensures var slots, data := old(stack.Contents()), old(encoding.data);
            if slots == [] then res == Ok(None) && stack.Contents() == [] && encoding.data == data
            else
              match SkipItem(slots[|slots| - 1].kind, data, |Popped(slots)|)
              case Err(e) => res == Err(e)
              case Ok(rest) => res == Ok(Some(())) && stack.Contents() == Popped(slots) && encoding.data == rest
  {
    hide SkipItem, Head, SkipSlots, Stepped;
    var top := stack.Peek();
    if top.None? {
      return Ok(None);
    }
    var currentStackDepth := stack.depth;
    var stopAtStackDepth := if top.value.1 > 1 then currentStackDepth else currentStackDepth - 1;

    ghost var slots, data := stack.Contents(), encoding.data;
    StepIntoItem(slots, data);
    ghost var skipped := SkipItem(slots[|slots| - 1].kind, data, |Popped(slots)|);
    var first := SingleStep(stack, encoding);
    if first.Err? {
      return Err(first.error);
    }
    while stack.depth != stopAtStackDepth
      invariant stack.Valid() && stopAtStackDepth == |Popped(slots)| <= stack.depth
      invariant stack.Contents()[..stopAtStackDepth] == Popped(slots)
      invariant SkipSlots(stack.Contents(), encoding.data, stopAtStackDepth) == skipped
      decreases |encoding.data|
    {
      StepKeepsSkip(stack.Contents(), encoding.data, stopAtStackDepth);
      var single := SingleStep(stack, encoding);
      if single.Err? {
        return Err(single.error);
      }
    }
    NothingToSkip(stack.Contents(), encoding.data, stopAtStackDepth);
    res := Ok(Some(()));
  }

  lemma NothingToSkip(slots: seq<Slot>, data: seq<byte>, stop: nat)
    requires |slots| == stop
    ensures SkipSlots(slots, data, stop) == Ok(data) && slots[..stop] == slots
  {
  }
}
