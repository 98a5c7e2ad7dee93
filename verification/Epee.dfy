/** epee/src/lib.rs: walking an encoding with entries and iterators which resynchronise when dropped. */
module Epee {
  import opened Wrappers
  import opened PowersOfTwo
  import opened Vectors
  import opened EpeeStack
  import opened EpeeIo
  import opened EpeeParser

  // "\x01\x11\x01\x01\x01\x01\x02\x01"
  const HEADER: seq<byte> := [1, 17, 1, 1, 1, 1, 2, 1]
  const VERSION: byte := 1

  // ---------------------------------------------------------------------------------------------
  // What is left after an item, or a handle on some items, is dropped.

  /** The decoder's stack and the bytes it has not read. */
  datatype Position = Position(slots: seq<Slot>, data: seq<byte>)

  /** The position after the next `n` items of the top slot, skipped whole. */
  function Dropped(at: Position, n: nat): (r: Result<Position, EpeeError>)
    decreases n
  {
    if n == 0 || at.slots == [] then Ok(at)
    else
      match SkipItem(at.slots[|at.slots| - 1].kind, at.data, |Popped(at.slots)|)
      case Err(e) => Err(e)
      case Ok(rest) => Dropped(Position(Popped(at.slots), rest), n - 1)
  }

  /** A handle on part of the encoding: an entry, an iterator over fields, or an iterator over items. */
  datatype Handle = EpeeEntry(kind: Type, len: nat) | FieldIterator(len: nat) | ArrayIterator(kind: Type, len: nat) {
    /** The items the handle is to skip when it is dropped are of this kind. */
    function Kind(): TypeOrEntry {
      match this
      case EpeeEntry(kind, _) => Item(kind)
      case FieldIterator(_) => Entry
      case ArrayIterator(kind, _) => Item(kind)
    }
  }

  /** The handles alive, each borrowed from the one before it, over a position. */
  datatype Walk = Walk(handles: seq<Handle>, at: Position)

  function PoppedMany(slots: seq<Slot>, n: nat): seq<Slot>
    decreases n
  {
    if n == 0 then slots else PoppedMany(Popped(slots), n - 1)
  }

  /** The top of the stack holds what the last handle is to skip, below it what the one before is to skip, and so on. */
  ghost predicate Supported(handles: seq<Handle>, slots: seq<Slot>)
    decreases |handles|
  {
    if handles == [] then true
    else
      var last := handles[|handles| - 1];
      && (last.len > 0 ==> slots != [] && slots[|slots| - 1].kind == last.Kind() && slots[|slots| - 1].amount >= last.len)
      && Supported(handles[..|handles| - 1], PoppedMany(slots, last.len))
  }

  /** The position after all handles but the first `level` are dropped, the last first. */
  function Settled(handles: seq<Handle>, at: Position, level: nat): Result<Position, EpeeError>
    decreases |handles|
  {
    if |handles| <= level then Ok(at)
    else
      match Dropped(at, handles[|handles| - 1].len)
      case Err(e) => Err(e)
      case Ok(next) => Settled(handles[..|handles| - 1], next, level)
  }

  // ---------------------------------------------------------------------------------------------
  // What can be done with the last handle.

  datatype Op = Fields | Iterate | ReadValue | Next | Drop

  /** The walk after an operation, if it meets with no error. */
  function Act(w: Walk, op: Op): Option<Walk>
    requires w.handles != []
  {
    var lower, last := w.handles[..|w.handles| - 1], w.handles[|w.handles| - 1];
    match (last, op)
    case (EpeeEntry(Object, 1), Fields) =>
      if w.at.slots == [] then None
      else
        (match Stepped(w.at.slots, w.at.data)
         case Ok(Outcome(ObjectRead(fields), slots, data)) => Some(Walk(lower + [FieldIterator(fields)], Position(slots, data)))
         case _ => None)
    case (EpeeEntry(kind, len), Iterate) => Some(Walk(lower + [ArrayIterator(kind, len)], w.at))
    case (EpeeEntry(kind, 1), ReadValue) =>
      if kind == Object then None
      else
        (match Head(Item(kind), w.at.data)
         case Err(_) => None
         case Ok((_, rest)) => Some(Walk(lower, Position(Popped(w.at.slots), rest))))
    case (FieldIterator(len), Next) =>
      if len == 0 then Some(w)
      else if w.at.slots == [] then None
      else
        (match Stepped(w.at.slots, w.at.data)
         case Ok(Outcome(EntryRead(_, kind, n), slots, data)) =>
           Some(Walk(lower + [FieldIterator(len - 1), EpeeEntry(kind, n)], Position(slots, data)))
         case _ => None)
    case (ArrayIterator(kind, len), Next) =>
      if len == 0 then Some(w) else Some(Walk(lower + [ArrayIterator(kind, len - 1), EpeeEntry(kind, 1)], w.at))
    case (_, Drop) =>
      (match Dropped(w.at, last.len)
       case Err(_) => None
       case Ok(at) => Some(Walk(lower, at)))
    case _ => None
  }

  // ---------------------------------------------------------------------------------------------
  // Dropping.

  lemma {:induction false} DroppedInStages(at: Position, m: nat, n: nat)
    ensures Dropped(at, m + n) ==
            match Dropped(at, m)
            case Err(e) => Err(e)
            case Ok(next) => Dropped(next, n)
    decreases m
  {
    hide SkipItem, Popped;
    if m > 0 && at.slots != [] {
      match SkipItem(at.slots[|at.slots| - 1].kind, at.data, |Popped(at.slots)|) {
        case Err(_) =>
        case Ok(rest) => DroppedInStages(Position(Popped(at.slots), rest), m - 1, n);
      }
    } else if at.slots == [] {
      assert Dropped(at, m) == Ok(at) && Dropped(at, n) == Ok(at);
    }
  }

  lemma DroppedOnce(at: Position, n: nat)
    requires n > 0
    ensures at.slots == [] ==> Dropped(at, n) == Dropped(at, n - 1)
    ensures at.slots != [] ==>
              Dropped(at, n) == match SkipItem(at.slots[|at.slots| - 1].kind, at.data, |Popped(at.slots)|)
                                case Err(e) => Err(e)
                                case Ok(rest) => Dropped(Position(Popped(at.slots), rest), n - 1)
  {
  }

  lemma DroppedNone(at: Position)
    ensures Dropped(at, 0) == Ok(at)
  {
  }

  lemma {:induction false} DroppedStack(at: Position, n: nat)
    ensures Dropped(at, n).Ok? ==> Dropped(at, n).value.slots == PoppedMany(at.slots, n)
    decreases n
  {
    hide SkipItem;
    if at.slots == [] {
      PoppedEmpty(n);
    } else if n > 0 {
      match SkipItem(at.slots[|at.slots| - 1].kind, at.data, |Popped(at.slots)|) {
        case Err(_) =>
        case Ok(rest) => DroppedStack(Position(Popped(at.slots), rest), n - 1);
      }
    }
  }

  lemma {:induction false} PoppedEmpty(n: nat)
    ensures PoppedMany([], n) == []
  {
    if n > 0 {
      PoppedEmpty(n - 1);
    }
  }

  // Dropping a whole slot is what the recursive parser makes of it.
  lemma {:induction false} DroppedSlot(lower: seq<Slot>, kind: TypeOrEntry, n: nat, data: seq<byte>)
    requires n <= USIZE_MAX
    ensures Dropped(Position(lower + Pushed(kind, n), data), n) ==
            match SkipMany(kind, n, data, |lower|)
            case Err(e) => Err(e)
            case Ok(rest) => Ok(Position(lower, rest))
    ensures PoppedMany(lower + Pushed(kind, n), n) == lower
    decreases n
  {
    hide SkipItem, Popped;
    var slots := lower + Pushed(kind, n);
    if n > 0 {
      PushedAgain(lower, kind, n);
      match SkipItem(kind, data, |Popped(slots)|) {
        case Err(_) => DroppedSlot(lower, kind, n - 1, data);
        case Ok(rest) => DroppedSlot(lower, kind, n - 1, rest);
      }
    } else {
      assert slots == lower;
    }
  }

  lemma PushedAgain(lower: seq<Slot>, kind: TypeOrEntry, n: nat)
    requires 0 < n <= USIZE_MAX
    ensures Popped(lower + Pushed(kind, n)) == lower + Pushed(kind, n - 1)
    ensures |Popped(lower + Pushed(kind, n))| == if n > 1 then |lower| + 1 else |lower|
  {
    var slots := lower + Pushed(kind, n);
    assert slots[..|slots| - 1] == lower;
  }

  // Once a step has read the head of an item, dropping what is nested in it completes the item.
  lemma StepThenDrop(at: Position)
    requires at.slots != []
    ensures var step := Stepped(at.slots, at.data);
            step.Ok? ==>
              var nested := Nested(step.value.head).1;
              && Dropped(Position(step.value.slots, step.value.data), nested) == Dropped(at, 1)
              && PoppedMany(step.value.slots, nested) == Popped(at.slots)
  {
    hide Head;
    match Stepped(at.slots, at.data) {
      case Err(_) =>
      case Ok(step) =>
        var kind := at.slots[|at.slots| - 1].kind;
        var (nestedKind, n) := Nested(step.head);
        assert step.slots == Popped(at.slots) + Pushed(nestedKind, n);
        DroppedSlot(Popped(at.slots), nestedKind, n, step.data);
        match SkipItem(kind, at.data, |Popped(at.slots)|) {
          case Err(_) =>
          case Ok(rest) =>
            assert Dropped(at, 1) == Dropped(Position(Popped(at.slots), rest), 0);
        }
    }
  }

  // ---------------------------------------------------------------------------------------------
  // Every operation keeps every position the handles below the last one will be dropped from.

  lemma SettledLast(handles: seq<Handle>, h: Handle, at: Position, level: nat)
    requires level <= |handles|
    ensures Dropped(at, h.len).Ok? ==> Settled(handles + [h], at, level) == Settled(handles, Dropped(at, h.len).value, level)
    ensures Dropped(at, h.len).Err? ==> Settled(handles + [h], at, level) == Err(Dropped(at, h.len).error)
  {
    assert (handles + [h])[..|handles|] == handles;
  }

  lemma SupportedLast(handles: seq<Handle>, h: Handle, slots: seq<Slot>)
    ensures Supported(handles + [h], slots) <==>
            && (h.len > 0 ==> slots != [] && slots[|slots| - 1].kind == h.Kind() && slots[|slots| - 1].amount >= h.len)
            && Supported(handles, PoppedMany(slots, h.len))
  {
    assert (handles + [h])[..|handles|] == handles;
  }

  lemma TopAfterPop(slots: seq<Slot>, n: nat)
    requires n > 0 && slots != [] && slots[|slots| - 1].amount >= n
    ensures n > 1 ==> Popped(slots) != [] && Popped(slots)[|Popped(slots)| - 1].kind == slots[|slots| - 1].kind
                      && Popped(slots)[|Popped(slots)| - 1].amount >= n - 1
  {
  }

  lemma ActSupported(w: Walk, op: Op)
    requires w.handles != [] && Supported(w.handles, w.at.slots)
    ensures Act(w, op).Some? ==>
              var next := Act(w, op).value;
              Supported(next.handles, next.at.slots) && |next.handles| >= |w.handles| - 1
  {
    hide Supported, Settled, Dropped, Head, SkipItem, Popped, Stepped;
    var lower, last := w.handles[..|w.handles| - 1], w.handles[|w.handles| - 1];
    assert w.handles == lower + [last];
    SupportedLast(lower, last, w.at.slots);
    var after := Act(w, op);
    if after.Some? && op.Fields? {
      StepThenDrop(w.at);
      SteppedTop(w.at);
      SupportedLast(lower, FieldIterator(Nested(Stepped(w.at.slots, w.at.data).value.head).1), after.value.at.slots);
    } else if after.Some? && op.Iterate? {
      SupportedLast(lower, ArrayIterator(last.kind, last.len), w.at.slots);
    } else if after.Some? && op.ReadValue? {
      assert last.len == 1;
    } else if after.Some? && op.Next? && last.len > 0 {
      var less := if last.FieldIterator? then FieldIterator(last.len - 1) else ArrayIterator(last.kind, last.len - 1);
      var entry := after.value.handles[|after.value.handles| - 1];
      if last.FieldIterator? {
        StepThenDrop(w.at);
        SteppedTop(w.at);
      }
      TopAfterPop(w.at.slots, last.len);
      assert after.value.handles == (lower + [less]) + [entry];
      SupportedLast(lower, less, Popped(w.at.slots));
      SupportedLast(lower + [less], entry, after.value.at.slots);
    } else if after.Some? && op.Drop? {
      DroppedStack(w.at, last.len);
    }
  }

  // After a step, what was pushed is on top.
  lemma SteppedTop(at: Position)
    requires at.slots != []
    ensures var step := Stepped(at.slots, at.data);
            step.Ok? && Nested(step.value.head).1 > 0 ==>
              var (kind, n) := Nested(step.value.head);
              var slots := step.value.slots;
              slots != [] && slots[|slots| - 1] == Slot(kind, n)
  {
    hide Head;
  }

  lemma ActKeepsSettled(w: Walk, op: Op, level: nat)
    requires w.handles != [] && Supported(w.handles, w.at.slots) && level < |w.handles|
    ensures Act(w, op).Some? ==>
              var next := Act(w, op).value;
              Settled(next.handles, next.at, level) == Settled(w.handles, w.at, level)
  {
    hide Supported, Settled, Dropped, Head, SkipItem, Popped, Stepped;
    var lower, last := w.handles[..|w.handles| - 1], w.handles[|w.handles| - 1];
    assert w.handles == lower + [last];
    SettledLast(lower, last, w.at, level);
    SupportedLast(lower, last, w.at.slots);
    var after := Act(w, op);
    if after.Some? && op.Fields? {
      StepThenDrop(w.at);
      SettledLast(lower, after.value.handles[|after.value.handles| - 1], after.value.at, level);
    } else if after.Some? && op.Iterate? {
      SettledLast(lower, ArrayIterator(last.kind, last.len), w.at, level);
    } else if after.Some? && op.ReadValue? {
      ReadIsDrop(w.at, last.kind);
    } else if after.Some? && op.Next? && last.len > 0 {
      var less := if last.FieldIterator? then FieldIterator(last.len - 1) else ArrayIterator(last.kind, last.len - 1);
      var entry := after.value.handles[|after.value.handles| - 1];
      if last.FieldIterator? {
        StepThenDrop(w.at);
      }
      DroppedInStages(w.at, 1, last.len - 1);
      assert after.value.handles == (lower + [less]) + [entry];
      SettledLast(lower + [less], entry, after.value.at, level);
      if Dropped(w.at, 1).Ok? {
        SettledLast(lower, less, Dropped(w.at, 1).value, level);
      }
    }
  }

  lemma ReadIsDrop(at: Position, kind: Type)
    requires at.slots != [] && at.slots[|at.slots| - 1].kind == Item(kind) && kind != Object
    ensures match Head(Item(kind), at.data)
            case Err(_) => true
            case Ok((_, rest)) => Dropped(at, 1) == Ok(Position(Popped(at.slots), rest))
  {
  }

  // ---------------------------------------------------------------------------------------------
  // Whole walks.

  /** Some operations, none of which drops one of the first `level` handles or meets with an error. */
  function Run(w: Walk, ops: seq<Op>, level: nat): Option<Walk>
    decreases |ops|
  {
    if ops == [] then Some(w)
    else if |w.handles| <= level then None
    else
      match Act(w, ops[0])
      case None => None
      case Some(next) => Run(next, ops[1..], level)
  }

  // However a part of the encoding is walked, the position once its handles are dropped is where
  // skipping it whole would have led.
  lemma {:induction false} WalksSettle(w: Walk, ops: seq<Op>, level: nat)
    requires Supported(w.handles, w.at.slots) && level <= |w.handles|
    ensures Run(w, ops, level).Some? ==>
              var end := Run(w, ops, level).value;
              && Supported(end.handles, end.at.slots)
              && Settled(end.handles, end.at, level) == Settled(w.handles, w.at, level)
              && (|end.handles| == level ==> Settled(w.handles, w.at, level) == Ok(end.at))
    decreases |ops|
  {
    hide Act, Supported;
    if ops != [] && |w.handles| > level {
      ActSupported(w, ops[0]);
      ActKeepsSettled(w, ops[0], level);
      match Act(w, ops[0]) {
        case None =>
        case Some(next) => WalksSettle(next, ops[1..], level);
      }
    }
  }

  // The root: a walk which ends with every handle dropped has read exactly the object.
  lemma RootWalkReadsObject(data: seq<byte>, ops: seq<Op>)
    ensures var end := Run(Walk([EpeeEntry(Object, 1)], Position([Slot(Item(Object), 1)], data)), ops, 0);
            end.Some? && end.value.handles == [] ==>
              SkipItem(Item(Object), data, 0) == Ok(end.value.at.data) && end.value.at.slots == []
  {
    var root := Walk([EpeeEntry(Object, 1)], Position([Slot(Item(Object), 1)], data));
    assert Supported([], PoppedMany(root.at.slots, 1));
    assert root.handles[..0] == [];
    WalksSettle(root, ops, 0);
    match SkipItem(Item(Object), data, 0) {
      case Err(e) => assert Settled(root.handles, root.at, 0) == Err(e);
      case Ok(rest) =>
        assert Dropped(root.at, 1) == Dropped(Position([], rest), 0);
        assert Settled(root.handles, root.at, 0) == Settled([], Position([], rest), 0);
    }
  }

  // ---------------------------------------------------------------------------------------------
  // Values.

  /** `from_le_bytes`, for the signed types by two's complement. */
  function IntegerOf(kind: Type, bytes: seq<byte>): int {
    var n := LittleEndian(bytes);
    if bytes != [] && (kind.Int64? || kind.Int32? || kind.Int16? || kind.Int8?) && n >= Pow2(8 * |bytes| - 1)
    then n - Pow2(8 * |bytes|) else n
  }

  // ---------------------------------------------------------------------------------------------
  // The decoder.

  class Decoder {
    const cursor: Cursor
    const stack: Stack
    var error: Option<EpeeError>

    ghost predicate Valid()
      reads this, stack, stack.types, stack.amounts
    {
      stack.Valid()
    }

    ghost function At(): Position
      requires Valid()
      reads this, stack, stack.types, stack.amounts, cursor
    {
      Position(stack.Contents(), cursor.data)
    }

    constructor (encoding: Cursor)
      ensures Valid() && error == None && cursor == encoding
      ensures fresh(stack) && fresh(stack.types) && fresh(stack.amounts)
      ensures stack.Contents() == [Slot(Item(Object), 1)]
    {
      cursor := encoding;
      stack := new Stack.RootObject();
      error := None;
    }

    /** Obtains the entry for the encoded object, once. */
    method Entry() returns (res: Result<Handle, EpeeError>)
      requires Valid()
      ensures res == if |At().slots| != 1 || error.Some? then Err(EpeeReuse) else Ok(EpeeEntry(Object, 1))
    {
      if stack.depth != 1 || error.Some? {
        return Err(EpeeReuse);
      }
      res := Ok(EpeeEntry(Object, 1));
    }

    /** What entries and iterators do when they are dropped: skip what they have left. */
    method Skip(len: nat)
      requires Valid()
      modifies this`error, stack`depth, stack.types, stack.amounts, cursor
      ensures Valid()
      ensures old(error).Some? ==> error == old(error) && At() == old(At())
      ensures old(error).None? ==>
                match Dropped(old(At()), len)
                case Err(e) => error == Some(e)
                case Ok(at) => error == None && At() == at
    {
      hide SkipItem, Popped, Dropped;
      var left: nat := len;
      ghost var start := At();
      while error.None? && left != 0
        invariant Valid() && left <= len
        invariant old(error).Some? ==> error == old(error) && At() == start
        invariant old(error).None? && error.None? ==> Dropped(At(), left) == Dropped(start, len)
        invariant old(error).None? && error.Some? ==> Dropped(start, len) == Err(error.value)
        decreases left
      {
        DroppedOnce(At(), left);
        var stepped := Step(stack, cursor);
        error := if stepped.Err? then Some(stepped.error) else None;
        left := left - 1;
      }
      DroppedNone(At());
    }

    /** From an entry for an object to its fields. */
    method Fields(entry: Handle) returns (res: Result<Handle, EpeeError>)
      requires Valid() && entry.EpeeEntry?
      modifies stack`depth, stack.types, stack.amounts, cursor
      ensures Valid()
      ensures error.Some? ==> res == Err(error.value) && At() == old(At())
      ensures error.None? && (entry.kind != Object || entry.len != 1) ==> res == Err(TypeError) && At() == old(At())
      ensures error.None? && entry.kind == Object && entry.len == 1 ==>
                if old(At()).slots == [] then res == Err(InternalError)
                else
                  match Stepped(old(At()).slots, old(At()).data)
                  case Err(e) => res == Err(e)
                  case Ok(step) =>
                    && At() == Position(step.slots, step.data)
                    && res == if step.head.ObjectRead? then Ok(FieldIterator(step.head.fields)) else Err(InternalError)
    {
      if error.Some? {
        return Err(error.value);
      }
      if entry.kind != Object || entry.len != 1 {
        return Err(TypeError);
      }
      var step := SingleStep(stack, cursor);
      match step {
        case Err(e) => res := Err(e);
        case Ok(Some(ObjectRead(fields))) => res := Ok(FieldIterator(fields));
        case _ => res := Err(InternalError);
      }
    }

    /** The next field: its key, an entry for its value, and the iterator with one field fewer. */
    method NextField(it: Handle) returns (it': Handle, res: Option<Result<(seq<byte>, Handle), EpeeError>>)
      requires Valid() && it.FieldIterator?
      modifies stack`depth, stack.types, stack.amounts, cursor
      ensures Valid()
      ensures error.Some? ==> it' == it && res == Some(Err(error.value)) && At() == old(At())
      ensures error.None? && it.len == 0 ==> it' == it && res == None && At() == old(At())
      ensures error.None? && it.len > 0 ==>
                && it' == FieldIterator(it.len - 1)
                && if old(At()).slots == [] then res == Some(Err(InternalError))
                   else
                     match Stepped(old(At()).slots, old(At()).data)
                     case Err(e) => res == Some(Err(e))
                     case Ok(step) =>
                       && At() == Position(step.slots, step.data)
                       && res == Some(if step.head.EntryRead? then Ok((step.head.key, EpeeEntry(step.head.kind, step.head.len)))
                                      else Err(InternalError))
    {
      it' := it;
      if error.Some? {
        return it, Some(Err(error.value));
      }
      if it.len == 0 {
        return it, None;
      }
      it' := FieldIterator(it.len - 1);
      var step := SingleStep(stack, cursor);
      match step {
        case Err(e) => res := Some(Err(e));
        case Ok(Some(EntryRead(key, kind, len))) => res := Some(Ok((key, EpeeEntry(kind, len))));
        case _ => res := Some(Err(InternalError));
      }
    }

    /** Reads an entry for a single value whose type fixes its size, or for a string. */
    method ToValue(entry: Handle, kind: Type) returns (res: Result<seq<byte>, EpeeError>)
      requires Valid() && entry.EpeeEntry? && kind != Object
      modifies stack`depth, stack.types, stack.amounts, cursor
      ensures Valid()
      ensures entry.kind != kind || entry.len != 1 ==> res == Err(TypeError) && At() == old(At())
      ensures entry.kind == kind && entry.len == 1 && error.Some? ==> res == Err(error.value) && At() == old(At())
      ensures entry.kind == kind && entry.len == 1 && error.None? ==>
                match if kind == String then Str(old(cursor.data)) else Take(old(cursor.data), Size(kind))
                case Err(e) => res == Err(e)
                case Ok((value, rest)) => res == Ok(value) && At() == Position(Popped(old(At()).slots), rest)
    {
      hide Str, Take;
      if entry.kind != kind || entry.len != 1 {
        return Err(TypeError);
      }
      if error.Some? {
        return Err(error.value);
      }
      var _ := stack.Pop();
      if kind == String {
        res := cursor.ReadStr();
      } else {
        res := cursor.ReadBytes(Size(kind));
      }
    }

    /** `to_i64` and the like, for every type of integer. */
    method ToInteger(entry: Handle, kind: Type) returns (res: Result<int, EpeeError>)
      requires Valid() && entry.EpeeEntry? && kind != Object && kind != String && kind != Bool && kind != Double
      modifies stack`depth, stack.types, stack.amounts, cursor
      ensures Valid()
      ensures entry.kind != kind || entry.len != 1 ==> res == Err(TypeError) && At() == old(At())
      ensures entry.kind == kind && entry.len == 1 && error.Some? ==> res == Err(error.value) && At() == old(At())
      ensures entry.kind == kind && entry.len == 1 && error.None? ==>
                match Take(old(cursor.data), Size(kind))
                case Err(e) => res == Err(e)
                case Ok((value, rest)) => res == Ok(IntegerOf(kind, value)) && At() == Position(Popped(old(At()).slots), rest)
    {
      hide Take, IntegerOf, Size;
      var value := ToValue(entry, kind);
      match value {
        case Err(e) => res := Err(e);
        case Ok(bytes) => res := Ok(IntegerOf(kind, bytes));
      }
    }

    /** Any byte but zero is true. */
    method ToBool(entry: Handle) returns (res: Result<bool, EpeeError>)
      requires Valid() && entry.EpeeEntry?
      modifies stack`depth, stack.types, stack.amounts, cursor
      ensures Valid()
      ensures entry.kind != Bool || entry.len != 1 ==> res == Err(TypeError) && At() == old(At())
      ensures entry.kind == Bool && entry.len == 1 && error.Some? ==> res == Err(error.value) && At() == old(At())
      ensures entry.kind == Bool && entry.len == 1 && error.None? ==>
                if old(cursor.data) == [] then res == Err(Short(1))
                else
                  && res == Ok(old(cursor.data)[0] != 0)
                  && At() == Position(Popped(old(At()).slots), old(cursor.data)[1..])
    {
      var value := ToValue(entry, Bool);
      match value {
        case Err(e) => res := Err(e);
        case Ok(bytes) => res := Ok(bytes[0] != 0);
      }
    }

    /** A string which must be of this length. */
    method ToFixedLenStr(entry: Handle, len: nat) returns (res: Result<seq<byte>, EpeeError>)
      requires Valid() && entry.EpeeEntry?
      modifies stack`depth, stack.types, stack.amounts, cursor
      ensures Valid()
      ensures entry.kind != String || entry.len != 1 ==> res == Err(TypeError) && At() == old(At())
      ensures entry.kind == String && entry.len == 1 && error.Some? ==> res == Err(error.value) && At() == old(At())
      ensures entry.kind == String && entry.len == 1 && error.None? ==>
                match Str(old(cursor.data))
                case Err(e) => res == Err(e)
                case Ok((value, rest)) =>
                  res == (if |value| == len then Ok(value) else Err(TypeError)) && At() == Position(Popped(old(At()).slots), rest)
    {
      hide Str;
      res := ToValue(entry, String);
      if res.Ok? && |res.value| != len {
        res := Err(TypeError);
      }
    }

    /** One operation on the last of the handles alive. */
    method Perform(handles: seq<Handle>, op: Op) returns (res: Option<seq<Handle>>)
      requires Valid() && error == None && handles != []
      modifies this`error, stack`depth, stack.types, stack.amounts, cursor
      ensures Valid()
      ensures var next := Act(Walk(handles, old(At())), op);
              && (res.Some? <==> next.Some?)
              && (next.Some? ==> error == None && res == Some(next.value.handles) && At() == next.value.at)
    {
      hide Dropped, Stepped, Popped;
      var lower, last := handles[..|handles| - 1], handles[|handles| - 1];
      res := None;
      if op.Fields? && last.EpeeEntry? {
        var fields := Fields(last);
        if fields.Ok? {
          res := Some(lower + [fields.value]);
        }
      } else if op.Iterate? && last.EpeeEntry? {
        res := Some(lower + [ArrayIterator(last.kind, last.len)]);
      } else if op.ReadValue? && last.EpeeEntry? && last.kind != Object {
        var value := ToValue(last, last.kind);
        if value.Ok? {
          res := Some(lower);
        }
      } else if op.Next? && last.FieldIterator? {
        var it, item := NextField(last);
        if item.None? {
          res := Some(handles);
        } else if item.value.Ok? {
          res := Some(lower + [it, item.value.value.1]);
        }
      } else if op.Next? && last.ArrayIterator? {
        res := Some(if last.len == 0 then handles
                    else lower + [ArrayIterator(last.kind, last.len - 1), EpeeEntry(last.kind, 1)]);
      } else if op.Drop? {
        Skip(last.len);
        if error.None? {
          res := Some(lower);
        }
      }
    }
  }

  method New(encoding: seq<byte>) returns (res: Result<Decoder, EpeeError>)
    ensures if |encoding| < 8 then res == Err(Short(8))
            else if encoding[..8] != HEADER then res == Err(InvalidHeader)
            else if |encoding| == 8 then res == Err(InvalidVersion(None))
            else if encoding[8] != VERSION then res == Err(InvalidVersion(Some(encoding[8])))
            else
              && res.Ok? && fresh(res.value) && res.value.Valid() && res.value.error == None
              && res.value.At() == Position([Slot(Item(Object), 1)], encoding[9..])
  {
    var cursor := new Cursor(encoding);
    var header := cursor.ReadBytes(8);
    if header.Err? {
      return Err(header.error);
    }
    if header.value != HEADER {
      return Err(InvalidHeader);
    }
    var version := cursor.ReadByte();
    if version.Err? {
      return Err(InvalidVersion(None));
    }
    if version.value != VERSION {
      return Err(InvalidVersion(Some(version.value)));
    }
    var decoder := new Decoder(cursor);
    res := Ok(decoder);
  }
}
