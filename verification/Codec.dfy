/**
Readers and writers, in pairs. The repository's `read_vec` and the like take closures; here a reader is
a function from the bytes ahead to a value and the bytes after it.
 */
module Codec {
  import opened Wrappers
  import opened Vectors
  import VarInt

  datatype Codec<!T> = Codec(read: seq<byte> -> Option<(T, seq<byte>)>, write: T -> seq<byte>, ok: T -> bool)

  // Exactly what is written for an acceptable value is read, and it is read as that value.
  ghost predicate Exact<T(!new)>(c: Codec<T>) {
    forall data, t, rest :: c.read(data) == Some((t, rest)) <==> data == c.write(t) + rest && c.ok(t)
  }

  lemma ReadIsWritten<T(!new)>(c: Codec<T>, data: seq<byte>)
    requires Exact(c) && c.read(data).Some?
    ensures var (t, rest) := c.read(data).value; data == c.write(t) + rest && c.ok(t)
  {
    var (t, rest) := c.read(data).value;
    assert c.read(data) == Some((t, rest));
  }

  lemma WrittenIsRead<T(!new)>(c: Codec<T>, t: T, rest: seq<byte>)
    requires Exact(c) && c.ok(t)
    ensures c.read(c.write(t) + rest) == Some((t, rest))
  {
  }

  // What follows a value does not change how it is read.
  lemma ReadGoesOn<T(!new)>(c: Codec<T>, data: seq<byte>, more: seq<byte>)
    requires Exact(c) && c.read(data).Some?
    ensures c.read(data + more) == Some((c.read(data).value.0, c.read(data).value.1 + more))
  {
    ReadIsWritten(c, data);
    var (t, rest) := c.read(data).value;
    assert data + more == c.write(t) + (rest + more);
    WrittenIsRead(c, t, rest + more);
  }

  // ---------------------------------------------------------------------------------------------
  // Single values.

  function Bytes(n: nat): Codec<seq<byte>> {
    Codec((data: seq<byte>) => if |data| < n then None else Some((data[..n], data[n..])),
          (t: seq<byte>) => t,
          (t: seq<byte>) => |t| == n)
  }

  lemma BytesExact(n: nat)
    ensures Exact(Bytes(n))
  {
    var c := Bytes(n);
    forall data, t, rest
      ensures c.read(data) == Some((t, rest)) <==> data == c.write(t) + rest && c.ok(t)
    {
      if data == t + rest && |t| == n {
        assert data[..n] == t && data[n..] == rest;
      }
      if |data| >= n {
        assert data == data[..n] + data[n..];
      }
    }
  }

  function Byte(): Codec<byte> {
    Codec((data: seq<byte>) => if data == [] then None else Some((data[0], data[1..])), (t: byte) => [t], (t: byte) => true)
  }

  lemma ByteExact()
    ensures Exact(Byte())
  {
    var c := Byte();
    forall data, t, rest
      ensures c.read(data) == Some((t, rest)) <==> data == c.write(t) + rest && c.ok(t)
    {
      if data == [t] + rest {
        assert data[1..] == rest;
      }
      if data != [] {
        assert data == [data[0]] + data[1..];
      }
    }
  }

  /** An integer of a width. */
  function Num(width: nat): Codec<nat>
    requires width > 0
  {
    Codec((data: seq<byte>) => VarInt.Decoded(data, 0, width).ToOption(),
          (v: nat) => VarInt.Encoding(v),
          (v: nat) => v < Pow2(width))
  }

  lemma NumExact(width: nat)
    requires width > 0
    ensures Exact(Num(width))
  {
    var c := Num(width);
    forall data, v: nat, rest
      ensures c.read(data) == Some((v, rest)) <==> data == c.write(v) + rest && c.ok(v)
    {
      VarInt.DecodesIffEncoded(data, 0, width, v, rest);
    }
  }

  // ---------------------------------------------------------------------------------------------
  // Combinations.

  /** Only some of the values. */
  function Guard<T>(c: Codec<T>, accept: T -> bool): Codec<T> {
    Codec((data: seq<byte>) =>
            (match c.read(data)
             case None => None
             case Some((t, rest)) => if accept(t) then Some((t, rest)) else None),
          c.write,
          (t: T) => c.ok(t) && accept(t))
  }

  lemma GuardExact<T(!new)>(c: Codec<T>, accept: T -> bool)
    requires Exact(c)
    ensures Exact(Guard(c, accept))
  {
  }

  /** A value, and another one whose codec may depend on the first. */
  function Then<S, T>(first: Codec<S>, second: S -> Codec<T>): Codec<(S, T)> {
    Codec((data: seq<byte>) =>
            (match first.read(data)
             case None => None
             case Some((s, rest)) =>
               match second(s).read(rest)
               case None => None
               case Some((t, after)) => Some(((s, t), after))),
          (v: (S, T)) => first.write(v.0) + second(v.0).write(v.1),
          (v: (S, T)) => first.ok(v.0) && second(v.0).ok(v.1))
  }

  lemma ThenExact<S(!new), T(!new)>(first: Codec<S>, second: S -> Codec<T>)
    requires Exact(first)
    requires forall s :: first.ok(s) ==> Exact(second(s))
    ensures Exact(Then(first, second))
  {
    hide Exact;
    var c := Then(first, second);
    forall data, v, rest
      ensures c.read(data) == Some((v, rest)) <==> data == c.write(v) + rest && c.ok(v)
    {
      var (s, t) := v;
      if c.read(data) == Some((v, rest)) {
        ReadIsWritten(first, data);
        ReadIsWritten(second(s), first.read(data).value.1);
        assert first.write(s) + (second(s).write(t) + rest) == c.write(v) + rest;
      }
      if data == c.write(v) + rest && c.ok(v) {
        assert data == first.write(s) + (second(s).write(t) + rest);
        WrittenIsRead(first, s, second(s).write(t) + rest);
        WrittenIsRead(second(s), t, rest);
      }
    }
    ExactIs(c);
  }

  lemma ExactIs<T(!new)>(c: Codec<T>)
    requires forall data, t, rest :: c.read(data) == Some((t, rest)) <==> data == c.write(t) + rest && c.ok(t)
    ensures Exact(c)
  {
  }

  function Both<S, T>(first: Codec<S>, second: Codec<T>): Codec<(S, T)> {
    Then(first, (s: S) => second)
  }

  lemma BothExact<S(!new), T(!new)>(first: Codec<S>, second: Codec<T>)
    requires Exact(first) && Exact(second)
    ensures Exact(Both(first, second))
  {
    ThenExact(first, (s: S) => second);
  }

  /** A value under another representation. */
  function Iso<S, T(==)>(c: Codec<S>, into: S -> T, from: T -> S): Codec<T> {
    Codec((data: seq<byte>) =>
            (match c.read(data)
             case None => None
             case Some((s, rest)) => Some((into(s), rest))),
          (t: T) => c.write(from(t)),
          (t: T) => c.ok(from(t)) && into(from(t)) == t)
  }

  lemma IsoExact<S(!new), T(!new)>(c: Codec<S>, into: S -> T, from: T -> S)
    requires Exact(c)
    requires forall s :: c.ok(s) ==> from(into(s)) == s
    ensures Exact(Iso(c, into, from))
  {
    hide Exact;
    var i := Iso(c, into, from);
    forall data, t, rest
      ensures i.read(data) == Some((t, rest)) <==> data == i.write(t) + rest && i.ok(t)
    {
      if i.read(data) == Some((t, rest)) {
        ReadIsWritten(c, data);
      }
      if data == i.write(t) + rest && i.ok(t) {
        WrittenIsRead(c, from(t), rest);
      }
    }
    ExactIs(i);
  }

  function ReadMany<T>(c: Codec<T>, n: nat, data: seq<byte>): Option<(seq<T>, seq<byte>)>
    decreases n
  {
    if n == 0 then Some(([], data))
    else
      match c.read(data)
      case None => None
      case Some((t, rest)) =>
        match ReadMany(c, n - 1, rest)
        case None => None
        case Some((more, after)) => Some(([t] + more, after))
  }

  function WriteMany<T>(c: Codec<T>, values: seq<T>): seq<byte> {
    if values == [] then [] else c.write(values[0]) + WriteMany(c, values[1..])
  }

  predicate AllOk<T>(c: Codec<T>, values: seq<T>) {
    forall i :: 0 <= i < |values| ==> c.ok(values[i])
  }

  /** `read_raw_vec` and `write_raw_vec` */
  function Many<T>(c: Codec<T>, n: nat): Codec<seq<T>> {
    Codec((data: seq<byte>) => ReadMany(c, n, data),
          (values: seq<T>) => WriteMany(c, values),
          (values: seq<T>) => |values| == n && AllOk(c, values))
  }

  lemma {:induction false} ReadManyExact<T(!new)>(c: Codec<T>, n: nat, data: seq<byte>, values: seq<T>, rest: seq<byte>)
    requires Exact(c)
    ensures ReadMany(c, n, data) == Some((values, rest)) <==>
            data == WriteMany(c, values) + rest && |values| == n && AllOk(c, values)
    decreases n
  {
    hide Exact;
    if n == 0 {
      if |values| == 0 { assert [] + rest == rest; }
    } else {
      if ReadMany(c, n, data) == Some((values, rest)) {
        ReadIsWritten(c, data);
        var (t, after) := c.read(data).value;
        assert values[1..] == ReadMany(c, n - 1, after).value.0;
        ReadManyExact(c, n - 1, after, values[1..], rest);
        assert c.write(t) + (WriteMany(c, values[1..]) + rest) == WriteMany(c, values) + rest;
        assert values == [t] + values[1..];
      }
      if data == WriteMany(c, values) + rest && |values| == n && AllOk(c, values) {
        var after := WriteMany(c, values[1..]) + rest;
        assert data == c.write(values[0]) + after;
        WrittenIsRead(c, values[0], after);
        ReadManyExact(c, n - 1, after, values[1..], rest);
        assert values == [values[0]] + values[1..];
      }
    }
  }

  lemma ManyExact<T(!new)>(c: Codec<T>, n: nat)
    requires Exact(c)
    ensures Exact(Many(c, n))
  {
    hide Exact;
    var m := Many(c, n);
    forall data, values, rest
      ensures m.read(data) == Some((values, rest)) <==> data == m.write(values) + rest && m.ok(values)
    {
      ReadManyExact(c, n, data, values, rest);
    }
    ExactIs(m);
  }

  /** `read_vec` and `write_vec`: the length goes first, and may be bounded. */
  function Vec<T(==)>(c: Codec<T>, bound: Option<nat>): Codec<seq<T>> {
    Iso(Then(Guard(Num(64), (n: nat) => bound.None? || n <= bound.value), (n: nat) => Many(c, n)),
        (v: (nat, seq<T>)) => v.1, (values: seq<T>) => (|values|, values))
  }

  lemma VecExact<T(!new)>(c: Codec<T>, bound: Option<nat>)
    requires Exact(c)
    ensures Exact(Vec(c, bound))
  {
    hide Exact;
    NumExact(64);
    GuardExact(Num(64), (n: nat) => bound.None? || n <= bound.value);
    forall n: nat
      ensures Exact(Many(c, n))
    {
      ManyExact(c, n);
    }
    ThenExact(Guard(Num(64), (n: nat) => bound.None? || n <= bound.value), (n: nat) => Many(c, n));
    IsoExact(Then(Guard(Num(64), (n: nat) => bound.None? || n <= bound.value), (n: nat) => Many(c, n)),
             (v: (nat, seq<T>)) => v.1, (values: seq<T>) => (|values|, values));
  }

  lemma VecIs<T(!new)>(c: Codec<T>, bound: Option<nat>, values: seq<T>)
    ensures Vec(c, bound).write(values) == VarInt.Encoding(|values|) + WriteMany(c, values)
    ensures Vec(c, bound).ok(values) <==>
            |values| < Pow2(64) && (bound.None? || |values| <= bound.value) && AllOk(c, values)
  {
    hide VarInt.Encoding, VarInt.Decoded, Pow2, WriteMany, AllOk, ReadMany;
  }

  /** Nothing, as a zero byte, or a value, if no value starts with one. */
  function Optional<T>(c: Codec<T>): Codec<Option<T>> {
    Codec((data: seq<byte>) =>
            if data != [] && data[0] == 0 then Some((None, data[1..]))
            else
              (match c.read(data)
               case None => None
               case Some((t, rest)) => Some((Some(t), rest))),
          (v: Option<T>) => if v.Some? then c.write(v.value) else [0],
          (v: Option<T>) => v.Some? ==> c.ok(v.value))
  }

  lemma OptionalExact<T(!new)>(c: Codec<T>)
    requires Exact(c)
    requires forall t :: c.ok(t) ==> c.write(t) != [] && c.write(t)[0] != 0
    ensures Exact(Optional(c))
  {
    hide Exact;
    var o := Optional(c);
    forall data, v, rest
      ensures o.read(data) == Some((v, rest)) <==> data == o.write(v) + rest && o.ok(v)
    {
      if o.read(data) == Some((v, rest)) {
        if data != [] && data[0] == 0 {
          assert data == [0] + data[1..];
        } else {
          ReadIsWritten(c, data);
        }
      }
      if data == o.write(v) + rest && o.ok(v) {
        if v.Some? {
          WrittenIsRead(c, v.value, rest);
        } else {
          assert data[1..] == rest;
        }
      }
    }
    ExactIs(o);
  }

  // ---------------------------------------------------------------------------------------------
  // What the combinations write and accept.

  lemma GuardIs<T>(c: Codec<T>, accept: T -> bool, t: T)
    ensures Guard(c, accept).write(t) == c.write(t)
    ensures Guard(c, accept).ok(t) <==> c.ok(t) && accept(t)
  {
  }

  lemma ThenIs<S, T>(first: Codec<S>, second: S -> Codec<T>, v: (S, T))
    ensures Then(first, second).write(v) == first.write(v.0) + second(v.0).write(v.1)
    ensures Then(first, second).ok(v) <==> first.ok(v.0) && second(v.0).ok(v.1)
  {
  }

  lemma BothIs<S, T>(first: Codec<S>, second: Codec<T>, v: (S, T))
    ensures Both(first, second).write(v) == first.write(v.0) + second.write(v.1)
    ensures Both(first, second).ok(v) <==> first.ok(v.0) && second.ok(v.1)
  {
  }

  lemma IsoIs<S, T>(c: Codec<S>, into: S -> T, from: T -> S, t: T)
    ensures Iso(c, into, from).write(t) == c.write(from(t))
    ensures Iso(c, into, from).ok(t) <==> c.ok(from(t)) && into(from(t)) == t
  {
  }
}
