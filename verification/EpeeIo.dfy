/** epee/src/io.rs: reading from a slice of bytes. */
module EpeeIo {
  import opened Wrappers
  import opened PowersOfTwo
  import opened Vectors
  import opened EpeeStack

  /** What was read, and the bytes after it. */
  type Reading<T> = Result<(T, seq<byte>), EpeeError>

  /** The first so many bytes. */
  function Take(data: seq<byte>, n: nat): (r: Reading<seq<byte>>)
    ensures r.Ok? ==> data == r.value.0 + r.value.1 && |r.value.0| == n
    ensures r.Ok? <==> n <= |data|
  {
    if |data| < n then Err(Short(n)) else Ok((data[..n], data[n..]))
  }

  /** The length of a number, from the two lowest bits of its first byte. */
  function VarIntLength(first: byte): (n: nat)
    ensures n == 1 || n == 2 || n == 4 || n == 8
  {
    if first % 4 == 0 then 1 else if first % 4 == 1 then 2 else if first % 4 == 2 then 4 else 8
  }

  /** A number in little-endian bytes, above the two bits which hold its length. */
  function VarInt(data: seq<byte>): (r: Reading<nat>)
    ensures r.Ok? ==> |r.value.1| < |data| && r.value.0 < USIZE_MAX
  {
    if data == [] || |data| < VarIntLength(data[0]) then Err(Short(1))
    else
      var n := VarIntLength(data[0]);
      VarIntBound(data[..n]);
      Ok((LittleEndian(data[..n]) / 4, data[n..]))
  }

  lemma VarIntBound(bytes: seq<byte>)
    requires |bytes| <= 8
    ensures LittleEndian(bytes) / 4 < USIZE_MAX
  {
    LittleEndianBound(bytes);
    Pow2Monotone(8 * |bytes|, 64);
    Pow2Of64();
  }

  lemma Pow2Of64()
    ensures Pow2(64) == 0x1_0000_0000_0000_0000
  {
    hide Pow2;
    SmallPowers();
    Pow2Add(8, 8);
    Pow2Add(16, 16);
    Pow2Add(32, 32);
  }

  function Str(data: seq<byte>): (r: Reading<seq<byte>>)
    ensures r.Ok? ==> |r.value.1| < |data|
  {
    match VarInt(data)
    case Err(e) => Err(e)
    case Ok((len, rest)) => Take(rest, len)
  }

  class Cursor {
    var data: seq<byte>

    constructor (encoding: seq<byte>)
      ensures data == encoding
    {
      data := encoding;
    }

    /** Where the cursor is after a reading. */
    ghost predicate Moved<T>(reading: Reading<T>, res: Result<T, EpeeError>)
      reads this
    {
      match reading
      case Err(e) => res == Err(e)
      case Ok((value, rest)) => res == Ok(value) && data == rest
    }

    method ReadBytes(n: nat) returns (res: Result<seq<byte>, EpeeError>)
      modifies this
      ensures Moved(Take(old(data), n), res)
      ensures res.Err? ==> data == old(data)
    {
      if |data| < n {
        return Err(Short(n));
      }
      res := Ok(data[..n]);
      data := data[n..];
    }

    method ReadByte() returns (res: Result<byte, EpeeError>)
      modifies this
      ensures old(data) == [] ==> res == Err(Short(1)) && data == []
      ensures old(data) != [] ==> res == Ok(old(data)[0]) && data == old(data)[1..]
    {
      var read := ReadBytes(1);
      match read {
        case Err(e) => res := Err(e);
        case Ok(bytes) => res := Ok(bytes[0]);
      }
    }

    method Advance(n: nat) returns (res: Result<(), EpeeError>)
      modifies this
      ensures match Take(old(data), n)
              case Err(e) => res == Err(e)
              case Ok((_, rest)) => res == Ok(()) && data == rest
    {
      var read := ReadBytes(n);
      match read {
        case Err(e) => res := Err(e);
        case Ok(_) => res := Ok(());
      }
    }

    method ReadVarInt() returns (res: Result<nat, EpeeError>)
      modifies this
      ensures Moved(VarInt(old(data)), res)
    {
      hide Pow2, LittleEndian;
      ghost var all := data;
      var start := ReadByte();
      if start.Err? {
        return Err(start.error);
      }
      var len := VarIntLength(start.value);
      var vi := start.value;
      LittleEndianOne(all);
      for i := 1 to len
        invariant i <= |all| && data == all[i..]
        invariant vi == LittleEndian(all[..i])
      {
        var next := ReadByte();
        if next.Err? {
          return Err(next.error);
        }
        LittleEndianSnoc(all, i);
        vi := vi + Pow2(8 * i) * next.value;
      }
      res := Ok(vi / 4);
    }

    method ReadStr() returns (res: Result<seq<byte>, EpeeError>)
      modifies this
      ensures Moved(Str(old(data)), res)
    {
      var len := ReadVarInt();
      if len.Err? {
        return Err(len.error);
      }
      res := ReadBytes(len.value);
    }
  }

  lemma LittleEndianOne(data: seq<byte>)
    requires data != []
    ensures LittleEndian(data[..1]) == data[0]
  {
    assert data[..1][1..] == [];
  }
}
