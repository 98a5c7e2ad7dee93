/** io/src/lib.rs and io/src/varint.rs: reading a stream, and Monero's encoding of integers. */
module MoneroIo {
  import opened Wrappers

  datatype IoError = Eof | Other

  /** A stream of bytes, advanced by reading. */
  class Reader {
    var data: seq<byte>

    constructor (bytes: seq<byte>)
      ensures data == bytes
    {
      data := bytes;
    }

    method ReadBytes(n: nat) returns (res: Result<seq<byte>, IoError>)
      modifies this
      ensures res.Ok? <==> n <= |old(data)|
      ensures res.Ok? ==> |res.value| == n && old(data) == res.value + data
      ensures res.Err? ==> res.error == Eof
    {
      if |data| < n {
        data := [];
        return Err(Eof);
      }
      res := Ok(data[..n]);
      data := data[n..];
    }

    method ReadByte() returns (res: Result<byte, IoError>)
      modifies this
      ensures res.Ok? <==> old(data) != []
      ensures res.Ok? ==> res.value == old(data)[0] && data == old(data)[1..]
      ensures res.Err? ==> res.error == Eof
    {
      var bytes := ReadBytes(1);
      match bytes {
        case Err(e) => res := Err(e);
        case Ok(value) => res := Ok(value[0]);
      }
    }
  }
}

module VarInt {
  import opened Wrappers
  import opened PowersOfTwo
  import opened Vectors
  import opened MoneroIo

  /** Seven bits in a byte, the least significant first; the top bit says that more follow. */
  function Encoding(v: nat): (bytes: seq<byte>)
    ensures bytes != []
  {
    if v < 128 then [v] else [128 + v % 128] + Encoding(v / 128)
  }

  /** What reading makes of some bytes, `bits` bits of the integer having been read. */
  function Decoded(data: seq<byte>, bits: nat, width: nat): (r: Result<(nat, seq<byte>), IoError>)
    requires bits < width
    decreases |data|
  {
    if data == [] then Err(Eof)
    else if bits != 0 && data[0] == 0 then Err(Other)
    else if bits + 7 >= width && data[0] >= Pow2(width - bits) then Err(Other)
    else if data[0] < 128 then Ok((data[0], data[1..]))
    else
      (Continues(bits, width);
       match Decoded(data[1..], bits + 7, width)
       case Err(e) => Err(e)
       case Ok((v, rest)) => Ok((data[0] % 128 + 128 * v, rest)))
  }

  // The last byte of an integer cannot say that more follow.
  lemma Continues(bits: nat, width: nat)
    requires bits < width
    ensures bits + 7 >= width ==> Pow2(width - bits) <= 128
    ensures bits + 7 < width ==> Pow2(width - bits) == 128 * Pow2(width - bits - 7)
  {
    hide Pow2;
    SmallPowers();
    if bits + 7 >= width {
      Pow2Monotone(width - bits, 7);
    } else {
      Pow2Add(width - bits - 7, 7);
    }
  }

  // The four cases of a step.
  lemma DecodedStep(data: seq<byte>, bits: nat, width: nat)
    requires bits < width && data != []
    ensures var stop := bits + 7 >= width && data[0] >= Pow2(width - bits);
            && (bits != 0 && data[0] == 0 ==> Decoded(data, bits, width).Err?)
            && (stop ==> Decoded(data, bits, width).Err?)
            && (!(bits != 0 && data[0] == 0) && !stop && data[0] < 128 ==>
                  Decoded(data, bits, width) == Ok((data[0], data[1..])))
            && (!(bits != 0 && data[0] == 0) && !stop && data[0] >= 128 ==>
                  bits + 7 < width &&
                  Decoded(data, bits, width) == match Decoded(data[1..], bits + 7, width)
                                                case Err(e) => Err(e)
                                                case Ok((v, rest)) => Ok((data[0] % 128 + 128 * v, rest)))
  {
    hide Pow2;
    Continues(bits, width);
  }

  // An encoding whose first byte continues is that of a larger number.
  lemma Continued(data: seq<byte>, v: nat, rest: seq<byte>)
    requires data != [] && data[0] >= 128
    ensures data == Encoding(v) + rest <==>
            v >= 128 && data[0] % 128 == v % 128 && data[1..] == Encoding(v / 128) + rest
  {
    FirstByte(v, rest);
    EncodingStep(v);
    hide Encoding;
    if v >= 128 && data[0] % 128 == v % 128 && data[1..] == Encoding(v / 128) + rest {
      assert data == [data[0]] + data[1..];
      assert [128 + v % 128] + (Encoding(v / 128) + rest) == [128 + v % 128] + Encoding(v / 128) + rest;
    }
  }

  lemma Final(data: seq<byte>, v: nat, rest: seq<byte>)
    requires data != [] && data[0] < 128
    ensures data == Encoding(v) + rest <==> v == data[0] && data[1..] == rest
  {
    FirstByte(v, rest);
    EncodingStep(v);
    hide Encoding;
    assert data == [data[0]] + data[1..];
  }

  // Exactly the shortest encodings of integers of the width are read.
  lemma {:induction false} DecodesIffEncoded(data: seq<byte>, bits: nat, width: nat, v: nat, rest: seq<byte>)
    requires bits < width
    ensures Decoded(data, bits, width) == Ok((v, rest)) <==>
            data == Encoding(v) + rest && v < Pow2(width - bits) && (bits > 0 ==> v > 0)
    decreases |data|
  {
    if data == [] {
      return;
    }
    hide Pow2, Encoding, Decoded;
    Continues(bits, width);
    DecodedStep(data, bits, width);
    PositivePower(width - bits - 7);
    if data[0] < 128 {
      Final(data, v, rest);
    } else {
      Continued(data, v, rest);
      if bits + 7 < width {
        DecodesIffEncoded(data[1..], bits + 7, width, v / 128, rest);
        ScaledBound(v, Pow2(width - bits - 7));
        DecodedTail(data, bits, width, v, rest);
      }
    }
  }

  lemma DecodedTail(data: seq<byte>, bits: nat, width: nat, v: nat, rest: seq<byte>)
    requires data != [] && data[0] >= 128 && bits + 7 < width
    ensures Decoded(data, bits, width) == Ok((v, rest)) <==>
            data[0] % 128 == v % 128 && Decoded(data[1..], bits + 7, width) == Ok((v / 128, rest))
  {
    hide Pow2;
    if Decoded(data[1..], bits + 7, width).Ok? {
      var more := Decoded(data[1..], bits + 7, width).value.0;
      LowSeven(data[0] % 128, more);
    }
  }

  lemma LowSeven(low: nat, more: nat)
    requires low < 128
    ensures (low + 128 * more) % 128 == low && (low + 128 * more) / 128 == more
  {
  }

  lemma PositivePower(n: int)
    ensures n >= 0 ==> Pow2(n) >= 1
  {
  }

  lemma EncodingStep(v: nat)
    ensures Encoding(v) == if v < 128 then [v] else [128 + v % 128] + Encoding(v / 128)
  {
  }

  lemma FirstByte(v: nat, rest: seq<byte>)
    ensures (Encoding(v) + rest)[0] == if v < 128 then v else 128 + v % 128
    ensures v < 128 ==> (Encoding(v) + rest)[1..] == rest
    ensures v >= 128 ==> (Encoding(v) + rest)[1..] == Encoding(v / 128) + rest
  {
    EncodingStep(v);
    hide Encoding;
  }

  lemma ScaledBound(v: nat, p: nat)
    ensures v < 128 * p <==> v / 128 < p
  {
  }

  method Read(r: Reader, width: nat) returns (res: Result<nat, IoError>)
    requires width >= 7
    modifies r
    ensures forall v, rest :: res == Ok(v) && r.data == rest <==> res.Ok? && Decoded(old(r.data), 0, width) == Ok((v, rest))
    ensures res.Ok? <==> Decoded(old(r.data), 0, width).Ok?
  {
    hide Pow2;
    var bits := 0;
    var value: nat := 0;
    ghost var all := r.data;
    NothingShifted(Decoded(all, 0, width));
    var more := true;
    while more
      invariant more ==> bits < width
      invariant more ==> Decoded(all, 0, width) == Shifted(value, bits, Decoded(r.data, bits, width))
      invariant !more ==> Decoded(all, 0, width) == Ok((value, r.data))
      decreases more, |r.data|
    {
      ghost var data := r.data;
      var b := r.ReadByte();
      if b.Err? {
        return Err(Eof);
      }
      if bits != 0 && b.value == 0 {
        return Err(Other);
      }
      if bits + 7 >= width && b.value >= Pow2(width - bits) {
        return Err(Other);
      }
      Continues(bits, width);
      ShiftedMore(value, bits, b.value, if b.value >= 128 then Decoded(r.data, bits + 7, width) else Ok((0, r.data)));
      value := value + b.value % 128 * Pow2(bits);
      bits := bits + 7;
      more := b.value >= 128;
    }
    res := Ok(value);
  }

  /** The reading of what follows `bits` bits which were read as `value`. */
  function Shifted(value: nat, bits: nat, more: Result<(nat, seq<byte>), IoError>): Result<(nat, seq<byte>), IoError> {
    match more
    case Err(e) => Err(e)
    case Ok((v, rest)) => Ok((value + v * Pow2(bits), rest))
  }

  lemma NothingShifted(more: Result<(nat, seq<byte>), IoError>)
    ensures Shifted(0, 0, more) == more
  {
    assert Pow2(0) == 1;
  }

  lemma ShiftedMore(value: nat, bits: nat, b: byte, more: Result<(nat, seq<byte>), IoError>)
    ensures more.Ok? ==>
              Shifted(value, bits, Ok((b % 128 + 128 * more.value.0, more.value.1))) ==
              Shifted(value + b % 128 * Pow2(bits), bits + 7, more)
  {
    hide Pow2;
    if more.Ok? {
      SmallPowers();
      Pow2Add(bits, 7);
      Regroup(b % 128, more.value.0, Pow2(bits));
    }
  }

  lemma Regroup(low: int, v: int, p: int)
    ensures (low + 128 * v) * p == low * p + v * (p * 128)
  {
  }

  method Write(v: nat) returns (bytes: seq<byte>)
    ensures bytes == Encoding(v)
  {
    bytes := [];
    var varint := v;
    var more := true;
    while more
      invariant more ==> bytes + Encoding(varint) == Encoding(v)
      invariant !more ==> bytes == Encoding(v)
      decreases more, varint
    {
      var b := varint % 128;
      varint := varint / 128;
      if varint != 0 {
        b := b + 128;
      }
      bytes := bytes + [b];
      more := varint != 0;
    }
  }

  /** The number which groups of seven bits make, whatever their top bits are. */
  function Groups(bytes: seq<byte>): nat {
    if bytes == [] then 0 else bytes[0] % 128 + 128 * Groups(bytes[1..])
  }

  // What is written makes the number; all of its bytes but the last say that more follow, and it is as short as can be.
  lemma {:induction false} EncodingIs(v: nat)
    ensures var bytes := Encoding(v);
            && Groups(bytes) == v
            && (forall k :: 0 <= k < |bytes| ==> (bytes[k] >= 128 <==> k + 1 < |bytes|))
            && (|bytes| > 1 ==> bytes[|bytes| - 1] > 0)
  {
    var bytes := Encoding(v);
    if v >= 128 {
      EncodingIs(v / 128);
      assert bytes[1..] == Encoding(v / 128);
      forall k | 0 <= k < |bytes|
        ensures bytes[k] >= 128 <==> k + 1 < |bytes|
      {
        if k > 0 {
          assert bytes[k] == Encoding(v / 128)[k - 1];
        }
      }
      assert bytes[|bytes| - 1] == Encoding(v / 128)[|bytes| - 2];
    }
  }

  // ---------------------------------------------------------------------------------------------
  // Lengths.

  /** The number of significant bits. */
  function BitLength(v: nat): nat {
    if v == 0 then 0 else 1 + BitLength(v / 2)
  }

  function VarIntLen(v: nat): (n: nat)
    ensures n >= 1
  {
    var encodedBytes := (BitLength(v) + 6) / 7;
    if encodedBytes > 1 then encodedBytes else 1
  }

  lemma SevenBits(v: nat)
    requires v >= 128
    ensures BitLength(v) == 7 + BitLength(v / 128)
  {
    ThreeBits(v);
    ThreeBits(v / 8);
    assert v / 8 / 8 / 2 == v / 128;
  }

  lemma ThreeBits(v: nat)
    requires v >= 4
    ensures BitLength(v) == 3 + BitLength(v / 8)
  {
    assert BitLength(v) == 1 + BitLength(v / 2) == 2 + BitLength(v / 2 / 2);
  }

  lemma {:induction false} BitLengthBound(v: nat, k: nat)
    requires v < Pow2(k)
    ensures BitLength(v) <= k
  {
    if v > 0 {
      Pow2Half(k);
      BitLengthBound(v / 2, k - 1);
    }
  }

  lemma FewBits(v: nat)
    requires v < 128
    ensures BitLength(v) <= 7
    ensures v > 0 ==> BitLength(v) >= 1
  {
    SmallPowers();
    BitLengthBound(v, 7);
  }

  lemma {:induction false} VarIntLenIsLength(v: nat)
    ensures VarIntLen(v) == |Encoding(v)|
  {
    hide BitLength;
    if v < 128 {
      FewBits(v);
    } else {
      SevenBits(v);
      VarIntLenIsLength(v / 128);
      if v / 128 < 128 {
        FewBits(v / 128);
      }
    }
  }

  lemma {:induction false} LongerIsNotShorter(a: nat, b: nat)
    requires a <= b
    ensures |Encoding(a)| <= |Encoding(b)|
    decreases b
  {
    if a >= 128 {
      LongerIsNotShorter(a / 128, b / 128);
    }
  }

  /** `upper_bound` */
  function UpperBound(bits: nat): nat {
    (bits + 6) / 7
  }

  lemma {:induction false} LengthBound(v: nat, bits: nat)
    requires bits > 0 && v < Pow2(bits)
    ensures |Encoding(v)| <= UpperBound(bits)
    decreases bits
  {
    hide Pow2;
    if v >= 128 {
      SmallPowers();
      if bits <= 7 {
        Pow2Monotone(bits, 7);
      } else {
        Pow2Add(bits - 7, 7);
        ScaledBound(v, Pow2(bits - 7));
        LengthBound(v / 128, bits - 7);
      }
    }
  }
}
