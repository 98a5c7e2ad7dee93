/** ed25519/src/unreduced_scalar.rs: recovering the scalar ref10's `slide` read out of thirty-two bytes. */
module UnreducedScalar {
  import opened Wrappers
  import opened Arithmetic
  import opened PowersOfTwo
  import opened Ed25519
  import opened Vectors

  type i8 = x: int | -128 <= x < 128

  // ---------------------------------------------------------------------------------------------
  // Digits, least significant first.

  /** The number a list of digits stands for. */
  function Digits(s: seq<int>): int {
    if s == [] then 0 else Digits(s[..|s| - 1]) + s[|s| - 1] * Pow2(|s| - 1)
  }

  /** A width-five non-adjacent form: odd digits below sixteen, each followed by four zeros. */
  ghost predicate NonAdjacent(s: seq<int>) {
    && (forall k :: 0 <= k < |s| ==> Digit(s[k]))
    && (forall j, k :: 0 <= j < k < |s| && k < j + 5 && s[j] != 0 ==> s[k] == 0)
  }

  predicate Digit(d: int) {
    d == 0 || (d % 2 == 1 && -15 <= d <= 15)
  }

  predicate BinaryFrom(s: seq<int>, from: nat) {
    forall k :: from <= k < |s| ==> s[k] == 0 || s[k] == 1
  }

  predicate ZeroFrom(s: seq<int>, from: nat) {
    forall k :: from <= k < |s| ==> s[k] == 0
  }

  lemma {:induction false} UpdateDigit(s: seq<int>, k: nat, d: int)
    requires k < |s|
    ensures Digits(s[k := d]) == Digits(s) + (d - s[k]) * Pow2(k)
  {
    var n := |s| - 1;
    if k < n {
      UpdateDigit(s[..n], k, d);
      assert s[k := d][..n] == s[..n][k := d];
    } else {
      assert s[k := d][..n] == s[..n];
      Difference(d, s[n], Pow2(n));
    }
  }

  lemma Difference(a: int, b: int, p: int)
    ensures a * p == b * p + (a - b) * p
  {
  }

  lemma {:induction false} ZerosAbove(s: seq<int>, k: nat)
    requires k <= |s| && ZeroFrom(s, k)
    ensures Digits(s) == Digits(s[..k])
  {
    if k < |s| {
      ZerosAbove(s[..|s| - 1], k);
      assert s[..|s| - 1][..k] == s[..k];
    } else {
      assert s[..k] == s;
    }
  }

  lemma DigitsPrefix(s: seq<int>, i: nat)
    requires i < |s|
    ensures Digits(s[..i + 1]) == Digits(s[..i]) + s[i] * Pow2(i)
  {
    assert s[..i + 1][..i] == s[..i];
  }

  // The lowest digit apart.
  lemma {:induction false} DigitsFirst(s: seq<int>)
    requires s != []
    ensures Digits(s) == s[0] + 2 * Digits(s[1..])
  {
    var n := |s| - 1;
    if n > 0 {
      DigitsFirst(s[..n]);
      assert s[..n][1..] == s[1..][..n - 1];
      DoubleDigit(s[n], Pow2(n - 1));
    } else {
      assert s[1..] == [] && s[..0] == [];
      assert Digits(s) == Digits(s[..0]) + s[0] * Pow2(0);
    }
  }

  lemma {:induction false} DigitsConcat(a: seq<int>, b: seq<int>)
    ensures Digits(a + b) == Digits(a) + Pow2(|a|) * Digits(b)
  {
    if b == [] {
      assert a + b == a;
    } else {
      var n := |b| - 1;
      DigitsConcat(a, b[..n]);
      assert (a + b)[..|a| + n] == a + b[..n];
      Pow2Add(|a|, n);
      Spread(Pow2(|a|), Digits(b[..n]), b[n], Pow2(n));
    }
  }

  lemma Spread(p: int, x: int, d: int, q: int)
    ensures p * (x + d * q) == p * x + d * (p * q)
  {
  }

  // ---------------------------------------------------------------------------------------------
  // Recoding.

  /**
  Adds one at position `from` of a binary number, in place. A carry out of the top is lost.
   */
  method Carry(naf: array<i8>, from: nat) returns (ghost lost: bool)
    requires from < naf.Length && naf[from] == 1 && BinaryFrom(naf[..], from)
    modifies naf
    ensures forall k :: 0 <= k < from ==> naf[k] == old(naf[k])
    ensures naf[from] == 0 && BinaryFrom(naf[..], from)
    ensures lost ==> ZeroFrom(naf[..], from)
    ensures Digits(naf[..]) == Digits(old(naf[..])) + Pow2(from) - (if lost then Pow2(naf.Length) else 0)
  {
    hide Digits, Pow2;
    var k := from;
    lost := true;
    while k < naf.Length
      invariant from <= k <= naf.Length && lost
      invariant forall j :: 0 <= j < naf.Length && (j < from || k <= j) ==> naf[j] == old(naf[j])
      invariant forall j :: from <= j < k ==> naf[j] == 0
      invariant Digits(naf[..]) == Digits(old(naf[..])) + Pow2(from) - Pow2(k)
    {
      ghost var was := naf[..];
      assert was[k] == old(naf[..])[k];
      if naf[k] == 0 {
        UpdateDigit(was, k, 1);
        naf[k] := 1;
        assert naf[..] == was[k := 1];
        lost := false;
        break;
      }
      UpdateDigit(was, k, 0);
      Pow2Next(k);
      naf[k] := 0;
      assert naf[..] == was[k := 0];
      k := k + 1;
    }
  }

  /** The bits up to `i + b` have been merged into the digit at `i`. */
  ghost predicate Merging(was: seq<int>, now: seq<int>, i: nat, b: nat, lost: bool) {
    && i < |was| == |now| && now[..i] == was[..i]
    && 1 <= b <= 6
    && now[i] % 2 == 1 && (if b <= 4 then 0 < now[i] < Pow2(b) else -16 < now[i] < 16)
    && (forall k :: i < k < |now| && k < i + b && k < i + 5 ==> now[k] == 0)
    && BinaryFrom(now, i + 1)
    && (lost ==> i + 4 < |now| && ZeroFrom(now, i + 1))
    && Digits(now) == Digits(was) - (if lost then Pow2(|now|) else 0)
  }

  lemma MergeSkip(was: seq<int>, now: seq<int>, i: nat, b: nat, lost: bool)
    requires Merging(was, now, i, b, lost) && b <= 5
    requires i + b < |now| && b < 5 ==> now[i + b] == 0
    ensures Merging(was, now, i, b + 1, lost)
  {
    hide Digits;
    SmallPowers();
  }

  lemma MergeAdd(was: seq<int>, now: seq<int>, i: nat, b: nat, lost: bool, sum: int)
    requires Merging(was, now, i, b, lost) && b <= 5 && i + b < |now|
    requires now[i + b] == 1 && sum == now[i] + Pow2(b) <= 15
    ensures !lost && Merging(was, now[i := sum][i + b := 0], i, b + 1, lost)
  {
    hide Digits;
    SmallPowers();
    MergeBit(now, i, b, sum);
    assert b <= 3;
  }

  // Subtracting happens only for the fourth bit, and a digit which is already negative stays as it is.
  lemma MergeSubtract(was: seq<int>, now: seq<int>, i: nat, b: nat, lost: bool)
    requires Merging(was, now, i, b, lost) && b <= 5 && i + b < |now|
    requires now[i + b] == 1 && now[i] + Pow2(b) > 15
    ensures !lost
    ensures now[i] - Pow2(b) >= -15 <==> b == 4
    ensures now[i] - Pow2(b) < -15 <==> b == 5
  {
    hide Digits;
    SmallPowers();
  }

  lemma MergeCarried(was: seq<int>, now: seq<int>, i: nat, after: seq<int>, lost: bool)
    requires Merging(was, now, i, 4, false) && i + 4 < |now| && now[i + 4] == 1
    requires |after| == |now| && after[..i + 4] == now[i := now[i] - 16][..i + 4]
    requires after[i + 4] == 0 && BinaryFrom(after, i + 4) && (lost ==> ZeroFrom(after, i + 4))
    requires Digits(after) == Digits(now[i := now[i] - 16]) + Pow2(i + 4) - (if lost then Pow2(|now|) else 0)
    ensures Merging(was, after, i, 5, lost)
  {
    hide Digits;
    SmallPowers();
    BorrowBit(now, i, 4, now[i] - 16);
    forall k | 0 <= k < i + 4
      ensures after[k] == now[i := now[i] - 16][k]
    {
      assert after[k] == after[..i + 4][k];
    }
    forall k | i < k < |after|
      ensures after[k] == 0 || after[k] == 1
      ensures k < i + 5 ==> after[k] == 0
      ensures lost ==> after[k] == 0
    {
    }
  }

  /**
  The body of the loop over positions: merges the bits above a one into its digit, in place.
   */
  method Window(naf: array<i8>, i: nat) returns (ghost lost: bool)
    requires i < naf.Length && naf[i] == 1 && BinaryFrom(naf[..], i)
    modifies naf
    ensures Merging(old(naf[..]), naf[..], i, 6, lost)
  {
    hide Digits, Merging;
    lost := false;
    ghost var was := naf[..];
    MergeStart(was, i);
    for b := 1 to 6
      invariant Merging(was, naf[..], i, b, lost)
    {
      if i + b >= naf.Length {
        MergeStop(was, naf[..], i, b, lost);
        break;
      }
      MergingBounds(was, naf[..], i, b, lost);
      assert naf[..][i + b] == naf[i + b];
      var potentialCarry: i8 := naf[i + b] * Pow2(b);
      if potentialCarry != 0 {
        ghost var now := naf[..];
        var sum: i8, difference: i8 := naf[i] + potentialCarry, naf[i] - potentialCarry;
        if sum <= 15 {
          MergeAdd(was, now, i, b, lost, sum);
          naf[i] := sum;
          naf[i + b] := 0;
          assert naf[..] == now[i := sum][i + b := 0];
        } else {
          MergeSubtract(was, now, i, b, lost);
          if difference >= -15 {
            naf[i] := difference;
            assert naf[..] == now[i := now[i] - 16];
            assert BinaryFrom(now, i + 1) ==> BinaryFrom(naf[..], i + b);
            lost := Carry(naf, i + b);
            assert naf[..][..i + 4] == now[i := now[i] - 16][..i + 4];
            MergeCarried(was, now, i, naf[..], lost);
          } else {
            MergeSkip(was, naf[..], i, b, lost);
            break;
          }
        }
      } else {
        MergeSkip(was, naf[..], i, b, lost);
      }
    }
  }

  lemma MergeStart(was: seq<int>, i: nat)
    requires i < |was| && was[i] == 1 && BinaryFrom(was, i)
    ensures Merging(was, was, i, 1, false)
  {
    hide Digits;
    SmallPowers();
  }

  lemma {:induction false} MergeStop(was: seq<int>, now: seq<int>, i: nat, b: nat, lost: bool)
    requires Merging(was, now, i, b, lost) && i + b >= |now|
    ensures Merging(was, now, i, 6, lost)
    decreases 6 - b
  {
    hide Merging;
    if b < 6 {
      MergeSkip(was, now, i, b, lost) by { MergingBounds(was, now, i, b, lost); }
      MergeStop(was, now, i, b + 1, lost);
    } else {
      MergingBounds(was, now, i, b, lost);
    }
  }

  lemma MergingBounds(was: seq<int>, now: seq<int>, i: nat, b: nat, lost: bool)
    requires Merging(was, now, i, b, lost)
    ensures i < |was| == |now| && 1 <= b <= 6 && -16 < now[i] < 16
    ensures BinaryFrom(now, i + 1)
    ensures b <= 5 ==> Pow2(b) <= 32
    ensures b == 4 ==> Pow2(b) == 16
  {
    hide Digits;
    SmallPowers();
  }

  lemma MergeBit(s: seq<int>, i: nat, b: nat, d: int)
    requires i < i + b < |s| && s[i + b] == 1 && d == s[i] + Pow2(b)
    ensures Digits(s[i := d][i + b := 0]) == Digits(s)
  {
    hide Digits, Pow2;
    UpdateDigit(s, i, d);
    UpdateDigit(s[i := d], i + b, 0);
    Pow2Add(i, b);
  }

  lemma BorrowBit(s: seq<int>, i: nat, b: nat, d: int)
    requires i < |s| && d == s[i] - Pow2(b)
    ensures Digits(s[i := d]) == Digits(s) - Pow2(i + b)
  {
    hide Digits, Pow2;
    UpdateDigit(s, i, d);
    Pow2Add(i, b);
    assert (d - s[i]) * Pow2(i) == -(Pow2(b) * Pow2(i));
  }

  // ---------------------------------------------------------------------------------------------
  // The bytes, and the loop over all positions.

  function BitOf(bytes: seq<byte>, i: nat): (b: nat)
    requires i < 8 * |bytes|
    ensures b == 0 || b == 1
  {
    (bytes[i / 8] / Pow2(i % 8)) % 2
  }

  function BitsOf(bytes: seq<byte>): (r: seq<int>)
    ensures |r| == 8 * |bytes|
    ensures BinaryFrom(r, 0)
  {
    seq(8 * |bytes|, i requires 0 <= i < 8 * |bytes| => BitOf(bytes, i))
  }

  lemma BitOfByte(x: byte, j: nat)
    requires j < 8
    ensures BitsOf([x])[j] == (x / Pow2(j)) % 2
  {
  }

  lemma LowBitsStep(x: nat, p: nat, before: int, after: int)
    requires p > 0 && before == x - p * (x / p) && after == before + ((x / p) % 2) * p
    ensures after == x - (2 * p) * (x / (2 * p))
  {
    HalveQuotient(x, p);
    LowBit(p, x / p);
  }

  lemma {:induction false} LowBits(x: byte, k: nat)
    requires k <= 8
    ensures Digits(BitsOf([x])[..k]) == x - Pow2(k) * (x / Pow2(k))
  {
    hide Digits, Pow2, BitsOf;
    SmallPowers();
    if k == 0 {
      NoDigits();
      assert BitsOf([x])[..0] == [];
    } else {
      LowBits(x, k - 1);
      DigitsPrefix(BitsOf([x]), k - 1);
      BitOfByte(x, k - 1);
      Pow2Next(k - 1);
      LowBitsStep(x, Pow2(k - 1), Digits(BitsOf([x])[..k - 1]), Digits(BitsOf([x])[..k]));
    }
  }

  lemma NoDigits()
    ensures Digits([]) == 0
  {
  }

  lemma LowBit(p: int, q: nat)
    ensures (q % 2) * p - p * q == -(2 * p * (q / 2))
  {
    assert q == 2 * (q / 2) + q % 2;
    assert p * q == p * (2 * (q / 2)) + p * (q % 2);
  }

  lemma {:induction false} BitsStandFor(bytes: seq<byte>)
    ensures Digits(BitsOf(bytes)) == LittleEndian(bytes)
  {
    hide Digits, Pow2;
    if bytes == [] {
      NoDigits();
    } else {
      BitsStandFor(bytes[1..]);
      var first := BitsOf([bytes[0]]);
      SmallPowers();
      Pow2Next(5);
      Pow2Next(6);
      Pow2Next(7);
      forall i | 0 <= i < 8 * |bytes|
        ensures BitsOf(bytes)[i] == (first + BitsOf(bytes[1..]))[i]
      {
        if i >= 8 {
          assert (i - 8) / 8 == i / 8 - 1 && (i - 8) % 8 == i % 8;
        }
      }
      assert BitsOf(bytes) == first + BitsOf(bytes[1..]);
      DigitsConcat(first, BitsOf(bytes[1..]));
      LowBits(bytes[0], 8);
      assert first[..8] == first;
      DivIs(bytes[0], 256, 0, bytes[0]);
      assert Digits(first) == bytes[0];
    }
  }

  method AsBits(bytes: seq<byte>) returns (bits: seq<i8>)
    requires |bytes| == 32
    ensures bits == BitsOf(bytes)
  {
    bits := [];
    for i := 0 to 256
      invariant |bits| == i && forall k :: 0 <= k < i ==> bits[k] == BitOf(bytes, k)
    {
      bits := bits + [(bytes[i / 8] / Pow2(i % 8)) % 2];
    }
  }

  /**
  The positions below `i` are recoded. All digits from `i` up to `t` are zero, and the value recoded
  so far is below 2^t in magnitude.
   */
  ghost predicate Recoding(v: nat, s: seq<int>, i: nat, t: nat, lost: bool) {
    && i <= |s| == 256 && i <= t
    && (forall k :: 0 <= k < i ==> Digit(s[k]))
    && (forall j, k :: 0 <= j < i && j < k < |s| && k < j + 5 && s[j] != 0 ==> s[k] == 0)
    && BinaryFrom(s, i)
    && (forall k :: i <= k < t && k < |s| ==> s[k] == 0)
    && 0 < Digits(s[..i]) + Pow2(t) && Digits(s[..i]) < Pow2(t)
    && Digits(s) == v - (if lost then Pow2(256) else 0)
    && (lost ==> ZeroFrom(s, i) && ZeroFrom(s, 252) && v > Pow2(255))
  }

  lemma RecodeNothing(v: nat, s: seq<int>)
    requires |s| == 256 && BinaryFrom(s, 0) && Digits(s) == v
    ensures Recoding(v, s, 0, 0, false)
  {
    assert s[..0] == [];
  }

  lemma RecodeZero(v: nat, s: seq<int>, i: nat, t: nat, lost: bool)
    requires Recoding(v, s, i, t, lost) && i < 256 && s[i] == 0
    ensures Recoding(v, s, i + 1, if t > i then t else i + 1, lost)
  {
    hide Digits, Pow2;
    DigitsPrefix(s, i);
    Pow2Monotone(t, if t > i then t else i + 1);
  }

  lemma RecodeWindow(v: nat, s: seq<int>, i: nat, t: nat, lost: bool, s': seq<int>, lost': bool)
    requires Recoding(v, s, i, t, lost) && i < 256 && s[i] == 1
    requires Merging(s, s', i, 6, lost')
    ensures !lost && Recoding(v, s', i + 1, i + 5, lost')
  {
    hide Digits, Pow2;
    assert t == i && !lost;
    forall k | 0 <= k < i
      ensures s'[k] == s[k]
    {
      assert s'[..i][k] == s[..i][k];
    }
    DigitsPrefix(s', i);
    SmallPowers();
    Pow2Add(i, 4);
    Pow2Monotone(i + 4, i + 5);
    assert -15 * Pow2(i) <= s'[i] * Pow2(i) <= 15 * Pow2(i) by { Between(s'[i], Pow2(i)); }
    if lost' {
      ZerosAbove(s', i + 1);
      Pow2Monotone(i + 4, 255);
      Pow2Next(255);
    }
  }

  lemma Between(d: int, p: nat)
    requires -15 <= d <= 15
    ensures -15 * p <= d * p <= 15 * p
  {
  }

  /**
  What the recoding computes: a non-adjacent form of `v`, or of `v` less 2^256 after the one carry which
  can be lost.
   */
  ghost predicate Recoded(v: nat, s: seq<int>) {
    && |s| == 256 && NonAdjacent(s)
    && (Digits(s) == v || (Digits(s) == v - Pow2(256) && ZeroFrom(s, 252) && v > Pow2(255)))
  }

  lemma RecodedAll(v: nat, s: seq<int>, t: nat, lost: bool)
    requires Recoding(v, s, 256, t, lost)
    ensures Recoded(v, s)
  {
    hide Digits, Pow2;
  }

  method NonAdjacentForm(bytes: seq<byte>) returns (naf: array<i8>)
    requires |bytes| == 32
    ensures Recoded(LittleEndian(bytes), naf[..])
  {
    hide Digits, Pow2, Recoding, Merging, BitsOf, LittleEndian;
    var bits := AsBits(bytes);
    BitsStandFor(bytes);
    naf := new i8[256];
    for b := 0 to 256
      invariant forall k :: 0 <= k < b ==> naf[k] == bits[k]
    {
      naf[b] := bits[b];
    }
    assert naf[..] == bits;
    ghost var v := LittleEndian(bytes);
    ghost var t: nat := 0;
    ghost var lost := false;
    RecodeNothing(v, naf[..]);
    for i := 0 to 256
      invariant Recoding(v, naf[..], i, t, lost)
    {
      RecodingBits(v, naf[..], i, t, lost);
      assert naf[..][i] == naf[i];
      if naf[i] != 0 {
        ghost var was := naf[..];
        ghost var carryLost := Window(naf, i);
        RecodeWindow(v, was, i, t, lost, naf[..], carryLost);
        t, lost := i + 5, carryLost;
      } else {
        RecodeZero(v, naf[..], i, t, lost);
        t := if t > i then t else i + 1;
      }
    }
    RecodedAll(v, naf[..], t, lost);
  }

  lemma RecodingBits(v: nat, s: seq<int>, i: nat, t: nat, lost: bool)
    requires Recoding(v, s, i, t, lost)
    ensures BinaryFrom(s, i)
  {
    hide Digits;
  }

  // ---------------------------------------------------------------------------------------------
  // Which of the two numbers was recoded.

  lemma {:induction false} LeadingZeros(s: seq<int>, k: nat) returns (q: int)
    requires forall j :: 0 <= j < k && j < |s| ==> s[j] == 0
    ensures Digits(s) == Pow2(k) * q
  {
    hide Digits, Pow2;
    if s == [] {
      NoDigits();
      q := 0;
    } else if k == 0 {
      SmallPowers();
      q := Digits(s);
    } else {
      Pow2Next(k - 1);
      DigitsFirst(s);
      q := LeadingZeros(s[1..], k - 1);
    }
  }

  // The lowest digit is determined by the number: it is zero exactly for even numbers, and otherwise
  // the residue modulo thirty-two of least magnitude.
  lemma LowestDigit(s: seq<int>)
    requires s != [] && NonAdjacent(s)
    ensures Digits(s) % 2 == 0 <==> s[0] == 0
    ensures s[0] != 0 ==> Digits(s) % 32 == s[0] % 32
  {
    hide Digits, Pow2;
    DigitsFirst(s);
    if s[0] != 0 {
      assert Digit(s[0]);
      var q := LeadingZeros(s[1..], 4);
      SmallPowers();
      ModThirtyTwo(s[0], q);
    }
  }

  lemma ModThirtyTwo(d: int, q: int)
    ensures (d + 2 * (16 * q)) % 32 == d % 32
    ensures (d + 2 * (16 * q)) % 2 == d % 2
  {
    AddMultiple(d, 32, q);
    AddMultiple(d, 2, 16 * q);
  }

  lemma SameDigit(d: int, e: int)
    requires Digit(d) && Digit(e) && (d == 0 <==> e == 0) && d % 32 == e % 32
    ensures d == e
  {
  }

  lemma NonAdjacentRest(s: seq<int>)
    requires s != [] && NonAdjacent(s)
    ensures NonAdjacent(s[1..]) && Digit(s[0])
  {
  }

  // A number has at most one non-adjacent form of a given length.
  lemma {:induction false} FormIsUnique(a: seq<int>, b: seq<int>)
    requires |a| == |b| && NonAdjacent(a) && NonAdjacent(b) && Digits(a) == Digits(b)
    ensures a == b
  {
    hide Digits, NonAdjacent, Digit;
    if a != [] {
      LowestDigit(a);
      LowestDigit(b);
      NonAdjacentRest(a);
      NonAdjacentRest(b);
      if a[0] == 0 {
        assert b[0] == 0;
      } else {
        SameDigit(a[0], b[0]);
      }
      DigitsFirst(a);
      DigitsFirst(b);
      FormIsUnique(a[1..], b[1..]);
      assert a == [a[0]] + a[1..] && b == [b[0]] + b[1..];
    }
  }

  ghost predicate HasForm(v: int, n: nat) {
    exists s :: |s| == n && NonAdjacent(s) && Digits(s) == v
  }

  // Numbers up to half of the range have a form.
  lemma {:induction false} HalfRangeHasForm(v: nat, n: nat)
    requires n > 0 && v <= Pow2(n - 1)
    ensures HasForm(v, n)
    decreases n
  {
    hide Digits, Pow2, NonAdjacent;
    SmallPowers();
    if v % 2 == 1 {
      if n < 6 {
        Pow2Monotone(n - 1, 4);
        SingleDigit(v, n);
      } else {
        Pow2Add(n - 6, 5);
        var d := LeastResidue(v, Pow2(n - 6));
        HalfRangeHasForm((v - d) / 32, n - 5);
        var rest :| |rest| == n - 5 && NonAdjacent(rest) && Digits(rest) == (v - d) / 32;
        PrependDigit(d, rest);
        FormOf([d, 0, 0, 0, 0] + rest);
      }
    } else if n == 1 {
      SingleDigit(0, 1);
    } else {
      Pow2Next(n - 2);
      HalfRangeHasForm(v / 2, n - 1);
      var rest :| |rest| == n - 1 && NonAdjacent(rest) && Digits(rest) == v / 2;
      PrependZero(rest);
      FormOf([0] + rest);
    }
  }

  lemma LeastResidue(v: nat, p: nat) returns (d: int)
    requires v % 2 == 1 && v <= p * 32
    ensures Digit(d) && (v - d) % 32 == 0 && 0 <= (v - d) / 32 <= p
  {
    var q, r := v / 32, v % 32;
    assert v == 32 * q + r;
    d := if r < 16 then r else r - 32;
    ModIs(v - d, 32, if r < 16 then q else q + 1, 0);
    assert r % 2 == 1;
  }

  lemma PrependDigit(d: int, rest: seq<int>)
    requires Digit(d) && NonAdjacent(rest)
    ensures NonAdjacent([d, 0, 0, 0, 0] + rest) && Digits([d, 0, 0, 0, 0] + rest) == d + 32 * Digits(rest)
  {
    hide Digits, Pow2;
    var s := [d, 0, 0, 0, 0] + rest;
    SmallPowers();
    DigitsConcat([d, 0, 0, 0, 0], rest);
    SingleValue(d, 5);
    assert [d, 0, 0, 0, 0] == Single(d, 5);
    forall j, k | 0 <= j < k < |s| && k < j + 5 && s[j] != 0
      ensures s[k] == 0
    {
      if j >= 5 {
        assert s[j] == rest[j - 5] && s[k] == rest[k - 5];
      }
    }
    forall k | 0 <= k < |s|
      ensures Digit(s[k])
    {
      if k >= 5 {
        assert s[k] == rest[k - 5];
      }
    }
  }

  lemma PrependZero(rest: seq<int>)
    requires NonAdjacent(rest)
    ensures NonAdjacent([0] + rest) && Digits([0] + rest) == 2 * Digits(rest)
  {
    hide Digits;
    var s := [0] + rest;
    DigitsFirst(s);
    assert s[1..] == rest;
    forall j, k | 0 <= j < k < |s| && k < j + 5 && s[j] != 0
      ensures s[k] == 0
    {
      assert s[j] == rest[j - 1] && s[k] == rest[k - 1];
    }
    forall k | 0 <= k < |s|
      ensures Digit(s[k])
    {
      if k >= 1 {
        assert s[k] == rest[k - 1];
      }
    }
  }

  function Single(d: int, n: nat): (s: seq<int>)
    requires n > 0
    ensures |s| == n
  {
    seq(n, i => if i == 0 then d else 0)
  }

  lemma SingleValue(d: int, n: nat)
    requires n > 0
    ensures Digits(Single(d, n)) == d
  {
    var s := Single(d, n);
    ZerosAbove(s, 1);
    DigitsPrefix(s, 0);
    assert s[..0] == [] && Pow2(0) == 1;
  }

  lemma SingleDigit(v: int, n: nat)
    requires n > 0 && Digit(v)
    ensures HasForm(v, n)
  {
    SingleValue(v, n);
    FormOf(Single(v, n));
  }

  lemma FormOf(s: seq<int>)
    requires NonAdjacent(s)
    ensures HasForm(Digits(s), |s|)
  {
  }

  /** The residue modulo thirty-two of least magnitude. */
  function Residue(v: nat): int {
    if v % 32 < 16 then v % 32 else v % 32 - 32
  }

  /** Whether a number has a form of so many digits, by taking the digits off it, the lowest first. */
  predicate Fits(v: nat, n: nat)
    decreases n
  {
    if v == 0 then true
    else if n == 0 then false
    else if v % 2 == 0 then Fits(v / 2, n - 1)
    else if n < 5 then v < 16
    else (v - Residue(v)) / 32 >= 0 && Fits((v - Residue(v)) / 32, n - 5)
  }

  lemma {:induction false} FitsHasForm(v: nat, n: nat)
    requires Fits(v, n)
    ensures HasForm(v, n)
    decreases n
  {
    hide Digits, Pow2, NonAdjacent;
    if v == 0 {
      if n == 0 { NoForm(); } else { SingleDigit(0, n); }
    } else if v % 2 == 0 {
      FitsHasForm(v / 2, n - 1);
      var rest :| |rest| == n - 1 && NonAdjacent(rest) && Digits(rest) == v / 2;
      PrependZero(rest);
      FormOf([0] + rest);
    } else if n < 5 {
      SingleDigit(v, n);
    } else {
      ResidueIs(v);
      FitsHasForm((v - Residue(v)) / 32, n - 5);
      var rest :| |rest| == n - 5 && NonAdjacent(rest) && Digits(rest) == (v - Residue(v)) / 32;
      PrependDigit(Residue(v), rest);
      FormOf([Residue(v), 0, 0, 0, 0] + rest);
    }
  }

  lemma NoForm()
    ensures HasForm(0, 0)
  {
    NoDigits();
    assert NonAdjacent([]);
  }

  lemma ResidueIs(v: nat)
    requires v % 2 == 1
    ensures Digit(Residue(v)) && Residue(v) % 32 == v % 32
    ensures Residue(v) + 32 * ((v - Residue(v)) / 32) == v && (v - Residue(v)) / 32 >= 0
  {
    var q, r := v / 32, v % 32;
    OddRest(v, q, r);
    if r < 16 {
      ModIs(v - r, 32, q, 0);
    } else {
      ModIs(v - (r - 32), 32, q + 1, 0);
      ModIs(r - 32, 32, -1, r);
    }
  }

  lemma OddRest(v: nat, q: nat, r: nat)
    requires v % 2 == 1 && v == 32 * q + r
    ensures r % 2 == 1
  {
  }

  lemma {:induction false} FormFits(v: nat, s: seq<int>)
    requires NonAdjacent(s) && Digits(s) == v
    ensures Fits(v, |s|)
    decreases |s|
  {
    hide Digits, Pow2, NonAdjacent;
    if v == 0 {
    } else if s == [] {
      NoDigits();
    } else {
      LowestDigit(s);
      NonAdjacentRest(s);
      DigitsFirst(s);
      if v % 2 == 0 {
        FormFits(v / 2, s[1..]);
      } else {
        ResidueIs(v);
        SameDigit(s[0], Residue(v));
        OddForm(v, s);
        if |s| >= 5 {
          FormFits((v - Residue(v)) / 32, s[5..]);
        }
      }
    }
  }

  // The four digits after one which is not zero are zeros.
  lemma OddForm(v: nat, s: seq<int>)
    requires s != [] && NonAdjacent(s) && Digits(s) == v && s[0] == Residue(v) && v % 2 == 1
    ensures |s| < 5 ==> v < 16
    ensures |s| >= 5 ==> NonAdjacent(s[5..]) && Digits(s[5..]) == (v - Residue(v)) / 32
  {
    hide Digits, Pow2;
    if |s| < 5 {
      SingleValue(s[0], |s|);
      assert s == Single(s[0], |s|);
      assert Digit(s[0]);
    } else {
      ResidueIs(v);
      assert s == [s[0], 0, 0, 0, 0] + s[5..];
      forall k | 0 <= k < |s[5..]|
        ensures Digit(s[5..][k])
      {
        assert s[5..][k] == s[k + 5];
      }
      forall j, k | 0 <= j < k < |s[5..]| && k < j + 5 && s[5..][j] != 0
        ensures s[5..][k] == 0
      {
        assert s[5..][j] == s[j + 5] && s[5..][k] == s[k + 5];
      }
      PrependDigit(s[0], s[5..]);
    }
  }

  lemma FitsIffForm(v: nat, n: nat)
    ensures Fits(v, n) <==> HasForm(v, n)
  {
    hide Digits, NonAdjacent, Fits;
    if HasForm(v, n) {
      var s :| |s| == n && NonAdjacent(s) && Digits(s) == v;
      FormFits(v, s);
    }
    if Fits(v, n) {
      FitsHasForm(v, n);
    }
  }

  // A carry is lost exactly when the number has no form of 256 digits.
  lemma RecodesExactly(v: nat, s: seq<int>)
    requires Recoded(v, s)
    ensures Digits(s) == (if Fits(v, 256) then v else v - Pow2(256))
  {
    hide Pow2, Fits;
    FitsIffForm(v, 256);
    if Digits(s) != v && HasForm(v, 256) {
      var form :| |form| == 256 && NonAdjacent(form) && Digits(form) == v;
      assert (s + [1])[..256] == s && (form + [0])[..256] == form;
      assert NonAdjacent(s + [1]);
      assert NonAdjacent(form + [0]);
      FormIsUnique(s + [1], form + [0]);
    }
  }

  // A number for which a carry is lost.
  lemma AllOnesHasNoForm()
    ensures !HasForm(Pow2(256) - 1, 256) && !Fits(Pow2(256) - 1, 256)
  {
    hide Pow2, Fits;
    FitsIffForm(Pow2(256) - 1, 256);
    if HasForm(Pow2(256) - 1, 256) {
      var form :| |form| == 256 && NonAdjacent(form) && Digits(form) == Pow2(256) - 1;
      var other := Single(-1, 256) + [1];
      SingleValue(-1, 256);
      assert other[..256] == Single(-1, 256) && (form + [0])[..256] == form;
      assert NonAdjacent(other) && NonAdjacent(form + [0]);
      FormIsUnique(other, form + [0]);
    }
  }

  // ---------------------------------------------------------------------------------------------
  // Recovering the scalar.

  /** The number ref10's `slide` makes of `v`: itself, unless it has no form of 256 digits. */
  function Slid(v: nat): int {
    if Fits(v, 256) then v else v - Pow2(256)
  }

  /** The digits from `i` on. */
  lemma HornerStep(s: seq<int>, i: nat)
    requires i < |s|
    ensures Digits(s[i..]) == s[i] + 2 * Digits(s[i + 1..])
  {
    DigitsFirst(s[i..]);
    assert s[i..][1..] == s[i + 1..];
  }

  /** One, three, ..., fifteen. */
  method PrecomputedScalars() returns (scalars: seq<Scalar>)
    ensures |scalars| == 8
    ensures forall i :: 0 <= i < 8 ==> scalars[i] == 2 * i + 1
  {
    scalars := [1];
    for i := 1 to 8
      invariant |scalars| == i && forall k :: 0 <= k < i ==> scalars[k] == 2 * k + 1
    {
      scalars := scalars + [i * 2 + 1];
    }
  }

  lemma TopBit(bytes: seq<byte>)
    requires |bytes| == 32
    ensures bytes[31] / 128 % 2 == 0 <==> LittleEndian(bytes) < Pow2(255)
    ensures LittleEndian(bytes) < Pow2(256)
  {
    hide Pow2, LittleEndian;
    LittleEndianTop(bytes);
    TopByte(LittleEndian(bytes[..31]), Pow2(248), bytes[31]);
    Pow2Next(255);
    Pow2Add(248, 7);
    SmallPowers();
    Pow2Next(5);
    Pow2Next(6);
  }

  lemma TopByte(low: nat, p: nat, t: byte)
    requires low < p
    ensures low + p * t < 256 * p
    ensures low + p * t < 128 * p <==> t < 128
  {
    if t < 128 {
      Monotone(p, t, 127);
    } else {
      Monotone(p, 128, t);
    }
    Monotone(p, t, 255);
  }

  lemma Monotone(p: nat, t: nat, u: nat)
    requires t <= u
    ensures p * t <= p * u
  {
  }

  lemma LittleEndianTop(bytes: seq<byte>)
    requires |bytes| == 32
    ensures LittleEndian(bytes) == LittleEndian(bytes[..31]) + Pow2(248) * bytes[31]
    ensures LittleEndian(bytes[..31]) < Pow2(248)
  {
    hide LittleEndian, Pow2;
    LittleEndianSnoc(bytes, 31);
    LittleEndianBound(bytes[..31]);
    assert bytes[..32] == bytes;
  }

  method Ref10SlideScalar(bytes: seq<byte>) returns (recovered: Scalar)
    requires |bytes| == 32
    ensures 0 <= recovered < L && Eq(recovered, Slid(LittleEndian(bytes)))
    ensures LittleEndian(bytes) < Pow2(255) ==> recovered == LittleEndian(bytes) % L
  {
    hide Digits, Pow2, LittleEndian, HasForm, NonAdjacent;
    ghost var v := LittleEndian(bytes);
    TopBit(bytes);
    if bytes[31] / 128 % 2 == 0 {
      HalfRangeHasForm(v, 256);
      FitsIffForm(v, 256);
      RedEq(v);
      return Red(LittleEndian(bytes));
    }
    var precomputed := PrecomputedScalars();
    var naf := NonAdjacentForm(bytes);
    ghost var s: seq<int> := naf[..];
    RecodedDigits(v, s);
    NoDigits();
    var sum := 0;
    var i := 256;
    assert s[256..] == [];
    while i > 0
      invariant 0 <= i <= 256 && naf[..] == s
      invariant sum == Digits(s[i..])
    {
      i := i - 1;
      HornerStep(s, i);
      assert Digit(s[i]) && naf[i] == naf[..][i];
      sum := sum + sum;
      var numb := naf[i];
      if numb > 0 {
        sum := sum + precomputed[numb / 2];
      } else if numb < 0 {
        sum := sum - precomputed[-numb / 2];
      }
    }
    assert s[0..] == s;
    recovered := Red(sum);
    RedEq(sum);
  }

  lemma RecodedDigits(v: nat, s: seq<int>)
    requires Recoded(v, s)
    ensures |s| == 256 && (forall k :: 0 <= k < 256 ==> Digit(s[k])) && Digits(s) == Slid(v)
  {
    hide Digits, Pow2;
    RecodesExactly(v, s);
  }
}
