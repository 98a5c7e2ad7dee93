/** Numbers as digits of any base, the most significant first. */
module Positional {
  import Arithmetic

  function Value(base: nat, digits: seq<nat>): nat {
    if digits == [] then 0 else Value(base, digits[..|digits| - 1]) * base + digits[|digits| - 1]
  }

  /** The lowest `n` digits of a number. */
  function Expand(base: nat, v: nat, n: nat): (digits: seq<nat>)
    requires base > 0
    ensures |digits| == n
    ensures forall i :: 0 <= i < n ==> digits[i] < base
    decreases n
  {
    if n == 0 then [] else Expand(base, v / base, n - 1) + [v % base]
  }

  ghost predicate AreDigits(base: nat, digits: seq<nat>) {
    forall i :: 0 <= i < |digits| ==> digits[i] < base
  }

  function Power(base: nat, n: nat): (p: nat)
    ensures base > 0 ==> p > 0
  {
    if n == 0 then 1 else PositiveProduct(Power(base, n - 1), base); Power(base, n - 1) * base
  }

  lemma PositiveProduct(a: nat, b: nat)
    ensures a * b >= 0
    ensures a > 0 && b > 0 ==> a * b > 0
  {
  }

  lemma QuotientBound(v: nat, p: nat, base: nat)
    requires base > 0 && v < p * base
    ensures v / base < p
  {
    DivMod(v, base);
    if v / base >= p {
      ProductMonotone(p, v / base, base);
    }
  }

  lemma DivMod(v: nat, base: nat)
    requires base > 0
    ensures v / base * base + v % base == v
  {
  }

  lemma PowerStep(base: nat, n: nat)
    requires n > 0
    ensures Power(base, n) == Power(base, n - 1) * base
  {
  }

  lemma ProductMonotone(a: nat, b: nat, c: nat)
    requires a <= b
    ensures a * c <= b * c
  {
  }

  lemma {:induction false} ValueOfExpand(base: nat, v: nat, n: nat)
    requires base > 0 && v < Power(base, n)
    ensures Value(base, Expand(base, v, n)) == v
    decreases n
  {
    if n > 0 {
      PowerStep(base, n);
      hide Power;
      QuotientBound(v, Power(base, n - 1), base);
      ValueOfExpand(base, v / base, n - 1);
      assert Expand(base, v, n)[..n - 1] == Expand(base, v / base, n - 1);
      DivMod(v, base);
    } else {
      assert v == 0;
    }
  }

  lemma LastDigit(base: nat, q: nat, d: nat)
    requires d < base
    ensures (q * base + d) / base == q && (q * base + d) % base == d
  {
    Arithmetic.ModIs(q * base + d, base, q, d);
  }

  lemma {:induction false} ExpandOfValue(base: nat, digits: seq<nat>)
    requires base > 0 && AreDigits(base, digits)
    ensures Expand(base, Value(base, digits), |digits|) == digits
    ensures Value(base, digits) < Power(base, |digits|)
  {
    if digits != [] {
      var n := |digits| - 1;
      ExpandOfValue(base, digits[..n]);
      LastDigit(base, Value(base, digits[..n]), digits[n]);
      ProductMonotone(Value(base, digits[..n]) + 1, Power(base, n), base);
      assert digits == digits[..n] + [digits[n]];
    }
  }

  lemma {:induction false} ExpandSuffix(base: nat, v: nat, m: nat, n: nat)
    requires base > 0
    ensures Expand(base, v, m + n)[m..] == Expand(base, v, n)
    decreases n
  {
    if n > 0 {
      ExpandSuffix(base, v / base, m, n - 1);
    }
  }

  ghost predicate AllZero(digits: seq<nat>) {
    forall i :: 0 <= i < |digits| ==> digits[i] == 0
  }

  lemma {:induction false} LeadingZeros(base: nat, zeros: seq<nat>, digits: seq<nat>)
    requires AllZero(zeros)
    ensures Value(base, zeros + digits) == Value(base, digits)
    decreases |zeros| + |digits|
  {
    if digits != [] {
      assert (zeros + digits)[..|zeros| + |digits| - 1] == zeros + digits[..|digits| - 1];
      LeadingZeros(base, zeros, digits[..|digits| - 1]);
    } else if zeros != [] {
      assert zeros + digits == zeros;
      LeadingZeros(base, zeros[..|zeros| - 1], []);
      assert zeros[..|zeros| - 1] + [] == zeros[..|zeros| - 1];
    }
  }

  // The digits above the lowest `n` are zero exactly for numbers below the power.
  lemma HighDigitsZero(base: nat, v: nat, m: nat, n: nat)
    requires base > 0 && v < Power(base, m + n)
    ensures AllZero(Expand(base, v, m + n)[..m]) <==> v < Power(base, n)
  {
    hide Value, Expand, Power;
    var all := Expand(base, v, m + n);
    ExpandSuffix(base, v, m, n);
    if AllZero(all[..m]) {
      LeadingZeros(base, all[..m], all[m..]);
      assert all[..m] + all[m..] == all;
      ValueOfExpand(base, v, m + n);
      ExpandOfValue(base, Expand(base, v, n));
    }
    if v < Power(base, n) {
      var zeros := seq(m, i => 0);
      LeadingZeros(base, zeros, Expand(base, v, n));
      ValueOfExpand(base, v, n);
      ExpandOfValue(base, zeros + Expand(base, v, n));
      assert all == zeros + Expand(base, v, n) && all[..m] == zeros;
    }
  }
}

/** wallet/base58/src/lib.rs */
module Base58 {
  import opened Wrappers
  import opened Positional

  /** The letters of "123456789ABCDEFGHJKLMNPQRSTUVWXYZabcdefghijkmnopqrstuvwxyz". */
  function Letter(i: nat): byte
    requires i < 58
  {
    if i < 9 then 49 + i else if i < 17 then 65 + (i - 9) else if i < 22 then 74 + (i - 17)
    else if i < 33 then 80 + (i - 22) else if i < 44 then 97 + (i - 33) else 109 + (i - 44)
  }

  const ALPHABET: string := "123456789" + "ABCDEFGH" + "JKLMN" + "PQRSTUVWXYZ" + "abcdefghijk" + "mnopqrstuvwxyz"

  /** The letters in a row, from one on. */
  ghost predicate InRow(letters: string, first: int) {
    forall i :: 0 <= i < |letters| ==> letters[i] as int == first + i
  }

  lemma LettersAre(i: nat)
    requires i < 58
    ensures |ALPHABET| == 58 && Letter(i) == ALPHABET[i] as int
  {
    assert InRow("123456789", 49) && InRow("ABCDEFGH", 65) && InRow("JKLMN", 74) && InRow("PQRSTUVWXYZ", 80);
    assert InRow("abcdefghijk", 97) && InRow("mnopqrstuvwxyz", 109);
    LettersOf("123456789", "ABCDEFGH", "JKLMN", "PQRSTUVWXYZ", "abcdefghijk", "mnopqrstuvwxyz", i);
  }

  lemma LettersOf(a: string, b: string, c: string, d: string, e: string, f: string, i: nat)
    requires InRow(a, 49) && InRow(b, 65) && InRow(c, 74) && InRow(d, 80) && InRow(e, 97) && InRow(f, 109) && i < 58
    requires |a| == 9 && |b| == 8 && |c| == 5 && |d| == 11 && |e| == 11 && |f| == 14
    ensures |a + b + c + d + e + f| == 58 && Letter(i) == (a + b + c + d + e + f)[i] as int
  {
  }

  const BLOCK_LEN: nat := 8
  const ENCODED_BLOCK_LEN: nat := 11
  const CHECKSUM_LEN: nat := 4

  // ---------------------------------------------------------------------------------------------
  // The encoding, as it is specified.

  /** The number of digits of a number, none for zero. */
  function DigitCount(v: nat): (n: nat)
    decreases v
  {
    if v == 0 then 0 else 1 + DigitCount(v / 58)
  }

  function EncodedLen(bytes: nat): nat
    requires bytes <= BLOCK_LEN
  {
    DigitCount(if bytes == 8 then U64_MAX else if bytes == 7 then 0xff_ffff_ffff_ffff else if bytes == 6 then 0xffff_ffff_ffff
               else if bytes == 5 then 0xff_ffff_ffff else if bytes == 4 then 0xffff_ffff else if bytes == 3 then 0xff_ffff
               else if bytes == 2 then 0xffff else if bytes == 1 then 0xff else 0)
  }

  function Letters(digits: seq<nat>): (r: seq<byte>)
    requires AreDigits(58, digits)
    ensures |r| == |digits|
  {
    seq(|digits|, i requires 0 <= i < |digits| => Letter(digits[i]))
  }

  function EncodeBlock(block: seq<byte>): (r: seq<byte>)
    requires |block| <= BLOCK_LEN
    ensures |r| == EncodedLen(|block|)
  {
    Letters(Expand(58, Value(256, block), EncodedLen(|block|)))
  }

  function Encoding(bytes: seq<byte>): seq<byte> {
    if |bytes| <= BLOCK_LEN then EncodeBlock(bytes)
    else EncodeBlock(bytes[..BLOCK_LEN]) + Encoding(bytes[BLOCK_LEN..])
  }

  lemma {:induction false} DigitCountIs(v: nat, n: nat)
    requires n > 0 && Power(58, n - 1) <= v < Power(58, n)
    ensures DigitCount(v) == n
    decreases n
  {
    if n > 1 {
      PowerStep(58, n);
      PowerStep(58, n - 1);
      QuotientBound(v, Power(58, n - 1), 58);
      assert v / 58 >= Power(58, n - 2);
      DigitCountIs(v / 58, n - 1);
    } else {
      assert v / 58 == 0;
    }
  }

  lemma PowersOf58()
    ensures Power(58, 0) == 1 && Power(58, 1) == 58 && Power(58, 2) == 3364 && Power(58, 3) == 195112
    ensures Power(58, 4) == 11316496 && Power(58, 5) == 656356768 && Power(58, 6) == 38068692544
    ensures Power(58, 7) == 2207984167552 && Power(58, 8) == 128063081718016 && Power(58, 9) == 7427658739644928
    ensures Power(58, 10) == 430804206899405824 && Power(58, 11) == 24986644000165537792
  {
    hide Power;
    PowerZero();
    PowerStep(58, 1);
    PowerStep(58, 2);
    PowerStep(58, 3);
    PowerStep(58, 4);
    PowerStep(58, 5);
    PowerStep(58, 6);
    PowerStep(58, 7);
    PowerStep(58, 8);
    PowerStep(58, 9);
    PowerStep(58, 10);
    PowerStep(58, 11);
  }

  lemma PowerZero()
    ensures Power(58, 0) == 1 && Power(256, 0) == 1
  {
  }

  lemma EncodedLens()
    ensures EncodedLen(0) == 0 && EncodedLen(1) == 2 && EncodedLen(2) == 3 && EncodedLen(3) == 5 && EncodedLen(4) == 6
    ensures EncodedLen(5) == 7 && EncodedLen(6) == 9 && EncodedLen(7) == 10 && EncodedLen(8) == 11
  {
    hide DigitCount, Power;
    PowersOf58();
    NoDigits();
    DigitCountIs(0xff, 2);
    DigitCountIs(0xffff, 3);
    DigitCountIs(0xff_ffff, 5);
    DigitCountIs(0xffff_ffff, 6);
    DigitCountIs(0xff_ffff_ffff, 7);
    DigitCountIs(0xffff_ffff_ffff, 9);
    DigitCountIs(0xff_ffff_ffff_ffff, 10);
    DigitCountIs(U64_MAX, 11);
  }

  lemma NoDigits()
    ensures DigitCount(0) == 0
  {
  }

  lemma LettersDistinct(i: nat, j: nat)
    requires i < 58 && j < 58 && Letter(i) == Letter(j)
    ensures i == j
  {
  }

  // ---------------------------------------------------------------------------------------------
  // The decoding, as it is specified.

  /** The first position of a letter in the alphabet. */
  function IndexOf(letter: byte, from: nat): (i: Option<nat>)
    requires from <= 58
    requires forall j :: 0 <= j < from ==> Letter(j) != letter
    ensures i.Some? ==> i.value < 58 && Letter(i.value) == letter
    ensures i.None? ==> forall j :: 0 <= j < 58 ==> Letter(j) != letter
    decreases 58 - from
  {
    if from == 58 then None else if Letter(from) == letter then Some(from) else IndexOf(letter, from + 1)
  }

  function Indexes(chunk: seq<byte>): (digits: Option<seq<nat>>)
    ensures digits.Some? ==> AreDigits(58, digits.value) && |digits.value| == |chunk| && Letters(digits.value) == chunk
  {
    if chunk == [] then Some([])
    else
      match (Indexes(chunk[..|chunk| - 1]), IndexOf(chunk[|chunk| - 1], 0))
      case (Some(digits), Some(i)) => Some(digits + [i])
      case _ => None
  }

  /** The number of bytes whose encoding has this length. */
  function UsedBytes(len: nat, from: nat): (bytes: Option<nat>)
    requires 1 <= from <= 9
    requires forall j :: 1 <= j < from ==> EncodedLen(j) != len
    ensures bytes.Some? ==> 1 <= bytes.value <= 8 && EncodedLen(bytes.value) == len
    ensures bytes.None? ==> forall j :: 1 <= j <= 8 ==> EncodedLen(j) != len
    decreases 9 - from
  {
    if from == 9 then None else if EncodedLen(from) == len then Some(from) else UsedBytes(len, from + 1)
  }

  function DecodeBlock(chunk: seq<byte>): (block: Option<seq<byte>>) {
    match (Indexes(chunk), UsedBytes(|chunk|, 1))
    case (Some(digits), Some(bytes)) =>
      if Value(58, digits) <= U64_MAX && Value(58, digits) < Power(256, bytes) then Some(Expand(256, Value(58, digits), bytes))
      else None
    case _ => None
  }

  function Decoding(data: seq<byte>): Option<seq<byte>> {
    if data == [] then Some([])
    else if |data| <= ENCODED_BLOCK_LEN then DecodeBlock(data)
    else
      match (DecodeBlock(data[..ENCODED_BLOCK_LEN]), Decoding(data[ENCODED_BLOCK_LEN..]))
      case (Some(block), Some(rest)) => Some(block + rest)
      case _ => None
  }

  // ---------------------------------------------------------------------------------------------
  // Decoding inverts encoding, and only what is encoded decodes.

  lemma {:induction false} IndexesOfLetters(digits: seq<nat>)
    requires AreDigits(58, digits)
    ensures Indexes(Letters(digits)) == Some(digits)
  {
    if digits != [] {
      var n := |digits| - 1;
      IndexesOfLetters(digits[..n]);
      assert Letters(digits)[..n] == Letters(digits[..n]);
      LettersDistinct(IndexOf(Letter(digits[n]), 0).value, digits[n]);
      assert digits == digits[..n] + [digits[n]];
    }
  }

  lemma BlockFits(bytes: nat)
    requires 1 <= bytes <= BLOCK_LEN
    ensures Power(256, bytes) <= Power(58, EncodedLen(bytes)) && Power(256, bytes) <= U64_MAX + 1
    ensures UsedBytes(EncodedLen(bytes), 1) == Some(bytes)
  {
    EncodedLens();
    PowersOf58();
    PowersOf256();
  }

  lemma PowersOf256()
    ensures Power(256, 0) == 1 && Power(256, 1) == 0x100 && Power(256, 2) == 0x1_0000 && Power(256, 3) == 0x100_0000
    ensures Power(256, 4) == 0x1_0000_0000 && Power(256, 5) == 0x100_0000_0000 && Power(256, 6) == 0x1_0000_0000_0000
    ensures Power(256, 7) == 0x100_0000_0000_0000 && Power(256, 8) == 0x1_0000_0000_0000_0000
  {
    hide Power;
    PowerZero();
    PowerStep(256, 1);
    PowerStep(256, 2);
    PowerStep(256, 3);
    PowerStep(256, 4);
    PowerStep(256, 5);
    PowerStep(256, 6);
    PowerStep(256, 7);
    PowerStep(256, 8);
  }

  lemma BlockRoundTrip(block: seq<byte>)
    requires 1 <= |block| <= BLOCK_LEN
    ensures DecodeBlock(EncodeBlock(block)) == Some(block)
  {
    hide EncodedLen, UsedBytes, Value, Expand, Power, Indexes;
    var v, n := Value(256, block), EncodedLen(|block|);
    BlockFits(|block|);
    ExpandOfValue(256, block);
    ValueOfExpand(58, v, n);
    IndexesOfLetters(Expand(58, v, n));
  }

  lemma BlockCanonical(chunk: seq<byte>)
    requires DecodeBlock(chunk).Some?
    ensures 1 <= |DecodeBlock(chunk).value| <= BLOCK_LEN
    ensures EncodeBlock(DecodeBlock(chunk).value) == chunk
  {
    hide EncodedLen, UsedBytes, Value, Expand, Power, Indexes;
    var digits, bytes := Indexes(chunk).value, UsedBytes(|chunk|, 1).value;
    ValueOfExpand(256, Value(58, digits), bytes);
    ExpandOfValue(58, digits);
  }

  // The largest block, whose last letter can be no larger.
  lemma LargestBlock(block: seq<byte>)
    requires |block| == BLOCK_LEN && forall i :: 0 <= i < BLOCK_LEN ==> block[i] == 255
    // "jpXCZedGfVQ"
    ensures EncodeBlock(block) == [106, 112, 88, 67, 90, 101, 100, 71, 102, 86, 81]
    // "jpXCZedGfVR", and "jpXCZedGfVz"
    ensures DecodeBlock([106, 112, 88, 67, 90, 101, 100, 71, 102, 86, 82]) == None
    ensures DecodeBlock([106, 112, 88, 67, 90, 101, 100, 71, 102, 86, 122]) == None
  {
    hide Value, Expand, Power, EncodedLen, UsedBytes, Indexes;
    EncodedLens();
    LargestValue(block);
    var digits: seq<nat> := [42, 47, 30, 11, 32, 37, 36, 15, 38, 28, 23];
    var start: seq<nat> := [42, 47, 30, 11, 32, 37, 36, 15, 38, 28];
    assert digits == start + [23];
    LargestDigits(start);
    ExpandOfValue(58, digits);
    assert Letters(digits) == [106, 112, 88, 67, 90, 101, 100, 71, 102, 86, 81];
    IndexesOfLetters(start + [24]);
    IndexesOfLetters(start + [57]);
    assert Letters(start + [24]) == [106, 112, 88, 67, 90, 101, 100, 71, 102, 86, 82];
    assert Letters(start + [57]) == [106, 112, 88, 67, 90, 101, 100, 71, 102, 86, 122];
  }

  lemma LargestValue(block: seq<byte>)
    requires |block| == BLOCK_LEN && forall i :: 0 <= i < BLOCK_LEN ==> block[i] == 255
    ensures Value(256, block) == U64_MAX
  {
    hide Value;
    LargestSteps();
    assert block == [255, 255, 255, 255, 255, 255, 255, 255];
  }

  lemma LargestSteps()
    ensures Value(256, [255, 255, 255, 255, 255, 255, 255, 255]) == U64_MAX
  {
    hide Value;
    ValueOfNone(256);
    ValueStep(256, [], 255);
    assert [] + [255] == [255];
    ValueStep(256, [255], 255);
    assert [255] + [255] == [255, 255];
    ValueStep(256, [255, 255], 255);
    assert [255, 255] + [255] == [255, 255, 255];
    ValueStep(256, [255, 255, 255], 255);
    assert [255, 255, 255] + [255] == [255, 255, 255, 255];
    ValueStep(256, [255, 255, 255, 255], 255);
    assert [255, 255, 255, 255] + [255] == [255, 255, 255, 255, 255];
    ValueStep(256, [255, 255, 255, 255, 255], 255);
    assert [255, 255, 255, 255, 255] + [255] == [255, 255, 255, 255, 255, 255];
    ValueStep(256, [255, 255, 255, 255, 255, 255], 255);
    assert [255, 255, 255, 255, 255, 255] + [255] == [255, 255, 255, 255, 255, 255, 255];
    ValueStep(256, [255, 255, 255, 255, 255, 255, 255], 255);
    assert [255, 255, 255, 255, 255, 255, 255] + [255] == [255, 255, 255, 255, 255, 255, 255, 255];
  }

  lemma ValueStep(base: nat, digits: seq<nat>, d: nat)
    ensures Value(base, digits + [d]) == Value(base, digits) * base + d
  {
    assert (digits + [d])[..|digits|] == digits;
  }

  lemma ValueOfNone(base: nat)
    ensures Value(base, []) == 0
  {
  }

  lemma LargestDigits(start: seq<nat>)
    requires start == [42, 47, 30, 11, 32, 37, 36, 15, 38, 28]
    ensures forall d: nat :: Value(58, start + [d]) == U64_MAX - 23 + d
  {
    hide Value;
    ValueOfNone(58);
    ValueStep(58, [], 42);
    assert [] + [42] == [42];
    ValueStep(58, [42], 47);
    assert [42] + [47] == [42, 47];
    ValueStep(58, [42, 47], 30);
    assert [42, 47] + [30] == [42, 47, 30];
    ValueStep(58, [42, 47, 30], 11);
    assert [42, 47, 30] + [11] == [42, 47, 30, 11];
    ValueStep(58, [42, 47, 30, 11], 32);
    assert [42, 47, 30, 11] + [32] == [42, 47, 30, 11, 32];
    ValueStep(58, [42, 47, 30, 11, 32], 37);
    assert [42, 47, 30, 11, 32] + [37] == [42, 47, 30, 11, 32, 37];
    ValueStep(58, [42, 47, 30, 11, 32, 37], 36);
    assert [42, 47, 30, 11, 32, 37] + [36] == [42, 47, 30, 11, 32, 37, 36];
    ValueStep(58, [42, 47, 30, 11, 32, 37, 36], 15);
    assert [42, 47, 30, 11, 32, 37, 36] + [15] == [42, 47, 30, 11, 32, 37, 36, 15];
    ValueStep(58, [42, 47, 30, 11, 32, 37, 36, 15], 38);
    assert [42, 47, 30, 11, 32, 37, 36, 15] + [38] == [42, 47, 30, 11, 32, 37, 36, 15, 38];
    ValueStep(58, [42, 47, 30, 11, 32, 37, 36, 15, 38], 28);
    assert [42, 47, 30, 11, 32, 37, 36, 15, 38] + [28] == [42, 47, 30, 11, 32, 37, 36, 15, 38, 28];
    forall d: nat
      ensures Value(58, start + [d]) == U64_MAX - 23 + d
    {
      ValueStep(58, start, d);
    }
  }

  lemma EmptyBlock()
    ensures EncodeBlock([]) == [] && Encoding([]) == []
  {
    EncodedLens();
  }

  lemma {:induction false} RoundTrip(bytes: seq<byte>)
    ensures Decoding(Encoding(bytes)) == Some(bytes)
    decreases |bytes|
  {
    hide EncodeBlock, DecodeBlock, EncodedLen;
    EncodedLens();
    if bytes == [] {
      EmptyBlock();
    } else if |bytes| <= BLOCK_LEN {
      BlockRoundTrip(bytes);
    } else {
      var first, rest := bytes[..BLOCK_LEN], bytes[BLOCK_LEN..];
      BlockRoundTrip(first);
      RoundTrip(rest);
      EncodingNotEmpty(rest);
      var data := Encoding(bytes);
      assert data[..ENCODED_BLOCK_LEN] == EncodeBlock(first) && data[ENCODED_BLOCK_LEN..] == Encoding(rest);
      assert bytes == first + rest;
    }
  }

  lemma EncodingNotEmpty(bytes: seq<byte>)
    requires bytes != []
    ensures Encoding(bytes) != []
  {
    EncodedLens();
  }

  lemma {:induction false} Canonical(data: seq<byte>)
    requires Decoding(data).Some?
    ensures Encoding(Decoding(data).value) == data
    decreases |data|
  {
    hide EncodeBlock, DecodeBlock, EncodedLen;
    EncodedLens();
    if data == [] {
      EmptyBlock();
    } else if |data| <= ENCODED_BLOCK_LEN {
      BlockCanonical(data);
    } else {
      var first, rest := data[..ENCODED_BLOCK_LEN], data[ENCODED_BLOCK_LEN..];
      BlockCanonical(first);
      Canonical(rest);
      var block, others := DecodeBlock(first).value, Decoding(rest).value;
      assert |block| == 8 by { FullBlock(|block|); }
      if others == [] {
        EmptyBlock();
      }
      assert (block + others)[..BLOCK_LEN] == block && (block + others)[BLOCK_LEN..] == others;
      assert data == first + rest;
    }
  }

  lemma FullBlock(bytes: nat)
    requires bytes <= BLOCK_LEN && EncodedLen(bytes) == ENCODED_BLOCK_LEN
    ensures bytes == 8
  {
    EncodedLens();
  }

  // A string decodes to some bytes exactly when it is their encoding.
  lemma DecodesIffEncodes(data: seq<byte>, bytes: seq<byte>)
    ensures Decoding(data) == Some(bytes) <==> Encoding(bytes) == data
  {
    hide Decoding, Encoding;
    RoundTrip(bytes);
    if Decoding(data) == Some(bytes) {
      Canonical(data);
    }
  }

  // ---------------------------------------------------------------------------------------------
  // The implementation.

  function MaxValue(bytes: nat): nat
    requires bytes <= BLOCK_LEN
  {
    if bytes == 8 then U64_MAX else Power(2, 8 * bytes) - 1
  }

  lemma MaxValues(bytes: nat)
    requires bytes <= BLOCK_LEN
    ensures DigitCount(MaxValue(bytes)) == EncodedLen(bytes)
  {
    hide DigitCount, Power;
    PowersOf2();
  }

  lemma PowersOf2()
    ensures Power(2, 0) == 1 && Power(2, 8) == 0x100 && Power(2, 16) == 0x1_0000 && Power(2, 24) == 0x100_0000
    ensures Power(2, 32) == 0x1_0000_0000 && Power(2, 40) == 0x100_0000_0000 && Power(2, 48) == 0x1_0000_0000_0000
    ensures Power(2, 56) == 0x100_0000_0000_0000
  {
    hide Power;
    PowerOfTwoZero();
    EightDoublings(0);
    EightDoublings(8);
    EightDoublings(16);
    EightDoublings(24);
    EightDoublings(32);
    EightDoublings(40);
    EightDoublings(48);
  }

  lemma PowerOfTwoZero()
    ensures Power(2, 0) == 1
  {
  }

  lemma EightDoublings(n: nat)
    ensures Power(2, n + 8) == 256 * Power(2, n)
  {
    hide Power;
    PowerStep(2, n + 1);
    PowerStep(2, n + 2);
    PowerStep(2, n + 3);
    PowerStep(2, n + 4);
    PowerStep(2, n + 5);
    PowerStep(2, n + 6);
    PowerStep(2, n + 7);
    PowerStep(2, n + 8);
  }

  method EncodedLenForBytes(bytes: nat) returns (len: nat)
    requires bytes <= BLOCK_LEN
    ensures len == EncodedLen(bytes)
  {
    var bits := bytes * 8;
    var max: nat := if bits == 64 then U64_MAX else Power(2, bits) - 1;
    MaxValues(bytes);
    len := 0;
    while max != 0
      invariant len + DigitCount(max) == EncodedLen(bytes)
      decreases max
    {
      max := max / 58;
      len := len + 1;
    }
  }

  /** The lowest digits, the least significant first. */
  function Reversed(v: nat, n: nat): (digits: seq<nat>)
    ensures |digits| == n && AreDigits(58, digits)
    decreases n
  {
    if n == 0 then [] else [v % 58] + Reversed(v / 58, n - 1)
  }

  lemma {:induction false} ReversedZero(n: nat)
    ensures forall i :: 0 <= i < n ==> Reversed(0, n)[i] == 0
    decreases n
  {
    if n > 0 {
      ReversedZero(n - 1);
    }
  }

  lemma {:induction false} ReversedAt(v: nat, n: nat, k: nat, i: nat)
    requires i < k <= n
    ensures Reversed(v, n)[i] == Expand(58, v, k)[k - 1 - i]
    decreases n
  {
    if i > 0 {
      ReversedAt(v / 58, n - 1, k - 1, i - 1);
    }
  }

  method Encode(bytes: seq<byte>) returns (res: seq<byte>)
    ensures res == Encoding(bytes)
  {
    hide EncodeBlock, EncodedLen;
    res := [];
    var rest := bytes;
    EmptyBlock();
    while rest != []
      invariant res + Encoding(rest) == Encoding(bytes)
      decreases |rest|
    {
      var chunk := if |rest| < BLOCK_LEN then rest else rest[..BLOCK_LEN];
      var chunkStr := EncodeChunk(chunk);
      assert |rest| == BLOCK_LEN ==> rest[BLOCK_LEN..] == [] && rest[..BLOCK_LEN] == rest;
      res := res + chunkStr;
      rest := rest[|chunk|..];
    }
  }

  method EncodeChunk(chunk: seq<byte>) returns (res: seq<byte>)
    requires |chunk| <= BLOCK_LEN
    ensures res == EncodeBlock(chunk)
  {
    hide Value, Power, EncodedLen, Reversed;
    var fixedLenChunk := seq(BLOCK_LEN - |chunk|, i => 0) + chunk;
    LeadingZeros(256, fixedLenChunk[..BLOCK_LEN - |chunk|], chunk);
    assert fixedLenChunk[..BLOCK_LEN - |chunk|] + chunk == fixedLenChunk;
    var val := Value(256, fixedLenChunk);
    ValueFits(fixedLenChunk);
    var chunkStr := Base58Letters(val);
    res := TakeReversed(chunkStr, val, |chunk|);
  }

  /** The letters of a number, the least significant first, and padding. */
  method Base58Letters(v: nat) returns (chunkStr: array<byte>)
    requires v < Power(58, ENCODED_BLOCK_LEN)
    ensures chunkStr.Length == ENCODED_BLOCK_LEN
    ensures forall k :: 0 <= k < ENCODED_BLOCK_LEN ==> chunkStr[k] == Letter(Reversed(v, ENCODED_BLOCK_LEN)[k])
  {
    hide Power, Reversed, Letter;
    chunkStr := new byte[ENCODED_BLOCK_LEN](_ => Letter(0));
    var val: nat := v;
    var i := 0;
    ghost var digits := Reversed(v, ENCODED_BLOCK_LEN);
    while val > 0
      invariant 0 <= i <= ENCODED_BLOCK_LEN
      invariant val < Power(58, ENCODED_BLOCK_LEN - i)
      invariant digits[i..] == Reversed(val, ENCODED_BLOCK_LEN - i)
      invariant forall k :: 0 <= k < i ==> chunkStr[k] == Letter(digits[k])
      invariant forall k :: i <= k < ENCODED_BLOCK_LEN ==> chunkStr[k] == Letter(0)
      decreases val
    {
      assert i < ENCODED_BLOCK_LEN by { BelowPowerZero(val, ENCODED_BLOCK_LEN - i); }
      PowerStep(58, ENCODED_BLOCK_LEN - i);
      QuotientBound(val, Power(58, ENCODED_BLOCK_LEN - i - 1), 58);
      ReversedStep(val, ENCODED_BLOCK_LEN - i);
      assert digits[i] == digits[i..][0] && digits[i + 1..] == digits[i..][1..];
      chunkStr[i] := Letter(val % 58);
      i := i + 1;
      val := val / 58;
    }
    ReversedZero(ENCODED_BLOCK_LEN - i);
    forall k | i <= k < ENCODED_BLOCK_LEN
      ensures digits[k] == 0
    {
      assert digits[k] == digits[i..][k - i];
    }
  }

  lemma ReversedStep(v: nat, n: nat)
    requires n > 0
    ensures Reversed(v, n)[0] == v % 58 && Reversed(v, n)[1..] == Reversed(v / 58, n - 1)
  {
  }

  /** The used letters, the most significant first. */
  method TakeReversed(chunkStr: array<byte>, ghost v: nat, bytes: nat) returns (res: seq<byte>)
    requires chunkStr.Length == ENCODED_BLOCK_LEN && bytes <= BLOCK_LEN
    requires forall k :: 0 <= k < ENCODED_BLOCK_LEN ==> chunkStr[k] == Letter(Reversed(v, ENCODED_BLOCK_LEN)[k])
    ensures res == Letters(Expand(58, v, EncodedLen(bytes)))
  {
    hide Reversed, Expand, EncodedLen;
    EncodedLens();
    var used := EncodedLenForBytes(bytes);
    res := [];
    var k := used;
    while k > 0
      invariant 0 <= k <= used <= ENCODED_BLOCK_LEN && |res| == used - k
      invariant forall j :: 0 <= j < |res| ==> res[j] == Letter(Expand(58, v, used)[j])
    {
      k := k - 1;
      ReversedAt(v, ENCODED_BLOCK_LEN, used, k);
      res := res + [chunkStr[k]];
    }
  }

  lemma BelowPowerZero(val: nat, n: nat)
    requires 0 < val < Power(58, n)
    ensures n > 0
  {
  }

  lemma ValueFits(block: seq<byte>)
    requires |block| == BLOCK_LEN
    ensures Value(256, block) <= U64_MAX < Power(58, ENCODED_BLOCK_LEN)
  {
    hide Power, Value, Expand;
    ExpandOfValue(256, block);
    PowersOf256();
    PowersOf58();
  }

  method Decode(data: seq<byte>) returns (res: Option<seq<byte>>)
    ensures res == Decoding(data)
  {
    hide DecodeBlock;
    var bytes: seq<byte> := [];
    var rest := data;
    assert Joined([], Decoding(data)) == Decoding(data) by {
      if Decoding(data).Some? { assert [] + Decoding(data).value == Decoding(data).value; }
    }
    while rest != []
      invariant Decoding(data) == Joined(bytes, Decoding(rest))
      decreases |rest|
    {
      var chunk := rest[..if |rest| < ENCODED_BLOCK_LEN then |rest| else ENCODED_BLOCK_LEN];
      var block := DecodeChunk(chunk);
      DecodingChunk(rest);
      if block.None? {
        return None;
      }
      JoinedTwice(bytes, block.value, Decoding(rest[|chunk|..]));
      bytes := bytes + block.value;
      rest := rest[|chunk|..];
    }
    assert bytes + [] == bytes;
    res := Some(bytes);
  }

  function Joined(bytes: seq<byte>, more: Option<seq<byte>>): Option<seq<byte>> {
    match more
    case None => None
    case Some(others) => Some(bytes + others)
  }

  lemma JoinedTwice(a: seq<byte>, b: seq<byte>, more: Option<seq<byte>>)
    ensures Joined(a, Joined(b, more)) == Joined(a + b, more)
  {
    if more.Some? {
      assert a + (b + more.value) == a + b + more.value;
    }
  }

  lemma DecodingChunk(data: seq<byte>)
    requires data != []
    ensures var n := if |data| < ENCODED_BLOCK_LEN then |data| else ENCODED_BLOCK_LEN;
            Decoding(data) == match DecodeBlock(data[..n])
                              case None => None
                              case Some(block) => Joined(block, Decoding(data[n..]))
  {
    hide DecodeBlock;
    if |data| <= ENCODED_BLOCK_LEN {
      assert data[..|data|] == data && data[|data|..] == [];
      if DecodeBlock(data).Some? {
        assert DecodeBlock(data).value + [] == DecodeBlock(data).value;
      }
    }
  }

  method DecodeChunk(chunk: seq<byte>) returns (res: Option<seq<byte>>)
    ensures res == DecodeBlock(chunk)
  {
    hide Value, Power, Expand, Indexes, IndexOf, EncodedLen, UsedBytes;
    var sum := 0;
    NoIndexes();
    for i := 0 to |chunk|
      invariant Indexes(chunk[..i]).Some? && sum == Value(58, Indexes(chunk[..i]).value) <= U64_MAX
    {
      IndexesSnoc(chunk, i);
      IndexesMonotone(chunk, i + 1);
      if IndexOf(chunk[i], 0).Some? {
        ValueSnoc(Indexes(chunk[..i]).value, IndexOf(chunk[i], 0).value);
      }
      if sum * 58 > U64_MAX {
        return None;
      }
      var position := IndexOf(chunk[i], 0);
      if position.None? || sum * 58 + position.value > U64_MAX {
        return None;
      }
      sum := sum * 58 + position.value;
    }
    assert chunk[..|chunk|] == chunk;

    var usedBytes := None;
    for i := 1 to BLOCK_LEN + 1
      invariant usedBytes.None? && forall j :: 1 <= j < i ==> EncodedLen(j) != |chunk|
    {
      var len := EncodedLenForBytes(i);
      if len == |chunk| {
        usedBytes := Some(i);
        break;
      }
    }
    assert usedBytes == UsedBytes(|chunk|, 1) by {
      if usedBytes.Some? { UsedBytesIs(|chunk|, usedBytes.value, 1); }
    }
    if usedBytes.None? {
      return None;
    }
    res := LowBytes(sum, usedBytes.value);
  }

  /** The lowest bytes of a number, if all others are zero. */
  method LowBytes(sum: nat, used: nat) returns (res: Option<seq<byte>>)
    requires sum <= U64_MAX && 1 <= used <= BLOCK_LEN
    ensures res == if sum < Power(256, used) then Some(Expand(256, sum, used)) else None
  {
    hide Power, Expand, Value;
    var bytes: seq<byte> := Expand(256, sum, BLOCK_LEN);
    var unused := BLOCK_LEN - used;
    PowersOf256();
    HighDigitsZero(256, sum, unused, used);
    ExpandSuffix(256, sum, unused, used);
    for i := 0 to unused
      invariant forall k :: 0 <= k < i ==> bytes[k] == 0
    {
      if bytes[i] != 0 {
        assert bytes[..unused][i] != 0;
        return None;
      }
    }
    res := Some(bytes[unused..]);
  }

  lemma NoIndexes()
    ensures Indexes([]) == Some([]) && Value(58, []) == 0
  {
  }

  lemma ValueSnoc(digits: seq<nat>, d: nat)
    ensures Value(58, digits + [d]) == Value(58, digits) * 58 + d
  {
    assert (digits + [d])[..|digits|] == digits;
  }

  lemma IndexesSnoc(chunk: seq<byte>, i: nat)
    requires i < |chunk|
    ensures Indexes(chunk[..i + 1]) ==
            match (Indexes(chunk[..i]), IndexOf(chunk[i], 0))
            case (Some(digits), Some(last)) => Some(digits + [last])
            case _ => None
  {
    assert chunk[..i + 1][..i] == chunk[..i];
  }

  // Nothing that follows makes up for a letter outside of the alphabet, or for a sum which is too large.
  lemma {:induction false} IndexesMonotone(chunk: seq<byte>, i: nat)
    requires i <= |chunk|
    ensures Indexes(chunk).Some? ==>
              Indexes(chunk[..i]).Some? && Value(58, Indexes(chunk).value) >= Value(58, Indexes(chunk[..i]).value)
    decreases |chunk|
  {
    hide IndexOf, Value, Indexes;
    var n := |chunk| - 1;
    assert chunk[..|chunk|] == chunk;
    if i <= n && Indexes(chunk).Some? {
      IndexesSnoc(chunk, n);
      IndexesMonotone(chunk[..n], i);
      assert chunk[..n][..i] == chunk[..i];
      ValueSnoc(Indexes(chunk[..n]).value, IndexOf(chunk[n], 0).value);
    }
  }

  lemma {:induction false} UsedBytesIs(len: nat, bytes: nat, from: nat)
    requires 1 <= from <= bytes <= BLOCK_LEN && EncodedLen(bytes) == len
    requires forall j :: 1 <= j < bytes ==> EncodedLen(j) != len
    ensures UsedBytes(len, from) == Some(bytes)
    decreases bytes - from
  {
    hide EncodedLen;
    if from < bytes {
      UsedBytesIs(len, bytes, from + 1);
    }
  }

  // ---------------------------------------------------------------------------------------------
  // With a checksum.

  method EncodeCheck(keccak: Keccak, data: seq<byte>) returns (res: seq<byte>)
    requires IsHash(keccak)
    ensures res == Encoding(data + keccak(data)[..4])
  {
    var checksum := keccak(data);
    res := Encode(data + checksum[..CHECKSUM_LEN]);
  }

  // A string decodes exactly when it is what some data encodes to, and it decodes to that data.
  method DecodeCheck(keccak: Keccak, data: seq<byte>) returns (res: Option<seq<byte>>)
    requires IsHash(keccak)
    ensures forall original :: res == Some(original) <==> data == Encoding(original + keccak(original)[..4])
  {
    hide Encoding, Decoding;
    var decoded := Decode(data);
    forall original
      ensures data == Encoding(original + keccak(original)[..CHECKSUM_LEN]) <==>
              decoded == Some(original + keccak(original)[..CHECKSUM_LEN])
    {
      DecodesIffEncodes(data, original + keccak(original)[..CHECKSUM_LEN]);
    }
    if decoded.None? || |decoded.value| < CHECKSUM_LEN {
      return None;
    }
    var checksumPos := |decoded.value| - CHECKSUM_LEN;
    var content := decoded.value[..checksumPos];
    forall original | decoded == Some(original + keccak(original)[..CHECKSUM_LEN])
      ensures original == content && keccak(content)[..CHECKSUM_LEN] == decoded.value[checksumPos..]
    {
      assert |original| == checksumPos;
    }
    if keccak(content)[..CHECKSUM_LEN] != decoded.value[checksumPos..] {
      return None;
    }
    assert decoded.value == content + keccak(content)[..CHECKSUM_LEN];
    res := Some(content);
  }
}
