/** Division with remainder. */
module Arithmetic {

  lemma HalveQuotient(a: nat, p: nat)
    requires p > 0
    ensures (a / p) / 2 == a / (2 * p)
  {
    var q := a / p;
    assert a == p * q + a % p;
    DivUnique(a, 2 * p, q / 2, p * (q % 2) + a % p, p, q);
  }

  lemma DivUnique(a: nat, d: nat, quotient: nat, remainder: nat, p: nat, q: nat)
    requires d == 2 * p && p > 0 && quotient == q / 2
    requires remainder == p * (q % 2) + a % p
    requires a == p * q + a % p
    ensures a / d == quotient
  {
    hide *;
    assert q == 2 * quotient + q % 2;
    assert p * q == p * (2 * quotient) + p * (q % 2);
    assert p * (2 * quotient) == d * quotient;
    assert a == d * quotient + remainder;
    assert 0 <= p * (q % 2) <= p by {
      if q % 2 == 0 { assert p * (q % 2) == 0; } else { assert p * (q % 2) == p; }
    }
    assert 0 <= remainder < d;
    DivIs(a, d, quotient, remainder);
  }

  lemma DivIs(a: int, d: int, q: int, r: int)
    requires d > 0 && a == d * q + r && 0 <= r < d
    ensures a / d == q
  {
    QuotientUnique(d, q, r, a / d, a % d);
  }

  lemma QuotientUnique(d: int, q: int, r: int, e: int, m: int)
    requires d * q + r == d * e + m && 0 <= r < d && 0 <= m < d
    ensures q == e
  {
    assert d * (q - e) == d * q - d * e;
    if q > e {
      AtLeast(d, q - e);
    } else if q < e {
      assert d * (e - q) == d * e - d * q;
      AtLeast(d, e - q);
    }
  }

  lemma AtLeast(d: int, t: int)
    requires d > 0 && t >= 1
    ensures d * t >= d
  {
  }

  lemma ModIs(a: int, d: int, q: int, r: int)
    requires d > 0 && a == d * q + r && 0 <= r < d
    ensures a % d == r && a / d == q
  {
    DivIs(a, d, q, r);
  }

  lemma ModWraps(a: int, n: int)
    requires n > 0
    ensures (a + n) % n == a % n
  {
    assert n * (a / n + 1) == n * (a / n) + n;
    ModIs(a + n, n, a / n + 1, a % n);
  }

  lemma AddMultiple(a: int, n: int, q: int)
    requires n > 0
    ensures (a + n * q) % n == a % n
  {
    assert n * (a / n + q) == n * (a / n) + n * q;
    ModIs(a + n * q, n, a / n + q, a % n);
  }

  // ---------------------------------------------------------------------------------------------
  // Inverses.

  function Gcd(a: nat, b: nat): nat
    decreases b
  {
    if b == 0 then a else Gcd(b, a % b)
  }

  function Coefficients(a: nat, b: nat): (int, int)
    decreases b
  {
    if b == 0 then (1, 0)
    else
      var (x, y) := Coefficients(b, a % b);
      (y, x - a / b * y)
  }

  lemma {:induction false} Bezout(a: nat, b: nat)
    ensures var (x, y) := Coefficients(a, b); a * x + b * y == Gcd(a, b)
    decreases b
  {
    if b > 0 {
      Bezout(b, a % b);
      var (x, y) := Coefficients(b, a % b);
      Exchange(a, b, a / b, a % b, x, y);
    }
  }

  lemma Exchange(a: int, b: int, q: int, r: int, x: int, y: int)
    requires a == b * q + r
    ensures a * y + b * (x - q * y) == b * x + r * y
  {
    assert (b * q + r) * y == b * q * y + r * y && b * (x - q * y) == b * x - b * (q * y) && b * q * y == b * (q * y);
  }

  ghost predicate Divides(g: nat, a: nat) {
    g > 0 && a % g == 0
  }

  lemma {:induction false} GcdDivides(a: nat, b: nat)
    requires a > 0 || b > 0
    ensures Divides(Gcd(a, b), a) && Divides(Gcd(a, b), b)
    decreases b
  {
    hide *;
    if b == 0 {
      GcdOfNone(a);
    } else {
      GcdDivides(b, a % b);
      SumDivides(b, a % b, a / b, Gcd(b, a % b));
      GcdStep(a, b);
    }
  }

  lemma GcdOfNone(a: nat)
    requires a > 0
    ensures Gcd(a, 0) == a && Divides(a, a) && Divides(a, 0)
  {
    ModIs(a, a, 1, 0);
    ModIs(0, a, 0, 0);
  }

  lemma GcdStep(a: nat, b: nat)
    requires b > 0
    ensures Gcd(a, b) == Gcd(b, a % b)
  {
  }

  lemma SumDivides(b: nat, r: nat, q: nat, g: nat)
    requires Divides(g, b) && Divides(g, r)
    ensures Divides(g, b * q + r)
  {
    var m := b / g * q + r / g;
    assert b * q == g * (b / g) * q && g * (b / g) * q == g * (b / g * q);
    ModIs(b * q + r, g, m, 0);
  }

  ghost predicate IsPrime(p: nat) {
    p > 1 && forall d :: 1 < d < p ==> p % d != 0
  }

  /** The inverse, if the modulus is prime. */
  function Inverse(s: int, p: nat): int
    requires p > 0
  {
    Coefficients(s % p, p).0
  }

  lemma PrimeInverse(s: int, p: nat)
    requires IsPrime(p) && s % p != 0
    ensures (s * Inverse(s, p)) % p == 1
  {
    var r := s % p;
    var (x, y) := Coefficients(r, p);
    Bezout(r, p);
    GcdDivides(r, p);
    var g := Gcd(r, p);
    assert g == 1 by {
      if g >= p {
        if g > p { ModIs(p, g, 0, p); }
        ModIs(r, p, 0, r);
      }
    }
    InverseFrom(s, p, x, y);
  }

  lemma InverseFrom(s: int, p: int, x: int, y: int)
    requires p > 1 && s % p * x + p * y == 1
    ensures (s * x) % p == 1
  {
    var q := s / p;
    assert s == p * q + s % p;
    assert (p * q + s % p) * x == p * (q * x) + s % p * x;
    assert p * (q * x) - p * y == p * (q * x - y);
    ModIs(s * x, p, q * x - y, 1);
  }
}

/** Powers of two, and the numbers bytes stand for. */
module PowersOfTwo {
  import opened Wrappers
  import opened Vectors

  lemma Pow2Next(k: nat)
    ensures Pow2(k + 1) == 2 * Pow2(k)
  {
  }

  lemma SmallPowers()
    ensures Pow2(0) == 1 && Pow2(1) == 2 && Pow2(2) == 4 && Pow2(3) == 8 && Pow2(4) == 16 && Pow2(5) == 32
    ensures Pow2(6) == 64 && Pow2(7) == 128 && Pow2(8) == 256
  {
  }

  lemma DoubleDigit(d: int, p: int)
    ensures d * (2 * p) == 2 * (d * p)
  {
  }

  lemma {:induction false} Pow2Add(m: nat, n: nat)
    ensures Pow2(m + n) == Pow2(m) * Pow2(n)
  {
    if n > 0 {
      Pow2Add(m, n - 1);
      DoubleDigit(Pow2(m), Pow2(n - 1));
    }
  }

  /** The number some bytes stand for, the least significant first. */
  function LittleEndian(bytes: seq<byte>): nat {
    if bytes == [] then 0 else bytes[0] + 256 * LittleEndian(bytes[1..])
  }

  /** So many bytes of a number, the least significant first. */
  function LittleBytes(v: nat, n: nat): (bytes: seq<byte>)
    ensures |bytes| == n
  {
    if n == 0 then [] else [v % 256] + LittleBytes(v / 256, n - 1)
  }

  // A number comes back from its bytes, if there are enough of them.
  lemma {:induction false} LittleBytesStandFor(v: nat, n: nat)
    requires v < Pow2(8 * n)
    ensures LittleEndian(LittleBytes(v, n)) == v
  {
    hide Pow2;
    if n == 0 {
      SmallPowers();
    } else {
      Pow2Byte(n - 1);
      LittleBytesStandFor(v / 256, n - 1);
      assert LittleBytes(v, n)[1..] == LittleBytes(v / 256, n - 1);
    }
  }

  lemma {:induction false} BytesOfTheirNumber(bytes: seq<byte>)
    ensures LittleBytes(LittleEndian(bytes), |bytes|) == bytes
  {
    if bytes != [] {
      BytesOfTheirNumber(bytes[1..]);
    }
  }

  /** The exclusive or, bit by bit. */
  function Xor(a: nat, b: nat): nat {
    if a == 0 && b == 0 then 0 else XorDigit(a, b) + 2 * Xor(a / 2, b / 2)
  }

  function XorDigit(a: nat, b: nat): (d: nat)
    ensures d < 2
  {
    (a % 2 + b % 2) % 2
  }

  lemma XorStep(a: nat, b: nat)
    ensures Xor(a, b) % 2 == XorDigit(a, b) && Xor(a, b) / 2 == Xor(a / 2, b / 2)
  {
    hide *;
    XorUnfolds(a, b);
    DigitThenRest(XorDigit(a, b), Xor(a / 2, b / 2));
  }

  lemma XorUnfolds(a: nat, b: nat)
    ensures Xor(a, b) == XorDigit(a, b) + 2 * Xor(a / 2, b / 2)
  {
  }

  lemma DigitThenRest(d: nat, rest: nat)
    requires d < 2
    ensures (d + 2 * rest) % 2 == d && (d + 2 * rest) / 2 == rest
  {
  }

  lemma XorDigitTwice(a: nat, b: nat, c: nat)
    requires c % 2 == XorDigit(a, b)
    ensures XorDigit(c, b) == a % 2
  {
  }

  lemma {:induction false} XorTwice(a: nat, b: nat)
    ensures Xor(Xor(a, b), b) == a
    decreases a + b
  {
    hide XorDigit;
    if a == 0 && b == 0 {
      assert Xor(0, 0) == 0;
    } else {
      hide Xor;
      XorTwice(a / 2, b / 2);
      XorStep(a, b);
      XorStep(Xor(a, b), b);
      XorDigitTwice(a, b, Xor(a, b));
    }
  }

  lemma {:induction false} XorBound(a: nat, b: nat, k: nat)
    requires a < Pow2(k) && b < Pow2(k)
    ensures Xor(a, b) < Pow2(k)
  {
    if k == 0 {
      assert Pow2(0) == 1;
    } else {
      Pow2Next(k - 1);
      XorBound(a / 2, b / 2, k - 1);
    }
  }

  lemma {:induction false} XorSelf(a: nat)
    ensures Xor(a, a) == 0
  {
    if a != 0 {
      XorSelf(a / 2);
    }
  }

  function Zeros(n: nat): (r: seq<byte>)
    ensures |r| == n
    ensures forall i :: 0 <= i < n ==> r[i] == 0
  {
    seq(n, i => 0)
  }

  lemma {:induction false} LittleEndianBound(bytes: seq<byte>)
    ensures LittleEndian(bytes) < Pow2(8 * |bytes|)
  {
    hide Pow2;
    if bytes == [] {
      SmallPowers();
    } else {
      LittleEndianBound(bytes[1..]);
      Pow2Byte(|bytes| - 1);
    }
  }

  lemma Pow2Byte(n: nat)
    ensures Pow2(8 * (n + 1)) == 256 * Pow2(8 * n)
  {
    hide Pow2;
    Pow2Add(8 * n, 8);
    SmallPowers();
    Pow2Next(5);
    Pow2Next(6);
    Pow2Next(7);
  }

  lemma {:induction false} LittleEndianSnoc(bytes: seq<byte>, n: nat)
    requires n < |bytes|
    ensures LittleEndian(bytes[..n + 1]) == LittleEndian(bytes[..n]) + Pow2(8 * n) * bytes[n]
  {
    hide Pow2;
    if n == 0 {
      SmallPowers();
      assert bytes[..1] == [bytes[0]] && bytes[..0] == [] && [bytes[0]][1..] == [];
      assert LittleEndian([bytes[0]]) == bytes[0] + 256 * LittleEndian([bytes[0]][1..]);
    } else {
      LittleEndianSnoc(bytes[1..], n - 1);
      assert bytes[..n + 1][1..] == bytes[1..][..n] && bytes[..n][1..] == bytes[1..][..n - 1];
      Pow2Byte(n - 1);
      TwoHundredFiftySix(LittleEndian(bytes[1..][..n - 1]), Pow2(8 * (n - 1)), bytes[n]);
    }
  }

  lemma {:induction false} LittleEndianSplit(bytes: seq<byte>, n: nat)
    requires n <= |bytes|
    ensures LittleEndian(bytes) == LittleEndian(bytes[..n]) + Pow2(8 * n) * LittleEndian(bytes[n..])
  {
    hide Pow2;
    if n == 0 {
      SmallPowers();
      assert bytes[0..] == bytes;
    } else {
      LittleEndianSplit(bytes[1..], n - 1);
      assert bytes[..n][1..] == bytes[1..][..n - 1] && bytes[1..][n - 1..] == bytes[n..];
      Pow2Byte(n - 1);
      TwoHundredFiftySix(LittleEndian(bytes[1..][..n - 1]), Pow2(8 * (n - 1)), LittleEndian(bytes[n..]));
    }
  }

  lemma TwoHundredFiftySix(x: int, p: int, t: int)
    ensures 256 * (x + p * t) == 256 * x + 256 * p * t
  {
  }
}
