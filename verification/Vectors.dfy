/** The vector arithmetic of ringct/bulletproofs/src/scalar_vector.rs and point_vector.rs. */
module Vectors {

  type Vector = seq<int>

  function Sum(a: Vector): int {
    if a == [] then 0 else a[0] + Sum(a[1..])
  }

  // Both `inner_product` and the multi-scalar multiplication of a list of pairs.
  function Dot(a: Vector, b: Vector): int
    requires |a| == |b|
  {
    Sum(Times(a, b))
  }

  // x * a + y * b, element by element.
  function Lin(x: int, a: Vector, y: int, b: Vector): (r: Vector)
    requires |a| == |b|
    ensures |r| == |a|
    ensures forall i :: 0 <= i < |a| ==> r[i] == x * a[i] + y * b[i]
  {
    seq(|a|, i requires 0 <= i < |a| => x * a[i] + y * b[i])
  }

  function Scale(a: Vector, x: int): (r: Vector)
    ensures |r| == |a|
    ensures forall i :: 0 <= i < |a| ==> r[i] == a[i] * x
  {
    seq(|a|, i requires 0 <= i < |a| => a[i] * x)
  }

  // `scalar_vector + scalar`
  function Shift(a: Vector, x: int): (r: Vector)
    ensures |r| == |a|
    ensures forall i :: 0 <= i < |a| ==> r[i] == a[i] + x
  {
    seq(|a|, i requires 0 <= i < |a| => a[i] + x)
  }

  function Plus(a: Vector, b: Vector): (r: Vector)
    requires |a| == |b|
    ensures |r| == |a|
    ensures forall i :: 0 <= i < |a| ==> r[i] == a[i] + b[i]
  {
    seq(|a|, i requires 0 <= i < |a| => a[i] + b[i])
  }

  // The element-wise product.
  function Times(a: Vector, b: Vector): (r: Vector)
    requires |a| == |b|
    ensures |r| == |a|
    ensures forall i :: 0 <= i < |a| ==> r[i] == a[i] * b[i]
  {
    seq(|a|, i requires 0 <= i < |a| => a[i] * b[i])
  }

  function Constant(x: int, n: nat): (r: Vector)
    ensures |r| == n
    ensures forall i :: 0 <= i < n ==> r[i] == x
  {
    seq(n, i => x)
  }

  function Reverse(a: Vector): (r: Vector)
    ensures |r| == |a|
    ensures forall i :: 0 <= i < |a| ==> r[i] == a[|a| - 1 - i]
  {
    seq(|a|, i requires 0 <= i < |a| => a[|a| - 1 - i])
  }

  // For use where the body of `Dot` is hidden.
  lemma DotIsSum(a: Vector, b: Vector)
    requires |a| == |b|
    ensures Dot(a, b) == Sum(Times(a, b))
  {
  }

  // `weighted_inner_product`
  function Dot3(a: Vector, b: Vector, y: Vector): int
    requires |a| == |b| == |y|
  {
    Sum(Times(Times(a, b), y))
  }

  function Pow(x: int, n: nat): int {
    if n == 0 then 1 else Pow(x, n - 1) * x
  }

  function Pow2(n: nat): (r: nat)
    ensures r >= 1
    ensures n > 0 ==> r >= 2
  {
    if n == 0 then 1 else 2 * Pow2(n - 1)
  }

  function PowVec(x: int, n: nat): (r: Vector)
    ensures |r| == n
    ensures forall i :: 0 <= i < n ==> r[i] == Pow(x, i)
  {
    seq(n, i requires 0 <= i < n => Pow(x, i))
  }

  lemma {:induction false} PowAdd(x: int, m: nat, n: nat)
    ensures Pow(x, m + n) == Pow(x, m) * Pow(x, n)
  {
    if n > 0 {
      PowAdd(x, m, n - 1);
      assert Pow(x, m + n) == Pow(x, m) * Pow(x, n - 1) * x;
    }
  }

  lemma {:induction false} SumConcat(a: Vector, b: Vector)
    ensures Sum(a + b) == Sum(a) + Sum(b)
  {
    if a == [] {
      assert a + b == b;
    } else {
      assert (a + b)[1..] == a[1..] + b;
      SumConcat(a[1..], b);
    }
  }

  lemma {:induction false} SumLin(x: int, a: Vector, y: int, b: Vector)
    requires |a| == |b|
    ensures Sum(Lin(x, a, y, b)) == x * Sum(a) + y * Sum(b)
  {
    if a != [] {
      assert Lin(x, a, y, b)[1..] == Lin(x, a[1..], y, b[1..]);
      SumLin(x, a[1..], y, b[1..]);
    }
  }

  lemma DotConcat(a: Vector, b: Vector, c: Vector, d: Vector)
    requires |a| == |b| && |c| == |d|
    ensures Dot(a + c, b + d) == Dot(a, b) + Dot(c, d)
  {
    SumConcat(Times(a, b), Times(c, d));
    assert Times(a + c, b + d) == Times(a, b) + Times(c, d);
  }

  lemma DotSplit(a: Vector, b: Vector, k: nat)
    requires |a| == |b| && k <= |a|
    ensures Dot(a, b) == Dot(a[..k], b[..k]) + Dot(a[k..], b[k..])
  {
    DotConcat(a[..k], b[..k], a[k..], b[k..]);
    assert a[..k] + a[k..] == a && b[..k] + b[k..] == b;
  }

  lemma DotComm(a: Vector, b: Vector)
    requires |a| == |b|
    ensures Dot(a, b) == Dot(b, a)
  {
    assert Times(a, b) == Times(b, a);
  }

  lemma DotLin(x: int, a: Vector, y: int, b: Vector, c: Vector)
    requires |a| == |b| == |c|
    ensures Dot(Lin(x, a, y, b), c) == x * Dot(a, c) + y * Dot(b, c)
  {
    forall i | 0 <= i < |a|
      ensures Times(Lin(x, a, y, b), c)[i] == Lin(x, Times(a, c), y, Times(b, c))[i]
    {
      Distribute(x, a[i], y, b[i], c[i]);
    }
    assert Times(Lin(x, a, y, b), c) == Lin(x, Times(a, c), y, Times(b, c));
    SumLin(x, Times(a, c), y, Times(b, c));
  }

  lemma Distribute(x: int, a: int, y: int, b: int, c: int)
    ensures (x * a + y * b) * c == x * (a * c) + y * (b * c)
  {
  }

  // The second vector folded.
  lemma DotLinRight(x: int, a: Vector, y: int, b: Vector, c: Vector)
    requires |a| == |b| == |c|
    ensures Dot(c, Lin(x, a, y, b)) == x * Dot(c, a) + y * Dot(c, b)
  {
    DotComm(c, Lin(x, a, y, b));
    DotComm(c, a);
    DotComm(c, b);
    DotLin(x, a, y, b, c);
  }

  // Both vectors folded at once.
  lemma DotCross(x: int, a: Vector, y: int, b: Vector, z: int, c: Vector, w: int, d: Vector)
    requires |a| == |b| == |c| == |d|
    ensures Dot(Lin(x, a, y, b), Lin(z, c, w, d)) ==
            x * (z * Dot(a, c) + w * Dot(a, d)) + y * (z * Dot(b, c) + w * Dot(b, d))
  {
    var cd := Lin(z, c, w, d);
    DotLin(x, a, y, b, cd);
    DotLinRight(z, c, w, d, a);
    DotLinRight(z, c, w, d, b);
  }

  lemma DotScale(x: int, a: Vector, b: Vector)
    requires |a| == |b|
    ensures Dot(Scale(a, x), b) == x * Dot(a, b)
  {
    assert Scale(a, x) == Lin(x, a, 0, a);
    DotLin(x, a, 0, a, b);
  }

  lemma DotPlus(a: Vector, b: Vector, c: Vector)
    requires |a| == |b| == |c|
    ensures Dot(Plus(a, b), c) == Dot(a, c) + Dot(b, c)
  {
    assert Plus(a, b) == Lin(1, a, 1, b);
    DotLin(1, a, 1, b, c);
  }

  // A weight can move from one vector to the other.
  lemma DotTimes(a: Vector, w: Vector, b: Vector)
    requires |a| == |w| == |b|
    ensures Dot(a, Times(w, b)) == Dot(Times(a, w), b)
  {
    forall i | 0 <= i < |a|
      ensures Times(a, Times(w, b))[i] == Times(Times(a, w), b)[i]
    {
      assert a[i] * (w[i] * b[i]) == a[i] * w[i] * b[i];
    }
    assert Times(a, Times(w, b)) == Times(Times(a, w), b);
  }

  lemma DotConstant(x: int, a: Vector)
    ensures Dot(Constant(x, |a|), a) == x * Sum(a)
  {
    assert Times(Constant(x, |a|), a) == Lin(x, a, 0, a);
    SumLin(x, a, 0, a);
  }

  // One more pair at the end.
  lemma DotSnoc(a: Vector, b: Vector, x: int, y: int)
    requires |a| == |b|
    ensures Dot(a + [x], b + [y]) == Dot(a, b) + x * y
  {
    DotConcat(a, b, [x], [y]);
    var t := Times([x], [y]);
    assert t[1..] == [] && Sum(t) == t[0] + Sum(t[1..]);
  }

  lemma {:induction false} Pow2Monotone(m: nat, n: nat)
    requires m <= n
    ensures Pow2(m) <= Pow2(n)
  {
    if m < n {
      Pow2Monotone(m, n - 1);
    }
  }

  lemma Pow2Strict(i: nat, k: nat)
    requires i < k
    ensures Pow2(i) < Pow2(k)
  {
    Pow2Monotone(i, k - 1);
  }

  lemma ShiftDot(a: Vector, s: int, g: Vector)
    requires |a| == |g|
    ensures Dot(Shift(a, s), g) == Dot(a, g) + s * Sum(g)
  {
    hide *;
    assert Shift(a, s) == Plus(a, Constant(s, |g|));
    DotPlus(a, Constant(s, |g|), g);
    DotConstant(s, g);
  }

  lemma SumPrefix(a: Vector, i: nat)
    requires i < |a|
    ensures Sum(a[..i + 1]) == Sum(a[..i]) + a[i]
  {
    SumConcat(a[..i], [a[i]]);
    assert a[..i] + [a[i]] == a[..i + 1] && [a[i]][1..] == [];
  }

  lemma Pow2Half(k: nat)
    ensures k > 0 ==> Pow2(k) == 2 * Pow2(k - 1) && Pow2(k) > 1
    ensures k == 0 ==> Pow2(k) == 1
  {
  }
}
