/** ringct/bulletproofs/src/core.rs and batch_verifier.rs. */
module Accumulator {
  import opened Ed25519
  import opened Vectors

  /** A coefficient for the high half of a folded vector, and one for its low half. */
  type Challenge = (Scalar, Scalar)

  /**
  The coefficient of generator `i` after folding once per challenge, high halves of earlier rounds
  being more significant bits of `i`.
   */
  function ProductAt(challenges: seq<Challenge>, i: nat): Scalar
    requires i < Pow2(|challenges|)
  {
    if challenges == [] then 1
    else
      var last := |challenges| - 1;
      Child(ProductAt(challenges[..last], i / 2), challenges[last], i)
  }

  function Coefficients(challenges: seq<Challenge>): (r: Vector)
    ensures |r| == Pow2(|challenges|)
  {
    seq(Pow2(|challenges|), i requires 0 <= i < Pow2(|challenges|) => ProductAt(challenges, i))
  }

  /** The entry `k` made from its parent in the table before it. */
  function Child(parent: Scalar, challenge: Challenge, k: nat): Scalar {
    parent * (if k % 2 == 1 then challenge.0 else challenge.1)
  }

  /**
  The body of the loop over challenges: doubles the first `size` entries in place, from the last
  slot down, so that an entry is read before it is overwritten.
   */
  method ExpandColumn(products: array<Scalar>, challenge: Challenge, size: nat)
    requires 1 <= size && 2 * size <= products.Length
    modifies products
    ensures forall k :: 0 <= k < 2 * size ==> products[k] == Child(old(products[..])[k / 2], challenge, k)
    ensures forall k :: 2 * size <= k < products.Length ==> products[k] == old(products[k])
  {
    hide Child;
    ghost var was := products[..];
    ghost var left := size;
    var slots := 2 * size - 1;
    while slots > 0
      invariant 0 <= left <= size && slots == if left == 0 then 0 else 2 * left - 1
      invariant forall k :: 2 * left <= k < 2 * size ==> products[k] == Child(was[k / 2], challenge, k)
      invariant forall k :: 0 <= k < 2 * left ==> products[k] == was[k]
      invariant forall k :: 2 * size <= k < products.Length ==> products[k] == was[k]
    {
      left := left - 1;
      assert slots / 2 == left && (slots - 1) / 2 == left;
      assert products[left] == was[left];
      ChildPair(was[left], challenge, left);
      products[slots] := products[slots / 2] * challenge.0;
      products[slots - 1] := products[slots / 2] * challenge.1;
      slots := if slots < 2 then 0 else slots - 2;
    }
  }

  lemma ChildPair(parent: Scalar, challenge: Challenge, left: nat)
    ensures Child(parent, challenge, 2 * left + 1) == parent * challenge.0
    ensures Child(parent, challenge, 2 * left) == parent * challenge.1
  {
  }

  method ChallengeProducts(challenges: seq<Challenge>) returns (res: seq<Scalar>)
    ensures res == Coefficients(challenges)
  {
    var products := new Scalar[Pow2(|challenges|)](_ => 1);

    if challenges != [] {
      products[0] := challenges[0].1;
      products[1] := challenges[0].0;
      Pow2Monotone(1, |challenges|);
      FirstChallenge(challenges);

      for j := 1 to |challenges|
        invariant Pow2(j) <= products.Length
        invariant forall k :: 0 <= k < Pow2(j) ==> products[k] == ProductAt(challenges[..j], k)
      {
        Pow2Monotone(j + 1, |challenges|);
        ghost var was := products[..];
        ExpandColumn(products, challenges[j], Pow2(j));
        forall k | 0 <= k < Pow2(j + 1)
          ensures products[k] == ProductAt(challenges[..j + 1], k)
        {
          assert was[k / 2] == ProductAt(challenges[..j], k / 2);
          ProductStep(challenges, j, k);
        }
      }
      assert challenges[..|challenges|] == challenges;
    }
    res := products[..];
  }

  lemma FirstChallenge(challenges: seq<Challenge>)
    requires challenges != []
    ensures ProductAt(challenges[..1], 0) == challenges[0].1
    ensures ProductAt(challenges[..1], 1) == challenges[0].0
  {
    assert challenges[..1][..0] == [];
  }

  lemma ProductStep(challenges: seq<Challenge>, j: nat, k: nat)
    requires j < |challenges| && k < Pow2(j + 1)
    ensures ProductAt(challenges[..j + 1], k) ==
            Child(ProductAt(challenges[..j], k / 2), challenges[j], k)
  {
    assert challenges[..j + 1][..j] == challenges[..j];
  }

  // ---------------------------------------------------------------------------------------------
  // What the table means: the generators a prover ends up with after folding its vectors in halves.

  /** The vector folded once per challenge, first challenge first. */
  function FoldAll(g: Vector, challenges: seq<Challenge>): (r: Vector)
    requires |g| == Pow2(|challenges|)
    ensures |r| == 1
    decreases |challenges|
  {
    if challenges == [] then g else FoldAll(FoldOnce(g, challenges[0]), challenges[1..])
  }

  function FoldOnce(g: Vector, challenge: Challenge): (r: Vector)
    ensures |r| == |g| / 2
  {
    Lin(challenge.1, Low(g), challenge.0, High(g))
  }

  /** The halves `split` returns; only vectors of even length are split. */
  function Low(g: Vector): (r: Vector)
    ensures |r| == |g| / 2
  {
    g[..|g| / 2]
  }

  function High(g: Vector): (r: Vector)
    ensures |r| == |g| / 2
  {
    g[|g| / 2..2 * (|g| / 2)]
  }

  lemma DotHalves(a: Vector, b: Vector)
    requires |a| == |b| && |a| % 2 == 0
    ensures Dot(a, b) == Dot(Low(a), Low(b)) + Dot(High(a), High(b))
  {
    DotSplit(a, b, |a| / 2);
    assert a[|a| / 2..] == High(a) && b[|b| / 2..] == High(b);
  }

  // The first challenge decides the most significant bit.
  lemma {:induction false} ProductAtFirst(challenges: seq<Challenge>, i: nat)
    requires challenges != [] && i < Pow2(|challenges|)
    ensures var half := Pow2(|challenges| - 1);
            ProductAt(challenges, i) ==
            if i < half then ProductAt(challenges[1..], i) * challenges[0].1
            else ProductAt(challenges[1..], i - half) * challenges[0].0
    decreases |challenges|
  {
    hide Child, Pow2;
    var last := |challenges| - 1;
    Pow2Half(last);
    Pow2Half(|challenges|);
    if last == 0 {
      assert challenges[..0] == [] == challenges[1..];
      SingleProduct(challenges, i);
    } else {
      var half := Pow2(last);
      ProductAtFirst(challenges[..last], i / 2);
      assert challenges[..last][1..] == challenges[1..][..last - 1];
      ProductAtLast(challenges, i);
      if i < half {
        ProductAtLast(challenges[1..], i);
        ChildScales(ProductAt(challenges[1..][..last - 1], i / 2), challenges[0].1, challenges[last], i);
      } else {
        assert (i - half) / 2 == i / 2 - Pow2(last - 1) && (i - half) % 2 == i % 2;
        ProductAtLast(challenges[1..], i - half);
        ChildScales(ProductAt(challenges[1..][..last - 1], (i - half) / 2), challenges[0].0, challenges[last], i);
        ChildParity(ProductAt(challenges[1..][..last - 1], (i - half) / 2), challenges[last], i, i - half);
      }
    }
  }

  lemma SingleProduct(challenges: seq<Challenge>, i: nat)
    requires |challenges| == 1 && i < 2
    ensures ProductAt(challenges, i) == if i == 0 then challenges[0].1 else challenges[0].0
    ensures ProductAt([], 0) == 1
  {
    assert challenges[..0] == [];
  }

  lemma ProductAtLast(challenges: seq<Challenge>, i: nat)
    requires challenges != [] && i < Pow2(|challenges|)
    ensures var last := |challenges| - 1;
            i / 2 < Pow2(last) && ProductAt(challenges, i) == Child(ProductAt(challenges[..last], i / 2), challenges[last], i)
  {
  }

  lemma ChildScales(parent: Scalar, x: Scalar, challenge: Challenge, k: nat)
    ensures Child(parent * x, challenge, k) == Child(parent, challenge, k) * x
  {
    var y := if k % 2 == 1 then challenge.0 else challenge.1;
    assert parent * x * y == parent * y * x;
  }

  lemma ChildParity(parent: Scalar, challenge: Challenge, i: nat, j: nat)
    requires i % 2 == j % 2
    ensures Child(parent, challenge, i) == Child(parent, challenge, j)
  {
  }

  lemma CoefficientsFirst(challenges: seq<Challenge>)
    requires challenges != []
    ensures Coefficients(challenges) ==
            Scale(Coefficients(challenges[1..]), challenges[0].1) + Scale(Coefficients(challenges[1..]), challenges[0].0)
  {
    forall i | 0 <= i < Pow2(|challenges|)
      ensures Coefficients(challenges)[i] ==
              (Scale(Coefficients(challenges[1..]), challenges[0].1) + Scale(Coefficients(challenges[1..]), challenges[0].0))[i]
    {
      ProductAtFirst(challenges, i);
    }
  }

  // The table gives the coefficients of the fully folded generator.
  lemma {:induction false} FoldAllIsDot(g: Vector, challenges: seq<Challenge>)
    requires |g| == Pow2(|challenges|)
    ensures FoldAll(g, challenges)[0] == Dot(Coefficients(challenges), g)
    decreases |challenges|
  {
    assert challenges == [] ==> Coefficients(challenges)[0] == 1;
    hide Dot, Coefficients, Sum;
    if challenges == [] {
      SingleDot(Coefficients(challenges), g);
    } else {
      var (hi, lo) := challenges[0];
      var half := |g| / 2;
      var rest := Coefficients(challenges[1..]);
      var low, high := Low(g), High(g);
      FoldAllIsDot(FoldOnce(g, challenges[0]), challenges[1..]);
      DotLinRight(lo, low, hi, high, rest);
      CoefficientsFirst(challenges);
      DotConcat(Scale(rest, lo), low, Scale(rest, hi), high);
      DotScale(lo, rest, low);
      DotScale(hi, rest, high);
      assert low + high == g;
    }
  }

  lemma SingleDot(a: Vector, b: Vector)
    requires |a| == |b| == 1
    ensures Dot(a, b) == a[0] * b[0]
  {
    var t := Times(a, b);
    assert t[1..] == [] && Sum(t) == t[0] + Sum(t[1..]);
  }

  function Swapped(challenges: seq<Challenge>): (r: seq<Challenge>)
    ensures |r| == |challenges|
    ensures forall i :: 0 <= i < |r| ==> r[i] == (challenges[i].1, challenges[i].0)
  {
    seq(|challenges|, i requires 0 <= i < |challenges| => (challenges[i].1, challenges[i].0))
  }

  // Read backwards, the table is the one with every challenge inverted.
  lemma {:induction false} ProductAtMirrored(challenges: seq<Challenge>, i: nat)
    requires i < Pow2(|challenges|)
    ensures ProductAt(Swapped(challenges), i) == ProductAt(challenges, Pow2(|challenges|) - 1 - i)
    decreases |challenges|
  {
    if challenges != [] {
      var last := |challenges| - 1;
      var mirror := Pow2(|challenges|) - 1 - i;
      assert Swapped(challenges)[..last] == Swapped(challenges[..last]);
      ProductAtMirrored(challenges[..last], i / 2);
      assert Pow2(|challenges|) == 2 * Pow2(last);
      assert mirror / 2 == Pow2(last) - 1 - i / 2;
      assert mirror % 2 == 1 - i % 2;
    }
  }

  lemma CoefficientsMirrored(challenges: seq<Challenge>)
    ensures Coefficients(Swapped(challenges)) == Reverse(Coefficients(challenges))
  {
    forall i | 0 <= i < Pow2(|challenges|)
      ensures Coefficients(Swapped(challenges))[i] == Reverse(Coefficients(challenges))[i]
    {
      ProductAtMirrored(challenges, i);
    }
  }

  // Entries i and len - 1 - i are inverses of each other.
  lemma {:induction false} MirroredEntriesAreInverse(challenges: seq<Challenge>, i: nat)
    requires i < Pow2(|challenges|)
    requires forall k :: 0 <= k < |challenges| ==> Eq(challenges[k].0 * challenges[k].1, 1)
    ensures Eq(ProductAt(challenges, i) * ProductAt(challenges, Pow2(|challenges|) - 1 - i), 1)
    decreases |challenges|
  {
    if challenges != [] {
      var last := |challenges| - 1;
      var mirror := Pow2(|challenges|) - 1 - i;
      MirroredEntriesAreInverse(challenges[..last], i / 2);
      assert mirror / 2 == Pow2(last) - 1 - i / 2;
      assert mirror % 2 == 1 - i % 2;
      var p, q := ProductAt(challenges[..last], i / 2), ProductAt(challenges[..last], mirror / 2);
      var (hi, lo) := challenges[last];
      EqMul(p * q, 1, hi * lo, 1);
      Interchange(p, q, hi, lo);
    }
  }

  lemma Interchange(p: int, q: int, x: int, y: int)
    ensures (p * x) * (q * y) == (p * q) * (x * y)
    ensures (p * y) * (q * x) == (p * q) * (x * y)
  {
  }

  // ---------------------------------------------------------------------------------------------
  // The accumulator of a batch.

  datatype Generators = Generators(G: seq<SubPoint>, H: seq<SubPoint>)

  /** The sum of a list of (scalar, point) pairs. */
  function Msm(terms: seq<(Scalar, SubPoint)>): SubPoint {
    Sum(seq(|terms|, i requires 0 <= i < |terms| => terms[i].0 * terms[i].1))
  }

  lemma MsmSnoc(terms: seq<(Scalar, SubPoint)>, scalar: Scalar, point: SubPoint)
    ensures Msm(terms + [(scalar, point)]) == Msm(terms) + scalar * point
  {
    var s := seq(|terms|, i requires 0 <= i < |terms| => terms[i].0 * terms[i].1);
    var more := terms + [(scalar, point)];
    var s' := seq(|more|, i requires 0 <= i < |more| => more[i].0 * more[i].1);
    assert s' == s + [scalar * point];
    SumConcat(s, [scalar * point]);
    assert [scalar * point][1..] == [];
  }

  lemma MsmSingle(a: Scalar, p: SubPoint)
    ensures Msm([(a, p)]) == a * p
  {
    MsmSnoc([], a, p);
    assert [] + [(a, p)] == [(a, p)];
  }

  lemma MsmPair(a: Scalar, p: SubPoint, b: Scalar, q: SubPoint)
    ensures Msm([(a, p), (b, q)]) == a * p + b * q
  {
    MsmSingle(a, p);
    MsmSnoc([(a, p)], b, q);
    assert [(a, p)] + [(b, q)] == [(a, p), (b, q)];
  }

  lemma MsmConcat(a: seq<(Scalar, SubPoint)>, b: seq<(Scalar, SubPoint)>)
    ensures Msm(a + b) == Msm(a) + Msm(b)
  {
    var sa := seq(|a|, i requires 0 <= i < |a| => a[i].0 * a[i].1);
    var sb := seq(|b|, i requires 0 <= i < |b| => b[i].0 * b[i].1);
    var ab := a + b;
    assert seq(|ab|, i requires 0 <= i < |ab| => ab[i].0 * ab[i].1) == sa + sb;
    SumConcat(sa, sb);
  }

  function Zip(scalars: Vector, points: Vector): (terms: seq<(Scalar, SubPoint)>)
    requires |scalars| == |points|
    ensures |terms| == |scalars|
    ensures forall i :: 0 <= i < |terms| ==> terms[i] == (scalars[i], points[i])
  {
    seq(|scalars|, i requires 0 <= i < |scalars| => (scalars[i], points[i]))
  }

  lemma MsmZip(scalars: Vector, points: Vector)
    requires |scalars| == |points|
    ensures Msm(Zip(scalars, points)) == Dot(scalars, points)
  {
    var terms := Zip(scalars, points);
    assert seq(|terms|, i requires 0 <= i < |terms| => terms[i].0 * terms[i].1) == Times(scalars, points);
  }

  class InternalBatchVerifier {
    var g: Scalar
    var h: Scalar
    var gBold: seq<Scalar>
    var hBold: seq<Scalar>
    var other: seq<(Scalar, SubPoint)>

    constructor ()
      ensures g == 0 && h == 0 && gBold == [] && hBold == [] && other == []
    {
      g, h, gBold, hBold, other := 0, 0, [], [], [];
    }

    /** The point the queued terms sum to; a batch is accepted when it is the identity. */
    ghost function Eval(gPoint: SubPoint, hPoint: SubPoint, generators: Generators): SubPoint
      requires |gBold| <= |generators.G| && |hBold| <= |generators.H|
      reads this
    {
      g * gPoint + h * hPoint + Dot(gBold, generators.G[..|gBold|]) + Dot(hBold, generators.H[..|hBold|]) + Msm(other)
    }

    method Verify(gPoint: SubPoint, hPoint: SubPoint, generators: Generators) returns (accepted: bool)
      requires |gBold| <= |generators.G| && |hBold| <= |generators.H|
      ensures accepted <==> Eq(Eval(gPoint, hPoint, generators), 0)
    {
      var terms: seq<(Scalar, SubPoint)> := [(g, gPoint), (h, hPoint)];
      MsmPair(g, gPoint, h, hPoint);
      for i := 0 to |gBold|
        invariant Msm(terms) == g * gPoint + h * hPoint + Dot(gBold[..i], generators.G[..i])
      {
        MsmSnoc(terms, gBold[i], generators.G[i]);
        DotPrefix(gBold, generators.G, i);
        terms := terms + [(gBold[i], generators.G[i])];
      }
      assert gBold[..|gBold|] == gBold;
      ghost var sum := Msm(terms);
      for i := 0 to |hBold|
        invariant Msm(terms) == sum + Dot(hBold[..i], generators.H[..i])
      {
        MsmSnoc(terms, hBold[i], generators.H[i]);
        DotPrefix(hBold, generators.H, i);
        terms := terms + [(hBold[i], generators.H[i])];
      }
      assert hBold[..|hBold|] == hBold;
      MsmConcat(terms, other);
      terms := terms + other;
      accepted := Red(Msm(terms)) == 0;
    }
  }

  lemma DotPrefix(a: Vector, b: Vector, i: nat)
    requires i < |a| && i < |b|
    ensures Dot(a[..i + 1], b[..i + 1]) == Dot(a[..i], b[..i]) + a[i] * b[i]
  {
    DotSnoc(a[..i], b[..i], a[i], b[i]);
    assert a[..i] + [a[i]] == a[..i + 1] && b[..i] + [b[i]] == b[..i + 1];
  }

  lemma AddedDot(before: Vector, after: Vector, terms: Vector, g: Vector)
    requires |terms| <= |before| == |after| == |g|
    requires forall i :: 0 <= i < |terms| ==> after[i] == before[i] + terms[i]
    requires forall i :: |terms| <= i < |before| ==> after[i] == before[i]
    ensures Dot(after, g) == Dot(before, g) + Dot(terms, g[..|terms|])
  {
    hide Dot, Sum;
    var n := |terms|;
    DotSplit(before, g, n);
    DotSplit(after, g, n);
    assert after[n..] == before[n..];
    assert after[..n] == Plus(before[..n], terms);
    DotPlus(before[..n], terms, g[..n]);
  }

  /** The first `n` terms have been added to the rows, and nothing else has changed. */
  ghost predicate PartlyAdded(before: Vector, after: Vector, terms: Vector, n: nat) {
    && n <= |terms| <= |before| == |after|
    && (forall k :: 0 <= k < n ==> after[k] == before[k] + terms[k])
    && (forall k :: n <= k < |before| ==> after[k] == before[k])
  }

  lemma NoneAdded(before: Vector, terms: Vector)
    requires |terms| <= |before|
    ensures PartlyAdded(before, before, terms, 0)
  {
  }

  lemma AddOne(before: Vector, after: Vector, terms: Vector, n: nat)
    requires PartlyAdded(before, after, terms, n) && n < |terms|
    ensures PartlyAdded(before, after[n := after[n] + terms[n]], terms, n + 1)
  {
  }

  lemma AllAdded(before: Vector, after: Vector, scaled: Vector, weight: Scalar, n: nat, h: Vector)
    requires n == |scaled| && PartlyAdded(before, after, Scale(scaled, weight), n)
    requires |h| == |before|
    ensures Dot(after, h) == Dot(before, h) + weight * Dot(scaled, h[..n])
  {
    hide Dot, Scale;
    AddedDot(before, after, Scale(scaled, weight), h);
    DotScale(weight, scaled, h[..n]);
  }
}
