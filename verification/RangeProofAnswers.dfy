/**
ringct/bulletproofs/src: the answers of a range proof to its challenges. What must vanish is affine in them, so that
two valid proofs which were the same until a challenge differ by what cancels.
 */
module RangeProofAnswers {
  import opened Wrappers
  import opened Ed25519
  import opened Vectors
  import opened Accumulator
  import opened RangeAlgebra
  import Orig = OriginalRangeProof
  import Bpp = PlusRangeProof
  import Ip = InnerProduct
  import Wip = WeightedInnerProduct

  function Differences(a: seq<int>, b: seq<int>): (r: seq<int>)
    requires |a| == |b|
    ensures |r| == |a|
  {
    seq(|a|, i requires 0 <= i < |a| => a[i] - b[i])
  }

  lemma {:induction false} ZSumDifference(z: Scalar, from: nat, a: seq<int>, b: seq<int>, k: nat)
    requires |a| == |b|
    ensures ZSum(z, from, a, k) - ZSum(z, from, b, k) == ZSum(z, from, Differences(a, b), k)
  {
    hide Pow;
    if k > 0 {
      ZSumDifference(z, from, a, b, k - 1);
    }
  }

  // Equation 65, for other commitments, points and answers.
  lemma Equation65Differs(c: Curve, V: seq<SubPoint>, V': seq<SubPoint>, m: nat, ySum: Scalar, z: Scalar, x: Scalar, T1: SubPoint,
                          T1': SubPoint, T2: SubPoint, T2': SubPoint, tauX: Scalar, tauX': Scalar, tHat: Scalar, tHat': Scalar)
    requires |V| == |V'|
    ensures Orig.Residual65(c, V', m, ySum, z, x, T1', T2', tauX', tHat') -
            Orig.Residual65(c, V, m, ySum, z, x, T1, T2, tauX, tHat) ==
            (tHat' - tHat) * c.h + (tauX' - tauX) - ZSum(z, 2, Differences(V', V), |V|) - x * (T1' - T1) - x * x * (T2' - T2)
  {
    hide ZSum, Differences;
    ZSumDifference(z, 2, V', V, |V|);
    Spread65(tHat, tHat', (z - z * z) * ySum, ZSum(z, 3, Repeat(Sum(Twos()), m), m), c.h, x, T1, T1', T2, T2');
  }

  lemma Spread65(t: int, t': int, y: int, twos: int, h: int, x: int, a: int, a': int, b: int, b': int)
    ensures (t' - y + twos) * h - (t - y + twos) * h == (t' - t) * h
    ensures x * a' - x * a == x * (a' - a) && x * x * b' - x * x * b == x * x * (b' - b)
  {
  }

  // Of proofs which agree in all they send before the challenge x, the one answer determines the other.
  lemma OneBlinding(c: Curve, generators: Generators, V: seq<Point>, p: Orig.Proof, p': Orig.Proof)
    requires c.Valid() && EnoughGenerators(generators) && IsStatement(V)
    requires Orig.Holds(c, generators, V, p) && Orig.Holds(c, generators, V, p')
    requires p.A == p'.A && p.S == p'.S && p.T1 == p'.T1 && p.T2 == p'.T2
    ensures Eq((p'.tHat - p.tHat) * c.h + (p'.tauX - p.tauX), 0)
  {
    hide Eq, Orig.Residual65, Orig.InitialTranscript, Orig.TranscriptAS, Orig.TranscriptT12, Orig.TranscriptTauX, Padded, PowVec,
         Orig.Equation66, Ip.Accepts, Sum, Scaled, ZSum;
    var m := Padded(|V|);
    PaddedFits(|V|, generators);
    var keys, keys' := Orig.DeriveKeys(c, V, p), Orig.DeriveKeys(c, V, p');
    var points := Orig.DecodePoints(c, p).value;
    var ySum := Sum(PowVec(keys.y, m * COMMITMENT_BITS));
    Equation65Differs(c, Scaled(V), Scaled(V), m, ySum, keys.z, keys.x, points.T1, points.T1, points.T2, points.T2, p.tauX, p'.tauX,
                      p.tHat, p'.tHat);
    NoDifference(keys.z, Scaled(V), |V|);
    EqAdd(Orig.Residual65(c, Scaled(V), m, ySum, keys.z, keys.x, points.T1, points.T2, p'.tauX, p'.tHat), 0,
          Orig.Residual65(c, Scaled(V), m, ySum, keys.z, keys.x, points.T1, points.T2, p.tauX, p.tHat), 0);
  }

  lemma {:induction false} NoDifference(z: Scalar, V: seq<int>, k: nat)
    ensures ZSum(z, 2, Differences(V, V), k) == 0
  {
    ZSumDifference(z, 2, V, V, k);
  }

  // Equation 66's point, for other points and answers.
  lemma Equation66Differs(c: Curve, g: Vector, h: Vector, A: SubPoint, A': SubPoint, S: SubPoint, S': SubPoint,
                          z: Scalar, x: Scalar, xIp: Scalar, yInvPow: Vector, zTwos: Vector, tHat: Scalar,
                          tHat': Scalar, mu: Scalar, mu': Scalar)
    requires |g| == |h| == |yInvPow| == |zTwos|
    ensures Orig.InnerPoint(c, g, h, A', S', z, x, xIp, yInvPow, zTwos, tHat', mu') -
            Orig.InnerPoint(c, g, h, A, S, z, x, xIp, yInvPow, zTwos, tHat, mu) ==
            (A' - A) + x * (S' - S) + xIp * (tHat' - tHat) * c.h - (mu' - mu)
  {
    hide Dot, Sum, Shift, Times;
    Spread66(x, S, S', xIp, tHat, tHat', c.h);
  }

  lemma Spread66(x: int, s: int, s': int, w: int, t: int, t': int, h: int)
    ensures x * s' - x * s == x * (s' - s) && w * t' * h - w * t * h == w * (t' - t) * h
  {
    assert w * t' * h - w * t * h == (w * t' - w * t) * h;
    assert w * t' - w * t == w * (t' - t);
  }

  // Of proofs which agree in all else, the last answers make the same combination of the folded generators.
  lemma OneInnerAnswer(c: Curve, generators: Generators, V: seq<Point>, p: Orig.Proof, a: Scalar, b: Scalar)
    requires c.Valid() && EnoughGenerators(generators) && IsStatement(V)
    requires Orig.Holds(c, generators, V, p) && Orig.Holds(c, generators, V, p.(ip := p.ip.(a := a, b := b)))
    ensures var n := Padded(|V|) * COMMITMENT_BITS;
            var keys := Orig.DeriveKeys(c, V, p);
            && n <= |generators.G| == |generators.H| && |p.ip.L| == |p.ip.R| && n == Pow2(|p.ip.L|)
            && var products := Coefficients(Ip.Challenges(c, keys.xIp, p.ip.L, p.ip.R));
               var g := Dot(products, generators.G[..n]);
               var h := Dot(Times(Reverse(products), PowVec(c.invert(keys.y), n)), generators.H[..n]);
               Eq(p.ip.a * g + p.ip.b * h + p.ip.a * p.ip.b * (keys.xIp * c.h), a * g + b * h + a * b * (keys.xIp * c.h))
  {
    hide Eq, Orig.Equation65, Orig.Equation66, Orig.DeriveKeys, Padded, PowVec, Pow2, Dot, Times,
         Coefficients, Ip.Challenges, Ip.Cross, Reverse, Orig.Holds, Ip.IsLog, Ip.Decodable;
    var p' := p.(ip := p.ip.(a := a, b := b));
    var m := Padded(|V|);
    var n := m * COMMITMENT_BITS;
    PaddedFits(|V|, generators);
    SameKeys(c, V, p, a, b);
    var keys := Orig.DeriveKeys(c, V, p);
    LastSum(c, generators, V, p);
    LastSum(c, generators, V, p');
    var products := Coefficients(Ip.Challenges(c, keys.xIp, p.ip.L, p.ip.R));
    var g := Dot(products, generators.G[..n]);
    var h := Dot(Times(Reverse(products), PowVec(c.invert(keys.y), n)), generators.H[..n]);
    var rest := Orig.Equation66(c, generators, m, keys, Orig.DecodePoints(c, p).value, p)
                + Ip.Cross(c, Ip.Challenges(c, keys.xIp, p.ip.L, p.ip.R), p.ip.L, p.ip.R);
    SameInner(c, generators, V, p, a, b);
    var one, other := p.ip.a * g + p.ip.b * h + p.ip.a * p.ip.b * (keys.xIp * c.h), a * g + b * h + a * b * (keys.xIp * c.h);
    assert Eq(rest - one, 0) && Eq(rest - other, 0);
    EqAdd(rest - other, 0, rest - one, 0);
    EqFromMultiple(other, other, 0);
    EqAdd(rest - other - (rest - one), 0, other, other);
  }

  lemma SameKeys(c: Curve, V: seq<Point>, p: Orig.Proof, a: Scalar, b: Scalar)
    requires c.Valid()
    ensures var p' := p.(ip := p.ip.(a := a, b := b));
            Orig.DeriveKeys(c, V, p') == Orig.DeriveKeys(c, V, p) && Orig.DecodePoints(c, p') == Orig.DecodePoints(c, p)
  {
    hide Orig.InitialTranscript, Orig.TranscriptAS, Orig.TranscriptT12, Orig.TranscriptTauX;
  }

  lemma SameInner(c: Curve, generators: Generators, V: seq<Point>, p: Orig.Proof, a: Scalar, b: Scalar)
    requires c.Valid() && EnoughGenerators(generators) && IsStatement(V) && Orig.DecodePoints(c, p).Some?
    requires Padded(|V|) * COMMITMENT_BITS <= |generators.G|
    ensures var p' := p.(ip := p.ip.(a := a, b := b));
            var keys, points := Orig.DeriveKeys(c, V, p), Orig.DecodePoints(c, p).value;
            Orig.Equation66(c, generators, Padded(|V|), keys, points, p') ==
            Orig.Equation66(c, generators, Padded(|V|), keys, points, p)
  {
    hide Orig.DeriveKeys, Padded, Orig.InnerPoint;
  }

  // What a valid proof's last sum is.
  lemma LastSum(c: Curve, generators: Generators, V: seq<Point>, p: Orig.Proof)
    requires c.Valid() && EnoughGenerators(generators) && IsStatement(V) && Orig.Holds(c, generators, V, p)
    ensures var m := Padded(|V|);
            var n := m * COMMITMENT_BITS;
            var keys := Orig.DeriveKeys(c, V, p);
            && n <= |generators.G| == |generators.H| && |p.ip.L| == |p.ip.R| && n == Pow2(|p.ip.L|)
            && Orig.DecodePoints(c, p).Some?
            && var challenges := Ip.Challenges(c, keys.xIp, p.ip.L, p.ip.R);
               var products := Coefficients(challenges);
               var g := Dot(products, generators.G[..n]);
               var h := Dot(Times(Reverse(products), PowVec(c.invert(keys.y), n)), generators.H[..n]);
               Eq(Orig.Equation66(c, generators, m, keys, Orig.DecodePoints(c, p).value, p) + Ip.Cross(c, challenges, p.ip.L, p.ip.R)
                  - (p.ip.a * g + p.ip.b * h + p.ip.a * p.ip.b * (keys.xIp * c.h)), 0)
  {
    hide Eq, Orig.Equation65, Orig.Equation66, Orig.DeriveKeys, Padded, PowVec, Pow2, Dot, Times,
         Coefficients, Ip.Challenges, Ip.Cross, Reverse, Ip.Replay;
    PaddedFits(|V|, generators);
    var m := Padded(|V|);
    var n := m * COMMITMENT_BITS;
    var keys := Orig.DeriveKeys(c, V, p);
    var statement := Ip.IpStatement(PowVec(c.invert(keys.y), n), keys.xIp);
    var challenges := Ip.Challenges(c, keys.xIp, p.ip.L, p.ip.R);
    var P := Orig.Equation66(c, generators, m, keys, Orig.DecodePoints(c, p).value, p);
    Ip.AcceptsIffResidualCancels(c, generators, n, statement, P, keys.xIp, p.ip, challenges);
    var products := Coefficients(challenges);
    assert products[..n] == products && Reverse(products)[..n] == Reverse(products);
    assert statement.hBoldWeights[..n] == statement.hBoldWeights;
  }

  // ---------------------------------------------------------------------------------------------
  // Bulletproofs+.

  // The statement's point, for other commitments and another A.
  lemma AHatDiffers(c: Curve, g: Vector, h: Vector, V: seq<SubPoint>, V': seq<SubPoint>, A: SubPoint, A': SubPoint, y: Scalar,
                    z: Scalar, m: nat)
    requires |g| == |h| == m * COMMITMENT_BITS && |V| == |V'|
    ensures Bpp.AHat(c, g, h, V', A', y, z, m) - Bpp.AHat(c, g, h, V, A, y, z, m) ==
            (A' - A) + Pow(y, |g| + 1) * ZSum(z * z, 1, Differences(V', V), |V|)
  {
    hide Dot, Sum, Pow, ZSum, Differences, Bpp.HShift, Bpp.HScalar;
    ZSumDifference(z * z, 1, V', V, |V|);
    Factor(Pow(y, |g| + 1), ZSum(z * z, 1, V', |V|), ZSum(z * z, 1, V, |V|));
  }

  lemma Factor(a: int, x: int, y: int)
    ensures a * x - a * y == a * (x - y)
  {
  }

  // Of proofs which agree in all points, the last answers make the same combination.
  lemma OnePlusAnswer(c: Curve, generators: Generators, V: seq<Point>, p: Bpp.Proof, r: Scalar, s: Scalar, delta: Scalar)
    requires c.Valid() && EnoughGenerators(generators) && IsStatement(V)
    requires Bpp.Holds(c, generators, V, p)
    requires Bpp.Holds(c, generators, V, p.(wip := p.wip.(rAnswer := r, sAnswer := s, deltaAnswer := delta)))
    ensures var n := Padded(|V|) * COMMITMENT_BITS;
            var (y, z) := Bpp.DeriveKeys(c, V, p.A);
            && 0 < n <= |generators.G| == |generators.H| && |p.wip.L| == |p.wip.R| && n == Pow2(|p.wip.L|)
            && var e := Wip.TranscriptPair(c, Wip.LastTranscript(c, z, p.wip.L, p.wip.R), p.wip.A, p.wip.B);
               var products := Coefficients(Ip.Challenges(c, z, p.wip.L, p.wip.R));
               var g := Dot(Times(products, PowVec(c.invert(y), n)), generators.G[..n]);
               var h := Dot(Reverse(products), generators.H[..n]);
               Eq(p.wip.rAnswer * e * g + p.wip.sAnswer * e * h + p.wip.rAnswer * Wip.YVec(y, n)[0] * p.wip.sAnswer * c.h
                  + p.wip.deltaAnswer,
                  r * e * g + s * e * h + r * Wip.YVec(y, n)[0] * s * c.h + delta)
  {
    hide Eq, Bpp.DeriveKeys, Padded, PowVec, Pow2, Dot, Times, Coefficients, Ip.Challenges, Ip.Cross, Reverse, Bpp.Holds,
         Bpp.AHat, Wip.LastTranscript, Wip.TranscriptPair, Wip.YVec;
    var p' := p.(wip := p.wip.(rAnswer := r, sAnswer := s, deltaAnswer := delta));
    var n := Padded(|V|) * COMMITMENT_BITS;
    PlusSum(c, generators, V, p);
    PlusSum(c, generators, V, p');
    var rest := PlusRest(c, generators, V, p);
    SameRest(c, generators, V, p, p');
    var one, other := PlusAnswers(c, generators, V, p), PlusAnswers(c, generators, V, p');
    EqAdd(one - rest, 0, other - rest, 0);
    EqFromMultiple(other, other, 0);
    EqAdd(one - rest - (other - rest), 0, other, other);
  }

  /** What the last answers make. */
  function PlusAnswers(c: Curve, generators: Generators, V: seq<Point>, p: Bpp.Proof): SubPoint
    requires c.Valid() && |p.wip.L| == |p.wip.R|
    requires 0 < Padded(|V|) * COMMITMENT_BITS == Pow2(|p.wip.L|)
    requires Pow2(|p.wip.L|) <= |generators.G| && Pow2(|p.wip.L|) <= |generators.H|
  {
    var n := Padded(|V|) * COMMITMENT_BITS;
    var (y, z) := Bpp.DeriveKeys(c, V, p.A);
    var e := Wip.TranscriptPair(c, Wip.LastTranscript(c, z, p.wip.L, p.wip.R), p.wip.A, p.wip.B);
    var products := Coefficients(Ip.Challenges(c, z, p.wip.L, p.wip.R));
    var g := Dot(Times(products, PowVec(c.invert(y), n)), generators.G[..n]);
    var h := Dot(Reverse(products), generators.H[..n]);
    p.wip.rAnswer * e * g + p.wip.sAnswer * e * h + p.wip.rAnswer * Wip.YVec(y, n)[0] * p.wip.sAnswer * c.h + p.wip.deltaAnswer
  }

  /** What they answer to. */
  function PlusRest(c: Curve, generators: Generators, V: seq<Point>, p: Bpp.Proof): SubPoint
    requires c.Valid() && |p.wip.L| == |p.wip.R| && Padded(|V|) * COMMITMENT_BITS <= |generators.G|
    requires Padded(|V|) * COMMITMENT_BITS <= |generators.H|
    requires c.Receive(p.A).Some? && c.Receive(p.wip.A).Some? && c.Receive(p.wip.B).Some?
  {
    var m := Padded(|V|);
    var n := m * COMMITMENT_BITS;
    var (y, z) := Bpp.DeriveKeys(c, V, p.A);
    var e := Wip.TranscriptPair(c, Wip.LastTranscript(c, z, p.wip.L, p.wip.R), p.wip.A, p.wip.B);
    var aHat := Bpp.AHat(c, generators.G[..n], generators.H[..n], Scaled(V), c.Receive(p.A).value, y, z, m);
    e * e * (aHat + Ip.Cross(c, Ip.Challenges(c, z, p.wip.L, p.wip.R), p.wip.L, p.wip.R)) + e * c.Receive(p.wip.A).value
    + c.Receive(p.wip.B).value
  }

  lemma SameRest(c: Curve, generators: Generators, V: seq<Point>, p: Bpp.Proof, p': Bpp.Proof)
    requires c.Valid() && |p.wip.L| == |p.wip.R| && Padded(|V|) * COMMITMENT_BITS <= |generators.G|
    requires Padded(|V|) * COMMITMENT_BITS <= |generators.H|
    requires c.Receive(p.A).Some? && c.Receive(p.wip.A).Some? && c.Receive(p.wip.B).Some?
    requires p' == p.(wip := p'.wip) && p'.wip == p.wip.(rAnswer := p'.wip.rAnswer, sAnswer := p'.wip.sAnswer,
                                                         deltaAnswer := p'.wip.deltaAnswer)
    ensures PlusRest(c, generators, V, p') == PlusRest(c, generators, V, p)
  {
    hide Bpp.DeriveKeys, Padded, Ip.Challenges, Ip.Cross, Bpp.AHat, Wip.LastTranscript, Wip.TranscriptPair;
  }

  lemma PlusSum(c: Curve, generators: Generators, V: seq<Point>, p: Bpp.Proof)
    requires c.Valid() && EnoughGenerators(generators) && IsStatement(V) && Bpp.Holds(c, generators, V, p)
    ensures var n := Padded(|V|) * COMMITMENT_BITS;
            && 0 < n <= |generators.G| == |generators.H| && |p.wip.L| == |p.wip.R| && n == Pow2(|p.wip.L|)
            && c.Receive(p.A).Some? && c.Receive(p.wip.A).Some? && c.Receive(p.wip.B).Some?
            && Eq(PlusAnswers(c, generators, V, p) - PlusRest(c, generators, V, p), 0)
  {
    hide Eq, Bpp.DeriveKeys, Padded, PowVec, Pow2, Dot, Times, Coefficients, Ip.Challenges, Ip.Cross, Reverse, Bpp.Holds,
         Bpp.AHat, Wip.LastTranscript, Wip.TranscriptPair, Wip.YVec, Ip.Decodable;
    PaddedFits(|V|, generators);
    Bpp.HoldsIffNoEffect(c, generators, V, p);
    Positive(|p.wip.L|);
  }

  lemma Positive(k: nat)
    ensures Pow2(k) > 0
  {
  }
}
