/**
ringct/bulletproofs/src: what the challenges of a range proof are bound to. Every challenge is a hash of the one
before it and of what was sent since, so that the last of them is one for two proofs only if the hash collides.
 */
module RangeProofBinding {
  import opened Wrappers
  import opened Ed25519
  import opened Pieces
  import opened RangeAlgebra
  import Orig = OriginalRangeProof
  import Bpp = PlusRangeProof
  import Ip = InnerProduct
  import Wip = WeightedInnerProduct

  /** The hash takes the two to different scalars, if they are different. */
  ghost predicate Distinguishes(c: Curve, x: seq<byte>, y: seq<byte>) {
    Eq(c.hash(x), c.hash(y)) ==> x == y
  }

  ghost predicate AllDistinguished(c: Curve, x: seq<seq<byte>>, y: seq<seq<byte>>) {
    |x| == |y| && forall i :: 0 <= i < |x| ==> Distinguishes(c, x[i], y[i])
  }

  function PointPieces(c: Curve, points: seq<Point>): (r: seq<seq<byte>>)
    requires c.Valid()
    ensures |r| == |points| && AllOf32(r)
  {
    seq(|points|, i requires 0 <= i < |points| => c.Encode(points[i]))
  }

  lemma {:induction false} EncodeAllIs(c: Curve, points: seq<Point>)
    requires c.Valid()
    ensures EncodeAll(c, points) == Flat(PointPieces(c, points))
  {
    hide Curve.Encode;
    if points != [] {
      EncodeAllIs(c, points[1..]);
      assert PointPieces(c, points)[1..] == PointPieces(c, points[1..]);
    }
  }

  // Commitments are hashed scaled by the inverse of eight, which keeps them apart.
  lemma CommitmentsBind(c: Curve, V: seq<Point>, V': seq<Point>)
    requires c.Valid() && Flat(PointPieces(c, Scaled(V))) == Flat(PointPieces(c, Scaled(V')))
    ensures |V| == |V'| && forall i :: 0 <= i < |V| ==> Eq(V[i], V'[i])
  {
    hide Curve.Encode, Eq, EqPoint;
    var x, y := PointPieces(c, Scaled(V)), PointPieces(c, Scaled(V'));
    FlatBinds(x, y);
    assert |x| == |V| && |y| == |V'|;
    forall i | 0 <= i < |V|
      ensures Eq(V[i], V'[i])
    {
      assert x[i] == y[i];
      EncodesPoint(c, V[i] * INV_EIGHT, V'[i] * INV_EIGHT);
      Unscaled(V[i], V'[i]);
    }
  }

  lemma Unscaled(p: Point, q: Point)
    requires EqPoint(p * INV_EIGHT, q * INV_EIGHT)
    ensures Eq(p, q)
  {
    var k := EqPointToMultiple(p * INV_EIGHT, q * INV_EIGHT);
    EqFromMultiple(p * INV_EIGHT, q * INV_EIGHT, 8 * k);
    hide Eq;
    EqScale(8, p * INV_EIGHT, q * INV_EIGHT);
    CofactorCleared(p);
    CofactorCleared(q);
    EqSymmetric(8 * (p * INV_EIGHT), p);
    EqTransitive(p, 8 * (p * INV_EIGHT), 8 * (q * INV_EIGHT));
    EqTransitive(p, 8 * (q * INV_EIGHT), q);
  }

  lemma SameScalars(c: Curve, s: Scalar, t: Scalar)
    requires c.Valid() && c.EncodeScalar(s) == c.EncodeScalar(t)
    ensures Eq(s, t)
  {
    EncodesScalar(c, s, t);
  }

  lemma FlatTwo(a: seq<byte>, b: seq<byte>, d: seq<byte>)
    ensures Flat([a, b]) == a + b && Flat([a, b, d]) == a + b + d
  {
    FlatFew(a, b, d, []);
    assert [a, b][1..] == [b] && [b][1..] == [];
    assert Flat([b]) == b + [] == b;
  }

  lemma FlatFive(a: seq<byte>, b: seq<byte>, d: seq<byte>, e: seq<byte>, f: seq<byte>)
    ensures Flat([a, b, d, e, f]) == a + b + d + e + f
  {
    FlatFew(b, d, e, f);
    assert [a, b, d, e, f][1..] == [b, d, e, f];
    assert a + (b + d + e + f) == a + b + d + e + f;
  }

  lemma FlatFour(a: seq<byte>, b: seq<byte>, d: seq<byte>, e: seq<byte>)
    ensures Flat([a, b, d, e]) == a + b + d + e
  {
    FlatFew(a, b, d, e);
  }

  // ---------------------------------------------------------------------------------------------
  // Bulletproofs.

  /** What is hashed for the challenges of a Bulletproof, in order: y, z, x and the one of the inner product follow. */
  function Hashed(c: Curve, V: seq<Point>, p: Orig.Proof): (r: seq<seq<byte>>)
    requires c.Valid()
    ensures |r| == 5
  {
    var commitments := Flat(PointPieces(c, Scaled(V)));
    var forY := Flat([c.EncodeScalar(c.hash(commitments)), p.A, p.S]);
    var forZ := c.EncodeScalar(c.hash(forY));
    var z := c.EncodeScalar(c.hash(forZ));
    var forX := Flat([z, z, p.T1, p.T2]);
    var x := c.EncodeScalar(c.hash(forX));
    [commitments, forY, forZ, forX, Flat([x, x, c.EncodeScalar(p.tauX), c.EncodeScalar(p.mu), c.EncodeScalar(p.tHat)])]
  }

  lemma KeysAreHashes(c: Curve, V: seq<Point>, p: Orig.Proof)
    requires c.Valid()
    ensures var hashed := Hashed(c, V, p);
            Orig.DeriveKeys(c, V, p) == Orig.Keys(c.hash(hashed[1]), c.hash(hashed[2]), c.hash(hashed[3]), c.hash(hashed[4]))
  {
    hide Curve.EncodeScalar, PointPieces, Scaled, EncodeAll, Flat, Curve.Valid;
    EncodeAllIs(c, Scaled(V));
    var initial := c.EncodeScalar(c.hash(Flat(PointPieces(c, Scaled(V)))));
    FlatTwo(initial, p.A, p.S);
    var y := c.hash(initial + p.A + p.S);
    var z := c.EncodeScalar(c.hash(c.EncodeScalar(y)));
    FlatFour(z, z, p.T1, p.T2);
    var x := c.EncodeScalar(c.hash(z + z + p.T1 + p.T2));
    FlatFive(x, x, c.EncodeScalar(p.tauX), c.EncodeScalar(p.mu), c.EncodeScalar(p.tHat));
  }

  /** The points are thirty-two bytes each. */
  predicate PointsWhole(p: Orig.Proof) {
    |p.A| == |p.S| == |p.T1| == |p.T2| == 32
  }

  // One challenge of the inner product, and no collision: the same commitments, and all that was sent before it.
  lemma KeysBind(c: Curve, V: seq<Point>, p: Orig.Proof, V': seq<Point>, p': Orig.Proof)
    requires c.Valid() && PointsWhole(p) && PointsWhole(p')
    requires Eq(Orig.DeriveKeys(c, V, p).xIp, Orig.DeriveKeys(c, V', p').xIp)
    requires AllDistinguished(c, Hashed(c, V, p), Hashed(c, V', p'))
    ensures |V| == |V'| && forall i :: 0 <= i < |V| ==> Eq(V[i], V'[i])
    ensures p.A == p'.A && p.S == p'.S && p.T1 == p'.T1 && p.T2 == p'.T2
    ensures Eq(p.tauX, p'.tauX) && Eq(p.mu, p'.mu) && Eq(p.tHat, p'.tHat)
  {
    hide Curve.EncodeScalar, PointPieces, Scaled, Flat, Eq, Curve.Valid, Orig.DeriveKeys;
    KeysAreHashes(c, V, p);
    KeysAreHashes(c, V', p');
    var h, h' := Hashed(c, V, p), Hashed(c, V', p');
    assert Distinguishes(c, h[4], h'[4]) && Distinguishes(c, h[3], h'[3]) && Distinguishes(c, h[2], h'[2]);
    assert Distinguishes(c, h[1], h'[1]) && Distinguishes(c, h[0], h'[0]);
    var x, x' := c.EncodeScalar(c.hash(h[3])), c.EncodeScalar(c.hash(h'[3]));
    FiveBind(c, x, x, c.EncodeScalar(p.tauX), c.EncodeScalar(p.mu), c.EncodeScalar(p.tHat),
             x', x', c.EncodeScalar(p'.tauX), c.EncodeScalar(p'.mu), c.EncodeScalar(p'.tHat));
    SameScalars(c, p.tauX, p'.tauX);
    SameScalars(c, p.mu, p'.mu);
    SameScalars(c, p.tHat, p'.tHat);
    SameScalars(c, c.hash(h[3]), c.hash(h'[3]));
    var z, z' := c.EncodeScalar(c.hash(h[2])), c.EncodeScalar(c.hash(h'[2]));
    FourBind(z, z, p.T1, p.T2, z', z', p'.T1, p'.T2);
    SameScalars(c, c.hash(h[2]), c.hash(h'[2]));
    SameScalars(c, c.hash(h[1]), c.hash(h'[1]));
    ThreeBind(c.EncodeScalar(c.hash(h[0])), p.A, p.S, c.EncodeScalar(c.hash(h'[0])), p'.A, p'.S);
    SameScalars(c, c.hash(h[0]), c.hash(h'[0]));
    CommitmentsBind(c, V, V');
  }

  lemma ThreeBind(a: seq<byte>, b: seq<byte>, d: seq<byte>, a': seq<byte>, b': seq<byte>, d': seq<byte>)
    requires |a| == |b| == |d| == |a'| == |b'| == |d'| == 32 && Flat([a, b, d]) == Flat([a', b', d'])
    ensures a == a' && b == b' && d == d'
  {
    FlatBinds([a, b, d], [a', b', d']);
    assert [a, b, d][0] == [a', b', d'][0] && [a, b, d][1] == [a', b', d'][1] && [a, b, d][2] == [a', b', d'][2];
  }

  lemma FourBind(a: seq<byte>, b: seq<byte>, d: seq<byte>, e: seq<byte>, a': seq<byte>, b': seq<byte>, d': seq<byte>,
                 e': seq<byte>)
    requires |a| == |b| == |d| == |e| == |a'| == |b'| == |d'| == |e'| == 32
    requires Flat([a, b, d, e]) == Flat([a', b', d', e'])
    ensures a == a' && b == b' && d == d' && e == e'
  {
    var x, y := [a, b, d, e], [a', b', d', e'];
    FlatBinds(x, y);
    assert x[0] == y[0] && x[1] == y[1] && x[2] == y[2] && x[3] == y[3];
  }

  lemma FiveBind(c: Curve, a: seq<byte>, b: seq<byte>, d: seq<byte>, e: seq<byte>, f: seq<byte>, a': seq<byte>, b': seq<byte>,
                 d': seq<byte>, e': seq<byte>, f': seq<byte>)
    requires |a| == |b| == |d| == |e| == |f| == |a'| == |b'| == |d'| == |e'| == |f'| == 32
    requires Flat([a, b, d, e, f]) == Flat([a', b', d', e', f'])
    ensures a == a' && b == b' && d == d' && e == e' && f == f'
  {
    var x, y := [a, b, d, e, f], [a', b', d', e', f'];
    FlatBinds(x, y);
    assert x[0] == y[0] && x[1] == y[1] && x[2] == y[2] && x[3] == y[3] && x[4] == y[4];
  }

  // ---------------------------------------------------------------------------------------------
  // The rounds of both inner-product arguments.

  /** What is hashed for the rounds' challenges: the one before, and the round's two points. */
  function HashedRounds(c: Curve, transcript: Scalar, rounds: seq<(seq<byte>, seq<byte>)>): (r: seq<seq<byte>>)
    requires c.Valid()
    ensures |r| == |rounds|
    decreases |rounds|
  {
    if rounds == [] then []
    else
      var hashed := Flat([c.EncodeScalar(transcript), rounds[0].0, rounds[0].1]);
      [hashed] + HashedRounds(c, c.hash(hashed), rounds[1..])
  }

  /** The challenge after all rounds. */
  function AfterRounds(c: Curve, transcript: Scalar, rounds: seq<(seq<byte>, seq<byte>)>): Scalar
    requires c.Valid()
  {
    if rounds == [] then transcript else c.hash(HashedRounds(c, transcript, rounds)[|rounds| - 1])
  }

  function Rounds(L: seq<seq<byte>>, R: seq<seq<byte>>): (rounds: seq<(seq<byte>, seq<byte>)>)
    requires |L| == |R|
    ensures |rounds| == |L|
  {
    seq(|L|, i requires 0 <= i < |L| => (L[i], R[i]))
  }

  ghost predicate RoundsWhole(rounds: seq<(seq<byte>, seq<byte>)>) {
    forall i :: 0 <= i < |rounds| ==> |rounds[i].0| == |rounds[i].1| == 32
  }

  lemma {:induction false} ChallengesAreHashes(c: Curve, transcript: Scalar, L: seq<seq<byte>>, R: seq<seq<byte>>)
    requires c.Valid() && |L| == |R|
    ensures var challenges, hashed := Ip.Challenges(c, transcript, L, R), HashedRounds(c, transcript, Rounds(L, R));
            forall i :: 0 <= i < |L| ==> challenges[i] == (c.hash(hashed[i]), c.invert(c.hash(hashed[i])))
    ensures Wip.LastTranscript(c, transcript, L, R) == AfterRounds(c, transcript, Rounds(L, R))
    decreases |L|
  {
    hide Curve.EncodeScalar, Flat, Curve.Valid;
    if L != [] {
      var rounds := Rounds(L, R);
      FlatTwo(c.EncodeScalar(transcript), L[0], R[0]);
      var x := c.hash(c.EncodeScalar(transcript) + L[0] + R[0]);
      assert rounds[1..] == Rounds(L[1..], R[1..]);
      ChallengesAreHashes(c, x, L[1..], R[1..]);
      LaterRounds(c, transcript, rounds);
      var challenges, hashed := Ip.Challenges(c, transcript, L, R), HashedRounds(c, transcript, rounds);
      assert challenges[1..] == Ip.Challenges(c, x, L[1..], R[1..]) && hashed[1..] == HashedRounds(c, x, rounds[1..]);
      forall i | 0 <= i < |L|
        ensures challenges[i] == (c.hash(hashed[i]), c.invert(c.hash(hashed[i])))
      {
        if i > 0 {
          assert challenges[i] == challenges[1..][i - 1] && hashed[i] == hashed[1..][i - 1];
        }
      }
    }
  }

  lemma LaterRounds(c: Curve, transcript: Scalar, rounds: seq<(seq<byte>, seq<byte>)>)
    requires c.Valid() && rounds != []
    ensures var x := c.hash(Flat([c.EncodeScalar(transcript), rounds[0].0, rounds[0].1]));
            AfterRounds(c, transcript, rounds) == AfterRounds(c, x, rounds[1..])
  {
    hide Curve.EncodeScalar, Flat, Curve.Valid;
  }

  // One last challenge, and no collision: the same rounds, from the same challenge on.
  lemma {:induction false} RoundsBind(c: Curve, t: Scalar, rounds: seq<(seq<byte>, seq<byte>)>, t': Scalar,
                                      rounds': seq<(seq<byte>, seq<byte>)>)
    requires c.Valid() && |rounds| == |rounds'| && RoundsWhole(rounds) && RoundsWhole(rounds')
    requires Eq(AfterRounds(c, t, rounds), AfterRounds(c, t', rounds'))
    requires AllDistinguished(c, HashedRounds(c, t, rounds), HashedRounds(c, t', rounds'))
    ensures rounds == rounds' && Eq(t, t')
    decreases |rounds|
  {
    hide Curve.EncodeScalar, Flat, Eq, Distinguishes, AfterRounds, Curve.Valid;
    if rounds == [] {
      NoRounds(c, t);
      NoRounds(c, t');
    } else {
      var x := Flat([c.EncodeScalar(t), rounds[0].0, rounds[0].1]);
      var y := Flat([c.EncodeScalar(t'), rounds'[0].0, rounds'[0].1]);
      LaterRounds(c, t, rounds);
      LaterRounds(c, t', rounds');
      var h, h' := HashedRounds(c, t, rounds), HashedRounds(c, t', rounds');
      assert h[1..] == HashedRounds(c, c.hash(x), rounds[1..]) && h'[1..] == HashedRounds(c, c.hash(y), rounds'[1..]);
      RoundsBind(c, c.hash(x), rounds[1..], c.hash(y), rounds'[1..]);
      assert Distinguishes(c, h[0], h'[0]);
      OneHash(c, x, y);
      ThreeBind(c.EncodeScalar(t), rounds[0].0, rounds[0].1, c.EncodeScalar(t'), rounds'[0].0, rounds'[0].1);
      SameScalars(c, t, t');
      assert rounds == [rounds[0]] + rounds[1..] && rounds' == [rounds'[0]] + rounds'[1..];
    }
  }

  lemma OneHash(c: Curve, x: seq<byte>, y: seq<byte>)
    requires Distinguishes(c, x, y) && Eq(c.hash(x), c.hash(y))
    ensures x == y
  {
  }

  lemma NoRounds(c: Curve, t: Scalar)
    requires c.Valid()
    ensures AfterRounds(c, t, []) == t
  {
  }

  // ---------------------------------------------------------------------------------------------
  // Bulletproofs+.

  /** What is hashed for the challenges of a Bulletproof+ before its argument: y and z follow. */
  function HashedPlus(c: Curve, V: seq<Point>, A: seq<byte>): (r: seq<seq<byte>>)
    requires c.Valid()
    ensures |r| == 4
  {
    var commitments := Flat(PointPieces(c, Scaled(V)));
    var initial := c.plusTranscript + c.EncodeScalar(c.hash(commitments));
    var forY := Flat([c.EncodeScalar(c.hash(initial)), A]);
    [commitments, initial, forY, c.EncodeScalar(c.hash(forY))]
  }

  lemma PlusKeysAreHashes(c: Curve, V: seq<Point>, A: seq<byte>)
    requires c.Valid()
    ensures var hashed := HashedPlus(c, V, A); Bpp.DeriveKeys(c, V, A) == (c.hash(hashed[2]), c.hash(hashed[3]))
  {
    hide Curve.EncodeScalar, PointPieces, Scaled, EncodeAll, Flat, Curve.Valid;
    EncodeAllIs(c, Scaled(V));
    FlatTwo(c.EncodeScalar(c.hash(c.plusTranscript + c.EncodeScalar(c.hash(Flat(PointPieces(c, Scaled(V))))))), A, []);
  }

  /** What is hashed for the last challenge. */
  function HashedLast(c: Curve, last: Scalar, wip: Wip.WipProof): seq<byte>
    requires c.Valid()
  {
    Flat([c.EncodeScalar(last), wip.A, wip.B])
  }

  lemma LastIsHash(c: Curve, last: Scalar, wip: Wip.WipProof)
    requires c.Valid()
    ensures Wip.TranscriptPair(c, last, wip.A, wip.B) == c.hash(HashedLast(c, last, wip))
  {
    hide Curve.EncodeScalar, Flat;
    FlatTwo(c.EncodeScalar(last), wip.A, wip.B);
  }

  /** The last challenge of a Bulletproof+. */
  function LastChallenge(c: Curve, V: seq<Point>, p: Bpp.Proof): Scalar
    requires c.Valid() && |p.wip.L| == |p.wip.R|
  {
    var (_, z) := Bpp.DeriveKeys(c, V, p.A);
    Wip.TranscriptPair(c, Wip.LastTranscript(c, z, p.wip.L, p.wip.R), p.wip.A, p.wip.B)
  }

  /** What is hashed for it, from the commitments on. */
  function HashedToLast(c: Curve, V: seq<Point>, p: Bpp.Proof): (r: seq<seq<byte>>)
    requires c.Valid() && |p.wip.L| == |p.wip.R|
    ensures |r| == 5 + |p.wip.L|
  {
    var start := HashedPlus(c, V, p.A);
    var z := c.hash(start[3]);
    var rounds := Rounds(p.wip.L, p.wip.R);
    start + HashedRounds(c, z, rounds) + [HashedLast(c, AfterRounds(c, z, rounds), p.wip)]
  }

  ghost predicate PlusWhole(p: Bpp.Proof) {
    && |p.A| == |p.wip.A| == |p.wip.B| == 32 && |p.wip.L| == |p.wip.R|
    && RoundsWhole(Rounds(p.wip.L, p.wip.R))
  }

  // One last challenge, and no collision: the same commitments, and the same points.
  lemma PlusBinds(c: Curve, V: seq<Point>, p: Bpp.Proof, V': seq<Point>, p': Bpp.Proof)
    requires c.Valid() && PlusWhole(p) && PlusWhole(p') && |p.wip.L| == |p'.wip.L|
    requires Eq(LastChallenge(c, V, p), LastChallenge(c, V', p'))
    requires AllDistinguished(c, HashedToLast(c, V, p), HashedToLast(c, V', p'))
    ensures |V| == |V'| && forall i :: 0 <= i < |V| ==> Eq(V[i], V'[i])
    ensures p.A == p'.A && p.wip.A == p'.wip.A && p.wip.B == p'.wip.B && p.wip.L == p'.wip.L && p.wip.R == p'.wip.R
  {
    hide Curve.EncodeScalar, PointPieces, Scaled, Flat, Eq, Distinguishes, Bpp.DeriveKeys, HashedPlus, HashedRounds, AfterRounds,
         Wip.LastTranscript, Wip.TranscriptPair, Curve.Valid, HashedLast;
    var start, start' := HashedPlus(c, V, p.A), HashedPlus(c, V', p'.A);
    var z, z' := c.hash(start[3]), c.hash(start'[3]);
    var rounds, rounds' := Rounds(p.wip.L, p.wip.R), Rounds(p'.wip.L, p'.wip.R);
    var last, last' := AfterRounds(c, z, rounds), AfterRounds(c, z', rounds');
    PlusKeysAreHashes(c, V, p.A);
    PlusKeysAreHashes(c, V', p'.A);
    ChallengesAreHashes(c, z, p.wip.L, p.wip.R);
    ChallengesAreHashes(c, z', p'.wip.L, p'.wip.R);
    LastIsHash(c, last, p.wip);
    LastIsHash(c, last', p'.wip);
    Sections(c, start, HashedRounds(c, z, rounds), HashedLast(c, last, p.wip), start', HashedRounds(c, z', rounds'),
             HashedLast(c, last', p'.wip));
    OneHash(c, HashedLast(c, last, p.wip), HashedLast(c, last', p'.wip));
    LastBinds(c, last, p.wip, last', p'.wip);
    RoundsBind(c, z, rounds, z', rounds');
    SameRounds(p.wip.L, p.wip.R, p'.wip.L, p'.wip.R);
    StartBinds(c, V, p.A, V', p'.A);
  }

  lemma Sections(c: Curve, a: seq<seq<byte>>, b: seq<seq<byte>>, d: seq<byte>, a': seq<seq<byte>>, b': seq<seq<byte>>,
                 d': seq<byte>)
    requires |a| == |a'| && |b| == |b'| && AllDistinguished(c, a + b + [d], a' + b' + [d'])
    ensures AllDistinguished(c, a, a') && AllDistinguished(c, b, b') && Distinguishes(c, d, d')
  {
    hide Distinguishes;
    var x, y := a + b + [d], a' + b' + [d'];
    forall i | 0 <= i < |a|
      ensures Distinguishes(c, a[i], a'[i])
    {
      assert Distinguishes(c, x[i], y[i]);
    }
    forall i | 0 <= i < |b|
      ensures Distinguishes(c, b[i], b'[i])
    {
      assert Distinguishes(c, x[|a| + i], y[|a| + i]);
    }
    assert Distinguishes(c, x[|a| + |b|], y[|a| + |b|]);
  }

  lemma LastBinds(c: Curve, last: Scalar, wip: Wip.WipProof, last': Scalar, wip': Wip.WipProof)
    requires c.Valid() && |wip.A| == |wip.B| == |wip'.A| == |wip'.B| == 32
    requires HashedLast(c, last, wip) == HashedLast(c, last', wip')
    ensures Eq(last, last') && wip.A == wip'.A && wip.B == wip'.B
  {
    hide Curve.EncodeScalar, Flat, Eq;
    ThreeBind(c.EncodeScalar(last), wip.A, wip.B, c.EncodeScalar(last'), wip'.A, wip'.B);
    SameScalars(c, last, last');
  }

  lemma SameRounds(L: seq<seq<byte>>, R: seq<seq<byte>>, L': seq<seq<byte>>, R': seq<seq<byte>>)
    requires |L| == |R| && |L'| == |R'| && Rounds(L, R) == Rounds(L', R')
    ensures L == L' && R == R'
  {
    assert |L| == |Rounds(L, R)| == |Rounds(L', R')| == |L'|;
    forall i | 0 <= i < |L|
      ensures L[i] == L'[i] && R[i] == R'[i]
    {
      assert Rounds(L, R)[i] == Rounds(L', R')[i];
    }
  }

  lemma StartBinds(c: Curve, V: seq<Point>, A: seq<byte>, V': seq<Point>, A': seq<byte>)
    requires c.Valid() && |A| == |A'| == 32
    requires Eq(c.hash(HashedPlus(c, V, A)[3]), c.hash(HashedPlus(c, V', A')[3]))
    requires AllDistinguished(c, HashedPlus(c, V, A), HashedPlus(c, V', A'))
    ensures |V| == |V'| && A == A' && forall i :: 0 <= i < |V| ==> Eq(V[i], V'[i])
  {
    hide Curve.EncodeScalar, PointPieces, Scaled, Flat, Eq, Curve.Valid;
    var h, h' := HashedPlus(c, V, A), HashedPlus(c, V', A');
    assert Distinguishes(c, h[3], h'[3]) && Distinguishes(c, h[2], h'[2]);
    assert Distinguishes(c, h[1], h'[1]) && Distinguishes(c, h[0], h'[0]);
    SameScalars(c, c.hash(h[2]), c.hash(h'[2]));
    var x, x' := c.EncodeScalar(c.hash(h[1])), c.EncodeScalar(c.hash(h'[1]));
    TwoBind(x, A, x', A');
    SameScalars(c, c.hash(h[1]), c.hash(h'[1]));
    var y, y' := c.EncodeScalar(c.hash(h[0])), c.EncodeScalar(c.hash(h'[0]));
    assert (c.plusTranscript + y)[|c.plusTranscript|..] == y && (c.plusTranscript + y')[|c.plusTranscript|..] == y';
    SameScalars(c, c.hash(h[0]), c.hash(h'[0]));
    CommitmentsBind(c, V, V');
  }

  lemma TwoBind(a: seq<byte>, b: seq<byte>, a': seq<byte>, b': seq<byte>)
    requires |a| == |b| == |a'| == |b'| == 32 && Flat([a, b]) == Flat([a', b'])
    ensures a == a' && b == b'
  {
    FlatBinds([a, b], [a', b']);
    assert [a, b][0] == [a', b'][0] && [a, b][1] == [a', b'][1];
  }
}
