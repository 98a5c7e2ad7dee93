/**
ringct/clsag/src/lib.rs: what a signature is bound to. Every challenge is a hash of bytes which say what is signed,
so that one signature for two statements is a collision of the hash.
 */
module ClsagBinding {
  import opened Wrappers
  import opened PowersOfTwo
  import opened Ed25519
  import opened Vectors
  import opened ClsagDecoys
  import opened Pieces
  import opened Clsag

  type RingBytes = seq<(seq<byte>, seq<byte>)>

  // ---------------------------------------------------------------------------------------------
  // What is hashed, written out.

  function KeysOf(ring: RingBytes): (r: seq<seq<byte>>)
    ensures |r| == |ring|
  {
    seq(|ring|, i requires 0 <= i < |ring| => ring[i].0)
  }

  function CommitmentsOf(ring: RingBytes): (r: seq<seq<byte>>)
    ensures |r| == |ring|
  {
    seq(|ring|, i requires 0 <= i < |ring| => ring[i].1)
  }

  // "CLSAG_round", "CLSAG_agg_0" and "CLSAG_agg_1", padded with zeros to thirty-two bytes
  const ROUND_LABEL: seq<byte> :=
    [67, 76, 83, 65, 71, 95, 114, 111, 117, 110, 100, 0, 0, 0, 0, 0, 0, 0, 0, 0, 0, 0, 0, 0, 0, 0, 0, 0, 0, 0, 0, 0]
  const AGG_0_LABEL: seq<byte> :=
    [67, 76, 83, 65, 71, 95, 97, 103, 103, 95, 48, 0, 0, 0, 0, 0, 0, 0, 0, 0, 0, 0, 0, 0, 0, 0, 0, 0, 0, 0, 0, 0]
  const AGG_1_LABEL: seq<byte> :=
    [67, 76, 83, 65, 71, 95, 97, 103, 103, 95, 49, 0, 0, 0, 0, 0, 0, 0, 0, 0, 0, 0, 0, 0, 0, 0, 0, 0, 0, 0, 0, 0]

  /** What a round hashes: the label, the keys, the commitments, the pseudo-out, the message, and its two points. */
  function RoundBytes(ring: RingBytes, pseudoOut: seq<byte>, msg: seq<byte>, left: seq<byte>, right: seq<byte>): seq<byte> {
    Flat([ROUND_LABEL] + KeysOf(ring) + CommitmentsOf(ring) + [pseudoOut, msg, left, right])
  }

  /** What an aggregation coefficient hashes: the label, the keys, the commitments, the key image, D and the pseudo-out. */
  function AggBytes(tag: seq<byte>, ring: RingBytes, I: seq<byte>, D: seq<byte>, pseudoOut: seq<byte>): seq<byte> {
    Flat([tag] + KeysOf(ring) + CommitmentsOf(ring) + [I, D, pseudoOut])
  }

  // ---------------------------------------------------------------------------------------------
  // What is hashed is that.

  lemma {:induction false} DecodedRing(c: Curve, ring: RingBytes)
    requires c.Valid() && DecodeRing(c, ring).Some?
    ensures AllOf32(KeysOf(ring)) && AllOf32(CommitmentsOf(ring))
    ensures EncodeRing(c, DecodeRing(c, ring).value) == ring
  {
    hide Curve.Encode;
    if ring != [] {
      DecodedRing(c, ring[1..]);
      DecodedIs(c, ring[0].0);
      DecodedIs(c, ring[0].1);
      var members := DecodeRing(c, ring).value;
      assert members[1..] == DecodeRing(c, ring[1..]).value;
      assert EncodeRing(c, members)[1..] == EncodeRing(c, members[1..]);
      assert EncodeRing(c, members) == [ring[0]] + ring[1..];
      assert KeysOf(ring)[1..] == KeysOf(ring[1..]) && CommitmentsOf(ring)[1..] == CommitmentsOf(ring[1..]);
      forall i | 0 <= i < |ring|
        ensures |KeysOf(ring)[i]| == 32 && |CommitmentsOf(ring)[i]| == 32
      {
        if i > 0 {
          assert KeysOf(ring[1..])[i - 1] == KeysOf(ring)[i] && CommitmentsOf(ring[1..])[i - 1] == CommitmentsOf(ring)[i];
        }
      }
    }
  }

  lemma {:induction false} RingIsFlat(c: Curve, members: seq<Member>)
    requires c.Valid()
    ensures EncodeKeys(c, members) == Flat(KeysOf(EncodeRing(c, members)))
    ensures EncodeCommitments(c, members) == Flat(CommitmentsOf(EncodeRing(c, members)))
  {
    hide Curve.Encode;
    if members != [] {
      var n := |members| - 1;
      RingIsFlat(c, members[..n]);
      var ring := EncodeRing(c, members);
      assert EncodeRing(c, members[..n]) == ring[..n];
      assert KeysOf(ring) == KeysOf(ring[..n]) + [ring[n].0];
      assert CommitmentsOf(ring) == CommitmentsOf(ring[..n]) + [ring[n].1];
      FlatConcat(KeysOf(ring[..n]), [ring[n].0]);
      FlatConcat(CommitmentsOf(ring[..n]), [ring[n].1]);
      FlatFew(ring[n].0, [], [], []);
      FlatFew(ring[n].1, [], [], []);
    }
  }

  lemma LabelsAre()
    ensures Domain(ROUND) == ROUND_LABEL && Domain(AGG_0) == AGG_0_LABEL && Domain(AGG_1) == AGG_1_LABEL
  {
  }

  lemma RoundIs(c: Curve, st: Statement, ring: RingBytes, pseudoOut: seq<byte>, left: Point, right: Point)
    requires c.Valid() && ring == EncodeRing(c, st.ring) && pseudoOut == c.Encode(st.pseudoOut)
    ensures RoundHash(c, st, left, right) == Red(c.hash(RoundBytes(ring, pseudoOut, st.msg, c.Encode(left), c.Encode(right))))
  {
    hide Curve.Encode, EncodeKeys, EncodeCommitments, Red, Flat, Domain;
    LabelsAre();
    RingIsFlat(c, st.ring);
    var pieces := [pseudoOut, st.msg, c.Encode(left), c.Encode(right)];
    FlatConcat([ROUND_LABEL], KeysOf(ring));
    FlatConcat([ROUND_LABEL] + KeysOf(ring), CommitmentsOf(ring));
    FlatConcat([ROUND_LABEL] + KeysOf(ring) + CommitmentsOf(ring), pieces);
    FlatFew(ROUND_LABEL, [], [], []);
    FlatFew(pseudoOut, st.msg, c.Encode(left), c.Encode(right));
    var start := ROUND_LABEL + Flat(KeysOf(ring)) + Flat(CommitmentsOf(ring));
    assert ROUND_LABEL + (Flat(KeysOf(ring)) + Flat(CommitmentsOf(ring))) == start;
    assert start + (pseudoOut + st.msg + c.Encode(left) + c.Encode(right)) ==
           start + pseudoOut + st.msg + c.Encode(left) + c.Encode(right);
  }

  lemma AggIs(c: Curve, st: Statement, ring: RingBytes)
    requires c.Valid() && ring == EncodeRing(c, st.ring)
    ensures MuP(c, st) == Red(c.hash(AggBytes(AGG_0_LABEL, ring, c.Encode(st.I), st.dSerialized, c.Encode(st.pseudoOut))))
    ensures MuC(c, st) == Red(c.hash(AggBytes(AGG_1_LABEL, ring, c.Encode(st.I), st.dSerialized, c.Encode(st.pseudoOut))))
  {
    hide Curve.Encode, EncodeKeys, EncodeCommitments, Red, Flat, Domain;
    LabelsAre();
    AggTranscriptIs(c, st, ring, AGG_0, AGG_0_LABEL);
    AggTranscriptIs(c, st, ring, AGG_1, AGG_1_LABEL);
  }

  lemma AggTranscriptIs(c: Curve, st: Statement, ring: RingBytes, tag: seq<byte>, tagLabel: seq<byte>)
    requires c.Valid() && ring == EncodeRing(c, st.ring) && |tag| == 5 && Domain(tag) == tagLabel
    ensures AggTranscript(c, st, tag) == AggBytes(tagLabel, ring, c.Encode(st.I), st.dSerialized, c.Encode(st.pseudoOut))
  {
    hide Curve.Encode, EncodeKeys, EncodeCommitments, Flat, Domain;
    RingIsFlat(c, st.ring);
    var I, D, pseudoOut := c.Encode(st.I), st.dSerialized, c.Encode(st.pseudoOut);
    FlatConcat([tagLabel], KeysOf(ring));
    FlatConcat([tagLabel] + KeysOf(ring), CommitmentsOf(ring));
    FlatConcat([tagLabel] + KeysOf(ring) + CommitmentsOf(ring), [I, D, pseudoOut]);
    FlatFew(tagLabel, [], [], []);
    FlatFew(I, D, pseudoOut, []);
    assert tagLabel + (Flat(KeysOf(ring)) + Flat(CommitmentsOf(ring))) ==
           tagLabel + Flat(KeysOf(ring)) + Flat(CommitmentsOf(ring));
  }

  // ---------------------------------------------------------------------------------------------
  // The message, the ring and the pseudo-out.

  lemma LastStep(c: Curve, st: Statement, s: seq<Scalar>, i: nat, entering: Scalar)
    requires c.Valid() && i < |st.ring| == |s|
    ensures Step(c, st, s[i], i, entering) ==
            RoundHash(c, st, Left(c, st, s[i], i, entering), Right(c, st, s[i], i, entering))
  {
    hide RoundHash, Left, Right;
  }

  lemma RedTwice(a: int, b: int)
    requires Red(Red(a)) == Red(b)
    ensures Eq(a, b)
  {
    RedEq(a);
  }

  // One challenge accepted for two messages, two rings or two pseudo-outs is a collision: the hash takes two
  // different byte strings to it, each of which says what was signed.
  lemma OneStatement(c: Curve, a: Signature, b: Signature, ring: RingBytes, ring': RingBytes, I: seq<byte>, I': seq<byte>,
                     pseudoOut: seq<byte>, pseudoOut': seq<byte>, msg: seq<byte>, msg': seq<byte>)
    returns (x: seq<byte>, y: seq<byte>)
    requires c.Valid() && |msg| == |msg'| == 32 && a.c1 == b.c1 && |a.s| == |b.s|
    requires Verdict(c, a, ring, I, pseudoOut, msg) == Ok(()) && Verdict(c, b, ring', I', pseudoOut', msg') == Ok(())
    ensures Eq(c.hash(x), a.c1) && Eq(c.hash(y), a.c1)
    ensures exists left, right :: |left| == |right| == 32 && x == RoundBytes(ring, pseudoOut, msg, left, right)
    ensures exists left, right :: |left| == |right| == 32 && y == RoundBytes(ring', pseudoOut', msg', left, right)
    ensures x == y ==> ring == ring' && pseudoOut == pseudoOut' && msg == msg'
  {
    VerifiedBytes(c, a, ring, I, pseudoOut, msg);
    VerifiedBytes(c, b, ring', I', pseudoOut', msg');
    hide Verdict, RoundBytes, Eq, Entering, Walk, Left, Right, Curve.Encode;
    var left, right := LastRound(c, a, ring, I, pseudoOut, msg);
    var left', right' := LastRound(c, b, ring', I', pseudoOut', msg');
    x, y := RoundBytes(ring, pseudoOut, msg, left, right), RoundBytes(ring', pseudoOut', msg', left', right');
    if x == y {
      RoundBinds(ring, pseudoOut, msg, left, right, ring', pseudoOut', msg', left', right');
    }
  }

  lemma RoundBinds(ring: RingBytes, pseudoOut: seq<byte>, msg: seq<byte>, left: seq<byte>, right: seq<byte>,
                   ring': RingBytes, pseudoOut': seq<byte>, msg': seq<byte>, left': seq<byte>, right': seq<byte>)
    requires AllOf32(KeysOf(ring)) && AllOf32(CommitmentsOf(ring)) && AllOf32(KeysOf(ring')) && AllOf32(CommitmentsOf(ring'))
    requires AllOf32([pseudoOut, msg, left, right]) && AllOf32([pseudoOut', msg', left', right']) && |ring| == |ring'|
    requires RoundBytes(ring, pseudoOut, msg, left, right) == RoundBytes(ring', pseudoOut', msg', left', right')
    ensures ring == ring' && pseudoOut == pseudoOut' && msg == msg' && left == left' && right == right'
  {
    hide Flat;
    var k, m, t := KeysOf(ring), CommitmentsOf(ring), [pseudoOut, msg, left, right];
    var k', m', t' := KeysOf(ring'), CommitmentsOf(ring'), [pseudoOut', msg', left', right'];
    FlatBinds([ROUND_LABEL] + k + m + t, [ROUND_LABEL] + k' + m' + t');
    PiecesBind([ROUND_LABEL], k, m, t, [ROUND_LABEL], k', m', t');
    RingBinds(ring, ring');
    assert t[0] == t'[0] && t[1] == t'[1] && t[2] == t'[2] && t[3] == t'[3];
  }

  lemma RingBinds(ring: RingBytes, ring': RingBytes)
    requires KeysOf(ring) == KeysOf(ring') && CommitmentsOf(ring) == CommitmentsOf(ring')
    ensures ring == ring'
  {
    assert |ring| == |KeysOf(ring)| == |KeysOf(ring')| == |ring'|;
    forall i | 0 <= i < |ring|
      ensures ring[i] == ring'[i]
    {
      assert KeysOf(ring)[i] == KeysOf(ring')[i] && CommitmentsOf(ring)[i] == CommitmentsOf(ring')[i];
    }
  }

  // ---------------------------------------------------------------------------------------------
  // The key image and D, through the aggregation coefficients.

  /** The coefficients hash different things for different statements, and never the same for the two of them. */
  lemma CoefficientsBind(tag: seq<byte>, ring: RingBytes, I: seq<byte>, D: seq<byte>, pseudoOut: seq<byte>,
                         tag': seq<byte>, ring': RingBytes, I': seq<byte>, D': seq<byte>, pseudoOut': seq<byte>)
    requires AllOf32(KeysOf(ring)) && AllOf32(CommitmentsOf(ring)) && AllOf32(KeysOf(ring')) && AllOf32(CommitmentsOf(ring'))
    requires AllOf32([tag, I, D, pseudoOut]) && AllOf32([tag', I', D', pseudoOut']) && |ring| == |ring'|
    requires AggBytes(tag, ring, I, D, pseudoOut) == AggBytes(tag', ring', I', D', pseudoOut')
    ensures tag == tag' && ring == ring' && I == I' && D == D' && pseudoOut == pseudoOut'
  {
    hide Flat;
    assert |[tag, I, D, pseudoOut][0]| == 32 && |[tag', I', D', pseudoOut'][0]| == 32;
    assert |[tag, I, D, pseudoOut][1]| == 32 && |[tag', I', D', pseudoOut'][1]| == 32;
    assert |[tag, I, D, pseudoOut][2]| == 32 && |[tag', I', D', pseudoOut'][2]| == 32;
    assert |[tag, I, D, pseudoOut][3]| == 32 && |[tag', I', D', pseudoOut'][3]| == 32;
    var k, m, t := KeysOf(ring), CommitmentsOf(ring), [I, D, pseudoOut];
    var k', m', t' := KeysOf(ring'), CommitmentsOf(ring'), [I', D', pseudoOut'];
    FlatBinds([tag] + k + m + t, [tag'] + k' + m' + t');
    PiecesBind([tag], k, m, t, [tag'], k', m', t');
    RingBinds(ring, ring');
    assert [tag][0] == [tag'][0] && t[0] == t'[0] && t[1] == t'[1] && t[2] == t'[2];
  }

  // ---------------------------------------------------------------------------------------------
  // The responses.

  /** The multiple of the generator is the aggregate of two points. */
  ghost predicate Opens(r: int, generator: Point, p: int, x: Point, m: int, y: Point) {
    EqPoint(r * generator, p * x + m * y)
  }

  // Two answers of one round, to two challenges, open the member it is of: what they differ by is, as a multiple of
  // the base point, the aggregate of the key and of the commitment's difference, and as one of the key's own
  // generator, the aggregate of the key image and D.
  lemma TwoAnswers(c: Curve, st: Statement, ring: RingBytes, i: nat, r: Scalar, r': Scalar, challenge: Scalar, challenge': Scalar)
    requires c.Valid() && i < |st.ring| && ring == EncodeRing(c, st.ring)
    requires EqPoint(Left(c, st, r, i, challenge), Left(c, st, r', i, challenge'))
    requires EqPoint(Right(c, st, r, i, challenge), Right(c, st, r', i, challenge'))
    ensures var I, pseudoOut := c.Encode(st.I), c.Encode(st.pseudoOut);
            var muP := Red(c.hash(AggBytes(AGG_0_LABEL, ring, I, st.dSerialized, pseudoOut)));
            var muC := Red(c.hash(AggBytes(AGG_1_LABEL, ring, I, st.dSerialized, pseudoOut)));
            var p, m := Red(muP * challenge') - Red(muP * challenge), Red(muC * challenge') - Red(muC * challenge);
            && Opens(Red(r) - Red(r'), 8, p, st.ring[i].0, m, st.ring[i].1 - st.pseudoOut)
            && Opens(Red(r) - Red(r'), 8 * c.hashToPoint(c.Encode(st.ring[i].0)), p, st.I, m, st.D)
  {
    hide *;
    AggIs(c, st, ring);
    var muP, muC := MuP(c, st), MuC(c, st);
    PointsAre(c, st, i, r, challenge);
    PointsAre(c, st, i, r', challenge');
    Difference(Red(r), Red(r'), 8, Red(muP * challenge), Red(muP * challenge'), st.ring[i].0, Red(muC * challenge),
               Red(muC * challenge'), st.ring[i].1 - st.pseudoOut);
    Difference(Red(r), Red(r'), 8 * c.hashToPoint(c.Encode(st.ring[i].0)), Red(muP * challenge), Red(muP * challenge'), st.I,
               Red(muC * challenge), Red(muC * challenge'), st.D);
  }

  /** A sum of three multiples. */
  function Combined(r: int, g: int, a: int, x: int, b: int, y: int): int {
    r * g + a * x + b * y
  }

  lemma PointsAre(c: Curve, st: Statement, i: nat, r: Scalar, challenge: Scalar)
    requires c.Valid() && i < |st.ring|
    ensures Left(c, st, r, i, challenge) ==
            Combined(Red(r), 8, Red(MuP(c, st) * challenge), st.ring[i].0, Red(MuC(c, st) * challenge),
                     st.ring[i].1 - st.pseudoOut)
    ensures Right(c, st, r, i, challenge) ==
            Combined(Red(r), 8 * c.hashToPoint(c.Encode(st.ring[i].0)), Red(MuP(c, st) * challenge), st.I,
                     Red(MuC(c, st) * challenge), st.D)
  {
    hide MuP, MuC, Red, Curve.Encode;
  }

  lemma Difference(r: int, r': int, g: int, a: int, a': int, x: int, b: int, b': int, y: int)
    requires EqPoint(Combined(r, g, a, x, b, y), Combined(r', g, a', x, b', y))
    ensures Opens(r - r', g, a' - a, x, b' - b, y)
  {
    var k := EqPointToMultiple(r * g + a * x + b * y, r' * g + a' * x + b' * y);
    assert (r - r') * g == r * g - r' * g && (a' - a) * x == a' * x - a * x && (b' - b) * y == b' * y - b * y;
    EqPointFromMultiple((r - r') * g, (a' - a) * x + (b' - b) * y, k);
  }

  /** What a verifier takes a signature to be about. */
  function Verified(c: Curve, signature: Signature, ring: RingBytes, I: seq<byte>, pseudoOut: seq<byte>, msg: seq<byte>)
    : (st: Statement)
    requires c.Valid() && Verdict(c, signature, ring, I, pseudoOut, msg) == Ok(())
    ensures |st.ring| == |ring| == |signature.s| > 0
  {
    hide Walk, IsKeyImage, IsIdentity;
    Statement(DecodeRing(c, ring).value, c.decompress(I).value, c.decompress(pseudoOut).value, msg,
              8 * c.decompress(signature.D).value, signature.D)
  }

  /** The challenge which enters the last member. */
  function Entering(c: Curve, signature: Signature, ring: RingBytes, I: seq<byte>, pseudoOut: seq<byte>, msg: seq<byte>): Scalar
    requires c.Valid() && Verdict(c, signature, ring, I, pseudoOut, msg) == Ok(())
  {
    var n := |ring|;
    Walk(c, Verified(c, signature, ring, I, pseudoOut, msg), signature.s, 0, n - 1, signature.c1)
  }

  // Two signatures accepted with one challenge, for one statement, open the last member, or are a collision.
  lemma SharedChallengeOpens(c: Curve, a: Signature, b: Signature, ring: RingBytes, I: seq<byte>, pseudoOut: seq<byte>,
                             msg: seq<byte>)
    returns (x: seq<byte>, y: seq<byte>)
    requires c.Valid() && |msg| == 32 && a.c1 == b.c1 && a.D == b.D
    requires Verdict(c, a, ring, I, pseudoOut, msg) == Ok(()) && Verdict(c, b, ring, I, pseudoOut, msg) == Ok(())
    ensures Eq(c.hash(x), a.c1) && Eq(c.hash(y), a.c1)
    ensures var st := Verified(c, a, ring, I, pseudoOut, msg);
            var n := |ring| - 1;
            var entering, entering' := Entering(c, a, ring, I, pseudoOut, msg), Entering(c, b, ring, I, pseudoOut, msg);
            var muP := Red(c.hash(AggBytes(AGG_0_LABEL, ring, I, a.D, pseudoOut)));
            var muC := Red(c.hash(AggBytes(AGG_1_LABEL, ring, I, a.D, pseudoOut)));
            var p, m := Red(muP * entering') - Red(muP * entering), Red(muC * entering') - Red(muC * entering);
            x == y ==>
              && Opens(Red(a.s[n]) - Red(b.s[n]), 8, p, st.ring[n].0, m, st.ring[n].1 - st.pseudoOut)
              && Opens(Red(a.s[n]) - Red(b.s[n]), 8 * c.hashToPoint(ring[n].0), p, st.I, m, st.D)
  {
    hide Red, Eq, EqPoint, Curve.Encode, Left, Right, Step, RoundBytes, AggBytes, Verdict, Walk, Opens;
    var st := Verified(c, a, ring, I, pseudoOut, msg);
    assert Verified(c, b, ring, I, pseudoOut, msg) == st;
    var n := |ring| - 1;
    var entering, entering' := Entering(c, a, ring, I, pseudoOut, msg), Entering(c, b, ring, I, pseudoOut, msg);
    var l, r := LastRound(c, a, ring, I, pseudoOut, msg);
    var l', r' := LastRound(c, b, ring, I, pseudoOut, msg);
    x, y := RoundBytes(ring, pseudoOut, msg, l, r), RoundBytes(ring, pseudoOut, msg, l', r');
    VerifiedBytes(c, a, ring, I, pseudoOut, msg);
    if x == y {
      RoundBinds(ring, pseudoOut, msg, l, r, ring, pseudoOut, msg, l', r');
      EncodesPoint(c, Left(c, st, a.s[n], n, entering), Left(c, st, b.s[n], n, entering'));
      EncodesPoint(c, Right(c, st, a.s[n], n, entering), Right(c, st, b.s[n], n, entering'));
      TwoAnswers(c, st, ring, n, a.s[n], b.s[n], entering, entering');
    }
  }

  lemma VerifiedBytes(c: Curve, signature: Signature, ring: RingBytes, I: seq<byte>, pseudoOut: seq<byte>, msg: seq<byte>)
    requires c.Valid() && Verdict(c, signature, ring, I, pseudoOut, msg) == Ok(())
    ensures var st := Verified(c, signature, ring, I, pseudoOut, msg);
            && EncodeRing(c, st.ring) == ring && c.Encode(st.I) == I && c.Encode(st.pseudoOut) == pseudoOut
            && |pseudoOut| == |I| == |signature.D| == 32 && st.dSerialized == signature.D
            && AllOf32(KeysOf(ring)) && AllOf32(CommitmentsOf(ring))
            && forall i :: 0 <= i < |ring| ==> c.Encode(st.ring[i].0) == ring[i].0
  {
    hide Walk, IsKeyImage, IsIdentity, Curve.Encode;
    DecodedRing(c, ring);
    DecodedIs(c, I);
    DecodedIs(c, pseudoOut);
    DecodedIs(c, signature.D);
    var st := Verified(c, signature, ring, I, pseudoOut, msg);
    forall i | 0 <= i < |ring|
      ensures c.Encode(st.ring[i].0) == ring[i].0
    {
      assert EncodeRing(c, st.ring)[i] == ring[i];
    }
  }

  /** The two points of the last round. */
  lemma LastRound(c: Curve, signature: Signature, ring: RingBytes, I: seq<byte>, pseudoOut: seq<byte>, msg: seq<byte>)
    returns (left: seq<byte>, right: seq<byte>)
    requires c.Valid() && Verdict(c, signature, ring, I, pseudoOut, msg) == Ok(())
    ensures var st := Verified(c, signature, ring, I, pseudoOut, msg);
            var n := |ring| - 1;
            var entering := Entering(c, signature, ring, I, pseudoOut, msg);
            && left == c.Encode(Left(c, st, signature.s[n], n, entering))
            && right == c.Encode(Right(c, st, signature.s[n], n, entering))
    ensures |left| == |right| == 32
    ensures Eq(c.hash(RoundBytes(ring, pseudoOut, msg, left, right)), signature.c1)
  {
    hide Red, Step, Left, Right, Curve.Encode, RoundHash, RoundBytes, Walk, Verified;
    VerifiedBytes(c, signature, ring, I, pseudoOut, msg);
    ClosedWalk(c, signature, ring, I, pseudoOut, msg);
    var st := Verified(c, signature, ring, I, pseudoOut, msg);
    var n := |ring| - 1;
    var entering := Entering(c, signature, ring, I, pseudoOut, msg);
    WalkOnce(c, st, signature.s, n, signature.c1);
    LastStep(c, st, signature.s, n, entering);
    var l, r := Left(c, st, signature.s[n], n, entering), Right(c, st, signature.s[n], n, entering);
    left, right := c.Encode(l), c.Encode(r);
    RoundIs(c, st, ring, pseudoOut, l, r);
    RedTwice(c.hash(RoundBytes(ring, pseudoOut, msg, left, right)), signature.c1);
  }

  lemma ClosedWalk(c: Curve, signature: Signature, ring: RingBytes, I: seq<byte>, pseudoOut: seq<byte>, msg: seq<byte>)
    requires c.Valid() && Verdict(c, signature, ring, I, pseudoOut, msg) == Ok(())
    ensures var st := Verified(c, signature, ring, I, pseudoOut, msg);
            && st.msg == msg
            && Red(Walk(c, st, signature.s, 0, |signature.s|, signature.c1)) == Red(signature.c1)
  {
    hide Walk, IsKeyImage, IsIdentity, Red;
  }

  // Keys have generators of their own, unless the hash to a point collides.
  lemma GeneratorsBind(c: Curve, p: Point, q: Point)
    requires c.Valid() && ImageGenerator(c, p) == ImageGenerator(c, q)
    requires c.hashToPoint(c.Encode(p)) == c.hashToPoint(c.Encode(q)) ==> c.Encode(p) == c.Encode(q)
    ensures EqPoint(p, q)
  {
    hide Curve.Encode, EqPoint;
    EncodesPoint(c, p, q);
  }
}
