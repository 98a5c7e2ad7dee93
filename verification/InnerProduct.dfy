/** ringct/bulletproofs/src/original/inner_product.rs: Protocol 2 of the Bulletproofs paper. */
module InnerProduct {
  import opened Wrappers
  import opened Ed25519
  import opened Vectors
  import opened Accumulator

  datatype IpError = IncorrectAmountOfGenerators | DifferingLrLengths | InvalidPoint

  datatype IpStatement = IpStatement(hBoldWeights: Vector, u: Scalar)

  datatype IpWitness = IpWitness(a: Vector, b: Vector)

  datatype IpProof = IpProof(L: seq<seq<byte>>, R: seq<seq<byte>>, a: Scalar, b: Scalar)

  method NewWitness(a: Vector, b: Vector) returns (res: Option<IpWitness>)
    ensures res.Some? <==> (|a| == |b| && exists k: nat :: |a| == Pow2(k))
    ensures res.Some? ==> res.value == IpWitness(a, b)
  {
    if |a| == 0 || |a| != |b| {
      return None;
    }
    var powerOf2 := 1;
    ghost var k: nat := 0;
    while powerOf2 < |a|
      invariant powerOf2 == Pow2(k)
      invariant forall j: nat :: j < k ==> Pow2(j) < |a|
    {
      powerOf2 := powerOf2 * 2;
      k := k + 1;
    }
    if powerOf2 != |a| {
      forall j: nat
        ensures |a| != Pow2(j)
      {
        if k <= j {
          Pow2Monotone(k, j);
        }
      }
      return None;
    }
    return Some(IpWitness(a, b));
  }

  // ---------------------------------------------------------------------------------------------
  // The reference: a verifier which folds the generators and the statement, as the paper does.

  /** What the paper's verifier holds between rounds. */
  datatype Round = Round(g: Vector, h: Vector, P: SubPoint, transcript: Scalar)

  function TranscriptLR(c: Curve, transcript: Scalar, l: seq<byte>, r: seq<byte>): Scalar
    requires c.Valid()
    ensures !Eq(TranscriptLR(c, transcript, l, r), 0)
  {
    c.hash(c.EncodeScalar(transcript) + l + r)
  }

  function NextRound(c: Curve, st: Round, l: seq<byte>, r: seq<byte>): (next: Option<Round>)
    requires c.Valid()
  {
    var x := TranscriptLR(c, st.transcript, l, r);
    var xInv := c.invert(x);
    match (c.Receive(l), c.Receive(r))
    case (Some(lPoint), Some(rPoint)) =>
      Some(Round(FoldOnce(st.g, (x, xInv)), FoldOnce(st.h, (xInv, x)),
                 x * x * lPoint + st.P + xInv * xInv * rPoint, x))
    case _ => None
  }

  /** The rounds of a proof. */
  function Replay(c: Curve, st: Round, L: seq<seq<byte>>, R: seq<seq<byte>>): (end: Option<Round>)
    requires c.Valid()
    requires |L| == |R|
    decreases |L|
  {
    if L == [] then Some(st)
    else
      match NextRound(c, st, L[0], R[0])
      case None => None
      case Some(next) => Replay(c, next, L[1..], R[1..])
  }

  /** The relation a witness has with the statement's point. */
  function Relation(a: Vector, b: Vector, g: Vector, h: Vector, u: SubPoint): SubPoint
    requires |a| == |b| == |g| == |h|
  {
    Dot(a, g) + Dot(b, h) + Dot(a, b) * u
  }

  /** The proof convinces the paper's verifier that it opens `st.P`. */
  ghost predicate Accepts(c: Curve, u: SubPoint, st: Round, proof: IpProof)
    requires c.Valid()
  {
    && |proof.L| == |proof.R|
    && |st.g| == |st.h| == Pow2(|proof.L|)
    && match Replay(c, st, proof.L, proof.R)
       case None => false
       case Some(end) =>
         && |end.g| == |end.h| == 1
         && Eq(end.P, Relation([proof.a], [proof.b], end.g, end.h, u))
  }

  lemma {:induction false} ReplaySnoc(c: Curve, st: Round, L: seq<seq<byte>>, R: seq<seq<byte>>,
                                      l: seq<byte>, r: seq<byte>)
    requires c.Valid()
    requires |L| == |R|
    requires Replay(c, st, L, R).Some?
    ensures Replay(c, st, L + [l], R + [r]) == NextRound(c, Replay(c, st, L, R).value, l, r)
    decreases |L|
  {
    if L == [] {
      assert (L + [l])[1..] == [] && (R + [r])[1..] == [];
    } else {
      var next := NextRound(c, st, L[0], R[0]).value;
      ReplaySnoc(c, next, L[1..], R[1..], l, r);
      assert (L + [l])[1..] == L[1..] + [l] && (R + [r])[1..] == R[1..] + [r];
    }
  }

  // ---------------------------------------------------------------------------------------------
  // One round keeps the relation.

  /** The points L and R of a round, lines 23 and 24 of the protocol. */
  function LeftTerm(a: Vector, b: Vector, g: Vector, h: Vector, u: SubPoint): SubPoint
    requires |a| == |b| == |g| == |h|
  {
    Dot(Low(a), High(g)) + Dot(High(b), Low(h)) + Dot(Low(a), High(b)) * u
  }

  function RightTerm(a: Vector, b: Vector, g: Vector, h: Vector, u: SubPoint): SubPoint
    requires |a| == |b| == |g| == |h|
  {
    Dot(High(a), Low(g)) + Dot(Low(b), High(h)) + Dot(High(a), Low(b)) * u
  }

  lemma FoldedRelation(x: Scalar, y: Scalar, a: Vector, b: Vector, g: Vector, h: Vector, u: SubPoint)
    requires |a| == |b| == |g| == |h| && |a| % 2 == 0
    ensures Relation(FoldOnce(a, (y, x)), FoldOnce(b, (x, y)), FoldOnce(g, (x, y)), FoldOnce(h, (y, x)), u) ==
            x * y * Relation(a, b, g, h, u) + x * x * LeftTerm(a, b, g, h, u) + y * y * RightTerm(a, b, g, h, u)
  {
    var a1, a2, b1, b2, g1, g2, h1, h2 := Low(a), High(a), Low(b), High(b), Low(g), High(g), Low(h), High(h);
    DotCross(x, a1, y, a2, y, g1, x, g2);
    DotCross(y, b1, x, b2, x, h1, y, h2);
    DotCross(x, a1, y, a2, y, b1, x, b2);
    DotHalves(a, g);
    DotHalves(b, h);
    DotHalves(a, b);
    Gather(x, y, u, Dot(a1, g1), Dot(a1, g2), Dot(a2, g1), Dot(a2, g2),
           Dot(b1, h1), Dot(b1, h2), Dot(b2, h1), Dot(b2, h2), Dot(a1, b1), Dot(a1, b2), Dot(a2, b1), Dot(a2, b2));
  }

  lemma Gather(x: int, y: int, u: int, p1: int, q1: int, r1: int, s1: int,
               p2: int, q2: int, r2: int, s2: int, p3: int, q3: int, r3: int, s3: int)
    ensures x * (y * p1 + x * q1) + y * (y * r1 + x * s1) + (y * (x * p2 + y * q2) + x * (x * r2 + y * s2)) +
            (x * (y * p3 + x * q3) + y * (y * r3 + x * s3)) * u ==
            x * y * ((p1 + s1) + (p2 + s2) + (p3 + s3) * u) + x * x * (q1 + r2 + q3 * u) + y * y * (r1 + q2 + r3 * u)
  {
    GatherOne(x, y, p1, q1, r1, s1);
    GatherOne(y, x, p2, q2, r2, s2);
    GatherOne(x, y, p3, q3, r3, s3);
    GatherAll(x * y, x * x, y * y, u, p1 + s1, q1, r1, p2 + s2, q2, r2, p3 + s3, q3, r3);
  }

  lemma GatherOne(x: int, y: int, p: int, q: int, r: int, s: int)
    ensures x * (y * p + x * q) + y * (y * r + x * s) == x * y * (p + s) + x * x * q + y * y * r
  {
  }

  lemma GatherAll(m: int, e: int, f: int, u: int, p1: int, q1: int, r1: int, p2: int, q2: int, r2: int,
                  p3: int, q3: int, r3: int)
    ensures (m * p1 + e * q1 + f * r1) + (m * p2 + f * q2 + e * r2) + (m * p3 + e * q3 + f * r3) * u ==
            m * (p1 + p2 + p3 * u) + e * (q1 + r2 + q3 * u) + f * (r1 + q2 + r3 * u)
  {
  }

  lemma RoundKeepsRelation(x: Scalar, xInv: Scalar, a: Vector, b: Vector, g: Vector, h: Vector,
                           u: SubPoint, P: SubPoint, l: SubPoint, r: SubPoint)
    requires |a| == |b| == |g| == |h| && |a| % 2 == 0
    requires Eq(x * xInv, 1)
    requires Eq(P, Relation(a, b, g, h, u))
    requires Eq(l, LeftTerm(a, b, g, h, u)) && Eq(r, RightTerm(a, b, g, h, u))
    ensures Eq(x * x * l + P + xInv * xInv * r,
               Relation(FoldOnce(a, (xInv, x)), FoldOnce(b, (x, xInv)),
                        FoldOnce(g, (x, xInv)), FoldOnce(h, (xInv, x)), u))
  {
    FoldedRelation(x, xInv, a, b, g, h, u);
    CongruentRound(x, xInv, P, l, r, Relation(a, b, g, h, u), LeftTerm(a, b, g, h, u), RightTerm(a, b, g, h, u));
  }

  lemma CongruentRound(x: int, xInv: int, P: int, l: int, r: int, diagonal: int, left: int, right: int)
    requires Eq(x * xInv, 1) && Eq(P, diagonal) && Eq(l, left) && Eq(r, right)
    ensures Eq(x * x * l + P + xInv * xInv * r,
               (x * xInv) * diagonal + (x * x) * left + (xInv * xInv) * right)
  {
    EqMul(x * xInv, 1, diagonal, diagonal);
    EqScale(x * x, l, left);
    EqScale(xInv * xInv, r, right);
    EqAdd(P, x * xInv * diagonal, x * x * l, x * x * left);
    EqAdd(P + x * x * l, x * xInv * diagonal + x * x * left, xInv * xInv * r, xInv * xInv * right);
  }

  // ---------------------------------------------------------------------------------------------
  // The prover.

  method FoldPoints(low: Vector, high: Vector, lowScalar: Scalar, highScalar: Scalar) returns (res: Vector)
    requires |low| == |high|
    ensures res == Lin(lowScalar, low, highScalar, high)
  {
    res := [];
    for i := 0 to |low|
      invariant |res| == i
      invariant forall k :: 0 <= k < i ==> res[k] == lowScalar * low[k] + highScalar * high[k]
    {
      MsmPair(lowScalar, low[i], highScalar, high[i]);
      res := res + [Msm([(lowScalar, low[i]), (highScalar, high[i])])];
    }
  }

  /** The statement an honest prover starts from. */
  function Start(generators: Generators, weights: Vector, n: nat, P: SubPoint, transcript: Scalar): Round
    requires n <= |generators.G| && n <= |generators.H| && |weights| == n
  {
    Round(generators.G[..n], Times(generators.H[..n], weights), P, transcript)
  }

  /** The body of the prover's loop, lines 20 to 34 of the protocol. */
  method ProveRound(c: Curve, u: SubPoint, transcript: Scalar, a: Vector, b: Vector, gBold: Vector, hBold: Vector)
    returns (l: seq<byte>, r: seq<byte>, x: Scalar, a': Vector, b': Vector, gBold': Vector, hBold': Vector)
    requires c.Valid()
    requires |a| == |b| == |gBold| == |hBold|
    ensures l == c.Transmit(LeftTerm(a, b, gBold, hBold, u))
    ensures r == c.Transmit(RightTerm(a, b, gBold, hBold, u))
    ensures x == TranscriptLR(c, transcript, l, r)
    ensures gBold' == FoldOnce(gBold, (x, c.invert(x))) && hBold' == FoldOnce(hBold, (c.invert(x), x))
    ensures a' == FoldOnce(a, (c.invert(x), x)) && b' == FoldOnce(b, (x, c.invert(x)))
  {
    hide Dot, Msm, Zip, Curve.Transmit, TranscriptLR;
    var a1, a2 := Low(a), High(a);
    var b1, b2 := Low(b), High(b);
    var gBold1, gBold2 := Low(gBold), High(gBold);
    var hBold1, hBold2 := Low(hBold), High(hBold);

    var cl := Dot(a1, b2);
    var cr := Dot(a2, b1);

    var lTerms := Zip(a1, gBold2) + Zip(b2, hBold1) + [(cl, u)];
    MsmTerms(a1, gBold2, b2, hBold1, cl, u);
    l := c.Transmit(Msm(lTerms));
    var rTerms := Zip(a2, gBold1) + Zip(b1, hBold2) + [(cr, u)];
    MsmTerms(a2, gBold1, b1, hBold2, cr, u);
    r := c.Transmit(Msm(rTerms));

    x := TranscriptLR(c, transcript, l, r);
    var xInv := c.invert(x);

    gBold' := FoldPoints(gBold1, gBold2, xInv, x);
    hBold' := FoldPoints(hBold1, hBold2, x, xInv);

    a' := Lin(x, a1, xInv, a2);
    b' := Lin(xInv, b1, x, b2);
  }

  method Prove(c: Curve, generators: Generators, statement: IpStatement, initialTranscript: Scalar, w: IpWitness)
    returns (res: Result<IpProof, IpError>)
    requires c.Valid()
    requires |w.a| == |w.b| && exists k: nat :: |w.a| == Pow2(k)
    requires |w.a| <= |generators.G| && |w.a| <= |generators.H|
    ensures res == Err(IncorrectAmountOfGenerators) <==> |statement.hBoldWeights| != |w.a|
    ensures |statement.hBoldWeights| == |w.a| ==>
              var u := statement.u * c.h;
              var st := Start(generators, statement.hBoldWeights, |w.a|, 0, initialTranscript);
              && res.Ok?
              && Accepts(c, u, st.(P := Relation(w.a, w.b, st.g, st.h, u)), res.value)
  {
    hide Relation, FoldOnce, LeftTerm, RightTerm, Honest, Replay, TranscriptLR, Eq, Times, Pow2, Accepts;
    var u := statement.u * c.h;
    if |statement.hBoldWeights| != |w.a| {
      return Err(IncorrectAmountOfGenerators);
    }
    var gBold := generators.G[..|w.a|];
    var hBold := Times(generators.H[..|w.a|], statement.hBoldWeights);
    var a, b, transcript := w.a, w.b, initialTranscript;

    var L: seq<seq<byte>>, R: seq<seq<byte>> := [], [];
    ghost var k: nat :| |w.a| == Pow2(k);
    ghost var rounds := k;
    ghost var now := Round(gBold, hBold, Relation(a, b, gBold, hBold, u), transcript);
    ghost var st := now;

    HonestStart(c, st, a, b, u);

    while |gBold| > 1
      invariant |L| == |R| && |L| + k == rounds
      invariant |a| == |b| == |gBold| == |hBold| == Pow2(k)
      invariant now == Round(gBold, hBold, now.P, transcript)
      invariant Honest(c, st, L, R, a, b, now, u)
    {
      Pow2Half(k);
      now := ProverStep(c, st, L, R, a, b, now, u);
      var l, r;
      l, r, transcript, a, b, gBold, hBold := ProveRound(c, u, transcript, a, b, gBold, hBold);
      L, R := L + [l], R + [r];
      k := k - 1;
    }
    Pow2Half(k);
    HonestAccepted(c, st, L, R, a, b, now, u);
    res := Ok(IpProof(L, R, a[0], b[0]));
  }

  lemma MsmTerms(a: Vector, p: Vector, b: Vector, q: Vector, s: Scalar, u: SubPoint)
    requires |a| == |p| && |b| == |q|
    ensures Msm(Zip(a, p) + Zip(b, q) + [(s, u)]) == Dot(a, p) + Dot(b, q) + s * u
  {
    MsmZip(a, p);
    MsmZip(b, q);
    MsmConcat(Zip(a, p), Zip(b, q));
    MsmSnoc(Zip(a, p) + Zip(b, q), s, u);
  }

  /** The prover's vectors open the point the reference verifier has reached. */
  ghost predicate Honest(c: Curve, st: Round, L: seq<seq<byte>>, R: seq<seq<byte>>,
                         a: Vector, b: Vector, now: Round, u: SubPoint)
    requires c.Valid()
  {
    && |L| == |R|
    && |a| == |b| == |now.g| == |now.h|
    && Replay(c, st, L, R) == Some(now)
    && Eq(now.P, Relation(a, b, now.g, now.h, u))
  }

  // The reference verifier's next round, on points sent by an honest prover.
  lemma TransmittedRound(c: Curve, now: Round, lPoint: SubPoint, rPoint: SubPoint)
    returns (x: Scalar, y: Scalar, l: SubPoint, r: SubPoint)
    requires c.Valid()
    ensures x == TranscriptLR(c, now.transcript, c.Transmit(lPoint), c.Transmit(rPoint)) && y == c.invert(x)
    ensures Eq(x * y, 1) && Eq(l, lPoint) && Eq(r, rPoint)
    ensures NextRound(c, now, c.Transmit(lPoint), c.Transmit(rPoint)) ==
            Some(Round(FoldOnce(now.g, (x, y)), FoldOnce(now.h, (y, x)), x * x * l + now.P + y * y * r, x))
  {
    x := TranscriptLR(c, now.transcript, c.Transmit(lPoint), c.Transmit(rPoint));
    y := c.invert(x);
    InverseWorks(c, x);
    TransmitReceive(c, lPoint);
    TransmitReceive(c, rPoint);
    l, r := c.Receive(c.Transmit(lPoint)).value, c.Receive(c.Transmit(rPoint)).value;
  }

  lemma HonestStart(c: Curve, st: Round, a: Vector, b: Vector, u: SubPoint)
    requires c.Valid()
    requires |a| == |b| == |st.g| == |st.h| && st.P == Relation(a, b, st.g, st.h, u)
    ensures Honest(c, st, [], [], a, b, st, u)
  {
  }

  // Vectors of length one are sent as they are.
  lemma HonestAccepted(c: Curve, st: Round, L: seq<seq<byte>>, R: seq<seq<byte>>, a: Vector, b: Vector, now: Round, u: SubPoint)
    requires c.Valid()
    requires Honest(c, st, L, R, a, b, now, u) && |a| == 1 && |st.g| == |st.h| == Pow2(|L|)
    ensures Accepts(c, u, st, IpProof(L, R, a[0], b[0]))
  {
    hide Relation;
    assert a == [a[0]] && b == [b[0]];
  }

  // What one iteration of the prover does to the reference verifier.
  lemma ProverStep(c: Curve, st: Round, L: seq<seq<byte>>, R: seq<seq<byte>>, a: Vector, b: Vector,
                   now: Round, u: SubPoint)
    returns (next: Round)
    requires c.Valid()
    requires |a| % 2 == 0
    requires Honest(c, st, L, R, a, b, now, u)
    ensures var l := c.Transmit(LeftTerm(a, b, now.g, now.h, u));
            var r := c.Transmit(RightTerm(a, b, now.g, now.h, u));
            var x := TranscriptLR(c, now.transcript, l, r);
            var y := c.invert(x);
            && next == Round(FoldOnce(now.g, (x, y)), FoldOnce(now.h, (y, x)), next.P, x)
            && Honest(c, st, L + [l], R + [r], FoldOnce(a, (y, x)), FoldOnce(b, (x, y)), next, u)
  {
    hide Relation, LeftTerm, RightTerm, FoldOnce, NextRound, Eq;
    var l := c.Transmit(LeftTerm(a, b, now.g, now.h, u));
    var r := c.Transmit(RightTerm(a, b, now.g, now.h, u));
    var x, y, lPoint, rPoint :=
      TransmittedRound(c, now, LeftTerm(a, b, now.g, now.h, u), RightTerm(a, b, now.g, now.h, u));
    RoundKeepsRelation(x, y, a, b, now.g, now.h, u, now.P, lPoint, rPoint);
    ReplaySnoc(c, st, L, R, l, r);
    next := NextRound(c, now, l, r).value;
  }

  // ---------------------------------------------------------------------------------------------
  // The batch verifier, which never folds a vector.

  function Challenges(c: Curve, transcript: Scalar, L: seq<seq<byte>>, R: seq<seq<byte>>): (r: seq<Challenge>)
    requires c.Valid()
    requires |L| == |R|
    ensures |r| == |L|
    decreases |L|
  {
    if L == [] then []
    else
      var x := TranscriptLR(c, transcript, L[0], R[0]);
      [(x, c.invert(x))] + Challenges(c, x, L[1..], R[1..])
  }

  ghost predicate Decodable(c: Curve, points: seq<seq<byte>>) {
    forall i :: 0 <= i < |points| ==> c.Receive(points[i]).Some?
  }

  function PointOrZero(c: Curve, data: seq<byte>): SubPoint {
    match c.Receive(data)
    case Some(p) => p
    case None => 0
  }

  /** What the points L and R add to the statement's point over all rounds. */
  function Cross(c: Curve, challenges: seq<Challenge>, L: seq<seq<byte>>, R: seq<seq<byte>>): SubPoint
    requires |challenges| == |L| == |R|
  {
    Sum(CrossTerms(c, challenges, L, R))
  }

  function CrossTerms(c: Curve, challenges: seq<Challenge>, L: seq<seq<byte>>, R: seq<seq<byte>>): (r: Vector)
    requires |challenges| == |L| == |R|
    ensures |r| == |L|
  {
    seq(|L|, i requires 0 <= i < |L| =>
      challenges[i].0 * challenges[i].0 * PointOrZero(c, L[i]) +
      challenges[i].1 * challenges[i].1 * PointOrZero(c, R[i]))
  }

  /** The point a queued proof adds to the batch, per unit of weight. */
  function Residual(c: Curve, generators: Generators, n: nat, statement: IpStatement,
                    challenges: seq<Challenge>, proof: IpProof): SubPoint
    requires |challenges| == |proof.L| == |proof.R| && n <= Pow2(|challenges|)
    requires n <= |generators.G| && n <= |generators.H| && n <= |statement.hBoldWeights|
  {
    var products := Coefficients(challenges);
    Cross(c, challenges, proof.L, proof.R)
    - proof.a * Dot(products[..n], generators.G[..n])
    - proof.b * Dot(Times(Reverse(products)[..n], statement.hBoldWeights[..n]), generators.H[..n])
    - proof.a * proof.b * (statement.u * c.h)
  }

  // The reference verifier's folded vectors and point, in closed form.
  lemma {:induction false} ReplayClosedForm(c: Curve, st: Round, L: seq<seq<byte>>, R: seq<seq<byte>>)
    requires c.Valid()
    requires |L| == |R| && |st.g| == |st.h| == Pow2(|L|)
    ensures Replay(c, st, L, R).Some? <==> Decodable(c, L) && Decodable(c, R)
    ensures var challenges := Challenges(c, st.transcript, L, R);
            match Replay(c, st, L, R)
            case None => true
            case Some(end) =>
              && end.g == FoldAll(st.g, challenges)
              && end.h == FoldAll(st.h, Swapped(challenges))
              && end.P == st.P + Cross(c, challenges, L, R)
    decreases |L|
  {
    hide CrossTerms, Cross, Lin, Low, High, FoldOnce, TranscriptLR;
    if L == [] {
      CrossOfNone(c, [], L, R);
    } else {
      assert Decodable(c, L) <==> c.Receive(L[0]).Some? && Decodable(c, L[1..]) by {
        assert L == [L[0]] + L[1..];
      }
      assert Decodable(c, R) <==> c.Receive(R[0]).Some? && Decodable(c, R[1..]) by {
        assert R == [R[0]] + R[1..];
      }
      match NextRound(c, st, L[0], R[0]) {
        case None =>
        case Some(next) =>
          var challenges := Challenges(c, st.transcript, L, R);
          ReplayClosedForm(c, next, L[1..], R[1..]);
          assert challenges[1..] == Challenges(c, next.transcript, L[1..], R[1..]);
          CrossStep(c, challenges, L, R, 0);
          assert challenges[0..] == challenges && L[0..] == L && R[0..] == R;
          assert Swapped(challenges)[1..] == Swapped(challenges[1..]);
      }
    }
  }

  // The batch verifier's single sum is the reference verifier's final equation: a proof is accepted
  // for the point P exactly when P and the residual cancel.
  lemma AcceptsIffResidualCancels(c: Curve, generators: Generators, n: nat, statement: IpStatement,
                                  P: SubPoint, transcript: Scalar, proof: IpProof, challenges: seq<Challenge>)
    requires c.Valid()
    requires |proof.L| == |proof.R| && n == Pow2(|proof.L|)
    requires challenges == Challenges(c, transcript, proof.L, proof.R)
    requires n <= |generators.G| && n <= |generators.H| && n == |statement.hBoldWeights|
    ensures Accepts(c, statement.u * c.h, Start(generators, statement.hBoldWeights, n, P, transcript), proof) <==>
            Decodable(c, proof.L) && Decodable(c, proof.R) &&
            Eq(P + Residual(c, generators, n, statement, challenges, proof), 0)
  {
    hide Relation, Residual, Cross, FoldAll, Challenges, Decodable, Replay, Eq, Times, Swapped, Pow2;
    var st := Start(generators, statement.hBoldWeights, n, P, transcript);
    var u := statement.u * c.h;
    ReplayClosedForm(c, st, proof.L, proof.R);
    if Replay(c, st, proof.L, proof.R).Some? {
      var end := Replay(c, st, proof.L, proof.R).value;
      var g, h := end.g[0], end.h[0];
      ResidualFolded(c, generators, n, statement, challenges, proof, g, h);
      FinalRelation(proof.a, proof.b, end.g, end.h, u);
      EqByDifference(end.P, Relation([proof.a], [proof.b], end.g, end.h, u));
    }
  }

  lemma ResidualFolded(c: Curve, generators: Generators, n: nat, statement: IpStatement,
                       challenges: seq<Challenge>, proof: IpProof, g: SubPoint, h: SubPoint)
    requires |challenges| == |proof.L| == |proof.R| && n == Pow2(|challenges|)
    requires n <= |generators.G| && n <= |generators.H| && n == |statement.hBoldWeights|
    requires g == FoldAll(generators.G[..n], challenges)[0]
    requires h == FoldAll(Times(generators.H[..n], statement.hBoldWeights), Swapped(challenges))[0]
    ensures Residual(c, generators, n, statement, challenges, proof) ==
            Cross(c, challenges, proof.L, proof.R)
            - (proof.a * g + proof.b * h + proof.a * proof.b * (statement.u * c.h))
  {
    hide Coefficients, Dot, Times, Reverse, Cross, FoldAll, Sum;
    var products := Coefficients(challenges);
    FoldAllIsDot(generators.G[..n], challenges);
    FoldAllIsDot(Times(generators.H[..n], statement.hBoldWeights), Swapped(challenges));
    CoefficientsMirrored(challenges);
    DotTimesRight(Reverse(products), generators.H[..n], statement.hBoldWeights);
    assert products[..n] == products && Reverse(products)[..n] == Reverse(products);
    assert statement.hBoldWeights[..n] == statement.hBoldWeights;
  }

  lemma FinalRelation(a: Scalar, b: Scalar, g: Vector, h: Vector, u: SubPoint)
    requires |g| == |h| == 1
    ensures Relation([a], [b], g, h, u) == a * g[0] + b * h[0] + a * b * u
  {
    SingleDot([a], g);
    SingleDot([b], h);
    SingleDot([a], [b]);
  }

  // Only the residue of the statement's point matters.
  lemma AcceptsCongruent(c: Curve, u: SubPoint, st: Round, P: SubPoint, proof: IpProof)
    requires c.Valid()
    requires Accepts(c, u, st, proof) && Eq(st.P, P)
    ensures Accepts(c, u, st.(P := P), proof)
  {
    hide Eq, Relation, FoldAll, Pow2, Swapped;
    ReplayClosedForm(c, st, proof.L, proof.R);
    ReplayClosedForm(c, st.(P := P), proof.L, proof.R);
    var end := Replay(c, st, proof.L, proof.R).value;
    var cross := Cross(c, Challenges(c, st.transcript, proof.L, proof.R), proof.L, proof.R);
    EqFromMultiple(cross, cross, 0);
    EqAdd(st.P, P, cross, cross);
    EqChain(st.P + cross, P + cross, Relation([proof.a], [proof.b], end.g, end.h, u));
  }

  lemma EqChain(a: int, b: int, d: int)
    requires Eq(a, b) && Eq(a, d)
    ensures Eq(b, d)
  {
  }

  lemma DotTimesRight(a: Vector, h: Vector, w: Vector)
    requires |a| == |h| == |w|
    ensures Dot(a, Times(h, w)) == Dot(Times(a, w), h)
  {
    assert Times(h, w) == Times(w, h);
    DotTimes(a, w, h);
  }

  lemma EqByDifference(a: int, b: int)
    ensures Eq(a, b) <==> Eq(a - b, 0)
  {
    if Eq(a, b) {
      EqAdd(a, b, b, b);
    }
    if Eq(a - b, 0) {
      EqAdd(a - b, 0, b, b);
    }
  }

  method BatchInvert(c: Curve, xs: seq<Scalar>) returns (res: seq<Scalar>)
    ensures |res| == |xs|
    ensures forall i :: 0 <= i < |xs| ==> res[i] == c.invert(xs[i])
  {
    res := seq(|xs|, i requires 0 <= i < |xs| => c.invert(xs[i]));
  }

  method ReadChallenges(c: Curve, initialTranscript: Scalar, L: seq<seq<byte>>, R: seq<seq<byte>>)
    returns (xs: seq<Scalar>)
    requires c.Valid()
    requires |L| == |R|
    ensures |xs| == |L|
    ensures forall i :: 0 <= i < |xs| ==> xs[i] == Challenges(c, initialTranscript, L, R)[i].0
  {
    xs := [];
    var transcript := initialTranscript;
    ghost var all := Challenges(c, initialTranscript, L, R);
    for i := 0 to |L|
      invariant |xs| == i
      invariant forall k :: 0 <= k < i ==> xs[k] == all[k].0
      invariant all[i..] == Challenges(c, transcript, L[i..], R[i..])
    {
      transcript := TranscriptLR(c, transcript, L[i], R[i]);
      xs := xs + [transcript];
      assert L[i..][1..] == L[i + 1..] && R[i..][1..] == R[i + 1..];
      assert all[i] == all[i..][0] && all[i + 1..] == all[i..][1..];
    }
  }

  /** `k` is the base-two logarithm of `n`, rounded up. */
  ghost predicate IsLog(k: nat, n: nat) {
    n <= Pow2(k) && forall j: nat :: j < k ==> Pow2(j) < n
  }

  lemma LogOfPow2(j: nat, k: nat)
    ensures IsLog(j, Pow2(k)) <==> j == k
  {
    hide Pow2;
    if j < k {
      Pow2Strict(j, k);
    }
    if j == k {
      forall i: nat | i < k
        ensures Pow2(i) < Pow2(k)
      {
        Pow2Strict(i, k);
      }
    }
  }

  method CeilLog2(n: nat) returns (k: nat)
    ensures n <= Pow2(k)
    ensures forall j: nat :: IsLog(j, n) <==> j == k
  {
    k := 0;
    while Pow2(k) < n
      invariant forall j: nat :: j < k ==> Pow2(j) < n
      decreases n - Pow2(k)
    {
      k := k + 1;
    }
  }

  // What the loops over the generators do to the accumulated sum.
  lemma SubtractedDot(before: Vector, after: Vector, terms: Vector, g: Vector)
    requires |terms| <= |before| == |after| == |g|
    requires forall i :: 0 <= i < |terms| ==> after[i] == before[i] - terms[i]
    requires forall i :: |terms| <= i < |before| ==> after[i] == before[i]
    ensures Dot(after, g) == Dot(before, g) - Dot(terms, g[..|terms|])
  {
    var n := |terms|;
    DotSplit(before, g, n);
    DotSplit(after, g, n);
    assert after[n..] == before[n..];
    assert after[..n] == Lin(1, before[..n], -1, terms);
    DotLin(1, before[..n], -1, terms, g[..n]);
  }

  method SubtractG(verifier: InternalBatchVerifier, n: nat, weight: Scalar, productCache: Vector, a: Scalar)
    requires n <= |productCache| && n <= |verifier.gBold|
    modifies verifier`gBold
    ensures |verifier.gBold| == old(|verifier.gBold|)
    ensures forall g :: |g| == |verifier.gBold| ==>
              Dot(verifier.gBold, g) == Dot(old(verifier.gBold), g) - weight * a * Dot(productCache[..n], g[..n])
  {
    hide *;
    ghost var terms := Scale(productCache[..n], weight * a);
    ghost var before := verifier.gBold;
    for i := 0 to n
      invariant |verifier.gBold| == |before|
      invariant forall j :: 0 <= j < i ==> verifier.gBold[j] == before[j] - terms[j]
      invariant forall j :: i <= j < |before| ==> verifier.gBold[j] == before[j]
    {
      Reassociate(weight, productCache[i], a, 1);
      verifier.gBold := verifier.gBold[i := verifier.gBold[i] - weight * productCache[i] * a];
    }
    forall g | |g| == |before|
      ensures Dot(verifier.gBold, g) == Dot(before, g) - weight * a * Dot(productCache[..n], g[..n])
    {
      SubtractedDot(before, verifier.gBold, terms, g);
      DotScale(weight * a, productCache[..n], g[..n]);
    }
  }

  method SubtractH(verifier: InternalBatchVerifier, n: nat, weight: Scalar, productCache: Vector, b: Scalar,
                   hBoldWeights: Vector)
    requires n <= |productCache| && n <= |hBoldWeights| && n <= |verifier.hBold|
    modifies verifier`hBold
    ensures |verifier.hBold| == old(|verifier.hBold|)
    ensures forall h :: |h| == |verifier.hBold| ==>
              Dot(verifier.hBold, h) == Dot(old(verifier.hBold), h) -
              weight * b * Dot(Times(Reverse(productCache)[..n], hBoldWeights[..n]), h[..n])
  {
    hide *;
    ghost var scaled := Times(Reverse(productCache)[..n], hBoldWeights[..n]);
    ghost var terms := Scale(scaled, weight * b);
    ghost var before := verifier.hBold;
    for i := 0 to n
      invariant |verifier.hBold| == |before|
      invariant forall j :: 0 <= j < i ==> verifier.hBold[j] == before[j] - terms[j]
      invariant forall j :: i <= j < |before| ==> verifier.hBold[j] == before[j]
    {
      var product := productCache[|productCache| - 1 - i];
      Reassociate(weight, product, b, hBoldWeights[i]);
      verifier.hBold := verifier.hBold[i := verifier.hBold[i] - weight * product * b * hBoldWeights[i]];
    }
    forall h | |h| == |before|
      ensures Dot(verifier.hBold, h) == Dot(before, h) - weight * b * Dot(scaled, h[..n])
    {
      SubtractedDot(before, verifier.hBold, terms, h);
      DotScale(weight * b, scaled, h[..n]);
    }
  }

  lemma Reassociate(w: int, p: int, b: int, y: int)
    ensures w * p * b * y == p * y * (w * b)
  {
  }

  lemma CrossStep(c: Curve, all: seq<Challenge>, L: seq<seq<byte>>, R: seq<seq<byte>>, i: nat)
    requires |all| == |L| == |R| && i < |L|
    ensures Cross(c, all[i..], L[i..], R[i..]) ==
            (all[i].0 * all[i].0 * PointOrZero(c, L[i]) + all[i].1 * all[i].1 * PointOrZero(c, R[i])) +
            Cross(c, all[i + 1..], L[i + 1..], R[i + 1..])
  {
    var terms := CrossTerms(c, all[i..], L[i..], R[i..]);
    assert terms[1..] == CrossTerms(c, all[i + 1..], L[i + 1..], R[i + 1..]);
  }

  lemma CrossOfNone(c: Curve, challenges: seq<Challenge>, L: seq<seq<byte>>, R: seq<seq<byte>>)
    requires |challenges| == |L| == |R| == 0
    ensures Cross(c, challenges, L, R) == 0
  {
  }

  lemma {:induction false} ChallengePair(c: Curve, transcript: Scalar, L: seq<seq<byte>>, R: seq<seq<byte>>, i: nat)
    requires c.Valid()
    requires |L| == |R| && i < |L|
    ensures var all := Challenges(c, transcript, L, R); all[i].1 == c.invert(all[i].0)
    decreases |L|
  {
    if i > 0 {
      ChallengePair(c, TranscriptLR(c, transcript, L[0], R[0]), L[1..], R[1..], i - 1);
    }
  }

  method QueueRounds(c: Curve, verifier: InternalBatchVerifier, weight: Scalar, challenges: seq<Challenge>, proof: IpProof)
    returns (ok: bool)
    requires |challenges| == |proof.L| == |proof.R|
    modifies verifier`other
    ensures ok <==> Decodable(c, proof.L) && Decodable(c, proof.R)
    ensures ok ==> Msm(verifier.other) ==
                   Msm(old(verifier.other)) + weight * Cross(c, challenges, proof.L, proof.R)
  {
    hide Msm, Cross, Curve.Receive;
    var L, R := proof.L, proof.R;
    for i := 0 to |challenges|
      invariant forall j :: 0 <= j < i ==> c.Receive(L[j]).Some? && c.Receive(R[j]).Some?
      invariant Msm(verifier.other) + weight * Cross(c, challenges[i..], L[i..], R[i..]) ==
                Msm(old(verifier.other)) + weight * Cross(c, challenges, L, R)
    {
      var (x, xInv) := challenges[i];
      if c.Receive(L[i]) == None || c.Receive(R[i]) == None {
        return false;
      }
      var l, r := c.Receive(L[i]).value, c.Receive(R[i]).value;
      assert PointOrZero(c, L[i]) == l && PointOrZero(c, R[i]) == r;
      CrossStep(c, challenges, L, R, i);
      MsmSnoc(verifier.other, weight * (x * x), l);
      MsmSnoc(verifier.other + [(weight * (x * x), l)], weight * (xInv * xInv), r);
      WeightedRound(weight, x, xInv, l, r, Cross(c, challenges[i + 1..], L[i + 1..], R[i + 1..]));
      verifier.other := verifier.other + [(weight * (x * x), l)] + [(weight * (xInv * xInv), r)];
    }
    CrossOfNone(c, challenges[|challenges|..], L[|challenges|..], R[|challenges|..]);
    ok := true;
  }

  lemma WeightedRound(w: int, x: int, y: int, l: int, r: int, rest: int)
    ensures w * ((x * x * l + y * y * r) + rest) == w * (x * x) * l + w * (y * y) * r + w * rest
  {
  }

  method Verify(c: Curve, verifier: InternalBatchVerifier, generators: Generators, ipRows: nat,
                statement: IpStatement, transcript: Scalar, weight: Scalar, proof: IpProof)
    returns (res: Result<(), IpError>)
    requires c.Valid()
    requires ipRows <= |generators.G| && ipRows <= |generators.H| && ipRows <= |statement.hBoldWeights|
    requires ipRows <= |verifier.gBold| <= |generators.G| && ipRows <= |verifier.hBold| <= |generators.H|
    modifies verifier
    ensures |verifier.gBold| == old(|verifier.gBold|) && |verifier.hBold| == old(|verifier.hBold|)
    ensures res == Err(IncorrectAmountOfGenerators) <==> !IsLog(|proof.L|, ipRows)
    ensures res == Err(DifferingLrLengths) <==> IsLog(|proof.L|, ipRows) && |proof.L| != |proof.R|
    ensures res == Err(InvalidPoint) <==>
              IsLog(|proof.L|, ipRows) && |proof.L| == |proof.R| && !(Decodable(c, proof.L) && Decodable(c, proof.R))
    ensures res.Ok? ==>
              && |proof.L| == |proof.R| && ipRows <= Pow2(|proof.L|)
              && var challenges := Challenges(c, transcript, proof.L, proof.R);
                 forall gPoint ::
                   verifier.Eval(gPoint, c.h, generators) ==
                   old(verifier.Eval(gPoint, c.h, generators)) +
                   weight * Residual(c, generators, ipRows, statement, challenges, proof)
  {
    hide Dot, Coefficients, Residual, Cross, Times, Reverse, TranscriptLR, Msm, Challenges, Decodable, IsLog, Pow2;
    var lrLen := CeilLog2(ipRows);
    if |proof.L| != lrLen {
      return Err(IncorrectAmountOfGenerators);
    }
    if |proof.L| != |proof.R| {
      return Err(DifferingLrLengths);
    }

    ghost var challenges := Challenges(c, transcript, proof.L, proof.R);
    var xs := ReadChallenges(c, transcript, proof.L, proof.R);
    var xInvs := BatchInvert(c, xs);
    var pairs := seq(|xs|, i requires 0 <= i < |xs| => (xs[i], xInvs[i]));
    forall i | 0 <= i < |xs|
      ensures pairs[i] == challenges[i]
    {
      ChallengePair(c, transcript, proof.L, proof.R, i);
    }
    assert pairs == challenges;

    var queued := QueueRounds(c, verifier, weight, pairs, proof);
    if !queued {
      return Err(InvalidPoint);
    }
    var productCache := ChallengeProducts(pairs);
    var product := proof.a * proof.b;
    SubtractG(verifier, ipRows, weight, productCache, proof.a);
    SubtractH(verifier, ipRows, weight, productCache, proof.b, statement.hBoldWeights);
    verifier.h := verifier.h - weight * product * statement.u;
    res := Ok(());
    QueuedSum(c, generators, ipRows, statement, challenges, proof, weight, old(verifier.h));
    ghost var g, h := generators.G[..|verifier.gBold|], generators.H[..|verifier.hBold|];
    assert g[..ipRows] == generators.G[..ipRows] && h[..ipRows] == generators.H[..ipRows];
  }

  lemma QueuedSum(c: Curve, generators: Generators, n: nat, statement: IpStatement,
                  challenges: seq<Challenge>, proof: IpProof, weight: Scalar, hScalar: Scalar)
    requires |challenges| == |proof.L| == |proof.R| && n <= Pow2(|challenges|)
    requires n <= |generators.G| && n <= |generators.H| && n <= |statement.hBoldWeights|
    ensures var products := Coefficients(challenges);
            hScalar * c.h + weight * Residual(c, generators, n, statement, challenges, proof) ==
            (hScalar - weight * (proof.a * proof.b) * statement.u) * c.h
            + weight * Cross(c, challenges, proof.L, proof.R)
            - weight * proof.a * Dot(products[..n], generators.G[..n])
            - weight * proof.b * Dot(Times(Reverse(products)[..n], statement.hBoldWeights[..n]), generators.H[..n])
  {
    hide Coefficients, Dot, Times, Reverse, Cross;
    var products := Coefficients(challenges);
    QueuedTerms(weight, hScalar, c.h, Cross(c, challenges, proof.L, proof.R), proof.a, proof.b, statement.u,
                Dot(products[..n], generators.G[..n]),
                Dot(Times(Reverse(products)[..n], statement.hBoldWeights[..n]), generators.H[..n]));
  }

  lemma QueuedTerms(w: int, hs: int, hp: int, cross: int, a: int, b: int, u: int, d: int, e: int)
    ensures hs * hp + w * (cross - a * d - b * e - a * b * (u * hp)) ==
            (hs - w * (a * b) * u) * hp + w * cross - w * a * d - w * b * e
  {
  }
}
