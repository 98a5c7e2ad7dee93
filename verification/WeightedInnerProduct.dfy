/**
ringct/bulletproofs/src/plus/weighted_inner_product.rs: Figure 1 of the Bulletproofs+ paper.

The paper's g, carrying the weighted inner product, is the point `c.h`; its h, carrying the mask, is
the base point.
 */
module WeightedInnerProduct {
  import opened Wrappers
  import opened Ed25519
  import opened Vectors
  import opened Accumulator
  import opened RangeAlgebra
  import Ip = InnerProduct

  datatype WipWitness = WipWitness(a: Vector, b: Vector, alpha: Scalar)

  datatype WipProof = WipProof(L: seq<seq<byte>>, R: seq<seq<byte>>, A: seq<byte>, B: seq<byte>,
                               rAnswer: Scalar, sAnswer: Scalar, deltaAnswer: Scalar)

  /** y, y^2, ..., y^n */
  function YVec(y: Scalar, n: nat): (r: Vector)
    ensures |r| == n
  {
    seq(n, i requires 0 <= i < n => Pow(y, i + 1))
  }

  function TranscriptPair(c: Curve, transcript: Scalar, l: seq<byte>, r: seq<byte>): (e: Scalar)
    requires c.Valid()
    ensures !Eq(e, 0)
  {
    Ip.TranscriptLR(c, transcript, l, r)
  }

  // ---------------------------------------------------------------------------------------------
  // The reference: the paper's verifier, which folds the generators.

  datatype Round = Round(g: Vector, h: Vector, P: SubPoint, transcript: Scalar)

  function NextRound(c: Curve, y: Scalar, st: Round, l: seq<byte>, r: seq<byte>): (next: Option<Round>)
    requires c.Valid()
  {
    var e := TranscriptPair(c, st.transcript, l, r);
    var eInv := c.invert(e);
    var yInvHat := c.invert(Pow(y, |st.g| / 2));
    match (c.Receive(l), c.Receive(r))
    case (Some(lPoint), Some(rPoint)) =>
      Some(Round(FoldOnce(st.g, (e * yInvHat, eInv)), FoldOnce(st.h, (eInv, e)),
                 e * e * lPoint + st.P + eInv * eInv * rPoint, e))
    case _ => None
  }

  function Replay(c: Curve, y: Scalar, st: Round, L: seq<seq<byte>>, R: seq<seq<byte>>): (end: Option<Round>)
    requires c.Valid()
    requires |L| == |R|
    decreases |L|
  {
    if L == [] then Some(st)
    else
      match NextRound(c, y, st, L[0], R[0])
      case None => None
      case Some(next) => Replay(c, y, next, L[1..], R[1..])
  }

  /** The relation of the witness to the statement's point. */
  function Relation(c: Curve, y: Scalar, w: WipWitness, g: Vector, h: Vector): SubPoint
    requires |w.a| == |w.b| == |g| == |h|
  {
    Dot(w.a, g) + Dot(w.b, h) + Dot3(w.a, w.b, YVec(y, |g|)) * c.h + w.alpha
  }

  /** The last equation of the protocol, on generators folded to one point each. */
  ghost predicate FinalHolds(c: Curve, y: Scalar, g: SubPoint, h: SubPoint, P: SubPoint, A: SubPoint, B: SubPoint,
                             e: Scalar, proof: WipProof) {
    Eq(e * e * P + e * A + B,
       proof.rAnswer * e * g + proof.sAnswer * e * h + proof.rAnswer * y * proof.sAnswer * c.h + proof.deltaAnswer)
  }

  ghost predicate Accepts(c: Curve, y: Scalar, st: Round, proof: WipProof)
    requires c.Valid()
  {
    && |proof.L| == |proof.R|
    && |st.g| == |st.h| == Pow2(|proof.L|)
    && match Replay(c, y, st, proof.L, proof.R)
       case None => false
       case Some(end) =>
         && |end.g| == |end.h| == 1
         && match (c.Receive(proof.A), c.Receive(proof.B))
            case (Some(A), Some(B)) =>
              FinalHolds(c, y, end.g[0], end.h[0], end.P, A, B,
                         TranscriptPair(c, end.transcript, proof.A, proof.B), proof)
            case _ => false
  }

  lemma {:induction false} ReplaySnoc(c: Curve, y: Scalar, st: Round, L: seq<seq<byte>>, R: seq<seq<byte>>,
                                      l: seq<byte>, r: seq<byte>)
    requires c.Valid()
    requires |L| == |R|
    requires Replay(c, y, st, L, R).Some?
    ensures Replay(c, y, st, L + [l], R + [r]) == NextRound(c, y, Replay(c, y, st, L, R).value, l, r)
    decreases |L|
  {
    hide FoldOnce;
    if L == [] {
      assert (L + [l])[1..] == [] && (R + [r])[1..] == [];
    } else {
      var next := NextRound(c, y, st, L[0], R[0]).value;
      ReplaySnoc(c, y, next, L[1..], R[1..], l, r);
      assert (L + [l])[1..] == L[1..] + [l] && (R + [r])[1..] == R[1..] + [r];
    }
  }

  // ---------------------------------------------------------------------------------------------
  // One round keeps the relation.

  function LeftTerm(c: Curve, y: Scalar, yInvHat: Scalar, w: WipWitness, g: Vector, h: Vector, dl: Scalar): SubPoint
    requires |w.a| == |w.b| == |g| == |h|
  {
    Dot(Scale(Low(w.a), yInvHat), High(g)) + Dot(High(w.b), Low(h)) +
    Dot3(Low(w.a), High(w.b), YVec(y, |g| / 2)) * c.h + dl
  }

  function RightTerm(c: Curve, y: Scalar, w: WipWitness, g: Vector, h: Vector, dr: Scalar): SubPoint
    requires |w.a| == |w.b| == |g| == |h|
  {
    var yHat := Pow(y, |g| / 2);
    Dot(Scale(High(w.a), yHat), Low(g)) + Dot(Low(w.b), High(h)) +
    Dot3(Scale(High(w.a), yHat), Low(w.b), YVec(y, |g| / 2)) * c.h + dr
  }

  function FoldWitness(y: Scalar, e: Scalar, eInv: Scalar, w: WipWitness, dl: Scalar, dr: Scalar): (r: WipWitness)
    requires |w.a| == |w.b|
    ensures |r.a| == |r.b| == |w.a| / 2
  {
    WipWitness(FoldOnce(w.a, (Pow(y, |w.a| / 2) * eInv, e)), FoldOnce(w.b, (e, eInv)),
               w.alpha + (dl * (e * e) + dr * (eInv * eInv)))
  }

  lemma Dot3IsDot(a: Vector, b: Vector, y: Vector)
    requires |a| == |b| == |y|
    ensures Dot3(a, b, y) == Dot(a, Times(b, y))
  {
    DotTimes(a, b, y);
  }

  lemma TimesLin(x: int, a: Vector, z: int, b: Vector, y: Vector)
    requires |a| == |b| == |y|
    ensures Times(Lin(x, a, z, b), y) == Lin(x, Times(a, y), z, Times(b, y))
  {
    forall i | 0 <= i < |a|
      ensures Times(Lin(x, a, z, b), y)[i] == Lin(x, Times(a, y), z, Times(b, y))[i]
    {
      Distribute(x, a[i], z, b[i], y[i]);
    }
  }

  // The weighted inner product of two folded vectors.
  lemma Dot3Cross(x: int, a: Vector, z: int, b: Vector, u: int, p: Vector, v: int, q: Vector, y: Vector)
    requires |a| == |b| == |p| == |q| == |y|
    ensures Dot3(Lin(x, a, z, b), Lin(u, p, v, q), y) ==
            x * (u * Dot3(a, p, y) + v * Dot3(a, q, y)) + z * (u * Dot3(b, p, y) + v * Dot3(b, q, y))
  {
    hide *;
    Dot3IsDot(Lin(x, a, z, b), Lin(u, p, v, q), y);
    TimesLin(u, p, v, q, y);
    DotCross(x, a, z, b, u, Times(p, y), v, Times(q, y));
    Dot3IsDot(a, p, y);
    Dot3IsDot(a, q, y);
    Dot3IsDot(b, p, y);
    Dot3IsDot(b, q, y);
  }

  lemma Dot3Scale(a: Vector, x: int, b: Vector, y: Vector)
    requires |a| == |b| == |y|
    ensures Dot3(Scale(a, x), b, y) == x * Dot3(a, b, y)
  {
    hide *;
    Dot3IsDot(Scale(a, x), b, y);
    Dot3IsDot(a, b, y);
    DotScale(x, a, Times(b, y));
  }

  // The second half of the weights is the first half times y^(n/2).
  lemma YVecHalves(y: Scalar, half: nat)
    ensures YVec(y, 2 * half) == YVec(y, half) + Scale(YVec(y, half), Pow(y, half))
  {
    forall i | half <= i < 2 * half
      ensures YVec(y, 2 * half)[i] == YVec(y, half)[i - half] * Pow(y, half)
    {
      PowAdd(y, i - half + 1, half);
    }
  }

  lemma Dot3Halves(y: Scalar, a: Vector, b: Vector)
    requires |a| == |b| && |a| % 2 == 0
    ensures var half := |a| / 2;
            Dot3(a, b, YVec(y, |a|)) ==
            Dot3(Low(a), Low(b), YVec(y, half)) + Pow(y, half) * Dot3(High(a), High(b), YVec(y, half))
  {
    hide Dot, Dot3, Sum, YVec, Pow;
    var half := |a| / 2;
    var y1 := YVec(y, half);
    var y2 := Scale(y1, Pow(y, half));
    YVecHalves(y, half);
    Dot3IsDot(a, b, YVec(y, |a|));
    assert a == Low(a) + High(a) && b == Low(b) + High(b);
    assert Times(b, y1 + y2) == Times(Low(b), y1) + Times(High(b), y2);
    DotConcat(Low(a), Times(Low(b), y1), High(a), Times(High(b), y2));
    Dot3IsDot(Low(a), Low(b), y1);
    Dot3IsDot(High(a), High(b), y1);
    ScaledWeights(High(b), y1, Pow(y, half));
    DotComm(High(a), Scale(Times(High(b), y1), Pow(y, half)));
    DotScale(Pow(y, half), Times(High(b), y1), High(a));
    DotComm(Times(High(b), y1), High(a));
  }

  lemma ScaledWeights(b: Vector, y: Vector, x: int)
    requires |b| == |y|
    ensures Times(b, Scale(y, x)) == Scale(Times(b, y), x)
  {
    forall i | 0 <= i < |b|
      ensures Times(b, Scale(y, x))[i] == Scale(Times(b, y), x)[i]
    {
      assert b[i] * (y[i] * x) == b[i] * y[i] * x;
    }
  }

  /** The twelve inner products of the halves of the vectors. */
  datatype Products = Products(ag11: int, ag12: int, ag21: int, ag22: int, bh11: int, bh12: int, bh21: int, bh22: int,
                               ab11: int, ab12: int, ab21: int, ab22: int)

  function HalfProducts(y: Scalar, w: WipWitness, g: Vector, h: Vector): Products
    requires |w.a| == |w.b| == |g| == |h|
  {
    var a1, a2, b1, b2, g1, g2, h1, h2 := Low(w.a), High(w.a), Low(w.b), High(w.b), Low(g), High(g), Low(h), High(h);
    var y1 := YVec(y, |g| / 2);
    Products(Dot(a1, g1), Dot(a1, g2), Dot(a2, g1), Dot(a2, g2), Dot(b1, h1), Dot(b1, h2), Dot(b2, h1), Dot(b2, h2),
             Dot3(a1, b1, y1), Dot3(a1, b2, y1), Dot3(a2, b1, y1), Dot3(a2, b2, y1))
  }

  lemma RelationInHalves(c: Curve, y: Scalar, w: WipWitness, g: Vector, h: Vector)
    requires |w.a| == |w.b| == |g| == |h| && |g| % 2 == 0
    ensures var p := HalfProducts(y, w, g, h);
            Relation(c, y, w, g, h) ==
            p.ag11 + p.ag22 + p.bh11 + p.bh22 + (p.ab11 + Pow(y, |g| / 2) * p.ab22) * c.h + w.alpha
  {
    hide Dot, Dot3, Sum, YVec, Pow, Low, High;
    DotHalves(w.a, g);
    DotHalves(w.b, h);
    Dot3Halves(y, w.a, w.b);
  }

  lemma TermsInHalves(c: Curve, y: Scalar, yInvHat: Scalar, w: WipWitness, g: Vector, h: Vector, dl: Scalar, dr: Scalar)
    requires |w.a| == |w.b| == |g| == |h|
    ensures var p := HalfProducts(y, w, g, h);
            var yHat := Pow(y, |g| / 2);
            && LeftTerm(c, y, yInvHat, w, g, h, dl) == yInvHat * p.ag12 + p.bh21 + p.ab12 * c.h + dl
            && RightTerm(c, y, w, g, h, dr) == yHat * p.ag21 + p.bh12 + yHat * p.ab21 * c.h + dr
  {
    hide Dot, Dot3, Sum, YVec, Pow, Low, High, Scale;
    DotScale(yInvHat, Low(w.a), High(g));
    DotScale(Pow(y, |g| / 2), High(w.a), Low(g));
    Dot3Scale(High(w.a), Pow(y, |g| / 2), Low(w.b), YVec(y, |g| / 2));
  }

  lemma FoldedInHalves(c: Curve, y: Scalar, e: Scalar, eInv: Scalar, yInvHat: Scalar, w: WipWitness, g: Vector, h: Vector,
                       dl: Scalar, dr: Scalar)
    requires |w.a| == |w.b| == |g| == |h|
    ensures var p := HalfProducts(y, w, g, h);
            var yHat := Pow(y, |g| / 2);
            Relation(c, y, FoldWitness(y, e, eInv, w, dl, dr), FoldOnce(g, (e * yInvHat, eInv)), FoldOnce(h, (eInv, e))) ==
            e * (eInv * p.ag11 + e * yInvHat * p.ag12) + yHat * eInv * (eInv * p.ag21 + e * yInvHat * p.ag22)
            + (eInv * (e * p.bh11 + eInv * p.bh12) + e * (e * p.bh21 + eInv * p.bh22))
            + (e * (eInv * p.ab11 + e * p.ab12) + yHat * eInv * (eInv * p.ab21 + e * p.ab22)) * c.h
            + (w.alpha + (dl * (e * e) + dr * (eInv * eInv)))
  {
    hide Dot, Dot3, Sum, YVec, Pow, Low, High, Lin;
    var a1, a2, b1, b2, g1, g2, h1, h2 := Low(w.a), High(w.a), Low(w.b), High(w.b), Low(g), High(g), Low(h), High(h);
    var yHat := Pow(y, |g| / 2);
    DotCross(e, a1, yHat * eInv, a2, eInv, g1, e * yInvHat, g2);
    DotCross(eInv, b1, e, b2, e, h1, eInv, h2);
    Dot3Cross(e, a1, yHat * eInv, a2, eInv, b1, e, b2, YVec(y, |g| / 2));
  }

  lemma GatherRound(e: int, f: int, yHat: int, yInv: int, h: int, alpha: int, dl: int, dr: int, p: Products)
    ensures e * (f * p.ag11 + e * yInv * p.ag12) + yHat * f * (f * p.ag21 + e * yInv * p.ag22)
            + (f * (e * p.bh11 + f * p.bh12) + e * (e * p.bh21 + f * p.bh22))
            + (e * (f * p.ab11 + e * p.ab12) + yHat * f * (f * p.ab21 + e * p.ab22)) * h
            + (alpha + (dl * (e * e) + dr * (f * f))) ==
            (e * f) * (p.ag11 + p.bh11 + p.bh22 + (p.ab11 + yHat * p.ab22) * h) + (e * f) * (yHat * yInv) * p.ag22
            + e * e * (yInv * p.ag12 + p.bh21 + p.ab12 * h + dl)
            + f * f * (yHat * p.ag21 + p.bh12 + yHat * p.ab21 * h + dr) + alpha
  {
    GatherG(e, f, yHat, yInv, p.ag11, p.ag12, p.ag21, p.ag22);
    GatherH(e, f, p.bh11, p.bh12, p.bh21, p.bh22);
    GatherW(e, f, yHat, h, p.ab11, p.ab12, p.ab21, p.ab22);
    GatherSum(e * f, e * e, f * f, p.ag11, yInv * p.ag12, yHat * p.ag21, yHat * yInv, p.ag22, p.bh11 + p.bh22, p.bh21, p.bh12,
              (p.ab11 + yHat * p.ab22) * h, p.ab12 * h, yHat * p.ab21 * h, dl, dr);
  }

  lemma GatherG(e: int, f: int, yHat: int, yInv: int, p: int, q: int, r: int, s: int)
    ensures e * (f * p + e * yInv * q) + yHat * f * (f * r + e * yInv * s) ==
            (e * f) * p + (e * e) * (yInv * q) + (f * f) * (yHat * r) + (e * f) * (yHat * yInv) * s
  {
  }

  lemma GatherH(e: int, f: int, p: int, q: int, r: int, s: int)
    ensures f * (e * p + f * q) + e * (e * r + f * s) == (e * f) * (p + s) + (f * f) * q + (e * e) * r
  {
  }

  lemma GatherW(e: int, f: int, yHat: int, h: int, p: int, q: int, r: int, s: int)
    ensures (e * (f * p + e * q) + yHat * f * (f * r + e * s)) * h ==
            (e * f) * ((p + yHat * s) * h) + (e * e) * (q * h) + (f * f) * (yHat * r * h)
  {
    GatherInner(e, f, yHat, p, q, r, s);
    TimesH(e * f, e * e, f * f, p + yHat * s, q, yHat * r, h);
  }

  lemma GatherInner(e: int, f: int, yHat: int, p: int, q: int, r: int, s: int)
    ensures e * (f * p + e * q) + yHat * f * (f * r + e * s) ==
            (e * f) * (p + yHat * s) + (e * e) * q + (f * f) * (yHat * r)
  {
  }

  lemma TimesH(m: int, ee: int, ff: int, a: int, b: int, d: int, h: int)
    ensures (m * a + ee * b + ff * d) * h == m * (a * h) + ee * (b * h) + ff * (d * h)
  {
  }

  lemma GatherSum(m: int, ee: int, ff: int, p1: int, q1: int, r1: int, yy: int, s1: int, p2: int, r2: int, q2: int,
                  p3: int, q3: int, r3: int, dl: int, dr: int)
    ensures (m * p1 + ee * q1 + ff * r1 + m * yy * s1) + (m * p2 + ff * q2 + ee * r2) + (m * p3 + ee * q3 + ff * r3)
            + (dl * ee + dr * ff) ==
            m * (p1 + p2 + p3) + m * yy * s1 + ee * (q1 + r2 + q3 + dl) + ff * (r1 + q2 + r3 + dr)
  {
  }

  lemma RoundKeepsRelation(c: Curve, y: Scalar, e: Scalar, eInv: Scalar, yInvHat: Scalar, w: WipWitness, g: Vector,
                           h: Vector, dl: Scalar, dr: Scalar, P: SubPoint, l: SubPoint, r: SubPoint)
    requires |w.a| == |w.b| == |g| == |h| && |g| % 2 == 0
    requires Eq(e * eInv, 1) && Eq(Pow(y, |g| / 2) * yInvHat, 1)
    requires Eq(P, Relation(c, y, w, g, h))
    requires Eq(l, LeftTerm(c, y, yInvHat, w, g, h, dl)) && Eq(r, RightTerm(c, y, w, g, h, dr))
    ensures Eq(e * e * l + P + eInv * eInv * r,
               Relation(c, y, FoldWitness(y, e, eInv, w, dl, dr), FoldOnce(g, (e * yInvHat, eInv)), FoldOnce(h, (eInv, e))))
  {
    hide *;
    var p := HalfProducts(y, w, g, h);
    RelationInHalves(c, y, w, g, h);
    TermsInHalves(c, y, yInvHat, w, g, h, dl, dr);
    FoldedInHalves(c, y, e, eInv, yInvHat, w, g, h, dl, dr);
    GatherRound(e, eInv, Pow(y, |g| / 2), yInvHat, c.h, w.alpha, dl, dr, p);
    CongruentRound(e, eInv, Pow(y, |g| / 2), yInvHat, P, l, r,
                   p.ag11 + p.bh11 + p.bh22 + (p.ab11 + Pow(y, |g| / 2) * p.ab22) * c.h, p.ag22, w.alpha,
                   LeftTerm(c, y, yInvHat, w, g, h, dl), RightTerm(c, y, w, g, h, dr));
  }

  lemma CongruentRound(e: int, f: int, yHat: int, yInv: int, P: int, l: int, r: int, rest: int, ag22: int, alpha: int,
                       left: int, right: int)
    requires Eq(e * f, 1) && Eq(yHat * yInv, 1)
    requires Eq(P, rest + ag22 + alpha) && Eq(l, left) && Eq(r, right)
    ensures Eq(e * e * l + P + f * f * r,
               (e * f) * rest + (e * f) * (yHat * yInv) * ag22 + e * e * left + f * f * right + alpha)
  {
    hide Eq;
    EqMul(e * f, 1, rest, rest);
    EqMul(e * f, 1, yHat * yInv, 1);
    EqMul((e * f) * (yHat * yInv), 1, ag22, ag22);
    EqScale(e * e, l, left);
    EqScale(f * f, r, right);
    SumFive(e * e * l, P, f * f * r, rest, ag22, alpha, (e * f) * rest, (e * f) * (yHat * yInv) * ag22,
            e * e * left, f * f * right);
  }

  lemma SumFive(l: int, P: int, r: int, rest: int, ag22: int, alpha: int, rest': int, ag22': int, l': int, r': int)
    requires Eq(l, l') && Eq(r, r') && Eq(P, rest + ag22 + alpha)
    requires Eq(rest', 1 * rest) && Eq(ag22', 1 * ag22)
    ensures Eq(l + P + r, rest' + ag22' + l' + r' + alpha)
  {
    var k1 := EqToMultiple(l, l');
    var k2 := EqToMultiple(r, r');
    var k3 := EqToMultiple(P, rest + ag22 + alpha);
    var k4 := EqToMultiple(rest', 1 * rest);
    var k5 := EqToMultiple(ag22', 1 * ag22);
    EqFromMultiple(l + P + r, rest' + ag22' + l' + r' + alpha, k1 + k2 + k3 - k4 - k5);
  }

  // ---------------------------------------------------------------------------------------------
  // The prover.

  /** Pads the witness with zeros to a power of two. */
  method NewWitness(a: Vector, b: Vector, alpha: Scalar) returns (res: Option<WipWitness>)
    ensures res.None? <==> a == [] || |a| != |b|
    ensures res.Some? ==>
              var missing := Padded(|a|) - |a|;
              res.value == WipWitness(a + Constant(0, missing), b + Constant(0, missing), alpha)
  {
    if |a| == 0 || |a| != |b| {
      return None;
    }
    var padded := PadToPowerOf2(|a|);
    var a', b' := a, b;
    for i := 0 to padded - |a|
      invariant a' == a + Constant(0, i) && b' == b + Constant(0, i)
    {
      a', b' := a' + [0], b' + [0];
    }
    res := Some(WipWitness(a', b', alpha));
  }

  /** The powers of y from the first on, as `WipStatement::new` and `compute_A_hat` build them. */
  method AscendingPowers(y: Scalar, n: nat) returns (yVec: Vector)
    requires n > 0
    ensures yVec == YVec(y, n)
  {
    yVec := [y];
    assert Pow(y, 0) == 1 && Pow(y, 1) == y;
    for i := 1 to n
      invariant |yVec| == i
      invariant forall k :: 0 <= k < i ==> yVec[k] == Pow(y, k + 1)
    {
      yVec := yVec + [yVec[i - 1] * y];
    }
  }

  /** What the prover draws from its random number generator. */
  datatype Blinds = Blinds(d: seq<(Scalar, Scalar)>, r: Scalar, s: Scalar, delta: Scalar, eta: Scalar)

  /** The inverses of y^1, y^2, y^4, ... below n. */
  method InvertedPowers(c: Curve, ghost y: Scalar, yVec: Vector, ghost k: nat) returns (res: Vector)
    requires yVec == YVec(y, |yVec|) && |yVec| == Pow2(k)
    ensures |res| == k
    ensures forall j :: 0 <= j < k ==> res[j] == c.invert(Pow(y, Pow2(j)))
  {
    hide Pow, Pow2;
    assert Pow2(0) == 1 by { Pow2Half(0); }
    var i := 1;
    var toInvert: Vector := [];
    while i < |yVec|
      invariant |toInvert| <= k && i == Pow2(|toInvert|)
      invariant forall j :: 0 <= j < |toInvert| ==> toInvert[j] == Pow(y, Pow2(j))
      decreases |yVec| - i
    {
      assert |toInvert| < k;
      Pow2Half(|toInvert| + 1);
      toInvert := toInvert + [yVec[i - 1]];
      i := i * 2;
    }
    if |toInvert| < k { Pow2Strict(|toInvert|, k); }
    res := Ip.BatchInvert(c, toInvert);
  }

  method ProveRound(c: Curve, ghost y: Scalar, yVec: Vector, yInvHat: Scalar, transcript: Scalar, w: WipWitness,
                    gBold: Vector, hBold: Vector, dl: Scalar, dr: Scalar)
    returns (l: seq<byte>, r: seq<byte>, e: Scalar, w': WipWitness, gBold': Vector, hBold': Vector)
    requires c.Valid()
    requires |w.a| == |w.b| == |gBold| == |hBold| && |gBold| % 2 == 0 && |gBold| > 0
    requires yVec == YVec(y, |gBold|)
    ensures l == c.Transmit(LeftTerm(c, y, yInvHat, w, gBold, hBold, dl))
    ensures r == c.Transmit(RightTerm(c, y, w, gBold, hBold, dr))
    ensures e == TranscriptPair(c, transcript, l, r)
    ensures w' == FoldWitness(y, e, c.invert(e), w, dl, dr)
    ensures gBold' == FoldOnce(gBold, (e * yInvHat, c.invert(e))) && hBold' == FoldOnce(hBold, (c.invert(e), e))
  {
    hide Dot, Dot3, Msm, Zip, Pow, Lin, Scale;
    var a1, a2 := Low(w.a), High(w.a);
    var b1, b2 := Low(w.b), High(w.b);
    var gBold1, gBold2 := Low(gBold), High(gBold);
    var hBold1, hBold2 := Low(hBold), High(hBold);
    var nHat := |gBold1|;
    var yNHat := yVec[nHat - 1];
    var y1 := yVec[..nHat];
    assert y1 == YVec(y, nHat) && yNHat == Pow(y, nHat);

    var cl := Dot3(a1, b2, y1);
    var cr := Dot3(Scale(a2, yNHat), b1, y1);

    var lTerms := Zip(Scale(a1, yInvHat), gBold2) + Zip(b2, hBold1) + [(cl, c.h)] + [(dl, 1)];
    Ip.MsmTerms(Scale(a1, yInvHat), gBold2, b2, hBold1, cl, c.h);
    MsmSnoc(Zip(Scale(a1, yInvHat), gBold2) + Zip(b2, hBold1) + [(cl, c.h)], dl, 1);
    l := c.Transmit(Msm(lTerms));
    var rTerms := Zip(Scale(a2, yNHat), gBold1) + Zip(b1, hBold2) + [(cr, c.h)] + [(dr, 1)];
    Ip.MsmTerms(Scale(a2, yNHat), gBold1, b1, hBold2, cr, c.h);
    MsmSnoc(Zip(Scale(a2, yNHat), gBold1) + Zip(b1, hBold2) + [(cr, c.h)], dr, 1);
    r := c.Transmit(Msm(rTerms));

    e := TranscriptPair(c, transcript, l, r);
    var eInv := c.invert(e);
    gBold' := Ip.FoldPoints(gBold1, gBold2, eInv, e * yInvHat);
    hBold' := Ip.FoldPoints(hBold1, hBold2, e, eInv);

    w' := WipWitness(Lin(e, a1, yNHat * eInv, a2), Lin(eInv, b1, e, b2),
                     w.alpha + (dl * (e * e) + dr * (eInv * eInv)));
  }

  /** What the prover has: its witness, the generators, and the transcript. */
  datatype ProverState = ProverState(w: WipWitness, g: Vector, h: Vector, transcript: Scalar) {
    predicate Even() {
      |w.a| == |w.b| == |g| == |h|
    }

    /** After a round which sent this, blinded by `d`. */
    function Folded(c: Curve, y: Scalar, d: (Scalar, Scalar), l: seq<byte>, r: seq<byte>): (next: ProverState)
      requires c.Valid() && Even()
      ensures next.Even() && |next.g| == |g| / 2
    {
      var e := TranscriptPair(c, transcript, l, r);
      ProverState(FoldWitness(y, e, c.invert(e), w, d.0, d.1),
                  FoldOnce(g, (e * c.invert(Pow(y, |g| / 2)), c.invert(e))), FoldOnce(h, (c.invert(e), e)), e)
    }

    /** A round sends the cross terms, blinded. */
    ghost predicate Sends(c: Curve, y: Scalar, d: (Scalar, Scalar), l: seq<byte>, r: seq<byte>)
      requires c.Valid() && Even()
    {
      && l == c.Transmit(LeftTerm(c, y, c.invert(Pow(y, |g| / 2)), w, g, h, d.0))
      && r == c.Transmit(RightTerm(c, y, w, g, h, d.1))
    }
  }

  function After(c: Curve, y: Scalar, st: ProverState, d: seq<(Scalar, Scalar)>, L: seq<seq<byte>>, R: seq<seq<byte>>)
    : (end: ProverState)
    requires c.Valid() && st.Even() && |L| == |R| <= |d|
    ensures end.Even()
    decreases |L|
  {
    if L == [] then st
    else
      var n := |L| - 1;
      After(c, y, st, d, L[..n], R[..n]).Folded(c, y, d[n], L[n], R[n])
  }

  ghost predicate AllSent(c: Curve, y: Scalar, st: ProverState, d: seq<(Scalar, Scalar)>, L: seq<seq<byte>>, R: seq<seq<byte>>)
    requires c.Valid() && st.Even() && |L| == |R| <= |d|
  {
    forall i :: 0 <= i < |L| ==> After(c, y, st, d, L[..i], R[..i]).Sends(c, y, d[i], L[i], R[i])
  }

  /** The last message and the answers, with the last blinds. */
  ghost predicate Answers(c: Curve, y: Scalar, end: ProverState, blinds: Blinds, proof: WipProof)
    requires c.Valid() && end.Even()
  {
    && |end.g| == 1
    && var a, b, g, h := end.w.a[0], end.w.b[0], end.g[0], end.h[0];
    && proof.A == c.Transmit(blinds.r * g + blinds.s * h + (blinds.r * y * b + blinds.s * y * a) * c.h + blinds.delta)
    && proof.B == c.Transmit(blinds.r * y * blinds.s * c.h + blinds.eta)
    && var e := TranscriptPair(c, end.transcript, proof.A, proof.B);
    && proof.rAnswer == blinds.r + a * e && proof.sAnswer == blinds.s + b * e
    && proof.deltaAnswer == blinds.eta + blinds.delta * e + end.w.alpha * (e * e)
  }

  /** The proof is the one which this witness and these blinds make. */
  ghost predicate MadeFrom(c: Curve, y: Scalar, st: ProverState, blinds: Blinds, proof: WipProof)
    requires c.Valid() && st.Even()
  {
    && |proof.L| == |proof.R| == |blinds.d|
    && AllSent(c, y, st, blinds.d, proof.L, proof.R)
    && Answers(c, y, After(c, y, st, blinds.d, proof.L, proof.R), blinds, proof)
  }

  lemma NoneSent(c: Curve, y: Scalar, st: ProverState, d: seq<(Scalar, Scalar)>)
    requires c.Valid() && st.Even()
    ensures AllSent(c, y, st, d, [], []) && After(c, y, st, d, [], []) == st
  {
  }

  lemma OneMoreSent(c: Curve, y: Scalar, st: ProverState, d: seq<(Scalar, Scalar)>, L: seq<seq<byte>>, R: seq<seq<byte>>,
                    l: seq<byte>, r: seq<byte>)
    requires c.Valid() && st.Even() && |L| == |R| < |d| && AllSent(c, y, st, d, L, R)
    requires After(c, y, st, d, L, R).Sends(c, y, d[|L|], l, r)
    ensures AllSent(c, y, st, d, L + [l], R + [r])
    ensures After(c, y, st, d, L + [l], R + [r]) == After(c, y, st, d, L, R).Folded(c, y, d[|L|], l, r)
  {
    hide ProverState.Sends, ProverState.Folded, After;
    AfterStep(c, y, st, d, L, R, l, r);
    forall i | 0 <= i < |L + [l]|
      ensures After(c, y, st, d, (L + [l])[..i], (R + [r])[..i]).Sends(c, y, d[i], (L + [l])[i], (R + [r])[i])
    {
      if i < |L| {
        assert (L + [l])[..i] == L[..i] && (R + [r])[..i] == R[..i];
      } else {
        assert (L + [l])[..i] == L && (R + [r])[..i] == R;
      }
    }
  }

  lemma AfterStep(c: Curve, y: Scalar, st: ProverState, d: seq<(Scalar, Scalar)>, L: seq<seq<byte>>, R: seq<seq<byte>>,
                  l: seq<byte>, r: seq<byte>)
    requires c.Valid() && st.Even() && |L| == |R| < |d|
    ensures After(c, y, st, d, L + [l], R + [r]) == After(c, y, st, d, L, R).Folded(c, y, d[|L|], l, r)
  {
    hide ProverState.Folded;
    assert (L + [l])[..|L|] == L && (R + [r])[..|R|] == R;
  }

  /** The prover's vectors open the point the reference verifier has reached. */
  ghost predicate Honest(c: Curve, y: Scalar, st: Round, L: seq<seq<byte>>, R: seq<seq<byte>>, w: WipWitness, now: Round)
    requires c.Valid()
  {
    && |L| == |R|
    && |w.a| == |w.b| == |now.g| == |now.h|
    && Replay(c, y, st, L, R) == Some(now)
    && Eq(now.P, Relation(c, y, w, now.g, now.h))
  }

  lemma TransmittedRound(c: Curve, y: Scalar, now: Round, lPoint: SubPoint, rPoint: SubPoint)
    returns (e: Scalar, f: Scalar, l: SubPoint, r: SubPoint)
    requires c.Valid()
    ensures e == TranscriptPair(c, now.transcript, c.Transmit(lPoint), c.Transmit(rPoint)) && f == c.invert(e)
    ensures Eq(e * f, 1) && Eq(l, lPoint) && Eq(r, rPoint)
    ensures NextRound(c, y, now, c.Transmit(lPoint), c.Transmit(rPoint)) ==
            Some(Round(FoldOnce(now.g, (e * c.invert(Pow(y, |now.g| / 2)), f)), FoldOnce(now.h, (f, e)),
                       e * e * l + now.P + f * f * r, e))
  {
    hide FoldOnce, Pow;
    e := TranscriptPair(c, now.transcript, c.Transmit(lPoint), c.Transmit(rPoint));
    f := c.invert(e);
    InverseWorks(c, e);
    TransmitReceive(c, lPoint);
    TransmitReceive(c, rPoint);
    l, r := c.Receive(c.Transmit(lPoint)).value, c.Receive(c.Transmit(rPoint)).value;
  }

  // A non-zero y has non-zero powers.
  lemma PowNonZero(c: Curve, y: Scalar, n: nat)
    requires c.Valid() && !Eq(y, 0)
    ensures !Eq(Pow(y, n), 0)
  {
    hide Eq;
    InverseWorks(c, y);
    PowInverse(y, c.invert(y), n);
    if Eq(Pow(y, n), 0) {
      EqScale(Pow(c.invert(y), n), Pow(y, n), 0);
      OneIsNotZero(Pow(y, n) * Pow(c.invert(y), n));
    }
  }

  lemma OneIsNotZero(a: int)
    requires Eq(a, 1)
    ensures !Eq(a, 0)
  {
  }

  lemma ProverStep(c: Curve, y: Scalar, st: Round, L: seq<seq<byte>>, R: seq<seq<byte>>, w: WipWitness, now: Round,
                   dl: Scalar, dr: Scalar)
    returns (next: Round)
    requires c.Valid() && !Eq(y, 0)
    requires |w.a| % 2 == 0
    requires Honest(c, y, st, L, R, w, now)
    ensures var yInvHat := c.invert(Pow(y, |now.g| / 2));
            var l := c.Transmit(LeftTerm(c, y, yInvHat, w, now.g, now.h, dl));
            var r := c.Transmit(RightTerm(c, y, w, now.g, now.h, dr));
            var e := TranscriptPair(c, now.transcript, l, r);
            var f := c.invert(e);
            && next == Round(FoldOnce(now.g, (e * yInvHat, f)), FoldOnce(now.h, (f, e)), next.P, e)
            && Honest(c, y, st, L + [l], R + [r], FoldWitness(y, e, f, w, dl, dr), next)
  {
    hide Relation, LeftTerm, RightTerm, FoldOnce, FoldWitness, Pow, NextRound, Eq;
    var yInvHat := c.invert(Pow(y, |now.g| / 2));
    var lTerm, rTerm := LeftTerm(c, y, yInvHat, w, now.g, now.h, dl), RightTerm(c, y, w, now.g, now.h, dr);
    var e, f, lPoint, rPoint := TransmittedRound(c, y, now, lTerm, rTerm);
    PowNonZero(c, y, |now.g| / 2);
    InverseWorks(c, Pow(y, |now.g| / 2));
    RoundKeepsRelation(c, y, e, f, yInvHat, w, now.g, now.h, dl, dr, now.P, lPoint, rPoint);
    ReplaySnoc(c, y, st, L, R, c.Transmit(lTerm), c.Transmit(rTerm));
    next := NextRound(c, y, now, c.Transmit(lTerm), c.Transmit(rTerm)).value;
  }

  lemma RelationOfOne(c: Curve, y: Scalar, w: WipWitness, g: Vector, h: Vector)
    requires |w.a| == |w.b| == |g| == |h| == 1
    ensures Relation(c, y, w, g, h) == w.a[0] * g[0] + w.b[0] * h[0] + w.a[0] * w.b[0] * y * c.h + w.alpha
  {
    hide Sum, Dot, Dot3;
    SingleDot(w.a, g);
    SingleDot(w.b, h);
    Dot3IsDot(w.a, w.b, YVec(y, 1));
    SingleDot(w.a, Times(w.b, YVec(y, 1)));
    assert Pow(y, 0) == 1 && Pow(y, 1) == y;
    assert w.a[0] * (w.b[0] * y) == w.a[0] * w.b[0] * y;
  }

  // The last step: the answers satisfy the final equation.
  lemma HonestAnswers(c: Curve, y: Scalar, g: SubPoint, h: SubPoint, a: Scalar, b: Scalar, alpha: Scalar, P: SubPoint,
                      A: SubPoint, B: SubPoint, e: Scalar, blinds: Blinds, proof: WipProof)
    requires Eq(P, a * g + b * h + a * b * y * c.h + alpha)
    requires Eq(A, blinds.r * g + blinds.s * h + (blinds.r * y * b + blinds.s * y * a) * c.h + blinds.delta)
    requires Eq(B, blinds.r * y * blinds.s * c.h + blinds.eta)
    requires proof.rAnswer == blinds.r + a * e && proof.sAnswer == blinds.s + b * e
    requires proof.deltaAnswer == blinds.eta + blinds.delta * e + alpha * (e * e)
    ensures FinalHolds(c, y, g, h, P, A, B, e, proof)
  {
    hide Eq;
    var p := a * g + b * h + a * b * y * c.h + alpha;
    var q := blinds.r * g + blinds.s * h + (blinds.r * y * b + blinds.s * y * a) * c.h + blinds.delta;
    var t := blinds.r * y * blinds.s * c.h + blinds.eta;
    EqScale(e * e, P, p);
    EqScale(e, A, q);
    EqAdd(e * e * P, e * e * p, e * A, e * q);
    EqAdd(e * e * P + e * A, e * e * p + e * q, B, t);
    AnswersExpand(e, a, b, y, g, h, c.h, alpha, blinds.r, blinds.s, blinds.delta, blinds.eta);
  }

  lemma AnswersExpand(e: int, a: int, b: int, y: int, g: int, h: int, hp: int, alpha: int, r: int, s: int,
                      delta: int, eta: int)
    ensures e * e * (a * g + b * h + a * b * y * hp + alpha)
            + e * (r * g + s * h + (r * y * b + s * y * a) * hp + delta) + (r * y * s * hp + eta) ==
            (r + a * e) * e * g + (s + b * e) * e * h + (r + a * e) * y * (s + b * e) * hp
            + (eta + delta * e + alpha * (e * e))
  {
    AnswersG(e, a, r, g);
    AnswersG(e, b, s, h);
    AnswersW(e, a, b, y, r, s, hp);
    ExpandOuter(e, a * g, b * h, a * b * y * hp, alpha, r * g, s * h, (r * y * b + s * y * a) * hp, delta);
  }

  lemma AnswersG(e: int, a: int, r: int, g: int)
    ensures (r + a * e) * e * g == e * e * (a * g) + e * (r * g)
  {
  }

  lemma AnswersW(e: int, a: int, b: int, y: int, r: int, s: int, hp: int)
    ensures (r + a * e) * y * (s + b * e) * hp ==
            e * e * (a * b * y * hp) + e * ((r * y * b + s * y * a) * hp) + r * y * s * hp
  {
    assert (r + a * e) * y == r * y + e * (a * y) by { Common(r, a, e, y); }
    TimesTwo(e, r * y, a * y, s, b);
    Rotate(a, y, s);
    Rotate(a, y, b);
    TimesThree(r * y * s, e, r * y * b + s * y * a, e * e, a * b * y, hp);
  }

  lemma Common(r: int, a: int, e: int, y: int)
    ensures (r + a * e) * y == r * y + e * (a * y)
  {
    assert a * e * y == e * (a * y);
  }

  lemma TimesTwo(e: int, u: int, v: int, s: int, b: int)
    ensures (u + e * v) * (s + b * e) == u * s + e * (u * b + v * s) + e * e * (v * b)
  {
    assert (u + e * v) * (s + b * e) == u * s + u * (b * e) + (e * v) * s + (e * v) * (b * e);
    assert u * (b * e) == e * (u * b);
    assert (e * v) * s == e * (v * s);
    assert (e * v) * (b * e) == e * e * (v * b) by { PairUp(e, v, b); }
  }

  lemma PairUp(e: int, v: int, b: int)
    ensures (e * v) * (b * e) == e * e * (v * b)
  {
    assert (e * v) * (b * e) == e * (v * (b * e));
    assert v * (b * e) == e * (v * b);
  }

  lemma Rotate(a: int, y: int, s: int)
    ensures a * y * s == s * y * a && a * y * s == a * s * y
  {
  }

  lemma TimesThree(p: int, e: int, q: int, f: int, t: int, h: int)
    ensures (p + e * q + f * t) * h == f * (t * h) + e * (q * h) + p * h
  {
  }

  lemma ExpandOuter(e: int, p1: int, p2: int, p3: int, p4: int, q1: int, q2: int, q3: int, q4: int)
    ensures e * e * (p1 + p2 + p3 + p4) + e * (q1 + q2 + q3 + q4) ==
            (e * e * p1 + e * q1) + (e * e * p2 + e * q2) + (e * e * p3 + e * q3) + (q4 * e + p4 * (e * e))
  {
  }

  method Prove(c: Curve, generators: Generators, ghost y: Scalar, yVec: Vector, initialTranscript: Scalar, w: WipWitness,
               blinds: Blinds, ghost rounds: nat)
    returns (res: Option<WipProof>)
    requires c.Valid() && !Eq(y, 0)
    requires |generators.G| == |generators.H| == |yVec| == Pow2(rounds) && yVec == YVec(y, |yVec|)
    requires |w.a| == |w.b|
    requires |blinds.d| == rounds
    ensures res.None? <==> |generators.G| != |w.a|
    ensures res.Some? ==>
              && Accepts(c, y, Round(generators.G, generators.H, Relation(c, y, w, generators.G, generators.H), initialTranscript),
                         res.value)
              && MadeFrom(c, y, ProverState(w, generators.G, generators.H, initialTranscript), blinds, res.value)
  {
    hide Relation, Eq, TranscriptPair, Replay, Honest, Accepts, FinalHolds, YVec, AllSent, After, Answers;
    if |generators.G| != |w.a| {
      return None;
    }
    ghost var st := Round(generators.G, generators.H, Relation(c, y, w, generators.G, generators.H), initialTranscript);
    var L, R, y', w', gBold, hBold, transcript;
    ghost var now;
    L, R, y', w', gBold, hBold, transcript, now := ProveRounds(c, y, yVec, st, w, generators, initialTranscript, blinds, rounds);
    HonestEnd(c, y, st, L, R, w', now);
    YVecFirst(y);
    var proof := ProveLast(c, y, y'[0], transcript, w', gBold, hBold, now.P, L, R, blinds);
    AcceptsLast(c, y, st, now, proof);
    res := Some(proof);
  }

  /** The case n > 1 of the protocol, until the vectors have length one. */
  method ProveRounds(c: Curve, ghost y: Scalar, yVec: Vector, ghost st: Round, w: WipWitness, generators: Generators,
                     initialTranscript: Scalar, blinds: Blinds, ghost rounds: nat)
    returns (L: seq<seq<byte>>, R: seq<seq<byte>>, y': Vector, w': WipWitness, gBold: Vector, hBold: Vector,
             transcript: Scalar, ghost now: Round)
    requires c.Valid() && !Eq(y, 0)
    requires |generators.G| == |generators.H| == |yVec| == Pow2(rounds) && yVec == YVec(y, |yVec|)
    requires |w.a| == |w.b| == |generators.G| && |blinds.d| == rounds
    requires st == Round(generators.G, generators.H, Relation(c, y, w, generators.G, generators.H), initialTranscript)
    ensures |L| == |R| == rounds && y' == YVec(y, 1)
    ensures now == Round(gBold, hBold, now.P, transcript)
    ensures |w'.a| == |w'.b| == |gBold| == |hBold| == 1
    ensures Honest(c, y, st, L, R, w', now)
    ensures var start := ProverState(w, generators.G, generators.H, initialTranscript);
            && AllSent(c, y, start, blinds.d, L, R)
            && After(c, y, start, blinds.d, L, R) == ProverState(w', gBold, hBold, transcript)
  {
    hide Relation, FoldOnce, FoldWitness, LeftTerm, RightTerm, Pow, Eq, TranscriptPair, Replay, Honest, YVec, Pow2, AllSent,
         After;
    gBold, hBold := generators.G, generators.H;
    var yInv := InvertedPowers(c, y, yVec, rounds);
    y', w', transcript := yVec, w, initialTranscript;
    L, R := [], [];
    ghost var k := rounds;
    now := st;
    HonestStart(c, y, st, w);
    ghost var start := ProverState(w, gBold, hBold, transcript);
    NoneSent(c, y, start, blinds.d);

    while |gBold| > 1
      invariant |L| == |R| && |L| + k == rounds && |yInv| == k
      invariant |w'.a| == |w'.b| == |gBold| == |hBold| == Pow2(k)
      invariant forall j :: 0 <= j < k ==> yInv[j] == c.invert(Pow(y, Pow2(j)))
      invariant y' == YVec(y, |gBold|)
      invariant now == Round(gBold, hBold, now.P, transcript)
      invariant Honest(c, y, st, L, R, w', now)
      invariant AllSent(c, y, start, blinds.d, L, R)
      invariant After(c, y, start, blinds.d, L, R) == ProverState(w', gBold, hBold, transcript)
    {
      Pow2Half(k);
      var (dl, dr) := blinds.d[|L|];
      var yInvHat := yInv[|yInv| - 1];
      yInv := yInv[..|yInv| - 1];
      now := ProverStep(c, y, st, L, R, w', now, dl, dr);
      var l, r;
      l, r, transcript, w', gBold, hBold := ProveRound(c, y, y', yInvHat, transcript, w', gBold, hBold, dl, dr);
      OneMoreSent(c, y, start, blinds.d, L, R, l, r);
      YVecPrefix(y, |y'|, |gBold|);
      y' := y'[..|gBold|];
      L, R := L + [l], R + [r];
      k := k - 1;
    }
    Pow2Half(k);
  }

  lemma HonestStart(c: Curve, y: Scalar, st: Round, w: WipWitness)
    requires c.Valid()
    requires |w.a| == |w.b| == |st.g| == |st.h|
    requires st.P == Relation(c, y, w, st.g, st.h)
    ensures Honest(c, y, st, [], [], w, st)
  {
  }

  lemma HonestEnd(c: Curve, y: Scalar, st: Round, L: seq<seq<byte>>, R: seq<seq<byte>>, w: WipWitness, now: Round)
    requires c.Valid()
    requires Honest(c, y, st, L, R, w, now)
    ensures |L| == |R| && Replay(c, y, st, L, R) == Some(now)
    ensures |w.a| == |w.b| == |now.g| == |now.h| && Eq(now.P, Relation(c, y, w, now.g, now.h))
  {
  }

  lemma YVecPrefix(y: Scalar, n: nat, m: nat)
    requires m <= n
    ensures YVec(y, n)[..m] == YVec(y, m)
  {
  }

  lemma YVecFirst(y: Scalar)
    ensures YVec(y, 1)[0] == Pow(y, 1)
  {
  }

  lemma AcceptsLast(c: Curve, y: Scalar, st: Round, now: Round, proof: WipProof)
    requires c.Valid()
    requires |proof.L| == |proof.R| && |st.g| == |st.h| == Pow2(|proof.L|)
    requires Replay(c, y, st, proof.L, proof.R) == Some(now) && |now.g| == |now.h| == 1
    requires c.Receive(proof.A).Some? && c.Receive(proof.B).Some?
    requires FinalHolds(c, y, now.g[0], now.h[0], now.P, c.Receive(proof.A).value, c.Receive(proof.B).value,
                        TranscriptPair(c, now.transcript, proof.A, proof.B), proof)
    ensures Accepts(c, y, st, proof)
  {
  }

  /** The case n = 1 of the protocol. */
  method ProveLast(c: Curve, ghost y: Scalar, y0: Scalar, transcript: Scalar, w: WipWitness, gBold: Vector, hBold: Vector,
                   ghost P: SubPoint, L: seq<seq<byte>>, R: seq<seq<byte>>, blinds: Blinds)
    returns (proof: WipProof)
    requires c.Valid()
    requires |w.a| == |w.b| == |gBold| == |hBold| == 1 && y0 == Pow(y, 1)
    requires Eq(P, Relation(c, y, w, gBold, hBold))
    ensures proof.L == L && proof.R == R
    ensures c.Receive(proof.A).Some? && c.Receive(proof.B).Some?
    ensures FinalHolds(c, y, gBold[0], hBold[0], P, c.Receive(proof.A).value, c.Receive(proof.B).value,
                       TranscriptPair(c, transcript, proof.A, proof.B), proof)
    ensures Answers(c, y, ProverState(w, gBold, hBold, transcript), blinds, proof)
  {
    hide Relation, Eq, Msm, TranscriptPair, FinalHolds;
    assert y0 == y;
    var a, b, g, h := w.a[0], w.b[0], gBold[0], hBold[0];
    var ry := blinds.r * y0;
    var aTerms := [(blinds.r, g), (blinds.s, h)] + [(ry * b + blinds.s * y0 * a, c.h)] + [(blinds.delta, 1)];
    MsmPair(blinds.r, g, blinds.s, h);
    MsmSnoc([(blinds.r, g), (blinds.s, h)], ry * b + blinds.s * y0 * a, c.h);
    MsmSnoc([(blinds.r, g), (blinds.s, h)] + [(ry * b + blinds.s * y0 * a, c.h)], blinds.delta, 1);
    var A := c.Transmit(Msm(aTerms));
    MsmPair(ry * blinds.s, c.h, blinds.eta, 1);
    var B := c.Transmit(Msm([(ry * blinds.s, c.h), (blinds.eta, 1)]));
    var e := TranscriptPair(c, transcript, A, B);
    proof := WipProof(L, R, A, B, blinds.r + a * e, blinds.s + b * e,
                      blinds.eta + blinds.delta * e + w.alpha * (e * e));
    TransmitReceive(c, Msm(aTerms));
    TransmitReceive(c, Msm([(ry * blinds.s, c.h), (blinds.eta, 1)]));
    RelationOfOne(c, y, w, gBold, hBold);
    HonestAnswers(c, y, g, h, a, b, w.alpha, P, c.Receive(A).value, c.Receive(B).value, e, blinds, proof);
  }

  // ---------------------------------------------------------------------------------------------
  // The batch verifier.

  /** The challenges as they act on the left generators: each carries a negative power of y. */
  function GChallenges(c: Curve, y: Scalar, challenges: seq<Challenge>): (r: seq<Challenge>)
    ensures |r| == |challenges|
  {
    if challenges == [] then []
    else
      [(challenges[0].0 * c.invert(Pow(y, Pow2(|challenges| - 1))), challenges[0].1)] + GChallenges(c, y, challenges[1..])
  }

  lemma {:induction false} ReplayClosedForm(c: Curve, y: Scalar, st: Round, L: seq<seq<byte>>, R: seq<seq<byte>>)
    requires c.Valid()
    requires |L| == |R| && |st.g| == |st.h| == Pow2(|L|)
    ensures Replay(c, y, st, L, R).Some? <==> Ip.Decodable(c, L) && Ip.Decodable(c, R)
    ensures var challenges := Ip.Challenges(c, st.transcript, L, R);
            match Replay(c, y, st, L, R)
            case None => true
            case Some(end) =>
              && end.g == FoldAll(st.g, GChallenges(c, y, challenges))
              && end.h == FoldAll(st.h, Swapped(challenges))
              && end.P == st.P + Ip.Cross(c, challenges, L, R)
              && end.transcript == LastTranscript(c, st.transcript, L, R)
    decreases |L|
  {
    hide Ip.CrossTerms, Ip.Cross, Lin, Low, High, FoldOnce, Ip.TranscriptLR, Pow;
    if L == [] {
      Ip.CrossOfNone(c, [], L, R);
    } else {
      assert Ip.Decodable(c, L) <==> c.Receive(L[0]).Some? && Ip.Decodable(c, L[1..]) by {
        assert L == [L[0]] + L[1..];
      }
      assert Ip.Decodable(c, R) <==> c.Receive(R[0]).Some? && Ip.Decodable(c, R[1..]) by {
        assert R == [R[0]] + R[1..];
      }
      match NextRound(c, y, st, L[0], R[0]) {
        case None =>
        case Some(next) =>
          var challenges := Ip.Challenges(c, st.transcript, L, R);
          ReplayClosedForm(c, y, next, L[1..], R[1..]);
          assert challenges[1..] == Ip.Challenges(c, next.transcript, L[1..], R[1..]);
          Ip.CrossStep(c, challenges, L, R, 0);
          assert challenges[0..] == challenges && L[0..] == L && R[0..] == R;
          assert Swapped(challenges)[1..] == Swapped(challenges[1..]);
          assert GChallenges(c, y, challenges)[1..] == GChallenges(c, y, challenges[1..]);
      }
    }
  }

  /** The transcript after the last round. */
  function LastTranscript(c: Curve, transcript: Scalar, L: seq<seq<byte>>, R: seq<seq<byte>>): Scalar
    requires c.Valid()
    requires |L| == |R|
    decreases |L|
  {
    if L == [] then transcript
    else LastTranscript(c, TranscriptPair(c, transcript, L[0], R[0]), L[1..], R[1..])
  }

  // The inverse of a power is the power of the inverse.
  lemma InverseOfPower(c: Curve, y: Scalar, n: nat)
    requires c.Valid() && !Eq(y, 0)
    ensures Eq(c.invert(Pow(y, n)), Pow(c.invert(y), n))
  {
    hide Eq, Pow;
    var p, q, r := Pow(y, n), c.invert(Pow(y, n)), Pow(c.invert(y), n);
    PowNonZero(c, y, n);
    InverseWorks(c, p);
    InverseWorks(c, y);
    PowInverse(y, c.invert(y), n);
    EqScale(r, p * q, 1);
    EqScale(q, p * r, 1);
    assert p * q * r == p * r * q;
    EqSymmetric(p * r * q, 1 * q);
    EqSymmetric(1 * q, p * q * r);
    Transitive3(1 * q, p * q * r, 1 * r);
  }

  lemma Transitive3(a: int, b: int, d: int)
    requires Eq(b, a) && Eq(b, d)
    ensures Eq(a, d)
  {
  }

  // The left generators' coefficients are the challenge products, weighted by powers of 1/y.
  lemma {:induction false} GCoefficient(c: Curve, y: Scalar, challenges: seq<Challenge>, i: nat)
    requires c.Valid() && !Eq(y, 0)
    requires i < Pow2(|challenges|)
    ensures Eq(ProductAt(GChallenges(c, y, challenges), i), ProductAt(challenges, i) * Pow(c.invert(y), i))
    decreases |challenges|
  {
    hide Eq, Pow, Child, ProductAt, Pow2, Curve.Valid;
    var yInv := c.invert(y);
    if challenges == [] {
      EqFromMultiple(1, 1 * 1, 0);
      PowZero(yInv);
      NoChallenges(i);
    } else {
      var half := Pow2(|challenges| - 1);
      var g := GChallenges(c, y, challenges);
      Pow2Double(|challenges| - 1);
      ProductAtFirst(challenges, i);
      ProductAtFirst(g, i);
      assert g[1..] == GChallenges(c, y, challenges[1..]);
      if i < half {
        GCoefficient(c, y, challenges[1..], i);
        LowerCoefficient(ProductAt(g[1..], i), ProductAt(challenges[1..], i), Pow(yInv, i), challenges[0].1);
      } else {
        GCoefficient(c, y, challenges[1..], i - half);
        InverseOfPower(c, y, half);
        PowAdd(yInv, i - half, half);
        UpperCoefficient(ProductAt(g[1..], i - half), ProductAt(challenges[1..], i - half), Pow(yInv, i - half),
                         challenges[0].0, c.invert(Pow(y, half)), Pow(yInv, half));
      }
    }
  }

  lemma NoChallenges(i: nat)
    requires i < Pow2(0)
    ensures i == 0 && ProductAt([], i) == 1
  {
  }

  lemma Pow2Double(n: nat)
    ensures Pow2(n + 1) == 2 * Pow2(n)
  {
  }

  lemma LowerCoefficient(p: int, q: int, a: int, lo: int)
    requires Eq(p, q * a)
    ensures Eq(p * lo, q * lo * a)
  {
    hide *;
    EqScale(lo, p, q * a);
    Swap3(q, a, lo);
    assert lo * p == p * lo;
  }

  lemma UpperCoefficient(p: int, q: int, a: int, hi: int, inverse: int, b: int)
    requires Eq(p, q * a) && Eq(inverse, b)
    ensures Eq(p * (hi * inverse), q * hi * (a * b))
  {
    hide *;
    EqScale(hi, inverse, b);
    EqMul(p, q * a, hi * inverse, hi * b);
    Swap4(q, a, hi, b);
  }

  lemma PowZero(x: int)
    ensures Pow(x, 0) == 1
  {
  }

  lemma Swap3(a: int, b: int, d: int)
    ensures (a * b) * d == (a * d) * b
  {
  }

  lemma Swap4(a: int, b: int, d: int, e: int)
    ensures (a * b) * (d * e) == (a * d) * (b * e)
  {
  }

  lemma GCoefficientsDot(c: Curve, y: Scalar, challenges: seq<Challenge>, g: Vector)
    requires c.Valid() && !Eq(y, 0)
    requires |g| == Pow2(|challenges|)
    ensures Eq(FoldAll(g, GChallenges(c, y, challenges))[0],
               Dot(Times(Coefficients(challenges), PowVec(c.invert(y), |g|)), g))
  {
    hide Eq, Pow, Dot, GChallenges, FoldAll, Pow2;
    var left := Coefficients(GChallenges(c, y, challenges));
    var right := Times(Coefficients(challenges), PowVec(c.invert(y), |g|));
    FoldAllIsDot(g, GChallenges(c, y, challenges));
    forall i | 0 <= i < |g|
      ensures Eq(left[i], right[i])
    {
      GCoefficient(c, y, challenges, i);
    }
    DotEq(left, right, g);
  }

  /** The point a queued proof adds to the batch, per unit of weight. */
  function Effect(c: Curve, generators: Generators, yVec: Vector, P: SubPoint, challenges: seq<Challenge>, e: Scalar,
                  A: SubPoint, B: SubPoint, proof: WipProof, yInvPow: Vector): SubPoint
    requires |challenges| == |proof.L| == |proof.R|
    requires |generators.G| == |generators.H| == |yInvPow| == Pow2(|challenges|) && |yVec| > 0
  {
    var products := Coefficients(challenges);
    proof.rAnswer * e * Dot(Times(products, yInvPow), generators.G)
    + proof.sAnswer * e * Dot(Reverse(products), generators.H)
    + proof.rAnswer * yVec[0] * proof.sAnswer * c.h + proof.deltaAnswer
    - e * e * (P + Ip.Cross(c, challenges, proof.L, proof.R)) - e * A - B
  }

  lemma AcceptsIffNoEffect(c: Curve, generators: Generators, y: Scalar, P: SubPoint, transcript: Scalar, proof: WipProof,
                           challenges: seq<Challenge>, e: Scalar)
    requires c.Valid() && !Eq(y, 0)
    requires |proof.L| == |proof.R| && |generators.G| == |generators.H| == Pow2(|proof.L|)
    requires challenges == Ip.Challenges(c, transcript, proof.L, proof.R)
    requires e == TranscriptPair(c, LastTranscript(c, transcript, proof.L, proof.R), proof.A, proof.B)
    ensures Accepts(c, y, Round(generators.G, generators.H, P, transcript), proof) <==>
            && Ip.Decodable(c, proof.L) && Ip.Decodable(c, proof.R)
            && c.Receive(proof.A).Some? && c.Receive(proof.B).Some?
            && Eq(Effect(c, generators, YVec(y, |generators.G|), P, challenges, e, c.Receive(proof.A).value,
                         c.Receive(proof.B).value, proof, PowVec(c.invert(y), |generators.G|)), 0)
  {
    hide Eq, Effect, FinalHolds, GChallenges, FoldAll, Ip.Cross, Ip.Challenges, Replay, TranscriptPair, YVec, PowVec,
         Ip.Decodable, LastTranscript, Pow2, Swapped;
    var st := Round(generators.G, generators.H, P, transcript);
    ReplayClosedForm(c, y, st, proof.L, proof.R);
    if Replay(c, y, st, proof.L, proof.R).Some? && c.Receive(proof.A).Some? && c.Receive(proof.B).Some? {
      var end := Replay(c, y, st, proof.L, proof.R).value;
      GCoefficientsDot(c, y, challenges, generators.G);
      FoldAllIsDot(generators.H, Swapped(challenges));
      CoefficientsMirrored(challenges);
      FinalIffEffect(c, generators, y, P, challenges, e, c.Receive(proof.A).value, c.Receive(proof.B).value, proof,
                     end.g[0], end.h[0]);
    }
  }

  lemma FinalIffEffect(c: Curve, generators: Generators, y: Scalar, P: SubPoint, challenges: seq<Challenge>, e: Scalar,
                       A: SubPoint, B: SubPoint, proof: WipProof, g: SubPoint, h: SubPoint)
    requires |challenges| == |proof.L| == |proof.R|
    requires |generators.G| == |generators.H| == Pow2(|challenges|)
    requires Eq(g, Dot(Times(Coefficients(challenges), PowVec(c.invert(y), |generators.G|)), generators.G))
    requires h == Dot(Reverse(Coefficients(challenges)), generators.H)
    ensures FinalHolds(c, y, g, h, P + Ip.Cross(c, challenges, proof.L, proof.R), A, B, e, proof) <==>
            Eq(Effect(c, generators, YVec(y, |generators.G|), P, challenges, e, A, B, proof,
                      PowVec(c.invert(y), |generators.G|)), 0)
  {
    hide Eq, Dot, Coefficients, Reverse, Times, PowVec, Ip.Cross, Pow2;
    var p := P + Ip.Cross(c, challenges, proof.L, proof.R);
    var d := Dot(Times(Coefficients(challenges), PowVec(c.invert(y), |generators.G|)), generators.G);
    assert YVec(y, |generators.G|)[0] == y by { assert Pow(y, 0) == 1 && Pow(y, 1) == y; }
    var left := e * e * p + e * A + B;
    var rest := proof.sAnswer * e * h + proof.rAnswer * y * proof.sAnswer * c.h + proof.deltaAnswer;
    EqScale(proof.rAnswer * e, g, d);
    EqFromMultiple(rest - left, rest - left, 0);
    EqAdd(proof.rAnswer * e * g, proof.rAnswer * e * d, rest - left, rest - left);
    var right := proof.rAnswer * e * g + rest;
    Ip.EqByDifference(right, left);
    EqIff(left, right, right - left, proof.rAnswer * e * d + (rest - left));
  }

  lemma EqIff(left: int, right: int, difference: int, effect: int)
    requires Eq(right, left) <==> Eq(difference, 0)
    requires Eq(difference, effect)
    ensures Eq(left, right) <==> Eq(effect, 0)
  {
  }

  /** The proof has the right shape and all of its points decode; nothing is said about its validity. */
  ghost predicate WellFormed(c: Curve, n: nat, proof: WipProof) {
    && |proof.L| == |proof.R| && n == Pow2(|proof.L|)
    && Ip.Decodable(c, proof.L) && Ip.Decodable(c, proof.R)
    && c.Receive(proof.A).Some? && c.Receive(proof.B).Some?
  }

  /** What queueing a well-formed proof adds to the batch, per unit of weight. */
  function ProofEffect(c: Curve, generators: Generators, n: nat, y: Scalar, P: SubPoint, transcript: Scalar,
                       proof: WipProof): SubPoint
    requires c.Valid()
    requires |proof.L| == |proof.R| && n == Pow2(|proof.L|)
    requires n <= |generators.G| && n <= |generators.H|
    requires c.Receive(proof.A).Some? && c.Receive(proof.B).Some?
  {
    var challenges := Ip.Challenges(c, transcript, proof.L, proof.R);
    var e := TranscriptPair(c, LastTranscript(c, transcript, proof.L, proof.R), proof.A, proof.B);
    Effect(c, Reduce(generators, n), YVec(y, n), P, challenges, e, c.Receive(proof.A).value, c.Receive(proof.B).value, proof,
           PowVec(c.invert(y), n))
  }

  /** The first `n` generators of each list. */
  function Reduce(generators: Generators, n: nat): (r: Generators)
    requires n <= |generators.G| && n <= |generators.H|
    ensures |r.G| == |r.H| == n
  {
    Generators(generators.G[..n], generators.H[..n])
  }

  lemma AcceptsIffWellFormedAndNoEffect(c: Curve, generators: Generators, n: nat, y: Scalar, P: SubPoint,
                                        transcript: Scalar, proof: WipProof)
    requires c.Valid() && !Eq(y, 0)
    requires n <= |generators.G| && n <= |generators.H|
    ensures Accepts(c, y, Round(generators.G[..n], generators.H[..n], P, transcript), proof) <==>
            WellFormed(c, n, proof) && Eq(ProofEffect(c, generators, n, y, P, transcript, proof), 0)
  {
    hide Eq, Effect, Replay, FinalHolds, Ip.Challenges, TranscriptPair, LastTranscript, YVec, PowVec, Pow2, Ip.Decodable;
    if |proof.L| == |proof.R| && n == Pow2(|proof.L|) {
      AcceptsIffNoEffect(c, Reduce(generators, n), y, P, transcript, proof,
                         Ip.Challenges(c, transcript, proof.L, proof.R),
                         TranscriptPair(c, LastTranscript(c, transcript, proof.L, proof.R), proof.A, proof.B));
    }
  }

  // Only the residue of the statement's point matters.
  lemma AcceptsCongruent(c: Curve, y: Scalar, st: Round, P: SubPoint, proof: WipProof)
    requires c.Valid()
    requires Accepts(c, y, st, proof) && Eq(st.P, P)
    ensures Accepts(c, y, st.(P := P), proof)
  {
    hide Eq, Relation, FoldAll, Pow2, Swapped, GChallenges, FinalHolds, TranscriptPair, LastTranscript, Ip.Cross,
         Ip.Challenges, Ip.Decodable;
    ReplayClosedForm(c, y, st, proof.L, proof.R);
    ReplayClosedForm(c, y, st.(P := P), proof.L, proof.R);
    var end := Replay(c, y, st, proof.L, proof.R).value;
    var cross := Ip.Cross(c, Ip.Challenges(c, st.transcript, proof.L, proof.R), proof.L, proof.R);
    EqFromMultiple(cross, cross, 0);
    EqAdd(st.P, P, cross, cross);
    FinalCongruent(c, y, end.g[0], end.h[0], end.P, P + cross, c.Receive(proof.A).value, c.Receive(proof.B).value,
                   TranscriptPair(c, end.transcript, proof.A, proof.B), proof);
  }

  lemma FinalCongruent(c: Curve, y: Scalar, g: SubPoint, h: SubPoint, P: SubPoint, Q: SubPoint, A: SubPoint, B: SubPoint,
                       e: Scalar, proof: WipProof)
    requires FinalHolds(c, y, g, h, P, A, B, e, proof) && Eq(P, Q)
    ensures FinalHolds(c, y, g, h, Q, A, B, e, proof)
  {
    hide Eq;
    EqScale(e * e, P, Q);
    EqFromMultiple(e * A + B, e * A + B, 0);
    EqAdd(e * e * P, e * e * Q, e * A + B, e * A + B);
    Ip.EqChain(e * e * P + (e * A + B), e * e * Q + (e * A + B),
               proof.rAnswer * e * g + proof.sAnswer * e * h + proof.rAnswer * y * proof.sAnswer * c.h + proof.deltaAnswer);
  }

  // ---------------------------------------------------------------------------------------------
  // Queueing a proof.

  /** The powers of the inverse of y, from the first on. */
  method InverseList(c: Curve, y: Scalar, n: nat) returns (res: Vector)
    requires n > 0
    ensures |res| == n
    ensures forall i :: 0 <= i < n ==> res[i] == Pow(c.invert(y), i + 1)
  {
    var yInv := c.invert(y);
    res := [yInv];
    assert Pow(yInv, 0) == 1 && Pow(yInv, 1) == yInv;
    while |res| < n
      invariant 1 <= |res| <= n
      invariant forall i :: 0 <= i < |res| ==> res[i] == Pow(yInv, i + 1)
    {
      res := res + [yInv * res[|res| - 1]];
    }
  }

  /** Derives the challenges and decodes the points, or fails on a point which does not decode. */
  method ReadRounds(c: Curve, initialTranscript: Scalar, L: seq<seq<byte>>, R: seq<seq<byte>>)
    returns (ok: bool, es: seq<Scalar>, lPoints: seq<SubPoint>, rPoints: seq<SubPoint>, transcript: Scalar)
    requires c.Valid()
    requires |L| == |R|
    ensures ok <==> Ip.Decodable(c, L) && Ip.Decodable(c, R)
    ensures ok ==> |es| == |lPoints| == |rPoints| == |L| && transcript == LastTranscript(c, initialTranscript, L, R)
    ensures ok ==> forall i :: 0 <= i < |L| ==>
                     && es[i] == Ip.Challenges(c, initialTranscript, L, R)[i].0
                     && lPoints[i] == Ip.PointOrZero(c, L[i]) && rPoints[i] == Ip.PointOrZero(c, R[i])
  {
    hide Ip.TranscriptLR;
    es, lPoints, rPoints := [], [], [];
    transcript := initialTranscript;
    ghost var all := Ip.Challenges(c, initialTranscript, L, R);
    for i := 0 to |L|
      invariant |es| == |lPoints| == |rPoints| == i
      invariant forall k :: 0 <= k < i ==>
                  && es[k] == all[k].0 && c.Receive(L[k]).Some? && c.Receive(R[k]).Some?
                  && lPoints[k] == Ip.PointOrZero(c, L[k]) && rPoints[k] == Ip.PointOrZero(c, R[k])
      invariant all[i..] == Ip.Challenges(c, transcript, L[i..], R[i..])
      invariant LastTranscript(c, transcript, L[i..], R[i..]) == LastTranscript(c, initialTranscript, L, R)
    {
      transcript := TranscriptPair(c, transcript, L[i], R[i]);
      es := es + [transcript];
      assert L[i..][1..] == L[i + 1..] && R[i..][1..] == R[i + 1..];
      assert all[i] == all[i..][0] && all[i + 1..] == all[i..][1..];
      match (c.Receive(L[i]), c.Receive(R[i])) {
        case (Some(l), Some(r)) =>
          lPoints, rPoints := lPoints + [l], rPoints + [r];
        case _ =>
          return false, es, lPoints, rPoints, transcript;
      }
    }
    ok := true;
  }

  method QueueRounds(c: Curve, verifier: InternalBatchVerifier, weight: Scalar, challenges: seq<Challenge>,
                     lPoints: seq<SubPoint>, rPoints: seq<SubPoint>, ghost L: seq<seq<byte>>, ghost R: seq<seq<byte>>)
    requires |challenges| == |lPoints| == |rPoints| == |L| == |R|
    requires forall i :: 0 <= i < |L| ==> lPoints[i] == Ip.PointOrZero(c, L[i]) && rPoints[i] == Ip.PointOrZero(c, R[i])
    modifies verifier`other
    ensures Msm(verifier.other) == Msm(old(verifier.other)) + weight * Ip.Cross(c, challenges, L, R)
  {
    hide Msm, Ip.Cross, Ip.CrossTerms;
    assert challenges[0..] == challenges && L[0..] == L && R[0..] == R;
    for i := 0 to |challenges|
      invariant Msm(verifier.other) + weight * Ip.Cross(c, challenges[i..], L[i..], R[i..]) ==
                Msm(old(verifier.other)) + weight * Ip.Cross(c, challenges, L, R)
    {
      var (e, eInv) := challenges[i];
      var l, r := lPoints[i], rPoints[i];
      Ip.CrossStep(c, challenges, L, R, i);
      MsmSnoc(verifier.other, weight * (e * e), l);
      MsmSnoc(verifier.other + [(weight * (e * e), l)], weight * (eInv * eInv), r);
      Ip.WeightedRound(weight, e, eInv, l, r, Ip.Cross(c, challenges[i + 1..], L[i + 1..], R[i + 1..]));
      verifier.other := verifier.other + [(weight * (e * e), l)] + [(weight * (eInv * eInv), r)];
    }
    Ip.CrossOfNone(c, challenges[|challenges|..], L[|L|..], R[|R|..]);
  }

  method AddLeftRows(rows: Vector, n: nat, weight: Scalar, products: Vector, re: Scalar, ghost yInv: Scalar, invY: Vector)
    returns (res: Vector)
    requires n == |products| == |invY| <= |rows|
    requires forall i :: 0 <= i < n ==> invY[i] == Pow(yInv, i + 1)
    ensures |res| == |rows|
    ensures PartlyAdded(rows, res, Scale(Times(products, PowVec(yInv, n)), weight * re), n)
  {
    hide PartlyAdded, Pow;
    res := rows;
    ghost var terms := Scale(Times(products, PowVec(yInv, n)), weight * re);
    NoneAdded(rows, terms);
    for i := 0 to n
      invariant |res| == |rows| && PartlyAdded(rows, res, terms, i)
    {
      var scalar := products[i] * re;
      if i > 0 {
        scalar := scalar * invY[i - 1];
      }
      PowZero(yInv);
      LeftTermIs(weight, products[i], re, if i > 0 then invY[i - 1] else 1);
      AddOne(rows, res, terms, i);
      res := res[i := res[i] + weight * scalar];
    }
  }

  lemma LeftTermIs(w: int, p: int, re: int, y: int)
    ensures p * y * (w * re) == w * (p * re * y)
  {
  }

  method AddRightRows(rows: Vector, n: nat, weight: Scalar, products: Vector, se: Scalar) returns (res: Vector)
    requires n == |products| <= |rows|
    ensures |res| == |rows|
    ensures PartlyAdded(rows, res, Scale(Reverse(products), weight * se), n)
  {
    hide PartlyAdded;
    res := rows;
    ghost var terms := Scale(Reverse(products), weight * se);
    NoneAdded(rows, terms);
    for i := 0 to n
      invariant |res| == |rows| && PartlyAdded(rows, res, terms, i)
    {
      var product := products[|products| - 1 - i];
      LeftTermIs(weight, 1, se, product);
      AddOne(rows, res, terms, i);
      res := res[i := res[i] + weight * (se * product)];
    }
  }

  /** Makes room for a proof's rows. */
  method ExtendRows(rows: Vector, n: nat, ghost generators: Vector) returns (res: Vector)
    requires |rows| <= |generators| && n <= |generators|
    ensures |res| == if n <= |rows| then |rows| else n
    ensures Dot(res, generators[..|res|]) == Dot(rows, generators[..|rows|])
  {
    hide Dot;
    res := rows;
    while |res| < n
      invariant |rows| <= |res| && (|res| <= n || res == rows)
      invariant Dot(res, generators[..|res|]) == Dot(rows, generators[..|rows|])
    {
      var k := |res|;
      DotSnoc(res, generators[..k], 0, generators[k]);
      assert generators[..k] + [generators[k]] == generators[..k + 1];
      res := res + [0];
    }
  }

  /** The rows of a proof's generators. */
  method QueueRows(verifier: InternalBatchVerifier, generators: Generators, n: nat, weight: Scalar, products: Vector,
                   re: Scalar, se: Scalar, ghost yInv: Scalar, invY: Vector)
    requires n == |products| == |invY| <= |generators.G| == |generators.H|
    requires |verifier.gBold| == |verifier.hBold| <= |generators.G|
    requires forall i :: 0 <= i < n ==> invY[i] == Pow(yInv, i + 1)
    modifies verifier`gBold, verifier`hBold
    ensures |verifier.gBold| == |verifier.hBold| <= |generators.G|
    ensures Dot(verifier.gBold, generators.G[..|verifier.gBold|]) ==
            old(Dot(verifier.gBold, generators.G[..|verifier.gBold|])) +
            weight * re * Dot(Times(products, PowVec(yInv, n)), generators.G[..n])
    ensures Dot(verifier.hBold, generators.H[..|verifier.hBold|]) ==
            old(Dot(verifier.hBold, generators.H[..|verifier.hBold|])) +
            weight * se * Dot(Reverse(products), generators.H[..n])
  {
    hide Dot, PartlyAdded, Scale, Pow;
    verifier.gBold := ExtendRows(verifier.gBold, n, generators.G);
    verifier.hBold := ExtendRows(verifier.hBold, n, generators.H);
    ghost var before, before' := verifier.gBold, verifier.hBold;
    ghost var g, h := generators.G[..|before|], generators.H[..|before|];
    assert g[..n] == generators.G[..n] && h[..n] == generators.H[..n];
    verifier.gBold := AddLeftRows(verifier.gBold, n, weight, products, re, yInv, invY);
    AllAdded(before, verifier.gBold, Times(products, PowVec(yInv, n)), weight * re, n, g);
    verifier.hBold := AddRightRows(verifier.hBold, n, weight, products, se);
    AllAdded(before', verifier.hBold, Reverse(products), weight * se, n, h);
  }

  /** The terms of the other points, and of the two fixed ones. */
  method QueuePoints(c: Curve, verifier: InternalBatchVerifier, weight: Scalar, e: Scalar, y0: Scalar, P: SubPoint,
                     challenges: seq<Challenge>, lPoints: seq<SubPoint>, rPoints: seq<SubPoint>, A: SubPoint, B: SubPoint,
                     proof: WipProof)
    requires |challenges| == |lPoints| == |rPoints| == |proof.L| == |proof.R|
    requires forall i :: 0 <= i < |proof.L| ==>
               lPoints[i] == Ip.PointOrZero(c, proof.L[i]) && rPoints[i] == Ip.PointOrZero(c, proof.R[i])
    modifies verifier`other, verifier`g, verifier`h
    ensures verifier.g * c.h + verifier.h * 1 + Msm(verifier.other) ==
            old(verifier.g * c.h + verifier.h * 1 + Msm(verifier.other)) +
            weight * (proof.rAnswer * y0 * proof.sAnswer * c.h + proof.deltaAnswer
                      - e * e * (P + Ip.Cross(c, challenges, proof.L, proof.R)) - e * A - B)
  {
    hide Msm, Ip.Cross;
    var negESquare := weight * -(e * e);
    MsmSnoc(verifier.other, negESquare, P);
    verifier.other := verifier.other + [(negESquare, P)];
    QueueRounds(c, verifier, negESquare, challenges, lPoints, rPoints, proof.L, proof.R);
    MsmSnoc(verifier.other, weight * -e, A);
    verifier.other := verifier.other + [(weight * -e, A)];
    verifier.g := verifier.g + weight * (proof.rAnswer * y0 * proof.sAnswer);
    verifier.h := verifier.h + weight * proof.deltaAnswer;
    MsmSnoc(verifier.other, -weight, B);
    verifier.other := verifier.other + [(-weight, B)];
    PointTerms(weight, e, P, Ip.Cross(c, challenges, proof.L, proof.R), A, B, proof.rAnswer * y0 * proof.sAnswer, c.h,
               proof.deltaAnswer, old(verifier.g));
  }

  lemma PointTerms(w: int, e: int, P: int, cross: int, A: int, B: int, rys: int, h: int, delta: int, g: int)
    ensures (g + w * rys) * h + w * delta + w * -(e * e) * P + w * -(e * e) * cross + w * -e * A + -w * B ==
            g * h + w * (rys * h + delta - e * e * (P + cross) - e * A - B)
  {
    assert w * -(e * e) * P + w * -(e * e) * cross == w * -(e * e * (P + cross));
  }

  method Verify(c: Curve, verifier: InternalBatchVerifier, generators: Generators, n: nat, y: Scalar, yVec: Vector,
                P: SubPoint, transcript: Scalar, proof: WipProof, weight: Scalar)
    returns (ok: bool)
    requires c.Valid()
    requires 0 < n <= |generators.G| == |generators.H| && yVec == YVec(y, n)
    requires |verifier.gBold| == |verifier.hBold| <= |generators.G|
    modifies verifier
    ensures |verifier.gBold| == |verifier.hBold| <= |generators.G|
    ensures ok <==> WellFormed(c, n, proof)
    ensures ok ==> verifier.Eval(c.h, 1, generators) ==
                   old(verifier.Eval(c.h, 1, generators)) + weight * ProofEffect(c, generators, n, y, P, transcript, proof)
  {
    hide Dot, Msm, Ip.Decodable, Ip.Challenges, LastTranscript, TranscriptPair, YVec, PowVec, Effect, Coefficients, Times,
         Reverse, Ip.Cross, Pow2;
    var lrLen := Ip.CeilLog2(n);
    Ip.LogOfPow2(lrLen, |proof.L|);
    if |proof.L| != lrLen || |proof.R| != lrLen || n != Pow2(lrLen) {
      return false;
    }
    YVecStart(y, n);
    var invY := InverseList(c, yVec[0], n);
    var decoded, es, lPoints, rPoints, last := ReadRounds(c, transcript, proof.L, proof.R);
    if !decoded {
      return false;
    }
    var e := TranscriptPair(c, last, proof.A, proof.B);
    var A, B := c.Receive(proof.A), c.Receive(proof.B);
    if A.None? || B.None? {
      return false;
    }
    var invEs := Ip.BatchInvert(c, es);
    var challenges := seq(|es|, i requires 0 <= i < |es| => (es[i], invEs[i]));
    ChallengesAre(c, transcript, proof.L, proof.R, challenges);
    QueuePoints(c, verifier, weight, e, yVec[0], P, challenges, lPoints, rPoints, A.value, B.value, proof);
    var products := ChallengeProducts(challenges);
    QueueRows(verifier, generators, n, weight, products, proof.rAnswer * e, proof.sAnswer * e, c.invert(y), invY);
    EffectIs(c, Reduce(generators, n), YVec(y, n), P, challenges, e, A.value, B.value, proof, PowVec(c.invert(y), n), weight);
    ok := true;
  }

  lemma YVecStart(y: Scalar, n: nat)
    requires n > 0
    ensures YVec(y, n)[0] == y
  {
    assert Pow(y, 0) == 1;
  }

  lemma ChallengesAre(c: Curve, transcript: Scalar, L: seq<seq<byte>>, R: seq<seq<byte>>, challenges: seq<Challenge>)
    requires c.Valid()
    requires |challenges| == |L| == |R|
    requires forall i :: 0 <= i < |L| ==>
               challenges[i] == (Ip.Challenges(c, transcript, L, R)[i].0, c.invert(Ip.Challenges(c, transcript, L, R)[i].0))
    ensures challenges == Ip.Challenges(c, transcript, L, R)
  {
    forall i | 0 <= i < |L|
      ensures challenges[i] == Ip.Challenges(c, transcript, L, R)[i]
    {
      Ip.ChallengePair(c, transcript, L, R, i);
    }
  }

  lemma EffectIs(c: Curve, generators: Generators, yVec: Vector, P: SubPoint, challenges: seq<Challenge>, e: Scalar,
                 A: SubPoint, B: SubPoint, proof: WipProof, yInvPow: Vector, weight: Scalar)
    requires |challenges| == |proof.L| == |proof.R|
    requires |generators.G| == |generators.H| == |yInvPow| == Pow2(|challenges|) && |yVec| > 0
    ensures var products := Coefficients(challenges);
            weight * Effect(c, generators, yVec, P, challenges, e, A, B, proof, yInvPow) ==
            weight * (proof.rAnswer * e) * Dot(Times(products, yInvPow), generators.G)
            + weight * (proof.sAnswer * e) * Dot(Reverse(products), generators.H)
            + weight * (proof.rAnswer * yVec[0] * proof.sAnswer * c.h + proof.deltaAnswer
                        - e * e * (P + Ip.Cross(c, challenges, proof.L, proof.R)) - e * A - B)
  {
    hide Dot, Ip.Cross, Coefficients, Times, Reverse;
    var products := Coefficients(challenges);
    ThreeParts(weight, proof.rAnswer * e, Dot(Times(products, yInvPow), generators.G), proof.sAnswer * e,
               Dot(Reverse(products), generators.H),
               proof.rAnswer * yVec[0] * proof.sAnswer * c.h + proof.deltaAnswer
               - e * e * (P + Ip.Cross(c, challenges, proof.L, proof.R)) - e * A - B);
  }

  lemma ThreeParts(w: int, re: int, g: int, se: int, h: int, rest: int)
    ensures w * (re * g + se * h + rest) == w * re * g + w * se * h + w * rest
  {
  }
}
