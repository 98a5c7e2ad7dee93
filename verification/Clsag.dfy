/** ringct/clsag/src/lib.rs: the ring signature of one input. */
module Clsag {
  import opened Wrappers
  import opened Arithmetic
  import opened PowersOfTwo
  import opened Ed25519
  import opened Vectors
  import opened ClsagDecoys

  datatype ClsagError = InvalidRing | InvalidKey | InvalidCommitment | InvalidImage | InvalidD | InvalidS | InvalidC1

  datatype Signature = Signature(D: seq<byte>, s: seq<Scalar>, c1: Scalar)

  /** What a signature is about. `D` is free of torsion; `dSerialized` is how it was sent. */
  datatype Statement = Statement(ring: seq<Member>, I: Point, pseudoOut: Point, msg: seq<byte>, D: Point,
                                 dSerialized: seq<byte>)

  // ---------------------------------------------------------------------------------------------
  // The transcripts, as they are specified.

  // "CLSAG_", "agg_0", "agg_1" and "round"
  const PREFIX: seq<byte> := [67, 76, 83, 65, 71, 95]
  const AGG_0: seq<byte> := [97, 103, 103, 95, 48]
  const AGG_1: seq<byte> := [97, 103, 103, 95, 49]
  const ROUND: seq<byte> := [114, 111, 117, 110, 100]

  /** A label of thirty-two bytes. */
  function Domain(tag: seq<byte>): (r: seq<byte>)
    requires |tag| == 5
    ensures |r| == 32
  {
    PREFIX + tag + Zeros(21)
  }

  function EncodeKeys(c: Curve, ring: seq<Member>): (r: seq<byte>)
    requires c.Valid()
    ensures |r| == 32 * |ring|
  {
    if ring == [] then [] else EncodeKeys(c, ring[..|ring| - 1]) + c.Encode(ring[|ring| - 1].0)
  }

  function EncodeCommitments(c: Curve, ring: seq<Member>): (r: seq<byte>)
    requires c.Valid()
    ensures |r| == 32 * |ring|
  {
    if ring == [] then [] else EncodeCommitments(c, ring[..|ring| - 1]) + c.Encode(ring[|ring| - 1].1)
  }

  function RingBytes(c: Curve, ring: seq<Member>): (r: seq<byte>)
    requires c.Valid()
    ensures |r| == 64 * |ring|
  {
    EncodeKeys(c, ring) + EncodeCommitments(c, ring)
  }

  function AggTranscript(c: Curve, st: Statement, tag: seq<byte>): seq<byte>
    requires c.Valid() && |tag| == 5
  {
    Domain(tag) + RingBytes(c, st.ring) + (c.Encode(st.I) + st.dSerialized + c.Encode(st.pseudoOut))
  }

  function RoundPrefix(c: Curve, st: Statement): seq<byte>
    requires c.Valid()
  {
    Domain(ROUND) + RingBytes(c, st.ring) + c.Encode(st.pseudoOut) + st.msg
  }

  function Hash(c: Curve, data: seq<byte>): (s: Scalar)
    requires c.Valid()
    ensures 0 < s < L
  {
    Red(c.hash(data))
  }

  function MuP(c: Curve, st: Statement): Scalar
    requires c.Valid()
  {
    Hash(c, AggTranscript(c, st, AGG_0))
  }

  function MuC(c: Curve, st: Statement): Scalar
    requires c.Valid()
  {
    Hash(c, AggTranscript(c, st, AGG_1))
  }

  function RoundHash(c: Curve, st: Statement, left: Point, right: Point): (s: Scalar)
    requires c.Valid()
    ensures 0 < s < L
  {
    Hash(c, RoundPrefix(c, st) + c.Encode(left) + c.Encode(right))
  }

  // ---------------------------------------------------------------------------------------------
  // The ring, as it is specified: a challenge enters a member and a challenge leaves it.

  /** The generator of the key image for a key. */
  function ImageGenerator(c: Curve, key: Point): Point
    requires c.Valid()
  {
    8 * c.hashToPoint(c.Encode(key))
  }

  function Left(c: Curve, st: Statement, response: Scalar, i: nat, challenge: Scalar): Point
    requires c.Valid() && i < |st.ring|
  {
    Red(response) * BASEPOINT + Red(MuP(c, st) * challenge) * st.ring[i].0
    + Red(MuC(c, st) * challenge) * (st.ring[i].1 - st.pseudoOut)
  }

  function Right(c: Curve, st: Statement, response: Scalar, i: nat, challenge: Scalar): Point
    requires c.Valid() && i < |st.ring|
  {
    Red(MuP(c, st) * challenge) * st.I + Red(MuC(c, st) * challenge) * st.D
    + Red(response) * ImageGenerator(c, st.ring[i].0)
  }

  function Step(c: Curve, st: Statement, response: Scalar, i: nat, challenge: Scalar): (next: Scalar)
    requires c.Valid() && i < |st.ring|
    ensures 0 < next < L
  {
    RoundHash(c, st, Left(c, st, response, i, challenge), Right(c, st, response, i, challenge))
  }

  /** The challenge after `count` members, the first of them `from`, counted around the ring. */
  function Walk(c: Curve, st: Statement, s: seq<Scalar>, from: nat, count: nat, challenge: Scalar): Scalar
    requires c.Valid() && |st.ring| == |s| > 0
  {
    if count == 0 then challenge
    else
      var i := (from + count - 1) % |s|;
      Step(c, st, s[i], i, Walk(c, st, s, from, count - 1, challenge))
  }

  // ---------------------------------------------------------------------------------------------
  // The loop shared by signing and verifying.

  datatype Mode = Signing(signerIndex: nat, A: Point, AH: Point) | Verifying(c1: Scalar, dSerialized: seq<byte>)

  function DBytes(c: Curve, D: Point, mode: Mode): seq<byte>
    requires c.Valid()
  {
    match mode
    case Signing(_, _, _) => c.Encode(D * INV_EIGHT)
    case Verifying(_, data) => data
  }

  /** The keys, appended to the buffer. */
  method WriteKeys(c: Curve, ring: seq<Member>, buffer: seq<byte>) returns (P: seq<Point>, toHash: seq<byte>)
    requires c.Valid()
    ensures |P| == |ring| && forall i :: 0 <= i < |ring| ==> P[i] == ring[i].0
    ensures toHash == buffer + EncodeKeys(c, ring)
  {
    hide EncodeKeys, Curve.Encode;
    NoMembers(c);
    P, toHash := [], buffer;
    for i := 0 to |ring|
      invariant |P| == i && forall k :: 0 <= k < i ==> P[k] == ring[k].0
      invariant toHash == buffer + EncodeKeys(c, ring[..i])
    {
      P := P + [ring[i].0];
      OneMoreMember(c, ring, i);
      toHash := toHash + c.Encode(ring[i].0);
    }
    assert ring[..|ring|] == ring;
  }

  /** The commitments, appended to the buffer. */
  method WriteCommitments(c: Curve, ring: seq<Member>, pseudoOut: Point, buffer: seq<byte>)
    returns (C: seq<Point>, toHash: seq<byte>)
    requires c.Valid()
    ensures |C| == |ring| && forall i :: 0 <= i < |ring| ==> C[i] == ring[i].1 - pseudoOut
    ensures toHash == buffer + EncodeCommitments(c, ring)
  {
    hide EncodeCommitments, Curve.Encode;
    NoMembers(c);
    C, toHash := [], buffer;
    for i := 0 to |ring|
      invariant |C| == i && forall k :: 0 <= k < i ==> C[k] == ring[k].1 - pseudoOut
      invariant toHash == buffer + EncodeCommitments(c, ring[..i])
    {
      C := C + [ring[i].1 - pseudoOut];
      OneMoreMember(c, ring, i);
      toHash := toHash + c.Encode(ring[i].1);
    }
    assert ring[..|ring|] == ring;
  }

  /** The start of the buffer, and the points the rounds are about. */
  method WriteRing(c: Curve, ring: seq<Member>, pseudoOut: Point) returns (P: seq<Point>, C: seq<Point>, toHash: seq<byte>)
    requires c.Valid()
    ensures |P| == |C| == |ring|
    ensures forall i :: 0 <= i < |ring| ==> P[i] == ring[i].0 && C[i] == ring[i].1 - pseudoOut
    ensures toHash == Domain(AGG_0) + RingBytes(c, ring)
  {
    toHash := PREFIX;
    toHash := toHash + AGG_0;
    toHash := toHash + Zeros(32 - (|PREFIX| + |AGG_0|));
    assert toHash == Domain(AGG_0);
    hide Domain, EncodeKeys, EncodeCommitments;
    P, toHash := WriteKeys(c, ring, toHash);
    C, toHash := WriteCommitments(c, ring, pseudoOut, toHash);
  }

  lemma NoMembers(c: Curve)
    requires c.Valid()
    ensures EncodeKeys(c, []) == [] && EncodeCommitments(c, []) == []
  {
  }

  lemma OneMoreMember(c: Curve, ring: seq<Member>, i: nat)
    requires c.Valid() && i < |ring|
    ensures EncodeKeys(c, ring[..i + 1]) == EncodeKeys(c, ring[..i]) + c.Encode(ring[i].0)
    ensures EncodeCommitments(c, ring[..i + 1]) == EncodeCommitments(c, ring[..i]) + c.Encode(ring[i].1)
  {
    assert ring[..i + 1][..i] == ring[..i];
  }

  /** Hashes both aggregation transcripts, then edits the buffer into the one shared by the rounds. */
  method Transcribe(c: Curve, buffer: seq<byte>, n: nat, I: Point, pseudoOut: Point, msg: seq<byte>, dSerialized: seq<byte>,
                    ghost st: Statement)
    returns (muP: Scalar, muC: Scalar, toHash: seq<byte>)
    requires c.Valid()
    requires st.I == I && st.pseudoOut == pseudoOut && st.msg == msg && st.dSerialized == dSerialized && |st.ring| == n
    requires buffer == Domain(AGG_0) + RingBytes(c, st.ring)
    ensures muP == MuP(c, st) && muC == MuC(c, st)
    ensures toHash == RoundPrefix(c, st)
  {
    hide Hash, RingBytes;
    ghost var ringBytes := RingBytes(c, st.ring);
    ghost var rest := c.Encode(I) + dSerialized + c.Encode(pseudoOut);
    toHash := buffer;
    toHash := toHash + c.Encode(I);
    toHash := toHash + dSerialized;
    toHash := toHash + c.Encode(pseudoOut);
    assert toHash == AggTranscript(c, st, AGG_0);
    muP := Hash(c, toHash);
    SwitchTag(toHash, ringBytes + rest);
    toHash := toHash[|PREFIX| + |AGG_0| - 1 := 49];
    assert toHash == AggTranscript(c, st, AGG_1);
    muC := Hash(c, toHash);

    toHash := toHash[..(2 * n + 1) * 32];
    assert toHash == Domain(AGG_1) + ringBytes;
    toHash := WriteTag(toHash, ringBytes);
    toHash := toHash + c.Encode(pseudoOut);
    toHash := toHash + msg;
  }

  lemma SwitchTag(buffer: seq<byte>, rest: seq<byte>)
    requires buffer == Domain(AGG_0) + rest
    ensures buffer[10 := 49] == Domain(AGG_1) + rest
  {
  }

  method WriteTag(buffer: seq<byte>, ghost rest: seq<byte>) returns (toHash: seq<byte>)
    requires buffer == Domain(AGG_1) + rest
    ensures toHash == Domain(ROUND) + rest
  {
    toHash := buffer;
    for i := 0 to |ROUND|
      invariant toHash == PREFIX + (ROUND[..i] + AGG_1[i..]) + Zeros(21) + rest
    {
      toHash := toHash[|PREFIX| + i := ROUND[i]];
    }
    assert ROUND[..|ROUND|] + AGG_1[|ROUND|..] == ROUND;
  }

  /** The number of members passed before the loop's iteration `i`. */
  function Passed(i: nat, start: nat, end: nat): nat
    requires start <= end
  {
    if i <= start then 0 else if i <= end then i - start else end - start
  }

  /** The body of the loop: the challenge leaving member `i`, hashed in place behind the shared prefix. */
  method RoundChallenge(c: Curve, ghost st: Statement, n: nat, buffer: seq<byte>, P: Point, C: Point, muP: Scalar, muC: Scalar,
                        I: Point, D: Point, s: Scalar, ghost i: nat, challenge: Scalar)
    returns (toHash: seq<byte>, next: Scalar)
    requires c.Valid() && i < |st.ring| == n && |st.msg| == 32
    requires muP == MuP(c, st) && muC == MuC(c, st) && I == st.I && D == st.D
    requires P == st.ring[i].0 && C == st.ring[i].1 - st.pseudoOut
    requires |buffer| >= (2 * |st.ring| + 3) * 32 && buffer[..(2 * |st.ring| + 3) * 32] == RoundPrefix(c, st)
    ensures |toHash| >= (2 * |st.ring| + 3) * 32 && toHash[..(2 * |st.ring| + 3) * 32] == RoundPrefix(c, st)
    ensures next == Step(c, st, s, i, challenge)
  {
    hide Hash, RoundPrefix, MuP, MuC, Red, Curve.Valid, Curve.Encode;
    var cp := Red(muP * challenge);
    var cc := Red(muC * challenge);
    var left := Red(s) * BASEPOINT + cp * P + cc * C;
    var PH := 8 * c.hashToPoint(c.Encode(P));
    var right := cp * I + cc * D + Red(s) * PH;
    toHash := buffer[..(2 * n + 3) * 32];
    toHash := toHash + c.Encode(left);
    toHash := toHash + c.Encode(right);
    next := Hash(c, toHash);
  }

  /** The loop: of `iterEnd` iterations, those from `start` up to `end` pass a member of the ring. */
  method WalkInRange(c: Curve, ghost st: Statement, n: nat, P: seq<Point>, C: seq<Point>, muP: Scalar, muC: Scalar, I: Point,
                     D: Point, s: seq<Scalar>, buffer: seq<byte>, start: nat, end: nat, iterEnd: nat, first: Scalar)
    returns (challenge: Scalar, c1: Scalar)
    requires c.Valid() && |st.ring| == |s| == |P| == |C| == n > 0 && |st.msg| == 32
    requires forall i :: 0 <= i < n ==> P[i] == st.ring[i].0 && C[i] == st.ring[i].1 - st.pseudoOut
    requires muP == MuP(c, st) && muC == MuC(c, st) && I == st.I && D == st.D
    requires |buffer| >= (2 * n + 3) * 32 && buffer[..(2 * n + 3) * 32] == RoundPrefix(c, st)
    requires (start == 0 && end == iterEnd == n) || (1 <= start <= n && end == start - 1 + n && iterEnd == 2 * n)
    ensures challenge == Walk(c, st, s, start, end - start, first)
    ensures c1 == Walk(c, st, s, start, n - start, first)
  {
    hide Step, RoundPrefix, MuP, MuC, Walk;
    var toHash := buffer;
    var inRange := false;
    challenge := first;
    c1 := challenge;
    WalkNowhere(c, st, s, start, first);
    for j := 0 to iterEnd
      invariant inRange == (start < j <= end)
      invariant |toHash| >= (2 * n + 3) * 32 && toHash[..(2 * n + 3) * 32] == RoundPrefix(c, st)
      invariant challenge == Walk(c, st, s, start, Passed(j, start, end), first)
      invariant c1 == if j < n then first else Walk(c, st, s, start, n - start, first)
    {
      inRange := inRange || j == start;
      inRange := inRange != (j == end);
      var i := j % n;
      var next;
      toHash, next := RoundChallenge(c, st, n, toHash, P[i], C[i], muP, muC, I, D, s[i], i, challenge);
      if inRange {
        WalkAgain(c, st, s, start, j, first);
      }
      challenge := if inRange then next else challenge;
      IndexInLap(j, n);
      c1 := if inRange && i == n - 1 then challenge else c1;
    }
  }

  lemma WalkNowhere(c: Curve, st: Statement, s: seq<Scalar>, from: nat, challenge: Scalar)
    requires c.Valid() && |st.ring| == |s| > 0
    ensures Walk(c, st, s, from, 0, challenge) == challenge
  {
  }

  lemma WalkAgain(c: Curve, st: Statement, s: seq<Scalar>, start: nat, j: nat, first: Scalar)
    requires c.Valid() && |st.ring| == |s| > 0 && start <= j
    ensures var i := j % |s|;
            Walk(c, st, s, start, j + 1 - start, first) ==
            Step(c, st, s[i], i, Walk(c, st, s, start, j - start, first))
  {
    hide Step;
    assert start + (j + 1 - start) - 1 == j;
  }

  /** Signing walks from the member after the signer over all others, from the challenge of the nonce. */
  ghost predicate SignedAround(c: Curve, st: Statement, s: seq<Scalar>, signerIndex: nat, A: Point, AH: Point,
                               keyChallenge: Scalar, commitmentChallenge: Scalar, c1: Scalar)
    requires c.Valid() && |st.ring| == |s| && signerIndex < |s|
  {
    var first := RoundHash(c, st, A, AH);
    var entering := Walk(c, st, s, signerIndex + 1, |s| - 1, first);
    && c1 == Walk(c, st, s, signerIndex + 1, |s| - 1 - signerIndex, first)
    && keyChallenge == Red(entering * MuP(c, st)) && commitmentChallenge == Red(entering * MuC(c, st))
  }

  method Core(c: Curve, ring: seq<Member>, I: Point, pseudoOut: Point, msg: seq<byte>, D: Point, s: seq<Scalar>, mode: Mode)
    returns (dInvEight: Point, keyChallenge: Scalar, commitmentChallenge: Scalar, c1: Scalar)
    requires c.Valid()
    requires |ring| == |s| > 0 && |msg| == 32
    requires mode.Signing? ==> mode.signerIndex < |ring|
    ensures dInvEight == D * INV_EIGHT
    ensures mode.Signing? ==>
              SignedAround(c, Statement(ring, I, pseudoOut, msg, D, DBytes(c, D, mode)), s, mode.signerIndex, mode.A, mode.AH,
                           keyChallenge, commitmentChallenge, c1)
    ensures mode.Verifying? ==>
              c1 == Walk(c, Statement(ring, I, pseudoOut, msg, D, DBytes(c, D, mode)), s, 0, |ring|, mode.c1)
  {
    hide Hash, EncodeKeys, EncodeCommitments, RingBytes, Domain, RoundPrefix, Step, MuP, MuC, Red, AggTranscript, Left, Right,
         ImageGenerator;
    var n := |ring|;
    dInvEight := D * INV_EIGHT;
    var dSerialized := match mode
      case Signing(_, _, _) => c.Encode(dInvEight)
      case Verifying(_, data) => data;
    ghost var st := Statement(ring, I, pseudoOut, msg, D, dSerialized);
    var P, C, buffer := WriteRing(c, ring, pseudoOut);
    var muP, muC, toHash := Transcribe(c, buffer, n, I, pseudoOut, msg, dSerialized, st);
    assert |toHash| == (2 * n + 3) * 32 by { PrefixLength(c, st); }

    var start, end, iterEnd, challenge;
    match mode {
      case Signing(signerIndex, A, AH) =>
        start, end, iterEnd := signerIndex + 1, signerIndex + n, 2 * n;
        toHash := toHash + c.Encode(A);
        toHash := toHash + c.Encode(AH);
        challenge := Hash(c, toHash);
      case Verifying(first, _) =>
        start, end, iterEnd := 0, n, n;
        challenge := first;
    }

    challenge, c1 := WalkInRange(c, st, n, P, C, muP, muC, I, D, s, toHash, start, end, iterEnd, challenge);
    keyChallenge := Red(challenge * muP);
    commitmentChallenge := Red(challenge * muC);
  }

  lemma PrefixLength(c: Curve, st: Statement)
    requires c.Valid() && |st.msg| == 32
    ensures |RoundPrefix(c, st)| == (2 * |st.ring| + 3) * 32
  {
  }

  lemma IndexInLap(j: nat, n: nat)
    requires n > 0 && j < 2 * n
    ensures j % n == if j < n then j else j - n
  {
  }

  // ---------------------------------------------------------------------------------------------
  // Verifying.

  predicate IsIdentity(p: Point) {
    p % (8 * L) == 0
  }

  /** `Point::key_image`: neither the identity nor a point with torsion. */
  predicate IsKeyImage(p: Point) {
    !IsIdentity(p) && IsIdentity(L * p)
  }

  // Those are the multiples of eight, but for the identity: the keys of secrets which are not zero.
  lemma KeyImagesAre(p: Point)
    ensures IsKeyImage(p) <==> exists x: Scalar :: EqPoint(p, 8 * x) && !Eq(x, 0)
    ensures IsIdentity(L * p) <==> exists x: Scalar :: EqPoint(p, 8 * x)
  {
    hide Eq, EqPoint;
    IdentityIs(p);
    IdentityIs(L * p);
    if IsIdentity(L * p) {
      var k := EqPointToMultiple(L * p, 0);
      Cancelled(p, k);
      EqPointFromMultiple(p, 8 * k, 0);
      if !IsIdentity(p) {
        EqPointOfEight(k, 0);
      }
    }
    forall x: Scalar | EqPoint(p, 8 * x)
      ensures IsIdentity(L * p) && (!Eq(x, 0) ==> !IsIdentity(p))
    {
      EqPointScale(L, p, 8 * x);
      EqPointFromMultiple(L * (8 * x), 0, x);
      EqPointTransitive(L * p, L * (8 * x), 0);
      EqPointOfEight(x, 0);
      if IsIdentity(p) {
        EqPointTransitive(p, 8 * x, 8 * x);
        EqPointTransitive(8 * x, p, 0);
      }
    }
  }

  lemma Cancelled(p: int, k: int)
    requires L * p == 0 + k * (8 * L)
    ensures p == 8 * k
  {
    assert L * p == L * (8 * k);
    assert p > 8 * k ==> L * (p - 8 * k) > 0;
    assert p < 8 * k ==> L * (8 * k - p) > 0;
  }

  function DecodeRing(c: Curve, data: seq<(seq<byte>, seq<byte>)>): (ring: Option<seq<Member>>)
    ensures ring.Some? ==> |ring.value| == |data|
  {
    if data == [] then Some([])
    else
      match (c.decompress(data[0].0), c.decompress(data[0].1), DecodeRing(c, data[1..]))
      case (Some(key), Some(commitment), Some(rest)) => Some([(key, commitment)] + rest)
      case _ => None
  }

  /** What verification must answer: the errors in order, and otherwise whether the walk around the ring closes. */
  function Verdict(c: Curve, signature: Signature, ring: seq<(seq<byte>, seq<byte>)>, I: seq<byte>, pseudoOut: seq<byte>,
                   msg: seq<byte>): Result<(), ClsagError>
    requires c.Valid()
  {
    if ring == [] then Err(InvalidRing)
    else if |ring| != |signature.s| then Err(InvalidS)
    else if c.decompress(I).None? || !IsKeyImage(c.decompress(I).value) then Err(InvalidImage)
    else if c.decompress(pseudoOut).None? then Err(InvalidCommitment)
    else if c.decompress(signature.D).None? || IsIdentity(8 * c.decompress(signature.D).value) then Err(InvalidD)
    else if DecodeRing(c, ring).None? then Err(InvalidRing)
    else
      var st := Statement(DecodeRing(c, ring).value, c.decompress(I).value, c.decompress(pseudoOut).value, msg,
                          8 * c.decompress(signature.D).value, signature.D);
      if Red(Walk(c, st, signature.s, 0, |signature.s|, signature.c1)) == Red(signature.c1) then Ok(()) else Err(InvalidC1)
  }

  method Verify(c: Curve, signature: Signature, ring: seq<(seq<byte>, seq<byte>)>, I: seq<byte>, pseudoOut: seq<byte>,
                msg: seq<byte>)
    returns (res: Result<(), ClsagError>)
    requires c.Valid() && |msg| == 32
    ensures res == Verdict(c, signature, ring, I, pseudoOut, msg)
  {
    hide Walk, Red, IsKeyImage, IsIdentity;
    if ring == [] {
      return Err(InvalidRing);
    }
    if |ring| != |signature.s| {
      return Err(InvalidS);
    }
    var image := c.decompress(I);
    if image.None? || !IsKeyImage(image.value) {
      return Err(InvalidImage);
    }
    var output := c.decompress(pseudoOut);
    if output.None? {
      return Err(InvalidCommitment);
    }
    var D := c.decompress(signature.D);
    if D.None? {
      return Err(InvalidD);
    }
    var dTorsionFree := 8 * D.value;
    if IsIdentity(dTorsionFree) {
      return Err(InvalidD);
    }
    var members := DecodeRing(c, ring);
    if members.None? {
      return Err(InvalidRing);
    }
    var _, _, _, c1 := Core(c, members.value, image.value, output.value, msg, dTorsionFree, signature.s,
                            Verifying(signature.c1, signature.D));
    if Red(c1) != Red(signature.c1) {
      return Err(InvalidC1);
    }
    res := Ok(());
  }

  // ---------------------------------------------------------------------------------------------
  // Walking around the ring.

  lemma {:induction false} WalkSplit(c: Curve, st: Statement, s: seq<Scalar>, from: nat, a: nat, b: nat, challenge: Scalar)
    requires c.Valid() && |st.ring| == |s| > 0
    ensures Walk(c, st, s, from, a + b, challenge) == Walk(c, st, s, from + a, b, Walk(c, st, s, from, a, challenge))
    decreases b
  {
    hide Step;
    if b > 0 {
      WalkSplit(c, st, s, from, a, b - 1, challenge);
    }
  }

  lemma {:induction false} WalkWraps(c: Curve, st: Statement, s: seq<Scalar>, from: nat, count: nat, challenge: Scalar)
    requires c.Valid() && |st.ring| == |s| > 0
    ensures Walk(c, st, s, from + |s|, count, challenge) == Walk(c, st, s, from, count, challenge)
    decreases count
  {
    hide Step;
    if count > 0 {
      WalkWraps(c, st, s, from, count - 1, challenge);
      ModWraps(from + count - 1, |s|);
    }
  }

  // A response is only used where the walk passes.
  lemma {:induction false} WalkElsewhere(c: Curve, st: Statement, s: seq<Scalar>, p: nat, response: Scalar, count: nat,
                                         challenge: Scalar)
    requires c.Valid() && |st.ring| == |s| && p < |s| && count < |s|
    ensures Walk(c, st, s[p := response], p + 1, count, challenge) == Walk(c, st, s, p + 1, count, challenge)
    decreases count
  {
    hide Step;
    if count > 0 {
      WalkElsewhere(c, st, s, p, response, count - 1, challenge);
      var i := (p + count) % |s|;
      IndexInLap(p + count, |s|);
      assert i != p;
    }
  }

  lemma WalkOnce(c: Curve, st: Statement, s: seq<Scalar>, p: nat, challenge: Scalar)
    requires c.Valid() && |st.ring| == |s| && p < |s|
    ensures Walk(c, st, s, 0, p + 1, challenge) == Step(c, st, s[p], p, Walk(c, st, s, 0, p, challenge))
  {
    hide Step;
    ModIs(p, |s|, 0, p);
  }

  // If the signer's own step leads back to the first challenge, the walk from member zero closes.
  lemma WalkCloses(c: Curve, st: Statement, s: seq<Scalar>, p: nat, response: Scalar, first: Scalar, c1: Scalar)
    requires c.Valid() && |st.ring| == |s| && p < |s|
    requires c1 == Walk(c, st, s, p + 1, |s| - 1 - p, first)
    requires Step(c, st, response, p, Walk(c, st, s, p + 1, |s| - 1, first)) == first
    ensures Walk(c, st, s[p := response], 0, |s|, c1) == c1
  {
    hide Walk, Step;
    var n := |s|;
    var s' := s[p := response];
    WalkElsewhere(c, st, s, p, response, n - 1 - p, first);
    WalkElsewhere(c, st, s, p, response, n - 1, first);
    WalkSplit(c, st, s', p + 1, n - 1 - p, p, first);
    WalkWraps(c, st, s', 0, p, c1);
    assert Walk(c, st, s', 0, p, c1) == Walk(c, st, s, p + 1, n - 1, first);
    WalkOnce(c, st, s', p, c1);
    assert Walk(c, st, s', 0, p + 1, c1) == first;
    WalkSplit(c, st, s', 0, p + 1, n - 1 - p, c1);
  }

  // ---------------------------------------------------------------------------------------------
  // Statements which differ in the representation of points only.

  ghost predicate SameRing(a: seq<Member>, b: seq<Member>) {
    |a| == |b| && forall i :: 0 <= i < |a| ==> EqPoint(a[i].0, b[i].0) && EqPoint(a[i].1, b[i].1)
  }

  ghost predicate Same(a: Statement, b: Statement) {
    && SameRing(a.ring, b.ring)
    && EqPoint(a.I, b.I) && EqPoint(a.pseudoOut, b.pseudoOut) && EqPoint(a.D, b.D)
    && a.msg == b.msg && a.dSerialized == b.dSerialized
  }

  lemma {:induction false} SameRingBytes(c: Curve, a: seq<Member>, b: seq<Member>)
    requires c.Valid() && SameRing(a, b)
    ensures EncodeKeys(c, a) == EncodeKeys(c, b) && EncodeCommitments(c, a) == EncodeCommitments(c, b)
  {
    if a != [] {
      SameRingBytes(c, a[..|a| - 1], b[..|b| - 1]);
    }
  }

  lemma SameTranscripts(c: Curve, a: Statement, b: Statement)
    requires c.Valid() && Same(a, b)
    ensures MuP(c, a) == MuP(c, b) && MuC(c, a) == MuC(c, b) && RoundPrefix(c, a) == RoundPrefix(c, b)
  {
    SameRingBytes(c, a.ring, b.ring);
  }

  lemma SameStep(c: Curve, a: Statement, b: Statement, response: Scalar, i: nat, challenge: Scalar)
    requires c.Valid() && Same(a, b) && i < |a.ring|
    ensures Step(c, a, response, i, challenge) == Step(c, b, response, i, challenge)
  {
    hide EqPoint, MuP, MuC, RoundPrefix, Red, Hash;
    SameTranscripts(c, a, b);
    var cp, cc := Red(MuP(c, a) * challenge), Red(MuC(c, a) * challenge);
    var left := Red(response) * BASEPOINT;
    EqPointFromMultiple(left, left, 0);
    EqPointScale(cp, a.ring[i].0, b.ring[i].0);
    EqPointAdd(a.ring[i].1, b.ring[i].1, a.pseudoOut, b.pseudoOut);
    EqPointScale(cc, a.ring[i].1 - a.pseudoOut, b.ring[i].1 - b.pseudoOut);
    EqPointAdd(left, left, cp * a.ring[i].0, cp * b.ring[i].0);
    EqPointAdd(left + cp * a.ring[i].0, left + cp * b.ring[i].0,
               cc * (a.ring[i].1 - a.pseudoOut), cc * (b.ring[i].1 - b.pseudoOut));
    EncodeSame(c, Left(c, a, response, i, challenge), Left(c, b, response, i, challenge));
    EncodeSame(c, a.ring[i].0, b.ring[i].0);
    var right := Red(response) * ImageGenerator(c, a.ring[i].0);
    EqPointFromMultiple(right, right, 0);
    EqPointScale(cp, a.I, b.I);
    EqPointScale(cc, a.D, b.D);
    EqPointAdd(cp * a.I, cp * b.I, cc * a.D, cc * b.D);
    EqPointAdd(cp * a.I + cc * a.D, cp * b.I + cc * b.D, right, right);
    EncodeSame(c, Right(c, a, response, i, challenge), Right(c, b, response, i, challenge));
  }

  lemma EncodeSame(c: Curve, p: Point, q: Point)
    requires c.Valid() && EqPoint(p, q)
    ensures c.Encode(p) == c.Encode(q)
  {
  }

  lemma {:induction false} SameWalk(c: Curve, a: Statement, b: Statement, s: seq<Scalar>, from: nat, count: nat,
                                    challenge: Scalar)
    requires c.Valid() && Same(a, b) && |a.ring| == |s| > 0
    ensures Walk(c, a, s, from, count, challenge) == Walk(c, b, s, from, count, challenge)
    decreases count
  {
    hide Step, Same;
    assert |b.ring| == |s| by { SameLength(a, b); }
    if count > 0 {
      SameWalk(c, a, b, s, from, count - 1, challenge);
      var i := (from + count - 1) % |s|;
      SameStep(c, a, b, s[i], i, Walk(c, a, s, from, count - 1, challenge));
    }
  }

  lemma SameLength(a: Statement, b: Statement)
    requires Same(a, b)
    ensures |a.ring| == |b.ring|
  {
  }

  // ---------------------------------------------------------------------------------------------
  // Signing.

  /** The opening of the signer's commitment, and the ring. */
  datatype Context = Context(commitment: Commitment, decoys: Decoys) {
    ghost predicate Valid(c: Curve) {
      decoys.Valid() && EqPoint(Signer().1, 8 * commitment.Commit(c))
    }

    function Signer(): Member
      requires decoys.Valid()
    {
      decoys.ring[decoys.signerIndex]
    }
  }

  method NewContext(c: Curve, decoys: Decoys, commitment: Commitment) returns (res: Result<Context, ClsagError>)
    requires decoys.Valid()
    ensures res == (if Context(commitment, decoys).Valid(c) then Ok(Context(commitment, decoys)) else Err(InvalidCommitment))
  {
    var members := decoys.SignerRingMembers();
    if members.1 % (8 * L) != (8 * commitment.Commit(c)) % (8 * L) {
      return Err(InvalidCommitment);
    }
    res := Ok(Context(commitment, decoys));
  }

  /** The pseudo-out: a commitment to the input's amount under another mask. */
  function PseudoOut(c: Curve, mask: Scalar, amount: nat): Point {
    8 * Commitment(mask, amount).Commit(c)
  }

  // The signer's response leads from the challenge entering the signer back to the nonce's challenge.
  lemma SignerStep(c: Curve, st: Statement, p: nat, x: Scalar, z: Scalar, hp: SubPoint, nonce: Scalar, challenge: Scalar,
                   keyChallenge: Scalar, commitmentChallenge: Scalar, response: Scalar)
    requires c.Valid() && p < |st.ring|
    requires EqPoint(st.ring[p].0, 8 * x) && EqPoint(st.ring[p].1 - st.pseudoOut, 8 * z)
    requires EqPoint(st.I, 8 * (x * hp)) && st.D == 8 * (z * hp) && hp == c.hashToPoint(c.Encode(st.ring[p].0))
    requires keyChallenge == Red(MuP(c, st) * challenge) && commitmentChallenge == Red(MuC(c, st) * challenge)
    requires Eq(response, nonce - (keyChallenge * x + commitmentChallenge * z))
    ensures EqPoint(Left(c, st, response, p, challenge), 8 * nonce)
    ensures EqPoint(Right(c, st, response, p, challenge), 8 * (nonce * hp))
  {
    hide Eq, EqPoint, Red, MuP, MuC;
    RedEq(response);
    ResponseSum(Red(response), response, nonce, keyChallenge * x + commitmentChallenge * z);
    LeftAnswers(st.ring[p].0, st.ring[p].1 - st.pseudoOut, x, z, nonce, keyChallenge, commitmentChallenge, Red(response));
    RightAnswers(st.I, x, z, hp, nonce, keyChallenge, commitmentChallenge, Red(response));
  }

  lemma LeftAnswers(P: Point, C: Point, x: Scalar, z: Scalar, nonce: Scalar, cp: Scalar, cc: Scalar, r: Scalar)
    requires EqPoint(P, 8 * x) && EqPoint(C, 8 * z) && Eq(r + (cp * x + cc * z), nonce)
    ensures EqPoint(r * BASEPOINT + cp * P + cc * C, 8 * nonce)
  {
    hide Eq, EqPoint;
    EqPointScale(cp, P, 8 * x);
    EqPointScale(cc, C, 8 * z);
    EqPointFromMultiple(r * 8, r * 8, 0);
    EqPointAdd(r * 8, r * 8, cp * P, cp * (8 * x));
    EqPointAdd(r * 8 + cp * P, r * 8 + cp * (8 * x), cc * C, cc * (8 * z));
    LeftSum(r, cp, x, cc, z);
    EqPointOfEight(r + (cp * x + cc * z), nonce);
    EqPointTransitive(r * 8 + cp * P + cc * C, 8 * (r + (cp * x + cc * z)), 8 * nonce);
  }

  lemma RightAnswers(I: Point, x: Scalar, z: Scalar, hp: SubPoint, nonce: Scalar, cp: Scalar, cc: Scalar, r: Scalar)
    requires EqPoint(I, 8 * (x * hp)) && Eq(r + (cp * x + cc * z), nonce)
    ensures EqPoint(cp * I + cc * (8 * (z * hp)) + r * (8 * hp), 8 * (nonce * hp))
  {
    hide Eq, EqPoint;
    EqFromMultiple(hp, hp, 0);
    EqMul(r + (cp * x + cc * z), nonce, hp, hp);
    RightSum(r, cp, x, cc, z, hp);
    EqPointOfEight((r + (cp * x + cc * z)) * hp, nonce * hp);
    var rest := cc * (8 * (z * hp)) + r * (8 * hp);
    EqPointScale(cp, I, 8 * (x * hp));
    EqPointFromMultiple(rest, rest, 0);
    EqPointAdd(cp * I, cp * (8 * (x * hp)), rest, rest);
    EqPointTransitive(cp * I + rest, 8 * ((r + (cp * x + cc * z)) * hp), 8 * (nonce * hp));
  }

  lemma ResponseSum(r: Scalar, response: Scalar, nonce: Scalar, challenged: Scalar)
    requires Eq(r, response) && Eq(response, nonce - challenged)
    ensures Eq(r + challenged, nonce)
  {
    EqAdd(r, nonce - challenged, challenged, challenged);
  }

  lemma LeftSum(r: int, cp: int, x: int, cc: int, z: int)
    ensures r * 8 + cp * (8 * x) + cc * (8 * z) == 8 * (r + (cp * x + cc * z))
  {
  }

  lemma RightSum(r: int, cp: int, x: int, cc: int, z: int, hp: int)
    ensures cp * (8 * (x * hp)) + cc * (8 * (z * hp)) + r * (8 * hp) == 8 * ((r + (cp * x + cc * z)) * hp)
  {
    assert (r + (cp * x + cc * z)) * hp == r * hp + cp * (x * hp) + cc * (z * hp);
    assert cp * (8 * (x * hp)) == 8 * (cp * (x * hp));
    assert cc * (8 * (z * hp)) == 8 * (cc * (z * hp));
  }

  /** What is transmitted of a ring. */
  function EncodeRing(c: Curve, ring: seq<Member>): (data: seq<(seq<byte>, seq<byte>)>)
    requires c.Valid()
    ensures |data| == |ring|
  {
    seq(|ring|, i requires 0 <= i < |ring| => (c.Encode(ring[i].0), c.Encode(ring[i].1)))
  }

  lemma {:induction false} DecodeEncodedRing(c: Curve, ring: seq<Member>)
    requires c.Valid()
    ensures DecodeRing(c, EncodeRing(c, ring)).Some?
    ensures SameRing(DecodeRing(c, EncodeRing(c, ring)).value, ring)
  {
    if ring != [] {
      assert EncodeRing(c, ring)[1..] == EncodeRing(c, ring[1..]);
      DecodeEncodedRing(c, ring[1..]);
      ReducedPoint(ring[0].0);
      ReducedPoint(ring[0].1);
    }
  }

  // The difference between masks, sent scaled by the inverse of eight, survives the transmission.
  lemma TransmittedD(c: Curve, m: SubPoint)
    requires c.Valid()
    ensures var data := c.Encode(8 * m * INV_EIGHT);
            && c.decompress(data).Some?
            && EqPoint(8 * c.decompress(data).value, 8 * m)
            && (IsIdentity(8 * c.decompress(data).value) <==> Eq(m, 0))
  {
    hide EqPoint, Eq, IsIdentity;
    var p := 8 * m * INV_EIGHT;
    assert p == 8 * (m * INV_EIGHT);
    IdentityIs(8 * (p % (8 * L)));
    ReducedPoint(p);
    EqPointScale(8, p % (8 * L), p);
    CofactorCleared(m);
    EqPointOfEight(p, m);
    EqPointTransitive(8 * (p % (8 * L)), 8 * p, 8 * m);
    EqPointOfEight(m, 0);
    SameIdentity(8 * (p % (8 * L)), 8 * m);
    IdentityIs(8 * m);
  }

  lemma IdentityIs(p: Point)
    ensures IsIdentity(p) <==> EqPoint(p, 0)
  {
    ModIs(0, 8 * L, 0, 0);
  }

  lemma SameIdentity(p: Point, q: Point)
    requires EqPoint(p, q)
    ensures IsIdentity(p) <==> IsIdentity(q)
  {
  }

  lemma TransmittedImage(m: SubPoint)
    ensures IsKeyImage((8 * m) % (8 * L)) <==> !Eq(m, 0)
  {
    var p := (8 * m) % (8 * L);
    EqPointOfEight(m, 0);
    ReducedPoint(8 * m);
    EqPointScale(L, p, 8 * m);
    EqPointFromMultiple(L * (8 * m), 0, m);
  }

  /** What an honest signature must be answered with. */
  function Expected(image: SubPoint, D: SubPoint): Result<(), ClsagError> {
    if Red(image) == 0 then Err(InvalidImage) else if Red(D) == 0 then Err(InvalidD) else Ok(())
  }

  lemma SameKeyImage(p: Point, q: Point)
    requires EqPoint(p, q)
    ensures IsKeyImage(p % (8 * L)) <==> IsKeyImage(q % (8 * L))
  {
  }

  lemma HonestCloses(c: Curve, st: Statement, s: seq<Scalar>, p: nat, x: Scalar, z: Scalar, hp: SubPoint, nonce: Scalar,
                     response: Scalar, first: Scalar, entering: Scalar, c1: Scalar)
    requires c.Valid() && p < |st.ring| == |s|
    requires EqPoint(st.ring[p].0, 8 * x) && EqPoint(st.ring[p].1 - st.pseudoOut, 8 * z)
    requires EqPoint(st.I, 8 * (x * hp)) && st.D == 8 * (z * hp) && hp == c.hashToPoint(c.Encode(st.ring[p].0))
    requires first == RoundHash(c, st, 8 * nonce, 8 * (nonce * hp)) && entering == Walk(c, st, s, p + 1, |s| - 1, first)
    requires Eq(response, nonce - (Red(entering * MuP(c, st)) * x + Red(entering * MuC(c, st)) * z))
    requires c1 == Walk(c, st, s, p + 1, |s| - 1 - p, first)
    ensures Walk(c, st, s[p := response], 0, |s|, c1) == c1
  {
    hide Eq, Walk, MuP, MuC, EqPoint, Step, RoundPrefix, Left, Right, Hash, RoundHash;
    assert entering * MuP(c, st) == MuP(c, st) * entering && entering * MuC(c, st) == MuC(c, st) * entering;
    SignerStep(c, st, p, x, z, hp, nonce, entering, Red(entering * MuP(c, st)), Red(entering * MuC(c, st)), response);
    StepIsFirst(c, st, response, p, entering, 8 * nonce, 8 * (nonce * hp));
    WalkCloses(c, st, s, p, response, first, c1);
  }

  // Completeness, from what the signer computes to the verifier's answer.
  lemma HonestVerdict(c: Curve, st: Statement, s: seq<Scalar>, p: nat, x: Scalar, z: Scalar, hp: SubPoint, nonce: Scalar,
                      response: Scalar, signature: Signature)
    requires c.Valid() && p < |st.ring| == |s|
    requires EqPoint(st.ring[p].0, 8 * x) && EqPoint(st.ring[p].1 - st.pseudoOut, 8 * z)
    requires EqPoint(st.I, 8 * (x * hp)) && st.D == 8 * (z * hp) && hp == c.hashToPoint(c.Encode(st.ring[p].0))
    requires st.dSerialized == c.Encode(st.D * INV_EIGHT)
    requires var first := RoundHash(c, st, 8 * nonce, 8 * (nonce * hp));
             var entering := Walk(c, st, s, p + 1, |s| - 1, first);
             && Eq(response, nonce - (Red(entering * MuP(c, st)) * x + Red(entering * MuC(c, st)) * z))
             && signature == Signature(st.dSerialized, s[p := response], Walk(c, st, s, p + 1, |s| - 1 - p, first))
    ensures Verdict(c, signature, EncodeRing(c, st.ring), c.Encode(st.I), c.Encode(st.pseudoOut), st.msg) ==
            Expected(x * hp, z * hp)
  {
    hide Eq, Walk, MuP, MuC, IsKeyImage, EqPoint, IsIdentity, Step, RoundPrefix, RoundHash;
    var first := RoundHash(c, st, 8 * nonce, 8 * (nonce * hp));
    var entering := Walk(c, st, s, p + 1, |s| - 1, first);
    HonestCloses(c, st, s, p, x, z, hp, nonce, response, first, entering, signature.c1);
    DecodeEncodedRing(c, st.ring);
    TransmittedD(c, z * hp);
    TransmittedImage(x * hp);
    SameKeyImage(st.I, 8 * (x * hp));
    ZeroRed(x * hp);
    ZeroRed(z * hp);
    ReducedPoint(st.I);
    ReducedPoint(st.pseudoOut);
    var verifying := Statement(DecodeRing(c, EncodeRing(c, st.ring)).value, st.I % (8 * L), st.pseudoOut % (8 * L), st.msg,
                               8 * c.decompress(st.dSerialized).value, st.dSerialized);
    assert Same(verifying, st);
    SameWalk(c, verifying, st, signature.s, 0, |s|, signature.c1);
  }

  lemma ZeroRed(m: int)
    ensures Red(m) == 0 <==> Eq(m, 0)
  {
  }

  lemma StepIsFirst(c: Curve, st: Statement, response: Scalar, i: nat, challenge: Scalar, left: Point, right: Point)
    requires c.Valid() && i < |st.ring|
    requires EqPoint(Left(c, st, response, i, challenge), left) && EqPoint(Right(c, st, response, i, challenge), right)
    ensures Step(c, st, response, i, challenge) == RoundHash(c, st, left, right)
  {
    hide Left, Right, RoundHash;
    SameRoundHash(c, st, Left(c, st, response, i, challenge), Right(c, st, response, i, challenge), left, right);
  }

  /** What the core of signing leaves to be completed with the response of the signer. */
  datatype Incomplete = Incomplete(signature: Signature, pseudoOut: Point, keyChallenge: Scalar, challengedMask: Scalar)

  /** The statement signed: its image and D are whatever the caller claims the key image is. */
  function SignedStatement(c: Curve, I: Point, context: Context, mask: Scalar, msg: seq<byte>): Statement
    requires c.Valid() && context.decoys.Valid()
  {
    var D := ImageGenerator(c, context.Signer().0) * Red(context.commitment.mask - mask);
    Statement(context.decoys.ring, I, PseudoOut(c, mask, context.commitment.amount), msg, D, c.Encode(D * INV_EIGHT))
  }

  /** The signature short of the signer's response, its pseudo-out, and what the response is made of. */
  ghost predicate IsCore(c: Curve, I: Point, context: Context, mask: Scalar, msg: seq<byte>, A: Point, AH: Point, s: seq<Scalar>,
                         res: Incomplete)
    requires c.Valid() && context.decoys.Valid() && |s| == |context.decoys.ring|
  {
    var st := SignedStatement(c, I, context, mask, msg);
    var p := context.decoys.signerIndex;
    var first := RoundHash(c, st, A, AH);
    var entering := Walk(c, st, s, p + 1, |s| - 1, first);
    && res.signature == Signature(st.dSerialized, s, Walk(c, st, s, p + 1, |s| - 1 - p, first))
    && res.pseudoOut == st.pseudoOut
    && res.keyChallenge == Red(entering * MuP(c, st))
    && res.challengedMask == Red(entering * MuC(c, st)) * Red(context.commitment.mask - mask)
  }

  method SignCore(c: Curve, I: Point, context: Context, mask: Scalar, msg: seq<byte>, A: Point, AH: Point, s: seq<Scalar>)
    returns (res: Incomplete)
    requires c.Valid() && context.decoys.Valid() && |msg| == 32 && |s| == |context.decoys.ring|
    ensures IsCore(c, I, context, mask, msg, A, AH, s, res)
  {
    hide Walk, Red, MuP, MuC, RoundHash;
    var members := context.decoys.SignerRingMembers();
    var pseudoOut := 8 * Commitment(mask, context.commitment.amount).Commit(c);
    var maskDelta := Red(context.commitment.mask - mask);
    var H := 8 * c.hashToPoint(c.Encode(members.0));
    var D := H * maskDelta;
    var dInvEight, cp, cc, c1 := Core(c, context.decoys.ring, I, pseudoOut, msg, D, s,
                                      Signing(context.decoys.signerIndex, A, AH));
    res := Incomplete(Signature(c.Encode(dInvEight), s, c1), pseudoOut, cp, cc * maskDelta);
  }

  /** Puts the signer's response in its place, whatever the signer's index is. */
  method AssignResponse(s: seq<Scalar>, signerIndex: byte, response: Scalar) returns (res: seq<Scalar>)
    requires signerIndex < |s| < 256
    ensures res == s[signerIndex := response]
  {
    res := s;
    for i := 0 to |s|
      invariant res == if signerIndex < i then s[signerIndex := response] else s
    {
      res := res[i := if i == signerIndex then response else res[i]];
    }
  }

  /** An input to sign: the discrete logarithm of the signer's key, and what it is hidden in. */
  datatype Input = Input(key: Scalar, context: Context) {
    ghost predicate Valid(c: Curve) {
      context.Valid(c)
    }

    ghost predicate KeyMatches() {
      context.decoys.Valid() && EqPoint(BASEPOINT * Red(key), context.Signer().0)
    }

    function KeyImage(c: Curve): Point
      requires c.Valid() && context.decoys.Valid()
    {
      ImageGenerator(c, context.Signer().0) * Red(key)
    }
  }

  /** What is drawn for an input: a mask (unused for the last), a nonce, and the other members' responses. */
  datatype Randomness = Randomness(mask: Scalar, nonce: Scalar, s: seq<Scalar>)

  /** How the signature of an input must be answered by the verifier. */
  function ExpectedFor(c: Curve, input: Input, mask: Scalar): Result<(), ClsagError>
    requires c.Valid() && input.context.decoys.Valid()
  {
    var hp := c.hashToPoint(c.Encode(input.context.Signer().0));
    Expected(input.key * hp, (input.context.commitment.mask - mask) * hp)
  }

  /** The verifier, given the signature and what is transmitted with it, answers as expected. */
  ghost predicate Answered(c: Curve, input: Input, mask: Scalar, signature: Signature, pseudoOut: Point, msg: seq<byte>)
    requires c.Valid()
  {
    && input.context.decoys.Valid()
    && pseudoOut == PseudoOut(c, mask, input.context.commitment.amount)
    && Verdict(c, signature, EncodeRing(c, input.context.decoys.ring), c.Encode(input.KeyImage(c)), c.Encode(pseudoOut), msg)
       == ExpectedFor(c, input, mask)
  }

  /**
  The signature which the nonce and the other members' responses make. The walk begins after the signer, with the hash of
  the nonce's two points; the signer's response is the nonce less the challenged secrets, and all others are as drawn.
   */
  ghost predicate MadeOf(c: Curve, input: Input, mask: Scalar, nonce: Scalar, s: seq<Scalar>, msg: seq<byte>, signature: Signature)
    requires c.Valid() && input.context.decoys.Valid() && |s| == |input.context.decoys.ring|
  {
    var st := SignedStatement(c, input.KeyImage(c), input.context, mask, msg);
    var p := input.context.decoys.signerIndex;
    var first := RoundHash(c, st, 8 * Red(nonce), 8 * (Red(nonce) * c.hashToPoint(c.Encode(input.context.Signer().0))));
    var entering := Walk(c, st, s, p + 1, |s| - 1, first);
    && signature.D == st.dSerialized && signature.c1 == Walk(c, st, s, p + 1, |s| - 1 - p, first) && |signature.s| == |s|
    && (forall i :: 0 <= i < |s| && i != p ==> signature.s[i] == s[i])
    && signature.s[p] == Red(nonce) - (Red(entering * MuP(c, st)) * Red(input.key)
                                       + Red(entering * MuC(c, st)) * Red(input.context.commitment.mask - mask))
  }

  method SignInput(c: Curve, input: Input, mask: Scalar, nonce: Scalar, s: seq<Scalar>, msg: seq<byte>)
    returns (signature: Signature, pseudoOut: Point)
    requires c.Valid() && input.Valid(c) && input.KeyMatches() && |msg| == 32
    requires |s| == |input.context.decoys.ring|
    ensures Answered(c, input, mask, signature, pseudoOut, msg) && MadeOf(c, input, mask, nonce, s, msg, signature)
    ensures |signature.D| == 32 && |signature.s| == |s|
  {
    hide Walk, Red, MuP, MuC, RoundHash, EqPoint, Eq, ImageGenerator, Commitment.Commit, PseudoOut, Input.KeyImage, Answered,
         MadeOf;
    var generator := ImageGenerator(c, input.context.Signer().0);
    var core := SignCore(c, input.KeyImage(c), input.context, mask, msg, Red(nonce) * BASEPOINT, Red(nonce) * generator, s);
    var response := Red(nonce) - (core.keyChallenge * Red(input.key) + core.challengedMask);
    var responses := AssignResponse(core.signature.s, input.context.decoys.signerIndex, response);
    signature := core.signature.(s := responses);
    pseudoOut := core.pseudoOut;
    NoncePoints(c, input, Red(nonce));
    SignatureIs(c, input, mask, nonce, s, msg, core, signature);
    EqFromMultiple(response, response, 0);
    CompletedCore(c, input, core, input.KeyImage(c), Red(nonce) * BASEPOINT, Red(nonce) * generator, mask, Red(nonce), s, msg,
                  response);
  }

  lemma SignatureIs(c: Curve, input: Input, mask: Scalar, nonce: Scalar, s: seq<Scalar>, msg: seq<byte>, core: Incomplete,
                    signature: Signature)
    requires c.Valid() && input.context.decoys.Valid() && |s| == |input.context.decoys.ring|
    requires IsCore(c, input.KeyImage(c), input.context, mask, msg, Red(nonce) * BASEPOINT,
                    Red(nonce) * ImageGenerator(c, input.context.Signer().0), s, core)
    requires signature == core.signature.(s := s[input.context.decoys.signerIndex :=
                            Red(nonce) - (core.keyChallenge * Red(input.key) + core.challengedMask)])
    ensures MadeOf(c, input, mask, nonce, s, msg, signature)
  {
    hide Walk, Red, MuP, MuC, RoundHash, ImageGenerator, Commitment.Commit, PseudoOut, Input.KeyImage;
    ImageTimes(c, input.context.Signer().0, Red(nonce));
  }

  lemma NoncePoints(c: Curve, input: Input, k: Scalar)
    requires c.Valid() && input.context.decoys.Valid()
    ensures EqPoint(input.KeyImage(c), input.KeyImage(c)) && EqPoint(k * BASEPOINT, 8 * k)
    ensures EqPoint(k * ImageGenerator(c, input.context.Signer().0),
                    8 * (k * c.hashToPoint(c.Encode(input.context.Signer().0))))
  {
    hide EqPoint, ImageGenerator, Curve.Encode;
    ImageTimes(c, input.context.Signer().0, k);
    EqPointFromMultiple(input.KeyImage(c), input.KeyImage(c), 0);
    EqPointFromMultiple(k * BASEPOINT, 8 * k, 0);
    EqPointFromMultiple(k * ImageGenerator(c, input.context.Signer().0), k * ImageGenerator(c, input.context.Signer().0), 0);
  }

  // The core of signing, completed with any representation of the signer's response.
  lemma CompletedCore(c: Curve, input: Input, core: Incomplete, I: Point, A: Point, AH: Point, mask: Scalar, k: Scalar,
                      s: seq<Scalar>, msg: seq<byte>, response: Scalar)
    requires c.Valid() && input.Valid(c) && input.KeyMatches()
    requires |s| == |input.context.decoys.ring|
    requires EqPoint(I, input.KeyImage(c))
    requires EqPoint(A, 8 * k) && EqPoint(AH, 8 * (k * c.hashToPoint(c.Encode(input.context.Signer().0))))
    requires IsCore(c, I, input.context, mask, msg, A, AH, s, core)
    requires Eq(response, k - (core.keyChallenge * Red(input.key) + core.challengedMask))
    ensures Answered(c, input, mask, core.signature.(s := s[input.context.decoys.signerIndex := response]), core.pseudoOut, msg)
  {
    hide Walk, Red, MuP, MuC, RoundHash, EqPoint, Eq, ImageGenerator, Commitment.Commit, Curve.Encode, PseudoOut,
         Input.KeyImage, Answered, SignedStatement, Curve.Valid;
    SignedStatementIs(c, I, input.context, mask, msg);
    ResponseAnswers(c, input, I, A, AH, k, mask, s, msg, response,
                    core.signature.(s := s[input.context.decoys.signerIndex := response]));
  }

  // However the signer's response came about, it is answered as expected. The key image and the nonce's
  // points may be any representations of what they should be.
  lemma ResponseAnswers(c: Curve, input: Input, I: Point, A: Point, AH: Point, k: Scalar, mask: Scalar, s: seq<Scalar>,
                        msg: seq<byte>, response: Scalar, signature: Signature)
    requires c.Valid() && input.Valid(c) && input.KeyMatches()
    requires |s| == |input.context.decoys.ring|
    requires EqPoint(I, input.KeyImage(c))
    requires EqPoint(A, 8 * k) && EqPoint(AH, 8 * (k * c.hashToPoint(c.Encode(input.context.Signer().0))))
    requires var st := SignedStatement(c, I, input.context, mask, msg);
             var p := input.context.decoys.signerIndex;
             var first := RoundHash(c, st, A, AH);
             var entering := Walk(c, st, s, p + 1, |s| - 1, first);
             && Eq(response, k - (Red(entering * MuP(c, st)) * Red(input.key)
                                  + Red(entering * MuC(c, st)) * Red(input.context.commitment.mask - mask)))
             && signature == Signature(st.dSerialized, s[p := response], Walk(c, st, s, p + 1, |s| - 1 - p, first))
    ensures Answered(c, input, mask, signature, PseudoOut(c, mask, input.context.commitment.amount), msg)
  {
    hide Walk, Red, MuP, MuC, RoundHash, Verdict, EqPoint, Eq, Expected, ImageGenerator, Commitment.Commit, Curve.Encode,
         PseudoOut, SignedStatement, Input.KeyImage;
    var context := input.context;
    var st := SignedStatement(c, I, context, mask, msg);
    var p := context.decoys.signerIndex;
    var hp := c.hashToPoint(c.Encode(context.Signer().0));
    var x, z := Red(input.key), Red(context.commitment.mask - mask);
    SignedStatementIs(c, I, context, mask, msg);
    KeyImageIs(c, input);
    SameRoundHash(c, st, A, AH, 8 * k, 8 * (k * hp));
    EncodeSame(c, I, input.KeyImage(c));
    EqPointSymmetric(8 * x, st.ring[p].0);
    MaskDifference(c, st.ring[p].1, context.commitment, mask);
    HonestVerdict(c, st, s, p, x, z, hp, k, response, signature);
    ExpectedOfReduced(input.key, hp);
    ExpectedOfReduced(context.commitment.mask - mask, hp);
    ExpectedIs(x * hp, z * hp, input.key * hp, (context.commitment.mask - mask) * hp);
  }

  lemma SignedStatementIs(c: Curve, I: Point, context: Context, mask: Scalar, msg: seq<byte>)
    requires c.Valid() && context.decoys.Valid()
    ensures var st := SignedStatement(c, I, context, mask, msg);
            var D := 8 * (Red(context.commitment.mask - mask) * c.hashToPoint(c.Encode(context.Signer().0)));
            st == Statement(context.decoys.ring, I, PseudoOut(c, mask, context.commitment.amount), msg, D,
                            c.Encode(D * INV_EIGHT))
  {
    hide ImageGenerator, Red, PseudoOut, Curve.Encode;
    ImageTimes(c, context.Signer().0, Red(context.commitment.mask - mask));
  }

  lemma KeyImageIs(c: Curve, input: Input)
    requires c.Valid() && input.context.decoys.Valid()
    ensures input.KeyImage(c) == 8 * (Red(input.key) * c.hashToPoint(c.Encode(input.context.Signer().0)))
    ensures input.KeyMatches() <==> EqPoint(8 * Red(input.key), input.context.Signer().0)
  {
    hide ImageGenerator, Red, Curve.Encode, EqPoint;
    ImageTimes(c, input.context.Signer().0, Red(input.key));
  }

  lemma SameRoundHash(c: Curve, st: Statement, left: Point, right: Point, left': Point, right': Point)
    requires c.Valid() && EqPoint(left, left') && EqPoint(right, right')
    ensures RoundHash(c, st, left, right) == RoundHash(c, st, left', right')
  {
    hide RoundPrefix, Hash;
    EncodeSame(c, left, left');
    EncodeSame(c, right, right');
  }

  lemma ImageTimes(c: Curve, key: Point, x: int)
    requires c.Valid()
    ensures ImageGenerator(c, key) * x == 8 * (x * c.hashToPoint(c.Encode(key)))
    ensures x * ImageGenerator(c, key) == 8 * (x * c.hashToPoint(c.Encode(key)))
  {
  }

  lemma EqPointSymmetric(p: Point, q: Point)
    requires EqPoint(p, q)
    ensures EqPoint(q, p)
  {
  }

  lemma MaskDifference(c: Curve, member: Point, commitment: Commitment, mask: Scalar)
    requires EqPoint(member, 8 * commitment.Commit(c))
    ensures EqPoint(member - PseudoOut(c, mask, commitment.amount), 8 * Red(commitment.mask - mask))
  {
    hide EqPoint, Eq, Red;
    var out := PseudoOut(c, mask, commitment.amount);
    EqPointFromMultiple(out, out, 0);
    EqPointAdd(member, 8 * commitment.Commit(c), out, out);
    assert 8 * commitment.Commit(c) - out == 8 * (commitment.mask - mask);
    RedEq(commitment.mask - mask);
    EqSymmetric(Red(commitment.mask - mask), commitment.mask - mask);
    EqPointOfEight(commitment.mask - mask, Red(commitment.mask - mask));
    EqPointTransitive(member - out, 8 * (commitment.mask - mask), 8 * Red(commitment.mask - mask));
  }

  lemma ExpectedOfReduced(x: Scalar, hp: SubPoint)
    ensures Eq(Red(x) * hp, x * hp)
  {
    hide Eq, Red;
    RedEq(x);
    EqFromMultiple(hp, hp, 0);
    EqMul(Red(x), x, hp, hp);
  }

  lemma ExpectedIs(a: int, b: int, a': int, b': int)
    requires Eq(a, a') && Eq(b, b')
    ensures Expected(a, b) == Expected(a', b')
  {
  }

  method Sign(c: Curve, inputs: seq<Input>, sumOutputs: Scalar, msg: seq<byte>, randomness: seq<Randomness>)
    returns (res: Result<seq<(Signature, Point)>, ClsagError>, ghost masks: seq<Scalar>)
    requires c.Valid() && |msg| == 32
    requires forall i :: 0 <= i < |inputs| ==> inputs[i].Valid(c)
    requires |randomness| == |inputs|
    requires forall i :: 0 <= i < |inputs| ==> |randomness[i].s| == |inputs[i].context.decoys.ring|
    ensures res.Ok? <==> forall i :: 0 <= i < |inputs| ==> inputs[i].KeyMatches()
    ensures res.Err? ==> res.error == InvalidKey
    ensures res.Ok? ==>
              && |res.value| == |inputs| == |masks|
              && (forall i :: 0 <= i < |inputs| ==> Answered(c, inputs[i], masks[i], res.value[i].0, res.value[i].1, msg))
              && (forall i :: 0 <= i < |inputs| ==>
                    |res.value[i].0.D| == 32 && |res.value[i].0.s| == |inputs[i].context.decoys.ring|)
              && (inputs != [] ==> Sum(masks) == sumOutputs)
              // What was drawn is what was used
              && (forall i :: 0 <= i < |inputs| - 1 ==> masks[i] == randomness[i].mask)
              && (forall i :: 0 <= i < |inputs| ==>
                    inputs[i].context.decoys.Valid() &&
                    MadeOf(c, inputs[i], masks[i], randomness[i].nonce, randomness[i].s, msg, res.value[i].0))
  {
    hide Answered, MadeOf, Red, Sum;
    masks := [];
    for i := 0 to |inputs|
      invariant forall k :: 0 <= k < i ==> inputs[k].KeyMatches()
    {
      var members := inputs[i].context.decoys.SignerRingMembers();
      if (BASEPOINT * Red(inputs[i].key)) % (8 * L) != members.0 % (8 * L) {
        res := Err(InvalidKey);
        return;
      }
    }

    var signed: seq<(Signature, Point)> := [];
    var sumPseudoOuts := 0;
    SumOfNone();
    for i := 0 to |inputs|
      invariant |signed| == |masks| == i
      invariant forall k :: 0 <= k < i ==> Answered(c, inputs[k], masks[k], signed[k].0, signed[k].1, msg)
      invariant forall k :: 0 <= k < i ==>
                  |signed[k].0.D| == 32 && |signed[k].0.s| == |inputs[k].context.decoys.ring|
      invariant forall k :: 0 <= k < i && k < |inputs| - 1 ==> masks[k] == randomness[k].mask
      invariant forall k :: 0 <= k < i ==>
                  inputs[k].context.decoys.Valid() &&
                  MadeOf(c, inputs[k], masks[k], randomness[k].nonce, randomness[k].s, msg, signed[k].0)
      invariant sumPseudoOuts == if i == |inputs| && i > 0 then sumPseudoOuts else Sum(masks)
      invariant i == |inputs| && i > 0 ==> Sum(masks) == sumOutputs
    {
      var mask;
      if i == |inputs| - 1 {
        mask := sumOutputs - sumPseudoOuts;
      } else {
        mask := randomness[i].mask;
        sumPseudoOuts := sumPseudoOuts + mask;
      }
      var signature, pseudoOut := SignInput(c, inputs[i], mask, randomness[i].nonce, randomness[i].s, msg);
      SumAppend(masks, mask);
      masks := masks + [mask];
      signed := signed + [(signature, pseudoOut)];
    }
    res := Ok(signed);
  }

  lemma SumOfNone()
    ensures Sum([]) == 0
  {
  }

  lemma SumAppend(a: Vector, x: int)
    ensures Sum(a + [x]) == Sum(a) + x
  {
    SumConcat(a, [x]);
    assert [x][1..] == [];
  }

  /** The sum of the pseudo-outs of some inputs, under some masks. */
  function PseudoOuts(c: Curve, inputs: seq<Input>, masks: seq<Scalar>): (r: seq<Point>)
    requires |inputs| == |masks|
    ensures |r| == |inputs|
  {
    seq(|inputs|, i requires 0 <= i < |inputs| => PseudoOut(c, masks[i], inputs[i].context.commitment.amount))
  }

  function InputAmounts(inputs: seq<Input>): (r: seq<nat>)
    ensures |r| == |inputs|
  {
    seq(|inputs|, i requires 0 <= i < |inputs| => inputs[i].context.commitment.amount)
  }

  // Balance: the pseudo-outs commit to the inputs' amounts under the sum of the masks.
  lemma {:induction false} PseudoOutsBalance(c: Curve, inputs: seq<Input>, masks: seq<Scalar>)
    requires |inputs| == |masks|
    ensures Sum(PseudoOuts(c, inputs, masks)) == 8 * (Sum(masks) + Sum(InputAmounts(inputs)) * c.h)
  {
    if inputs != [] {
      PseudoOutsBalance(c, inputs[1..], masks[1..]);
      assert PseudoOuts(c, inputs, masks)[1..] == PseudoOuts(c, inputs[1..], masks[1..]);
      assert InputAmounts(inputs)[1..] == InputAmounts(inputs[1..]);
      var a, rest := inputs[0].context.commitment.amount, Sum(InputAmounts(inputs[1..]));
      assert (a + rest) * c.h == a * c.h + rest * c.h;
    }
  }
}
