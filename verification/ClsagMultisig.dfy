/**
ringct/clsag/src/multisig.rs and wallet/src/send/multisig.rs: a CLSAG made by several signers.

The FROST library is not part of this model. Of its interpolation it is assumed that the weighted shares
of those included make the group's key.
 */
module ClsagMultisig {
  import opened Wrappers
  import opened Ed25519
  import opened PowersOfTwo
  import Clsag
  import ClsagDecoys

  datatype FrostError = InternalError

  type Participant = l: nat | 0 < l < 0x1_0000 witness 1

  /** A view of the group's key by those included in signing, by the number of the participant. */
  datatype ThresholdView = ThresholdView(groupKey: Point, factors: map<Participant, Scalar>, scalar: Scalar, offset: Scalar)

  /** What the participants know: each its share of the original key, and its share of the key as viewed. */
  datatype Secrets = Secrets(original: map<Participant, Scalar>, viewed: map<Participant, Scalar>)

  function At(m: map<Participant, Scalar>, l: Participant): Scalar {
    if l in m then m[l] else 0
  }

  /** The sum over some participants, in order. */
  function SumOver(f: Participant -> Scalar, order: seq<Participant>): Scalar {
    if order == [] then 0 else SumOver(f, order[..|order| - 1]) + f(order[|order| - 1])
  }

  function Interpolated(view: ThresholdView, secrets: Secrets): Participant -> Scalar {
    (l: Participant) => At(secrets.original, l) * At(view.factors, l)
  }

  function Viewed(secrets: Secrets): Participant -> Scalar {
    (l: Participant) => At(secrets.viewed, l)
  }

  /** Both kinds of shares make the key `x`, whose point is the group's key. */
  ghost predicate Interpolates(view: ThresholdView, secrets: Secrets, included: seq<Participant>, x: Scalar) {
    && (forall l :: l in included ==> l in view.factors)
    && Eq(view.scalar * SumOver(Interpolated(view, secrets), included) + view.offset, x)
    && Eq(SumOver(Viewed(secrets), included), x)
    && EqPoint(BASEPOINT * Red(x), view.groupKey)
  }

  // ---------------------------------------------------------------------------------------------
  // The order of the participants does not matter.

  lemma {:induction false} SumOverConcat(f: Participant -> Scalar, a: seq<Participant>, b: seq<Participant>)
    ensures SumOver(f, a + b) == SumOver(f, a) + SumOver(f, b)
  {
    if b == [] {
      assert a + b == a;
    } else {
      assert (a + b)[..|a + b| - 1] == a + b[..|b| - 1];
      SumOverConcat(f, a, b[..|b| - 1]);
    }
  }

  lemma SumOverOne(f: Participant -> Scalar, l: Participant)
    ensures SumOver(f, [l]) == f(l) && SumOver(f, []) == 0
  {
    assert [l][..0] == [];
  }

  lemma Remove(a: seq<Participant>, i: nat)
    requires i < |a|
    ensures multiset(a[..i] + a[i + 1..]) == multiset(a) - multiset{a[i]}
    ensures a == a[..i] + ([a[i]] + a[i + 1..])
  {
    assert a == a[..i] + ([a[i]] + a[i + 1..]);
    assert multiset(a) == multiset(a[..i]) + (multiset{a[i]} + multiset(a[i + 1..]));
  }

  lemma SumOverWithout(f: Participant -> Scalar, a: seq<Participant>, i: nat)
    requires i < |a|
    ensures SumOver(f, a) == SumOver(f, a[..i] + a[i + 1..]) + f(a[i])
  {
    hide SumOver;
    Remove(a, i);
    SumOverConcat(f, a[..i], [a[i]] + a[i + 1..]);
    SumOverConcat(f, [a[i]], a[i + 1..]);
    SumOverConcat(f, a[..i], a[i + 1..]);
    SumOverOne(f, a[i]);
  }

  lemma PositionOf(b: seq<Participant>, l: Participant) returns (i: nat)
    requires l in multiset(b)
    ensures i < |b| && b[i] == l
  {
    assert l in b;
    i :| i < |b| && b[i] == l;
  }

  lemma {:induction false} SumOverPermuted(f: Participant -> Scalar, a: seq<Participant>, b: seq<Participant>)
    requires multiset(a) == multiset(b)
    ensures SumOver(f, a) == SumOver(f, b)
    decreases |a|
  {
    hide SumOver;
    if a == [] {
      assert |multiset(b)| == 0;
      assert b == [];
    } else {
      assert a[0] in multiset(a);
      var i := PositionOf(b, a[0]);
      Remove(a, 0);
      Remove(b, i);
      SumOverPermuted(f, a[..0] + a[1..], b[..i] + b[i + 1..]);
      SumOverWithout(f, a, 0);
      SumOverWithout(f, b, i);
    }
  }

  // ---------------------------------------------------------------------------------------------
  // The transcript of a machine, which its decoy responses are drawn from.

  datatype Recorded = Domain(name: string) | Message(name: string, data: seq<byte>)

  /** The scalars drawn from a generator which is seeded with a transcript. */
  type Seeded = seq<Recorded> -> nat -> Scalar

  function DecoyResponses(seeded: Seeded, transcript: seq<Recorded>, n: nat): (s: seq<Scalar>)
    ensures |s| == n
  {
    seq(n, i requires 0 <= i < n => seeded(transcript)(i))
  }

  /** The ring up to a member. */
  function RecordedRing(c: Curve, ring: seq<ClsagDecoys.Member>, n: nat): seq<Recorded>
    requires c.Valid() && n <= |ring| <= 256
  {
    if n == 0 then []
    else
      RecordedRing(c, ring, n - 1) +
      [Message("member", [n - 1]), Message("key", c.Encode(ring[n - 1].0)), Message("commitment", c.Encode(ring[n - 1].1))]
  }

  function RecordedContext(c: Curve, context: Clsag.Context): seq<Recorded>
    requires c.Valid() && context.decoys.Valid()
  {
    [Message("signer_index", [context.decoys.signerIndex])] + RecordedRing(c, context.decoys.ring, |context.decoys.ring|)
  }

  /** What is recorded of a participant. */
  function RecordedShare(c: Curve, l: Participant, keyImageShare: SubPoint): seq<Recorded>
    requires c.Valid()
  {
    [Message("participant", LittleBytes(l, 2)), Message("key_image_share", c.Encode(8 * keyImageShare))]
  }

  /** What is recorded of all participants, in the order they are gone through in. */
  function RecordedShares(c: Curve, generator: SubPoint, secrets: Secrets, order: seq<Participant>): (r: seq<Recorded>)
    requires c.Valid()
    ensures |r| == 2 * |order|
  {
    if order == [] then []
    else
      var l := order[|order| - 1];
      RecordedShares(c, generator, secrets, order[..|order| - 1]) + RecordedShare(c, l, generator * At(secrets.original, l))
  }

  /** The transcript, once the addendums were gone through. */
  function Transcript(c: Curve, start: seq<Recorded>, context: Clsag.Context, mask: Scalar, secrets: Secrets,
                      order: seq<Participant>): seq<Recorded>
    requires c.Valid() && context.decoys.Valid()
  {
    start + [Domain("CLSAG")] + RecordedContext(c, context) + [Message("mask", c.EncodeScalar(mask))] +
    RecordedShares(c, c.hashToPoint(c.Encode(context.Signer().0)), secrets, order)
  }

  lemma ParticipantBytes(l: Participant, k: Participant)
    ensures LittleBytes(l, 2) == LittleBytes(k, 2) <==> l == k
  {
    assert LittleBytes(l, 2) == [l % 256, l / 256 % 256] && LittleBytes(k, 2) == [k % 256, k / 256 % 256];
    if LittleBytes(l, 2) == LittleBytes(k, 2) {
      assert l % 256 == LittleBytes(l, 2)[0] && k % 256 == LittleBytes(k, 2)[0];
      assert l / 256 % 256 == LittleBytes(l, 2)[1] && k / 256 % 256 == LittleBytes(k, 2)[1];
    }
  }

  // Transcripts are the same exactly if the participants were gone through in the same order.
  lemma {:induction false} SharesRecordOrder(c: Curve, generator: SubPoint, secrets: Secrets, a: seq<Participant>,
                                             b: seq<Participant>)
    requires c.Valid()
    ensures RecordedShares(c, generator, secrets, a) == RecordedShares(c, generator, secrets, b) <==> a == b
  {
    hide Curve.Encode;
    var x, y := RecordedShares(c, generator, secrets, a), RecordedShares(c, generator, secrets, b);
    if x == y && a != [] {
      var n := |a| - 1;
      assert |a| == |b|;
      SharesRecordOrder(c, generator, secrets, a[..n], b[..n]);
      assert x[..2 * n] == RecordedShares(c, generator, secrets, a[..n]);
      assert y[..2 * n] == RecordedShares(c, generator, secrets, b[..n]);
      assert x[2 * n] == Message("participant", LittleBytes(a[n], 2)) && y[2 * n] == Message("participant", LittleBytes(b[n], 2));
      ParticipantBytes(a[n], b[n]);
      assert a == a[..n] + [a[n]] && b == b[..n] + [b[n]];
    }
  }

  lemma TranscriptRecordsOrder(c: Curve, start: seq<Recorded>, context: Clsag.Context, mask: Scalar, secrets: Secrets,
                               a: seq<Participant>, b: seq<Participant>)
    requires c.Valid() && context.decoys.Valid()
    ensures Transcript(c, start, context, mask, secrets, a) == Transcript(c, start, context, mask, secrets, b) <==> a == b
  {
    hide RecordedShares, RecordedContext, Curve.Encode, Curve.EncodeScalar;
    var generator := c.hashToPoint(c.Encode(context.Signer().0));
    var before := start + [Domain("CLSAG")] + RecordedContext(c, context) + [Message("mask", c.EncodeScalar(mask))];
    var x, y := RecordedShares(c, generator, secrets, a), RecordedShares(c, generator, secrets, b);
    assert (before + x)[|before|..] == x && (before + y)[|before|..] == y;
    SharesRecordOrder(c, generator, secrets, a, b);
  }

  lemma {:induction false} RingRecorded(c: Curve, ring: seq<ClsagDecoys.Member>, n: nat, i: nat)
    requires c.Valid() && i < n <= |ring| <= 256
    ensures var r := RecordedRing(c, ring, n);
            && |r| == 3 * n && r[3 * i] == Message("member", [i])
            && r[3 * i + 1] == Message("key", c.Encode(ring[i].0)) && r[3 * i + 2] == Message("commitment", c.Encode(ring[i].1))
  {
    hide Curve.Encode;
    RingLength(c, ring, n - 1);
    if i < n - 1 {
      RingRecorded(c, ring, n - 1, i);
    }
  }

  lemma {:induction false} RingLength(c: Curve, ring: seq<ClsagDecoys.Member>, n: nat)
    requires c.Valid() && n <= |ring| <= 256
    ensures |RecordedRing(c, ring, n)| == 3 * n
  {
    if n > 0 {
      RingLength(c, ring, n - 1);
    }
  }

  /** What comes before the shares, after the start. */
  function Head(c: Curve, context: Clsag.Context, mask: Scalar): seq<Recorded>
    requires c.Valid() && context.decoys.Valid()
  {
    [Domain("CLSAG")] + RecordedContext(c, context) + [Message("mask", c.EncodeScalar(mask))]
  }

  lemma HeadAt(c: Curve, context: Clsag.Context, mask: Scalar, i: nat)
    requires c.Valid() && context.decoys.Valid() && i < |context.decoys.ring|
    ensures var n := |context.decoys.ring|;
            var h := Head(c, context, mask);
            && |h| == 3 * n + 3 && h[1] == Message("signer_index", [context.decoys.signerIndex])
            && h[3 * i + 2] == Message("member", [i]) && h[3 * i + 3] == Message("key", c.Encode(context.decoys.ring[i].0))
            && h[3 * i + 4] == Message("commitment", c.Encode(context.decoys.ring[i].1))
            && h[3 * n + 2] == Message("mask", c.EncodeScalar(mask))
  {
    hide Curve.Encode, Curve.EncodeScalar, RecordedRing;
    RingRecorded(c, context.decoys.ring, |context.decoys.ring|, i);
  }

  // A transcript tells the signer's index, every member of the ring, the mask and the order, and so all that differs.
  lemma TranscriptBinds(c: Curve, start: seq<Recorded>, a: Clsag.Context, b: Clsag.Context, m: Scalar, m': Scalar, s: Secrets,
                        s': Secrets, x: seq<Participant>, y: seq<Participant>)
    requires c.Valid() && a.decoys.Valid() && b.decoys.Valid()
    requires Transcript(c, start, a, m, s, x) == Transcript(c, start, b, m', s', y)
    ensures a.decoys.signerIndex == b.decoys.signerIndex && |a.decoys.ring| == |b.decoys.ring|
    ensures forall i :: 0 <= i < |a.decoys.ring| ==>
              EqPoint(a.decoys.ring[i].0, b.decoys.ring[i].0) && EqPoint(a.decoys.ring[i].1, b.decoys.ring[i].1)
    ensures Eq(m, m') && |x| == |y|
  {
    hide Head, EqPoint, Eq, Curve.Encode, Curve.EncodeScalar, Transcript, Curve.Valid;
    var f, g := Head(c, a, m), Head(c, b, m');
    HeadStarts(c, start, a, m, s, x);
    HeadStarts(c, start, b, m', s', y);
    var t := Transcript(c, start, a, m, s, x)[|start|..];
    SameLength(c, a, b, m, m', t);
    HeadAt(c, a, m, 0);
    HeadAt(c, b, m', 0);
    assert t[..|f|] == f && t[..|f|] == g;
    EncodesScalar(c, m, m');
    forall i | 0 <= i < |a.decoys.ring|
      ensures EqPoint(a.decoys.ring[i].0, b.decoys.ring[i].0) && EqPoint(a.decoys.ring[i].1, b.decoys.ring[i].1)
    {
      HeadAt(c, a, m, i);
      HeadAt(c, b, m', i);
      EncodesPoint(c, a.decoys.ring[i].0, b.decoys.ring[i].0);
      EncodesPoint(c, a.decoys.ring[i].1, b.decoys.ring[i].1);
    }
  }

  lemma HeadStarts(c: Curve, start: seq<Recorded>, context: Clsag.Context, mask: Scalar, secrets: Secrets, order: seq<Participant>)
    requires c.Valid() && context.decoys.Valid()
    ensures var t, h := Transcript(c, start, context, mask, secrets, order), Head(c, context, mask);
            |t| == |start| + |h| + 2 * |order| && t[|start|..][..|h|] == h
  {
    hide RecordedContext, RecordedShares, Curve.Encode, Curve.EncodeScalar;
    var h := Head(c, context, mask);
    var rest := RecordedShares(c, c.hashToPoint(c.Encode(context.Signer().0)), secrets, order);
    assert Transcript(c, start, context, mask, secrets, order) == start + (h + rest);
  }

  // After the members, a transcript has the mask where another one would have the next member.
  lemma SameLength(c: Curve, a: Clsag.Context, b: Clsag.Context, m: Scalar, m': Scalar, t: seq<Recorded>)
    requires c.Valid() && a.decoys.Valid() && b.decoys.Valid()
    requires |Head(c, a, m)| <= |t| && t[..|Head(c, a, m)|] == Head(c, a, m)
    requires |Head(c, b, m')| <= |t| && t[..|Head(c, b, m')|] == Head(c, b, m')
    ensures |a.decoys.ring| == |b.decoys.ring|
  {
    hide Head, Curve.Encode, Curve.EncodeScalar;
    var n, k := |a.decoys.ring|, |b.decoys.ring|;
    HeadAt(c, a, m, 0);
    HeadAt(c, b, m', 0);
    if n < k {
      HeadAt(c, b, m', n);
    } else if k < n {
      HeadAt(c, a, m, k);
    }
  }

  // ---------------------------------------------------------------------------------------------
  // The machine for one input.

  datatype Interim = Interim(keyChallenge: Scalar, challengedMask: Scalar, signature: Clsag.Signature, pseudoOut: Point) {
    function Core(): Clsag.Incomplete {
      Clsag.Incomplete(signature, pseudoOut, keyChallenge, challengedMask)
    }
  }

  class Machine {
    const context: Clsag.Context
    // The key image generator and the key image are held as points of the prime-order subgroup
    const keyImageGenerator: SubPoint
    var image: SubPoint
    var transcript: seq<Recorded>
    // The channel the mask comes through, until it has been received from
    var maskRecv: Option<Option<Scalar>>
    var mask: Option<Scalar>
    var msgHash: Option<seq<byte>>
    var interim: Option<Interim>

    constructor (c: Curve, start: seq<Recorded>, context': Clsag.Context)
      requires c.Valid() && context'.decoys.Valid()
      ensures context == context' && keyImageGenerator == c.hashToPoint(c.Encode(context'.Signer().0))
      ensures image == 0 && transcript == start && maskRecv == Some(None) && mask == None && interim == None
    {
      var members := context'.decoys.SignerRingMembers();
      context := context';
      keyImageGenerator := c.hashToPoint(c.Encode(members.0));
      image := 0;
      transcript := start;
      maskRecv := Some(None);
      mask, msgHash, interim := None, None, None;
    }

    /** The mask arrives through the channel. */
    method Send(value: Scalar)
      requires maskRecv == Some(None)
      modifies this`maskRecv
      ensures maskRecv == Some(Some(value))
    {
      maskRecv := Some(Some(value));
    }

    /** The context, as it is recorded. */
    method RecordContext(c: Curve)
      requires c.Valid() && context.decoys.Valid()
      modifies this`transcript
      ensures transcript == old(transcript) + RecordedContext(c, context)
    {
      hide Curve.Encode, Curve.Valid;
      ghost var before := transcript;
      var decoys := context.decoys;
      transcript := transcript + [Message("signer_index", [decoys.signerIndex])];
      for i := 0 to |decoys.ring|
        invariant transcript == before + [Message("signer_index", [decoys.signerIndex])] + RecordedRing(c, decoys.ring, i)
      {
        transcript := transcript + [Message("member", [i])];
        transcript := transcript + [Message("key", c.Encode(decoys.ring[i].0))];
        transcript := transcript + [Message("commitment", c.Encode(decoys.ring[i].1))];
      }
    }

    /**
    A participant's share of the key image. The offset is applied with the first of them, for which the context
    and the mask are recorded.
     */
    method ProcessAddendum(c: Curve, view: ThresholdView, l: Participant, keyImageShare: SubPoint)
      returns (res: Result<(), FrostError>)
      requires c.Valid() && context.decoys.Valid()
      modifies this`image, this`transcript, this`maskRecv, this`mask
      ensures var matches := view.groupKey % (8 * L) == context.Signer().0 % (8 * L);
              var first, missing := old(maskRecv).Some?, old(maskRecv) == Some(None);
              && (res.Ok? <==> matches && !missing && l in view.factors)
              && maskRecv == (if matches then None else old(maskRecv))
              && mask == (if matches && first && !missing then old(maskRecv).value else old(mask))
              && image == old(image) + (if res.Ok?
                                        then keyImageShare * view.factors[l] * view.scalar
                                             + keyImageGenerator * (if first then view.offset else 0)
                                        else 0)
              && transcript == old(transcript) +
                               (if matches && first then [Domain("CLSAG")] + RecordedContext(c, context) else []) +
                               (if matches && first && !missing then [Message("mask", c.EncodeScalar(mask.value))] else []) +
                               (if matches && !missing then RecordedShare(c, l, keyImageShare) else [])
    {
      hide Curve.Encode, Curve.EncodeScalar, RecordedContext, Curve.Valid;
      var members := context.decoys.SignerRingMembers();
      if view.groupKey % (8 * L) != members.0 % (8 * L) {
        return Err(InternalError);
      }
      var offset := 0;
      if maskRecv.Some? {
        transcript := transcript + [Domain("CLSAG")];
        RecordContext(c);
        var received := maskRecv.value;
        maskRecv := None;
        if received.None? {
          return Err(InternalError);
        }
        mask := received;
        transcript := transcript + [Message("mask", c.EncodeScalar(mask.value))];
        offset := view.offset;
      }
      transcript := transcript + [Message("participant", LittleBytes(l, 2))];
      transcript := transcript + [Message("key_image_share", c.Encode(8 * keyImageShare))];
      if l !in view.factors {
        return Err(InternalError);
      }
      var interpolated := keyImageShare * view.factors[l] * view.scalar + keyImageGenerator * offset;
      image := image + interpolated;
      res := Ok(());
    }

    /** A participant's share of the response; the other responses are drawn from the transcript. */
    method SignShare(c: Curve, seeded: Seeded, nonceSums: (Point, Point), nonce: Scalar, secretShare: Scalar, msg: seq<byte>)
      returns (share: Scalar)
      requires c.Valid() && context.decoys.Valid() && |msg| == 32 && mask.Some?
      modifies this`msgHash, this`interim
      ensures msgHash == Some(msg) && interim.Some?
      ensures Clsag.IsCore(c, 8 * image, context, mask.value, msg, nonceSums.0, nonceSums.1,
                           DecoyResponses(seeded, transcript, |context.decoys.ring|), interim.value.Core())
      ensures share == nonce - interim.value.keyChallenge * secretShare
    {
      hide Clsag.IsCore;
      msgHash := Some(msg);
      var s := DecoyResponses(seeded, transcript, |context.decoys.ring|);
      var core := Clsag.SignCore(c, 8 * image, context, mask.value, msg, nonceSums.0, nonceSums.1, s);
      interim := Some(Interim(core.keyChallenge, core.challengedMask, core.signature, core.pseudoOut));
      share := nonce - core.keyChallenge * secretShare;
    }

    /** The signature for the sum of the shares, if it verifies. */
    method Verify(c: Curve, sum: Scalar) returns (res: Option<(Clsag.Signature, Point)>)
      requires c.Valid() && context.decoys.Valid() && interim.Some? && msgHash.Some? && |msgHash.value| == 32
      requires |interim.value.signature.s| == |context.decoys.ring|
      ensures var p := context.decoys.signerIndex;
              var old' := interim.value.signature;
              var signature := old'.(s := old'.s[p := sum - interim.value.challengedMask]);
              var verdict := Clsag.Verdict(c, signature, Clsag.EncodeRing(c, context.decoys.ring), c.Encode(8 * image),
                                           c.Encode(interim.value.pseudoOut), msgHash.value);
              res == if verdict == Ok(()) then Some((signature, interim.value.pseudoOut)) else None
    {
      hide Clsag.Verdict;
      var signature := interim.value.signature;
      var response := sum - interim.value.challengedMask;
      var responses := Clsag.AssignResponse(signature.s, context.decoys.signerIndex, response);
      signature := signature.(s := responses);
      var verified := Clsag.Verify(c, signature, Clsag.EncodeRing(c, context.decoys.ring), c.Encode(8 * image),
                                   c.Encode(interim.value.pseudoOut), msgHash.value);
      if verified == Ok(()) {
        return Some((signature, interim.value.pseudoOut));
      }
      res := None;
    }
  }

  // ---------------------------------------------------------------------------------------------
  // All signers together.

  /** The addendums of all participants, in some order. */
  method ProcessAll(c: Curve, machine: Machine, view: ThresholdView, secrets: Secrets, order: seq<Participant>)
    requires c.Valid() && machine.context.decoys.Valid() && order != []
    requires machine.keyImageGenerator == c.hashToPoint(c.Encode(machine.context.Signer().0))
    requires view.groupKey % (8 * L) == machine.context.Signer().0 % (8 * L)
    requires forall i :: 0 <= i < |order| ==> order[i] in view.factors
    requires machine.maskRecv.Some? && machine.maskRecv.value.Some? && machine.image == 0
    modifies machine`image, machine`transcript, machine`maskRecv, machine`mask
    ensures machine.mask == old(machine.maskRecv).value && machine.maskRecv == None
    ensures machine.image == ImageOfShares(view, secrets, order, machine.keyImageGenerator)
    ensures machine.transcript ==
            Transcript(c, old(machine.transcript), machine.context, machine.mask.value, secrets, order)
  {
    hide Curve.Encode, Curve.EncodeScalar, RecordedContext, RecordedShare, Transcript, ImageOfShares;
    ghost var hp, start := machine.keyImageGenerator, machine.transcript;
    for i := 0 to |order|
      invariant i == 0 ==> machine.maskRecv == old(machine.maskRecv) && machine.image == 0 && machine.transcript == start
      invariant i > 0 ==> machine.maskRecv == None && machine.mask == old(machine.maskRecv).value
      invariant i > 0 ==>
                  machine.image == ImageOfShares(view, secrets, order[..i], hp)
      invariant i > 0 ==>
                  machine.transcript == Transcript(c, start, machine.context, machine.mask.value, secrets, order[..i])
    {
      var l := order[i];
      var share := machine.keyImageGenerator * At(secrets.original, l);
      OneMoreShare(view, secrets, hp, order, i);
      var res := machine.ProcessAddendum(c, view, l, share);
      OneMoreRecorded(c, start, machine.context, machine.mask.value, secrets, order, i);
    }
    assert order[..|order|] == order;
  }

  /** The image, from the shares of some participants. */
  function ImageOfShares(view: ThresholdView, secrets: Secrets, order: seq<Participant>, generator: SubPoint): SubPoint {
    (view.scalar * SumOver(Interpolated(view, secrets), order) + view.offset) * generator
  }

  lemma OneMoreShare(view: ThresholdView, secrets: Secrets, hp: SubPoint, order: seq<Participant>, i: nat)
    requires i < |order| && order[i] in view.factors
    ensures ImageOfShares(view, secrets, order[..i + 1], hp) ==
            (if i == 0 then 0 else ImageOfShares(view, secrets, order[..i], hp))
            + (hp * At(secrets.original, order[i]) * view.factors[order[i]] * view.scalar
               + hp * (if i == 0 then view.offset else 0))
  {
    hide SumOver;
    SumOverStep(Interpolated(view, secrets), order, i);
    AddShare(hp, At(secrets.original, order[i]), view.factors[order[i]], view.scalar, view.offset,
             SumOver(Interpolated(view, secrets), order[..i]), i == 0);
  }

  lemma OneMoreRecorded(c: Curve, start: seq<Recorded>, context: Clsag.Context, mask: Scalar, secrets: Secrets,
                        order: seq<Participant>, i: nat)
    requires c.Valid() && context.decoys.Valid() && i < |order|
    ensures var share := c.hashToPoint(c.Encode(context.Signer().0)) * At(secrets.original, order[i]);
            && Transcript(c, start, context, mask, secrets, order[..i + 1]) ==
               Transcript(c, start, context, mask, secrets, order[..i]) + RecordedShare(c, order[i], share)
            && (i == 0 ==>
                  Transcript(c, start, context, mask, secrets, order[..i]) ==
                  start + ([Domain("CLSAG")] + RecordedContext(c, context) + [Message("mask", c.EncodeScalar(mask))]))
  {
    hide Curve.Encode, Curve.EncodeScalar, RecordedContext, RecordedShare;
    assert order[..i + 1][..i] == order[..i];
  }

  lemma AddShare(hp: int, share: int, factor: int, scalar: int, offset: int, sum: int, first: bool)
    requires first ==> sum == 0
    ensures (if first then 0 else (scalar * sum + offset) * hp)
            + (hp * share * factor * scalar + hp * (if first then offset else 0)) ==
            (scalar * (sum + share * factor) + offset) * hp
  {
    assert scalar * (sum + share * factor) == scalar * sum + scalar * (share * factor);
    assert (scalar * (share * factor)) * hp == hp * share * factor * scalar by { Shuffle(hp, share, factor, scalar); }
    assert (scalar * sum + scalar * (share * factor) + offset) * hp ==
           (scalar * sum + offset) * hp + (scalar * (share * factor)) * hp;
  }

  lemma Shuffle(a: int, b: int, c: int, d: int)
    ensures (d * (b * c)) * a == a * b * c * d
  {
    assert d * (b * c) == b * c * d;
    assert (b * c * d) * a == a * (b * c * d);
    assert a * (b * c * d) == a * b * c * d;
  }

  /** The key image as the transaction's machine computes it, over a list of its own. */
  method TransactionKeyImage(generator: SubPoint, view: ThresholdView, secrets: Secrets, included: seq<Participant>)
    returns (keyImage: SubPoint)
    requires forall i :: 0 <= i < |included| ==> included[i] in view.factors
    ensures keyImage == view.scalar * SumOver(Interpolated(view, secrets), included) * generator + generator * view.offset
  {
    keyImage := 0;
    for i := 0 to |included|
      invariant keyImage == SumOver(Interpolated(view, secrets), included[..i]) * generator
    {
      var l := included[i];
      assert included[..i + 1][..i] == included[..i];
      Distributes(SumOver(Interpolated(view, secrets), included[..i]), At(secrets.original, l), view.factors[l], generator);
      keyImage := keyImage + generator * At(secrets.original, l) * view.factors[l];
    }
    assert included[..|included|] == included;
    ScaledImage(SumOver(Interpolated(view, secrets), included), generator, view.scalar);
    keyImage := keyImage * view.scalar;
    keyImage := keyImage + generator * view.offset;
  }

  lemma Distributes(sum: int, share: int, factor: int, generator: int)
    ensures (sum + share * factor) * generator == sum * generator + generator * share * factor
  {
    assert generator * share * factor == (share * factor) * generator;
  }

  lemma ScaledImage(sum: int, generator: int, scalar: int)
    ensures sum * generator * scalar == scalar * sum * generator
  {
  }

  // In whatever orders the two go through the participants, both are the group's key image.
  lemma ImagesAgree(view: ThresholdView, secrets: Secrets, order: seq<Participant>, included: seq<Participant>, x: Scalar,
                    hp: SubPoint)
    requires Interpolates(view, secrets, included, x) && multiset(order) == multiset(included)
    ensures var sum := SumOver(Interpolated(view, secrets), included);
            && SumOver(Interpolated(view, secrets), order) == sum
            && (view.scalar * sum + view.offset) * hp == view.scalar * sum * hp + hp * view.offset
            && Eq((view.scalar * sum + view.offset) * hp, x * hp)
  {
    hide Eq, EqPoint, SumOver, Red;
    var sum := SumOver(Interpolated(view, secrets), included);
    SumOverPermuted(Interpolated(view, secrets), order, included);
    EqFromMultiple(hp, hp, 0);
    EqMul(view.scalar * sum + view.offset, x, hp, hp);
    WithOffset(view.scalar * sum, view.offset, hp);
  }

  lemma WithOffset(a: int, offset: int, hp: int)
    ensures (a + offset) * hp == a * hp + hp * offset
  {
  }

  /** All signers go through the participants in one order. */
  predicate OneOrder(order: Participant -> seq<Participant>, signers: seq<Participant>) {
    forall i :: 0 <= i < |signers| ==> order(signers[i]) == order(signers[0])
  }

  /** What all machines come to, if they have one order, is what a single signer's signature is answered with. */
  ghost predicate AgreedOn(c: Curve, input: Clsag.Input, mask: Scalar, msg: seq<byte>,
                           results: seq<Option<(Clsag.Signature, Point)>>)
    requires c.Valid() && input.context.decoys.Valid()
  {
    && results != [] && (forall k :: 0 <= k < |results| ==> results[k] == results[0])
    && (results[0].Some? <==> Clsag.ExpectedFor(c, input, mask) == Ok(()))
    && (results[0].Some? ==>
          && Clsag.Answered(c, input, mask, results[0].value.0, results[0].value.1, msg)
          && |results[0].value.0.D| == 32 && |results[0].value.0.s| == |input.context.decoys.ring|)
  }

  /**
  Signing by a group. Each signer has a machine of its own, which goes through the addendums in an order of its
  own. Their image is the same in any case. Their decoy responses are drawn from what they recorded, so that they
  come to the same signature if their orders are the same; `CoresAgreeIffOrdersDo` says that they do not otherwise.
   */
  method Sign(c: Curve, start: seq<Recorded>, seeded: Seeded, context: Clsag.Context, view: ThresholdView, secrets: Secrets,
              ghost included: seq<Participant>, order: Participant -> seq<Participant>, signers: seq<Participant>,
              nonces: map<Participant, Scalar>, mask: Scalar, msg: seq<byte>, ghost x: Scalar)
    returns (results: seq<Option<(Clsag.Signature, Point)>>)
    requires c.Valid() && context.Valid(c) && |msg| == 32
    requires Clsag.Input(x, context).KeyMatches() && Interpolates(view, secrets, included, x)
    requires included != [] && multiset(included) == multiset(signers)
    requires forall i :: 0 <= i < |signers| ==> multiset(order(signers[i])) == multiset(included)
    ensures |results| == |signers|
    ensures OneOrder(order, signers) ==> AgreedOn(c, Clsag.Input(x, context), mask, msg, results)
  {
    hide Eq, Clsag.IsCore, Red, Clsag.Verdict, EqPoint, Interpolates, Clsag.ExpectedFor, Clsag.ImageGenerator, SumOver,
         Clsag.PseudoOut, Clsag.Answered, HasCore, AgreedOn;
    var nonceSum := SumNonces(nonces, signers);
    SameMembers(signers, included);
    InterpolatesIs(view, secrets, included, x, context);
    var generator := c.hashToPoint(c.Encode(context.Signer().0));
    var nonceSums := (8 * nonceSum, 8 * (nonceSum * generator));
    var machines, sum;
    ghost var interims;
    machines, sum, interims := ShareAll(c, start, seeded, context, view, secrets, included, order, signers, nonces, nonceSums,
                                        mask, msg);
    ghost var image := JointImage(c, context, view, secrets, included);
    forall k | 0 <= k < |machines|
      ensures Holds(machines[k], context, image, msg, interims[k])
      ensures interims[k].signature.s == Responses(c, start, seeded, context, mask, secrets, order(signers[k]))
    {
      MadeIs(c, start, seeded, context, view, secrets, included, order(signers[k]), machines[k], interims[k], mask, nonceSums, msg);
    }
    results := VerifyAll(c, machines, context, image, interims, msg, sum);
    if OneOrder(order, signers) {
      SumOverPermuted(Viewed(secrets), signers, included);
      GroupAgrees(c, context, view, secrets, included, interims[0], x, mask, nonceSum, nonceSums, sum, msg,
                  Responses(c, start, seeded, context, mask, secrets, order(signers[0])), results);
    }
  }

  /** The decoy responses of a machine with an order. */
  function Responses(c: Curve, start: seq<Recorded>, seeded: Seeded, context: Clsag.Context, mask: Scalar, secrets: Secrets,
                     order: seq<Participant>): (s: seq<Scalar>)
    requires c.Valid() && context.decoys.Valid()
    ensures |s| == |context.decoys.ring|
  {
    DecoyResponses(seeded, Transcript(c, start, context, mask, secrets, order), |context.decoys.ring|)
  }

  lemma GroupAgrees(c: Curve, context: Clsag.Context, view: ThresholdView, secrets: Secrets, included: seq<Participant>,
                    interim: Interim, x: Scalar, mask: Scalar, nonceSum: Scalar, nonceSums: (Point, Point), sum: Scalar,
                    msg: seq<byte>, s: seq<Scalar>, results: seq<Option<(Clsag.Signature, Point)>>)
    requires c.Valid() && context.Valid(c) && |s| == |context.decoys.ring|
    requires Clsag.Input(x, context).KeyMatches() && Interpolates(view, secrets, included, x)
    requires var hp := c.hashToPoint(c.Encode(context.Signer().0)); nonceSums == (8 * nonceSum, 8 * (nonceSum * hp))
    requires HasCore(c, context, JointImage(c, context, view, secrets, included), interim, mask, nonceSums, msg, s)
    requires sum == nonceSum - interim.keyChallenge * SumOver(Viewed(secrets), included)
    requires results != [] && interim.signature.s == s
    requires forall k :: 0 <= k < |results| ==>
               results[k] == VerifiedWith(c, context, JointImage(c, context, view, secrets, included), interim, msg, sum)
    ensures AgreedOn(c, Clsag.Input(x, context), mask, msg, results)
  {
    hide Eq, Clsag.IsCore, Red, Clsag.Verdict, EqPoint, Interpolates, Clsag.ExpectedFor, SumOver, Clsag.Answered, HasCore,
         Curve.Encode, Clsag.Input.KeyImage, Clsag.EncodeRing;
    var image := JointImage(c, context, view, secrets, included);
    InterpolatesIs(view, secrets, included, x, context);
    ImagesAgree(view, secrets, included, included, x, c.hashToPoint(c.Encode(context.Signer().0)));
    SumAnswered(c, context, image, interim, x, mask, nonceSum, nonceSums, sum, SumOver(Viewed(secrets), included), msg, s);
    CoreHas(c, context, image, interim, mask, nonceSums, msg, s);
    AnsweredIs(c, Clsag.Input(x, context), mask, Completed(context, interim, sum), interim.pseudoOut, msg);
  }

  /** The signature with the sum of the shares as its missing part. */
  function Completed(context: Clsag.Context, interim: Interim, sum: Scalar): Clsag.Signature
    requires context.decoys.Valid() && |interim.signature.s| == |context.decoys.ring|
  {
    interim.signature.(s := interim.signature.s[context.decoys.signerIndex := sum - interim.challengedMask])
  }

  /** What a machine verifies to, with the image, what it has in the interim, and the sum of the shares. */
  function VerifiedWith(c: Curve, context: Clsag.Context, image: SubPoint, interim: Interim, msg: seq<byte>, sum: Scalar)
    : Option<(Clsag.Signature, Point)>
    requires c.Valid() && context.decoys.Valid() && |interim.signature.s| == |context.decoys.ring|
  {
    var signature := Completed(context, interim, sum);
    if Clsag.Verdict(c, signature, Clsag.EncodeRing(c, context.decoys.ring), c.Encode(8 * image), c.Encode(interim.pseudoOut),
                     msg) == Ok(())
    then Some((signature, interim.pseudoOut))
    else None
  }

  method VerifyAll(c: Curve, machines: seq<Machine>, context: Clsag.Context, ghost image: SubPoint, ghost interims: seq<Interim>,
                   msg: seq<byte>, sum: Scalar)
    returns (results: seq<Option<(Clsag.Signature, Point)>>)
    requires c.Valid() && context.decoys.Valid() && |msg| == 32 && |machines| == |interims|
    requires forall k :: 0 <= k < |machines| ==>
               && Holds(machines[k], context, image, msg, interims[k])
               && |interims[k].signature.s| == |context.decoys.ring|
    ensures |results| == |machines|
    ensures forall k :: 0 <= k < |results| ==> results[k] == VerifiedWith(c, context, image, interims[k], msg, sum)
  {
    hide Clsag.Verdict, Curve.Encode, Clsag.EncodeRing;
    results := [];
    for k := 0 to |machines|
      invariant |results| == k
      invariant forall j :: 0 <= j < k ==> results[j] == VerifiedWith(c, context, image, interims[j], msg, sum)
    {
      assert Holds(machines[k], context, image, msg, interims[k]);
      var result := machines[k].Verify(c, sum);
      results := results + [result];
    }
  }

  method SumNonces(nonces: map<Participant, Scalar>, signers: seq<Participant>) returns (sum: Scalar)
    ensures sum == SumOver(Nonces(nonces), signers)
  {
    sum := 0;
    for i := 0 to |signers|
      invariant sum == SumOver(Nonces(nonces), signers[..i])
    {
      SumOverStep(Nonces(nonces), signers, i);
      sum := sum + At(nonces, signers[i]);
    }
    assert signers[..|signers|] == signers;
  }

  /** What a participant's machine holds once it has made its share. */
  ghost predicate Holds(machine: Machine, context: Clsag.Context, image: SubPoint, msg: seq<byte>, interim: Interim)
    reads machine
  {
    machine.context == context && machine.image == image && machine.msgHash == Some(msg) && machine.interim == Some(interim)
  }

  /** What every machine comes to have from the same image and the same nonces. */
  ghost predicate HasCore(c: Curve, context: Clsag.Context, image: SubPoint, interim: Interim, mask: Scalar,
                          nonceSums: (Point, Point), msg: seq<byte>, s: seq<Scalar>)
    requires c.Valid() && context.decoys.Valid() && |s| == |context.decoys.ring|
  {
    Clsag.IsCore(c, 8 * image, context, mask, msg, nonceSums.0, nonceSums.1, s, interim.Core())
  }

  lemma CoreHas(c: Curve, context: Clsag.Context, image: SubPoint, interim: Interim, mask: Scalar, nonceSums: (Point, Point),
                msg: seq<byte>, s: seq<Scalar>)
    requires c.Valid() && context.decoys.Valid() && |s| == |context.decoys.ring|
    requires HasCore(c, context, image, interim, mask, nonceSums, msg, s)
    ensures interim.signature.s == s && |interim.signature.D| == 32
  {
    hide Clsag.Walk, Clsag.MuP, Clsag.MuC, Clsag.RoundHash, Red;
  }

  lemma CoreIsOne(c: Curve, context: Clsag.Context, image: SubPoint, a: Interim, b: Interim, mask: Scalar,
                  nonceSums: (Point, Point), msg: seq<byte>, s: seq<Scalar>)
    requires c.Valid() && context.decoys.Valid() && |s| == |context.decoys.ring|
    requires HasCore(c, context, image, a, mask, nonceSums, msg, s) && HasCore(c, context, image, b, mask, nonceSums, msg, s)
    ensures a == b
  {
    hide Clsag.Walk, Clsag.MuP, Clsag.MuC, Clsag.RoundHash, Red, Clsag.SignedStatement;
  }

  // Two machines come to the same challenges and the same incomplete signature exactly if they went through the
  // participants in the same order, unless the generator draws the same from different transcripts.
  lemma CoresAgreeIffOrdersDo(c: Curve, start: seq<Recorded>, seeded: Seeded, context: Clsag.Context, image: SubPoint, a: Interim,
                              b: Interim, mask: Scalar, nonceSums: (Point, Point), msg: seq<byte>, secrets: Secrets,
                              orderA: seq<Participant>, orderB: seq<Participant>)
    requires c.Valid() && context.decoys.Valid()
    requires var s := Responses(c, start, seeded, context, mask, secrets, orderA);
             HasCore(c, context, image, a, mask, nonceSums, msg, s)
    requires var s := Responses(c, start, seeded, context, mask, secrets, orderB);
             HasCore(c, context, image, b, mask, nonceSums, msg, s)
    requires var x := Transcript(c, start, context, mask, secrets, orderA);
             var y := Transcript(c, start, context, mask, secrets, orderB);
             var n := |context.decoys.ring|;
             DecoyResponses(seeded, x, n) == DecoyResponses(seeded, y, n) ==> x == y
    ensures a == b <==> orderA == orderB
  {
    hide HasCore, Transcript, DecoyResponses;
    TranscriptRecordsOrder(c, start, context, mask, secrets, orderA, orderB);
    var s, t := Responses(c, start, seeded, context, mask, secrets, orderA),
                Responses(c, start, seeded, context, mask, secrets, orderB);
    CoreHas(c, context, image, a, mask, nonceSums, msg, s);
    CoreHas(c, context, image, b, mask, nonceSums, msg, t);
    if orderA == orderB {
      CoreIsOne(c, context, image, a, b, mask, nonceSums, msg, s);
    }
  }

  /** One signer: a machine, all addendums in some order, and the signer's share of the response. */
  method Participate(c: Curve, start: seq<Recorded>, seeded: Seeded, context: Clsag.Context, view: ThresholdView,
                     secrets: Secrets, ghost included: seq<Participant>, order: seq<Participant>, l: Participant, nonce: Scalar,
                     nonceSums: (Point, Point), mask: Scalar, msg: seq<byte>)
    returns (machine: Machine, share: Scalar)
    requires c.Valid() && context.decoys.Valid() && |msg| == 32
    requires view.groupKey % (8 * L) == context.Signer().0 % (8 * L)
    requires included != [] && multiset(order) == multiset(included) && forall l :: l in included ==> l in view.factors
    ensures fresh(machine) && machine.interim.Some?
    ensures Holds(machine, context, JointImage(c, context, view, secrets, included), msg, machine.interim.value)
    ensures HasCore(c, context, JointImage(c, context, view, secrets, included), machine.interim.value, mask, nonceSums, msg,
                    Responses(c, start, seeded, context, mask, secrets, order))
    ensures share == nonce - machine.interim.value.keyChallenge * At(secrets.viewed, l)
  {
    hide Clsag.IsCore, SumOver, Curve.Encode, Transcript;
    SameMembers(order, included);
    machine := new Machine(c, start, context);
    machine.Send(mask);
    ProcessAll(c, machine, view, secrets, order);
    SumOverPermuted(Interpolated(view, secrets), order, included);
    share := machine.SignShare(c, seeded, nonceSums, nonce, At(secrets.viewed, l), msg);
  }

  function JointImage(c: Curve, context: Clsag.Context, view: ThresholdView, secrets: Secrets, included: seq<Participant>): SubPoint
    requires c.Valid() && context.decoys.Valid()
  {
    ImageOfShares(view, secrets, included, c.hashToPoint(c.Encode(context.Signer().0)))
  }

  /** A machine and a share for each signer, and the shares' sum. */
  method ShareAll(c: Curve, start: seq<Recorded>, seeded: Seeded, context: Clsag.Context, view: ThresholdView, secrets: Secrets,
                  ghost included: seq<Participant>, order: Participant -> seq<Participant>, signers: seq<Participant>,
                  nonces: map<Participant, Scalar>, nonceSums: (Point, Point), mask: Scalar, msg: seq<byte>)
    returns (machines: seq<Machine>, sum: Scalar, ghost interims: seq<Interim>)
    requires c.Valid() && context.decoys.Valid() && |msg| == 32
    requires view.groupKey % (8 * L) == context.Signer().0 % (8 * L)
    requires included != [] && signers != [] && forall l :: l in included ==> l in view.factors
    requires forall i :: 0 <= i < |signers| ==> multiset(order(signers[i])) == multiset(included)
    ensures |machines| == |interims| == |signers|
    ensures forall k :: 0 <= k < |machines| ==>
              Made(c, start, seeded, context, view, secrets, included, order(signers[k]), machines[k], interims[k], mask, nonceSums,
                   msg)
    ensures OneOrder(order, signers) ==>
              && (forall k :: 0 <= k < |interims| ==> interims[k] == interims[0])
              && sum == SumOver(Nonces(nonces), signers) - interims[0].keyChallenge * SumOver(Viewed(secrets), signers)
  {
    hide HasCore, SumOver, Curve.Encode, JointImage, Holds, Responses;
    sum, machines, interims := 0, [], [];
    NoneSummed(Nonces(nonces), Viewed(secrets));
    for i := 0 to |signers|
      invariant |machines| == |interims| == i
      invariant forall k :: 0 <= k < i ==> fresh(machines[k])
      invariant forall k :: 0 <= k < i ==>
                  Made(c, start, seeded, context, view, secrets, included, order(signers[k]), machines[k], interims[k], mask,
                       nonceSums, msg)
      invariant OneOrder(order, signers) ==> forall k :: 0 <= k < i ==> interims[k] == interims[0]
      invariant i == 0 ==> sum == 0
      invariant OneOrder(order, signers) && i > 0 ==>
                  sum == SumOver(Nonces(nonces), signers[..i]) - interims[0].keyChallenge * SumOver(Viewed(secrets), signers[..i])
    {
      var l := signers[i];
      SumOverStep(Nonces(nonces), signers, i);
      SumOverStep(Viewed(secrets), signers, i);
      var machine, share := Participate(c, start, seeded, context, view, secrets, included, order(l), l, At(nonces, l), nonceSums,
                                        mask, msg);
      if OneOrder(order, signers) && i > 0 {
        CoreIsOne(c, context, JointImage(c, context, view, secrets, included), interims[0], machine.interim.value, mask, nonceSums,
                  msg, Responses(c, start, seeded, context, mask, secrets, order(l)));
      }
      machines := machines + [machine];
      interims := interims + [machine.interim.value];
      ShareOfSum(interims[0].keyChallenge, SumOver(Viewed(secrets), signers[..i]), At(secrets.viewed, l));
      sum := sum + share;
    }
    assert signers[..|signers|] == signers;
  }

  lemma MadeIs(c: Curve, start: seq<Recorded>, seeded: Seeded, context: Clsag.Context, view: ThresholdView, secrets: Secrets,
               included: seq<Participant>, order: seq<Participant>, machine: Machine, interim: Interim, mask: Scalar,
               nonceSums: (Point, Point), msg: seq<byte>)
    requires c.Valid() && context.decoys.Valid()
    requires Made(c, start, seeded, context, view, secrets, included, order, machine, interim, mask, nonceSums, msg)
    ensures Holds(machine, context, JointImage(c, context, view, secrets, included), msg, interim)
    ensures interim.signature.s == Responses(c, start, seeded, context, mask, secrets, order)
    ensures HasCore(c, context, JointImage(c, context, view, secrets, included), interim, mask, nonceSums, msg,
                    Responses(c, start, seeded, context, mask, secrets, order))
  {
    hide Holds, JointImage, Responses;
  }

  /** What a machine has come to with its order. */
  ghost predicate Made(c: Curve, start: seq<Recorded>, seeded: Seeded, context: Clsag.Context, view: ThresholdView,
                       secrets: Secrets, included: seq<Participant>, order: seq<Participant>, machine: Machine, interim: Interim,
                       mask: Scalar, nonceSums: (Point, Point), msg: seq<byte>)
    requires c.Valid() && context.decoys.Valid()
    reads machine
  {
    var image := JointImage(c, context, view, secrets, included);
    && Holds(machine, context, image, msg, interim)
    && HasCore(c, context, image, interim, mask, nonceSums, msg, Responses(c, start, seeded, context, mask, secrets, order))
  }

  lemma AnsweredIs(c: Curve, input: Clsag.Input, mask: Scalar, signature: Clsag.Signature, pseudoOut: Point, msg: seq<byte>)
    requires c.Valid() && Clsag.Answered(c, input, mask, signature, pseudoOut, msg)
    ensures input.context.decoys.Valid()
    ensures Clsag.Verdict(c, signature, Clsag.EncodeRing(c, input.context.decoys.ring), c.Encode(input.KeyImage(c)),
                          c.Encode(pseudoOut), msg) == Clsag.ExpectedFor(c, input, mask)
  {
  }

  function Nonces(nonces: map<Participant, Scalar>): Participant -> Scalar {
    (l: Participant) => At(nonces, l)
  }

  lemma NoneSummed(f: Participant -> Scalar, g: Participant -> Scalar)
    ensures SumOver(f, []) == 0 && SumOver(g, []) == 0
  {
  }

  lemma SumOverStep(f: Participant -> Scalar, order: seq<Participant>, i: nat)
    requires i < |order|
    ensures SumOver(f, order[..i + 1]) == SumOver(f, order[..i]) + f(order[i])
    ensures order[..0] == [] && SumOver(f, []) == 0
  {
    assert order[..i + 1][..i] == order[..i];
  }

  lemma SameMembers(order: seq<Participant>, included: seq<Participant>)
    requires multiset(order) == multiset(included)
    ensures |order| == |included|
    ensures forall i :: 0 <= i < |order| ==> order[i] in included
  {
    assert |order| == |multiset(order)| && |included| == |multiset(included)|;
    forall i | 0 <= i < |order|
      ensures order[i] in included
    {
      assert order[i] in multiset(order);
    }
  }

  lemma InterpolatesIs(view: ThresholdView, secrets: Secrets, included: seq<Participant>, x: Scalar, context: Clsag.Context)
    requires Interpolates(view, secrets, included, x) && Clsag.Input(x, context).KeyMatches()
    ensures forall l :: l in included ==> l in view.factors
    ensures Eq(SumOver(Viewed(secrets), included), x)
    ensures context.decoys.Valid() && view.groupKey % (8 * L) == context.Signer().0 % (8 * L)
  {
  }

  lemma ShareOfSum(challenge: int, sum: int, share: int)
    ensures challenge * (sum + share) == challenge * sum + challenge * share
  {
  }

  // The summed shares complete the signature a single signer with the group's key would have made.
  lemma SumAnswered(c: Curve, context: Clsag.Context, image: SubPoint, interim: Interim, x: Scalar, mask: Scalar,
                    nonceSum: Scalar, nonceSums: (Point, Point), sum: Scalar, viewed: Scalar, msg: seq<byte>, s: seq<Scalar>)
    requires c.Valid() && context.Valid(c) && |s| == |context.decoys.ring| && Clsag.Input(x, context).KeyMatches()
    requires var hp := c.hashToPoint(c.Encode(context.Signer().0));
             Eq(image, x * hp) && nonceSums == (8 * nonceSum, 8 * (nonceSum * hp))
    requires HasCore(c, context, image, interim, mask, nonceSums, msg, s)
    requires sum == nonceSum - interim.keyChallenge * viewed && Eq(viewed, x)
    ensures var input := Clsag.Input(x, context);
            var signature := interim.signature.(s := s[context.decoys.signerIndex := sum - interim.challengedMask]);
            && Clsag.Answered(c, input, mask, signature, interim.pseudoOut, msg)
            && c.Encode(8 * image) == c.Encode(input.KeyImage(c))
  {
    hide Eq, Red, EqPoint, Clsag.IsCore, Clsag.Answered, Curve.Encode, Clsag.Input.KeyImage, Clsag.Input.KeyMatches;
    var input := Clsag.Input(x, context);
    var response := sum - interim.challengedMask;
    ImageIs(c, context, x, image, c.hashToPoint(c.Encode(context.Signer().0)));
    Clsag.EncodeSame(c, 8 * image, input.KeyImage(c));
    EqPointFromMultiple(nonceSums.0, nonceSums.0, 0);
    EqPointFromMultiple(nonceSums.1, nonceSums.1, 0);
    ResponseIs(nonceSum, interim.keyChallenge, viewed, x, interim.challengedMask);
    Clsag.CompletedCore(c, input, interim.Core(), 8 * image, nonceSums.0, nonceSums.1, mask, nonceSum, s, msg, response);
  }

  lemma ImageIs(c: Curve, context: Clsag.Context, x: Scalar, image: SubPoint, hp: SubPoint)
    requires c.Valid() && context.decoys.Valid()
    requires hp == c.hashToPoint(c.Encode(context.Signer().0)) && Eq(image, x * hp)
    ensures EqPoint(8 * image, Clsag.Input(x, context).KeyImage(c))
  {
    hide Eq, EqPoint, Red, Clsag.ImageGenerator;
    RedEq(x);
    EqFromMultiple(hp, hp, 0);
    EqMul(Red(x), x, hp, hp);
    EqSymmetric(Red(x) * hp, x * hp);
    EqTransitive(image, x * hp, Red(x) * hp);
    EqPointOfEight(image, Red(x) * hp);
    Clsag.ImageTimes(c, context.Signer().0, Red(x));
  }

  lemma ResponseIs(nonceSum: Scalar, k: Scalar, viewed: Scalar, x: Scalar, challengedMask: Scalar)
    requires Eq(viewed, x)
    ensures Eq(nonceSum - k * viewed - challengedMask, nonceSum - (k * Red(x) + challengedMask))
  {
    hide Eq, Red;
    RedEq(x);
    EqSymmetric(Red(x), x);
    EqTransitive(viewed, x, Red(x));
    EqScale(k, viewed, Red(x));
    EqFromMultiple(nonceSum - challengedMask, nonceSum - challengedMask, 0);
    EqAdd(nonceSum - challengedMask, nonceSum - challengedMask, k * viewed, k * Red(x));
  }
}
