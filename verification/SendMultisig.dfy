/**
wallet/src/send/multisig.rs, and `with_key_images` in wallet/src/send/mod.rs: a group signs all inputs of a
transaction.
 */
module SendMultisig {
  import opened Wrappers
  import opened Ed25519
  import opened Vectors
  import opened ClsagMultisig
  import Clsag

  // ---------------------------------------------------------------------------------------------
  // The transaction's inputs and the machines are sorted independently, by the key images.

  /** Bytes in lexicographic order. */
  predicate Before(x: seq<byte>, y: seq<byte>) {
    if y == [] then false
    else if x == [] then true
    else x[0] < y[0] || (x[0] == y[0] && Before(x[1..], y[1..]))
  }

  /** A stable insertion, the greatest key image first. */
  function Insert<T>(pair: (seq<byte>, T), sorted: seq<(seq<byte>, T)>): (r: seq<(seq<byte>, T)>)
    ensures |r| == |sorted| + 1
  {
    if sorted == [] || Before(sorted[0].0, pair.0) || sorted[0].0 == pair.0 then [pair] + sorted
    else [sorted[0]] + Insert(pair, sorted[1..])
  }

  /** `sort_by` with `key_image_sort` */
  function Sort<T>(pairs: seq<(seq<byte>, T)>): (r: seq<(seq<byte>, T)>)
    ensures |r| == |pairs|
  {
    if pairs == [] then [] else Insert(pairs[0], Sort(pairs[1..]))
  }

  function Keyed<T>(keys: seq<seq<byte>>, values: seq<T>): (r: seq<(seq<byte>, T)>)
    requires |keys| == |values|
    ensures |r| == |keys|
  {
    seq(|keys|, i requires 0 <= i < |keys| => (keys[i], values[i]))
  }

  function Mapped<S, T>(f: S -> T, pairs: seq<(seq<byte>, S)>): (r: seq<(seq<byte>, T)>)
    ensures |r| == |pairs|
    ensures forall i :: 0 <= i < |r| ==> r[i] == (pairs[i].0, f(pairs[i].1))
  {
    seq(|pairs|, i requires 0 <= i < |pairs| => (pairs[i].0, f(pairs[i].1)))
  }

  lemma {:induction false} InsertMapped<S, T>(f: S -> T, pair: (seq<byte>, S), sorted: seq<(seq<byte>, S)>)
    ensures Insert((pair.0, f(pair.1)), Mapped(f, sorted)) == Mapped(f, Insert(pair, sorted))
  {
    if sorted == [] || Before(sorted[0].0, pair.0) || sorted[0].0 == pair.0 {
      assert Mapped(f, [pair] + sorted) == [(pair.0, f(pair.1))] + Mapped(f, sorted);
    } else {
      InsertMapped(f, pair, sorted[1..]);
      assert Mapped(f, sorted)[1..] == Mapped(f, sorted[1..]);
      assert Mapped(f, [sorted[0]] + Insert(pair, sorted[1..])) ==
             [(sorted[0].0, f(sorted[0].1))] + Mapped(f, Insert(pair, sorted[1..]));
    }
  }

  // Sorting does not look at what it moves.
  lemma {:induction false} SortMapped<S, T>(f: S -> T, pairs: seq<(seq<byte>, S)>)
    ensures Sort(Mapped(f, pairs)) == Mapped(f, Sort(pairs))
  {
    if pairs == [] {
      assert Mapped(f, pairs) == [];
    } else {
      SortMapped(f, pairs[1..]);
      assert Mapped(f, pairs)[1..] == Mapped(f, pairs[1..]);
      InsertMapped(f, pairs[0], Sort(pairs[1..]));
    }
  }

  function First<S, T>(v: (S, T)): S {
    v.0
  }

  function Second<S, T>(v: (S, T)): T {
    v.1
  }

  // However the inputs and the machines are sorted apart, the k-th machine signs the k-th input: both
  // are the k-th of the two sorted together.
  lemma SortsAlign<S, T>(keys: seq<seq<byte>>, values: seq<(S, T)>)
    requires |keys| == |values|
    ensures var both := Sort(Keyed(keys, values));
            && Sort(Mapped(First, Keyed(keys, values))) == Mapped(First, both)
            && Sort(Mapped(Second, Keyed(keys, values))) == Mapped(Second, both)
  {
    SortMapped(First<S, T>, Keyed(keys, values));
    SortMapped(Second<S, T>, Keyed(keys, values));
  }

  ghost predicate Sorted<T>(pairs: seq<(seq<byte>, T)>) {
    forall i, j :: 0 <= i < j < |pairs| ==> pairs[i].0 == pairs[j].0 || Before(pairs[j].0, pairs[i].0)
  }

  lemma {:induction false} BeforeTotal(x: seq<byte>, y: seq<byte>)
    ensures x == y || Before(x, y) || Before(y, x)
    decreases |x|
  {
    if x != [] && y != [] && x[0] == y[0] {
      BeforeTotal(x[1..], y[1..]);
      if x[1..] == y[1..] {
        assert x == [x[0]] + x[1..] && y == [y[0]] + y[1..];
      }
    }
  }

  lemma {:induction false} BeforeTransitive(x: seq<byte>, y: seq<byte>, z: seq<byte>)
    requires Before(x, y) && Before(y, z)
    ensures Before(x, z)
    decreases |x|
  {
    if x != [] && y[0] == x[0] && z[0] == x[0] {
      BeforeTransitive(x[1..], y[1..], z[1..]);
    }
  }

  lemma {:induction false} InsertSorted<T>(pair: (seq<byte>, T), sorted: seq<(seq<byte>, T)>)
    requires Sorted(sorted)
    ensures Sorted(Insert(pair, sorted))
    ensures multiset(Insert(pair, sorted)) == multiset(sorted) + multiset{pair}
    decreases |sorted|
  {
    if sorted == [] {
    } else if Before(sorted[0].0, pair.0) || sorted[0].0 == pair.0 {
      forall j | 0 <= j < |sorted|
        ensures pair.0 == sorted[j].0 || Before(sorted[j].0, pair.0)
      {
        if j > 0 && sorted[0].0 != sorted[j].0 && sorted[0].0 != pair.0 {
          BeforeTransitive(sorted[j].0, sorted[0].0, pair.0);
        }
      }
    } else {
      var rest := sorted[1..];
      BeforeTotal(sorted[0].0, pair.0);
      assert Sorted(rest);
      InsertSorted(pair, rest);
      var inserted := Insert(pair, rest);
      assert sorted == [sorted[0]] + rest;
      forall j | 0 <= j < |inserted|
        ensures sorted[0].0 == inserted[j].0 || Before(inserted[j].0, sorted[0].0)
      {
        assert inserted[j] in multiset(inserted);
        if inserted[j] != pair {
          assert inserted[j] in multiset(rest);
          var i :| 0 <= i < |rest| && rest[i] == inserted[j];
          assert rest[i] == sorted[i + 1];
        }
      }
    }
  }

  lemma {:induction false} SortSorts<T>(pairs: seq<(seq<byte>, T)>)
    ensures Sorted(Sort(pairs)) && multiset(Sort(pairs)) == multiset(pairs)
  {
    if pairs != [] {
      SortSorts(pairs[1..]);
      InsertSorted(pairs[0], Sort(pairs[1..]));
      assert pairs == [pairs[0]] + pairs[1..];
    }
  }

  // ---------------------------------------------------------------------------------------------
  // All inputs of a transaction.

  // What every machine's transcript starts with
  const START: seq<Recorded> := [Domain("Monero Multisignature Transaction")]

  /**
  What signs an input: the view of its key, the order in which each participant goes through the others, and their
  nonces. No participant knows the key.
   */
  datatype Part = Part(context: Clsag.Context, view: ThresholdView, secrets: Secrets, order: Participant -> seq<Participant>,
                       signers: seq<Participant>, nonces: map<Participant, Scalar>, key: Scalar)
  {
    ghost predicate Valid(c: Curve, included: seq<Participant>) {
      && context.Valid(c) && Input().KeyMatches()
      && Interpolates(view, secrets, included, key)
      && multiset(included) == multiset(signers)
      && forall i :: 0 <= i < |signers| ==> multiset(order(signers[i])) == multiset(included)
    }

    /** What a single signer with the key would sign. */
    function Input(): Clsag.Input {
      Clsag.Input(key, context)
    }
  }

  /** The key images, from the shares of those included. */
  method KeyImages(c: Curve, parts: seq<Part>, included: seq<Participant>) returns (images: seq<seq<byte>>)
    requires c.Valid() && forall i :: 0 <= i < |parts| ==> parts[i].Valid(c, included)
    ensures |images| == |parts|
    ensures forall i :: 0 <= i < |parts| ==>
              parts[i].context.decoys.Valid() && images[i] == c.Encode(parts[i].Input().KeyImage(c))
  {
    hide Interpolates, SumOver, Curve.Encode, Clsag.Input.KeyImage, Clsag.Input.KeyMatches;
    images := [];
    for i := 0 to |parts|
      invariant |images| == i
      invariant forall k :: 0 <= k < i ==>
                  parts[k].context.decoys.Valid() && images[k] == c.Encode(parts[k].Input().KeyImage(c))
    {
      var generator := c.hashToPoint(c.Encode(parts[i].context.Signer().0));
      AllIncluded(parts[i].view, parts[i].secrets, included, parts[i].key);
      var image := TransactionKeyImage(generator, parts[i].view, parts[i].secrets, included);
      ImageTransmitted(c, parts[i], included, generator, image);
      images := images + [c.Encode(8 * image)];
    }
  }

  lemma AllIncluded(view: ThresholdView, secrets: Secrets, included: seq<Participant>, x: Scalar)
    requires Interpolates(view, secrets, included, x)
    ensures forall i :: 0 <= i < |included| ==> included[i] in view.factors
  {
  }

  lemma ImageTransmitted(c: Curve, part: Part, included: seq<Participant>, generator: SubPoint, image: SubPoint)
    requires c.Valid() && part.Valid(c, included)
    requires generator == c.hashToPoint(c.Encode(part.context.Signer().0))
    requires image == part.view.scalar * SumOver(Interpolated(part.view, part.secrets), included) * generator
                      + generator * part.view.offset
    ensures c.Encode(8 * image) == c.Encode(part.Input().KeyImage(c))
  {
    hide SumOver, Curve.Encode, Clsag.Input.KeyImage, Clsag.Input.KeyMatches, Eq, EqPoint, Interpolates;
    ImagesAgree(part.view, part.secrets, included, included, part.key, generator);
    ImageIs(c, part.context, part.key, image, generator);
    Clsag.EncodeSame(c, 8 * image, part.Input().KeyImage(c));
  }

  /** The masks of the pseudo-outs: as they are drawn, but for the last. */
  method PseudoOutMasks(drawn: seq<Scalar>, outputMasks: Scalar) returns (masks: seq<Scalar>)
    ensures |masks| == |drawn| && forall i :: 0 <= i < |drawn| - 1 ==> masks[i] == drawn[i]
    ensures drawn != [] ==> Sum(masks) == outputMasks
  {
    hide Sum;
    masks := [];
    var sumPseudoOuts := 0;
    Clsag.SumOfNone();
    for i := 0 to |drawn|
      invariant |masks| == i && forall k :: 0 <= k < i && k < |drawn| - 1 ==> masks[k] == drawn[k]
      invariant i < |drawn| ==> sumPseudoOuts == Sum(masks)
      invariant i == |drawn| && i > 0 ==> Sum(masks) == outputMasks
    {
      var mask := drawn[i];
      if i == |drawn| - 1 {
        mask := outputMasks - sumPseudoOuts;
      } else {
        sumPseudoOuts := sumPseudoOuts + mask;
      }
      Clsag.SumAppend(masks, mask);
      masks := masks + [mask];
    }
  }

  function Zip<S, T>(a: seq<S>, b: seq<T>): (r: seq<(S, T)>)
    requires |a| == |b|
    ensures |r| == |a|
  {
    seq(|a|, i requires 0 <= i < |a| => (a[i], b[i]))
  }

  // What is sorted was there before.
  lemma Placed<T>(keys: seq<seq<byte>>, values: seq<T>, k: nat) returns (i: nat)
    requires |keys| == |values| && k < |keys|
    ensures i < |keys| && Sort(Keyed(keys, values))[k] == (keys[i], values[i])
  {
    var pairs := Keyed(keys, values);
    SortSorts(pairs);
    assert Sort(pairs)[k] in multiset(Sort(pairs));
    assert Sort(pairs)[k] in pairs;
    i :| 0 <= i < |pairs| && pairs[i] == Sort(pairs)[k];
  }

  /** There is a signature exactly when a single signer's would be accepted, and it is answered like one. */
  ghost predicate SignedBy(c: Curve, part: Part, mask: Scalar, signature: Option<(Clsag.Signature, Point)>, msg: seq<byte>)
    requires c.Valid() && part.context.decoys.Valid()
  {
    && (signature.Some? <==> Clsag.ExpectedFor(c, part.Input(), mask) == Ok(()))
    && (signature.Some? ==>
          && Clsag.Answered(c, part.Input(), mask, signature.value.0, signature.value.1, msg)
          && |signature.value.0.D| == 32 && |signature.value.0.s| == |part.context.decoys.ring|)
  }

  /**
  Every machine signs its input, with its mask; the signers of an input come to the same signature if they went
  through the participants in one order.
   */
  method SignEach(c: Curve, seeded: Seeded, clsags: seq<(seq<byte>, Part)>, ghost included: seq<Participant>, masks: seq<Scalar>,
                  msg: seq<byte>)
    returns (signatures: seq<Option<(Clsag.Signature, Point)>>)
    requires c.Valid() && |msg| == 32 && included != [] && |masks| == |clsags|
    requires forall k :: 0 <= k < |clsags| ==> clsags[k].1.Valid(c, included)
    ensures |signatures| == |clsags|
    ensures forall k :: 0 <= k < |clsags| && OneOrder(clsags[k].1.order, clsags[k].1.signers) ==>
              clsags[k].1.context.decoys.Valid() && SignedBy(c, clsags[k].1, masks[k], signatures[k], msg)
  {
    hide SignedBy, OneOrder, Interpolates, Clsag.Input.KeyMatches;
    signatures := [];
    for k := 0 to |clsags|
      invariant |signatures| == k
      invariant forall j :: 0 <= j < k && OneOrder(clsags[j].1.order, clsags[j].1.signers) ==>
                  clsags[j].1.context.decoys.Valid() && SignedBy(c, clsags[j].1, masks[j], signatures[j], msg)
    {
      var signature := SignPart(c, seeded, clsags[k].1, included, masks[k], msg);
      signatures := signatures + [signature];
    }
  }

  method SignPart(c: Curve, seeded: Seeded, part: Part, ghost included: seq<Participant>, mask: Scalar, msg: seq<byte>)
    returns (signature: Option<(Clsag.Signature, Point)>)
    requires c.Valid() && |msg| == 32 && included != [] && part.Valid(c, included)
    ensures OneOrder(part.order, part.signers) ==> SignedBy(c, part, mask, signature, msg)
  {
    hide Clsag.Answered, Clsag.ExpectedFor, Interpolates, Clsag.Input.KeyMatches, OneOrder;
    SameMembers(part.signers, included);
    var results := ClsagMultisig.Sign(c, START, seeded, part.context, part.view, part.secrets, included, part.order, part.signers,
                                      part.nonces, mask, msg, part.key);
    signature := results[0];
  }
}
