/** ringct/clsag/src/decoys.rs: the ring an input is hidden in. */
module ClsagDecoys {
  import opened Wrappers
  import opened Ed25519
  import opened Vectors
  import Arithmetic

  const U64_LIMIT: int := U64_MAX + 1

  /** A ring member: an output's key and its commitment. */
  type Member = (Point, Point)

  datatype Decoys = Decoys(offsets: seq<u64>, signerIndex: byte, ring: seq<Member>) {
    /** What the constructor checks of its arguments. */
    ghost predicate Valid() {
      && |ring| < 256
      && signerIndex < |ring|
      && |offsets| == |ring|
      && Representable(offsets)
    }

    // Position 0 is the first offset; each of the others adds its offset to its predecessor's.
    method Positions() returns (res: seq<u64>)
      requires Valid()
      ensures |res| == |ring|
      ensures forall i :: 0 <= i < |res| ==> res[i] == Sum(offsets[..i + 1])
      ensures forall i, j :: 0 <= i < j < |res| ==> res[i] < res[j]
      ensures OffsetsOf(res) == offsets
    {
      PositionBound(offsets, 1);
      SumPrefix(offsets, 0);
      res := [offsets[0]];
      for m := 1 to |offsets|
        invariant |res| == m
        invariant forall i :: 0 <= i < m ==> res[i] == Sum(offsets[..i + 1])
        invariant forall i, j :: 0 <= i < j < m ==> res[i] < res[j]
      {
        SumPrefix(offsets, m);
        PositionBound(offsets, m + 1);
        res := res + [res[m - 1] + offsets[m]];
      }
      OffsetsOfSums(offsets, res);
    }

    method SignerRingMembers() returns (result: Member)
      requires Valid()
      ensures result == ring[signerIndex]
    {
      result := ring[0];
      for i := 1 to |ring|
        invariant result == ring[if signerIndex < i then signerIndex else 0]
      {
        result := (if i == signerIndex then ring[i].0 else result.0,
                   if i == signerIndex then ring[i].1 else result.1);
      }
    }
  }

  /** The positions are distinct, ascending, and fit in sixty-four bits. */
  ghost predicate Representable(offsets: seq<u64>) {
    && (forall i :: 1 <= i < |offsets| ==> offsets[i] > 0)
    && Sum(offsets) < U64_LIMIT
  }

  /** The position of the first member, and each other member's distance from its predecessor. */
  function OffsetsOf(positions: seq<int>): (offsets: seq<int>)
    ensures |offsets| == |positions|
  {
    seq(|positions|, i requires 0 <= i < |positions| =>
      if i == 0 then positions[0] else positions[i] - positions[i - 1])
  }

  method New(offsets: seq<u64>, signerIndex: byte, ring: seq<Member>) returns (res: Option<Decoys>)
    ensures res.Some? <==> Decoys(offsets, signerIndex, ring).Valid()
    ensures res.Some? ==> res.value == Decoys(offsets, signerIndex, ring)
  {
    hide Sum, Representable;
    SumOfNone();
    var ringLenDoesNotExceedMax := |ring| / 256 == 0;
    var signerIndexPointsToRingMember := signerIndex < |ring| % 256;
    var offsetsAlignWithRing := |offsets| == |ring|;

    var offsetsRepresentable := true;
    var sum: u64 := 0;
    for i := 0 to |offsets|
      invariant sum == Sum(offsets[..i]) % U64_LIMIT
      invariant offsetsRepresentable <==> Representable(offsets[..i])
    {
      RepresentablePrefix(offsets, i);
      WrappedSum(Sum(offsets[..i]), offsets[i], sum);
      var newSum: u64 := (sum + offsets[i]) % U64_LIMIT;
      if i != 0 {
        offsetsRepresentable := offsetsRepresentable && newSum > sum;
      }
      sum := newSum;
    }
    assert offsets[..|offsets|] == offsets;
    if ringLenDoesNotExceedMax && signerIndexPointsToRingMember && offsetsAlignWithRing && offsetsRepresentable {
      res := Some(Decoys(offsets, signerIndex, ring));
    } else {
      res := None;
    }
  }

  lemma SumOfNone()
    ensures Sum([]) == 0 && Representable([])
  {
  }

  // A wrapped sum grows exactly when what is added is not zero and it does not wrap once more.
  lemma WrappedSum(total: nat, offset: u64, sum: u64)
    requires sum == total % U64_LIMIT
    ensures (sum + offset) % U64_LIMIT == (total + offset) % U64_LIMIT
    ensures total < U64_LIMIT ==> ((sum + offset) % U64_LIMIT > sum <==> offset > 0 && total + offset < U64_LIMIT)
  {
    var q := total / U64_LIMIT;
    Arithmetic.AddMultiple(sum + offset, U64_LIMIT, q);
    if total < U64_LIMIT {
      if total + offset < U64_LIMIT {
        Arithmetic.ModIs(total + offset, U64_LIMIT, 0, total + offset);
      } else {
        Arithmetic.ModIs(total + offset, U64_LIMIT, 1, total + offset - U64_LIMIT);
      }
    }
  }

  // One more offset: the wrapped sum grows exactly when the offset is non-zero and nothing wraps.
  lemma RepresentablePrefix(offsets: seq<u64>, i: nat)
    requires i < |offsets|
    ensures Sum(offsets[..i + 1]) == Sum(offsets[..i]) + offsets[i]
    ensures 0 <= Sum(offsets[..i]) && (Representable(offsets[..i]) ==> Sum(offsets[..i]) < U64_LIMIT)
    ensures Representable(offsets[..i + 1]) <==>
            Representable(offsets[..i]) && (i > 0 ==> offsets[i] > 0) && Sum(offsets[..i]) + offsets[i] < U64_LIMIT
  {
    SumPrefix(offsets, i);
    SumNonNegative(offsets[..i]);
    if Representable(offsets[..i + 1]) {
      assert forall k :: 1 <= k < i ==> offsets[..i][k] == offsets[..i + 1][k];
      if i > 0 { assert offsets[..i + 1][i] > 0; }
    }
  }

  lemma {:induction false} SumNonNegative(offsets: seq<u64>)
    ensures Sum(offsets) >= 0
  {
    if offsets != [] {
      SumNonNegative(offsets[1..]);
    }
  }

  lemma PositionBound(offsets: seq<u64>, i: nat)
    requires i <= |offsets| && Sum(offsets) < U64_LIMIT
    ensures 0 <= Sum(offsets[..i]) < U64_LIMIT
  {
    SumConcat(offsets[..i], offsets[i..]);
    assert offsets[..i] + offsets[i..] == offsets;
    SumNonNegative(offsets[..i]);
    SumNonNegative(offsets[i..]);
  }

  lemma OffsetsOfSums(offsets: seq<u64>, positions: seq<u64>)
    requires |positions| == |offsets|
    requires forall i :: 0 <= i < |positions| ==> positions[i] == Sum(offsets[..i + 1])
    ensures OffsetsOf(positions) == offsets
  {
    forall i | 0 <= i < |offsets|
      ensures OffsetsOf(positions)[i] == offsets[i]
    {
      SumPrefix(offsets, i);
    }
  }

  lemma SumNone(a: Vector)
    requires a == []
    ensures Sum(a) == 0
  {
  }

  // The other way around: any list of ascending positions has representable offsets, which give the
  // positions back.
  lemma {:induction false} OffsetsRepresentPositions(positions: seq<u64>)
    requires positions != [] && forall i, j :: 0 <= i < j < |positions| ==> positions[i] < positions[j]
    ensures forall i :: 0 <= i < |positions| ==> 0 <= OffsetsOf(positions)[i] < U64_LIMIT
    ensures forall i :: 1 <= i < |positions| ==> OffsetsOf(positions)[i] > 0
    ensures forall i :: 0 <= i < |positions| ==> Sum(OffsetsOf(positions)[..i + 1]) == positions[i]
    ensures Sum(OffsetsOf(positions)) == positions[|positions| - 1]
  {
    hide Sum;
    var last := |positions| - 1;
    var offsets := OffsetsOf(positions);
    SumPrefix(offsets, last);
    assert offsets[..last + 1] == offsets;
    if last == 0 {
      SumNone(offsets[..0]);
    } else {
      var fewer := positions[..last];
      OffsetsRepresentPositions(fewer);
      assert OffsetsOf(fewer) == offsets[..last];
      forall i | 0 <= i < last
        ensures Sum(offsets[..i + 1]) == positions[i]
      {
        assert OffsetsOf(fewer)[..i + 1] == offsets[..i + 1];
      }
    }
  }
}
