/**
wallet/src/decoys.rs: choosing the outputs an input is hidden among. The ages sampled, the random numbers
drawn and the answers of the node are arbitrary streams.
 */
module DecoySelection {
  import opened Wrappers
  import opened Ed25519
  import opened Vectors
  import opened ClsagDecoys
  import Clsag

  const DEFAULT_LOCK_WINDOW: nat := 10
  const COINBASE_LOCK_WINDOW: nat := 60

  datatype InterfaceError = InternalError | InvalidInterface

  // ---------------------------------------------------------------------------------------------
  // Sorting.

  function Insert<T>(key: T -> nat, x: T, sorted: seq<T>): (r: seq<T>) {
    if sorted == [] || key(x) <= key(sorted[0]) then [x] + sorted else [sorted[0]] + Insert(key, x, sorted[1..])
  }

  function Sort<T>(key: T -> nat, s: seq<T>): (r: seq<T>) {
    if s == [] then [] else Insert(key, s[0], Sort(key, s[1..]))
  }

  ghost predicate Ascending<T>(key: T -> nat, s: seq<T>) {
    forall i, j :: 0 <= i < j < |s| ==> key(s[i]) <= key(s[j])
  }

  /** No two elements have the same key. */
  ghost predicate Distinct<T>(key: T -> nat, s: seq<T>) {
    forall i, j :: 0 <= i < j < |s| ==> key(s[i]) != key(s[j])
  }

  lemma OneOfRest<T>(s: seq<T>, y: T)
    requires s != [] && y in s[1..]
    ensures exists i :: 1 <= i < |s| && s[i] == y
  {
    var i :| 0 <= i < |s[1..]| && s[1..][i] == y;
    assert s[i + 1] == y;
  }

  lemma {:induction false} InsertKeeps<T>(key: T -> nat, x: T, sorted: seq<T>)
    ensures multiset(Insert(key, x, sorted)) == multiset(sorted) + multiset{x}
    ensures |Insert(key, x, sorted)| == |sorted| + 1
  {
    if sorted != [] && key(x) > key(sorted[0]) {
      InsertKeeps(key, x, sorted[1..]);
      assert sorted == [sorted[0]] + sorted[1..];
    }
  }

  lemma {:induction false} SortKeeps<T>(key: T -> nat, s: seq<T>)
    ensures multiset(Sort(key, s)) == multiset(s) && |Sort(key, s)| == |s|
  {
    if s != [] {
      SortKeeps(key, s[1..]);
      InsertKeeps(key, s[0], Sort(key, s[1..]));
      assert s == [s[0]] + s[1..];
    }
  }

  lemma Inserted<T>(key: T -> nat, x: T, sorted: seq<T>, y: T)
    ensures y in Insert(key, x, sorted) <==> y == x || y in sorted
  {
    InsertKeeps(key, x, sorted);
    assert y in Insert(key, x, sorted) <==> y in multiset(Insert(key, x, sorted));
    assert y in sorted <==> y in multiset(sorted);
  }

  lemma IsSorted<T>(key: T -> nat, s: seq<T>, y: T)
    ensures y in Sort(key, s) <==> y in s
  {
    SortKeeps(key, s);
    assert y in Sort(key, s) <==> y in multiset(Sort(key, s));
    assert y in s <==> y in multiset(s);
  }

  /** In front of the others. */
  ghost predicate First<T>(key: T -> nat, x: T, s: seq<T>) {
    forall y :: y in s ==> key(x) <= key(y)
  }

  lemma FirstAscends<T>(key: T -> nat, x: T, s: seq<T>)
    requires Ascending(key, s) && First(key, x, s)
    ensures Ascending(key, [x] + s)
  {
  }

  lemma AscendingFirst<T>(key: T -> nat, s: seq<T>)
    requires s != [] && Ascending(key, s)
    ensures First(key, s[0], s) && Ascending(key, s[1..]) && First(key, s[0], s[1..])
  {
    forall y | y in s
      ensures key(s[0]) <= key(y)
    {
      var i :| 0 <= i < |s| && s[i] == y;
    }
    forall y | y in s[1..]
      ensures y in s
    {
      OneOfRest(s, y);
    }
  }

  lemma {:induction false} InsertAscends<T>(key: T -> nat, x: T, sorted: seq<T>)
    requires Ascending(key, sorted)
    ensures Ascending(key, Insert(key, x, sorted))
  {
    if sorted != [] {
      AscendingFirst(key, sorted);
      if key(x) <= key(sorted[0]) {
        FirstAscends(key, x, sorted);
      } else {
        InsertAscends(key, x, sorted[1..]);
        forall y | y in Insert(key, x, sorted[1..])
          ensures key(sorted[0]) <= key(y)
        {
          Inserted(key, x, sorted[1..], y);
        }
        FirstAscends(key, sorted[0], Insert(key, x, sorted[1..]));
      }
    }
  }

  lemma {:induction false} SortAscends<T>(key: T -> nat, s: seq<T>)
    ensures Ascending(key, Sort(key, s))
  {
    if s != [] {
      SortAscends(key, s[1..]);
      InsertAscends(key, s[0], Sort(key, s[1..]));
    }
  }

  /** Unlike the others. */
  ghost predicate Apart<T>(key: T -> nat, x: T, s: seq<T>) {
    forall y :: y in s ==> key(x) != key(y)
  }

  lemma ApartDistinct<T>(key: T -> nat, x: T, s: seq<T>)
    requires Distinct(key, s) && Apart(key, x, s)
    ensures Distinct(key, [x] + s)
  {
  }

  lemma DistinctApart<T>(key: T -> nat, s: seq<T>)
    requires s != [] && Distinct(key, s)
    ensures Apart(key, s[0], s[1..]) && Distinct(key, s[1..])
  {
    forall y | y in s[1..]
      ensures key(s[0]) != key(y)
    {
      OneOfRest(s, y);
    }
  }

  lemma {:induction false} InsertDistinct<T>(key: T -> nat, x: T, sorted: seq<T>)
    requires Distinct(key, sorted) && Apart(key, x, sorted)
    ensures Distinct(key, Insert(key, x, sorted))
  {
    if sorted == [] || key(x) <= key(sorted[0]) {
      ApartDistinct(key, x, sorted);
    } else {
      DistinctApart(key, sorted);
      forall y | y in sorted[1..]
        ensures y in sorted
      {
        OneOfRest(sorted, y);
      }
      InsertDistinct(key, x, sorted[1..]);
      forall y | y in Insert(key, x, sorted[1..])
        ensures key(sorted[0]) != key(y)
      {
        Inserted(key, x, sorted[1..], y);
        assert sorted[0] in sorted;
      }
      ApartDistinct(key, sorted[0], Insert(key, x, sorted[1..]));
    }
  }

  lemma {:induction false} SortDistinct<T>(key: T -> nat, s: seq<T>)
    requires Distinct(key, s)
    ensures Distinct(key, Sort(key, s))
  {
    if s != [] {
      DistinctApart(key, s);
      SortDistinct(key, s[1..]);
      forall y | y in Sort(key, s[1..])
        ensures key(s[0]) != key(y)
      {
        IsSorted(key, s[1..], y);
      }
      InsertDistinct(key, s[0], Sort(key, s[1..]));
    }
  }

  function Itself(n: u64): nat {
    n
  }

  /** An output, by its index on the blockchain. */
  type Indexed = (u64, Member)

  function IndexOf(output: Indexed): nat {
    output.0
  }

  // ---------------------------------------------------------------------------------------------
  // Selection.

  /** The outside of the selection. */
  datatype Environment = Environment(
    // The block whose view of the outputs is used, and the latest there is
    blockNumber: nat,
    latestBlockNumber: nat,
    // Cumulative, by block
    distribution: seq<u64>,
    // How far back the n-th sample is, in outputs
    ages: nat -> u64,
    draws: nat -> u64,
    // The outputs the node returns in a round for some indexes, where they are unlocked
    outputs: (nat, seq<u64>) -> seq<Option<Member>>)
  {
    ghost predicate Ascends() {
      forall i, j :: 0 <= i < j < |distribution| ==> distribution[i] <= distribution[j]
    }

    /** All outputs below are unlocked by the default lock. */
    function Bound(): u64
      requires |distribution| >= DEFAULT_LOCK_WINDOW
    {
      distribution[|distribution| - DEFAULT_LOCK_WINDOW]
    }
  }

  /** The output being spent. */
  datatype Spent = Spent(index: u64, member: Member)

  predicate TorsionFree(p: Point) {
    Clsag.IsIdentity(L * p)
  }

  /** An output which can be in a ring: its points are free of torsion and its key is not the identity. */
  predicate Usable(output: Member) {
    TorsionFree(output.0) && TorsionFree(output.1) && !Clsag.IsIdentity(output.0)
  }

  // Those are the outputs a signer could be hidden among: with the keys of secrets which are not zero, and commitments
  // which are multiples of eight.
  lemma UsableIs(output: Member)
    ensures Usable(output) <==>
            && (exists x: Scalar :: EqPoint(output.0, 8 * x) && !Eq(x, 0))
            && (exists y: Scalar :: EqPoint(output.1, 8 * y))
  {
    hide Eq, EqPoint, Clsag.IsIdentity;
    Clsag.KeyImagesAre(output.0);
    Clsag.KeyImagesAre(output.1);
  }

  /** `ProvidesDecoys`: the distribution, if it ascends. */
  method RingctOutputDistribution(env: Environment) returns (res: Result<seq<u64>, InterfaceError>)
    ensures res.Ok? <==> env.Ascends()
    ensures res == if res.Ok? then Ok(env.distribution) else Err(InvalidInterface)
  {
    var monotonic := 0;
    for i := 0 to |env.distribution|
      invariant forall j, k :: 0 <= j < k < i ==> env.distribution[j] <= env.distribution[k]
      invariant forall j :: 0 <= j < i ==> env.distribution[j] <= monotonic
      invariant monotonic == if i == 0 then 0 else env.distribution[i - 1]
    {
      if env.distribution[i] < monotonic {
        return Err(InvalidInterface);
      }
      monotonic := env.distribution[i];
    }
    res := Ok(env.distribution);
  }

  /** `ProvidesDecoys`: the outputs, if there are as many as were asked for. */
  method UnlockedRingctOutputs(env: Environment, round: nat, indexes: seq<u64>)
    returns (res: Result<seq<Option<Member>>, InterfaceError>)
    ensures res.Ok? <==> |env.outputs(round, indexes)| == |indexes|
    ensures res == if res.Ok? then Ok(env.outputs(round, indexes)) else Err(InternalError)
  {
    var outputs := env.outputs(round, indexes);
    if |outputs| != |indexes| {
      return Err(InternalError);
    }
    res := Ok(outputs);
  }

  /** The first block which has this many outputs, by its end. */
  function PartitionPoint(distribution: seq<u64>, target: int, from: nat): (i: nat)
    requires from <= |distribution|
    ensures from <= i <= |distribution|
    ensures forall j :: from <= j < i ==> distribution[j] < target
    ensures i < |distribution| ==> distribution[i] >= target
    decreases |distribution| - from
  {
    if from == |distribution| || distribution[from] >= target then from else PartitionPoint(distribution, target, from + 1)
  }

  /** The outputs there were before a block. */
  function Start(distribution: seq<u64>, i: nat): u64
    requires i < |distribution|
  {
    if i == 0 then 0 else distribution[i - 1]
  }

  /** The block has the output. */
  ghost predicate Holds(distribution: seq<u64>, i: nat, o: u64) {
    i < |distribution| && Start(distribution, i) <= o < distribution[i]
  }

  /**
  An output, so far back from the last one which is unlocked, is one of the first block which ends with it or after it,
  and the output drawn is one of the block's.
   */
  ghost predicate Hits(env: Environment, age: u64, draw: u64, o: u64)
    requires |env.distribution| >= DEFAULT_LOCK_WINDOW
  {
    age < env.Bound() &&
    exists i :: 0 <= i < |env.distribution| && Reaches(env, i, age) && Drawn(env.distribution, i, draw, o)
  }

  ghost predicate Reaches(env: Environment, i: nat, age: u64)
    requires |env.distribution| >= DEFAULT_LOCK_WINDOW && i < |env.distribution|
  {
    env.distribution[i] >= env.Bound() - 1 - age && (i > 0 ==> env.distribution[i - 1] < env.Bound() - 1 - age)
  }

  ghost predicate Drawn(distribution: seq<u64>, i: nat, draw: u64, o: u64) {
    Holds(distribution, i, o) && o == Start(distribution, i) + draw % (distribution[i] - Start(distribution, i))
  }

  /** One sample: the output it hits, if it hits one. The block it falls in has only unlocked outputs. */
  method Sample(env: Environment, age: u64, draw: u64) returns (o: Option<u64>)
    requires env.Ascends() && |env.distribution| >= DEFAULT_LOCK_WINDOW
    ensures o.Some? ==> o.value < env.Bound() && Hits(env, age, draw, o.value)
    ensures o.None? ==> forall q :: !Hits(env, age, draw, q)
  {
    var bound := env.Bound();
    if age >= bound {
      return None;
    }
    var i := PartitionPoint(env.distribution, bound - 1 - age, 0);
    var last := |env.distribution| - DEFAULT_LOCK_WINDOW;
    assert env.distribution[last] >= bound - 1 - age;
    assert i <= last;
    var prevOutputs := if i == 0 then 0 else env.distribution[i - 1];
    var n := env.distribution[i] - prevOutputs;
    OneReached(env, i, age);
    if n == 0 {
      return None;
    }
    assert env.distribution[i] <= bound;
    o := Some(prevOutputs + draw % n);
    assert Reaches(env, i, age) && Drawn(env.distribution, i, draw, o.value);
  }

  lemma OneReached(env: Environment, i: nat, age: u64)
    requires env.Ascends() && |env.distribution| >= DEFAULT_LOCK_WINDOW && i < |env.distribution|
    requires Reaches(env, i, age)
    ensures forall j :: 0 <= j < |env.distribution| && Reaches(env, j, age) ==> j == i
  {
  }

  // Any unlocked output can be hit, but one which is the last of them and the only one of its block.
  lemma HitIff(env: Environment, i: nat, o: u64)
    requires env.Ascends() && |env.distribution| >= DEFAULT_LOCK_WINDOW && Holds(env.distribution, i, o)
    ensures (exists age: u64, draw: u64 :: Hits(env, age, draw, o)) <==>
            o < env.Bound() && (i == 0 || env.distribution[i - 1] + 1 < env.Bound())
  {
    if exists age: u64, draw: u64 :: Hits(env, age, draw, o) {
      var age: u64, draw: u64 :| Hits(env, age, draw, o);
      HitIsOf(env, i, age, draw, o);
    }
    if o < env.Bound() && (i == 0 || env.distribution[i - 1] + 1 < env.Bound()) {
      var age, draw := HitBy(env, i, o);
    }
  }

  lemma HitBy(env: Environment, i: nat, o: u64) returns (age: u64, draw: u64)
    requires env.Ascends() && |env.distribution| >= DEFAULT_LOCK_WINDOW && Holds(env.distribution, i, o)
    requires o < env.Bound() && (i == 0 || env.distribution[i - 1] + 1 < env.Bound())
    ensures Hits(env, age, draw, o)
  {
    age := if env.distribution[i] < env.Bound() then env.Bound() - 1 - env.distribution[i] else 0;
    draw := o - Start(env.distribution, i);
    assert Reaches(env, i, age);
    WithinBlock(draw, env.distribution[i] - Start(env.distribution, i));
    assert Drawn(env.distribution, i, draw, o);
  }

  lemma WithinBlock(draw: nat, n: nat)
    requires draw < n
    ensures draw % n == draw
  {
  }

  lemma HitIsOf(env: Environment, i: nat, age: u64, draw: u64, o: u64)
    requires env.Ascends() && |env.distribution| >= DEFAULT_LOCK_WINDOW && Holds(env.distribution, i, o)
    requires Hits(env, age, draw, o)
    ensures o < env.Bound() && (i == 0 || env.distribution[i - 1] + 1 < env.Bound())
  {
    HitIsBelow(env, age, draw, o);
    OneHolds(env, i, o);
    assert Reaches(env, i, age);
  }

  lemma OneHolds(env: Environment, i: nat, o: u64)
    requires env.Ascends() && Holds(env.distribution, i, o)
    ensures forall j :: Holds(env.distribution, j, o) ==> j == i
  {
  }

  lemma HitIsBelow(env: Environment, age: u64, draw: u64, o: u64)
    requires env.Ascends() && |env.distribution| >= DEFAULT_LOCK_WINDOW && Hits(env, age, draw, o)
    ensures o < env.Bound()
  {
    var i :| 0 <= i < |env.distribution| && Reaches(env, i, age) && Drawn(env.distribution, i, draw, o);
    var last := |env.distribution| - DEFAULT_LOCK_WINDOW;
    assert i <= last;
    assert env.distribution[i] <= env.distribution[last];
  }

  /** What is known of a selection under way: all indexes chosen so far are marked, as is the one being spent. */
  ghost predicate Selecting(bound: u64, spent: u64, doNotSelect: set<u64>, res: seq<Indexed>, candidates: seq<u64>) {
    && spent in doNotSelect && |doNotSelect| <= bound
    && Distinct(IndexOf, res) && Distinct(Itself, candidates)
    && (forall i :: 0 <= i < |res| ==> res[i].0 in doNotSelect && res[i].0 != spent && res[i].0 < bound && Usable(res[i].1))
    && (forall i :: 0 <= i < |candidates| ==> candidates[i] in doNotSelect && candidates[i] != spent && candidates[i] < bound)
    && (forall i, j :: 0 <= i < |res| && 0 <= j < |candidates| ==> res[i].0 != candidates[j])
  }

  lemma AddCandidate(bound: u64, spent: u64, doNotSelect: set<u64>, res: seq<Indexed>, candidates: seq<u64>, o: u64)
    requires Selecting(bound, spent, doNotSelect, res, candidates)
    requires o !in doNotSelect && o < bound && |doNotSelect| < bound
    ensures Selecting(bound, spent, doNotSelect + {o}, res, candidates + [o])
  {
  }

  // One draw hits one output.
  lemma OneHit(env: Environment, age: u64, draw: u64, o: u64, q: u64)
    requires env.Ascends() && |env.distribution| >= DEFAULT_LOCK_WINDOW && Hits(env, age, draw, o) && Hits(env, age, draw, q)
    ensures o == q
  {
    var i :| 0 <= i < |env.distribution| && Reaches(env, i, age) && Drawn(env.distribution, i, draw, o);
    var j :| 0 <= j < |env.distribution| && Reaches(env, j, age) && Drawn(env.distribution, j, draw, q);
    OneReached(env, i, age);
  }

  /** As many samples as decoys are needed, each of which hits another output, and none of them the one being spent. */
  ghost predicate Lucky(env: Environment, spent: u64, ringLen: byte, hits: nat -> u64)
    requires |env.distribution| >= DEFAULT_LOCK_WINDOW
  {
    && (forall k :: 1 <= k < ringLen ==> Hits(env, env.ages(k), env.draws(k), hits(k)) && hits(k) != spent)
    && (forall j, k :: 1 <= j < k < ringLen ==> hits(j) != hits(k))
  }

  function HitsUpTo(hits: nat -> u64, n: nat): (r: seq<u64>)
    ensures |r| == n
  {
    seq(n, i requires 0 <= i < n => hits(i + 1))
  }

  ghost predicate OnlyHits(doNotSelect: set<u64>, spent: u64, hits: nat -> u64, n: nat) {
    |doNotSelect| == 1 + n && forall o :: o in doNotSelect ==> o == spent || exists k :: 1 <= k <= n && o == hits(k)
  }

  // With luck, what is hit next has not been marked.
  lemma NextHit(env: Environment, spent: u64, ringLen: byte, hits: nat -> u64, n: nat, doNotSelect: set<u64>,
                age: u64, draw: u64, o: Option<u64>)
    requires env.Ascends() && |env.distribution| >= DEFAULT_LOCK_WINDOW && Lucky(env, spent, ringLen, hits) && n + 1 < ringLen
    requires OnlyHits(doNotSelect, spent, hits, n)
    requires age == env.ages(n + 1) && draw == env.draws(n + 1)
    requires (o.Some? ==> Hits(env, age, draw, o.value)) && (o.None? ==> forall q :: !Hits(env, age, draw, q))
    ensures o == Some(hits(n + 1)) && o.value !in doNotSelect
    ensures HitsUpTo(hits, n + 1) == HitsUpTo(hits, n) + [o.value]
    ensures OnlyHits(doNotSelect + {o.value}, spent, hits, n + 1)
  {
    hide Hits;
    assert Hits(env, age, draw, hits(n + 1));
    OneHit(env, age, draw, o.value, hits(n + 1));
    forall x | x in doNotSelect + {o.value}
      ensures x == spent || exists k :: 1 <= k <= n + 1 && x == hits(k)
    {
      if x in doNotSelect && x != spent {
        var k :| 1 <= k <= n && x == hits(k);
      }
    }
  }

  /** The inner loop: candidates for what is left to select. */
  method SelectCandidates(env: Environment, ringLen: byte, spent: u64, remaining: nat, ghost res: seq<Indexed>,
                          marked: set<u64>, started: nat, ghost hits: nat -> u64)
    returns (found: Option<seq<u64>>, doNotSelect: set<u64>, iters: nat)
    requires env.Ascends() && |env.distribution| >= DEFAULT_LOCK_WINDOW && remaining > 0 && ringLen > 0
    requires Selecting(env.Bound(), spent, marked, res, []) && started < 10 * ringLen
    ensures found.Some? ==>
              && Selecting(env.Bound(), spent, doNotSelect, res, found.value)
              && |found.value| == remaining && started < iters < 10 * ringLen
    ensures Lucky(env, spent, ringLen, hits) && started == 0 && marked == {spent} && remaining == ringLen - 1 <= env.Bound() - 1 ==>
              found == Some(HitsUpTo(hits, ringLen - 1))
  {
    hide Selecting, Lucky, Hits, OnlyHits;
    ghost var lucky := Lucky(env, spent, ringLen, hits) && started == 0 && marked == {spent} &&
                       remaining == ringLen - 1 <= env.Bound() - 1;
    NoHits(hits, spent);
    iters := started;
    doNotSelect := marked;
    var candidates: seq<u64> := [];
    var maxIters := 10 * ringLen;
    while |candidates| != remaining
      invariant |candidates| <= remaining && started <= iters < maxIters
      invariant candidates != [] ==> started < iters
      invariant Selecting(env.Bound(), spent, doNotSelect, res, candidates)
      invariant lucky ==> candidates == HitsUpTo(hits, iters) && OnlyHits(doNotSelect, spent, hits, iters)
      decreases maxIters - iters
    {
      if lucky { HitsCounted(doNotSelect, spent, hits, iters); }
      iters := iters + 1;
      MarkedFit(env.Bound(), spent, doNotSelect, res, candidates);
      if iters == maxIters || env.Bound() - |doNotSelect| < remaining - |candidates| {
        return None, doNotSelect, iters;
      }
      var o := Sample(env, env.ages(iters), env.draws(iters));
      if lucky { NextHit(env, spent, ringLen, hits, iters - 1, doNotSelect, env.ages(iters), env.draws(iters), o); }
      if o.Some? && o.value !in doNotSelect {
        AddCandidate(env.Bound(), spent, doNotSelect, res, candidates, o.value);
        candidates := candidates + [o.value];
        doNotSelect := doNotSelect + {o.value};
      }
    }
    found := Some(candidates);
  }

  lemma NoHits(hits: nat -> u64, spent: u64)
    ensures HitsUpTo(hits, 0) == [] && OnlyHits({spent}, spent, hits, 0)
  {
  }

  lemma HitsCounted(doNotSelect: set<u64>, spent: u64, hits: nat -> u64, n: nat)
    requires OnlyHits(doNotSelect, spent, hits, n)
    ensures |doNotSelect| == 1 + n
  {
  }

  // The outputs which must not be selected never outnumber those there are.
  lemma MarkedFit(bound: u64, spent: u64, doNotSelect: set<u64>, res: seq<Indexed>, candidates: seq<u64>)
    requires Selecting(bound, spent, doNotSelect, res, candidates)
    ensures |doNotSelect| <= bound
  {
  }

  /** The node gave this output for its index, when asked in some round. */
  ghost predicate Returned(env: Environment, output: Indexed) {
    exists round, indexes, i :: 0 <= i < |indexes| == |env.outputs(round, indexes)| && indexes[i] == output.0 &&
                                env.outputs(round, indexes)[i] == Some(output.1)
  }

  ghost predicate AllReturned(env: Environment, outputs: seq<Indexed>) {
    forall i :: 0 <= i < |outputs| ==> Returned(env, outputs[i])
  }

  lemma OneMoreReturned(env: Environment, all: seq<Indexed>, round: nat, indexes: seq<u64>, i: nat, member: Member)
    requires AllReturned(env, all)
    requires i < |indexes| == |env.outputs(round, indexes)| && env.outputs(round, indexes)[i] == Some(member)
    ensures AllReturned(env, all + [(indexes[i], member)])
  {
    assert Returned(env, (indexes[i], member));
  }

  /** The indexes asked for in a round: the candidates, in the first round with the output being spent among them. */
  function Indexes(candidates: seq<u64>, spent: u64, asked: bool): seq<u64> {
    if asked then Sort(Itself, candidates + [spent]) else candidates
  }

  /** The usable ones of the first `n` outputs, but for the one being spent. */
  function Taken(indexes: seq<u64>, outputs: seq<Option<Member>>, spent: u64, n: nat): seq<Indexed>
    requires n <= |indexes| == |outputs|
  {
    if n == 0 then []
    else
      Taken(indexes, outputs, spent, n - 1) +
      if indexes[n - 1] != spent && outputs[n - 1].Some? && Usable(outputs[n - 1].value)
      then [(indexes[n - 1], outputs[n - 1].value)]
      else []
  }

  // They are all of those.
  lemma {:induction false} TakenAre(indexes: seq<u64>, outputs: seq<Option<Member>>, spent: u64, n: nat, output: Indexed)
    requires n <= |indexes| == |outputs|
    ensures output in Taken(indexes, outputs, spent, n) <==>
            output.0 != spent && Usable(output.1) &&
            exists i :: 0 <= i < n && indexes[i] == output.0 && outputs[i] == Some(output.1)
  {
    hide Usable;
    if n > 0 {
      TakenAre(indexes, outputs, spent, n - 1, output);
    }
  }

  // With all outputs usable, as many as were asked for but the one being spent.
  lemma {:induction false} AllTaken(indexes: seq<u64>, outputs: seq<Option<Member>>, spent: u64, n: nat)
    requires n <= |indexes| == |outputs| && forall i, j :: 0 <= i < j < |indexes| ==> indexes[i] != indexes[j]
    requires forall i :: 0 <= i < n && indexes[i] != spent ==> outputs[i].Some? && Usable(outputs[i].value)
    ensures |Taken(indexes, outputs, spent, n)| == n - if exists i :: 0 <= i < n && indexes[i] == spent then 1 else 0
  {
    hide Usable;
    if n > 0 {
      AllTaken(indexes, outputs, spent, n - 1);
    }
  }

  /** The node's answer is for what was asked, and has the output being spent as it is. */
  ghost predicate Answers(outputs: seq<Option<Member>>, indexes: seq<u64>, spent: Spent) {
    |outputs| == |indexes| && forall i :: 0 <= i < |indexes| && indexes[i] == spent.index ==> outputs[i] == Some(spent.member)
  }

  /** The outputs of a round which can be used. The one being spent, where asked for, must be as expected. */
  method TakeOutputs(env: Environment, round: nat, spent: Spent, marked: set<u64>, candidates: seq<u64>, asked: bool,
                     before: seq<Indexed>, ghost bound: u64)
    returns (res: Result<seq<Indexed>, InterfaceError>)
    requires Selecting(bound, spent.index, marked, before, candidates) && AllReturned(env, before)
    ensures var indexes := Indexes(candidates, spent.index, asked);
            && (res.Ok? <==> Answers(env.outputs(round, indexes), indexes, spent))
            && (res.Ok? ==> res.value == before + Taken(indexes, env.outputs(round, indexes), spent.index, |indexes|))
    ensures res.Ok? ==>
              && Selecting(bound, spent.index, marked, res.value, []) && AllReturned(env, res.value)
              && |before| <= |res.value| <= |before| + |candidates|
  {
    var indexes := Indexes(candidates, spent.index, asked);
    hide Selecting, Distinct, Returned, AllReturned, Usable, Taken, Indexes;
    var returned := UnlockedRingctOutputs(env, round, indexes);
    if returned.Err? {
      return Err(returned.error);
    }
    var outputs := returned.value;
    RoundTaken(env, round, spent, marked, candidates, asked, before, bound);
    var all := before;
    TakenNone(indexes, outputs, spent.index);
    for i := 0 to |indexes|
      invariant all == before + Taken(indexes, outputs, spent.index, i)
      invariant forall k :: 0 <= k < i && indexes[k] == spent.index ==> outputs[k] == Some(spent.member)
    {
      TakenNext(indexes, outputs, spent.index, i);
      if asked && indexes[i] == spent.index {
        if outputs[i] != Some(spent.member) {
          return Err(InvalidInterface);
        }
        continue;
      }
      if outputs[i].Some? && Usable(outputs[i].value) {
        all := all + [(indexes[i], outputs[i].value)];
      }
    }
    res := Ok(all);
  }

  lemma RoundTaken(env: Environment, round: nat, spent: Spent, marked: set<u64>, candidates: seq<u64>, asked: bool,
                   before: seq<Indexed>, bound: u64)
    requires Selecting(bound, spent.index, marked, before, candidates) && AllReturned(env, before)
    requires var indexes := Indexes(candidates, spent.index, asked); |env.outputs(round, indexes)| == |indexes|
    ensures var indexes := Indexes(candidates, spent.index, asked);
            var all := before + Taken(indexes, env.outputs(round, indexes), spent.index, |indexes|);
            && (forall k :: 0 <= k < |indexes| && !asked ==> indexes[k] != spent.index)
            && Selecting(bound, spent.index, marked, all, []) && AllReturned(env, all)
            && |all| <= |before| + |candidates|
  {
    var indexes := Indexes(candidates, spent.index, asked);
    IndexesAre(marked, bound, spent.index, before, candidates, asked, indexes);
    CandidatesApart(marked, bound, spent.index, before, candidates, asked, indexes);
    SpentAsked(marked, bound, spent.index, before, candidates, asked, indexes);
    hide Selecting, Distinct, Returned, AllReturned, Usable, Taken, Indexes;
    TakenSelecting(env, round, spent, marked, candidates, before, bound, indexes, |indexes|);
    TakenCount(indexes, env.outputs(round, indexes), spent.index, |indexes|);
  }

  // No more than were asked for, but the one being spent.
  lemma {:induction false} TakenCount(indexes: seq<u64>, outputs: seq<Option<Member>>, spent: u64, n: nat)
    requires n <= |indexes| == |outputs|
    ensures |Taken(indexes, outputs, spent, n)| <= n - if exists k :: 0 <= k < n && indexes[k] == spent then 1 else 0
  {
    hide Usable;
    if n > 0 {
      TakenCount(indexes, outputs, spent, n - 1);
    }
  }

  lemma TakenNone(indexes: seq<u64>, outputs: seq<Option<Member>>, spent: u64)
    requires |indexes| == |outputs|
    ensures Taken(indexes, outputs, spent, 0) == []
  {
  }

  lemma TakenNext(indexes: seq<u64>, outputs: seq<Option<Member>>, spent: u64, i: nat)
    requires i < |indexes| == |outputs|
    ensures var before := Taken(indexes, outputs, spent, i);
            Taken(indexes, outputs, spent, i + 1) ==
            if indexes[i] != spent && outputs[i].Some? && Usable(outputs[i].value) then before + [(indexes[i], outputs[i].value)]
            else before
  {
    hide Usable;
  }

  // What is taken keeps what is known of the selection.
  lemma {:induction false} TakenSelecting(env: Environment, round: nat, spent: Spent, marked: set<u64>, candidates: seq<u64>,
                                          before: seq<Indexed>, bound: u64, indexes: seq<u64>, n: nat)
    requires n <= |indexes| == |env.outputs(round, indexes)|
    requires Selecting(bound, spent.index, marked, before, candidates) && AllReturned(env, before)
    requires forall j, k :: 0 <= j < k < |indexes| ==> indexes[j] != indexes[k]
    requires forall k :: 0 <= k < |indexes| ==> indexes[k] in candidates || indexes[k] == spent.index
    ensures var taken := Taken(indexes, env.outputs(round, indexes), spent.index, n);
            && Selecting(bound, spent.index, marked, before + taken, []) && AllReturned(env, before + taken)
            && forall t :: 0 <= t < |taken| ==> exists k :: 0 <= k < n && indexes[k] == taken[t].0
    decreases n
  {
    hide Selecting, Distinct, Returned, AllReturned, Usable, Taken;
    var outputs := env.outputs(round, indexes);
    Unfinished(bound, spent.index, marked, before, candidates);
    if n == 0 {
      TakenNone(indexes, outputs, spent.index);
      assert before + [] == before;
    } else {
      TakenSelecting(env, round, spent, marked, candidates, before, bound, indexes, n - 1);
      TakenNext(indexes, outputs, spent.index, n - 1);
      var taken := Taken(indexes, outputs, spent.index, n - 1);
      if indexes[n - 1] != spent.index && outputs[n - 1].Some? && Usable(outputs[n - 1].value) {
        CandidateIs(marked, bound, spent.index, before, candidates, indexes[n - 1]);
        TakeOne(bound, spent.index, marked, before + taken, indexes[n - 1], outputs[n - 1].value);
        OneMoreReturned(env, before + taken, round, indexes, n - 1, outputs[n - 1].value);
        var one := [(indexes[n - 1], outputs[n - 1].value)];
        assert before + taken + one == before + (taken + one);
      }
    }
  }

  // The output being spent is only among the indexes if it is asked for.
  lemma SpentAsked(marked: set<u64>, bound: u64, spent: u64, before: seq<Indexed>, candidates: seq<u64>, asked: bool,
                   indexes: seq<u64>)
    requires Selecting(bound, spent, marked, before, candidates)
    requires forall k :: 0 <= k < |indexes| ==> indexes[k] in candidates || (asked && indexes[k] == spent)
    ensures forall k :: 0 <= k < |indexes| && !asked ==> indexes[k] != spent
  {
  }

  lemma Unfinished(bound: u64, spent: u64, marked: set<u64>, before: seq<Indexed>, candidates: seq<u64>)
    requires Selecting(bound, spent, marked, before, candidates)
    ensures Selecting(bound, spent, marked, before, [])
    ensures forall j, k :: 0 <= j < |before| && 0 <= k < |candidates| ==> before[j].0 != candidates[k]
  {
  }

  lemma TakeOne(bound: u64, spent: u64, marked: set<u64>, all: seq<Indexed>, index: u64, output: Member)
    requires Selecting(bound, spent, marked, all, [])
    requires index in marked && index != spent && index < bound && Usable(output)
    requires forall j :: 0 <= j < |all| ==> all[j].0 != index
    ensures Selecting(bound, spent, marked, all + [(index, output)], [])
  {
  }

  // The indexes asked for are the candidates and, in the first round, the one being spent, each once.
  lemma IndexesAre(marked: set<u64>, bound: u64, spent: u64, before: seq<Indexed>, candidates: seq<u64>, asked: bool,
                   indexes: seq<u64>)
    requires Selecting(bound, spent, marked, before, candidates)
    requires indexes == if asked then Sort(Itself, candidates + [spent]) else candidates
    ensures Distinct(Itself, indexes)
    ensures |indexes| == |candidates| + (if asked then 1 else 0)
    ensures asked ==> spent in indexes
    ensures forall k :: 0 <= k < |indexes| ==> indexes[k] in candidates || (asked && indexes[k] == spent)
  {
    CandidatesDistinct(marked, bound, spent, before, candidates);
    hide Selecting, Distinct, Sort;
    if asked {
      SortedWith(candidates, spent);
    }
  }

  lemma SortedWith(candidates: seq<u64>, spent: u64)
    requires Distinct(Itself, candidates + [spent])
    ensures var sorted := Sort(Itself, candidates + [spent]);
            && Distinct(Itself, sorted) && |sorted| == |candidates| + 1 && spent in sorted
            && forall k :: 0 <= k < |sorted| ==> sorted[k] in candidates || sorted[k] == spent
  {
    hide Distinct, Sort, Itself;
    var all := candidates + [spent];
    SortKeeps(Itself, all);
    SortDistinct(Itself, all);
    assert all[|candidates|] == spent;
    IsSorted(Itself, all, spent);
    forall k | 0 <= k < |all|
      ensures Sort(Itself, all)[k] in candidates || Sort(Itself, all)[k] == spent
    {
      IsSorted(Itself, all, Sort(Itself, all)[k]);
    }
  }

  lemma CandidatesDistinct(marked: set<u64>, bound: u64, spent: u64, before: seq<Indexed>, candidates: seq<u64>)
    requires Selecting(bound, spent, marked, before, candidates)
    ensures Distinct(Itself, candidates) && Distinct(Itself, candidates + [spent])
  {
  }

  lemma CandidatesApart(marked: set<u64>, bound: u64, spent: u64, before: seq<Indexed>, candidates: seq<u64>, asked: bool,
                        indexes: seq<u64>)
    requires Selecting(bound, spent, marked, before, candidates)
    requires Distinct(Itself, indexes)
    requires forall k :: 0 <= k < |indexes| ==> indexes[k] in candidates || (asked && indexes[k] == spent)
    ensures forall j, k :: 0 <= j < k < |indexes| ==> indexes[j] != indexes[k]
    ensures forall j, k :: 0 <= j < |before| && 0 <= k < |indexes| ==> before[j].0 != indexes[k]
  {
    forall j, k | 0 <= j < k < |indexes|
      ensures indexes[j] != indexes[k]
    {
      assert Itself(indexes[j]) != Itself(indexes[k]);
    }
  }

  // A candidate is marked, is not the output being spent, and has not been taken.
  lemma CandidateIs(marked: set<u64>, bound: u64, spent: u64, before: seq<Indexed>, candidates: seq<u64>, index: u64)
    requires Selecting(bound, spent, marked, before, candidates) && index in candidates
    ensures index in marked && index != spent && index < bound
    ensures forall j :: 0 <= j < |before| ==> before[j].0 != index
  {
  }

  /** The node answers every request, with usable outputs, and knows the output being spent. */
  ghost predicate Cooperates(env: Environment, spent: Spent) {
    forall round, indexes ::
      && |env.outputs(round, indexes)| == |indexes|
      && forall i :: 0 <= i < |indexes| ==>
           && env.outputs(round, indexes)[i].Some?
           && if indexes[i] == spent.index then env.outputs(round, indexes)[i].value == spent.member
              else Usable(env.outputs(round, indexes)[i].value)
  }

  /** There is enough to select from. */
  ghost predicate Sufficient(env: Environment, ringLen: byte) {
    && DEFAULT_LOCK_WINDOW < env.blockNumber <= env.latestBlockNumber && env.Ascends()
    && |env.distribution| >= DEFAULT_LOCK_WINDOW && env.Bound() >= COINBASE_LOCK_WINDOW + ringLen
  }

  // All that a node which cooperates is asked for is taken.
  lemma CooperationTakes(env: Environment, round: nat, spent: Spent, marked: set<u64>, candidates: seq<u64>, asked: bool,
                         before: seq<Indexed>, bound: u64)
    requires Selecting(bound, spent.index, marked, before, candidates) && Cooperates(env, spent)
    ensures var indexes := Indexes(candidates, spent.index, asked);
            && Answers(env.outputs(round, indexes), indexes, spent)
            && |Taken(indexes, env.outputs(round, indexes), spent.index, |indexes|)| == |candidates|
  {
    hide Usable;
    var indexes := Indexes(candidates, spent.index, asked);
    IndexesAre(marked, bound, spent.index, before, candidates, asked, indexes);
    CandidatesApart(marked, bound, spent.index, before, candidates, asked, indexes);
    SpentAsked(marked, bound, spent.index, before, candidates, asked, indexes);
    hide Selecting, Distinct, Taken, Indexes, Sort;
    AllTaken(indexes, env.outputs(round, indexes), spent.index, |indexes|);
  }

  method SelectN(env: Environment, spent: Spent, ringLen: byte, ghost hits: nat -> u64)
    returns (res: Result<seq<Indexed>, InterfaceError>)
    requires ringLen > 0
    ensures res.Ok? ==> Sufficient(env, ringLen)
    ensures Sufficient(env, ringLen) && Lucky(env, spent.index, ringLen, hits) && Cooperates(env, spent) ==> res.Ok?
    ensures res.Ok? ==>
              && |env.distribution| >= DEFAULT_LOCK_WINDOW
              && |res.value| == ringLen - 1 && Distinct(IndexOf, res.value) && AllReturned(env, res.value)
              && forall i :: 0 <= i < |res.value| ==>
                   res.value[i].0 < env.Bound() && res.value[i].0 != spent.index && Usable(res.value[i].1)
  {
    if env.blockNumber <= DEFAULT_LOCK_WINDOW {
      return Err(InternalError);
    }
    if env.blockNumber > env.latestBlockNumber {
      return Err(InternalError);
    }
    var distribution := RingctOutputDistribution(env);
    if distribution.Err? {
      return Err(distribution.error);
    }
    if |distribution.value| < DEFAULT_LOCK_WINDOW {
      return Err(InternalError);
    }
    var bound := env.Bound();
    if (if bound < COINBASE_LOCK_WINDOW then 0 else bound - COINBASE_LOCK_WINDOW) < ringLen {
      return Err(InternalError);
    }
    var doNotSelect := {spent.index};
    var decoyCount := ringLen - 1;
    var selected: seq<Indexed> := [];
    var firstIter := true;
    var iters := 0;
    var round := 0;
    hide Selecting, Lucky, Cooperates, AllReturned, Taken, Answers;
    NoneSelected(bound, spent.index, env);
    ghost var easy := Lucky(env, spent.index, ringLen, hits) && Cooperates(env, spent);
    while |selected| != decoyCount
      invariant |selected| <= decoyCount && iters < 10 * ringLen
      invariant easy && |selected| != decoyCount ==> selected == [] && iters == 0 && doNotSelect == {spent.index}
      invariant Selecting(bound, spent.index, doNotSelect, selected, []) && AllReturned(env, selected)
      decreases 10 * ringLen - iters
    {
      var remaining := decoyCount - |selected|;
      var candidates;
      candidates, doNotSelect, iters := SelectCandidates(env, ringLen, spent.index, remaining, selected, doNotSelect, iters, hits);
      if candidates.None? {
        return Err(InternalError);
      }
      if easy {
        CooperationTakes(env, round, spent, doNotSelect, candidates.value, firstIter, selected, bound);
      }
      var taken := TakeOutputs(env, round, spent, doNotSelect, candidates.value, firstIter, selected, bound);
      if taken.Err? {
        return Err(taken.error);
      }
      selected := taken.value;
      firstIter := false;
      round := round + 1;
    }
    AllSelected(bound, spent.index, doNotSelect, selected);
    res := Ok(selected);
  }

  lemma NoneSelected(bound: u64, spent: u64, env: Environment)
    requires bound > 0
    ensures Selecting(bound, spent, {spent}, [], []) && AllReturned(env, [])
  {
  }

  lemma AllSelected(bound: u64, spent: u64, doNotSelect: set<u64>, selected: seq<Indexed>)
    requires Selecting(bound, spent, doNotSelect, selected, [])
    ensures Distinct(IndexOf, selected)
    ensures forall i :: 0 <= i < |selected| ==> selected[i].0 < bound && selected[i].0 != spent && Usable(selected[i].1)
  {
  }

  /** A decoy: an output the node gave, which is unlocked, can be used, and is not the one being spent. */
  ghost predicate IsDecoy(env: Environment, spent: Spent, output: Indexed)
    requires |env.distribution| >= DEFAULT_LOCK_WINDOW
  {
    output.0 < env.Bound() && output.0 != spent.index && Usable(output.1) && Returned(env, output)
  }

  /** The member at a position of the ring is a decoy, with the position's index. */
  ghost predicate DecoyAt(env: Environment, spent: Spent, made: Decoys, k: nat)
    requires |env.distribution| >= DEFAULT_LOCK_WINDOW
    requires k < |made.ring| == |made.offsets|
  {
    IsU64(Sum(made.offsets[..k + 1])) && IsDecoy(env, spent, (Sum(made.offsets[..k + 1]), made.ring[k]))
  }

  /** The ring: the decoys and the output being spent, in the order of their indexes. */
  method SelectDecoys(env: Environment, spent: Spent, ringLen: byte, ghost hits: nat -> u64)
    returns (res: Result<Decoys, InterfaceError>)
    ensures res.Ok? ==> ringLen > 0 && Sufficient(env, ringLen)
    ensures ringLen > 0 && Sufficient(env, ringLen) && Lucky(env, spent.index, ringLen, hits) && Cooperates(env, spent) ==> res.Ok?
    ensures res.Ok? ==>
              && res.value.Valid() && |res.value.ring| == ringLen && |env.distribution| >= DEFAULT_LOCK_WINDOW
              && res.value.ring[res.value.signerIndex] == spent.member
              && Sum(res.value.offsets[..res.value.signerIndex + 1]) == spent.index
              && forall k :: 0 <= k < ringLen && k != res.value.signerIndex ==>
                   DecoyAt(env, spent, res.value, k)
  {
    if ringLen == 0 {
      return Err(InternalError);
    }
    hide Lucky, Cooperates;
    var decoys := SelectN(env, spent, ringLen, hits);
    if decoys.Err? {
      return Err(decoys.error);
    }
    var ring := Sort(IndexOf, decoys.value + [(spent.index, spent.member)]);
    RingSorted(decoys.value, spent, ring);
    RingDecoys(env, decoys.value, spent, ring);
    hide Sum, IsDecoy, Returned, AllReturned, Distinct, Sort, Usable;
    var made := FormRing(ring, spent.index);
    res := Ok(made);
    AtPosition(env, spent, ring, made);
  }

  lemma AtPosition(env: Environment, spent: Spent, ring: seq<Indexed>, made: Decoys)
    requires |env.distribution| >= DEFAULT_LOCK_WINDOW
    requires Represents(made, ring)
    requires forall k :: 0 <= k < |ring| && ring[k].0 != spent.index ==> IsDecoy(env, spent, ring[k])
    requires forall k :: 0 <= k < |ring| && k != made.signerIndex ==> ring[k].0 != spent.index
    ensures forall k :: 0 <= k < |ring| && k != made.signerIndex ==>
              DecoyAt(env, spent, made, k)
  {
    hide Sum, IsDecoy;
    forall k | 0 <= k < |ring| && k != made.signerIndex
      ensures DecoyAt(env, spent, made, k)
    {
      assert ring[k] == (Sum(made.offsets[..k + 1]), made.ring[k]);
    }
  }

  /** The positions are the indexes, and the members those at them. */
  ghost predicate Represents(made: Decoys, ring: seq<Indexed>) {
    && |made.ring| == |made.offsets| == |ring|
    && forall k :: 0 <= k < |ring| ==> Sum(made.offsets[..k + 1]) == ring[k].0 && made.ring[k] == ring[k].1
  }

  method FormRing(ring: seq<Indexed>, spent: u64) returns (made: Decoys)
    requires 0 < |ring| < 256 && forall i, j :: 0 <= i < j < |ring| ==> ring[i].0 < ring[j].0
    requires exists k :: 0 <= k < |ring| && ring[k].0 == spent
    ensures made.Valid() && Represents(made, ring) && ring[made.signerIndex].0 == spent
    ensures forall k :: 0 <= k < |ring| && k != made.signerIndex ==> ring[k].0 != spent
  {
    hide Sum;
    var offsets := RingOffsets(ring);
    var signerIndex := SignerPosition(ring, spent, 0);
    var members := seq(|ring|, i requires 0 <= i < |ring| => ring[i].1);
    var res := New(offsets, signerIndex, members);
    made := res.value;
  }

  predicate IsU64(n: int) {
    0 <= n <= U64_MAX
  }

  // All in the ring but the output being spent are decoys.
  lemma RingDecoys(env: Environment, decoys: seq<Indexed>, spent: Spent, ring: seq<Indexed>)
    requires |env.distribution| >= DEFAULT_LOCK_WINDOW
    requires ring == Sort(IndexOf, decoys + [(spent.index, spent.member)])
    requires forall i :: 0 <= i < |decoys| ==> IsDecoy(env, spent, decoys[i])
    ensures forall k :: 0 <= k < |ring| && ring[k].0 != spent.index ==> IsDecoy(env, spent, ring[k])
  {
    hide IsDecoy;
    forall k | 0 <= k < |ring| && ring[k].0 != spent.index
      ensures IsDecoy(env, spent, ring[k])
    {
      IsSorted(IndexOf, decoys + [(spent.index, spent.member)], ring[k]);
      assert ring[k] in decoys;
    }
  }

  /** The positions of a ring, as offsets. */
  method RingOffsets(ring: seq<Indexed>) returns (offsets: seq<u64>)
    requires ring != [] && forall i, j :: 0 <= i < j < |ring| ==> ring[i].0 < ring[j].0
    ensures |offsets| == |ring| && Representable(offsets)
    ensures forall i :: 0 <= i < |ring| ==> Sum(offsets[..i + 1]) == ring[i].0
  {
    offsets := [ring[0].0];
    for m := 1 to |ring|
      invariant |offsets| == m
      invariant forall k :: 0 <= k < m ==> offsets[k] == if k == 0 then ring[0].0 else ring[k].0 - ring[k - 1].0
    {
      offsets := offsets + [ring[m].0 - ring[m - 1].0];
    }
    OffsetsOfRing(ring, offsets);
  }

  lemma OffsetsOfRing(ring: seq<Indexed>, offsets: seq<u64>)
    requires ring != [] && forall i, j :: 0 <= i < j < |ring| ==> ring[i].0 < ring[j].0
    requires |offsets| == |ring|
    requires forall k :: 0 <= k < |ring| ==> offsets[k] == if k == 0 then ring[0].0 else ring[k].0 - ring[k - 1].0
    ensures Representable(offsets)
    ensures forall i :: 0 <= i < |ring| ==> Sum(offsets[..i + 1]) == ring[i].0
  {
    hide Sum;
    var positions: seq<u64> := seq(|ring|, i requires 0 <= i < |ring| => ring[i].0);
    var sums: seq<int> := OffsetsOf(positions);
    OffsetsRepresentPositions(positions);
    forall k | 0 <= k < |ring|
      ensures offsets[k] == sums[k]
    {
      assert positions[k] == ring[k].0;
      if k > 0 { assert positions[k - 1] == ring[k - 1].0; }
      assert sums[k] == if k == 0 then positions[0] else positions[k] - positions[k - 1];
      assert offsets[k] == if k == 0 then ring[0].0 else ring[k].0 - ring[k - 1].0;
    }
    assert offsets == sums;
    forall i | 0 <= i < |ring|
      ensures Sum(offsets[..i + 1]) == ring[i].0
    {
      assert positions[i] == ring[i].0;
      assert Sum(sums[..i + 1]) == positions[i];
    }
  }

  /** How many of the ring have a smaller index. */
  function SignerPosition(ring: seq<Indexed>, spent: u64, from: nat): (i: nat)
    requires from <= |ring|
    requires exists k :: from <= k < |ring| && ring[k].0 == spent
    ensures from <= i < |ring| && ring[i].0 >= spent
    ensures forall j :: from <= j < i ==> ring[j].0 < spent
    decreases |ring| - from
  {
    if ring[from].0 >= spent then from else SignerPosition(ring, spent, from + 1)
  }

  lemma RingSorted(decoys: seq<Indexed>, spent: Spent, ring: seq<Indexed>)
    requires Distinct(IndexOf, decoys) && forall i :: 0 <= i < |decoys| ==> decoys[i].0 != spent.index
    requires ring == Sort(IndexOf, decoys + [(spent.index, spent.member)])
    ensures |ring| == |decoys| + 1
    ensures forall i, j :: 0 <= i < j < |ring| ==> ring[i].0 < ring[j].0
    ensures exists k :: 0 <= k < |ring| && ring[k].0 == spent.index
    ensures forall k :: 0 <= k < |ring| && ring[k].0 == spent.index ==> ring[k].1 == spent.member
  {
    var all := decoys + [(spent.index, spent.member)];
    SortKeeps(IndexOf, all);
    SortAscends(IndexOf, all);
    SortDistinct(IndexOf, all);
    assert all[|decoys|] == (spent.index, spent.member);
    IsSorted(IndexOf, all, (spent.index, spent.member));
    forall k | 0 <= k < |ring| && ring[k].0 == spent.index
      ensures ring[k].1 == spent.member
    {
      IsSorted(IndexOf, all, ring[k]);
    }
    forall i, j | 0 <= i < j < |ring|
      ensures ring[i].0 < ring[j].0
    {
      assert IndexOf(ring[i]) <= IndexOf(ring[j]) && IndexOf(ring[i]) != IndexOf(ring[j]);
    }
  }
}
