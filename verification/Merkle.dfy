/** src/merkle.rs: the Merkle root of any number of leaves, computed in place. */
module Merkle {
  import opened Wrappers
  import opened PowersOfTwo
  import opened Vectors

  type Hash = seq<byte>

  type Pair = (Hash, Hash) -> Hash

  // ---------------------------------------------------------------------------------------------
  // The definition: leaves are paired off until a power of two is left, which makes a perfect tree.

  /** Neighbours paired off. */
  function PairUp(pair: Pair, list: seq<Hash>): (r: seq<Hash>)
    ensures |r| == |list| / 2
    ensures forall i :: 0 <= i < |r| ==> r[i] == pair(list[2 * i], list[2 * i + 1])
  {
    seq(|list| / 2, i requires 0 <= i < |list| / 2 => pair(list[2 * i], list[2 * i + 1]))
  }

  /** The root of a perfect tree: its halves' roots, paired. */
  function Tree(pair: Pair, list: seq<Hash>, height: nat): Hash
    requires |list| == Pow2(height)
  {
    if height == 0 then list[0]
    else
      var half := Pow2(height - 1);
      pair(Tree(pair, list[..half], height - 1), Tree(pair, list[half..], height - 1))
  }

  /** The list reduced to `low` entries by pairing off its last ones. */
  function Merge(pair: Pair, list: seq<Hash>, low: nat): (r: seq<Hash>)
    requires low <= |list| <= 2 * low
    ensures |r| == low
  {
    var start := 2 * low - |list|;
    list[..start] + PairUp(pair, list[start..])
  }

  /** The exponent of the largest power of two which is at most `n`. */
  function Log(n: nat): (k: nat)
    requires n > 0
    ensures Pow2(k) <= n < Pow2(k + 1)
    decreases n
  {
    if n == 1 then 0 else LogHalf(n); 1 + Log(n / 2)
  }

  lemma LogHalf(n: nat)
    requires n > 1
    ensures forall k: nat :: Pow2(k) <= n / 2 < Pow2(k + 1) ==> Pow2(k + 1) <= n < Pow2(k + 2)
  {
    forall k: nat | Pow2(k) <= n / 2 < Pow2(k + 1)
      ensures Pow2(k + 1) <= n < Pow2(k + 2)
    {
      Pow2Next(k);
      Pow2Next(k + 1);
    }
  }

  function Root(pair: Pair, leaves: seq<Hash>): (root: Option<Hash>)
    ensures root.None? <==> leaves == []
  {
    if leaves == [] then None
    else
      var height := Log(|leaves|);
      Some(Tree(pair, Merge(pair, leaves, Pow2(height)), height))
  }

  lemma TreeStep(pair: Pair, list: seq<Hash>, height: nat)
    requires height > 0 && |list| == Pow2(height)
    ensures var half := Pow2(height - 1);
            && |list| == 2 * half && |list[..half]| == |list[half..]| == half
            && Tree(pair, list, height) == pair(Tree(pair, list[..half], height - 1), Tree(pair, list[half..], height - 1))
  {
  }

  lemma TreeOfOne(pair: Pair, list: seq<Hash>)
    requires |list| == 1
    ensures Pow2(0) == 1 && Tree(pair, list, 0) == list[0]
  {
  }

  lemma PairUpSplit(pair: Pair, list: seq<Hash>, cut: nat)
    requires 2 * cut <= |list|
    ensures PairUp(pair, list)[..cut] == PairUp(pair, list[..2 * cut])
    ensures PairUp(pair, list)[cut..] == PairUp(pair, list[2 * cut..])
  {
    hide PairUp;
    forall i | cut <= i < |list| / 2
      ensures PairUp(pair, list)[i] == PairUp(pair, list[2 * cut..])[i - cut]
    {
      assert list[2 * cut..][2 * (i - cut)] == list[2 * i] && list[2 * cut..][2 * (i - cut) + 1] == list[2 * i + 1];
    }
  }

  // A perfect tree is reduced by pairing off all of its leaves.
  lemma {:induction false} TreeOfPairs(pair: Pair, list: seq<Hash>, height: nat)
    requires height > 0 && |list| == Pow2(height)
    ensures |PairUp(pair, list)| == Pow2(height - 1)
    ensures Tree(pair, PairUp(pair, list), height - 1) == Tree(pair, list, height)
    decreases height
  {
    hide PairUp, Tree, Pow2;
    TreeStep(pair, list, height);
    var half := Pow2(height - 1);
    if height == 1 {
      TreeOfOne(pair, list[..1]);
      TreeOfOne(pair, list[1..]);
      TreeOfOne(pair, PairUp(pair, list));
    } else {
      Pow2Next(height - 2);
      TreeOfPairs(pair, list[..half], height - 1);
      TreeOfPairs(pair, list[half..], height - 1);
      PairUpSplit(pair, list, half / 2);
      TreeStep(pair, PairUp(pair, list), height - 1);
    }
  }

  // The reduction to half of a power of two keeps the tree.
  lemma HalvedTree(pair: Pair, list: seq<Hash>, height: nat)
    requires height > 0 && |list| == Pow2(height)
    ensures Pow2(height) == 2 * Pow2(height - 1)
    ensures Tree(pair, Merge(pair, list, Pow2(height)), height) == Tree(pair, Merge(pair, list, Pow2(height - 1)), height - 1)
  {
    hide PairUp, Tree, Pow2, Merge;
    Pow2Next(height - 1);
    MergeNone(pair, list);
    TreeOfPairs(pair, list, height);
    MergeAll(pair, list, Pow2(height - 1));
  }

  lemma MergeAll(pair: Pair, list: seq<Hash>, low: nat)
    requires |list| == 2 * low
    ensures Merge(pair, list, low) == PairUp(pair, list)
  {
    assert list[0..] == list;
  }

  lemma MergeNone(pair: Pair, list: seq<Hash>)
    ensures Merge(pair, list, |list|) == list
  {
  }

  // ---------------------------------------------------------------------------------------------
  // The computation in place.

  lemma MergeAt(pair: Pair, list: seq<Hash>, low: nat, k: nat)
    requires low <= |list| <= 2 * low && k < low
    ensures var start := 2 * low - |list|;
            Merge(pair, list, low)[k] ==
            if k < start then list[k] else pair(list[start + 2 * (k - start)], list[start + 2 * (k - start) + 1])
  {
  }

  /** Pairs off the last leaves, each pair written over leaves which have been read. */
  method PairOff(pair: Pair, leaves: array<Hash>, len: nat, low: nat)
    requires low <= len <= 2 * low && len <= leaves.Length
    modifies leaves
    ensures leaves[..low] == Merge(pair, old(leaves[..len]), low)
  {
    hide Merge, PairUp;
    ghost var list := leaves[..len];
    var overage := len - low;
    var start := low - overage;
    for i := 0 to overage
      invariant forall k :: 0 <= k < start || start + 2 * i <= k < len ==> leaves[k] == list[k]
      invariant forall k :: 0 <= k < i ==> leaves[start + k] == pair(list[start + 2 * k], list[start + 2 * k + 1])
    {
      var left := leaves[start + 2 * i];
      var right := leaves[start + 2 * i + 1];
      leaves[start + i] := pair(left, right);
    }
    forall k | 0 <= k < low
      ensures leaves[..low][k] == Merge(pair, list, low)[k]
    {
      MergeAt(pair, list, low, k);
      if k >= start {
        assert leaves[start + (k - start)] == pair(list[start + 2 * (k - start)], list[start + 2 * (k - start) + 1]);
      }
    }
  }

  /** The general case: down to one leaf, through powers of two. */
  method Reduce(pair: Pair, leaves: array<Hash>, lowPow2: nat, ghost initialHeight: nat)
    requires lowPow2 == Pow2(initialHeight) && lowPow2 <= leaves.Length < 2 * lowPow2
    modifies leaves
    ensures leaves.Length > 0
    ensures leaves[0] == Tree(pair, Merge(pair, old(leaves[..]), lowPow2), initialHeight)
  {
    hide Tree, Pow2, Merge, PairUp;
    ghost var list, height := leaves[..], initialHeight;
    var low := lowPow2;
    var len := leaves.Length;
    assert leaves[..len] == list;
    while len != 1
      invariant low == Pow2(height) && 0 < low <= len <= leaves.Length && len < 2 * low
      invariant Tree(pair, Merge(pair, leaves[..len], low), height) == Tree(pair, Merge(pair, list, lowPow2), initialHeight)
      decreases len
    {
      if len == low {
        PositiveHeight(height);
        HalvedTree(pair, leaves[..len], height);
        low := low / 2;
        height := height - 1;
      }
      PairOff(pair, leaves, len, low);
      len := low;
      MergeNone(pair, leaves[..len]);
    }
    OnlyLeaf(pair, leaves[..1], height);
  }

  method MerkleRoot(pair: Pair, leaves: array<Hash>) returns (root: Option<Hash>)
    modifies leaves
    ensures root == Root(pair, old(leaves[..]))
  {
    hide Root, Log, Tree, Merge, Pow2;
    ghost var list := leaves[..];
    if leaves.Length == 0 {
      EmptyRoot(pair);
      return None;
    }
    if leaves.Length == 1 {
      SmallRoots(pair, list);
      return Some(leaves[0]);
    }
    if leaves.Length == 2 {
      SmallRoots(pair, list);
      return Some(pair(leaves[0], leaves[1]));
    }
    RootIs(pair, list);
    Pow2Next(Log(leaves.Length));
    Reduce(pair, leaves, Pow2(Log(leaves.Length)), Log(leaves.Length));
    root := Some(leaves[0]);
  }

  lemma EmptyRoot(pair: Pair)
    ensures Root(pair, []) == None
  {
  }

  lemma RootIs(pair: Pair, leaves: seq<Hash>)
    requires leaves != []
    ensures var height := Log(|leaves|);
            && Pow2(height) <= |leaves| <= 2 * Pow2(height)
            && Root(pair, leaves) == Some(Tree(pair, Merge(pair, leaves, Pow2(height)), height))
  {
    Pow2Next(Log(|leaves|));
  }

  lemma PositiveHeight(height: nat)
    requires Pow2(height) != 1
    ensures height > 0
  {
  }

  lemma SmallRoots(pair: Pair, list: seq<Hash>)
    requires 1 <= |list| <= 2
    ensures Root(pair, list) == Some(if |list| == 1 then list[0] else pair(list[0], list[1]))
  {
    hide Tree, Merge;
    RootIs(pair, list);
    assert Log(1) == 0 && Log(2) == 1 + Log(1);
    SmallPowers();
    MergeNone(pair, list);
    if |list| == 2 {
      TreeStep(pair, list, 1);
      TreeOfOne(pair, list[..1]);
      TreeOfOne(pair, list[1..]);
    } else {
      TreeOfOne(pair, list);
    }
  }

  lemma OnlyLeaf(pair: Pair, list: seq<Hash>, height: nat)
    requires |list| == 1 && Pow2(height) <= 1
    ensures Tree(pair, Merge(pair, list, Pow2(height)), height) == list[0]
  {
    assert height == 0;
    MergeNone(pair, list);
  }

  // ---------------------------------------------------------------------------------------------
  // Every leaf has its place under the root.

  /** What a branch is paired with, on the left or on the right. */
  datatype Sibling = Sibling(hash: Hash, left: bool)

  /** The root above a branch, by what it and those above it are paired with. */
  function Climb(pair: Pair, branch: Hash, path: seq<Sibling>): Hash
    decreases |path|
  {
    if path == [] then branch
    else Climb(pair, if path[0].left then pair(path[0].hash, branch) else pair(branch, path[0].hash), path[1..])
  }

  /** The place on its level at which a path begins. */
  function Place(path: seq<Sibling>): nat {
    if path == [] then 0 else (if path[0].left then 1 else 0) + 2 * Place(path[1..])
  }

  lemma {:induction false} OneHigher(pair: Pair, branch: Hash, path: seq<Sibling>, top: Sibling)
    ensures var root := Climb(pair, branch, path);
            Climb(pair, branch, path + [top]) == if top.left then pair(top.hash, root) else pair(root, top.hash)
    ensures Place(path + [top]) == Place(path) + Pow2(|path|) * (if top.left then 1 else 0)
    decreases |path|
  {
    if path != [] {
      assert (path + [top])[1..] == path[1..] + [top];
      OneHigher(pair, if path[0].left then pair(path[0].hash, branch) else pair(branch, path[0].hash), path[1..], top);
    } else {
      assert path + [top] == [top] && [top][1..] == [];
    }
  }

  lemma {:induction false} TreePath(pair: Pair, list: seq<Hash>, height: nat, i: nat) returns (path: seq<Sibling>)
    requires |list| == Pow2(height) && i < |list|
    ensures |path| == height && Place(path) == i && Climb(pair, list[i], path) == Tree(pair, list, height)
    decreases height
  {
    hide Pow2, Tree;
    path := [];
    if height == 0 {
      SmallPowers();
      TreeOfOne(pair, list);
    } else {
      TreeStep(pair, list, height);
      var half := Pow2(height - 1);
      if i < half {
        path := TreePath(pair, list[..half], height - 1, i);
        var top := Sibling(Tree(pair, list[half..], height - 1), false);
        OneHigher(pair, list[i], path, top);
        path := path + [top];
      } else {
        path := TreePath(pair, list[half..], height - 1, i - half);
        var top := Sibling(Tree(pair, list[..half], height - 1), true);
        OneHigher(pair, list[i], path, top);
        path := path + [top];
      }
    }
  }

  // The first leaves are on the level of the largest power of two, in their places; the others are one level lower,
  // in the places after those which the first ones leave out there.
  lemma LeafIsUnderRoot(pair: Pair, leaves: seq<Hash>, height: nat, i: nat) returns (path: seq<Sibling>)
    requires Pow2(height) <= |leaves| < Pow2(height + 1) && i < |leaves|
    ensures Root(pair, leaves) == Some(Climb(pair, leaves[i], path))
    ensures var first := 2 * Pow2(height) - |leaves|;
            && |path| == (if i < first then height else height + 1)
            && Place(path) == if i < first then i else i + first
  {
    hide Pow2, Tree, Merge, Log, Root;
    Pow2Positive(height);
    LogIs(|leaves|, height);
    RootIs(pair, leaves);
    var low := Pow2(height);
    var first := 2 * low - |leaves|;
    var merged := Merge(pair, leaves, low);
    if i < first {
      MergeAt(pair, leaves, low, i);
      path := TreePath(pair, merged, height, i);
    } else {
      var k := first + (i - first) / 2;
      MergeAt(pair, leaves, low, k);
      var above := TreePath(pair, merged, height, k);
      var left := (i - first) % 2 == 1;
      path := [Sibling(leaves[if left then i - 1 else i + 1], left)] + above;
      assert path[1..] == above;
    }
  }

  // ---------------------------------------------------------------------------------------------
  // A root binds its leaves, if their number is known.

  ghost predicate Injective(pair: Pair) {
    forall a, b, c, d :: pair(a, b) == pair(c, d) ==> a == c && b == d
  }

  lemma {:induction false} TreeBinds(pair: Pair, a: seq<Hash>, b: seq<Hash>, height: nat)
    requires Injective(pair)
    requires |a| == |b| == Pow2(height) && Tree(pair, a, height) == Tree(pair, b, height)
    ensures a == b
    decreases height
  {
    if height > 0 {
      var half := Pow2(height - 1);
      TreeBinds(pair, a[..half], b[..half], height - 1);
      TreeBinds(pair, a[half..], b[half..], height - 1);
      assert a == a[..half] + a[half..] && b == b[..half] + b[half..];
    }
  }

  lemma MergeBinds(pair: Pair, a: seq<Hash>, b: seq<Hash>, low: nat)
    requires Injective(pair)
    requires |a| == |b| && low <= |a| <= 2 * low && Merge(pair, a, low) == Merge(pair, b, low)
    ensures a == b
  {
    var start := 2 * low - |a|;
    var m, n := Merge(pair, a, low), Merge(pair, b, low);
    forall k | 0 <= k < start
      ensures a[k] == b[k]
    {
      assert m[k] == a[k] && n[k] == b[k];
    }
    forall i | 0 <= i < |a| - low
      ensures a[start + 2 * i] == b[start + 2 * i] && a[start + 2 * i + 1] == b[start + 2 * i + 1]
    {
      assert m[start + i] == pair(a[start + 2 * i], a[start + 2 * i + 1]);
      assert n[start + i] == pair(b[start + 2 * i], b[start + 2 * i + 1]);
    }
    forall k | start <= k < |a|
      ensures a[k] == b[k]
    {
      var i := (k - start) / 2;
      assert k == start + 2 * i || k == start + 2 * i + 1;
    }
  }

  lemma RootBinds(pair: Pair, a: seq<Hash>, b: seq<Hash>)
    requires Injective(pair)
    requires |a| == |b| && Root(pair, a) == Root(pair, b)
    ensures a == b
  {
    if a != [] {
      var height := Log(|a|);
      TreeBinds(pair, Merge(pair, a, Pow2(height)), Merge(pair, b, Pow2(height)), height);
      MergeBinds(pair, a, b, Pow2(height));
    }
  }

  // Without the number of leaves it does not: branches can be claimed to be leaves.

  lemma {:induction false} LogIs(n: nat, k: nat)
    requires Pow2(k) <= n < Pow2(k + 1)
    ensures n > 0 && Log(n) == k
  {
    hide Log, Pow2;
    Pow2Positive(k);
    var j := Log(n);
    if j < k {
      Pow2Grows(j + 1, k);
    } else if k < j {
      Pow2Grows(k + 1, j);
    }
  }

  lemma {:induction false} Pow2Grows(j: nat, k: nat)
    requires j <= k
    ensures Pow2(j) <= Pow2(k)
  {
    if j < k {
      Pow2Grows(j, k - 1);
    }
  }

  lemma Pow2Positive(k: nat)
    ensures Pow2(k) >= 1
  {
  }

  /** The first two of the leaves which are paired off, already paired. */
  function PairedOnce(pair: Pair, list: seq<Hash>, low: nat): (r: seq<Hash>)
    requires low < |list| <= 2 * low
    ensures |r| == |list| - 1
  {
    var start := 2 * low - |list|;
    list[..start] + [pair(list[start], list[start + 1])] + list[start + 2..]
  }

  lemma PairUpFirst(pair: Pair, list: seq<Hash>)
    requires |list| >= 2
    ensures PairUp(pair, list) == [pair(list[0], list[1])] + PairUp(pair, list[2..])
  {
    PairUpSplit(pair, list, 1);
    hide PairUp;
    assert PairUp(pair, list) == [PairUp(pair, list)[0]] + PairUp(pair, list)[1..];
  }

  lemma MergePairedOnce(pair: Pair, list: seq<Hash>, low: nat)
    requires low < |list| <= 2 * low
    ensures Merge(pair, PairedOnce(pair, list, low), low) == Merge(pair, list, low)
  {
    hide PairUp;
    var start := 2 * low - |list|;
    var fewer := PairedOnce(pair, list, low);
    var tail := list[start..];
    PairUpFirst(pair, tail);
    var first := [pair(list[start], list[start + 1])];
    assert tail[2..] == list[start + 2..];
    assert fewer[start + 1..] == list[start + 2..] && fewer[..start + 1] == list[..start] + first;
    assert list[..start] + first + PairUp(pair, tail[2..]) == list[..start] + (first + PairUp(pair, tail[2..]));
  }

  // The root by way of the largest power of two below the number of leaves.
  lemma RootBelow(pair: Pair, list: seq<Hash>) returns (height: nat)
    requires |list| > 1
    ensures Pow2(height) < |list| <= Pow2(height + 1) == 2 * Pow2(height)
    ensures Root(pair, list) == Some(Tree(pair, Merge(pair, list, Pow2(height)), height))
  {
    hide Tree, Merge, Pow2, Log, Root;
    RootIs(pair, list);
    height := Log(|list|);
    Pow2Next(height);
    if Pow2(height) == |list| {
      PositiveHeight(height);
      HalvedTree(pair, list, height);
      height := height - 1;
      Pow2Positive(height);
    }
  }

  lemma OneFewer(pair: Pair, b: seq<Hash>) returns (a: seq<Hash>)
    requires |b| > 1
    ensures |a| == |b| - 1 && Root(pair, a) == Root(pair, b)
  {
    hide Tree, Merge, Pow2, Log, Root;
    var height := RootBelow(pair, b);
    a := PairedOnce(pair, b, Pow2(height));
    MergePairedOnce(pair, b, Pow2(height));
    LogIs(|a|, height);
    RootIs(pair, a);
  }

  // Every list shares its root with a list of every smaller number of leaves.
  lemma {:induction false} FewerLeaves(pair: Pair, b: seq<Hash>, m: nat) returns (a: seq<Hash>)
    requires 1 <= m <= |b|
    ensures |a| == m && Root(pair, a) == Root(pair, b)
    decreases |b|
  {
    if m == |b| {
      a := b;
    } else {
      var fewer := OneFewer(pair, b);
      a := FewerLeaves(pair, fewer, m);
    }
  }

  /** Lists of these numbers of leaves have one root only if they are the same. */
  ghost predicate Binds(pair: Pair, m: nat, n: nat) {
    forall a, b :: |a| == m && |b| == n && Root(pair, a) == Root(pair, b) ==> a == b
  }

  // A root binds the leaves exactly if it is known how many they are.
  lemma BindsIffCounted(pair: Pair, m: nat, n: nat)
    requires Injective(pair) && m > 0 && n > 0
    ensures Binds(pair, m, n) <==> m == n
  {
    hide Root, Injective;
    if m == n {
      forall a, b | |a| == m && |b| == n && Root(pair, a) == Root(pair, b)
        ensures a == b
      {
        RootBinds(pair, a, b);
      }
    } else {
      var some := seq(if m < n then n else m, _ => []);
      var fewer := FewerLeaves(pair, some, if m < n then m else n);
      var a, b := if m < n then fewer else some, if m < n then some else fewer;
      assert |a| == m && |b| == n && Root(pair, a) == Root(pair, b);
    }
  }
}
