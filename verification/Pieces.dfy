/** Byte strings which are made of pieces of thirty-two bytes, as what is hashed is. */
module Pieces {
  import opened Wrappers

  function Flat(list: seq<seq<byte>>): seq<byte> {
    if list == [] then [] else list[0] + Flat(list[1..])
  }

  ghost predicate AllOf32(list: seq<seq<byte>>) {
    forall i :: 0 <= i < |list| ==> |list[i]| == 32
  }

  lemma {:induction false} FlatConcat(a: seq<seq<byte>>, b: seq<seq<byte>>)
    ensures Flat(a + b) == Flat(a) + Flat(b)
  {
    if a == [] {
      assert a + b == b;
    } else {
      assert (a + b)[1..] == a[1..] + b;
      FlatConcat(a[1..], b);
    }
  }

  lemma FlatFew(a: seq<byte>, b: seq<byte>, c: seq<byte>, d: seq<byte>)
    ensures Flat([a]) == a && Flat([a, b, c]) == a + b + c && Flat([a, b, c, d]) == a + b + c + d
  {
    assert [a, b, c, d][1..] == [b, c, d] && [a, b, c][1..] == [b, c] && [b, c, d][1..] == [c, d];
    assert [b, c][1..] == [c] && [c, d][1..] == [d] && [a][1..] == [] && [c][1..] == [] && [d][1..] == [];
    assert Flat([c]) == c && Flat([d]) == d;
    assert Flat([b, c]) == b + c && Flat([c, d]) == c + d;
    assert Flat([b, c, d]) == b + (c + d);
  }

  // Pieces of thirty-two bytes can be told from what they make together.
  lemma {:induction false} FlatBinds(a: seq<seq<byte>>, b: seq<seq<byte>>)
    requires AllOf32(a) && AllOf32(b) && Flat(a) == Flat(b)
    ensures a == b
  {
    if a != [] && b != [] {
      assert Flat(a)[..32] == a[0] && Flat(b)[..32] == b[0];
      assert Flat(a)[32..] == Flat(a[1..]) && Flat(b)[32..] == Flat(b[1..]);
      FlatBinds(a[1..], b[1..]);
      assert a == [a[0]] + a[1..] && b == [b[0]] + b[1..];
    }
  }

  lemma PiecesBind<T>(a: seq<T>, k: seq<T>, m: seq<T>, t: seq<T>, a': seq<T>, k': seq<T>, m': seq<T>, t': seq<T>)
    requires a + k + m + t == a' + k' + m' + t' && |a| == |a'| && |k| == |k'| && |m| == |m'|
    ensures a == a' && k == k' && m == m' && t == t'
  {
    assert a == (a + k + m + t)[..|a|] && a' == (a' + k' + m' + t')[..|a|];
    assert k == (a + k + m + t)[|a|..|a| + |k|] && k' == (a' + k' + m' + t')[|a|..|a| + |k|];
    var i := |a| + |k|;
    assert m == (a + k + m + t)[i..i + |m|] && m' == (a' + k' + m' + t')[i..i + |m|];
    assert t == (a + k + m + t)[i + |m|..] && t' == (a' + k' + m' + t')[i + |m|..];
  }
}
