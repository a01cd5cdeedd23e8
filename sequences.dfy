/** Element-wise images of sequences, and their behaviour under permutation. */
module Sequences {
  function MapSeq<A, B>(f: A -> B, s: seq<A>): (r: seq<B>)
    ensures |r| == |s|
    ensures forall i | 0 <= i < |s| :: r[i] == f(s[i])
  {
    seq(|s|, i requires 0 <= i < |s| => f(s[i]))
  }

  lemma AppendAssoc<T>(a: seq<T>, b: seq<T>, c: seq<T>)
    ensures (a + b) + c == a + (b + c)
  {
  }

  /** Appending in two steps: `all` is `before` then `here` then `rest`, and `after` is `before` then `here`. */
  lemma AppendStep<T>(all: seq<T>, before: seq<T>, here: seq<T>, rest: seq<T>, after: seq<T>)
    requires all == before + (here + rest)
    requires after == before + here
    ensures all == after + rest
  {
    AppendAssoc(before, here, rest);
  }

  lemma MapSeqConcat<A, B>(f: A -> B, a: seq<A>, b: seq<A>)
    ensures MapSeq(f, a + b) == MapSeq(f, a) + MapSeq(f, b)
  {
    assert forall i | 0 <= i < |b| :: (a + b)[|a| + i] == b[i];
  }

  /** Cutting the element at `j` out of `s` removes one occurrence from its multiset. */
  lemma RemoveAt<A>(s: seq<A>, j: nat)
    requires j < |s|
    ensures multiset(s[..j] + s[j + 1..]) == multiset(s) - multiset{s[j]}
  {
    assert s == s[..j] + [s[j]] + s[j + 1..];
  }

  /** The image of a sequence with the element at `j` cut out. */
  lemma MapSeqRemoveAt<A, B>(f: A -> B, s: seq<A>, j: nat)
    requires j < |s|
    ensures multiset(MapSeq(f, s)) == multiset(MapSeq(f, s[..j] + s[j + 1..])) + multiset{f(s[j])}
  {
    assert s == s[..j] + [s[j]] + s[j + 1..];
    MapSeqConcat(f, s[..j], [s[j]]);
    MapSeqConcat(f, s[..j] + [s[j]], s[j + 1..]);
    MapSeqConcat(f, s[..j], s[j + 1..]);
  }

  /** Rearranging a sequence rearranges its image the same way. */
  lemma {:induction false} MapSeqPermutation<A, B>(f: A -> B, a: seq<A>, b: seq<A>)
    requires multiset(a) == multiset(b)
    ensures multiset(MapSeq(f, a)) == multiset(MapSeq(f, b))
    decreases |a|
  {
    if a == [] {
      assert |b| == |multiset(b)| == 0;
    } else {
      var x := a[0];
      assert x in multiset(b);
      var j :| 0 <= j < |b| && b[j] == x;
      var a', b' := a[1..], b[..j] + b[j + 1..];
      assert a == [x] + a';
      RemoveAt(b, j);
      MapSeqPermutation(f, a', b');
      MapSeqConcat(f, [x], a');
      assert MapSeq(f, [x]) == [f(x)];
      assert MapSeq(f, a) == [f(x)] + MapSeq(f, a');
      MapSeqRemoveAt(f, b, j);
      assert multiset(MapSeq(f, b)) == multiset(MapSeq(f, b')) + multiset{f(x)};
    }
  }
}
