/** Facts about sequences and permutations that more than one module needs. */
module Sequences {
  /** The head of one sequence sits somewhere in any permutation of it. */
  lemma SplitAtHead<T>(xs: seq<T>, ys: seq<T>) returns (k: nat)
    requires xs != [] && multiset(xs) == multiset(ys)
    ensures k < |ys| && ys[k] == xs[0] && ys == ys[..k] + [xs[0]] + ys[k + 1..]
    ensures multiset(xs[1..]) == multiset(ys[..k] + ys[k + 1..])
  {
    assert xs == [xs[0]] + xs[1..];
    assert xs[0] in multiset(ys);
    k :| 0 <= k < |ys| && ys[k] == xs[0];
    var a, b := ys[..k], ys[k + 1..];
    assert ys == a + [xs[0]] + b;
    assert multiset(ys) == multiset{xs[0]} + multiset(a + b);
    assert multiset(xs[1..]) == multiset(xs) - multiset{xs[0]};
  }

  lemma Assoc<T>(a: seq<T>, b: seq<T>, c: seq<T>)
    ensures a + (b + c) == a + b + c
  {
  }

  lemma NothingInBoth<T>(a: seq<T>, b: seq<T>)
    ensures a + b == [] <==> a == [] && b == []
  {
    assert |a + b| == |a| + |b|;
  }
}
