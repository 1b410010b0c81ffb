/** Facts about concatenating and re-indexing lists that the consensus
    pipeline needs to show that no object is lost or duplicated. */
module Lists {
  import opened Sorting
  import opened Clusters

  /** The lists one after the other. */
  function Flat(xss: seq<seq<int>>): (xs: seq<int>)
    ensures forall x :: x in xs <==> exists c :: 0 <= c < |xss| && x in xss[c]
    decreases |xss|
  {
    if xss == [] then []
    else
      var front := xss[..|xss| - 1];
      assert forall c :: 0 <= c < |front| ==> front[c] == xss[c];
      Flat(front) + xss[|xss| - 1]
  }

  lemma {:induction false} FlatAppend(xss: seq<seq<int>>, yss: seq<seq<int>>)
    ensures Flat(xss + yss) == Flat(xss) + Flat(yss)
    decreases |yss|
  {
    if yss == [] {
      assert xss + yss == xss;
    } else {
      var front := yss[..|yss| - 1];
      assert (xss + yss)[..|xss + yss| - 1] == xss + front;
      FlatAppend(xss, front);
    }
  }

  /** `f` applied to every element. */
  function Apply<A, B>(f: A -> B, s: seq<A>): (r: seq<B>)
    ensures |r| == |s| && forall t :: 0 <= t < |s| ==> r[t] == f(s[t])
  {
    seq(|s|, t requires 0 <= t < |s| => f(s[t]))
  }

  lemma ApplyAppend<A, B>(f: A -> B, s: seq<A>, u: seq<A>)
    ensures Apply(f, s + u) == Apply(f, s) + Apply(f, u)
  {
  }

  /** Taking the element at position `k` out of a list. */
  lemma RemoveAt<A>(y: seq<A>, k: int)
    requires 0 <= k < |y|
    ensures y == y[..k] + [y[k]] + y[k + 1..]
    ensures multiset(y[..k] + y[k + 1..]) == multiset(y) - multiset{y[k]}
  {
    assert y == y[..k] + [y[k]] + y[k + 1..];
    assert multiset(y) == multiset(y[..k]) + multiset{y[k]} + multiset(y[k + 1..]);
  }

  /** The multiset of an applied list, split at position `k`. */
  lemma ApplySplit<A, B>(f: A -> B, y: seq<A>, k: int)
    requires 0 <= k < |y|
    ensures multiset(Apply(f, y)) == multiset(Apply(f, y[..k] + y[k + 1..])) + multiset{f(y[k])}
  {
    RemoveAt(y, k);
    ApplyAppend(f, y[..k] + [y[k]], y[k + 1..]);
    ApplyAppend(f, y[..k], [y[k]]);
    ApplyAppend(f, y[..k], y[k + 1..]);
    assert Apply(f, [y[k]]) == [f(y[k])];
  }

  /** Applying a function to two permutations of each other gives two
      permutations of each other. */
  lemma {:induction false} ApplyPermutes<A, B>(f: A -> B, x: seq<A>, y: seq<A>)
    requires multiset(x) == multiset(y)
    ensures multiset(Apply(f, x)) == multiset(Apply(f, y))
    decreases |x|
  {
    if x == [] {
      assert |y| == |multiset(y)| == 0;
    } else {
      assert x[0] in multiset(y);
      var k :| 0 <= k < |y| && y[k] == x[0];
      RemoveAt(y, k);
      RemoveAt(x, 0);
      ApplyPermutes(f, x[1..], y[..k] + y[k + 1..]);
      ApplySplit(f, x, 0);
      ApplySplit(f, y, k);
      assert x[..0] + x[1..] == x[1..];
    }
  }

  /** The multiset of a flattened list of lists, split at position `k`. */
  lemma FlatSplit(y: seq<seq<int>>, k: int)
    requires 0 <= k < |y|
    ensures multiset(Flat(y)) == multiset(Flat(y[..k] + y[k + 1..])) + multiset(y[k])
  {
    RemoveAt(y, k);
    FlatAppend(y[..k] + [y[k]], y[k + 1..]);
    FlatAppend(y[..k], [y[k]]);
    FlatAppend(y[..k], y[k + 1..]);
    assert Flat([y[k]]) == y[k] by {
      assert [y[k]][..0] == [];
    }
  }

  /** Concatenating two permutations of the same lists gives permutations
      of the same objects. */
  lemma {:induction false} FlatPermutes(x: seq<seq<int>>, y: seq<seq<int>>)
    requires multiset(x) == multiset(y)
    ensures multiset(Flat(x)) == multiset(Flat(y))
    decreases |x|
  {
    if x == [] {
      assert |y| == |multiset(y)| == 0;
    } else {
      assert x[0] in multiset(y);
      var k :| 0 <= k < |y| && y[k] == x[0];
      RemoveAt(y, k);
      RemoveAt(x, 0);
      FlatPermutes(x[1..], y[..k] + y[k + 1..]);
      FlatSplit(x, 0);
      FlatSplit(y, k);
      assert x[..0] + x[1..] == x[1..];
    }
  }

  /** `0, 1, ..., n - 1` */
  function Range(n: nat): (r: seq<int>)
    ensures |r| == n && forall t :: 0 <= t < n ==> r[t] == t
  {
    seq(n, t => t)
  }

  /** In a list without repeats each element counts once. */
  lemma {:induction false} NoDupCount(s: seq<int>, x: int)
    requires NoDup(s)
    ensures multiset(s)[x] == if x in s then 1 else 0
    decreases |s|
  {
    if s != [] {
      var front := s[..|s| - 1];
      assert s == front + [s[|s| - 1]];
      assert NoDup(front);
      NoDupCount(front, x);
      assert s[|s| - 1] !in front;
    }
  }

  /** A list of indices below `n` without repeats that holds every index
      below `n` is a permutation of `0 .. n - 1`. */
  lemma PermutationOfRange(s: seq<int>, n: nat)
    requires NoDup(s) && AllBelow(s, n)
    requires forall x :: 0 <= x < n ==> x in s
    ensures multiset(s) == multiset(Range(n))
  {
    assert NoDup(Range(n));
    forall x
      ensures multiset(s)[x] == multiset(Range(n))[x]
    {
      NoDupCount(s, x);
      NoDupCount(Range(n), x);
      if x in s {
        var t :| 0 <= t < |s| && s[t] == x;
        assert Range(n)[x] == x;
      }
    }
  }

  /** Lists without repeats, pairwise without common elements, flatten to a
      list without repeats. */
  lemma {:induction false} FlatNoDup(xss: seq<seq<int>>)
    requires forall c :: 0 <= c < |xss| ==> NoDup(xss[c])
    requires Disjoint(xss)
    ensures NoDup(Flat(xss))
    decreases |xss|
  {
    if xss != [] {
      var front := xss[..|xss| - 1];
      var last := xss[|xss| - 1];
      assert forall c :: 0 <= c < |front| ==> front[c] == xss[c];
      FlatNoDup(front);
      forall x | x in Flat(front)
        ensures x !in last
      {
        var c :| 0 <= c < |front| && x in front[c];
      }
      NoDupAppend(Flat(front), last);
    }
  }
}
