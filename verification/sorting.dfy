/** Sorting as the source uses it: Python's `sorted` on object lists, and the
    stable `list.sort(key=...)` that orders the consensus clusters. Both are
    written as insertion sorts and specified by what any correct sort must
    deliver, so the choice of algorithm does not matter. The list helpers
    both halves share (`NoDup`, `list.index`) live here too. */
module Sorting {

  predicate Sorted(s: seq<int>) {
    forall a, b :: 0 <= a < b < |s| ==> s[a] <= s[b]
  }

  /** No value twice. */
  predicate NoDup(s: seq<int>) {
    forall a, b :: 0 <= a < b < |s| ==> s[a] != s[b]
  }

  /** `list.index(x)`: the first position of `x`. */
  function IndexOf(objs: seq<int>, x: int): (i: int)
    requires x in objs
    ensures 0 <= i < |objs| && objs[i] == x
    ensures forall t :: 0 <= t < i ==> objs[t] != x
  {
    if objs[0] == x then 0 else 1 + IndexOf(objs[1..], x)
  }

  /** The head of an ascending sequence is below everything after it. */
  lemma HeadBelow(s: seq<int>)
    requires Sorted(s) && s != []
    ensures forall y :: y in s[1..] ==> s[0] <= y
  {
  }

  lemma SortedCons(h: int, s: seq<int>)
    requires Sorted(s) && forall t :: 0 <= t < |s| ==> h <= s[t]
    ensures Sorted([h] + s)
  {
  }

  /** Inserts `x` in front of the first element larger than it. */
  function Insert(x: int, s: seq<int>): (r: seq<int>)
    requires Sorted(s)
    ensures Sorted(r)
    ensures multiset(r) == multiset(s) + multiset{x}
    ensures forall t :: 0 <= t < |r| ==> r[t] == x || r[t] in s
    decreases |s|
  {
    if s == [] || x <= s[0] then [x] + s
    else
      assert s == [s[0]] + s[1..];
      var rest := Insert(x, s[1..]);
      HeadBelow(s);
      SortedCons(s[0], rest);
      [s[0]] + rest
  }

  /** `sorted(xs)` on integers: an ascending permutation of the input. */
  function Sort(s: seq<int>): (r: seq<int>)
    ensures Sorted(r)
    ensures multiset(r) == multiset(s)
    decreases |s|
  {
    if s == [] then []
    else
      assert s == s[..|s| - 1] + [s[|s| - 1]];
      Insert(s[|s| - 1], Sort(s[..|s| - 1]))
  }

  /** Two ascending sequences with the same elements start alike. */
  lemma SortedHeads(s: seq<int>, t: seq<int>)
    requires Sorted(s) && Sorted(t) && multiset(s) == multiset(t) && s != [] && t != []
    ensures s[0] == t[0]
  {
    assert s[0] in multiset(t) && t[0] in multiset(s);
    var a :| 0 <= a < |t| && t[a] == s[0];
    var b :| 0 <= b < |s| && s[b] == t[0];
  }

  /** Removing the head of a sequence removes one copy from its multiset. */
  lemma DropHead(s: seq<int>)
    requires s != []
    ensures multiset(s[1..]) == multiset(s) - multiset{s[0]}
  {
    assert s == [s[0]] + s[1..];
  }

  /** Two ascending sequences with the same elements are the same sequence,
      so any correct sort of a list gives the result `Sort` gives. */
  lemma {:induction false} SortedUnique(s: seq<int>, t: seq<int>)
    requires Sorted(s) && Sorted(t) && multiset(s) == multiset(t)
    ensures s == t
    decreases |s|
  {
    assert |t| == |multiset(t)| == |multiset(s)| == |s|;
    if s != [] {
      SortedHeads(s, t);
      DropHead(s);
      DropHead(t);
      SortedUnique(s[1..], t[1..]);
      assert s == [s[0]] + s[1..] && t == [t[0]] + t[1..];
    }
  }

  // ---------------------------------------------------------------------
  // Stable sort of keyed items, `list.sort(key=...)`.

  predicate SortedByKey<T>(s: seq<(int, T)>) {
    forall a, b :: 0 <= a < b < |s| ==> s[a].0 <= s[b].0
  }

  /** The items carrying key `v`, in their order of appearance. */
  function WithKey<T>(s: seq<(int, T)>, v: int): (r: seq<(int, T)>)
    ensures forall t :: 0 <= t < |r| ==> r[t].0 == v && r[t] in s
    decreases |s|
  {
    if s == [] then []
    else WithKey(s[..|s| - 1], v) + (if s[|s| - 1].0 == v then [s[|s| - 1]] else [])
  }

  lemma {:induction false} WithKeyAppend<T>(s: seq<(int, T)>, u: seq<(int, T)>, v: int)
    ensures WithKey(s + u, v) == WithKey(s, v) + WithKey(u, v)
    decreases |u|
  {
    if u == [] {
      assert s + u == s;
    } else {
      var front := u[..|u| - 1];
      assert (s + u)[..|s + u| - 1] == s + front;
      WithKeyAppend(s, front, v);
    }
  }

  lemma {:induction false} WithKeyAbsent<T>(s: seq<(int, T)>, v: int)
    requires forall t :: 0 <= t < |s| ==> s[t].0 != v
    ensures WithKey(s, v) == []
    decreases |s|
  {
    if s != [] {
      WithKeyAbsent(s[..|s| - 1], v);
    }
  }

  /** Every item carrying key `v` shows up among the items with key `v`. */
  lemma {:induction false} WithKeyHas<T>(s: seq<(int, T)>, i: int)
    requires 0 <= i < |s|
    ensures exists p :: 0 <= p < |WithKey(s, s[i].0)| && WithKey(s, s[i].0)[p] == s[i]
    decreases |s|
  {
    var v := s[i].0;
    var front := s[..|s| - 1];
    if i == |s| - 1 {
      assert WithKey(s, v)[|WithKey(front, v)|] == s[i];
    } else {
      assert front[i] == s[i];
      WithKeyHas(front, i);
      var p :| 0 <= p < |WithKey(front, v)| && WithKey(front, v)[p] == s[i];
      assert WithKey(s, v)[p] == s[i];
    }
  }

  /** Two items with the same key appear among the items with that key in
      the order they have in `s`. */
  lemma {:induction false} WithKeyEmbeds<T>(s: seq<(int, T)>, i: int, j: int)
    requires 0 <= i < j < |s| && s[i].0 == s[j].0
    ensures var w := WithKey(s, s[i].0);
      exists p, q :: 0 <= p < q < |w| && w[p] == s[i] && w[q] == s[j]
    decreases |s|
  {
    var v := s[i].0;
    var front := s[..|s| - 1];
    assert front[i] == s[i];
    if j == |s| - 1 {
      WithKeyHas(front, i);
      var p :| 0 <= p < |WithKey(front, v)| && WithKey(front, v)[p] == s[i];
      var q := |WithKey(front, v)|;
      assert WithKey(s, v)[p] == s[i] && WithKey(s, v)[q] == s[j];
    } else {
      assert front[j] == s[j];
      WithKeyEmbeds(front, i, j);
      var p, q :| 0 <= p < q < |WithKey(front, v)| &&
        WithKey(front, v)[p] == s[i] && WithKey(front, v)[q] == s[j];
      assert WithKey(s, v)[p] == s[i] && WithKey(s, v)[q] == s[j];
    }
  }

  /** Inserts `x` after every item whose key is not larger than its own. */
  function InsertByKey<T>(x: (int, T), s: seq<(int, T)>): (r: seq<(int, T)>)
    requires SortedByKey(s)
    ensures SortedByKey(r)
    ensures forall t :: 0 <= t < |r| ==> r[t] == x || r[t] in s
    decreases |s|
  {
    if s == [] || x.0 < s[0].0 then [x] + s
    else
      var rest := InsertByKey(x, s[1..]);
      assert s == [s[0]] + s[1..];
      [s[0]] + rest
  }

  lemma {:induction false} InsertByKeyPermutes<T>(x: (int, T), s: seq<(int, T)>)
    requires SortedByKey(s)
    ensures multiset(InsertByKey(x, s)) == multiset(s) + multiset{x}
    decreases |s|
  {
    if s != [] && s[0].0 <= x.0 {
      var rest := InsertByKey(x, s[1..]);
      InsertByKeyPermutes(x, s[1..]);
      assert InsertByKey(x, s) == [s[0]] + rest;
      assert s == [s[0]] + s[1..];
    }
  }

  lemma WithKeyOne<T>(x: (int, T), v: int)
    ensures WithKey([x], v) == if x.0 == v then [x] else []
  {
    assert [x][..0] == [];
  }

  /** Placing `x` in front of items with larger keys leaves the items of
      every key in the order "those of `s`, then `x`". */
  lemma InsertFrontStable<T>(x: (int, T), s: seq<(int, T)>, v: int)
    requires SortedByKey(s) && (s == [] || x.0 < s[0].0)
    ensures WithKey([x] + s, v) == WithKey(s, v) + WithKey([x], v)
  {
    WithKeyAppend([x], s, v);
    WithKeyOne(x, v);
    if x.0 == v {
      WithKeyAbsent(s, v);
    }
  }

  /** The inserted item lands behind every item that shares its key. */
  lemma {:induction false} InsertByKeyStable<T>(x: (int, T), s: seq<(int, T)>, v: int)
    requires SortedByKey(s)
    ensures WithKey(InsertByKey(x, s), v) == WithKey(s, v) + WithKey([x], v)
    decreases |s|
  {
    if s == [] || x.0 < s[0].0 {
      InsertFrontStable(x, s, v);
    } else {
      var rest := InsertByKey(x, s[1..]);
      InsertByKeyStable(x, s[1..], v);
      ConsStable(s[0], s[1..], rest, WithKey([x], v), v);
      assert s == [s[0]] + s[1..];
      assert InsertByKey(x, s) == [s[0]] + rest;
    }
  }

  /** Putting the same item in front of two lists keeps "the items of key
      `v` of one are those of the other followed by `tail`". */
  lemma ConsStable<T>(h: (int, T), s: seq<(int, T)>, rest: seq<(int, T)>, tail: seq<(int, T)>, v: int)
    requires WithKey(rest, v) == WithKey(s, v) + tail
    ensures WithKey([h] + rest, v) == WithKey([h] + s, v) + tail
  {
    WithKeyAppend([h], rest, v);
    WithKeyAppend([h], s, v);
  }

  /** A stable sort by key: ascending keys, and the items sharing a key keep
      the order they had in the input. These two facts determine the output
      uniquely, so any stable sort (Python's among them) agrees with it. */
  function StableSortByKey<T>(s: seq<(int, T)>): (r: seq<(int, T)>)
    ensures SortedByKey(r)
    ensures multiset(r) == multiset(s)
    ensures forall v :: WithKey(r, v) == WithKey(s, v)
    decreases |s|
  {
    if s == [] then []
    else
      var front := s[..|s| - 1];
      var x := s[|s| - 1];
      assert s == front + [x];
      var r := InsertByKey(x, StableSortByKey(front));
      InsertByKeyPermutes(x, StableSortByKey(front));
      assert forall v :: WithKey(r, v) == WithKey(s, v) by {
        forall v
          ensures WithKey(r, v) == WithKey(s, v)
        {
          InsertByKeyStable(x, StableSortByKey(front), v);
          WithKeyAppend(front, [x], v);
        }
      }
      r
  }
}
