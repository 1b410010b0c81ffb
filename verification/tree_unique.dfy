/** The breadth-first walk of `build_tree` (task1/task1.py:58-70) leaves no
    choice: the conditions `Oriented` states about its result fix the
    children map completely, so they describe exactly the tree the source
    builds. */
module TreeUnique {
  import opened Sorting
  import opened Tree

  /** What a child of the `i`-th node found is, read off the edges and the
      discovery order alone: a node other than the root, reachable,
      adjacent to the `i`-th node and to no node found before it. */
  ghost predicate Adoptable(edges: seq<Edge>, root: int, found: seq<int>, i: int, c: int)
    requires 0 <= i < |found|
  {
    && Adjacent(edges, found[i], c) && c != root && Reachable(edges, root, c)
    && NoneAdjacentBefore(edges, found, i, c)
  }

  /** Each node found after the root hangs under a node found earlier: the
      first found neighbour. */
  lemma ParentOf(edges: seq<Edge>, root: int, tree: ChildMap, found: seq<int>, c: int) returns (h: int)
    requires Oriented(edges, root, tree) && BreadthFirst(edges, root, tree, found)
    requires c != root && Reachable(edges, root, c)
    ensures 0 <= h < |found| && found[h] in tree && c in tree[found[h]]
    ensures Adjacent(edges, found[h], c) && NoneAdjacentBefore(edges, found, h, c)
    ensures forall j :: 0 <= j < |found| && found[j] == c ==> h < j
  {
    assert IsChild(tree, c);
    var p :| p in tree && c in tree[p];
    var k :| 0 <= k < |tree[p]| && tree[p][k] == c;
    assert p in found && c in found;
    h :| 0 <= h < |found| && found[h] == p;
    var j :| 0 <= j < |found| && found[j] == c;
    assert NoneAdjacentBefore(edges, found, h, found[j]);
  }

  lemma AdoptedIfAdoptable(edges: seq<Edge>, root: int, tree: ChildMap, found: seq<int>, i: int, c: int)
    requires Oriented(edges, root, tree) && BreadthFirst(edges, root, tree, found)
    requires 0 <= i < |found| && Adoptable(edges, root, found, i, c)
    ensures c in Kids(tree, found[i])
  {
    var h := ParentOf(edges, root, tree, found, c);
    assert h <= i;
    assert i <= h;
  }

  lemma AdoptableIfAdopted(edges: seq<Edge>, root: int, tree: ChildMap, found: seq<int>, i: int, c: int)
    requires Oriented(edges, root, tree) && BreadthFirst(edges, root, tree, found)
    requires 0 <= i < |found| && c in Kids(tree, found[i])
    ensures Adoptable(edges, root, found, i, c)
  {
    var p := found[i];
    assert p in tree;
    var k :| 0 <= k < |tree[p]| && tree[p][k] == c;
    assert Adjacent(edges, p, c);
    assert IsChild(tree, c);
    assert c in found;
    var j :| 0 <= j < |found| && found[j] == c;
    assert NoneAdjacentBefore(edges, found, i, found[j]);
  }

  /** Two discovery orders that agree up to the `i`-th node give that node
      the same children. */
  lemma SameKids(edges: seq<Edge>, root: int, t1: ChildMap, f1: seq<int>, t2: ChildMap, f2: seq<int>, i: int)
    requires Oriented(edges, root, t1) && BreadthFirst(edges, root, t1, f1)
    requires Oriented(edges, root, t2) && BreadthFirst(edges, root, t2, f2)
    requires 0 <= i < |f1| && i < |f2| && f1[..i + 1] == f2[..i + 1]
    ensures Kids(t1, f1[i]) == Kids(t2, f2[i])
  {
    var v := f1[i];
    assert f1[i] == f1[..i + 1][i] == f2[..i + 1][i] == f2[i];
    forall c
      ensures c in Kids(t1, v) <==> c in Kids(t2, v)
    {
      forall k | 0 <= k < i
        ensures f1[k] == f2[k]
      {
        assert f1[k] == f1[..i + 1][k];
      }
      if c in Kids(t1, v) {
        AdoptableIfAdopted(edges, root, t1, f1, i, c);
        AdoptedIfAdoptable(edges, root, t2, f2, i, c);
      }
      if c in Kids(t2, v) {
        AdoptableIfAdopted(edges, root, t2, f2, i, c);
        AdoptedIfAdoptable(edges, root, t1, f1, i, c);
      }
    }
    KidsOrdered(edges, root, t1, v);
    KidsOrdered(edges, root, t2, v);
    SameOrderEqual(Kids(t1, v), Kids(t2, v), Neighbours(edges, v));
  }

  /** A children list lies in the neighbour list, in the order of first
      appearance there. */
  lemma KidsOrdered(edges: seq<Edge>, root: int, tree: ChildMap, v: int)
    requires Oriented(edges, root, tree)
    ensures forall k :: 0 <= k < |Kids(tree, v)| ==> Kids(tree, v)[k] in Neighbours(edges, v)
    ensures forall a, b :: 0 <= a < b < |Kids(tree, v)| ==> Precedes(Neighbours(edges, v), Kids(tree, v)[a], Kids(tree, v)[b])
  {
    var found :| BreadthFirst(edges, root, tree, found);
    assert NeighbourOrder(edges, tree);
    forall k | 0 <= k < |Kids(tree, v)|
      ensures Kids(tree, v)[k] in Neighbours(edges, v)
    {
      assert v in tree && Kids(tree, v)[k] in tree[v];
      assert Adjacent(edges, v, Kids(tree, v)[k]);
    }
  }

  /** Two lists holding the same values, both in strictly increasing order
      of first appearance in `ns`, are equal. */
  lemma {:induction false} SameOrderEqual(a: seq<int>, b: seq<int>, ns: seq<int>)
    requires forall x :: x in a <==> x in b
    requires forall x :: x in a ==> x in ns
    requires forall i, j :: 0 <= i < j < |a| ==> Precedes(ns, a[i], a[j])
    requires forall i, j :: 0 <= i < j < |b| ==> Precedes(ns, b[i], b[j])
    ensures a == b
    decreases |a|
  {
    if a != [] {
      assert a[0] in a;
      assert b != [] && b[0] in b;
      var ia :| 0 <= ia < |a| && a[ia] == b[0];
      var ib :| 0 <= ib < |b| && b[ib] == a[0];
      assert IndexOf(ns, a[0]) <= IndexOf(ns, a[ia]);
      assert IndexOf(ns, b[0]) <= IndexOf(ns, b[ib]);
      assert a[0] == b[0];
      TailsAgree(a, b, ns);
      SameOrderEqual(a[1..], b[1..], ns);
      assert a == [a[0]] + a[1..] && b == [b[0]] + b[1..];
    } else {
      HeadMember(b);
    }
  }

  lemma HeadMember(b: seq<int>)
    ensures b != [] ==> b[0] in b
  {
  }

  /** Removing an equal head keeps the values shared. */
  lemma TailsAgree(a: seq<int>, b: seq<int>, ns: seq<int>)
    requires a != [] && b != [] && a[0] == b[0]
    requires forall x :: x in a <==> x in b
    requires forall i, j :: 0 <= i < j < |a| ==> Precedes(ns, a[i], a[j])
    requires forall i, j :: 0 <= i < j < |b| ==> Precedes(ns, b[i], b[j])
    ensures forall x :: x in a[1..] <==> x in b[1..]
  {
    forall x
      ensures x in a[1..] <==> x in b[1..]
    {
      if x in a[1..] {
        var k :| 1 <= k < |a| && a[k] == x;
        assert Precedes(ns, a[0], a[k]);
        assert x in a && x in b;
        var m :| 0 <= m < |b| && b[m] == x;
        assert m != 0;
        assert b[1..][m - 1] == x;
      }
      if x in b[1..] {
        var k :| 1 <= k < |b| && b[k] == x;
        assert Precedes(ns, b[0], b[k]);
        assert x in b && x in a;
        var m :| 0 <= m < |a| && a[m] == x;
        assert m != 0;
        assert a[1..][m - 1] == x;
      }
    }
  }

  // The discovery order is fixed prefix by prefix.

  lemma {:induction false} LayoutSplit(tree: ChildMap, s: seq<int>, n: nat)
    requires n <= |s|
    ensures Layout(tree, s) == Layout(tree, s[..n]) + Layout(tree, s[n..])
    decreases |s|
  {
    if n < |s| {
      var front := s[..|s| - 1];
      LayoutSplit(tree, front, n);
      assert front[..n] == s[..n];
      assert s[n..][..|s[n..]| - 1] == front[n..];
      assert s[n..][|s[n..]| - 1] == s[|s| - 1];
    } else {
      assert s[..n] == s;
      assert s[n..] == [];
    }
  }

  /** Every child of a listed node appears in the layout. */
  lemma {:induction false} LayoutHas(tree: ChildMap, s: seq<int>, i: int, c: int)
    requires 0 <= i < |s| && c in Kids(tree, s[i])
    ensures c in Layout(tree, s)
    decreases |s|
  {
    if i < |s| - 1 {
      var front := s[..|s| - 1];
      LayoutHas(tree, front, i, c);
    }
  }

  /** The first `n` nodes found have at least `n - 1` children among them:
      each node found after the root is a child of an earlier one. */
  lemma PrefixCovered(edges: seq<Edge>, root: int, tree: ChildMap, found: seq<int>, n: nat)
    requires Oriented(edges, root, tree) && BreadthFirst(edges, root, tree, found)
    requires 1 <= n < |found|
    ensures n <= |Layout(tree, found[..n])|
  {
    var x := found[n];
    assert found[0] != x;
    assert Reachable(edges, root, x);
    var h := ParentOf(edges, root, tree, found, x);
    assert found[1..] == Layout(tree, found);
    CoveredFromParent(tree, found, n, h);
  }

  lemma CoveredFromParent(tree: ChildMap, found: seq<int>, n: nat, h: nat)
    requires NoDup(found) && |found| > 0 && found[1..] == Layout(tree, found)
    requires h < n < |found| && found[n] in Kids(tree, found[h])
    ensures n <= |Layout(tree, found[..n])|
  {
    assert found[..n][h] == found[h];
    LayoutHas(tree, found[..n], h, found[n]);
    LayoutSplit(tree, found, n);
    EarlyInPrefix(found, Layout(tree, found[..n]), Layout(tree, found[n..]), n);
  }

  /** A value of a list without repeats that also sits in the part `front`
      of its tail sits within that part's reach. */
  lemma EarlyInPrefix(found: seq<int>, front: seq<int>, rest: seq<int>, n: nat)
    requires NoDup(found) && |found| > 0 && found[1..] == front + rest
    requires 1 <= n < |found| && found[n] in front
    ensures n <= |front|
  {
    var q :| 0 <= q < |front| && front[q] == found[n];
    assert found[q + 1] == found[1..][q] == front[q];
  }

  lemma PrefixAgree(edges: seq<Edge>, root: int, t1: ChildMap, f1: seq<int>, t2: ChildMap, f2: seq<int>, n: nat)
    requires Oriented(edges, root, t1) && BreadthFirst(edges, root, t1, f1)
    requires Oriented(edges, root, t2) && BreadthFirst(edges, root, t2, f2)
    requires 1 <= n <= |f1| && n <= |f2|
    ensures f1[..n] == f2[..n]
    decreases n
  {
    if n > 1 {
      var m := n - 1;
      PrefixAgree(edges, root, t1, f1, t2, f2, m);
      var s := f1[..m];
      PrefixKids(edges, root, t1, f1, t2, f2, m);
      LayoutSame(t1, t2, s);
      PrefixCovered(edges, root, t1, f1, m);
      NextAgrees(t1, f1, t2, f2, m);
    }
  }

  /** Equal prefixes give their nodes equal children. */
  lemma PrefixKids(edges: seq<Edge>, root: int, t1: ChildMap, f1: seq<int>, t2: ChildMap, f2: seq<int>, m: nat)
    requires Oriented(edges, root, t1) && BreadthFirst(edges, root, t1, f1)
    requires Oriented(edges, root, t2) && BreadthFirst(edges, root, t2, f2)
    requires m <= |f1| && m <= |f2| && f1[..m] == f2[..m]
    ensures forall i :: 0 <= i < m ==> Kids(t1, f1[..m][i]) == Kids(t2, f1[..m][i])
  {
    forall i | 0 <= i < m
      ensures Kids(t1, f1[..m][i]) == Kids(t2, f1[..m][i])
    {
      ShorterPrefix(f1, f2, m, i);
      SameKids(edges, root, t1, f1, t2, f2, i);
    }
  }

  lemma ShorterPrefix(f1: seq<int>, f2: seq<int>, m: nat, i: nat)
    requires i < m <= |f1| && m <= |f2| && f1[..m] == f2[..m]
    ensures f1[..i + 1] == f2[..i + 1] && f1[..m][i] == f1[i] == f2[i]
  {
    assert f1[..i + 1] == f1[..m][..i + 1];
    assert f2[..i + 1] == f2[..m][..i + 1];
  }

  /** The node after an agreed prefix is read off the layout of that prefix. */
  lemma NextAgrees(t1: ChildMap, f1: seq<int>, t2: ChildMap, f2: seq<int>, m: nat)
    requires 1 <= m < |f1| && m < |f2| && f1[..m] == f2[..m]
    requires f1 == [f1[0]] + Layout(t1, f1) && f2 == [f2[0]] + Layout(t2, f2)
    requires m <= |Layout(t1, f1[..m])| && Layout(t1, f1[..m]) == Layout(t2, f2[..m])
    ensures f1[..m + 1] == f2[..m + 1]
  {
    NextFromLayout(t1, f1, m);
    NextFromLayout(t2, f2, m);
    assert f1[..m + 1] == f1[..m] + [f1[m]];
    assert f2[..m + 1] == f2[..m] + [f2[m]];
  }

  lemma NextFromLayout(tree: ChildMap, f: seq<int>, m: nat)
    requires 1 <= m < |f| && f == [f[0]] + Layout(tree, f)
    requires m <= |Layout(tree, f[..m])|
    ensures f[m] == Layout(tree, f[..m])[m - 1]
  {
    var whole := Layout(tree, f);
    var front := Layout(tree, f[..m]);
    LayoutSplit(tree, f, m);
    assert whole == front + Layout(tree, f[m..]);
    assert f[m] == whole[m - 1];
    assert whole[m - 1] == front[m - 1];
  }

  /** A list without repeats drawn from `t` is no longer than `t`. */
  lemma {:induction false} NoDupWithin(s: seq<int>, t: set<int>)
    requires NoDup(s) && forall k :: 0 <= k < |s| ==> s[k] in t
    ensures |s| <= |t|
  {
    if s != [] {
      NoDupWithin(s[1..], t - {s[0]});
    }
  }

  lemma {:induction false} ValuesAtMost(s: seq<int>)
    ensures |set x | x in s| <= |s|
  {
    if s != [] {
      ValuesAtMost(s[1..]);
      assert (set x | x in s) == {s[0]} + (set x | x in s[1..]);
    }
  }

  /** Both discovery orders list the reachable nodes once each. */
  lemma SameLength(edges: seq<Edge>, root: int, t1: ChildMap, f1: seq<int>, t2: ChildMap, f2: seq<int>)
    requires BreadthFirst(edges, root, t1, f1) && BreadthFirst(edges, root, t2, f2)
    ensures |f1| == |f2|
  {
    NoDupWithin(f2, set x | x in f1);
    ValuesAtMost(f1);
    NoDupWithin(f1, set x | x in f2);
    ValuesAtMost(f2);
  }

  /** For a given edge list and root at most one children map meets
      `Oriented`: the tree the breadth-first walk builds is fully determined. */
  lemma OrientedUnique(edges: seq<Edge>, root: int, t1: ChildMap, t2: ChildMap)
    requires Oriented(edges, root, t1) && Oriented(edges, root, t2)
    ensures t1 == t2
  {
    var f1 :| BreadthFirst(edges, root, t1, f1);
    var f2 :| BreadthFirst(edges, root, t2, f2);
    SameLength(edges, root, t1, f1, t2, f2);
    PrefixAgree(edges, root, t1, f1, t2, f2, |f1|);
    assert f1 == f1[..|f1|] == f2[..|f2|] == f2;
    forall p | p in t1 || p in t2
      ensures p in t1 && p in t2 && t1[p] == t2[p]
    {
      var i := KeyFound(edges, root, t1, f1, t2, p);
      SameKids(edges, root, t1, f1, t2, f2, i);
    }
    assert t1.Keys == t2.Keys;
  }

  /** A parent of either map is found, at some position `i`. */
  lemma KeyFound(edges: seq<Edge>, root: int, t1: ChildMap, f: seq<int>, t2: ChildMap, p: int) returns (i: int)
    requires Oriented(edges, root, t1) && Oriented(edges, root, t2) && BreadthFirst(edges, root, t1, f)
    requires p in t1 || p in t2
    ensures 0 <= i < |f| && f[i] == p
  {
    if p in t1 {
      assert p in f;
    } else {
      assert IsChild(t2, t2[p][0]);
      assert Reachable(edges, root, p);
      assert p in f;
    }
    i :| 0 <= i < |f| && f[i] == p;
  }

  /** The end of a walk of two or more nodes is an endpoint of an edge. */
  lemma ReachedEndpoint(edges: seq<Edge>, root: int, v: int)
    requires Reachable(edges, root, v) && v != root
    ensures IsEndpoint(edges, v)
  {
    var p :| Walk(edges, p) && p[0] == root && p[|p| - 1] == v;
    assert Adjacent(edges, p[|p| - 2], p[|p| - 1]);
  }

  /** The parent of a child adjacent to the first node found is that node:
      no node found earlier exists. */
  lemma FirstFoundAdopts(edges: seq<Edge>, root: int, tree: ChildMap, found: seq<int>, p: int, c: int)
    requires BreadthFirst(edges, root, tree, found)
    requires p in tree && c in tree[p] && Adjacent(edges, root, c)
    ensures p == root
  {
    var k :| 0 <= k < |tree[p]| && tree[p][k] == c;
    assert p in found && c in found;
    var i :| 0 <= i < |found| && found[i] == p;
    var j :| 0 <= j < |found| && found[j] == c;
  }

  /** Every neighbour of the root becomes a child of the root: the walk
      takes the root's whole neighbourhood first. An arbitrary orientation
      spanning the reachable nodes need not do so. */
  lemma RootAdoptsNeighbours(edges: seq<Edge>, root: int, tree: ChildMap, c: int)
    requires Oriented(edges, root, tree)
    requires Adjacent(edges, root, c) && c != root
    ensures c in Kids(tree, root)
  {
    var found :| BreadthFirst(edges, root, tree, found);
    assert Walk(edges, [root, c]);
    assert IsChild(tree, c);
    var p :| p in tree && c in tree[p];
    FirstFoundAdopts(edges, root, tree, found, p, c);
  }

  /** The triangle 1-2, 1-3, 2-3 from root 1: both other nodes are children
      of the root, in the order of the edges, even though the edge 2-3
      would also connect 3. */
  lemma Triangle(tree: ChildMap)
    requires Oriented([(1, 2), (1, 3), (2, 3)], 1, tree)
    ensures tree == map[1 := [2, 3]]
  {
    TriangleKeys(tree);
    TriangleKids(tree);
    TwoInOrder(tree[1]);
    OnlyRoot(tree);
  }

  lemma OnlyRoot(tree: ChildMap)
    requires tree.Keys == {1} && tree[1] == [2, 3]
    ensures tree == map[1 := [2, 3]]
  {
  }

  /** The only list without repeats holding exactly 2 and 3, in the order
      of `[2, 3]`. */
  lemma TwoInOrder(kids: seq<int>)
    requires 2 in kids && 3 in kids
    requires forall k :: 0 <= k < |kids| ==> kids[k] == 2 || kids[k] == 3
    requires forall i, j :: 0 <= i < j < |kids| ==> kids[i] != kids[j]
    requires forall i, j :: 0 <= i < j < |kids| ==> Precedes([2, 3], kids[i], kids[j])
    ensures kids == [2, 3]
  {
    NoDupWithin(kids, {2, 3});
    assert Precedes([2, 3], kids[0], kids[1]);
    assert IndexOf([2, 3], 3) == 1;
  }

  lemma TriangleNeighbours()
    ensures Neighbours([(1, 2), (1, 3), (2, 3)], 1) == [2, 3]
  {
    var edges := [(1, 2), (1, 3), (2, 3)];
    assert edges[..1] == [(1, 2)] && edges[..2] == [(1, 2), (1, 3)];
    assert Neighbours(edges[..1], 1) == [2];
    assert Neighbours(edges[..2], 1) == [2, 3];
  }

  /** Every child is 2 or 3, and its parent is the root. */
  lemma TriangleChild(tree: ChildMap, p: int, c: int)
    requires Oriented([(1, 2), (1, 3), (2, 3)], 1, tree)
    requires p in tree && c in tree[p]
    ensures (c == 2 || c == 3) && p == 1
  {
    var edges := [(1, 2), (1, 3), (2, 3)];
    assert IsChild(tree, c);
    ReachedEndpoint(edges, 1, c);
    TriangleEndpoint(c);
    var found :| BreadthFirst(edges, 1, tree, found);
    FirstFoundAdopts(edges, 1, tree, found, p, c);
  }

  /** The triangle's nodes other than the root are 2 and 3, both adjacent
      to the root. */
  lemma TriangleEndpoint(c: int)
    requires IsEndpoint([(1, 2), (1, 3), (2, 3)], c) && c != 1
    ensures (c == 2 || c == 3) && Adjacent([(1, 2), (1, 3), (2, 3)], 1, c)
  {
    var edges := [(1, 2), (1, 3), (2, 3)];
    assert edges[0] == (1, 2) && edges[1] == (1, 3);
  }

  /** The root is the only parent. */
  lemma TriangleKeys(tree: ChildMap)
    requires Oriented([(1, 2), (1, 3), (2, 3)], 1, tree)
    ensures tree.Keys == {1}
  {
    forall p | p in tree
      ensures p == 1
    {
      TriangleChild(tree, p, tree[p][0]);
    }
    var edges := [(1, 2), (1, 3), (2, 3)];
    TriangleRootAdjacent();
    RootAdoptsNeighbours(edges, 1, tree, 2);
  }

  /** The root's children are 2 and 3, each once, in the order of the
      root's neighbour list. */
  lemma TriangleKids(tree: ChildMap)
    requires Oriented([(1, 2), (1, 3), (2, 3)], 1, tree) && 1 in tree
    ensures 2 in tree[1] && 3 in tree[1]
    ensures forall k :: 0 <= k < |tree[1]| ==> tree[1][k] == 2 || tree[1][k] == 3
    ensures forall i, j :: 0 <= i < j < |tree[1]| ==> tree[1][i] != tree[1][j]
    ensures forall i, j :: 0 <= i < j < |tree[1]| ==> Precedes([2, 3], tree[1][i], tree[1][j])
  {
    var edges := [(1, 2), (1, 3), (2, 3)];
    TriangleRootAdjacent();
    RootAdoptsNeighbours(edges, 1, tree, 2);
    RootAdoptsNeighbours(edges, 1, tree, 3);
    forall k | 0 <= k < |tree[1]|
      ensures tree[1][k] == 2 || tree[1][k] == 3
    {
      TriangleChild(tree, 1, tree[1][k]);
    }
    TriangleNeighbours();
    KidsOrdered(edges, 1, tree, 1);
  }

  lemma TriangleRootAdjacent()
    ensures Adjacent([(1, 2), (1, 3), (2, 3)], 1, 2) && Adjacent([(1, 2), (1, 3), (2, 3)], 1, 3)
  {
    var edges := [(1, 2), (1, 3), (2, 3)];
    assert edges[0] == (1, 2) && edges[1] == (1, 3);
  }
}
