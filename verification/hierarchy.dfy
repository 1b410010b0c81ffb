/** `main` (task1/task1.py:138-143): orient the edge list from the root, then
    build the six matrices over the node list. Reading the edges from a CSV
    file is not modelled; the edges are a parameter. */
module Hierarchy {
  import opened BoolMatrix
  import opened Sorting
  import opened Tree
  import opened TreeMatrices

  /** The last step of a way down ends at somebody's child. */
  lemma DescIsChild(tree: ChildMap, u: int, v: int)
    requires Desc(tree, u, v)
    ensures IsChild(tree, v)
  {
    var q :| Down(tree, q) && |q| >= 2 && q[0] == u && q[|q| - 1] == v;
    var t := |q| - 2;
    assert q[t + 1] in Kids(tree, q[t]);
    assert q[t] in tree && v in tree[q[t]];
  }

  /** Every parent is the root or somebody's child, and the root is nobody's
      child: the tree hangs from the root. */
  ghost predicate Rooted(tree: ChildMap, root: int) {
    && (forall p :: p in tree ==> p == root || IsChild(tree, p))
    && !IsChild(tree, root)
  }

  lemma OrientedRooted(edges: seq<Edge>, root: int, tree: ChildMap)
    requires Oriented(edges, root, tree)
    ensures Rooted(tree, root) && Acyclic(tree) && ChildrenOnce(tree)
    ensures forall p, c :: p in tree && c in tree[p] ==> Adjacent(edges, p, c)
    ensures forall v :: IsChild(tree, v) <==> v != root && Reachable(edges, root, v)
  {
  }

  /** Every child lies below the root. */
  lemma RootAbove(root: int, tree: ChildMap, rank: map<int, int>, bound: int, v: int)
    requires Rooted(tree, root) && Ranked(tree, rank, bound)
    requires IsChild(tree, v)
    ensures Desc(tree, root, v)
    decreases bound - rank[v]
  {
    var p :| p in tree && v in tree[p];
    DescChild(tree, p, v);
    if p != root {
      RootAbove(root, tree, rank, bound, p);
      DescTrans(tree, root, p, v);
    }
  }

  /** Below the root lie exactly the children. */
  lemma BelowRoot(root: int, tree: ChildMap, v: int)
    requires Rooted(tree, root) && Acyclic(tree)
    ensures Desc(tree, root, v) <==> IsChild(tree, v)
  {
    if Desc(tree, root, v) {
      DescIsChild(tree, root, v);
    }
    if IsChild(tree, v) {
      var rank, bound :| Ranked(tree, rank, bound);
      RootAbove(root, tree, rank, bound, v);
    }
  }

  /** Every parent and child of the oriented tree is an endpoint of an
      edge, so the node list indexes them all. */
  lemma OrientedIndexed(edges: seq<Edge>, root: int, tree: ChildMap)
    requires forall p, c :: p in tree && c in tree[p] ==> Adjacent(edges, p, c)
    ensures Indexed(tree, NodeOrder(edges, root))
  {
    var nodes := NodeOrder(edges, root);
    forall p, c | p in tree && c in tree[p]
      ensures p in nodes && c in nodes
    {
      assert Adjacent(edges, p, c);
      var k :| 0 <= k < |edges| && ((edges[k].0 == p && edges[k].1 == c) || (edges[k].1 == p && edges[k].0 == c));
      assert IsEndpoint(edges, p) && IsEndpoint(edges, c);
    }
  }

  /** The shape the matrices have over an oriented tree. Row and column 0
      belong to the root. */
  ghost predicate Shaped(edges: seq<Edge>, root: int, nodes: seq<int>, m: Relations)
    requires m.Relations? && Square(m.r1) && |m.r1| == |nodes| && Square(m.r3) && |m.r3| == |nodes|
  {
    && |nodes| > 0 && nodes[0] == root
    // the root is nobody's subordinate
    && (forall i :: 0 <= i < |nodes| ==> !m.r1[i][0])
    // every other node has a direct superior exactly when it is reachable
    && (forall j :: 0 < j < |nodes| ==> ((exists i :: 0 <= i < |nodes| && m.r1[i][j]) <==> Reachable(edges, root, nodes[j])))
    // and it has at most one
    && (forall i, k, j :: 0 <= i < |nodes| && 0 <= k < |nodes| && 0 <= j < |nodes| && m.r1[i][j] && m.r1[k][j] ==> i == k)
    // the root manages, directly or not, exactly the reachable nodes
    && (forall j :: 0 <= j < |nodes| ==> (m.r3[0][j] <==> j != 0 && Reachable(edges, root, nodes[j])))
  }

  /** A column of `A` has a set entry exactly when its node is a child. */
  lemma SuperiorExists(tree: ChildMap, nodes: seq<int>, m: Relations, j: int)
    requires Indexed(tree, nodes) && NoDup(nodes) && m.Relations? && Describes(tree, nodes, m)
    requires 0 <= j < |nodes|
    ensures (exists i :: 0 <= i < |nodes| && m.r1[i][j]) <==> IsChild(tree, nodes[j])
  {
    DistinctIsLast(nodes, j);
    if IsChild(tree, nodes[j]) {
      var p :| p in tree && nodes[j] in tree[p];
      var i := Last(nodes, p);
      assert ChildAt(tree, nodes, i, j);
    }
    if exists i :: 0 <= i < |nodes| && m.r1[i][j] {
      var i :| 0 <= i < |nodes| && m.r1[i][j];
      assert nodes[i] in tree && nodes[j] in tree[nodes[i]];
    }
  }

  /** A column of `A` has at most one set entry when no node is listed
      twice among the children lists. */
  lemma SuperiorUnique(tree: ChildMap, nodes: seq<int>, m: Relations)
    requires ChildrenOnce(tree) && NoDup(nodes) && m.Relations? && Describes(tree, nodes, m)
    ensures forall i, k, j :: 0 <= i < |nodes| && 0 <= k < |nodes| && 0 <= j < |nodes| && m.r1[i][j] && m.r1[k][j] ==> i == k
  {
    forall i, k, j | 0 <= i < |nodes| && 0 <= k < |nodes| && 0 <= j < |nodes| && m.r1[i][j] && m.r1[k][j]
      ensures i == k
    {
      var v := nodes[j];
      var p, q := nodes[i], nodes[k];
      assert p in tree && v in tree[p] && q in tree && v in tree[q];
      var s :| 0 <= s < |tree[p]| && tree[p][s] == v;
      var t :| 0 <= t < |tree[q]| && tree[q][t] == v;
      assert p == q;
    }
  }

  /** The matrices over an oriented tree have the shape `Shaped` says. */
  lemma OrientedShape(edges: seq<Edge>, root: int, tree: ChildMap, nodes: seq<int>, m: Relations)
    requires Rooted(tree, root) && Acyclic(tree) && ChildrenOnce(tree)
    requires forall v :: IsChild(tree, v) <==> v != root && Reachable(edges, root, v)
    requires |nodes| > 0 && nodes[0] == root && NoDup(nodes) && Indexed(tree, nodes)
    requires m.Relations? && Describes(tree, nodes, m)
    ensures Shaped(edges, root, nodes, m)
  {
    forall i | 0 <= i < |nodes|
      ensures !m.r1[i][0]
    {
      SuperiorExists(tree, nodes, m, 0);
    }
    forall j | 0 < j < |nodes|
      ensures (exists i :: 0 <= i < |nodes| && m.r1[i][j]) <==> Reachable(edges, root, nodes[j])
    {
      SuperiorExists(tree, nodes, m, j);
      assert nodes[j] != nodes[0];
    }
    SuperiorUnique(tree, nodes, m);
    forall j | 0 <= j < |nodes|
      ensures m.r3[0][j] <==> j != 0 && Reachable(edges, root, nodes[j])
    {
      DistinctIsLast(nodes, 0);
      DistinctIsLast(nodes, j);
      BelowRoot(root, tree, nodes[j]);
      if j != 0 {
        assert nodes[j] != nodes[0];
      }
    }
  }

  /** `main`: `RootMissing` is the `ValueError` of `build_tree`; otherwise
      the six matrices over `[root] + sorted(others)`, which never miss a
      node, and which relate to each other as the lemmas of `TreeMatrices`
      show. */
  method Analyse(edges: seq<Edge>, root: int) returns (found: bool, nodes: seq<int>, m: Relations, tree: ChildMap)
    ensures found <==> IsEndpoint(edges, root)
    ensures found ==> nodes == NodeOrder(edges, root) && Oriented(edges, root, tree)
    ensures found ==> m.Relations? && Square(m.r1) && Square(m.r3) && Square(m.r5)
    ensures found ==> m.Relations? && |m.r1| == |m.r3| == |m.r5| == |nodes|
    ensures found ==> m.Relations? && Describes(tree, nodes, m) && Shaped(edges, root, nodes, m)
    ensures found ==> Includes(m.r3, m.r1) && Transitive(m.r3) && Irreflexive(m.r3)
    ensures found ==> forall i, j :: 0 <= i < |nodes| && 0 <= j < |nodes| ==> (m.r3[i][j] <==> Reach(m.r1, i, j))
    ensures found ==> Symmetric(m.r5) && Irreflexive(m.r5)
  {
    var built := BuildTree(edges, root);
    if built.RootMissing? {
      return false, [], MissingNode, map[];
    }
    found, nodes, tree := true, built.nodes, built.tree;
    OrientedRooted(edges, root, tree);
    OrientedIndexed(edges, root, tree);
    m := BuildMatrices(tree, nodes);
    OrientedShape(edges, root, tree, nodes, m);
    MatrixFacts(tree, nodes, m);
  }

  /** What `TreeMatrices` proves about the six matrices of a tree. */
  lemma MatrixFacts(tree: ChildMap, nodes: seq<int>, m: Relations)
    requires Acyclic(tree) && ChildrenOnce(tree) && Indexed(tree, nodes)
    requires m.Relations? && Describes(tree, nodes, m)
    ensures Square(m.r1) && Square(m.r3) && Square(m.r5) && |m.r1| == |m.r3| == |m.r5| == |nodes|
    ensures Includes(m.r3, m.r1) && Transitive(m.r3) && Irreflexive(m.r3)
    ensures forall i, j :: 0 <= i < |nodes| && 0 <= j < |nodes| ==> (m.r3[i][j] <==> Reach(m.r1, i, j))
    ensures Symmetric(m.r5) && Irreflexive(m.r5)
  {
    DescendantsCoverChildren(tree, nodes, m);
    DescendantsTransitive(tree, nodes, m);
    DescendantsIrreflexive(tree, nodes, m);
    DescendantsAreClosure(tree, nodes, m);
    SiblingsSymmetric(tree, nodes, m);
    SiblingsIrreflexive(tree, nodes, m);
  }
}
