/** `build_matrices` (task1/task1.py:77-135): six square 0/1 relations over
    the node list, derived from the children map of an oriented tree. Row and
    column `i` stand for `nodes[i]`; when a node is listed twice only its last
    position gets entries, since the index dictionary keeps the last one. */
module TreeMatrices {
  import opened BoolMatrix
  import opened Sorting
  import opened Tree

  // Node positions.

  /** `idx[v]`: the last position of `v` in `nodes`. */
  function Last(nodes: seq<int>, v: int): (i: int)
    requires v in nodes
    ensures 0 <= i < |nodes| && nodes[i] == v
    ensures forall k :: i < k < |nodes| ==> nodes[k] != v
    decreases |nodes|
  {
    var front := nodes[..|nodes| - 1];
    if nodes[|nodes| - 1] == v then |nodes| - 1
    else
      assert nodes == front + [nodes[|nodes| - 1]];
      Last(front, v)
  }

  /** Position `i` is the one the index dictionary keeps for `nodes[i]`. */
  predicate IsLast(nodes: seq<int>, i: int) {
    0 <= i < |nodes| && Last(nodes, nodes[i]) == i
  }

  /** A position is kept exactly when its node does not occur later. */
  lemma LastIsLast(nodes: seq<int>, i: int)
    requires 0 <= i < |nodes|
    ensures IsLast(nodes, i) <==> forall k :: i < k < |nodes| ==> nodes[k] != nodes[i]
  {
  }

  /** Without repeats every position is kept. */
  lemma DistinctIsLast(nodes: seq<int>, i: int)
    requires NoDup(nodes) && 0 <= i < |nodes|
    ensures IsLast(nodes, i)
  {
  }

  /** Every parent that has children, and every child, is listed, so no
      lookup in the index dictionary fails. */
  predicate Indexed(tree: ChildMap, nodes: seq<int>) {
    forall p | p in tree :: forall c | c in tree[p] :: p in nodes && c in nodes
  }

  // Descendants.

  /** A path that goes from each node to one of its children. */
  ghost predicate Down(tree: ChildMap, p: seq<int>) {
    forall t :: 0 <= t < |p| - 1 ==> p[t + 1] in Kids(tree, p[t])
  }

  /** `v` is a descendant of `u` at distance at least one. */
  ghost predicate Desc(tree: ChildMap, u: int, v: int) {
    exists p :: Down(tree, p) && |p| >= 2 && p[0] == u && p[|p| - 1] == v
  }

  lemma DescChild(tree: ChildMap, u: int, c: int)
    requires c in Kids(tree, u)
    ensures Desc(tree, u, c)
  {
    assert Down(tree, [u, c]);
  }

  /** Descendants of descendants are descendants. */
  lemma DescTrans(tree: ChildMap, u: int, v: int, w: int)
    requires Desc(tree, u, v) && Desc(tree, v, w)
    ensures Desc(tree, u, w)
  {
    var p :| Down(tree, p) && |p| >= 2 && p[0] == u && p[|p| - 1] == v;
    var q :| Down(tree, q) && |q| >= 2 && q[0] == v && q[|q| - 1] == w;
    var pq := p + q[1..];
    forall t | 0 <= t < |pq| - 1
      ensures pq[t + 1] in Kids(tree, pq[t])
    {
      if t < |p| - 1 {
        assert pq[t] == p[t] && pq[t + 1] == p[t + 1];
      } else {
        assert pq[t] == q[t - |p| + 1] && pq[t + 1] == q[t - |p| + 2];
      }
    }
    assert Down(tree, pq);
  }

  /** A descendant of `u` is a child of `u` or a descendant of one. */
  lemma DescFirst(tree: ChildMap, u: int, w: int) returns (k: int)
    requires Desc(tree, u, w)
    ensures k in Kids(tree, u) && (k == w || Desc(tree, k, w))
  {
    var p :| Down(tree, p) && |p| >= 2 && p[0] == u && p[|p| - 1] == w;
    k := p[1];
    if |p| > 2 {
      var q := p[1..];
      assert forall t :: 0 <= t < |q| ==> q[t] == p[t + 1];
      assert Down(tree, q);
    }
  }

  /** Only a node with children has descendants. */
  lemma DescHasKids(tree: ChildMap, u: int, w: int)
    requires Desc(tree, u, w)
    ensures u in tree && |tree[u]| > 0
  {
    var k := DescFirst(tree, u, w);
  }

  /** Along a downward path the rank falls at every step. */
  lemma {:induction false} DownRanks(tree: ChildMap, rank: map<int, int>, bound: int, p: seq<int>)
    requires Ranked(tree, rank, bound) && Down(tree, p) && |p| >= 2
    ensures p[0] in rank && p[|p| - 1] in rank && rank[p[|p| - 1]] < rank[p[0]]
    decreases |p|
  {
    assert p[1] in Kids(tree, p[0]);
    RankedStep(tree, rank, bound, p[0], p[1]);
    if |p| > 2 {
      var q := p[1..];
      assert forall t :: 0 <= t < |q| ==> q[t] == p[t + 1];
      DownRanks(tree, rank, bound, q);
      assert q[0] == p[1] && q[|q| - 1] == p[|p| - 1];
    }
  }

  lemma RankedStep(tree: ChildMap, rank: map<int, int>, bound: int, u: int, c: int)
    requires Ranked(tree, rank, bound) && c in Kids(tree, u)
    ensures u in rank && c in rank && rank[c] < rank[u]
  {
    assert u in tree && c in tree[u];
  }

  /** In a ranked children map no node is its own descendant. */
  lemma NoSelfDesc(tree: ChildMap, rank: map<int, int>, bound: int, v: int)
    requires Ranked(tree, rank, bound)
    ensures !Desc(tree, v, v)
  {
    if Desc(tree, v, v) {
      var p :| Down(tree, p) && |p| >= 2 && p[0] == v && p[|p| - 1] == v;
      DownRanks(tree, rank, bound, p);
    }
  }

  /** Cell `(i, j)` is the pair of kept positions of `x` and `y`. */
  lemma CellOf(nodes: seq<int>, x: int, y: int, i: int, j: int)
    requires x in nodes && y in nodes && 0 <= i < |nodes| && 0 <= j < |nodes|
    ensures (i, j) == (Last(nodes, x), Last(nodes, y)) <==>
            IsLast(nodes, i) && IsLast(nodes, j) && nodes[i] == x && nodes[j] == y
  {
    LastIsLast(nodes, i);
    LastIsLast(nodes, j);
  }

  // A: parent to child.

  /** The cells `A[idx[parent], idx[child]]` for the children `cs`. */
  function ChildCells(nodes: seq<int>, parent: int, cs: seq<int>): (cells: seq<(int, int)>)
    requires parent in nodes && forall c :: c in cs ==> c in nodes
    ensures |cells| == |cs|
    ensures forall t :: 0 <= t < |cs| ==> cells[t] == (Last(nodes, parent), Last(nodes, cs[t]))
  {
    seq(|cs|, t requires 0 <= t < |cs| => (Last(nodes, parent), Last(nodes, cs[t])))
  }

  lemma ChildCellsHold(nodes: seq<int>, parent: int, cs: seq<int>, i: int, j: int)
    requires parent in nodes && forall c :: c in cs ==> c in nodes
    requires 0 <= i < |nodes| && 0 <= j < |nodes|
    ensures (i, j) in ChildCells(nodes, parent, cs) <==>
            IsLast(nodes, i) && IsLast(nodes, j) && nodes[i] == parent && nodes[j] in cs
  {
    var cells := ChildCells(nodes, parent, cs);
    if (i, j) in cells {
      var t :| 0 <= t < |cells| && cells[t] == (i, j);
      CellOf(nodes, parent, cs[t], i, j);
    }
    if IsLast(nodes, i) && IsLast(nodes, j) && nodes[i] == parent && nodes[j] in cs {
      var t :| 0 <= t < |cs| && cs[t] == nodes[j];
      CellOf(nodes, parent, cs[t], i, j);
      assert cells[t] == (i, j);
    }
  }

  /** `A[i][j]` is set exactly when `nodes[j]` is a child of `nodes[i]`. */
  ghost predicate ChildAt(tree: ChildMap, nodes: seq<int>, i: int, j: int)
    requires 0 <= i < |nodes| && 0 <= j < |nodes|
  {
    IsLast(nodes, i) && IsLast(nodes, j) && nodes[j] in Kids(tree, nodes[i])
  }

  /** The adjacency loop over `tree.items()`. The keys are visited in the
      order of `nodes`, which lists every key that has children; the cells
      marked do not depend on the order. */
  method Adjacency(tree: ChildMap, nodes: seq<int>) returns (a: Matrix)
    requires Indexed(tree, nodes)
    ensures Square(a) && |a| == |nodes|
    ensures forall i, j :: 0 <= i < |nodes| && 0 <= j < |nodes| ==> (a[i][j] <==> ChildAt(tree, nodes, i, j))
  {
    var n := |nodes|;
    a := Zero(n);
    var k := 0;
    while k < n
      invariant 0 <= k <= n
      invariant Square(a) && |a| == n
      invariant forall i, j :: 0 <= i < n && 0 <= j < n ==>
        (a[i][j] <==> ChildAt(tree, nodes, i, j) && nodes[i] in nodes[..k])
    {
      var p := nodes[k];
      if p in tree {
        var cells := ChildCells(nodes, p, tree[p]);
        a := MarkAll(a, cells);
        forall i, j | 0 <= i < n && 0 <= j < n
          ensures (i, j) in cells <==> IsLast(nodes, i) && IsLast(nodes, j) && nodes[i] == p && nodes[j] in tree[p]
        {
          ChildCellsHold(nodes, p, tree[p], i, j);
        }
      }
      assert nodes[..k + 1] == nodes[..k] + [p];
      k := k + 1;
    }
    assert nodes[..n] == nodes;
  }

  // r3: descendants, by a stack walk from every node.

  /** The number of nodes in the subtree below `v`, `v` included, counting
      a node once for each way down to it. */
  ghost function Size(tree: ChildMap, rank: map<int, int>, bound: int, v: int): nat
    requires Ranked(tree, rank, bound) && v in rank
    decreases rank[v], 1, 0
  {
    forall c | c in Kids(tree, v)
      ensures c in rank && rank[c] < rank[v]
    {
      RankedStep(tree, rank, bound, v, c);
    }
    1 + SizeAll(tree, rank, bound, Kids(tree, v), rank[v])
  }

  /** The sizes of the subtrees below `cs`, added up. */
  ghost function SizeAll(tree: ChildMap, rank: map<int, int>, bound: int, cs: seq<int>, below: int): nat
    requires Ranked(tree, rank, bound)
    requires forall c :: c in cs ==> c in rank && 0 <= rank[c] < below
    decreases below, 0, |cs|
  {
    if cs == [] then 0
    else Size(tree, rank, bound, cs[0]) + SizeAll(tree, rank, bound, cs[1..], below)
  }

  /** The added-up size does not depend on the bound used to define it. */
  lemma {:induction false} SizeAllBelow(tree: ChildMap, rank: map<int, int>, bound: int, cs: seq<int>, b1: int, b2: int)
    requires Ranked(tree, rank, bound)
    requires forall c :: c in cs ==> c in rank && 0 <= rank[c] < b1 && rank[c] < b2
    ensures SizeAll(tree, rank, bound, cs, b1) == SizeAll(tree, rank, bound, cs, b2)
    decreases |cs|
  {
    if cs != [] {
      SizeAllBelow(tree, rank, bound, cs[1..], b1, b2);
    }
  }

  lemma {:induction false} SizeAllAppend(tree: ChildMap, rank: map<int, int>, bound: int, xs: seq<int>, ys: seq<int>)
    requires Ranked(tree, rank, bound)
    requires forall c :: c in xs + ys ==> c in rank
    ensures forall c :: c in xs + ys ==> 0 <= rank[c] < bound
    ensures SizeAll(tree, rank, bound, xs + ys, bound) ==
            SizeAll(tree, rank, bound, xs, bound) + SizeAll(tree, rank, bound, ys, bound)
    decreases |xs|
  {
    if xs != [] {
      assert (xs + ys)[1..] == xs[1..] + ys;
      SizeAllAppend(tree, rank, bound, xs[1..], ys);
    } else {
      assert xs + ys == ys;
    }
  }

  /** A node weighs one more than its children together. */
  lemma TopSize(tree: ChildMap, rank: map<int, int>, bound: int, top: int)
    requires Ranked(tree, rank, bound) && top in rank
    ensures forall c :: c in Kids(tree, top) ==> c in rank && rank[c] < rank[top]
    ensures SizeAll(tree, rank, bound, [top], bound) == 1 + SizeAll(tree, rank, bound, Kids(tree, top), bound)
  {
    var kids := Kids(tree, top);
    forall c | c in kids
      ensures c in rank && rank[c] < rank[top]
    {
      RankedStep(tree, rank, bound, top, c);
    }
    SizeAllBelow(tree, rank, bound, kids, rank[top], bound);
    assert SizeAll(tree, rank, bound, [top], bound) == Size(tree, rank, bound, top) by {
      assert [top][1..] == [];
    }
  }

  /** Taking the last node off the stack and pushing its children makes the
      stack's total size smaller by one. */
  lemma PopWeight(tree: ChildMap, rank: map<int, int>, bound: int, stack: seq<int>)
    requires Ranked(tree, rank, bound) && stack != []
    requires forall s :: s in stack ==> s in rank
    ensures forall c :: c in Kids(tree, stack[|stack| - 1]) ==> c in rank
    ensures forall s :: s in stack[..|stack| - 1] + Kids(tree, stack[|stack| - 1]) ==> s in rank
    ensures SizeAll(tree, rank, bound, stack[..|stack| - 1] + Kids(tree, stack[|stack| - 1]), bound) <
            SizeAll(tree, rank, bound, stack, bound)
  {
    var front := stack[..|stack| - 1];
    var top := stack[|stack| - 1];
    var kids := Kids(tree, top);
    TopSize(tree, rank, bound, top);
    assert stack == front + [top];
    SizeAllAppend(tree, rank, bound, front, [top]);
    SizeAllAppend(tree, rank, bound, front, kids);
  }

  /** `v` is on the stack or below a node that is. */
  ghost predicate Pending(tree: ChildMap, stack: seq<int>, v: int) {
    exists s :: s in stack && (s == v || Desc(tree, s, v))
  }

  /** A node that was pending is the one popped or is still pending. */
  lemma PopPending(tree: ChildMap, stack: seq<int>, v: int)
    requires stack != [] && Pending(tree, stack, v)
    ensures v == stack[|stack| - 1] || Pending(tree, stack[..|stack| - 1] + Kids(tree, stack[|stack| - 1]), v)
  {
    var top := stack[|stack| - 1];
    var next := stack[..|stack| - 1] + Kids(tree, top);
    var s :| s in stack && (s == v || Desc(tree, s, v));
    var t :| 0 <= t < |stack| && stack[t] == s;
    if t < |stack| - 1 {
      assert next[t] == s;
      assert s in next && (s == v || Desc(tree, s, v));
    } else if v != top {
      var k := DescFirst(tree, top, v);
      assert k in next && (k == v || Desc(tree, k, v));
    }
  }

  /** `r` is `m` with the descendants of `start` added to its row. */
  ghost predicate Explored(tree: ChildMap, nodes: seq<int>, start: int, m: Matrix, r: Matrix)
    requires start in nodes && Square(m) && Square(r) && |m| == |r| == |nodes|
  {
    forall i, j :: 0 <= i < |m| && 0 <= j < |m| ==>
      (r[i][j] <==> m[i][j] || (i == Last(nodes, start) && IsLast(nodes, j) && Desc(tree, start, nodes[j])))
  }

  /** The stack holds descendants of `start`. */
  ghost predicate StackBelow(tree: ChildMap, nodes: seq<int>, start: int, stack: seq<int>, rank: map<int, int>) {
    forall c :: c in stack ==> c in nodes && c in rank && Desc(tree, start, c)
  }

  /** Only descendants of `start` are marked, in `row`, and nothing of `m`
      is lost. */
  ghost predicate MarksBelow(tree: ChildMap, nodes: seq<int>, start: int, row: int, m: Matrix, r: Matrix)
    requires Square(m) && |m| == |nodes|
  {
    && Square(r) && |r| == |m| && 0 <= row < |m|
    && (forall i, j {:trigger r[i][j]} :: 0 <= i < |m| && 0 <= j < |m| && r[i][j] && !m[i][j] ==>
         i == row && IsLast(nodes, j) && Desc(tree, start, nodes[j]))
    && (forall i, j :: 0 <= i < |m| && 0 <= j < |m| && m[i][j] ==> r[i][j])
  }

  /** Every descendant is marked or still to be reached. */
  ghost predicate Covered(tree: ChildMap, nodes: seq<int>, start: int, row: int, r: Matrix, stack: seq<int>)
    requires Square(r) && |r| == |nodes| && 0 <= row < |r|
  {
    forall j :: 0 <= j < |r| && IsLast(nodes, j) && Desc(tree, start, nodes[j]) ==>
      r[row][j] || Pending(tree, stack, nodes[j])
  }

  /** The state of the stack walk from `start`. */
  ghost predicate Walking(tree: ChildMap, nodes: seq<int>, start: int, row: int, m: Matrix, r: Matrix,
                          stack: seq<int>, rank: map<int, int>)
    requires Square(m) && |m| == |nodes|
  {
    && StackBelow(tree, nodes, start, stack, rank)
    && MarksBelow(tree, nodes, start, row, m, r)
    && Covered(tree, nodes, start, row, r, stack)
  }

  lemma WalkStart(tree: ChildMap, nodes: seq<int>, start: int, m: Matrix, rank: map<int, int>, bound: int)
    requires Indexed(tree, nodes) && Ranked(tree, rank, bound) && start in nodes
    requires Square(m) && |m| == |nodes|
    ensures Walking(tree, nodes, start, Last(nodes, start), m, m, Kids(tree, start), rank)
  {
    var stack := Kids(tree, start);
    forall c | c in stack
      ensures c in nodes && c in rank && Desc(tree, start, c)
    {
      RankedStep(tree, rank, bound, start, c);
      DescChild(tree, start, c);
    }
    forall j | 0 <= j < |m| && Desc(tree, start, nodes[j])
      ensures Pending(tree, stack, nodes[j])
    {
      var k := DescFirst(tree, start, nodes[j]);
    }
  }

  /** Children of a descendant are descendants. */
  lemma StackStep(tree: ChildMap, nodes: seq<int>, start: int, stack: seq<int>, rank: map<int, int>, bound: int)
    requires Indexed(tree, nodes) && Ranked(tree, rank, bound)
    requires StackBelow(tree, nodes, start, stack, rank) && stack != []
    ensures StackBelow(tree, nodes, start, stack[..|stack| - 1] + Kids(tree, stack[|stack| - 1]), rank)
  {
    var child := stack[|stack| - 1];
    var next := stack[..|stack| - 1] + Kids(tree, child);
    forall c | c in next
      ensures c in nodes && c in rank && Desc(tree, start, c)
    {
      if c in Kids(tree, child) {
        RankedStep(tree, rank, bound, child, c);
        DescChild(tree, child, c);
        DescTrans(tree, start, child, c);
      } else {
        assert c in stack;
      }
    }
  }

  /** Marking a descendant in `row` keeps the marks below `start`. */
  lemma MarkStep(tree: ChildMap, nodes: seq<int>, start: int, row: int, m: Matrix, r: Matrix, col: int)
    requires Square(m) && |m| == |nodes| && MarksBelow(tree, nodes, start, row, m, r)
    requires 0 <= col < |m| && IsLast(nodes, col) && Desc(tree, start, nodes[col])
    ensures MarksBelow(tree, nodes, start, row, m, Mark(r, row, col))
  {
    var r' := Mark(r, row, col);
    forall i, j | 0 <= i < |m| && 0 <= j < |m| && r'[i][j] && !m[i][j]
      ensures i == row && IsLast(nodes, j) && Desc(tree, start, nodes[j])
    {
    }
    assert forall i, j :: 0 <= i < |m| && 0 <= j < |m| && m[i][j] ==> r'[i][j];
  }

  /** Marking the popped node and pushing its children keeps every
      descendant marked or pending. */
  lemma CoverStep(tree: ChildMap, nodes: seq<int>, start: int, row: int, r: Matrix, stack: seq<int>)
    requires Square(r) && |r| == |nodes| && 0 <= row < |r|
    requires Covered(tree, nodes, start, row, r, stack) && stack != [] && stack[|stack| - 1] in nodes
    ensures Covered(tree, nodes, start, row, Mark(r, row, Last(nodes, stack[|stack| - 1])),
                    stack[..|stack| - 1] + Kids(tree, stack[|stack| - 1]))
  {
    var child := stack[|stack| - 1];
    var r' := Mark(r, row, Last(nodes, child));
    var next := stack[..|stack| - 1] + Kids(tree, child);
    forall j | 0 <= j < |r| && IsLast(nodes, j) && Desc(tree, start, nodes[j])
      ensures r'[row][j] || Pending(tree, next, nodes[j])
    {
      if !r[row][j] {
        PopPending(tree, stack, nodes[j]);
      }
    }
  }

  /** Popping the last node of the stack, marking it and pushing its
      children keeps the walk's state. */
  lemma WalkStep(tree: ChildMap, nodes: seq<int>, start: int, row: int, m: Matrix, r: Matrix,
                 stack: seq<int>, rank: map<int, int>, bound: int)
    requires Indexed(tree, nodes) && Ranked(tree, rank, bound)
    requires Square(m) && |m| == |nodes|
    requires Walking(tree, nodes, start, row, m, r, stack, rank) && stack != []
    ensures stack[|stack| - 1] in nodes
    ensures Walking(tree, nodes, start, row, m, Mark(r, row, Last(nodes, stack[|stack| - 1])),
                    stack[..|stack| - 1] + Kids(tree, stack[|stack| - 1]), rank)
  {
    var child := stack[|stack| - 1];
    assert child in stack;
    StackStep(tree, nodes, start, stack, rank, bound);
    MarkStep(tree, nodes, start, row, m, r, Last(nodes, child));
    CoverStep(tree, nodes, start, row, r, stack);
  }

  /** The inner `while stack` loop for one start node: every node popped is
      marked in the start's row, and its children are pushed. Row
      `idx[start]` gains exactly the descendants of `start`. */
  method Explore(tree: ChildMap, nodes: seq<int>, start: int, m: Matrix,
                 ghost rank: map<int, int>, ghost bound: int) returns (r: Matrix)
    requires Indexed(tree, nodes) && Ranked(tree, rank, bound) && start in nodes
    requires Square(m) && |m| == |nodes|
    ensures Square(r) && |r| == |m|
    ensures Explored(tree, nodes, start, m, r)
  {
    var row := Last(nodes, start);
    r := m;
    var stack := Kids(tree, start);
    WalkStart(tree, nodes, start, m, rank, bound);
    while stack != []
      invariant Walking(tree, nodes, start, row, m, r, stack, rank)
      decreases SizeAll(tree, rank, bound, stack, bound)
    {
      var child := stack[|stack| - 1];
      WalkStep(tree, nodes, start, row, m, r, stack, rank, bound);
      PopWeight(tree, rank, bound, stack);
      r := Mark(r, row, Last(nodes, child));
      stack := stack[..|stack| - 1] + Kids(tree, child);
    }
    ExploreExit(tree, nodes, start, row, m, r, rank);
  }

  /** Once the stack is empty, the row of `start` holds exactly its
      descendants. */
  lemma ExploreExit(tree: ChildMap, nodes: seq<int>, start: int, row: int, m: Matrix, r: Matrix,
                    rank: map<int, int>)
    requires Square(m) && |m| == |nodes| && start in nodes && row == Last(nodes, start)
    requires Walking(tree, nodes, start, row, m, r, [], rank)
    ensures Square(r) && |r| == |m|
    ensures Explored(tree, nodes, start, m, r)
  {
    forall j | 0 <= j < |m| && IsLast(nodes, j) && Desc(tree, start, nodes[j])
      ensures r[row][j]
    {
      assert !Pending(tree, [], nodes[j]);
    }
    RowComplete(tree, nodes, start, row, m, r);
  }

  lemma RowComplete(tree: ChildMap, nodes: seq<int>, start: int, row: int, m: Matrix, r: Matrix)
    requires Square(m) && Square(r) && |m| == |r| == |nodes| && start in nodes && row == Last(nodes, start)
    requires forall i, j :: 0 <= i < |m| && 0 <= j < |m| && r[i][j] && !m[i][j] ==>
      i == row && IsLast(nodes, j) && Desc(tree, start, nodes[j])
    requires forall i, j :: 0 <= i < |m| && 0 <= j < |m| && m[i][j] ==> r[i][j]
    requires forall j :: 0 <= j < |m| && IsLast(nodes, j) && Desc(tree, start, nodes[j]) ==> r[row][j]
    ensures Explored(tree, nodes, start, m, r)
  {
  }

  /** `start not in tree and all(start not in children ...)`: the node has
      no children and is nobody's child. */
  predicate Unlinked(tree: ChildMap, start: int) {
    start !in tree && !exists p | p in tree :: start in tree[p]
  }

  /** `r3[i][j]` is set exactly when `nodes[j]` is a descendant of `nodes[i]`. */
  ghost predicate DescAt(tree: ChildMap, nodes: seq<int>, i: int, j: int)
    requires 0 <= i < |nodes| && 0 <= j < |nodes|
  {
    IsLast(nodes, i) && IsLast(nodes, j) && Desc(tree, nodes[i], nodes[j])
  }

  /** `r` marks the descendants of the start nodes `keys`. */
  ghost predicate DescMarked(tree: ChildMap, nodes: seq<int>, keys: seq<int>, r: Matrix) {
    && Square(r) && |r| == |nodes|
    && forall i, j {:trigger r[i][j]} :: 0 <= i < |nodes| && 0 <= j < |nodes| ==>
         (r[i][j] <==> DescAt(tree, nodes, i, j) && nodes[i] in keys)
  }

  /** A start node that is skipped has no descendants to mark. */
  lemma SkipStep(tree: ChildMap, nodes: seq<int>, keys: seq<int>, start: int, r: Matrix)
    requires Unlinked(tree, start) && DescMarked(tree, nodes, keys, r)
    ensures DescMarked(tree, nodes, keys + [start], r)
  {
    forall i, j | 0 <= i < |nodes| && 0 <= j < |nodes|
      ensures r[i][j] <==> DescAt(tree, nodes, i, j) && nodes[i] in keys + [start]
    {
      if Desc(tree, nodes[i], nodes[j]) {
        DescHasKids(tree, nodes[i], nodes[j]);
      }
    }
  }

  /** A start node that is explored has its row filled in. */
  lemma ExploreStep(tree: ChildMap, nodes: seq<int>, keys: seq<int>, start: int, r: Matrix, r': Matrix)
    requires start in nodes && DescMarked(tree, nodes, keys, r)
    requires Square(r') && |r'| == |nodes| && Explored(tree, nodes, start, r, r')
    ensures DescMarked(tree, nodes, keys + [start], r')
  {
    forall i, j | 0 <= i < |nodes| && 0 <= j < |nodes|
      ensures r'[i][j] <==> DescAt(tree, nodes, i, j) && nodes[i] in keys + [start]
    {
      assert r'[i][j] <==> r[i][j] || (i == Last(nodes, start) && IsLast(nodes, j) && Desc(tree, start, nodes[j]));
    }
  }

  /** The `for node in nodes` loop of `r3`: a walk from every listed node,
      skipping the nodes that the source's guard singles out. */
  method Descendants(tree: ChildMap, nodes: seq<int>, ghost rank: map<int, int>, ghost bound: int)
    returns (r3: Matrix)
    requires Indexed(tree, nodes) && Ranked(tree, rank, bound)
    ensures Square(r3) && |r3| == |nodes|
    ensures forall i, j :: 0 <= i < |nodes| && 0 <= j < |nodes| ==> (r3[i][j] <==> DescAt(tree, nodes, i, j))
  {
    r3 := Zero(|nodes|);
    var k := 0;
    while k < |nodes|
      invariant 0 <= k <= |nodes| && DescMarked(tree, nodes, nodes[..k], r3)
    {
      var start := nodes[k];
      if Unlinked(tree, start) {
        SkipStep(tree, nodes, nodes[..k], start, r3);
      } else {
        var r' := Explore(tree, nodes, start, r3, rank, bound);
        ExploreStep(tree, nodes, nodes[..k], start, r3, r');
        r3 := r';
      }
      assert nodes[..k + 1] == nodes[..k] + [start];
      k := k + 1;
    }
    assert nodes[..k] == nodes;
  }

  // r5: siblings.

  /** `x` and `y` stand at two different positions of `cs`, in either order. */
  ghost predicate SiblingPair(cs: seq<int>, x: int, y: int) {
    exists s, t :: 0 <= s < t < |cs| && ((cs[s] == x && cs[t] == y) || (cs[s] == y && cs[t] == x))
  }

  ghost predicate Siblings(tree: ChildMap, x: int, y: int) {
    exists p :: p in tree && SiblingPair(tree[p], x, y)
  }

  /** `r5[i][j]` is set exactly when `nodes[i]` and `nodes[j]` are listed
      at two positions of one children list. */
  ghost predicate SiblingAt(tree: ChildMap, nodes: seq<int>, i: int, j: int)
    requires 0 <= i < |nodes| && 0 <= j < |nodes|
  {
    IsLast(nodes, i) && IsLast(nodes, j) && Siblings(tree, nodes[i], nodes[j])
  }

  /** The cells the inner `for j` loop marks for one `i`: `x` against every
      later child `ys`, both ways round. */
  function PairCells(nodes: seq<int>, x: int, ys: seq<int>): (cells: seq<(int, int)>)
    requires x in nodes && forall y :: y in ys ==> y in nodes
    ensures forall t :: 0 <= t < |cells| ==> 0 <= cells[t].0 < |nodes| && 0 <= cells[t].1 < |nodes|
    decreases |ys|
  {
    if ys == [] then []
    else [(Last(nodes, x), Last(nodes, ys[0])), (Last(nodes, ys[0]), Last(nodes, x))] + PairCells(nodes, x, ys[1..])
  }

  /** The cells the nested loops mark for one children list. */
  function SiblingCells(nodes: seq<int>, cs: seq<int>): (cells: seq<(int, int)>)
    requires forall c :: c in cs ==> c in nodes
    ensures forall t :: 0 <= t < |cells| ==> 0 <= cells[t].0 < |nodes| && 0 <= cells[t].1 < |nodes|
    decreases |cs|
  {
    if cs == [] then []
    else PairCells(nodes, cs[0], cs[1..]) + SiblingCells(nodes, cs[1..])
  }

  lemma {:induction false} PairCellsHold(nodes: seq<int>, x: int, ys: seq<int>, i: int, j: int)
    requires x in nodes && forall y :: y in ys ==> y in nodes
    requires 0 <= i < |nodes| && 0 <= j < |nodes|
    ensures (i, j) in PairCells(nodes, x, ys) <==>
            IsLast(nodes, i) && IsLast(nodes, j) &&
            ((nodes[i] == x && nodes[j] in ys) || (nodes[i] in ys && nodes[j] == x))
    decreases |ys|
  {
    if ys != [] {
      PairCellsHold(nodes, x, ys[1..], i, j);
      CellOf(nodes, x, ys[0], i, j);
      CellOf(nodes, ys[0], x, i, j);
      assert forall y :: y in ys <==> y == ys[0] || y in ys[1..];
    }
  }

  /** `x` and `y` are siblings in `c :: rest` when one is `c` and the other
      in `rest`, or they are siblings in `rest`. */
  lemma SiblingPairCons(cs: seq<int>, x: int, y: int)
    requires cs != []
    ensures SiblingPair(cs, x, y) <==>
            ((x == cs[0] && y in cs[1..]) || (x in cs[1..] && y == cs[0]) || SiblingPair(cs[1..], x, y))
  {
    var rest := cs[1..];
    if SiblingPair(cs, x, y) {
      var s, t :| 0 <= s < t < |cs| && ((cs[s] == x && cs[t] == y) || (cs[s] == y && cs[t] == x));
      if s == 0 {
        assert cs[t] == rest[t - 1];
      } else {
        assert cs[s] == rest[s - 1] && cs[t] == rest[t - 1];
        assert 0 <= s - 1 < t - 1 < |rest|;
      }
    }
    if x == cs[0] && y in rest {
      var t :| 0 <= t < |rest| && rest[t] == y;
      assert cs[0] == x && cs[t + 1] == y;
    }
    if x in rest && y == cs[0] {
      var t :| 0 <= t < |rest| && rest[t] == x;
      assert cs[0] == y && cs[t + 1] == x;
    }
    if SiblingPair(rest, x, y) {
      var s, t :| 0 <= s < t < |rest| && ((rest[s] == x && rest[t] == y) || (rest[s] == y && rest[t] == x));
      assert cs[s + 1] == rest[s] && cs[t + 1] == rest[t];
    }
  }

  lemma {:induction false} SiblingCellsHold(nodes: seq<int>, cs: seq<int>, i: int, j: int)
    requires forall c :: c in cs ==> c in nodes
    requires 0 <= i < |nodes| && 0 <= j < |nodes|
    ensures (i, j) in SiblingCells(nodes, cs) <==>
            IsLast(nodes, i) && IsLast(nodes, j) && SiblingPair(cs, nodes[i], nodes[j])
    decreases |cs|
  {
    if cs == [] {
      assert !SiblingPair(cs, nodes[i], nodes[j]);
    } else {
      PairCellsHold(nodes, cs[0], cs[1..], i, j);
      SiblingCellsHold(nodes, cs[1..], i, j);
      SiblingPairCons(cs, nodes[i], nodes[j]);
    }
  }

  /** Siblings under one of the parents `keys`. */
  ghost predicate SiblingsUnder(tree: ChildMap, keys: seq<int>, x: int, y: int) {
    exists p :: p in keys && p in tree && SiblingPair(tree[p], x, y)
  }

  lemma SiblingsUnderStep(tree: ChildMap, keys: seq<int>, p: int, x: int, y: int)
    ensures SiblingsUnder(tree, keys + [p], x, y) <==>
            SiblingsUnder(tree, keys, x, y) || (p in tree && SiblingPair(tree[p], x, y))
  {
    if SiblingsUnder(tree, keys + [p], x, y) {
      var q :| q in keys + [p] && q in tree && SiblingPair(tree[q], x, y);
      if q != p {
        assert q in keys;
      }
    }
    if p in tree && SiblingPair(tree[p], x, y) {
      assert p in keys + [p];
    }
    if SiblingsUnder(tree, keys, x, y) {
      var q :| q in keys && q in tree && SiblingPair(tree[q], x, y);
      assert q in keys + [p];
    }
  }

  /** A parent with two children has children, so it is listed. */
  lemma SiblingsListed(tree: ChildMap, nodes: seq<int>, x: int, y: int)
    requires Indexed(tree, nodes)
    ensures SiblingsUnder(tree, nodes, x, y) <==> Siblings(tree, x, y)
  {
    if Siblings(tree, x, y) {
      var p :| p in tree && SiblingPair(tree[p], x, y);
      var s, t :| 0 <= s < t < |tree[p]| && ((tree[p][s] == x && tree[p][t] == y) || (tree[p][s] == y && tree[p][t] == x));
      assert tree[p][s] in tree[p];
      assert p in nodes;
    }
  }

  /** `r` marks the siblings under the parents `keys`. */
  ghost predicate SiblingsMarked(tree: ChildMap, nodes: seq<int>, keys: seq<int>, r: Matrix) {
    && Square(r) && |r| == |nodes|
    && forall i, j {:trigger r[i][j]} :: 0 <= i < |nodes| && 0 <= j < |nodes| ==>
         (r[i][j] <==> IsLast(nodes, i) && IsLast(nodes, j) && SiblingsUnder(tree, keys, nodes[i], nodes[j]))
  }

  /** One cell of one turn of the parent loop. */
  lemma SiblingCellStep(tree: ChildMap, nodes: seq<int>, keys: seq<int>, p: int, r: Matrix, i: int, j: int)
    requires Indexed(tree, nodes) && p in nodes && p in tree
    requires Square(r) && |r| == |nodes| && 0 <= i < |nodes| && 0 <= j < |nodes|
    requires r[i][j] <==> IsLast(nodes, i) && IsLast(nodes, j) && SiblingsUnder(tree, keys, nodes[i], nodes[j])
    ensures MarkAll(r, SiblingCells(nodes, tree[p]))[i][j] <==>
            IsLast(nodes, i) && IsLast(nodes, j) && SiblingsUnder(tree, keys + [p], nodes[i], nodes[j])
  {
    SiblingCellsHold(nodes, tree[p], i, j);
    SiblingsUnderStep(tree, keys, p, nodes[i], nodes[j]);
  }

  /** One turn of the parent loop. */
  lemma SiblingsMarkedStep(tree: ChildMap, nodes: seq<int>, keys: seq<int>, p: int, r: Matrix)
    requires Indexed(tree, nodes) && p in nodes && SiblingsMarked(tree, nodes, keys, r)
    ensures p in tree ==> SiblingsMarked(tree, nodes, keys + [p], MarkAll(r, SiblingCells(nodes, tree[p])))
    ensures p !in tree ==> SiblingsMarked(tree, nodes, keys + [p], r)
  {
    if p in tree {
      var r' := MarkAll(r, SiblingCells(nodes, tree[p]));
      forall i, j | 0 <= i < |nodes| && 0 <= j < |nodes|
        ensures r'[i][j] <==> IsLast(nodes, i) && IsLast(nodes, j) && SiblingsUnder(tree, keys + [p], nodes[i], nodes[j])
      {
        SiblingCellStep(tree, nodes, keys, p, r, i, j);
      }
      assert Square(r') && |r'| == |nodes|;
      assert SiblingsMarked(tree, nodes, keys + [p], r');
    } else {
      forall i, j | 0 <= i < |nodes| && 0 <= j < |nodes|
        ensures r[i][j] <==> IsLast(nodes, i) && IsLast(nodes, j) && SiblingsUnder(tree, keys + [p], nodes[i], nodes[j])
      {
        SiblingsUnderStep(tree, keys, p, nodes[i], nodes[j]);
      }
    }
  }

  /** The `for parent, children in tree.items()` loop of `r5`. */
  method SiblingMatrix(tree: ChildMap, nodes: seq<int>) returns (r5: Matrix)
    requires Indexed(tree, nodes)
    ensures Square(r5) && |r5| == |nodes|
    ensures forall i, j :: 0 <= i < |nodes| && 0 <= j < |nodes| ==> (r5[i][j] <==> SiblingAt(tree, nodes, i, j))
  {
    var n := |nodes|;
    r5 := Zero(n);
    assert SiblingsMarked(tree, nodes, [], r5);
    var k := 0;
    while k < n
      invariant 0 <= k <= n
      invariant SiblingsMarked(tree, nodes, nodes[..k], r5)
    {
      var p := nodes[k];
      SiblingsMarkedStep(tree, nodes, nodes[..k], p, r5);
      if p in tree {
        r5 := MarkAll(r5, SiblingCells(nodes, tree[p]));
      }
      assert nodes[..k + 1] == nodes[..k] + [p];
      k := k + 1;
    }
    assert nodes[..n] == nodes;
    forall i, j | 0 <= i < n && 0 <= j < n
      ensures r5[i][j] <==> SiblingAt(tree, nodes, i, j)
    {
      SiblingsListed(tree, nodes, nodes[i], nodes[j]);
    }
  }

  // The six matrices.

  /** What `build_matrices` returns, or the `KeyError` it raises when a
      parent or child is not in the node list. */
  datatype Relations =
    | MissingNode
    | Relations(a: Matrix, r1: Matrix, r2: Matrix, r3: Matrix, r4: Matrix, r5: Matrix)

  /** Each matrix is `|nodes|` square and holds the relation its name says,
      on the rows and columns the node index keeps. */
  ghost predicate Describes(tree: ChildMap, nodes: seq<int>, m: Relations)
    requires m.Relations?
  {
    && Square(m.a) && |m.a| == |nodes|
    && (forall i, j :: 0 <= i < |nodes| && 0 <= j < |nodes| ==> (m.a[i][j] <==> ChildAt(tree, nodes, i, j)))
    && m.r1 == m.a
    && m.r2 == Transpose(m.r1)
    && Square(m.r3) && |m.r3| == |nodes|
    && (forall i, j :: 0 <= i < |nodes| && 0 <= j < |nodes| ==> (m.r3[i][j] <==> DescAt(tree, nodes, i, j)))
    && m.r4 == Transpose(m.r3)
    && Square(m.r5) && |m.r5| == |nodes|
    && (forall i, j :: 0 <= i < |nodes| && 0 <= j < |nodes| ==> (m.r5[i][j] <==> SiblingAt(tree, nodes, i, j)))
  }

  /** `build_matrices`. A parent or child missing from the node list stops
      the source at the first loop, before the descendant walk; that walk
      only ends on a tree without cycles, hence the precondition. */
  method BuildMatrices(tree: ChildMap, nodes: seq<int>) returns (m: Relations)
    requires Indexed(tree, nodes) ==> Acyclic(tree)
    ensures m.MissingNode? <==> !Indexed(tree, nodes)
    ensures m.Relations? ==> Describes(tree, nodes, m)
  {
    if !Indexed(tree, nodes) {
      return MissingNode;
    }
    ghost var rank, bound :| Ranked(tree, rank, bound);
    var a := Adjacency(tree, nodes);
    var r3 := Descendants(tree, nodes, rank, bound);
    var r5 := SiblingMatrix(tree, nodes);
    m := Relations(a, a, Transpose(a), r3, Transpose(r3), r5);
  }

  // What the matrices say about each other.

  /** A direct child is a descendant: `r3` contains `r1`. */
  lemma DescendantsCoverChildren(tree: ChildMap, nodes: seq<int>, m: Relations)
    requires m.Relations? && Describes(tree, nodes, m)
    ensures Includes(m.r3, m.r1)
  {
    forall i, j | 0 <= i < |nodes| && 0 <= j < |nodes| && m.r1[i][j]
      ensures m.r3[i][j]
    {
      DescChild(tree, nodes[i], nodes[j]);
    }
  }

  /** A descendant of a descendant is a descendant. */
  lemma DescendantsTransitive(tree: ChildMap, nodes: seq<int>, m: Relations)
    requires m.Relations? && Describes(tree, nodes, m)
    ensures Transitive(m.r3)
  {
    forall i, j, k | 0 <= i < |nodes| && 0 <= j < |nodes| && 0 <= k < |nodes| && m.r3[i][k] && m.r3[k][j]
      ensures m.r3[i][j]
    {
      DescTrans(tree, nodes[i], nodes[k], nodes[j]);
    }
  }

  /** In a tree without cycles no node is its own descendant: the diagonal
      of `r3` is zero. */
  lemma DescendantsIrreflexive(tree: ChildMap, nodes: seq<int>, m: Relations)
    requires Acyclic(tree) && m.Relations? && Describes(tree, nodes, m)
    ensures Irreflexive(m.r3)
  {
    var rank, bound :| Ranked(tree, rank, bound);
    forall i | 0 <= i < |nodes|
      ensures !m.r3[i][i]
    {
      NoSelfDesc(tree, rank, bound, nodes[i]);
    }
  }

  lemma KidListed(tree: ChildMap, nodes: seq<int>, p: int, c: int)
    requires Indexed(tree, nodes) && c in Kids(tree, p)
    ensures p in nodes && c in nodes
  {
    assert p in tree && c in tree[p];
  }

  /** A way down the tree between listed nodes, read as a walk along set
      entries of the adjacency matrix. */
  lemma DownToPath(tree: ChildMap, nodes: seq<int>, m: Relations, q: seq<int>) returns (p: seq<int>)
    requires Indexed(tree, nodes) && m.Relations? && Describes(tree, nodes, m)
    requires Down(tree, q) && |q| >= 2 && q[0] in nodes
    ensures q[|q| - 1] in nodes
    ensures IsPath(m.a, p) && p[0] == Last(nodes, q[0]) && p[|p| - 1] == Last(nodes, q[|q| - 1])
  {
    forall t | 0 <= t < |q|
      ensures q[t] in nodes
    {
      if t > 0 {
        var u := t - 1;
        assert q[u + 1] in Kids(tree, q[u]);
        KidListed(tree, nodes, q[u], q[u + 1]);
      }
    }
    p := seq(|q|, t requires 0 <= t < |q| => Last(nodes, q[t]));
    forall t | 0 <= t < |p| - 1
      ensures m.a[p[t]][p[t + 1]]
    {
      assert nodes[p[t]] == q[t] && nodes[p[t + 1]] == q[t + 1];
      assert ChildAt(tree, nodes, p[t], p[t + 1]);
    }
  }

  /** `r3` is the transitive closure of `A`: the descendant walk marks
      exactly the pairs joined by one or more parent-to-child steps. */
  lemma DescendantsAreClosure(tree: ChildMap, nodes: seq<int>, m: Relations)
    requires Indexed(tree, nodes) && m.Relations? && Describes(tree, nodes, m)
    ensures forall i, j :: 0 <= i < |nodes| && 0 <= j < |nodes| ==> (m.r3[i][j] <==> Reach(m.r1, i, j))
  {
    DescendantsCoverChildren(tree, nodes, m);
    DescendantsTransitive(tree, nodes, m);
    forall i, j | 0 <= i < |nodes| && 0 <= j < |nodes|
      ensures m.r3[i][j] <==> Reach(m.r1, i, j)
    {
      if Reach(m.r1, i, j) {
        var p :| IsPath(m.r1, p) && p[0] == i && p[|p| - 1] == j;
        PathIncluded(m.r1, m.r3, p);
      }
      if m.r3[i][j] {
        var q :| Down(tree, q) && |q| >= 2 && q[0] == nodes[i] && q[|q| - 1] == nodes[j];
        var p := DownToPath(tree, nodes, m, q);
      }
    }
  }

  /** Sibling is a symmetric relation. */
  lemma SiblingsSymmetric(tree: ChildMap, nodes: seq<int>, m: Relations)
    requires m.Relations? && Describes(tree, nodes, m)
    ensures Symmetric(m.r5)
  {
    forall i, j | 0 <= i < |nodes| && 0 <= j < |nodes| && m.r5[i][j]
      ensures m.r5[j][i]
    {
      var p :| p in tree && SiblingPair(tree[p], nodes[i], nodes[j]);
      assert SiblingPair(tree[p], nodes[j], nodes[i]);
    }
  }

  /** Two positions of one children list hold different nodes when no
      node is listed twice. */
  lemma SiblingsDiffer(tree: ChildMap, p: int, x: int, y: int)
    requires ChildrenOnce(tree) && p in tree && SiblingPair(tree[p], x, y)
    ensures x != y && x in tree[p] && y in tree[p]
  {
    var s, t :| 0 <= s < t < |tree[p]| && ((tree[p][s] == x && tree[p][t] == y) || (tree[p][s] == y && tree[p][t] == x));
  }

  lemma NoSelfSibling(tree: ChildMap, x: int)
    requires ChildrenOnce(tree)
    ensures !Siblings(tree, x, x)
  {
    forall p | p in tree
      ensures !SiblingPair(tree[p], x, x)
    {
      forall s, t | 0 <= s < t < |tree[p]|
        ensures tree[p][s] != x || tree[p][t] != x
      {
      }
    }
  }

  /** Two different members of one list stand at two positions of it. */
  lemma MembersPair(cs: seq<int>, x: int, y: int)
    requires x in cs && y in cs && x != y
    ensures SiblingPair(cs, x, y)
  {
    var s :| 0 <= s < |cs| && cs[s] == x;
    var t :| 0 <= t < |cs| && cs[t] == y;
    if t < s {
      assert cs[t] == y && cs[s] == x;
    }
  }

  /** When no node is listed twice (as in the trees the breadth-first walk
      builds) no node is its own sibling: the diagonal of `r5` is zero. */
  lemma SiblingsIrreflexive(tree: ChildMap, nodes: seq<int>, m: Relations)
    requires ChildrenOnce(tree) && m.Relations? && Describes(tree, nodes, m)
    ensures Irreflexive(m.r5)
  {
    forall i | 0 <= i < |nodes|
      ensures !m.r5[i][i]
    {
      NoSelfSibling(tree, nodes[i]);
    }
  }

  /** `r5` against `A`: two different nodes are siblings exactly when one
      row of the adjacency matrix has both their columns set. */
  lemma SiblingsShareParent(tree: ChildMap, nodes: seq<int>, m: Relations)
    requires ChildrenOnce(tree) && Indexed(tree, nodes) && m.Relations? && Describes(tree, nodes, m)
    ensures forall i, j :: 0 <= i < |nodes| && 0 <= j < |nodes| ==>
      (m.r5[i][j] <==> i != j && exists k :: 0 <= k < |nodes| && m.a[k][i] && m.a[k][j])
  {
    forall i, j | 0 <= i < |nodes| && 0 <= j < |nodes|
      ensures m.r5[i][j] <==> i != j && exists k :: 0 <= k < |nodes| && m.a[k][i] && m.a[k][j]
    {
      if m.r5[i][j] {
        var p :| p in tree && SiblingPair(tree[p], nodes[i], nodes[j]);
        SiblingsDiffer(tree, p, nodes[i], nodes[j]);
        assert p in nodes;
        var k := Last(nodes, p);
        assert ChildAt(tree, nodes, k, i) && ChildAt(tree, nodes, k, j);
      }
      if i != j && exists k :: 0 <= k < |nodes| && m.a[k][i] && m.a[k][j] {
        var k :| 0 <= k < |nodes| && m.a[k][i] && m.a[k][j];
        var p := nodes[k];
        assert p in tree;
        MembersPair(tree[p], nodes[i], nodes[j]);
      }
    }
  }
}
