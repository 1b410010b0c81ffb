/** `build_tree` (task1/task1.py:40-74): an undirected edge list is oriented
    away from a root by a breadth-first walk, and the nodes are listed root
    first, then the others in ascending order. Node names are integers here. */
module Tree {
  import opened Sorting

  type Edge = (int, int)

  /** The parent-to-children dictionary; a node is a key only once it has
      received a child. */
  type ChildMap = map<int, seq<int>>

  // The undirected graph of the edge list.

  predicate Adjacent(edges: seq<Edge>, u: int, v: int) {
    exists k :: 0 <= k < |edges| && ((edges[k].0 == u && edges[k].1 == v) || (edges[k].1 == u && edges[k].0 == v))
  }

  predicate IsEndpoint(edges: seq<Edge>, v: int) {
    exists k :: 0 <= k < |edges| && (edges[k].0 == v || edges[k].1 == v)
  }

  /** `undirected[u]`: each edge `(p, q)` appends `q` to the list of `p`,
      then `p` to the list of `q`, in edge order. */
  function Neighbours(edges: seq<Edge>, u: int): (ns: seq<int>)
    ensures forall v :: v in ns <==> Adjacent(edges, u, v)
    decreases |edges|
  {
    if edges == [] then []
    else
      var front := edges[..|edges| - 1];
      var e := edges[|edges| - 1];
      assert forall k :: 0 <= k < |front| ==> front[k] == edges[k];
      Neighbours(front, u) + (if e.0 == u then [e.1] else []) + (if e.1 == u then [e.0] else [])
  }

  /** Both endpoints of every edge, in edge order; `all_nodes` is its set. */
  function EndpointList(edges: seq<Edge>): (vs: seq<int>)
    ensures forall v :: v in vs <==> IsEndpoint(edges, v)
    decreases |edges|
  {
    if edges == [] then []
    else
      var front := edges[..|edges| - 1];
      var e := edges[|edges| - 1];
      assert forall k :: 0 <= k < |front| ==> front[k] == edges[k];
      EndpointList(front) + [e.0, e.1]
  }

  function AllNodes(edges: seq<Edge>): (s: set<int>)
    ensures forall v :: v in s <==> IsEndpoint(edges, v)
  {
    set v | v in EndpointList(edges)
  }

  // The node list.

  predicate Increasing(s: seq<int>) {
    forall a, b :: 0 <= a < b < |s| ==> s[a] < s[b]
  }

  /** Every occurrence of `x` removed. */
  function Without(s: seq<int>, x: int): (r: seq<int>)
    ensures forall v :: v in r <==> v in s && v != x
    decreases |s|
  {
    if s == [] then []
    else (if s[0] == x then [] else [s[0]]) + Without(s[1..], x)
  }

  /** A sorted list with repeated values kept once. */
  function Squeeze(s: seq<int>): (r: seq<int>)
    requires Sorted(s)
    ensures Increasing(r)
    ensures forall v :: v in r <==> v in s
    ensures s != [] ==> r != [] && r[0] == s[0]
    decreases |s|
  {
    if |s| <= 1 then s
    else if s[0] == s[1] then Squeeze(s[1..])
    else [s[0]] + Squeeze(s[1..])
  }

  /** `sorted(n for n in all_nodes if n != root)` */
  function Others(edges: seq<Edge>, root: int): (others: seq<int>)
    ensures Increasing(others)
    ensures forall v :: v in others <==> v != root && IsEndpoint(edges, v)
  {
    var sorted := Sort(Without(EndpointList(edges), root));
    assert forall v :: v in sorted <==> v in multiset(sorted);
    Squeeze(sorted)
  }

  /** `[root] + others` */
  function NodeOrder(edges: seq<Edge>, root: int): (nodes: seq<int>)
    ensures |nodes| > 0 && nodes[0] == root
    ensures Increasing(nodes[1..])
    ensures NoDup(nodes)
    ensures forall v :: v in nodes <==> v == root || IsEndpoint(edges, v)
  {
    var others := Others(edges, root);
    PrependDistinct(root, others);
    assert ([root] + others)[1..] == others;
    [root] + others
  }

  lemma PrependDistinct(x: int, s: seq<int>)
    requires Increasing(s) && x !in s
    ensures NoDup([x] + s)
  {
    var r := [x] + s;
    forall a, b | 0 <= a < b < |r|
      ensures r[a] != r[b]
    {
      assert r[b] == s[b - 1];
      if a > 0 {
        assert r[a] == s[a - 1];
      }
    }
  }

  // Orientation.

  datatype TreeResult = RootMissing | Built(tree: ChildMap, nodes: seq<int>)

  datatype Option = None | Some(value: int)

  /** `tree.get(v, [])` */
  function Kids(tree: ChildMap, v: int): seq<int> {
    if v in tree then tree[v] else []
  }

  /** A path along undirected edges. */
  ghost predicate Walk(edges: seq<Edge>, p: seq<int>) {
    |p| > 0 && forall i :: 0 <= i < |p| - 1 ==> Adjacent(edges, p[i], p[i + 1])
  }

  ghost predicate Reachable(edges: seq<Edge>, root: int, v: int) {
    exists p :: Walk(edges, p) && p[0] == root && p[|p| - 1] == v
  }

  ghost predicate IsChild(tree: ChildMap, v: int) {
    exists p :: p in tree && v in tree[p]
  }

  /** No node is listed twice among all the children lists. */
  ghost predicate ChildrenOnce(tree: ChildMap) {
    forall p, q, i, j ::
      p in tree && q in tree && 0 <= i < |tree[p]| && 0 <= j < |tree[q]| && tree[p][i] == tree[q][j]
      ==> p == q && i == j
  }

  /** `rank` strictly decreases from each parent to each of its children, so
      following children always ends. */
  ghost predicate Ranked(tree: ChildMap, rank: map<int, int>, bound: int) {
    && (forall v :: v in rank ==> 0 <= rank[v] < bound)
    && (forall p :: p in tree ==> p in rank)
    && (forall p, c :: p in tree && c in tree[p] ==> c in rank && rank[c] < rank[p])
  }

  ghost predicate Acyclic(tree: ChildMap) {
    exists rank, bound :: Ranked(tree, rank, bound)
  }

  /** The children lists of the nodes of `s`, laid end to end in the
      order of `s`. */
  function Layout(tree: ChildMap, s: seq<int>): seq<int>
    decreases |s|
  {
    if s == [] then [] else Layout(tree, s[..|s| - 1]) + Kids(tree, s[|s| - 1])
  }

  /** None of the first `i` nodes found is adjacent to `c`. */
  ghost predicate NoneAdjacentBefore(edges: seq<Edge>, found: seq<int>, i: int, c: int)
    requires 0 <= i <= |found|
  {
    forall k :: 0 <= k < i ==> !Adjacent(edges, found[k], c)
  }

  /** Every parent and child has been found; each child is found after its
      parent, and its parent is the first node found that is adjacent to
      it. */
  ghost predicate FirstFinder(edges: seq<Edge>, tree: ChildMap, found: seq<int>) {
    && AllFound(tree, found)
    && (forall i, j :: 0 <= i < |found| && 0 <= j < |found| && found[i] in tree && found[j] in tree[found[i]] ==>
          i < j && NoneAdjacentBefore(edges, found, i, found[j]))
  }

  ghost predicate AllFound(tree: ChildMap, found: seq<int>) {
    && (forall p :: p in tree ==> p in found)
    && (forall p, k :: p in tree && 0 <= k < |tree[p]| ==> tree[p][k] in found)
  }

  /** `x` first occurs in `ns` before `y` does. */
  ghost predicate Precedes(ns: seq<int>, x: int, y: int) {
    x in ns && y in ns && IndexOf(ns, x) < IndexOf(ns, y)
  }

  /** Each children list keeps the order in which its members first appear
      in the parent's neighbour list. */
  ghost predicate NeighbourOrder(edges: seq<Edge>, tree: ChildMap) {
    forall p, i, j :: p in tree && 0 <= i < j < |tree[p]| ==> Precedes(Neighbours(edges, p), tree[p][i], tree[p][j])
  }

  /** `found` is the order in which a breadth-first walk from `root` finds
      the reachable nodes: the root, then the children lists laid end to
      end in the order their parents were found. */
  ghost predicate BreadthFirst(edges: seq<Edge>, root: int, tree: ChildMap, found: seq<int>) {
    && |found| > 0 && found[0] == root && NoDup(found)
    && (forall v :: v in found <==> Reachable(edges, root, v))
    && found == [root] + Layout(tree, found)
    && FirstFinder(edges, tree, found)
    && NeighbourOrder(edges, tree)
  }

  /** What the breadth-first walk builds: every node reachable from the root
      other than the root is a child exactly once, every parent-child pair
      is an edge in one direction or the other, there is no cycle, and the
      children are the ones the breadth-first discovery order assigns. */
  ghost predicate Oriented(edges: seq<Edge>, root: int, tree: ChildMap) {
    && (forall p :: p in tree ==> |tree[p]| > 0 && Reachable(edges, root, p))
    && (forall p, c :: p in tree && c in tree[p] ==> Adjacent(edges, p, c))
    && (forall v :: IsChild(tree, v) <==> v != root && Reachable(edges, root, v))
    && ChildrenOnce(tree)
    && Acyclic(tree)
    && exists found :: BreadthFirst(edges, root, tree, found)
  }

  /** `build_tree`: fails when the root is not an endpoint of any edge (in
      particular when there are no edges). */
  method BuildTree(edges: seq<Edge>, root: int) returns (res: TreeResult)
    ensures res.RootMissing? <==> !IsEndpoint(edges, root)
    ensures res.Built? ==> res.nodes == NodeOrder(edges, root) && Oriented(edges, root, res.tree)
  {
    if root !in AllNodes(edges) {
      return RootMissing;
    }
    var tree := Orient(edges, root);
    res := Built(tree, NodeOrder(edges, root));
  }

  /** The queue, the visited set and the finished nodes of the walk. */
  ghost predicate Frontier(edges: seq<Edge>, root: int, visited: set<int>, queue: seq<int>, done: set<int>) {
    && root in visited
    && visited <= AllNodes(edges)
    && (forall v :: v in visited <==> v in done || v in queue)
    && (forall v :: v in queue ==> v !in done)
    && NoDup(queue)
    && (forall u, v :: u in done && Adjacent(edges, u, v) ==> v in visited)
    && (forall v :: v in visited ==> Reachable(edges, root, v))
  }

  /** The children map so far; `order` numbers the visited nodes in the
      order they were found. */
  ghost predicate Grown(edges: seq<Edge>, root: int, tree: ChildMap, visited: set<int>, order: map<int, nat>) {
    && order.Keys == visited
    && (forall v :: v in order ==> order[v] < |visited|)
    && (forall p :: p in tree ==> |tree[p]| > 0 && p in visited)
    && (forall p, c :: p in tree && c in tree[p] ==> Adjacent(edges, p, c) && c in visited && order[p] < order[c])
    && (forall v {:trigger IsChild(tree, v)} :: IsChild(tree, v) <==> v in visited && v != root)
    && ChildrenOnce(tree)
  }

  /** The discovery order of the walk so far: `found` lists the visited
      nodes in the order they were found, the first `dq` of them have left
      the queue, no node found after the `dq`-th has children yet, and the
      children so far are the ones `BreadthFirst` describes. */
  ghost predicate Discovery(edges: seq<Edge>, root: int, tree: ChildMap, visited: set<int>, queue: seq<int>,
                            done: set<int>, found: seq<int>, dq: nat) {
    && |found| > 0 && found[0] == root && NoDup(found)
    && dq <= |found| && queue == found[dq..]
    && (forall v :: v in done <==> v in found[..dq])
    && (forall v :: v in visited <==> v in found)
    && (forall j :: dq < j < |found| ==> found[j] !in tree)
    && found == [root] + Layout(tree, found)
    && FirstFinder(edges, tree, found)
    && NeighbourOrder(edges, tree)
  }

  /** The breadth-first loop. */
  method Orient(edges: seq<Edge>, root: int) returns (tree: ChildMap)
    requires IsEndpoint(edges, root)
    ensures Oriented(edges, root, tree)
  {
    var visited: set<int> := {root};
    var queue: seq<int> := [root];
    tree := map[];
    ghost var done: set<int> := {};
    ghost var order: map<int, nat> := map[root := 0];
    ghost var found: seq<int> := [root];
    ghost var dq: nat := 0;
    ghost var all := AllNodes(edges);
    Start(edges, root);
    while queue != []
      invariant Walking(edges, root, tree, visited, queue, done, order, found, dq)
      decreases |all - visited|, |queue|
    {
      var parent := queue[0];
      ghost var visited0 := visited;
      ghost var more;
      visited, queue, tree, order, found, more :=
        VisitNeighbours(edges, root, parent, visited, queue, tree, done, order, found, dq);
      Advance(edges, root, parent, tree, visited, queue, done, order, found, dq);
      done := done + {parent};
      dq := dq + 1;
      if more.Some? {
        FewerUnvisited(all, visited0, visited, more.value);
      }
    }
    Finish(edges, root, tree, visited, done, order, found, dq);
  }

  /** Everything the breadth-first loop keeps between two rounds. */
  ghost predicate Walking(edges: seq<Edge>, root: int, tree: ChildMap, visited: set<int>, queue: seq<int>,
                          done: set<int>, order: map<int, nat>, found: seq<int>, dq: nat) {
    && Frontier(edges, root, visited, queue, done)
    && Grown(edges, root, tree, visited, order)
    && Discovery(edges, root, tree, visited, queue, done, found, dq)
    && (dq < |found| ==> found[dq] !in tree)
  }

  /** Once all of its neighbours are visited, `parent` leaves the queue. */
  lemma Advance(edges: seq<Edge>, root: int, parent: int, tree: ChildMap, visited: set<int>, queue: seq<int>,
                done: set<int>, order: map<int, nat>, found: seq<int>, dq: nat)
    requires Frontier(edges, root, visited, [parent] + queue, done)
    requires Grown(edges, root, tree, visited, order)
    requires Discovery(edges, root, tree, visited, [parent] + queue, done, found, dq)
    requires forall v :: v in Neighbours(edges, parent) ==> v in visited
    ensures Walking(edges, root, tree, visited, queue, done + {parent}, order, found, dq + 1)
  {
    FinishParent(edges, root, parent, visited, queue, done);
    Dequeue(edges, root, parent, tree, visited, queue, done, found, dq);
  }

  /** The walk starts with the root alone in the queue. */
  lemma Start(edges: seq<Edge>, root: int)
    requires IsEndpoint(edges, root)
    ensures Walking(edges, root, map[], {root}, [root], {}, map[root := 0], [root], 0)
  {
    StartFrontier(edges, root);
    StartDiscovery(edges, root);
  }

  lemma StartFrontier(edges: seq<Edge>, root: int)
    requires IsEndpoint(edges, root)
    ensures Frontier(edges, root, {root}, [root], {})
    ensures Grown(edges, root, map[], {root}, map[root := 0])
  {
    assert Walk(edges, [root]);
  }

  lemma StartDiscovery(edges: seq<Edge>, root: int)
    ensures Discovery(edges, root, map[], {root}, [root], {}, [root], 0)
  {
    assert Layout(map[], [root]) == Layout(map[], []) + Kids(map[], root);
  }

  /** Taking `parent` off the queue moves the boundary of the dequeued
      nodes by one. */
  lemma Dequeue(edges: seq<Edge>, root: int, parent: int, tree: ChildMap, visited: set<int>, queue: seq<int>,
                done: set<int>, found: seq<int>, dq: nat)
    requires Discovery(edges, root, tree, visited, [parent] + queue, done, found, dq)
    ensures Discovery(edges, root, tree, visited, queue, done + {parent}, found, dq + 1)
    ensures dq + 1 < |found| ==> found[dq + 1] !in tree
  {
    assert found[dq] == ([parent] + queue)[0] == parent;
    assert queue == found[dq + 1..];
    assert found[..dq + 1] == found[..dq] + [parent];
  }

  /** The body of the breadth-first loop: pop `parent` and visit its
      neighbours in order, making each one not yet visited its child. The
      ghost result is a node this found, when it found any. */
  method VisitNeighbours(edges: seq<Edge>, root: int, parent: int, visited0: set<int>, queue0: seq<int>,
                         tree0: ChildMap, ghost done: set<int>, ghost order0: map<int, nat>,
                         ghost found0: seq<int>, ghost dq: nat)
    returns (visited: set<int>, queue: seq<int>, tree: ChildMap, ghost order: map<int, nat>,
             ghost found: seq<int>, ghost more: Option)
    requires queue0 != [] && parent == queue0[0]
    requires Frontier(edges, root, visited0, queue0, done)
    requires Grown(edges, root, tree0, visited0, order0)
    requires Discovery(edges, root, tree0, visited0, queue0, done, found0, dq)
    requires dq < |found0| ==> found0[dq] !in tree0
    ensures Frontier(edges, root, visited, [parent] + queue, done)
    ensures Grown(edges, root, tree, visited, order)
    ensures Discovery(edges, root, tree, visited, [parent] + queue, done, found, dq)
    ensures forall v :: v in Neighbours(edges, parent) ==> v in visited
    ensures visited0 <= visited
    ensures more.Some? ==> more.value in visited && more.value !in visited0
    ensures more.None? ==> visited == visited0 && queue == queue0[1..]
  {
    assert queue0 == [parent] + queue0[1..];
    assert found0[dq] == queue0[0];
    visited, queue, tree, order, found, more :=
      VisitAll(edges, root, parent, 0, visited0, queue0[1..], tree0, done, order0, found0, dq);
  }

  /** The neighbours of `parent` from position `t` of its neighbour list
      on, one after the other. The children `parent` has so far come from
      the positions before `t`, all of which are visited. */
  method VisitAll(edges: seq<Edge>, root: int, parent: int, t: nat, visited0: set<int>, queue0: seq<int>,
                  tree0: ChildMap, ghost done: set<int>, ghost order0: map<int, nat>,
                  ghost found0: seq<int>, ghost dq: nat)
    returns (visited: set<int>, queue: seq<int>, tree: ChildMap, ghost order: map<int, nat>,
             ghost found: seq<int>, ghost more: Option)
    requires t <= |Neighbours(edges, parent)|
    requires Frontier(edges, root, visited0, [parent] + queue0, done)
    requires Grown(edges, root, tree0, visited0, order0)
    requires Discovery(edges, root, tree0, visited0, [parent] + queue0, done, found0, dq)
    requires KidsBefore(edges, tree0, parent, t, visited0)
    ensures Frontier(edges, root, visited, [parent] + queue, done)
    ensures Grown(edges, root, tree, visited, order)
    ensures Discovery(edges, root, tree, visited, [parent] + queue, done, found, dq)
    ensures forall v :: v in Neighbours(edges, parent) ==> v in visited
    ensures visited0 <= visited
    ensures more.Some? ==> more.value in visited && more.value !in visited0
    ensures more.None? ==> visited == visited0 && queue == queue0
    decreases |Neighbours(edges, parent)| - t
  {
    var ns := Neighbours(edges, parent);
    if t == |ns| {
      assert forall v :: v in ns ==> exists m :: 0 <= m < t && ns[m] == v;
      return visited0, queue0, tree0, order0, found0, None;
    }
    var visited1, queue1, tree1, order1, found1 :=
      Visit(edges, root, parent, t, visited0, queue0, tree0, done, order0, found0, dq);
    ghost var later;
    visited, queue, tree, order, found, later :=
      VisitAll(edges, root, parent, t + 1, visited1, queue1, tree1, done, order1, found1, dq);
    if ns[t] !in visited0 {
      more := Some(ns[t]);
    } else {
      more := later;
    }
  }

  /** `x` first occurs in `ns` before position `t`. */
  ghost predicate SeenBefore(ns: seq<int>, x: int, t: int) {
    x in ns && IndexOf(ns, x) < t
  }

  /** The children `parent` has so far sit before position `t` of its
      neighbour list, and every neighbour before `t` is visited. */
  ghost predicate KidsBefore(edges: seq<Edge>, tree: ChildMap, parent: int, t: nat, visited: set<int>) {
    && t <= |Neighbours(edges, parent)|
    && (forall i :: 0 <= i < |Kids(tree, parent)| ==> SeenBefore(Neighbours(edges, parent), Kids(tree, parent)[i], t))
    && (forall m :: 0 <= m < t ==> Neighbours(edges, parent)[m] in visited)
  }

  /** The neighbour `nb` at position `t` of the neighbour list of `parent`:
      when it is not yet visited it becomes the last child of `parent` and
      joins the end of the queue. */
  method Visit(edges: seq<Edge>, root: int, parent: int, t: nat, visited0: set<int>, queue0: seq<int>,
               tree0: ChildMap, ghost done: set<int>, ghost order0: map<int, nat>,
               ghost found0: seq<int>, ghost dq: nat)
    returns (visited: set<int>, queue: seq<int>, tree: ChildMap, ghost order: map<int, nat>, ghost found: seq<int>)
    requires t < |Neighbours(edges, parent)|
    requires Frontier(edges, root, visited0, [parent] + queue0, done)
    requires Grown(edges, root, tree0, visited0, order0)
    requires Discovery(edges, root, tree0, visited0, [parent] + queue0, done, found0, dq)
    requires KidsBefore(edges, tree0, parent, t, visited0)
    ensures Frontier(edges, root, visited, [parent] + queue, done)
    ensures Grown(edges, root, tree, visited, order)
    ensures Discovery(edges, root, tree, visited, [parent] + queue, done, found, dq)
    ensures KidsBefore(edges, tree, parent, t + 1, visited)
    ensures visited == visited0 + {Neighbours(edges, parent)[t]}
    ensures Neighbours(edges, parent)[t] in visited0 ==> visited == visited0 && queue == queue0 && tree == tree0
    ensures Neighbours(edges, parent)[t] !in visited0 ==>
      queue == queue0 + [Neighbours(edges, parent)[t]] && tree == AddChild(tree0, parent, Neighbours(edges, parent)[t])
  {
    var nb := Neighbours(edges, parent)[t];
    visited, queue, tree, order, found := visited0, queue0, tree0, order0, found0;
    if nb !in visited {
      assert parent in [parent] + queue0;
      VisitFrontier(edges, root, parent, nb, visited, queue, done);
      VisitGrown(edges, root, parent, nb, tree, visited, order);
      Discover(edges, root, parent, t, nb, tree, visited, queue, done, found, dq);
      order := order[nb := |visited|];
      tree := AddChild(tree, parent, nb);
      visited := visited + {nb};
      queue := queue + [nb];
      found := found + [nb];
    } else {
      KidsBeforeVisited(edges, tree, parent, t, visited);
    }
  }

  /** A neighbour already visited leaves the children of `parent` as they
      are. */
  lemma KidsBeforeVisited(edges: seq<Edge>, tree: ChildMap, parent: int, t: nat, visited: set<int>)
    requires t < |Neighbours(edges, parent)| && Neighbours(edges, parent)[t] in visited
    requires KidsBefore(edges, tree, parent, t, visited)
    ensures KidsBefore(edges, tree, parent, t + 1, visited)
  {
  }

  /** Finding `nb` at position `t` of the neighbour list of `parent` keeps
      the discovery order. */
  lemma Discover(edges: seq<Edge>, root: int, parent: int, t: nat, nb: int, tree: ChildMap, visited: set<int>,
                 queue: seq<int>, done: set<int>, found: seq<int>, dq: nat)
    requires t < |Neighbours(edges, parent)| && nb == Neighbours(edges, parent)[t] && nb !in visited
    requires Discovery(edges, root, tree, visited, [parent] + queue, done, found, dq)
    requires KidsBefore(edges, tree, parent, t, visited)
    requires forall u, v :: u in done && Adjacent(edges, u, v) ==> v in visited
    requires forall p :: p in tree ==> p in visited
    ensures Discovery(edges, root, AddChild(tree, parent, nb), visited + {nb}, [parent] + (queue + [nb]),
                      done, found + [nb], dq)
    ensures KidsBefore(edges, AddChild(tree, parent, nb), parent, t + 1, visited + {nb})
  {
    assert found[dq] == ([parent] + queue)[0] == parent;
    assert nb !in found;
    DiscoverQueue(root, parent, nb, tree, visited, queue, done, found, dq);
    DiscoverLayout(root, parent, nb, tree, found, dq);
    DiscoverFirst(edges, parent, nb, tree, found, dq, done, visited);
    DiscoverOrder(edges, parent, t, tree, visited);
    DiscoveryIntro(edges, root, AddChild(tree, parent, nb), visited + {nb}, [parent] + (queue + [nb]),
                   done, found + [nb], dq);
  }

  lemma DiscoveryIntro(edges: seq<Edge>, root: int, tree: ChildMap, visited: set<int>, queue: seq<int>,
                       done: set<int>, found: seq<int>, dq: nat)
    requires |found| > 0 && found[0] == root && NoDup(found)
    requires dq <= |found| && queue == found[dq..]
    requires forall v :: v in done <==> v in found[..dq]
    requires forall v :: v in visited <==> v in found
    requires forall j :: dq < j < |found| ==> found[j] !in tree
    requires found == [root] + Layout(tree, found)
    requires FirstFinder(edges, tree, found)
    requires NeighbourOrder(edges, tree)
    ensures Discovery(edges, root, tree, visited, queue, done, found, dq)
  {
  }

  /** The queue, the visited set and the childless tail of the discovery
      order after `nb` is found. */
  lemma DiscoverQueue(root: int, parent: int, nb: int, tree: ChildMap, visited: set<int>,
                      queue: seq<int>, done: set<int>, found: seq<int>, dq: nat)
    requires |found| > 0 && found[0] == root && NoDup(found)
    requires dq <= |found| && [parent] + queue == found[dq..]
    requires forall v :: v in done <==> v in found[..dq]
    requires forall v :: v in visited <==> v in found
    requires forall j :: dq < j < |found| ==> found[j] !in tree
    requires nb !in found && nb !in tree
    ensures NoDup(found + [nb]) && (found + [nb])[0] == root
    ensures [parent] + (queue + [nb]) == (found + [nb])[dq..]
    ensures forall v :: v in done <==> v in (found + [nb])[..dq]
    ensures forall v :: v in visited + {nb} <==> v in found + [nb]
    ensures forall j :: dq < j < |found + [nb]| ==> (found + [nb])[j] !in AddChild(tree, parent, nb)
  {
    var f' := found + [nb];
    assert found[dq] == parent;
    assert f'[..dq] == found[..dq];
    forall j | dq < j < |f'|
      ensures f'[j] !in AddChild(tree, parent, nb)
    {
      if j < |found| {
        assert f'[j] == found[j] != found[dq];
      }
    }
  }

  /** The layout gains `nb` at its end: every node after `parent` in the
      discovery order is still without children. */
  lemma DiscoverLayout(root: int, parent: int, nb: int, tree: ChildMap, found: seq<int>, dq: nat)
    requires NoDup(found) && dq < |found| && found[dq] == parent
    requires forall j :: dq < j < |found| ==> found[j] !in tree
    requires found == [root] + Layout(tree, found)
    requires nb !in tree && nb != parent
    ensures found + [nb] == [root] + Layout(AddChild(tree, parent, nb), found + [nb])
  {
    var t' := AddChild(tree, parent, nb);
    assert (found + [nb])[..|found|] == found;
    assert Layout(t', found + [nb]) == Layout(t', found) + Kids(t', nb);
    LayoutAddChild(tree, found, dq, parent, nb);
  }

  lemma {:induction false} LayoutAddChild(tree: ChildMap, s: seq<int>, d: nat, parent: int, nb: int)
    requires NoDup(s) && d < |s| && s[d] == parent
    requires forall j :: d < j < |s| ==> s[j] !in tree
    ensures Layout(AddChild(tree, parent, nb), s) == Layout(tree, s) + [nb]
    decreases |s|
  {
    var front := s[..|s| - 1];
    if d == |s| - 1 {
      LayoutAddLast(tree, s, parent, nb);
    } else {
      LayoutAddChild(tree, front, d, parent, nb);
      LayoutAddEarlier(tree, s, parent, nb);
    }
  }

  /** Adding to the last listed node extends the layout at its end. */
  lemma LayoutAddLast(tree: ChildMap, s: seq<int>, parent: int, nb: int)
    requires |s| > 0 && s[|s| - 1] == parent
    requires forall j :: 0 <= j < |s| - 1 ==> s[j] != parent
    ensures Layout(AddChild(tree, parent, nb), s) == Layout(tree, s) + [nb]
  {
    var t' := AddChild(tree, parent, nb);
    var front := s[..|s| - 1];
    forall j | 0 <= j < |front|
      ensures Kids(tree, front[j]) == Kids(t', front[j])
    {
      assert front[j] == s[j] != parent;
    }
    LayoutSame(tree, t', front);
    assert Kids(t', parent) == Kids(tree, parent) + [nb];
    assert Layout(t', s) == Layout(t', front) + Kids(t', parent);
    assert Layout(tree, s) == Layout(tree, front) + Kids(tree, parent);
  }

  /** A childless last node leaves the layout's growth to the nodes before. */
  lemma LayoutAddEarlier(tree: ChildMap, s: seq<int>, parent: int, nb: int)
    requires |s| > 0 && s[|s| - 1] != parent && s[|s| - 1] !in tree
    requires Layout(AddChild(tree, parent, nb), s[..|s| - 1]) == Layout(tree, s[..|s| - 1]) + [nb]
    ensures Layout(AddChild(tree, parent, nb), s) == Layout(tree, s) + [nb]
  {
    var t' := AddChild(tree, parent, nb);
    var front := s[..|s| - 1];
    var last := s[|s| - 1];
    assert Kids(t', last) == [] == Kids(tree, last);
    assert Layout(t', s) == Layout(t', front);
    assert Layout(tree, s) == Layout(tree, front);
  }

  /** The layout only reads the children lists of the listed nodes. */
  lemma {:induction false} LayoutSame(tree: ChildMap, t': ChildMap, s: seq<int>)
    requires forall j :: 0 <= j < |s| ==> Kids(tree, s[j]) == Kids(t', s[j])
    ensures Layout(tree, s) == Layout(t', s)
    decreases |s|
  {
    if s != [] {
      LayoutSame(tree, t', s[..|s| - 1]);
    }
  }

  lemma StillFound(found: seq<int>, nb: int, x: int)
    requires x in found
    ensures x in found + [nb]
  {
    var i :| 0 <= i < |found| && found[i] == x;
    assert (found + [nb])[i] == x;
  }

  /** The new child `nb` hangs from the first node found adjacent to it:
      every node taken off the queue before `parent` has all its
      neighbours visited, and `nb` was not. */
  lemma DiscoverFirst(edges: seq<Edge>, parent: int, nb: int, tree: ChildMap, found: seq<int>, dq: nat,
                      done: set<int>, visited: set<int>)
    requires NoDup(found) && dq < |found| && found[dq] == parent && nb !in found
    requires forall v :: v in done <==> v in found[..dq]
    requires forall u, v :: u in done && Adjacent(edges, u, v) ==> v in visited
    requires nb !in visited
    requires FirstFinder(edges, tree, found)
    ensures FirstFinder(edges, AddChild(tree, parent, nb), found + [nb])
  {
    DiscoverFirstFound(tree, parent, nb, found, dq);
    var t' := AddChild(tree, parent, nb);
    var f' := found + [nb];
    forall i, j | 0 <= i < |f'| && 0 <= j < |f'| && f'[i] in t' && f'[j] in t'[f'[i]]
      ensures i < j && NoneAdjacentBefore(edges, f', i, f'[j])
    {
      NewChildAt(edges, parent, nb, tree, found, dq, done, visited, i, j);
    }
  }

  /** Every parent and child of the grown map is among the nodes found. */
  lemma DiscoverFirstFound(tree: ChildMap, parent: int, nb: int, found: seq<int>, dq: nat)
    requires dq < |found| && found[dq] == parent
    requires AllFound(tree, found)
    ensures AllFound(AddChild(tree, parent, nb), found + [nb])
  {
    forall p | p in AddChild(tree, parent, nb)
      ensures p in found + [nb]
    {
      if p != parent {
        StillFound(found, nb, p);
      } else {
        assert (found + [nb])[dq] == parent;
      }
    }
    forall p, k | p in AddChild(tree, parent, nb) && 0 <= k < |AddChild(tree, parent, nb)[p]|
      ensures AddChild(tree, parent, nb)[p][k] in found + [nb]
    {
      FoundAfterAdd(tree, parent, nb, found, dq, p, k);
    }
  }

  lemma FoundAfterAdd(tree: ChildMap, parent: int, nb: int, found: seq<int>, dq: nat, p: int, k: int)
    requires dq < |found| && found[dq] == parent
    requires AllFound(tree, found)
    requires p in AddChild(tree, parent, nb) && 0 <= k < |AddChild(tree, parent, nb)[p]|
    ensures AddChild(tree, parent, nb)[p][k] in found + [nb]
  {
    var t' := AddChild(tree, parent, nb);
    var f' := found + [nb];
    if p == parent {
      if k == |Kids(tree, parent)| {
        assert t'[p][k] == nb == f'[|found|];
      } else {
        assert t'[p][k] == tree[parent][k];
        StillFound(found, nb, tree[parent][k]);
      }
    } else {
      assert t'[p][k] == tree[p][k];
      StillFound(found, nb, tree[p][k]);
    }
  }
  lemma NewChildAt(edges: seq<Edge>, parent: int, nb: int, tree: ChildMap, found: seq<int>, dq: nat,
                   done: set<int>, visited: set<int>, i: int, j: int)
    requires NoDup(found) && dq < |found| && found[dq] == parent && nb !in found
    requires forall v :: v in done <==> v in found[..dq]
    requires forall u, v :: u in done && Adjacent(edges, u, v) ==> v in visited
    requires nb !in visited
    requires FirstFinder(edges, tree, found)
    requires 0 <= i < |found + [nb]| && 0 <= j < |found + [nb]|
    requires (found + [nb])[i] in AddChild(tree, parent, nb)
    requires (found + [nb])[j] in AddChild(tree, parent, nb)[(found + [nb])[i]]
    ensures i < j && NoneAdjacentBefore(edges, found + [nb], i, (found + [nb])[j])
  {
    var f' := found + [nb];
    var p, c := f'[i], f'[j];
    if i == |found| {
      assert false;
    }
    assert p == found[i];
    if c == nb && p == parent {
      if i != dq {
        assert false;
      }
      forall k | 0 <= k < i
        ensures !Adjacent(edges, f'[k], c)
      {
        assert f'[k] == found[k] && found[k] in found[..dq];
      }
    } else {
      assert c in tree[p];
      if j == |found| {
        assert false;
      }
      assert c == found[j];
      assert i < j && NoneAdjacentBefore(edges, found, i, found[j]);
      forall k | 0 <= k < i
        ensures !Adjacent(edges, f'[k], c)
      {
        assert f'[k] == found[k];
      }
    }
  }

  /** The new child comes after the earlier ones in the neighbour list. */
  lemma DiscoverOrder(edges: seq<Edge>, parent: int, t: nat, tree: ChildMap, visited: set<int>)
    requires t < |Neighbours(edges, parent)| && Neighbours(edges, parent)[t] !in visited
    requires KidsBefore(edges, tree, parent, t, visited)
    requires NeighbourOrder(edges, tree)
    ensures
      var nb := Neighbours(edges, parent)[t];
      && NeighbourOrder(edges, AddChild(tree, parent, nb))
      && KidsBefore(edges, AddChild(tree, parent, nb), parent, t + 1, visited + {nb})
  {
    var ns := Neighbours(edges, parent);
    FirstNew(ns, t, visited);
    DiscoverOrderKept(edges, parent, t, tree, visited);
    DiscoverSeen(edges, parent, t, tree, visited);
  }

  /** The new child comes last and latest in the neighbour list. */
  lemma DiscoverOrderKept(edges: seq<Edge>, parent: int, t: nat, tree: ChildMap, visited: set<int>)
    requires t < |Neighbours(edges, parent)| && IndexOf(Neighbours(edges, parent), Neighbours(edges, parent)[t]) == t
    requires KidsBefore(edges, tree, parent, t, visited)
    requires NeighbourOrder(edges, tree)
    ensures NeighbourOrder(edges, AddChild(tree, parent, Neighbours(edges, parent)[t]))
  {
    var nb := Neighbours(edges, parent)[t];
    forall p, i, j | p in AddChild(tree, parent, nb) && 0 <= i < j < |AddChild(tree, parent, nb)[p]|
      ensures Precedes(Neighbours(edges, p), AddChild(tree, parent, nb)[p][i], AddChild(tree, parent, nb)[p][j])
    {
      OrderAfterAdd(edges, parent, t, tree, visited, p, i, j);
    }
  }

  lemma OrderAfterAdd(edges: seq<Edge>, parent: int, t: nat, tree: ChildMap, visited: set<int>, p: int, i: int, j: int)
    requires t < |Neighbours(edges, parent)| && IndexOf(Neighbours(edges, parent), Neighbours(edges, parent)[t]) == t
    requires KidsBefore(edges, tree, parent, t, visited)
    requires NeighbourOrder(edges, tree)
    requires p in AddChild(tree, parent, Neighbours(edges, parent)[t])
    requires 0 <= i < j < |AddChild(tree, parent, Neighbours(edges, parent)[t])[p]|
    ensures
      var t' := AddChild(tree, parent, Neighbours(edges, parent)[t]);
      Precedes(Neighbours(edges, p), t'[p][i], t'[p][j])
  {
    var ns := Neighbours(edges, parent);
    var nb := ns[t];
    var t' := AddChild(tree, parent, nb);
    var kids := Kids(tree, parent);
    if p != parent {
      assert t'[p] == tree[p];
    } else if j < |kids| {
      assert t'[p][i] == tree[p][i] && t'[p][j] == tree[p][j];
    } else {
      assert t'[p][j] == nb && t'[p][i] == kids[i];
      assert SeenBefore(ns, kids[i], t);
    }
  }

  /** Every child of `parent`, the new one included, sits before `t + 1`. */
  lemma DiscoverSeen(edges: seq<Edge>, parent: int, t: nat, tree: ChildMap, visited: set<int>)
    requires t < |Neighbours(edges, parent)| && IndexOf(Neighbours(edges, parent), Neighbours(edges, parent)[t]) == t
    requires KidsBefore(edges, tree, parent, t, visited)
    ensures
      var nb := Neighbours(edges, parent)[t];
      KidsBefore(edges, AddChild(tree, parent, nb), parent, t + 1, visited + {nb})
  {
    var ns := Neighbours(edges, parent);
    var nb := ns[t];
    var t' := AddChild(tree, parent, nb);
    var kids := Kids(tree, parent);
    assert Kids(t', parent) == kids + [nb];
    forall i | 0 <= i < |Kids(t', parent)|
      ensures SeenBefore(ns, Kids(t', parent)[i], t + 1)
    {
      if i < |kids| {
        assert SeenBefore(ns, kids[i], t);
      }
    }
  }

  /** A neighbour found for the first time sits at its first position. */
  lemma FirstNew(ns: seq<int>, t: nat, visited: set<int>)
    requires t < |ns| && ns[t] !in visited
    requires forall m :: 0 <= m < t ==> ns[m] in visited
    ensures IndexOf(ns, ns[t]) == t
  {
  }

  /** Finding `nb` from `parent` keeps the walk's bookkeeping. */
  lemma VisitFrontier(edges: seq<Edge>, root: int, parent: int, nb: int,
                      visited: set<int>, queue: seq<int>, done: set<int>)
    requires Frontier(edges, root, visited, [parent] + queue, done)
    requires Adjacent(edges, parent, nb) && nb !in visited
    ensures Frontier(edges, root, visited + {nb}, [parent] + (queue + [nb]), done)
  {
    assert parent in [parent] + queue;
    ReachableStep(edges, root, parent, nb);
    assert IsEndpoint(edges, nb);
    var q' := [parent] + (queue + [nb]);
    assert q' == ([parent] + queue) + [nb];
    forall v | v in visited + {nb}
      ensures v in done || v in q'
    {
      if v in [parent] + queue {
        var t :| 0 <= t < |[parent] + queue| && ([parent] + queue)[t] == v;
        assert q'[t] == v;
      }
    }
  }

  /** Making `nb` the last child of `parent` keeps the children map's
      properties. */
  lemma VisitGrown(edges: seq<Edge>, root: int, parent: int, nb: int,
                   tree: ChildMap, visited: set<int>, order: map<int, nat>)
    requires Grown(edges, root, tree, visited, order)
    requires parent in visited && root in visited
    requires Adjacent(edges, parent, nb) && nb !in visited
    ensures Grown(edges, root, AddChild(tree, parent, nb), visited + {nb}, order[nb := |visited|])
  {
    var t, vs, o := AddChild(tree, parent, nb), visited + {nb}, order[nb := |visited|];
    VisitTree(edges, root, parent, nb, tree, visited, order, t, vs, o);
    VisitChildren(root, parent, nb, tree, visited, t, vs);
    OrderStep(order, visited, nb, o);
    GrownIntro(edges, root, t, vs, o);
  }

  /** The children map part of `VisitGrown`: parents and edges. */
  lemma VisitTree(edges: seq<Edge>, root: int, parent: int, nb: int,
                  tree: ChildMap, visited: set<int>, order: map<int, nat>,
                  t: ChildMap, vs: set<int>, o: map<int, nat>)
    requires order.Keys == visited && (forall v :: v in order ==> order[v] < |visited|)
    requires forall p :: p in tree ==> |tree[p]| > 0 && p in visited
    requires forall p, c :: p in tree && c in tree[p] ==> Adjacent(edges, p, c) && c in visited && order[p] < order[c]
    requires parent in visited && Adjacent(edges, parent, nb) && nb !in visited
    requires t == AddChild(tree, parent, nb) && vs == visited + {nb} && o == order[nb := |visited|]
    ensures forall p :: p in t ==> |t[p]| > 0 && p in vs
    ensures forall p, c :: p in t && c in t[p] ==> Adjacent(edges, p, c) && c in vs && o[p] < o[c]
  {
    AddChildEdges(edges, tree, parent, nb, visited, order, t, vs, o);
    AddChildKeys(tree, parent, nb, visited, t, vs);
  }

  /** The children map part of `VisitGrown`: who is a child, and only once. */
  lemma VisitChildren(root: int, parent: int, nb: int, tree: ChildMap, visited: set<int>,
                      t: ChildMap, vs: set<int>)
    requires forall v {:trigger IsChild(tree, v)} :: IsChild(tree, v) <==> v in visited && v != root
    requires ChildrenOnce(tree)
    requires root in visited && nb !in visited
    requires t == AddChild(tree, parent, nb) && vs == visited + {nb}
    ensures forall v {:trigger IsChild(t, v)} :: IsChild(t, v) <==> v in vs && v != root
    ensures ChildrenOnce(t)
  {
    AddChildIsChild(tree, parent, nb, visited, root, t, vs);
    assert !IsChild(tree, nb);
    AddChildOnce(tree, parent, nb, t);
  }

  lemma AddChildKeys(tree: ChildMap, parent: int, nb: int, visited: set<int>, t: ChildMap, vs: set<int>)
    requires forall p :: p in tree ==> |tree[p]| > 0 && p in visited
    requires parent in visited
    requires t == AddChild(tree, parent, nb) && vs == visited + {nb}
    ensures forall p :: p in t ==> |t[p]| > 0 && p in vs
  {
  }

  /** Numbering a newly found node after all the others. */
  lemma OrderStep(order: map<int, nat>, visited: set<int>, nb: int, o: map<int, nat>)
    requires order.Keys == visited && nb !in visited
    requires forall v :: v in order ==> order[v] < |visited|
    requires o == order[nb := |visited|]
    ensures o.Keys == visited + {nb}
    ensures forall v :: v in o ==> o[v] < |visited + {nb}|
  {
    assert |visited + {nb}| == |visited| + 1;
  }

  lemma GrownIntro(edges: seq<Edge>, root: int, tree: ChildMap, visited: set<int>, order: map<int, nat>)
    requires order.Keys == visited
    requires forall v :: v in order ==> order[v] < |visited|
    requires forall p :: p in tree ==> |tree[p]| > 0 && p in visited
    requires forall p, c :: p in tree && c in tree[p] ==> Adjacent(edges, p, c) && c in visited && order[p] < order[c]
    requires forall v {:trigger IsChild(tree, v)} :: IsChild(tree, v) <==> v in visited && v != root
    requires ChildrenOnce(tree)
    ensures Grown(edges, root, tree, visited, order)
  {
  }

  lemma AddChildEdges(edges: seq<Edge>, tree: ChildMap, parent: int, nb: int, visited: set<int>, order: map<int, nat>,
                      t: ChildMap, vs: set<int>, o: map<int, nat>)
    requires order.Keys == visited && (forall v :: v in order ==> order[v] < |visited|)
    requires forall p :: p in tree ==> p in visited
    requires forall p, c :: p in tree && c in tree[p] ==> Adjacent(edges, p, c) && c in visited && order[p] < order[c]
    requires parent in visited && Adjacent(edges, parent, nb) && nb !in visited
    requires t == AddChild(tree, parent, nb) && vs == visited + {nb} && o == order[nb := |visited|]
    ensures forall p, c :: p in t && c in t[p] ==> Adjacent(edges, p, c) && c in vs && o[p] < o[c]
  {
    forall p, c | p in t && c in t[p]
      ensures Adjacent(edges, p, c) && c in vs && p in o && c in o && o[p] < o[c]
    {
      if p == parent && c !in Kids(tree, parent) {
        assert c == nb;
      } else {
        assert c in tree[p];
      }
    }
  }

  lemma AddChildIsChild(tree: ChildMap, parent: int, nb: int, visited: set<int>, root: int, t: ChildMap, vs: set<int>)
    requires forall v {:trigger IsChild(tree, v)} :: IsChild(tree, v) <==> v in visited && v != root
    requires root in visited && nb !in visited
    requires t == AddChild(tree, parent, nb) && vs == visited + {nb}
    ensures forall v {:trigger IsChild(t, v)} :: IsChild(t, v) <==> v in vs && v != root
  {
    forall v | IsChild(t, v)
      ensures v in visited + {nb} && v != root
    {
      var p :| p in t && v in t[p];
      if v != nb {
        assert v in tree[p];
        assert IsChild(tree, v);
      }
    }
    forall v | v in visited + {nb} && v != root
      ensures IsChild(t, v)
    {
      if v == nb {
        assert v in t[parent];
      } else {
        assert IsChild(tree, v);
        var p :| p in tree && v in tree[p];
        assert v in t[p];
      }
    }
  }

  lemma AddChildOnce(tree: ChildMap, parent: int, nb: int, t: ChildMap)
    requires ChildrenOnce(tree) && !IsChild(tree, nb)
    requires t == AddChild(tree, parent, nb)
    ensures ChildrenOnce(t)
  {
    forall p, q, i, j | p in t && q in t && 0 <= i < |t[p]| && 0 <= j < |t[q]| && t[p][i] == t[q][j]
      ensures p == q && i == j
    {
      var x := t[p][i];
      if x == nb {
        OnlyNewChild(tree, parent, nb, p, i);
        OnlyNewChild(tree, parent, nb, q, j);
      } else {
        OldChild(tree, parent, nb, p, i);
        OldChild(tree, parent, nb, q, j);
      }
    }
  }

  lemma OnlyNewChild(tree: ChildMap, parent: int, nb: int, p: int, i: int)
    requires !IsChild(tree, nb)
    requires p in AddChild(tree, parent, nb) && 0 <= i < |AddChild(tree, parent, nb)[p]|
    requires AddChild(tree, parent, nb)[p][i] == nb
    ensures p == parent && i == |Kids(tree, parent)|
  {
  }

  lemma OldChild(tree: ChildMap, parent: int, nb: int, p: int, i: int)
    requires p in AddChild(tree, parent, nb) && 0 <= i < |AddChild(tree, parent, nb)[p]|
    requires AddChild(tree, parent, nb)[p][i] != nb
    ensures p in tree && i < |tree[p]| && AddChild(tree, parent, nb)[p][i] == tree[p][i]
  {
  }

  /** Once every neighbour of `parent` is visited, `parent` is done. */
  lemma FinishParent(edges: seq<Edge>, root: int, parent: int, visited: set<int>, queue: seq<int>, done: set<int>)
    requires Frontier(edges, root, visited, [parent] + queue, done)
    requires forall v :: v in Neighbours(edges, parent) ==> v in visited
    ensures Frontier(edges, root, visited, queue, done + {parent})
  {
    forall v | v in visited
      ensures v in done + {parent} || v in queue
    {
      if v in [parent] + queue && v != parent {
        var t :| 0 <= t < |[parent] + queue| && ([parent] + queue)[t] == v;
        assert queue[t - 1] == v;
      }
    }
    forall v | v in queue
      ensures v !in done + {parent}
    {
      var t :| 0 <= t < |queue| && queue[t] == v;
      assert ([parent] + queue)[t + 1] == v && ([parent] + queue)[0] == parent;
    }
    assert queue == ([parent] + queue)[1..];
  }

  /** With the queue empty, the visited nodes are the reachable ones. */
  lemma Finish(edges: seq<Edge>, root: int, tree: ChildMap, visited: set<int>, done: set<int>,
               order: map<int, nat>, found: seq<int>, dq: nat)
    requires Frontier(edges, root, visited, [], done)
    requires Grown(edges, root, tree, visited, order)
    requires Discovery(edges, root, tree, visited, [], done, found, dq)
    ensures Oriented(edges, root, tree)
  {
    AllReached(edges, root, visited, done);
    FoundOrderRanks(edges, root, tree, visited, order);
    assert BreadthFirst(edges, root, tree, found);
  }

  lemma AllReached(edges: seq<Edge>, root: int, visited: set<int>, done: set<int>)
    requires Frontier(edges, root, visited, [], done)
    ensures forall v :: Reachable(edges, root, v) ==> v in visited
  {
    forall v | Reachable(edges, root, v)
      ensures v in visited
    {
      var p :| Walk(edges, p) && p[0] == root && p[|p| - 1] == v;
      ClosedHoldsWalk(edges, visited, p);
    }
  }

  /** Children are found after their parents, so counting down the order
      of discovery ranks the children map. */
  lemma FoundOrderRanks(edges: seq<Edge>, root: int, tree: ChildMap, visited: set<int>, order: map<int, nat>)
    requires Grown(edges, root, tree, visited, order)
    ensures Acyclic(tree)
  {
    var rank := map v | v in order :: |visited| - order[v];
    var bound := |visited| + 1;
    forall p, c | p in tree && c in tree[p]
      ensures c in rank && rank[c] < rank[p]
    {
      assert order[p] < order[c];
    }
    assert Ranked(tree, rank, bound);
  }

  /** `tree[parent].append(child)` */
  function AddChild(tree: ChildMap, parent: int, child: int): (t: ChildMap)
    ensures forall p :: p in t <==> p in tree || p == parent
    ensures forall p :: p in t ==> t[p] == if p == parent then Kids(tree, parent) + [child] else tree[p]
  {
    tree[parent := Kids(tree, parent) + [child]]
  }

  lemma ReachableStep(edges: seq<Edge>, root: int, u: int, v: int)
    requires Reachable(edges, root, u) && Adjacent(edges, u, v)
    ensures Reachable(edges, root, v)
  {
    var p :| Walk(edges, p) && p[0] == root && p[|p| - 1] == u;
    assert Walk(edges, p + [v]);
  }

  lemma FewerUnvisited(all: set<int>, before: set<int>, after: set<int>, found: int)
    requires before <= after <= all && found in after && found !in before
    ensures |all - after| < |all - before|
  {
    assert all == after + (all - after);
    assert all == before + (all - before);
    var more := before + {found};
    assert after == more + (after - more);
  }

  /** A set holding the start of a walk and closed under adjacency holds
      the whole walk. */
  lemma {:induction false} ClosedHoldsWalk(edges: seq<Edge>, s: set<int>, p: seq<int>)
    requires Walk(edges, p) && p[0] in s
    requires forall u, v :: u in s && Adjacent(edges, u, v) ==> v in s
    ensures p[|p| - 1] in s
    decreases |p|
  {
    if |p| > 1 {
      var front := p[..|p| - 1];
      assert Walk(edges, front);
      ClosedHoldsWalk(edges, s, front);
      assert Adjacent(edges, p[|p| - 2], p[|p| - 1]);
    }
  }
}
