/** Cluster extraction (task3/main.py:73-90): a stack-based depth-first walk
    over the closed relation that splits the index set 0..n-1 into groups,
    seeding a new group at every index not yet visited. */
module Clusters {
  import opened BoolMatrix
  import opened Sorting

  predicate AllBelow(s: seq<int>, n: int) {
    forall t :: 0 <= t < |s| ==> 0 <= s[t] < n
  }

  /** Whatever `r` relates to a visited index is visited. */
  ghost predicate ClosedUnder(r: Matrix, visited: seq<bool>)
    requires Square(r) && |visited| == |r|
  {
    forall x, y :: 0 <= x < |r| && 0 <= y < |r| && visited[x] && r[x][y] ==> visited[y]
  }

  function CountFalse(v: seq<bool>): nat
    decreases |v|
  {
    if v == [] then 0 else CountFalse(v[..|v| - 1]) + (if v[|v| - 1] then 0 else 1)
  }

  /** Marking one unvisited index shrinks the unvisited count by one. */
  lemma {:induction false} CountFalseMark(v: seq<bool>, j: int)
    requires 0 <= j < |v| && !v[j]
    ensures CountFalse(v[j := true]) + 1 == CountFalse(v)
    decreases |v|
  {
    var w := v[j := true];
    if j < |v| - 1 {
      assert w[..|w| - 1] == v[..|v| - 1][j := true];
      CountFalseMark(v[..|v| - 1], j);
    } else {
      assert w[..|w| - 1] == v[..|v| - 1];
    }
  }

  /** What the `for j in range(n)` loop keeps after the indices below `j`:
      `marked` adds to `visited` the row entries below `j`, and `pushed` holds,
      ascending, those of them that were unvisited. */
  ghost predicate Pushing(row: seq<bool>, visited: seq<bool>, j: int, marked: seq<bool>, pushed: seq<int>)
    requires |row| == |visited|
  {
    && 0 <= j <= |row|
    && |marked| == |row|
    && (forall x {:trigger marked[x]} :: 0 <= x < |row| ==> (marked[x] <==> visited[x] || (x < j && row[x])))
    && (forall x :: x in pushed <==> 0 <= x < j && row[x] && !visited[x])
    && (forall a, b :: 0 <= a < b < |pushed| ==> pushed[a] < pushed[b])
    && (forall a :: 0 <= a < |pushed| ==> pushed[a] < j)
    && CountFalse(marked) + |pushed| == CountFalse(visited)
  }

  lemma PushingStep(row: seq<bool>, visited: seq<bool>, j: int, marked: seq<bool>, pushed: seq<int>)
    requires |row| == |visited| && Pushing(row, visited, j, marked, pushed) && j < |row|
    ensures row[j] && !marked[j] ==> Pushing(row, visited, j + 1, marked[j := true], pushed + [j])
    ensures !(row[j] && !marked[j]) ==> Pushing(row, visited, j + 1, marked, pushed)
  {
    if row[j] && !marked[j] {
      CountFalseMark(marked, j);
      var marked', pushed' := marked[j := true], pushed + [j];
      forall x | 0 <= x < |row|
        ensures marked'[x] <==> visited[x] || (x < j + 1 && row[x])
      {
        if x != j {
          assert marked'[x] == marked[x];
        }
      }
      forall x
        ensures x in pushed' <==> 0 <= x < j + 1 && row[x] && !visited[x]
      {
        assert x in pushed' <==> x in pushed || x == j;
      }
    } else {
      forall x | 0 <= x < |row|
        ensures marked[x] <==> visited[x] || (x < j + 1 && row[x])
      {
        if x == j && row[j] {
          assert marked[j];
        }
      }
    }
  }

  /** The `for j in range(n)` loop of one DFS step: every index related to
      `node` and not yet visited is marked and pushed, in ascending order. */
  method PushUnvisited(r: Matrix, node: int, visited: seq<bool>, stack: seq<int>)
    returns (visited': seq<bool>, stack': seq<int>)
    requires Square(r) && InRange(r, node) && |visited| == |r|
    ensures |visited'| == |r|
    ensures forall x :: 0 <= x < |r| ==> (visited'[x] <==> visited[x] || r[node][x])
    ensures |stack'| >= |stack| && stack'[..|stack|] == stack
    ensures forall x :: x in stack'[|stack|..] <==> 0 <= x < |r| && r[node][x] && !visited[x]
    ensures forall a, b :: |stack| <= a < b < |stack'| ==> stack'[a] < stack'[b]
    ensures CountFalse(visited') + |stack'| - |stack| == CountFalse(visited)
  {
    var n := |r|;
    var row := r[node];
    visited', stack' := visited, stack;
    ghost var pushed: seq<int> := [];
    var j := 0;
    while j < n
      invariant Pushing(row, visited, j, visited', pushed)
      invariant stack' == stack + pushed
    {
      PushingStep(row, visited, j, visited', pushed);
      if row[j] && !visited'[j] {
        visited' := visited'[j := true];
        stack' := stack' + [j];
        pushed := pushed + [j];
      }
      j := j + 1;
    }
    assert stack'[..|stack|] == stack && stack'[|stack|..] == pushed;
  }

  /** The state the `while stack` loop keeps while growing the cluster of
      `seed` from the visited flags `visited` it started with: `cur` marks the
      old flags plus everything collected or waiting on the stack, all of it
      previously unvisited and held once. With `eqv` (an equivalence relation
      whose visited set was closed), all of it is related to the seed and
      every collected index has had its whole row pushed. */
  ghost predicate Walk(r: Matrix, visited: seq<bool>, seed: int, eqv: bool,
                       cluster: seq<int>, stack: seq<int>, cur: seq<bool>)
    requires Square(r) && |visited| == |r| && InRange(r, seed)
  {
    && |cur| == |r|
    && AllBelow(stack, |r|) && AllBelow(cluster, |r|)
    && Marks(visited, cluster, stack, cur)
    && Fresh(visited, cluster, stack)
    && Held(cluster, stack)
    && Seeded(seed, cluster, stack)
    && (eqv ==> Related(r, seed, cluster, stack, cur))
  }

  /** `cur` marks the old flags plus the collected and pending indices. */
  ghost predicate Marks(visited: seq<bool>, cluster: seq<int>, stack: seq<int>, cur: seq<bool>)
    requires |cur| == |visited|
  {
    forall x :: 0 <= x < |cur| ==> (cur[x] <==> visited[x] || x in cluster || x in stack)
  }

  /** Everything collected or pending was unvisited. */
  ghost predicate Fresh(visited: seq<bool>, cluster: seq<int>, stack: seq<int>) {
    forall x :: x in cluster || x in stack ==> 0 <= x < |visited| && !visited[x]
  }

  /** Everything collected or pending is held once. */
  ghost predicate Held(cluster: seq<int>, stack: seq<int>) {
    && NoDup(cluster) && NoDup(stack)
    && (forall x :: x in cluster ==> x !in stack)
  }

  /** The seed is collected first, and before that it is all the stack holds. */
  ghost predicate Seeded(seed: int, cluster: seq<int>, stack: seq<int>) {
    && (|cluster| > 0 ==> cluster[0] == seed)
    && (|cluster| == 0 ==> stack == [seed])
  }

  /** Everything collected or pending is related to the seed, and every
      collected index has had its whole row pushed. */
  ghost predicate Related(r: Matrix, seed: int, cluster: seq<int>, stack: seq<int>, cur: seq<bool>)
    requires Square(r) && InRange(r, seed) && |cur| == |r|
    requires AllBelow(stack, |r|) && AllBelow(cluster, |r|)
  {
    && (forall x :: x in cluster || x in stack ==> r[seed][x])
    && (forall x, y :: x in cluster && 0 <= y < |r| && r[x][y] ==> cur[y])
  }

  lemma StepKeepsRelated(r: Matrix, seed: int, cluster: seq<int>, stack: seq<int>, cur: seq<bool>,
                         node: int, rest: seq<int>, stack': seq<int>, cur': seq<bool>)
    requires Square(r) && Equivalence(r) && InRange(r, seed) && |cur| == |r| && |cur'| == |r|
    requires AllBelow(stack, |r|) && AllBelow(cluster, |r|) && AllBelow(stack', |r|)
    requires Related(r, seed, cluster, stack, cur)
    requires stack == rest + [node] && InRange(r, node)
    requires AllBelow(cluster + [node], |r|)
    requires forall x :: 0 <= x < |r| ==> (cur'[x] <==> cur[x] || r[node][x])
    requires forall x :: x in stack' ==> x in rest || (0 <= x < |r| && r[node][x])
    ensures Related(r, seed, cluster + [node], stack', cur')
  {
    assert node in stack && r[seed][node];
    forall x | x in stack'
      ensures r[seed][x]
    {
      if x !in rest {
        assert r[node][x];
      }
    }
  }

  /** Indices pushed in ascending order are pushed once each. */
  lemma AscendingNoDup(s: seq<int>)
    requires forall a, b :: 0 <= a < b < |s| ==> s[a] < s[b]
    ensures NoDup(s)
  {
  }

  /** Lists without repeats that share no element concatenate to a list
      without repeats. */
  lemma NoDupAppend(s: seq<int>, u: seq<int>)
    requires NoDup(s) && NoDup(u)
    requires forall x :: x in s ==> x !in u
    ensures NoDup(s + u)
  {
    var su := s + u;
    forall a, b | 0 <= a < b < |su|
      ensures su[a] != su[b]
    {
      if a < |s| && b >= |s| {
        assert su[a] in s && su[b] == u[b - |s|];
      }
    }
  }

  /** Popping the top of a stack without repeats leaves a stack without
      repeats that no longer holds the popped index. */
  lemma PopNoDup(stack: seq<int>, rest: seq<int>, node: int)
    requires NoDup(stack) && stack == rest + [node]
    ensures NoDup(rest) && node !in rest
  {
    forall a | 0 <= a < |rest|
      ensures rest[a] != node
    {
      assert rest[a] == stack[a] && node == stack[|stack| - 1];
    }
    forall a, b | 0 <= a < b < |rest|
      ensures rest[a] != rest[b]
    {
      assert rest[a] == stack[a] && rest[b] == stack[b];
    }
  }

  lemma AllBelowAppend(s: seq<int>, u: seq<int>, n: int)
    requires AllBelow(s, n) && AllBelow(u, n)
    ensures AllBelow(s + u, n)
  {
    forall t | 0 <= t < |s + u|
      ensures 0 <= (s + u)[t] < n
    {
      if t >= |s| {
        assert (s + u)[t] == u[t - |s|];
      }
    }
  }

  lemma MarksStep(visited: seq<bool>, cluster: seq<int>, stack: seq<int>, cur: seq<bool>,
                  row: seq<bool>, node: int, rest: seq<int>, pushed: seq<int>, cur': seq<bool>)
    requires |cur| == |visited| == |row| == |cur'|
    requires Marks(visited, cluster, stack, cur) && stack == rest + [node]
    requires forall x :: 0 <= x < |cur| ==> (cur'[x] <==> cur[x] || row[x])
    requires forall x :: x in pushed <==> 0 <= x < |cur| && row[x] && !cur[x]
    ensures Marks(visited, cluster + [node], rest + pushed, cur')
  {
    forall x | 0 <= x < |cur|
      ensures cur'[x] <==> visited[x] || x in cluster + [node] || x in rest + pushed
    {
      if row[x] && !cur[x] {
        assert x in pushed;
      }
      if x in pushed {
        assert row[x];
      }
    }
  }

  lemma FreshStep(visited: seq<bool>, cluster: seq<int>, stack: seq<int>, cur: seq<bool>,
                  node: int, rest: seq<int>, pushed: seq<int>)
    requires |cur| == |visited|
    requires Marks(visited, cluster, stack, cur) && Fresh(visited, cluster, stack)
    requires stack == rest + [node]
    requires forall x :: x in pushed ==> 0 <= x < |cur| && !cur[x]
    ensures Fresh(visited, cluster + [node], rest + pushed)
  {
    forall x | x in cluster + [node] || x in rest + pushed
      ensures 0 <= x < |visited| && !visited[x]
    {
      if x in pushed {
        assert !cur[x];
      } else {
        assert x in cluster || x in stack;
      }
    }
  }

  lemma HeldStep(visited: seq<bool>, cluster: seq<int>, stack: seq<int>, cur: seq<bool>,
                 node: int, rest: seq<int>, pushed: seq<int>)
    requires |cur| == |visited|
    requires Marks(visited, cluster, stack, cur) && Held(cluster, stack)
    requires stack == rest + [node] && NoDup(pushed)
    requires forall x :: x in pushed ==> 0 <= x < |cur| && !cur[x]
    requires forall x :: x in cluster || x in stack ==> 0 <= x < |cur|
    ensures Held(cluster + [node], rest + pushed)
  {
    PopNoDup(stack, rest, node);
    assert node in stack;
    NoDupAppend(cluster, [node]);
    forall y | y in rest
      ensures y !in pushed
    {
      assert y in stack;
      assert cur[y];
    }
    NoDupAppend(rest, pushed);
    forall x | x in cluster + [node]
      ensures x !in rest + pushed
    {
      if x in cluster {
        assert x !in stack && cur[x];
      }
    }
  }

  lemma SeededStep(seed: int, cluster: seq<int>, stack: seq<int>, node: int, rest: seq<int>, pushed: seq<int>)
    requires Seeded(seed, cluster, stack) && stack == rest + [node]
    ensures Seeded(seed, cluster + [node], rest + pushed)
  {
    if cluster == [] {
      assert stack == [seed];
    } else {
      assert (cluster + [node])[0] == cluster[0];
    }
  }

  /** Putting the popped node on the cluster and the newly reached indices
      on the stack keeps everything collected or pending held once. */
  lemma StepKeepsShape(r: Matrix, visited: seq<bool>, seed: int, cluster: seq<int>, stack: seq<int>,
                       cur: seq<bool>, node: int, rest: seq<int>, pushed: seq<int>, cur': seq<bool>)
    requires Square(r) && |visited| == |r| && InRange(r, seed)
    requires Walk(r, visited, seed, false, cluster, stack, cur)
    requires stack == rest + [node] && InRange(r, node)
    requires |cur'| == |r|
    requires forall x :: 0 <= x < |r| ==> (cur'[x] <==> cur[x] || r[node][x])
    requires forall x :: x in pushed <==> 0 <= x < |r| && r[node][x] && !cur[x]
    requires NoDup(pushed)
    ensures Walk(r, visited, seed, false, cluster + [node], rest + pushed, cur')
  {
    var n := |r|;
    assert node in stack;
    assert AllBelow(rest, n) by {
      forall t | 0 <= t < |rest|
        ensures 0 <= rest[t] < n
      {
        assert rest[t] == stack[t];
      }
    }
    assert AllBelow(pushed, n) by {
      forall t | 0 <= t < |pushed|
        ensures 0 <= pushed[t] < n
      {
        assert pushed[t] in pushed;
      }
    }
    AllBelowAppend(rest, pushed, n);
    AllBelowAppend(cluster, [node], n);
    MarksStep(visited, cluster, stack, cur, r[node], node, rest, pushed, cur');
    FreshStep(visited, cluster, stack, cur, node, rest, pushed);
    HeldStep(visited, cluster, stack, cur, node, rest, pushed);
    SeededStep(seed, cluster, stack, node, rest, pushed);
  }

  /** One iteration of the `while stack` loop: pop a node, collect it, push
      its unvisited row entries. */
  method DfsStep(r: Matrix, ghost visited: seq<bool>, seed: int, ghost eqv: bool,
                 cluster: seq<int>, stack: seq<int>, cur: seq<bool>)
    returns (cluster': seq<int>, stack': seq<int>, cur': seq<bool>)
    requires Square(r) && |visited| == |r| && InRange(r, seed)
    requires eqv ==> Equivalence(r)
    requires Walk(r, visited, seed, eqv, cluster, stack, cur) && stack != []
    ensures Walk(r, visited, seed, eqv, cluster', stack', cur')
    ensures CountFalse(cur') < CountFalse(cur) || (CountFalse(cur') == CountFalse(cur) && |stack'| < |stack|)
  {
    var node := stack[|stack| - 1];
    var rest := stack[..|stack| - 1];
    assert stack == rest + [node];
    cur', stack' := PushUnvisited(r, node, cur, rest);
    cluster' := cluster + [node];
    ghost var pushed := stack'[|rest|..];
    assert stack' == rest + pushed;
    AscendingNoDup(pushed);
    StepKeepsShape(r, visited, seed, cluster, stack, cur, node, rest, pushed, cur');
    if eqv {
      StepKeepsRelated(r, seed, cluster, stack, cur, node, rest, stack', cur');
    }
  }

  /** The `while stack` walk from one unvisited seed. It collects the seed
      first and then every index it reaches, each once, all previously
      unvisited. When `r` is an equivalence and the visited set is closed
      under it, the collected indices are exactly those related to the seed. */
  method ExpandFrom(r: Matrix, visited: seq<bool>, seed: int)
    returns (cluster: seq<int>, visited': seq<bool>)
    requires Square(r) && |visited| == |r| && InRange(r, seed) && !visited[seed]
    ensures |visited'| == |r|
    ensures |cluster| > 0 && cluster[0] == seed
    ensures NoDup(cluster) && AllBelow(cluster, |r|)
    ensures forall x :: 0 <= x < |r| ==> (visited'[x] <==> visited[x] || x in cluster)
    ensures forall x :: x in cluster ==> !visited[x]
    ensures Equivalence(r) && ClosedUnder(r, visited) ==>
      forall x :: 0 <= x < |r| ==> (x in cluster <==> r[seed][x])
  {
    var n := |r|;
    ghost var eqv := Equivalence(r) && ClosedUnder(r, visited);
    visited' := visited[seed := true];
    var stack := [seed];
    cluster := [];
    while stack != []
      invariant Walk(r, visited, seed, eqv, cluster, stack, visited')
      decreases CountFalse(visited'), |stack|
    {
      cluster, stack, visited' := DfsStep(r, visited, seed, eqv, cluster, stack, visited');
    }
    if eqv {
      forall x | 0 <= x < n && r[seed][x]
        ensures x in cluster
      {
        assert r[x][seed];
        assert !visited[x];
        assert visited'[x];
      }
    }
  }

  ghost predicate Covered(clusters: seq<seq<int>>, x: int) {
    exists c :: 0 <= c < |clusters| && x in clusters[c]
  }

  ghost predicate WellFormed(clusters: seq<seq<int>>, n: int) {
    forall c :: 0 <= c < |clusters| ==>
      |clusters[c]| > 0 && NoDup(clusters[c]) && AllBelow(clusters[c], n)
  }

  ghost predicate Disjoint(clusters: seq<seq<int>>) {
    forall c, d, x :: 0 <= c < d < |clusters| && x in clusters[c] ==> x !in clusters[d]
  }

  /** Each cluster starts with its smallest index and those seeds ascend. */
  ghost predicate SeedsAscend(clusters: seq<seq<int>>)
    requires forall c :: 0 <= c < |clusters| ==> |clusters[c]| > 0
  {
    && (forall c, d :: 0 <= c < d < |clusters| ==> clusters[c][0] < clusters[d][0])
    && (forall c, x :: 0 <= c < |clusters| && x in clusters[c] ==> clusters[c][0] <= x)
  }

  /** Each cluster is a class of `r`. */
  ghost predicate Classes(r: Matrix, clusters: seq<seq<int>>)
    requires Square(r)
  {
    forall c, x, y :: 0 <= c < |clusters| && x in clusters[c] && 0 <= x < |r| && 0 <= y < |r| ==>
      (y in clusters[c] <==> r[x][y])
  }

  /** What the outer loop keeps after the seeds below `i` are handled. */
  ghost predicate Progress(r: Matrix, clusters: seq<seq<int>>, visited: seq<bool>, i: int)
    requires Square(r)
  {
    && 0 <= i <= |r|
    && |visited| == |r|
    && WellFormed(clusters, |r|)
    && (forall x :: 0 <= x < |r| ==> (visited[x] <==> Covered(clusters, x)))
    && (forall x :: 0 <= x < i ==> visited[x])
    && Disjoint(clusters)
    && SeedsAscend(clusters)
    && (forall c :: 0 <= c < |clusters| ==> clusters[c][0] < i)
    && (Equivalence(r) ==> ClosedUnder(r, visited) && Classes(r, clusters))
  }

  /** Adding the cluster grown from the unvisited index `i` keeps `Progress`. */
  lemma AddCluster(r: Matrix, clusters: seq<seq<int>>, visited: seq<bool>, i: int,
                   cluster: seq<int>, visited': seq<bool>)
    requires Square(r) && Progress(r, clusters, visited, i) && i < |r| && !visited[i]
    requires |visited'| == |r|
    requires |cluster| > 0 && cluster[0] == i
    requires NoDup(cluster) && AllBelow(cluster, |r|)
    requires forall x :: 0 <= x < |r| ==> (visited'[x] <==> visited[x] || x in cluster)
    requires forall x :: x in cluster ==> !visited[x]
    requires Equivalence(r) && ClosedUnder(r, visited) ==>
      forall x :: 0 <= x < |r| ==> (x in cluster <==> r[i][x])
    ensures Progress(r, clusters + [cluster], visited', i + 1)
  {
    var n := |r|;
    var cs := clusters + [cluster];
    assert forall x :: x in cluster ==> i <= x;
    forall c, x | 0 <= c < |clusters| && x in clusters[c]
      ensures x !in cluster
    {
      assert Covered(clusters, x);
      assert visited[x];
    }
    forall x | 0 <= x < n
      ensures visited'[x] <==> Covered(cs, x)
    {
      if x in cluster {
        assert x in cs[|clusters|];
      }
      if Covered(cs, x) {
        var c :| 0 <= c < |cs| && x in cs[c];
        if c < |clusters| {
          assert Covered(clusters, x);
        }
      }
      if visited[x] {
        var c :| 0 <= c < |clusters| && x in clusters[c];
        assert x in cs[c];
      }
    }
    if Equivalence(r) {
      forall x, y | x in cluster && 0 <= y < n
        ensures y in cluster <==> r[x][y]
      {
        assert r[i][x];
      }
      forall x, y | 0 <= x < n && 0 <= y < n && visited'[x] && r[x][y]
        ensures visited'[y]
      {
        if !visited[x] {
          assert r[i][x];
        }
      }
    }
  }

  /** The outer `for i in range(n)` loop. The clusters are non-empty,
      duplicate-free, pairwise disjoint and cover every index; each begins
      with its seed, the smallest index in it, and seeds ascend. When `r` is
      an equivalence relation, each cluster is one equivalence class. */
  method ExtractClusters(r: Matrix) returns (clusters: seq<seq<int>>)
    requires Square(r)
    ensures WellFormed(clusters, |r|)
    ensures forall x :: 0 <= x < |r| ==> Covered(clusters, x)
    ensures Disjoint(clusters)
    ensures SeedsAscend(clusters)
    ensures Equivalence(r) ==> Classes(r, clusters)
  {
    var n := |r|;
    var visited := seq(n, _ => false);
    clusters := [];
    var i := 0;
    while i < n
      invariant Progress(r, clusters, visited, i)
    {
      if !visited[i] {
        var cluster, visited' := ExpandFrom(r, visited, i);
        AddCluster(r, clusters, visited, i, cluster, visited');
        clusters := clusters + [cluster];
        visited := visited';
      } else {
      }
      i := i + 1;
    }
  }
}
