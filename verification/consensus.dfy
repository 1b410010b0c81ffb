/** The consensus ranking of `find_core_and_consistent_ranking`
    (task3/main.py:66-113): the closure of the tolerance relation, its
    clusters, their order, and the output shape. */
module Consensus {
  import opened BoolMatrix
  import opened Sorting
  import opened Ranking
  import opened Closure
  import opened Clusters
  import opened Lists
  import opened Core

  // ---------------------------------------------------------------------
  // Clusters of objects.

  /** The object at position `i`, for positions in range. */
  function At(objs: seq<int>): int -> int {
    i => if 0 <= i < |objs| then objs[i] else 0
  }

  /** `[objects[node] for node in cluster]` */
  function Gather(objs: seq<int>, idx: seq<int>): (vs: seq<int>)
    requires AllBelow(idx, |objs|)
    ensures |vs| == |idx| && forall t :: 0 <= t < |idx| ==> vs[t] == objs[idx[t]]
  {
    Apply(At(objs), idx)
  }

  /** `clusters.append(sorted(cluster))` for every cluster of positions. */
  function ValueClusters(objs: seq<int>, idx: seq<seq<int>>): (vc: seq<seq<int>>)
    requires forall c :: 0 <= c < |idx| ==> AllBelow(idx[c], |objs|)
    ensures |vc| == |idx|
    ensures forall c :: 0 <= c < |idx| ==>
      Sorted(vc[c]) && multiset(vc[c]) == multiset(Gather(objs, idx[c]))
  {
    seq(|idx|, c requires 0 <= c < |idx| => Sort(Gather(objs, idx[c])))
  }

  lemma {:induction false} GatherFlat(objs: seq<int>, idx: seq<seq<int>>)
    requires forall c :: 0 <= c < |idx| ==> AllBelow(idx[c], |objs|)
    ensures AllBelow(Flat(idx), |objs|)
    ensures multiset(Flat(ValueClusters(objs, idx))) == multiset(Apply(At(objs), Flat(idx)))
    decreases |idx|
  {
    if idx != [] {
      var front := idx[..|idx| - 1];
      var last := idx[|idx| - 1];
      GatherFlat(objs, front);
      var vc := ValueClusters(objs, idx);
      assert vc[..|vc| - 1] == ValueClusters(objs, front);
      assert Flat(vc) == Flat(ValueClusters(objs, front)) + vc[|vc| - 1];
      ApplyAppend(At(objs), Flat(front), last);
      assert Flat(idx) == Flat(front) + last;
    }
  }

  /** Clusters that split the positions `0 .. n - 1` hold, together, every
      object of `objs` exactly as often as `objs` does. */
  lemma ValueClustersPermute(objs: seq<int>, idx: seq<seq<int>>)
    requires WellFormed(idx, |objs|) && Disjoint(idx)
    requires forall x :: 0 <= x < |objs| ==> Covered(idx, x)
    ensures multiset(Flat(ValueClusters(objs, idx))) == multiset(objs)
  {
    var n := |objs|;
    GatherFlat(objs, idx);
    FlatNoDup(idx);
    FlatCovers(idx, n);
    PermutationOfRange(Flat(idx), n);
    ApplyPermutes(At(objs), Flat(idx), Range(n));
    ApplyAtRange(objs);
  }

  lemma FlatCovers(idx: seq<seq<int>>, n: int)
    requires forall x :: 0 <= x < n ==> Covered(idx, x)
    ensures forall x :: 0 <= x < n ==> x in Flat(idx)
  {
    forall x | 0 <= x < n
      ensures x in Flat(idx)
    {
      assert Covered(idx, x);
      var c :| 0 <= c < |idx| && x in idx[c];
    }
  }

  lemma ApplyAtRange(objs: seq<int>)
    ensures Apply(At(objs), Range(|objs|)) == objs
  {
    var r := Apply(At(objs), Range(|objs|));
    forall t | 0 <= t < |objs|
      ensures r[t] == objs[t]
    {
      assert Range(|objs|)[t] == t;
    }
  }

  /** Every cluster of positions yields a nonempty sorted cluster of objects. */
  lemma ValueClustersShape(objs: seq<int>, idx: seq<seq<int>>)
    requires WellFormed(idx, |objs|)
    ensures forall c :: 0 <= c < |idx| ==>
      |ValueClusters(objs, idx)[c]| > 0 && Sorted(ValueClusters(objs, idx)[c])
  {
    var vc := ValueClusters(objs, idx);
    forall c | 0 <= c < |idx|
      ensures |vc[c]| > 0
    {
      assert |multiset(vc[c])| == |Gather(objs, idx[c])| == |idx[c]| > 0;
    }
  }

  /** A permutation of nonempty sorted lists consists of nonempty sorted lists. */
  lemma PermutedShape(vc: seq<seq<int>>, ordered: seq<seq<int>>)
    requires multiset(ordered) == multiset(vc)
    requires forall c :: 0 <= c < |vc| ==> |vc[c]| > 0 && Sorted(vc[c])
    ensures forall s :: 0 <= s < |ordered| ==> |ordered[s]| > 0 && Sorted(ordered[s])
  {
    forall s | 0 <= s < |ordered|
      ensures |ordered[s]| > 0 && Sorted(ordered[s])
    {
      assert ordered[s] in multiset(vc);
      var c :| 0 <= c < |vc| && vc[c] == ordered[s];
    }
  }

  // ---------------------------------------------------------------------
  // Ordering the clusters.

  /** `get_cluster_position`: the first slot holding any object of the
      cluster, or the length of the ranking when no slot does. */
  function ClusterPosition(vals: seq<int>, r: Ranking): (pos: int)
    ensures 0 <= pos <= |r|
    ensures pos < |r| ==> exists x :: x in vals && x in Members(r[pos])
    ensures forall t, x :: 0 <= t < pos && x in vals ==> x !in Members(r[t])
    decreases |r|
  {
    if r == [] then 0
    else if exists x :: x in vals && x in Members(r[0]) then 0
    else
      var pos := 1 + ClusterPosition(vals, r[1..]);
      assert forall t :: 1 <= t < |r| ==> r[t] == r[1..][t - 1];
      pos
  }

  /** The position is never later than a slot holding a member, and it is
      the length of the ranking exactly when no member occurs in it. */
  lemma ClusterPositionBounds(vals: seq<int>, r: Ranking, x: int)
    requires x in vals && Occurs(r, x)
    ensures ClusterPosition(vals, r) <= SlotOf(r, x) < |r|
  {
  }

  lemma ClusterPositionAbsent(vals: seq<int>, r: Ranking)
    ensures ClusterPosition(vals, r) == |r| <==> forall x :: x in vals ==> !Occurs(r, x)
  {
    var pos := ClusterPosition(vals, r);
    if pos < |r| {
      var x :| x in vals && x in Members(r[pos]);
      assert Occurs(r, x);
    }
  }

  /** The sort key: the sum of both positions, which orders the clusters
      as the source's halved sum does. */
  function Key(a: Ranking, b: Ranking, vals: seq<int>): int {
    ClusterPosition(vals, a) + ClusterPosition(vals, b)
  }

  function Keyed(a: Ranking, b: Ranking, cs: seq<seq<int>>): (ks: seq<(int, seq<int>)>)
    ensures |ks| == |cs| && forall c :: 0 <= c < |cs| ==> ks[c] == (Key(a, b, cs[c]), cs[c])
  {
    seq(|cs|, c requires 0 <= c < |cs| => (Key(a, b, cs[c]), cs[c]))
  }

  function Second(p: (int, seq<int>)): seq<int> {
    p.1
  }

  /** Any rearrangement of the keyed clusters is the keying of its own
      clusters, which rearrange the original clusters. */
  lemma KeyedRearranged(a: Ranking, b: Ranking, cs: seq<seq<int>>, sorted: seq<(int, seq<int>)>)
    requires multiset(sorted) == multiset(Keyed(a, b, cs))
    ensures Keyed(a, b, Apply(Second, sorted)) == sorted
    ensures multiset(Apply(Second, sorted)) == multiset(cs)
  {
    var ks := Keyed(a, b, cs);
    var r := Apply(Second, sorted);
    forall t | 0 <= t < |sorted|
      ensures sorted[t] == (Key(a, b, r[t]), r[t])
    {
      assert sorted[t] in multiset(ks);
    }
    assert Apply(Second, ks) == cs;
    ApplyPermutes(Second, sorted, ks);
  }

  /** Dropping the keys of a stable sort of the keyed clusters gives the
      clusters in ascending key order, each key's clusters in their old
      order. */
  lemma SortedClusters(a: Ranking, b: Ranking, cs: seq<seq<int>>, sorted: seq<(int, seq<int>)>)
    requires SortedByKey(sorted) && multiset(sorted) == multiset(Keyed(a, b, cs))
    requires forall v :: WithKey(sorted, v) == WithKey(Keyed(a, b, cs), v)
    ensures var r := Apply(Second, sorted);
      && |r| == |cs|
      && multiset(r) == multiset(cs)
      && (forall s, t :: 0 <= s < t < |r| ==> Key(a, b, r[s]) <= Key(a, b, r[t]))
      && (forall v :: WithKey(Keyed(a, b, r), v) == WithKey(Keyed(a, b, cs), v))
  {
    var r := Apply(Second, sorted);
    KeyedRearranged(a, b, cs, sorted);
    assert |r| == |multiset(r)| == |multiset(cs)| == |cs|;
    forall s, t | 0 <= s < t < |r|
      ensures Key(a, b, r[s]) <= Key(a, b, r[t])
    {
      assert Keyed(a, b, r)[s] == sorted[s] && Keyed(a, b, r)[t] == sorted[t];
    }
  }

  /** `clusters.sort(key=...)`: a stable sort by the summed positions. The
      result is a permutation, its keys ascend, and clusters sharing a key
      keep their relative order. */
  function Order(a: Ranking, b: Ranking, cs: seq<seq<int>>): (r: seq<seq<int>>)
    ensures |r| == |cs|
    ensures multiset(r) == multiset(cs)
    ensures forall s, t :: 0 <= s < t < |r| ==> Key(a, b, r[s]) <= Key(a, b, r[t])
    ensures forall v :: WithKey(Keyed(a, b, r), v) == WithKey(Keyed(a, b, cs), v)
  {
    var sorted := StableSortByKey(Keyed(a, b, cs));
    SortedClusters(a, b, cs, sorted);
    Apply(Second, sorted)
  }

  // ---------------------------------------------------------------------
  // Output shape.

  /** A single object is emitted bare, a larger cluster as a list. */
  function Shape(vals: seq<int>): (s: Slot)
    ensures Members(s) == vals
    ensures s.One? <==> |vals| == 1
  {
    if |vals| == 1 then One(vals[0]) else Group(vals)
  }

  function Render(cs: seq<seq<int>>): (r: Ranking)
    ensures |r| == |cs|
    ensures forall c :: 0 <= c < |cs| ==> r[c] == Shape(cs[c])
  {
    seq(|cs|, c requires 0 <= c < |cs| => Shape(cs[c]))
  }

  /** Reading the rendered ranking back slot by slot gives the clusters'
      objects in order. */
  lemma {:induction false} ConcatRender(cs: seq<seq<int>>)
    ensures Concat(Render(cs)) == Flat(cs)
    decreases |cs|
  {
    if cs != [] {
      var front := cs[..|cs| - 1];
      ConcatRender(front);
      assert Render(cs)[..|cs| - 1] == Render(front);
    }
  }

  // ---------------------------------------------------------------------
  // Clusters are the classes of the closed relation.

  /** Every copy of an object is related to its first copy. */
  ghost predicate CopiesJoined(objs: seq<int>, r: Matrix)
    requires Square(r) && |r| == |objs|
  {
    forall i :: 0 <= i < |objs| ==> r[i][IndexOf(objs, objs[i])]
  }

  /** The objects of one cluster are exactly the objects whose first
      positions `r` relates to the first position of any one member. */
  lemma ClusterIsClass(objs: seq<int>, r: Matrix, idx: seq<seq<int>>, c: int, x: int, y: int)
    requires Square(r) && |r| == |objs| && Equivalence(r) && CopiesJoined(objs, r)
    requires WellFormed(idx, |objs|) && Classes(r, idx)
    requires 0 <= c < |idx| && x in ValueClusters(objs, idx)[c] && y in objs
    ensures x in objs
    ensures y in ValueClusters(objs, idx)[c] <==> r[IndexOf(objs, x)][IndexOf(objs, y)]
  {
    var vc := ValueClusters(objs, idx);
    var g := Gather(objs, idx[c]);
    assert x in multiset(g);
    var t :| 0 <= t < |g| && g[t] == x;
    var i := idx[c][t];
    assert i in idx[c];
    var ix, iy := IndexOf(objs, x), IndexOf(objs, y);
    assert r[i][ix];
    if y in vc[c] {
      assert y in multiset(g);
      var u :| 0 <= u < |g| && g[u] == y;
      var j := idx[c][u];
      assert j in idx[c];
      assert r[i][j];
      assert r[j][iy];
      assert r[ix][i];
    }
    if r[ix][iy] {
      assert r[i][iy];
      assert iy in idx[c];
      var u :| 0 <= u < |idx[c]| && idx[c][u] == iy;
      assert g[u] == y;
      assert y in multiset(g);
    }
  }

  // ---------------------------------------------------------------------
  // Clusters sharing a key keep the order of their smallest objects.

  /** Nonempty lists whose first elements strictly ascend. */
  predicate LeadsAscend(cs: seq<seq<int>>) {
    && (forall c :: 0 <= c < |cs| ==> |cs[c]| > 0)
    && (forall c, d :: 0 <= c < d < |cs| ==> cs[c][0] < cs[d][0])
  }

  predicate KeyedLeadsAscend(ks: seq<(int, seq<int>)>) {
    && (forall t :: 0 <= t < |ks| ==> |ks[t].1| > 0)
    && (forall p, q :: 0 <= p < q < |ks| ==> ks[p].1[0] < ks[q].1[0])
  }

  /** Two keyed lists with ascending leads, the first's leads all below the
      second's, concatenate to one with ascending leads. */
  lemma LeadsAppend(s: seq<(int, seq<int>)>, u: seq<(int, seq<int>)>)
    requires KeyedLeadsAscend(s) && KeyedLeadsAscend(u)
    requires forall p, q :: 0 <= p < |s| && 0 <= q < |u| ==> s[p].1[0] < u[q].1[0]
    ensures KeyedLeadsAscend(s + u)
  {
    var su := s + u;
    forall p, q | 0 <= p < q < |su|
      ensures su[p].1[0] < su[q].1[0]
    {
      if q >= |s| && p < |s| {
        assert su[q] == u[q - |s|];
      }
    }
  }

  lemma {:induction false} WithKeyLeadsAscend(ks: seq<(int, seq<int>)>, v: int)
    requires KeyedLeadsAscend(ks)
    ensures KeyedLeadsAscend(WithKey(ks, v))
    decreases |ks|
  {
    if ks != [] {
      var front := ks[..|ks| - 1];
      var last := ks[|ks| - 1];
      assert forall t :: 0 <= t < |front| ==> front[t] == ks[t];
      WithKeyLeadsAscend(front, v);
      var wf := WithKey(front, v);
      var tail := if last.0 == v then [last] else [];
      assert WithKey(ks, v) == wf + tail;
      forall p, q | 0 <= p < |wf| && 0 <= q < |tail|
        ensures wf[p].1[0] < tail[q].1[0]
      {
        assert wf[p] in front;
        var k :| 0 <= k < |front| && front[k] == wf[p];
        assert ks[k] == wf[p] && tail[q] == ks[|ks| - 1];
      }
      LeadsAppend(wf, tail);
    }
  }

  /** Clusters sharing a key: nonempty, in ascending order of their first
      (smallest) objects. */
  predicate TiesByLead(a: Ranking, b: Ranking, r: seq<seq<int>>) {
    && (forall s :: 0 <= s < |r| ==> |r[s]| > 0)
    && (forall s, t :: 0 <= s < t < |r| && Key(a, b, r[s]) == Key(a, b, r[t]) ==> r[s][0] < r[t][0])
  }

  /** The stable sort keeps clusters that share a key in the order of their
      smallest objects when they came in that order. */
  lemma OrderKeepsLeads(a: Ranking, b: Ranking, cs: seq<seq<int>>)
    requires LeadsAscend(cs)
    ensures TiesByLead(a, b, Order(a, b, cs))
  {
    var r := Order(a, b, cs);
    forall s | 0 <= s < |r|
      ensures |r[s]| > 0
    {
      assert r[s] in multiset(cs);
    }
    var kc := Keyed(a, b, cs);
    assert KeyedLeadsAscend(kc);
    forall s, t | 0 <= s < t < |r| && Key(a, b, r[s]) == Key(a, b, r[t])
      ensures r[s][0] < r[t][0]
    {
      var kr := Keyed(a, b, r);
      var v := Key(a, b, r[s]);
      WithKeyEmbeds(kr, s, t);
      var w := WithKey(kr, v);
      var p, q :| 0 <= p < q < |w| && w[p] == kr[s] && w[q] == kr[t];
      assert w == WithKey(kc, v);
      WithKeyLeadsAscend(kc, v);
    }
  }

  /** A cluster of positions grown from its smallest position yields objects
      whose smallest is the object at that position. */
  lemma ValueClusterLead(objs: seq<int>, idx: seq<seq<int>>, c: int)
    requires Sorted(objs) && WellFormed(idx, |objs|) && SeedsAscend(idx) && 0 <= c < |idx|
    ensures |ValueClusters(objs, idx)[c]| > 0
    ensures ValueClusters(objs, idx)[c][0] == objs[idx[c][0]]
  {
    ValueClustersShape(objs, idx);
    var vc := ValueClusters(objs, idx);
    var g := Gather(objs, idx[c]);
    var seed := idx[c][0];
    assert vc[c][0] in multiset(g);
    var t :| 0 <= t < |g| && g[t] == vc[c][0];
    assert idx[c][t] in idx[c];
    assert seed <= idx[c][t];
    assert g[0] in multiset(vc[c]);
    var k :| 0 <= k < |vc[c]| && vc[c][k] == g[0];
    assert vc[c][0] <= vc[c][k];
  }

  /** Before sorting, the clusters come in ascending order of their
      smallest objects: seeds ascend, and two clusters never share an
      object because all copies of an object are related. */
  lemma ValueClustersLeads(objs: seq<int>, r: Matrix, idx: seq<seq<int>>)
    requires Sorted(objs)
    requires Square(r) && |r| == |objs| && Equivalence(r) && CopiesJoined(objs, r)
    requires WellFormed(idx, |objs|) && Disjoint(idx) && SeedsAscend(idx) && Classes(r, idx)
    ensures LeadsAscend(ValueClusters(objs, idx))
  {
    var vc := ValueClusters(objs, idx);
    forall c | 0 <= c < |vc|
      ensures |vc[c]| > 0 && vc[c][0] == objs[idx[c][0]]
    {
      ValueClusterLead(objs, idx, c);
    }
    forall c, d | 0 <= c < d < |vc|
      ensures vc[c][0] < vc[d][0]
    {
      var sc, sd := idx[c][0], idx[d][0];
      assert sc < sd;

    }
  }

  // ---------------------------------------------------------------------
  // The whole pipeline.

  /** The objects at the first positions of `x` and `y` are joined by a
      chain of tolerated pairs. */
  ghost predicate Linked(a: Ranking, b: Ranking, x: int, y: int)
    requires Covers(a, b) && Occurs(a, x) && Occurs(a, y)
  {
    Reach(Tolerance(a, b), IndexOf(Objects(a), x), IndexOf(Objects(a), y))
  }

  /** Pairs tied in both rankings, and core pairs, are linked. */
  lemma TiedOrCoreLinked(a: Ranking, b: Ranking, x: int, y: int)
    requires Covers(a, b) && Occurs(a, x) && Occurs(a, y)
    requires TiedInBoth(a, b, x, y) || (x, y) in CorePairs(a, b)
    ensures Linked(a, b, x, y)
  {
    var objs := Objects(a);
    var ix, iy := IndexOf(objs, x), IndexOf(objs, y);
    if TiedInBoth(a, b, x, y) {
      ToleranceEntries(a, b, ix, iy);
    } else {
      CorePairTolerated(a, b, x, y);
    }
    EdgeReach(Tolerance(a, b), ix, iy);
  }

  /** What the closure and the cluster walk deliver: `r` is an equivalence
      relating every copy of an object to its first copy, and `idx` splits
      the positions into its classes, each led by its smallest position. */
  ghost predicate Partition(objs: seq<int>, r: Matrix, idx: seq<seq<int>>) {
    && Square(r) && |r| == |objs| && Equivalence(r) && CopiesJoined(objs, r)
    && WellFormed(idx, |objs|) && Disjoint(idx) && SeedsAscend(idx) && Classes(r, idx)
    && (forall x :: 0 <= x < |objs| ==> Covered(idx, x))
  }

  /** The output list: clusters of objects, stably sorted, shaped. */
  function Assemble(a: Ranking, b: Ranking, objs: seq<int>, idx: seq<seq<int>>): (r: Ranking)
    requires forall c :: 0 <= c < |idx| ==> AllBelow(idx[c], |objs|)
    ensures |r| == |idx|
  {
    Render(Order(a, b, ValueClusters(objs, idx)))
  }

  /** The output holds every object of `objs` exactly as often, in nonempty
      sorted slots, singletons bare, with ascending keys. */
  lemma AssembleShape(a: Ranking, b: Ranking, objs: seq<int>, r: Matrix, idx: seq<seq<int>>)
    requires Partition(objs, r, idx)
    ensures var out := Assemble(a, b, objs, idx);
      && multiset(Concat(out)) == multiset(objs)
      && (forall s :: 0 <= s < |out| ==>
            |Members(out[s])| > 0 && Sorted(Members(out[s])) &&
            (out[s].One? <==> |Members(out[s])| == 1))
      && (forall s, t :: 0 <= s < t < |out| ==> Key(a, b, Members(out[s])) <= Key(a, b, Members(out[t])))
  {
    var vc := ValueClusters(objs, idx);
    var ordered := Order(a, b, vc);
    ValueClustersPermute(objs, idx);
    FlatPermutes(ordered, vc);
    ConcatRender(ordered);
    ValueClustersShape(objs, idx);
    PermutedShape(vc, ordered);
  }

  /** Slots sharing a key come in ascending order of their smallest objects. */
  lemma AssembleTies(a: Ranking, b: Ranking, objs: seq<int>, r: Matrix, idx: seq<seq<int>>)
    requires Sorted(objs) && Partition(objs, r, idx)
    ensures var out := Assemble(a, b, objs, idx);
      forall s, t ::
        0 <= s < t < |out| && |Members(out[s])| > 0 && |Members(out[t])| > 0 && Key(a, b, Members(out[s])) == Key(a, b, Members(out[t]))
        ==> Members(out[s])[0] < Members(out[t])[0]
  {
    var vc := ValueClusters(objs, idx);
    ValueClustersLeads(objs, r, idx);
    OrderKeepsLeads(a, b, vc);
  }

  /** Each slot is a class of `r`, read through first positions. */
  lemma AssembleClasses(a: Ranking, b: Ranking, objs: seq<int>, r: Matrix, idx: seq<seq<int>>,
                        s: int, x: int, y: int)
    requires Partition(objs, r, idx)
    requires 0 <= s < |Assemble(a, b, objs, idx)| && x in Members(Assemble(a, b, objs, idx)[s])
    requires y in objs
    ensures x in objs
    ensures y in Members(Assemble(a, b, objs, idx)[s]) <==> r[IndexOf(objs, x)][IndexOf(objs, y)]
  {
    var vc := ValueClusters(objs, idx);
    var ordered := Order(a, b, vc);
    assert ordered[s] in multiset(vc);
    var c :| 0 <= c < |vc| && vc[c] == ordered[s];
    ClusterIsClass(objs, r, idx, c, x, y);
  }

  /** Steps 4 and 5 of the pipeline: close the tolerance relation with
      Warshall's loop and split the object positions into its classes. */
  method Cluster(a: Ranking, b: Ranking) returns (closed: Matrix, idx: seq<seq<int>>)
    requires Covers(a, b)
    ensures Partition(Objects(a), closed, idx)
    ensures forall i, j :: 0 <= i < |closed| && 0 <= j < |closed| ==>
      (closed[i][j] <==> Reach(Tolerance(a, b), i, j))
  {
    var objs := Objects(a);
    var e := Tolerance(a, b);
    ToleranceIsTolerance(a, b);
    closed := Warshall(e);
    idx := ExtractClusters(closed);
    forall i | 0 <= i < |objs|
      ensures closed[i][IndexOf(objs, objs[i])]
    {
      CopiesTolerated(a, b, i);
    }
  }

  /** Every object of the output is an object of the first ranking. */
  lemma AssembleMembers(a: Ranking, b: Ranking, r: Matrix, idx: seq<seq<int>>, out: Ranking)
    requires Partition(Objects(a), r, idx)
    requires out == Assemble(a, b, Objects(a), idx)
    ensures forall s, x :: 0 <= s < |out| && x in Members(out[s]) ==> Occurs(a, x)
  {
    forall s, x | 0 <= s < |out| && x in Members(out[s])
      ensures Occurs(a, x)
    {
      AssembleMemberAt(a, b, Objects(a), idx, s, x);
    }
  }

  /** The objects of a value cluster come from `objs`. */
  lemma ValueClusterMember(objs: seq<int>, idx: seq<seq<int>>, c: int, x: int)
    requires forall c :: 0 <= c < |idx| ==> AllBelow(idx[c], |objs|)
    requires 0 <= c < |idx| && x in ValueClusters(objs, idx)[c]
    ensures x in objs
  {
    var g := Gather(objs, idx[c]);
    assert x in multiset(g);
    var t :| 0 <= t < |g| && g[t] == x;
    assert idx[c][t] in idx[c];
  }

  lemma AssembleMemberAt(a: Ranking, b: Ranking, objs: seq<int>, idx: seq<seq<int>>, s: int, x: int)
    requires WellFormed(idx, |objs|)
    requires 0 <= s < |Assemble(a, b, objs, idx)| && x in Members(Assemble(a, b, objs, idx)[s])
    ensures x in objs
  {
    var vc := ValueClusters(objs, idx);
    var ordered := Order(a, b, vc);
    assert Members(Assemble(a, b, objs, idx)[s]) == ordered[s];
    assert ordered[s] in multiset(vc);
    var c :| 0 <= c < |vc| && vc[c] == ordered[s];
    ValueClusterMember(objs, idx, c, x);
  }

  /** With `r` the closure of the tolerance relation, each slot is a class
      of linked objects. */
  lemma AssembleLinked(a: Ranking, b: Ranking, r: Matrix, idx: seq<seq<int>>, out: Ranking)
    requires Covers(a, b) && Partition(Objects(a), r, idx)
    requires forall i, j :: 0 <= i < |r| && 0 <= j < |r| ==> (r[i][j] <==> Reach(Tolerance(a, b), i, j))
    requires out == Assemble(a, b, Objects(a), idx)
    requires forall s, x :: 0 <= s < |out| && x in Members(out[s]) ==> Occurs(a, x)
    ensures forall s, x, y :: 0 <= s < |out| && x in Members(out[s]) && Occurs(a, y) ==>
      (y in Members(out[s]) <==> Linked(a, b, x, y))
  {
    forall s, x, y | 0 <= s < |out| && x in Members(out[s]) && Occurs(a, y)
      ensures y in Members(out[s]) <==> Linked(a, b, x, y)
    {
      AssembleLinkedAt(a, b, r, idx, s, x, y);
    }
  }

  lemma AssembleLinkedAt(a: Ranking, b: Ranking, r: Matrix, idx: seq<seq<int>>, s: int, x: int, y: int)
    requires Covers(a, b) && Partition(Objects(a), r, idx)
    requires forall i, j :: 0 <= i < |r| && 0 <= j < |r| ==> (r[i][j] <==> Reach(Tolerance(a, b), i, j))
    requires 0 <= s < |Assemble(a, b, Objects(a), idx)| && x in Members(Assemble(a, b, Objects(a), idx)[s])
    requires Occurs(a, y)
    ensures Occurs(a, x) && (y in Members(Assemble(a, b, Objects(a), idx)[s]) <==> Linked(a, b, x, y))
  {
    var objs := Objects(a);
    AssembleClasses(a, b, objs, r, idx, s, x, y);
    var ix, iy := IndexOf(objs, x), IndexOf(objs, y);
    assert r[ix][iy] <==> Reach(Tolerance(a, b), ix, iy);
  }
}
