/** What the reconciliation gives on the inputs its tests single out:
    identical strict rankings, a strict ranking against its reversal, and a
    ranking of one object (task3/tests/test_main.py:78-107, 241-259). */
module Scenarios {
  import opened BoolMatrix
  import opened Sorting
  import opened Ranking
  import opened Clusters
  import opened Lists
  import opened Core
  import opened Consensus

  // Rankings whose slots each hold one object.

  /** With one object per slot, the slot contents are the slots' objects. */
  lemma {:induction false} ConcatOnes(r: Ranking)
    requires forall t :: 0 <= t < |r| ==> r[t].One?
    ensures |Concat(r)| == |r|
    ensures forall t :: 0 <= t < |r| ==> Concat(r)[t] == r[t].obj
    decreases |r|
  {
    if r != [] {
      var front := r[..|r| - 1];
      assert forall t :: 0 <= t < |front| ==> front[t] == r[t];
      ConcatOnes(front);
    }
  }

  /** A value found at two positions counts at least twice. */
  lemma RepeatCounts(s: seq<int>, i: int, j: int)
    requires 0 <= i < j < |s| && s[i] == s[j]
    ensures multiset(s)[s[i]] >= 2
  {
    assert s == s[..j] + [s[j]] + s[j + 1..];
    assert s[i] in s[..j];
  }

  /** A strict ranking lists each of its objects once. */
  lemma StrictObjects(a: Ranking)
    requires Strict(a)
    ensures NoDup(Objects(a)) && |Objects(a)| == |a|
  {
    var c := Concat(a);
    ConcatOnes(a);
    assert NoDup(c);
    var objs := Objects(a);
    forall i, j | 0 <= i < j < |objs|
      ensures objs[i] != objs[j]
    {
      if objs[i] == objs[j] {
        RepeatCounts(objs, i, j);
        NoDupCount(c, objs[i]);
        assert false;
      }
    }
    assert |objs| == |multiset(objs)| == |multiset(c)| == |c|;
  }

  lemma StrictReverse(r: Ranking)
    requires Strict(r)
    ensures Strict(Reverse(r))
  {
    var rev := Reverse(r);
    forall t, u | 0 <= t < u < |rev|
      ensures rev[t].obj != rev[u].obj
    {
      assert rev[t] == r[|r| - 1 - t] && rev[u] == r[|r| - 1 - u];
    }
  }

  /** In a strict ranking the first slot holding `x` is its only slot. */
  lemma StrictClusterPosition(r: Ranking, x: int)
    requires Strict(r) && Occurs(r, x)
    ensures ClusterPosition([x], r) == SlotOf(r, x)
  {
    var pos := ClusterPosition([x], r);
    ClusterPositionBounds([x], r, x);
    var y :| y in [x] && y in Members(r[pos]);
    assert r[pos].obj == x == r[SlotOf(r, x)].obj;
  }

  /** Every object of a strict ranking gets the same key against the
      reversed ranking: the slots it holds in the two add up to `|a| - 1`. */
  lemma ReversedKey(a: Ranking, x: int)
    requires Strict(a) && Occurs(a, x)
    ensures Key(a, Reverse(a), [x]) == |a| - 1
  {
    ReverseSlot(a, x);
    StrictReverse(a);
    StrictClusterPosition(a, x);
    StrictClusterPosition(Reverse(a), x);
  }

  // The tolerance relation in the two extreme cases.

  /** Identical strict rankings tolerate every pair of positions. */
  lemma IdenticalTolerance(a: Ranking, i: int, j: int)
    requires Strict(a) && 0 <= i < |Objects(a)| && 0 <= j < |Objects(a)|
    ensures Covers(a, a) && Tolerance(a, a)[i][j]
  {
    var objs := Objects(a);
    StrictObjects(a);
    ToleranceEntries(a, a, i, j);
    if i != j {
      assert objs[i] in objs && objs[j] in objs;
      StrictSlots(a, objs[i], objs[j]);
    }
  }

  /** A strict ranking and its reversal tolerate a pair of positions only
      when the positions coincide. */
  lemma ReversedTolerance(a: Ranking, i: int, j: int)
    requires Strict(a) && 0 <= i < |Objects(a)| && 0 <= j < |Objects(a)|
    ensures Covers(a, Reverse(a))
    ensures Tolerance(a, Reverse(a))[i][j] ==> i == j
  {
    var objs := Objects(a);
    ReverseOccurs(a);
    StrictObjects(a);
    ToleranceEntries(a, Reverse(a), i, j);
    if i != j {
      var x, y := objs[i], objs[j];
      assert x in objs && y in objs;
      StrictSlots(a, x, y);
      ReverseSlot(a, x);
      ReverseSlot(a, y);
    }
  }

  // Classes of the two extreme relations.

  /** When `r` relates everything, one cluster holds every position. */
  lemma FullRelationOneCluster(r: Matrix, idx: seq<seq<int>>)
    requires Square(r) && |r| > 0
    requires forall i, j :: 0 <= i < |r| && 0 <= j < |r| ==> r[i][j]
    requires WellFormed(idx, |r|) && Disjoint(idx) && Classes(r, idx)
    requires forall x :: 0 <= x < |r| ==> Covered(idx, x)
    ensures |idx| == 1
  {
    assert Covered(idx, 0);
    var c :| 0 <= c < |idx| && 0 in idx[c];
    FullRelationSameCluster(r, idx, c, 0);
    FullRelationSameCluster(r, idx, c, |idx| - 1);
  }

  lemma FullRelationSameCluster(r: Matrix, idx: seq<seq<int>>, c: int, d: int)
    requires Square(r) && |r| > 0
    requires forall i, j :: 0 <= i < |r| && 0 <= j < |r| ==> r[i][j]
    requires WellFormed(idx, |r|) && Disjoint(idx) && Classes(r, idx)
    requires 0 <= c < |idx| && 0 in idx[c] && 0 <= d < |idx|
    ensures d == c
  {
    var x := idx[d][0];
    assert x in idx[d] && 0 <= x < |r|;
    assert r[0][x];
    assert x in idx[c];
  }

  /** When `r` relates each position only to itself, every cluster is a
      single position. */
  lemma IdentityRelationSingletons(r: Matrix, idx: seq<seq<int>>)
    requires Square(r)
    requires forall i, j :: 0 <= i < |r| && 0 <= j < |r| && r[i][j] ==> i == j
    requires WellFormed(idx, |r|) && Classes(r, idx)
    ensures forall c :: 0 <= c < |idx| ==> |idx[c]| == 1
  {
    forall c | 0 <= c < |idx|
      ensures |idx[c]| == 1
    {
      var s := idx[c];
      var x, y := s[0], s[|s| - 1];
      assert x in s && y in s && 0 <= x < |r| && 0 <= y < |r|;
      assert r[x][y];
    }
  }

  // The output in the extreme cases.

  /** Clusters of one position come out as bare objects. */
  lemma AssembleSingletons(a: Ranking, b: Ranking, objs: seq<int>, idx: seq<seq<int>>)
    requires WellFormed(idx, |objs|)
    requires forall c :: 0 <= c < |idx| ==> |idx[c]| == 1
    ensures forall s :: 0 <= s < |Assemble(a, b, objs, idx)| ==> Assemble(a, b, objs, idx)[s].One?
  {
    forall s | 0 <= s < |idx|
      ensures |Order(a, b, ValueClusters(objs, idx))[s]| == 1
    {
      OrderedSingleton(a, b, objs, idx, s);
    }
  }

  lemma OrderedSingleton(a: Ranking, b: Ranking, objs: seq<int>, idx: seq<seq<int>>, s: int)
    requires forall c :: 0 <= c < |idx| ==> AllBelow(idx[c], |objs|) && |idx[c]| == 1
    requires 0 <= s < |idx|
    ensures |Order(a, b, ValueClusters(objs, idx))[s]| == 1
  {
    var vc := ValueClusters(objs, idx);
    var ordered := Order(a, b, vc);
    assert ordered[s] in multiset(vc);
    var c :| 0 <= c < |vc| && vc[c] == ordered[s];
    assert |vc[c]| == |multiset(vc[c])| == |multiset(Gather(objs, idx[c]))|;
  }

  /** A ranking of one slot lists exactly that slot's objects. */
  lemma ConcatOne(r: Ranking)
    requires |r| == 1
    ensures Concat(r) == Members(r[0])
  {
    assert r[..0] == [];
  }

  /** When the closure relates every pair of positions, the output is a
      single slot holding every object, in ascending order. */
  lemma OneClusterOutput(a: Ranking, b: Ranking, r: Matrix, idx: seq<seq<int>>, out: Ranking)
    requires Partition(Objects(a), r, idx) && |Objects(a)| > 0
    requires forall i, j :: 0 <= i < |r| && 0 <= j < |r| ==> r[i][j]
    requires out == Assemble(a, b, Objects(a), idx)
    ensures out == [Shape(Objects(a))]
  {
    var objs := Objects(a);
    FullRelationOneCluster(r, idx);
    AssembleShape(a, b, objs, r, idx);
    ConcatOne(out);
    SortedUnique(Members(out[0]), objs);
    var ordered := Order(a, b, ValueClusters(objs, idx));
    assert out[0] == Shape(ordered[0]);
  }

  /** Identical strict rankings give one slot holding every object: every
      pair is ordered alike, so every pair is in the core and all positions
      are linked. */
  lemma IdenticalOutput(a: Ranking, b: Ranking, r: Matrix, idx: seq<seq<int>>, out: Ranking)
    requires Strict(a) && a != [] && b == a
    requires Partition(Objects(a), r, idx)
    requires forall i, j :: 0 <= i < |r| && 0 <= j < |r| ==> (r[i][j] <==> Reach(Tolerance(a, b), i, j))
    requires out == Assemble(a, b, Objects(a), idx)
    ensures out == [Shape(Objects(a))]
  {
    StrictObjects(a);
    forall i, j | 0 <= i < |r| && 0 <= j < |r|
      ensures r[i][j]
    {
      IdenticalTolerance(a, i, j);
      EdgeReach(Tolerance(a, a), i, j);
    }
    OneClusterOutput(a, a, r, idx, out);
  }

  /** A ranking of one object gives that object as the only slot. */
  lemma SingleObjectOutput(a: Ranking, b: Ranking, r: Matrix, idx: seq<seq<int>>, out: Ranking)
    requires |Objects(a)| == 1
    requires Partition(Objects(a), r, idx)
    requires out == Assemble(a, b, Objects(a), idx)
    ensures out == [One(Objects(a)[0])]
  {
    forall i, j | 0 <= i < |r| && 0 <= j < |r|
      ensures r[i][j]
    {
      assert i == 0 && j == 0;
    }
    OneClusterOutput(a, b, r, idx, out);
  }

  /** The closure of the tolerance relation of a strict ranking and its
      reversal relates each position only to itself. */
  lemma ReversedClosureDiagonal(a: Ranking, r: Matrix)
    requires Strict(a) && Covers(a, Reverse(a))
    requires Square(r) && |r| == |Objects(a)|
    requires forall i, j :: 0 <= i < |r| && 0 <= j < |r| ==> (r[i][j] <==> Reach(Tolerance(a, Reverse(a)), i, j))
    ensures forall i, j :: 0 <= i < |r| && 0 <= j < |r| && r[i][j] ==> i == j
  {
    var e := Tolerance(a, Reverse(a));
    forall i, j | 0 <= i < |e| && 0 <= j < |e| && e[i][j]
      ensures i == j
    {
      ReversedTolerance(a, i, j);
    }
    forall i, j | 0 <= i < |r| && 0 <= j < |r| && r[i][j]
      ensures i == j
    {
      DiagonalReach(e, i, j);
    }
  }

  /** A strict ranking against its reversal: no pair is ordered alike, every
      object is its own cluster, all clusters share the key `|a| - 1`, and
      the stable sort leaves them in ascending order of their objects. */
  lemma ReversedOutput(a: Ranking, b: Ranking, r: Matrix, idx: seq<seq<int>>, out: Ranking)
    requires Strict(a) && b == Reverse(a) && Covers(a, b)
    requires Partition(Objects(a), r, idx)
    requires forall i, j :: 0 <= i < |r| && 0 <= j < |r| ==> (r[i][j] <==> Reach(Tolerance(a, b), i, j))
    requires out == Assemble(a, b, Objects(a), idx)
    ensures |out| == |Objects(a)| == |a|
    ensures forall s :: 0 <= s < |out| ==> out[s] == One(Objects(a)[s])
  {
    var objs := Objects(a);
    StrictObjects(a);
    ReversedClosureDiagonal(a, r);
    IdentityRelationSingletons(r, idx);
    AssembleSingletons(a, Reverse(a), objs, idx);
    ReversedAscending(a, r, idx, out);
    ConcatOnes(out);
    AssembleShape(a, Reverse(a), objs, r, idx);
    SortedUnique(Concat(out), objs);
  }

  /** Singleton slots sharing one key come out in ascending order. */
  lemma ReversedAscending(a: Ranking, r: Matrix, idx: seq<seq<int>>, out: Ranking)
    requires Strict(a) && Covers(a, Reverse(a))
    requires Partition(Objects(a), r, idx)
    requires out == Assemble(a, Reverse(a), Objects(a), idx)
    requires forall s :: 0 <= s < |out| ==> out[s].One?
    ensures Sorted(Concat(out))
  {
    AssembleTies(a, Reverse(a), Objects(a), r, idx);
    AssembleMembers(a, Reverse(a), r, idx, out);
    ConcatOnes(out);
    var flat := Concat(out);
    forall s, t | 0 <= s < t < |flat|
      ensures flat[s] <= flat[t]
    {
      assert Members(out[s]) == [out[s].obj] && Members(out[t]) == [out[t].obj];
      ReversedKey(a, out[s].obj);
      ReversedKey(a, out[t].obj);
    }
  }
}
