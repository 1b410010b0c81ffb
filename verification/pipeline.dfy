/** `find_core_and_consistent_ranking` (task3/main.py:34-114) on rankings
    that are already parsed. */
module Pipeline {
  import opened BoolMatrix
  import opened Sorting
  import opened Ranking
  import opened Clusters
  import opened Core
  import opened Consensus
  import opened Scenarios

  /** The core: the pairs of objects of `a`, smaller first, that both
      rankings order strictly the same way. */
  ghost predicate CoreIsAlike(a: Ranking, b: Ranking, core: seq<(int, int)>)
    requires Covers(a, b)
  {
    forall x, y :: (x, y) in core <==> Occurs(a, x) && Occurs(a, y) && x < y && OrderedAlike(a, b, x, y)
  }

  /** The output holds the objects of `a`, with multiplicity, and no others. */
  ghost predicate SameObjects(a: Ranking, out: Ranking) {
    && multiset(Concat(out)) == multiset(Concat(a))
    && (forall s, x :: 0 <= s < |out| && x in Members(out[s]) ==> Occurs(a, x))
  }

  /** Slots are nonempty and ascending, and bare exactly when they hold one
      object. */
  ghost predicate WellShaped(out: Ranking) {
    forall s :: 0 <= s < |out| ==>
      |Members(out[s])| > 0 && Sorted(Members(out[s])) && (out[s].One? <==> |Members(out[s])| == 1)
  }

  /** Slots come by ascending key; slots with equal keys by ascending
      smallest object. */
  ghost predicate ByKey(a: Ranking, b: Ranking, out: Ranking) {
    && (forall s, t :: 0 <= s < t < |out| ==> Key(a, b, Members(out[s])) <= Key(a, b, Members(out[t])))
    && (forall s, t ::
          0 <= s < t < |out| && |Members(out[s])| > 0 && |Members(out[t])| > 0 &&
          Key(a, b, Members(out[s])) == Key(a, b, Members(out[t]))
          ==> Members(out[s])[0] < Members(out[t])[0])
  }

  /** Each slot is a class of the linked relation. */
  ghost predicate SlotsAreClasses(a: Ranking, b: Ranking, out: Ranking)
    requires Covers(a, b)
  {
    forall s, x, y :: 0 <= s < |out| && x in Members(out[s]) && Occurs(a, x) && Occurs(a, y) ==>
      (y in Members(out[s]) <==> Linked(a, b, x, y))
  }

  /** Pairs tied in both rankings and core pairs share a slot. */
  ghost predicate TiesTogether(a: Ranking, b: Ranking, core: seq<(int, int)>, out: Ranking)
    requires Covers(a, b)
  {
    forall x, y :: Occurs(a, x) && Occurs(a, y) && (TiedInBoth(a, b, x, y) || (x, y) in core) ==>
      exists s :: 0 <= s < |out| && x in Members(out[s]) && y in Members(out[s])
  }

  /** The core and the consistent ranking of two rankings. Every object of
      `a` must occur in `b`; objects only in `b` are ignored. */
  method Reconcile(a: Ranking, b: Ranking) returns (core: seq<(int, int)>, consensus: Ranking)
    requires Covers(a, b)
    ensures CoreIsAlike(a, b, core)
    ensures SameObjects(a, consensus) && WellShaped(consensus) && ByKey(a, b, consensus)
    ensures SlotsAreClasses(a, b, consensus)
    ensures TiesTogether(a, b, core, consensus)
    ensures Concat(a) == [] ==> core == [] && consensus == []
    ensures |Concat(a)| == 1 ==> core == [] && consensus == [One(Concat(a)[0])]
    ensures Strict(a) && b == a && a != [] ==> consensus == [Shape(Objects(a))]
    ensures Strict(a) && b == Reverse(a) ==>
      core == [] && |consensus| == |Objects(a)| == |a| &&
      forall s :: 0 <= s < |consensus| ==> consensus[s] == One(Objects(a)[s])
  {
    core := CorePairs(a, b);
    CoreIff(a, b);
    var closed, idx := Cluster(a, b);
    consensus := Assemble(a, b, Objects(a), idx);
    AssembleSound(a, b, closed, idx, consensus);
    EmptyCase(a, b, closed, idx, consensus);
    SingleCase(a, b, closed, idx, consensus);
    IdenticalCase(a, b, closed, idx, consensus);
    ReversedCase(a, b, closed, idx, consensus);
  }

  lemma CoreIff(a: Ranking, b: Ranking)
    requires Covers(a, b)
    ensures CoreIsAlike(a, b, CorePairs(a, b))
  {
    forall x, y
      ensures (x, y) in CorePairs(a, b) <==> Occurs(a, x) && Occurs(a, y) && x < y && OrderedAlike(a, b, x, y)
    {
      CoreMembers(a, b, x, y);
    }
  }

  /** What the assembled output promises for every input. */
  lemma AssembleSound(a: Ranking, b: Ranking, r: Matrix, idx: seq<seq<int>>, out: Ranking)
    requires Covers(a, b) && Partition(Objects(a), r, idx)
    requires forall i, j :: 0 <= i < |r| && 0 <= j < |r| ==> (r[i][j] <==> Reach(Tolerance(a, b), i, j))
    requires out == Assemble(a, b, Objects(a), idx)
    ensures SameObjects(a, out) && WellShaped(out) && ByKey(a, b, out)
    ensures SlotsAreClasses(a, b, out)
    ensures TiesTogether(a, b, CorePairs(a, b), out)
  {
    AssembleShape(a, b, Objects(a), r, idx);
    AssembleTies(a, b, Objects(a), r, idx);
    AssembleMembers(a, b, r, idx, out);
    AssembleLinked(a, b, r, idx, out);
    SharedSlot(a, b, out);
  }

  /** Empty input: an empty core and an empty output. */
  lemma EmptyCase(a: Ranking, b: Ranking, r: Matrix, idx: seq<seq<int>>, out: Ranking)
    requires Covers(a, b) && Partition(Objects(a), r, idx)
    requires forall i, j :: 0 <= i < |r| && 0 <= j < |r| ==> (r[i][j] <==> Reach(Tolerance(a, b), i, j))
    requires out == Assemble(a, b, Objects(a), idx)
    ensures Concat(a) == [] ==> CorePairs(a, b) == [] && out == []
  {
    if Concat(a) == [] {
      AssembleShape(a, b, Objects(a), r, idx);
      NothingToRank(a, b, out);
    }
  }

  /** One object: an empty core and the object alone. */
  lemma SingleCase(a: Ranking, b: Ranking, r: Matrix, idx: seq<seq<int>>, out: Ranking)
    requires Covers(a, b) && Partition(Objects(a), r, idx)
    requires forall i, j :: 0 <= i < |r| && 0 <= j < |r| ==> (r[i][j] <==> Reach(Tolerance(a, b), i, j))
    requires out == Assemble(a, b, Objects(a), idx)
    ensures |Concat(a)| == 1 ==> CorePairs(a, b) == [] && out == [One(Concat(a)[0])]
  {
    if |Concat(a)| == 1 {
      OneObject(a, b);
      SingleObjectOutput(a, b, r, idx, out);
    }
  }

  /** Identical strict rankings: one slot holding every object. */
  lemma IdenticalCase(a: Ranking, b: Ranking, r: Matrix, idx: seq<seq<int>>, out: Ranking)
    requires Covers(a, b) && Partition(Objects(a), r, idx)
    requires forall i, j :: 0 <= i < |r| && 0 <= j < |r| ==> (r[i][j] <==> Reach(Tolerance(a, b), i, j))
    requires out == Assemble(a, b, Objects(a), idx)
    ensures Strict(a) && b == a && a != [] ==> out == [Shape(Objects(a))]
  {
    if Strict(a) && b == a && a != [] {
      IdenticalOutput(a, b, r, idx, out);
    }
  }

  /** A strict ranking and its reversal: an empty core and every object
      alone, in ascending order. */
  lemma ReversedCase(a: Ranking, b: Ranking, r: Matrix, idx: seq<seq<int>>, out: Ranking)
    requires Covers(a, b) && Partition(Objects(a), r, idx)
    requires forall i, j :: 0 <= i < |r| && 0 <= j < |r| ==> (r[i][j] <==> Reach(Tolerance(a, b), i, j))
    requires out == Assemble(a, b, Objects(a), idx)
    ensures Strict(a) && b == Reverse(a) ==>
      CorePairs(a, b) == [] && |out| == |Objects(a)| == |a| &&
      forall s :: 0 <= s < |out| ==> out[s] == One(Objects(a)[s])
  {
    if Strict(a) && b == Reverse(a) {
      ReversedCoreIsEmpty(a);
      ReversedOutput(a, b, r, idx, out);
    }
  }

  /** Pairs tied in both rankings and core pairs end up in one slot. */
  lemma SharedSlot(a: Ranking, b: Ranking, out: Ranking)
    requires Covers(a, b)
    requires SameObjects(a, out) && SlotsAreClasses(a, b, out)
    ensures TiesTogether(a, b, CorePairs(a, b), out)
  {
    forall x, y | Occurs(a, x) && Occurs(a, y) && (TiedInBoth(a, b, x, y) || (x, y) in CorePairs(a, b))
      ensures exists s :: 0 <= s < |out| && x in Members(out[s]) && y in Members(out[s])
    {
      assert x in Concat(a);
      assert x in multiset(Concat(out));
      assert Occurs(out, x);
      var s :| 0 <= s < |out| && x in Members(out[s]);
      TiedOrCoreLinked(a, b, x, y);
    }
  }

  /** Slots with at least one object each hold at least as many objects
      as there are slots. */
  lemma {:induction false} ConcatCountsSlots(r: Ranking)
    requires forall s :: 0 <= s < |r| ==> |Members(r[s])| > 0
    ensures |Concat(r)| >= |r|
    decreases |r|
  {
    if r != [] {
      var front := r[..|r| - 1];
      assert forall s :: 0 <= s < |front| ==> front[s] == r[s];
      ConcatCountsSlots(front);
    }
  }

  /** No objects: no core pairs and no slots. */
  lemma NothingToRank(a: Ranking, b: Ranking, out: Ranking)
    requires Covers(a, b) && Concat(a) == []
    requires multiset(Concat(out)) == multiset(Concat(a))
    requires forall s :: 0 <= s < |out| ==> |Members(out[s])| > 0
    ensures CorePairs(a, b) == [] && out == []
  {
    ConcatCountsSlots(out);
    assert |Concat(out)| == |multiset(Concat(out))| == 0;
  }

  /** One object: it is its own sorted list, and it forms no pair. */
  lemma OneObject(a: Ranking, b: Ranking)
    requires Covers(a, b) && |Concat(a)| == 1
    ensures Objects(a) == Concat(a)
    ensures CorePairs(a, b) == []
  {
    SortedUnique(Objects(a), Concat(a));
    var p := P(a, b);
    assert |p| == 1;
    assert PairsFrom(p, 0) == RowPairs(p, 0, 1) + PairsFrom(p, 1);
    assert CoreIndices(a, b) == [];
  }
}
