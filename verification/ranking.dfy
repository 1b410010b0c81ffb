/** Rankings and the "not worse than" matrix (task3/main.py:5-32). A ranking
    is a sequence of slots, best first; a slot holds one object or a group of
    objects tied with one another. */
module Ranking {
  import opened BoolMatrix
  import opened Sorting

  /** A JSON scalar (`One`) or a nested list (`Group`) inside a ranking. */
  datatype Slot = One(obj: int) | Group(members: seq<int>)

  type Ranking = seq<Slot>

  /** `item if isinstance(item, list) else [item]` */
  function Members(s: Slot): seq<int> {
    match s
    case One(x) => [x]
    case Group(xs) => xs
  }

  predicate Occurs(r: Ranking, x: int) {
    exists t :: 0 <= t < |r| && x in Members(r[t])
  }

  /** No object sits in two different slots. */
  predicate Unique(r: Ranking) {
    forall t, u, x :: 0 <= t < |r| && 0 <= u < |r| && x in Members(r[t]) && x in Members(r[u]) ==> t == u
  }

  /** The slot contents one after the other, the `extend`/`append` loop. */
  function Concat(r: Ranking): (objs: seq<int>)
    ensures forall x :: x in objs <==> Occurs(r, x)
    decreases |r|
  {
    if r == [] then []
    else
      var front := r[..|r| - 1];
      var objs := Concat(front) + Members(r[|r| - 1]);
      assert forall x :: Occurs(r, x) <==> Occurs(front, x) || x in Members(r[|r| - 1]) by {
        forall x | Occurs(r, x)
          ensures Occurs(front, x) || x in Members(r[|r| - 1])
        {
          var t :| 0 <= t < |r| && x in Members(r[t]);
          if t < |r| - 1 {
            assert front[t] == r[t];
          }
        }
        forall x | Occurs(front, x)
          ensures Occurs(r, x)
        {
          var t :| 0 <= t < |front| && x in Members(front[t]);
          assert r[t] == front[t];
        }
      }
      objs
  }

  /** `flatten_ranking`: every object of every slot, with multiplicity,
      in ascending order. Nothing is deduplicated. */
  function Flatten(r: Ranking): (objs: seq<int>)
    ensures Sorted(objs)
    ensures multiset(objs) == multiset(Concat(r))
    ensures forall x :: x in objs <==> Occurs(r, x)
  {
    var objs := Sort(Concat(r));
    assert forall x :: x in objs <==> x in multiset(Concat(r));
    objs
  }

  /** `t` is the last slot of `r` that holds `x`. */
  ghost predicate LastSlot(r: Ranking, x: int, t: int) {
    0 <= t < |r| && x in Members(r[t]) && forall u :: t < u < |r| ==> x !in Members(r[u])
  }

  /** `positions[obj] = pos` for every object of one slot, in order. */
  function Assign(pos: map<int, int>, xs: seq<int>, t: int): (p: map<int, int>)
    ensures forall x :: x in p <==> x in pos || x in xs
    ensures forall x :: x in p ==> p[x] == if x in xs then t else pos[x]
    decreases |xs|
  {
    if xs == [] then pos
    else
      var front := xs[..|xs| - 1];
      assert xs == front + [xs[|xs| - 1]];
      Assign(pos, front, t)[xs[|xs| - 1] := t]
  }

  /** The `positions` dictionary: filled slot by slot, so a later slot
      overwrites an earlier one and each object maps to its last slot. */
  function Positions(r: Ranking): (pos: map<int, int>)
    ensures forall x :: x in pos <==> Occurs(r, x)
    ensures forall x :: x in pos ==> LastSlot(r, x, pos[x])
    decreases |r|
  {
    if r == [] then map[]
    else
      var earlier := Positions(r[..|r| - 1]);
      var pos := Assign(earlier, Members(r[|r| - 1]), |r| - 1);
      PositionsStep(r, earlier, pos);
      pos
  }

  /** One more slot: its members now map to it, the others keep their slot. */
  lemma PositionsStep(r: Ranking, earlier: map<int, int>, pos: map<int, int>)
    requires r != []
    requires forall x :: x in earlier <==> Occurs(r[..|r| - 1], x)
    requires forall x :: x in earlier ==> LastSlot(r[..|r| - 1], x, earlier[x])
    requires forall x :: x in pos <==> x in earlier || x in Members(r[|r| - 1])
    requires forall x :: x in pos ==> pos[x] == if x in Members(r[|r| - 1]) then |r| - 1 else earlier[x]
    ensures forall x :: x in pos <==> Occurs(r, x)
    ensures forall x :: x in pos ==> LastSlot(r, x, pos[x])
  {
    var front := r[..|r| - 1];
    forall x
      ensures Occurs(r, x) <==> Occurs(front, x) || x in Members(r[|r| - 1])
    {
      OccursFront(r, x);
    }
    forall x | x in pos && x !in Members(r[|r| - 1])
      ensures LastSlot(r, x, pos[x])
    {
      LastSlotFront(r, x, earlier[x]);
    }
  }

  lemma OccursFront(r: Ranking, x: int)
    requires r != []
    ensures Occurs(r, x) <==> Occurs(r[..|r| - 1], x) || x in Members(r[|r| - 1])
  {
    var front := r[..|r| - 1];
    if Occurs(r, x) {
      var t :| 0 <= t < |r| && x in Members(r[t]);
      if t < |r| - 1 {
        assert front[t] == r[t];
      }
    }
    if Occurs(front, x) {
      var t :| 0 <= t < |front| && x in Members(front[t]);
      assert front[t] == r[t];
    }
  }

  /** The last slot before the final one stays last when the final slot
      does not hold the object. */
  lemma LastSlotFront(r: Ranking, x: int, t: int)
    requires r != [] && LastSlot(r[..|r| - 1], x, t) && x !in Members(r[|r| - 1])
    ensures LastSlot(r, x, t)
  {
    var front := r[..|r| - 1];
    assert r[t] == front[t];
    forall u | t < u < |r|
      ensures x !in Members(r[u])
    {
      if u < |r| - 1 {
        assert r[u] == front[u];
      }
    }
  }

  /** The slot each object of `r` occupies: its last one. */
  function SlotOf(r: Ranking, x: int): (t: int)
    requires Occurs(r, x)
    ensures LastSlot(r, x, t)
  {
    Positions(r)[x]
  }

  predicate AllOccur(r: Ranking, objects: seq<int>) {
    forall i :: 0 <= i < |objects| ==> Occurs(r, objects[i])
  }

  /** `ranking_to_matrix`: entry (i, j) is set when `objects[i]` sits in a
      slot no later than `objects[j]`. Every listed object must occur in
      `r`, otherwise the dictionary lookup fails in the source. */
  function OrderMatrix(r: Ranking, objects: seq<int>): (m: Matrix)
    requires AllOccur(r, objects)
    ensures Square(m) && |m| == |objects|
    ensures forall i, j :: 0 <= i < |objects| && 0 <= j < |objects| ==>
      (m[i][j] <==> SlotOf(r, objects[i]) <= SlotOf(r, objects[j]))
  {
    var pos := Positions(r);
    seq(|objects|, i requires 0 <= i < |objects| =>
      seq(|objects|, j requires 0 <= j < |objects| => pos[objects[i]] <= pos[objects[j]]))
  }

  lemma LastSlotUnique(r: Ranking, x: int, t: int, u: int)
    requires LastSlot(r, x, t) && LastSlot(r, x, u)
    ensures t == u
  {
  }

  /** Entry (i, j) compares the last slots holding the two objects. */
  lemma OrderMatrixBySlot(r: Ranking, objects: seq<int>, i: int, j: int, ti: int, tj: int)
    requires AllOccur(r, objects) && 0 <= i < |objects| && 0 <= j < |objects|
    requires LastSlot(r, objects[i], ti) && LastSlot(r, objects[j], tj)
    ensures OrderMatrix(r, objects)[i][j] <==> ti <= tj
  {
    LastSlotUnique(r, objects[i], ti, SlotOf(r, objects[i]));
    LastSlotUnique(r, objects[j], tj, SlotOf(r, objects[j]));
  }

  /** Comparing numbers attached to the indices gives a total preorder. */
  lemma PreorderByNumbers(m: Matrix, num: seq<int>)
    requires Square(m) && |m| == |num|
    requires forall i, j :: 0 <= i < |m| && 0 <= j < |m| ==> (m[i][j] <==> num[i] <= num[j])
    ensures Reflexive(m) && Total(m) && Transitive(m)
  {
    forall i, j | 0 <= i < |m| && 0 <= j < |m|
      ensures m[i][j] || m[j][i]
    {
      assert num[i] <= num[j] || num[j] <= num[i];
    }
    forall i, j, k | 0 <= i < |m| && 0 <= j < |m| && 0 <= k < |m| && m[i][k] && m[k][j]
      ensures m[i][j]
    {
      assert num[i] <= num[k] <= num[j];
    }
  }

  /** The order matrix is a total preorder: reflexive, total, transitive. */
  lemma OrderMatrixPreorder(r: Ranking, objects: seq<int>)
    requires AllOccur(r, objects)
    ensures Reflexive(OrderMatrix(r, objects))
    ensures Total(OrderMatrix(r, objects))
    ensures Transitive(OrderMatrix(r, objects))
  {
    var slots := seq(|objects|, i requires 0 <= i < |objects| => SlotOf(r, objects[i]));
    PreorderByNumbers(OrderMatrix(r, objects), slots);
  }

  /** Two objects are related both ways exactly when they share their slot;
      for a ranking without repeated objects, when some slot holds both. */
  lemma OrderMatrixTies(r: Ranking, objects: seq<int>, i: int, j: int)
    requires AllOccur(r, objects) && 0 <= i < |objects| && 0 <= j < |objects|
    ensures OrderMatrix(r, objects)[i][j] && OrderMatrix(r, objects)[j][i] <==>
      SlotOf(r, objects[i]) == SlotOf(r, objects[j])
    ensures Unique(r) ==>
      (OrderMatrix(r, objects)[i][j] && OrderMatrix(r, objects)[j][i] <==>
       exists t :: 0 <= t < |r| && objects[i] in Members(r[t]) && objects[j] in Members(r[t]))
  {
    var ti, tj := SlotOf(r, objects[i]), SlotOf(r, objects[j]);
    if Unique(r) {
      forall t | 0 <= t < |r| && objects[i] in Members(r[t]) && objects[j] in Members(r[t])
        ensures ti == tj
      {
        assert t == ti && t == tj;
      }
    }
  }
}
