/** The "core" of `find_core_and_consistent_ranking` (task3/main.py:40-64):
    the pair matrix `P`, the list of core pairs, the forced agreement matrix
    `C` and its symmetric part `E`.

    `P[i][j]` holds when the pair is tied in either ranking or ordered in
    opposite directions, so the pairs collected (where `P` is false) are the
    pairs BOTH rankings order strictly the SAME way, whatever the source's
    comment calls them. */
module Core {
  import opened BoolMatrix
  import opened Sorting
  import opened Ranking

  /** Every object of the first ranking also sits in the second; otherwise
      the source's position lookup for the second ranking fails. */
  ghost predicate Covers(a: Ranking, b: Ranking) {
    forall x :: Occurs(a, x) ==> Occurs(b, x)
  }

  /** Both rankings put `x` strictly before `y`, or both strictly after. */
  predicate OrderedAlike(a: Ranking, b: Ranking, x: int, y: int)
    requires Occurs(a, x) && Occurs(a, y) && Occurs(b, x) && Occurs(b, y)
  {
    var ax, ay, bx, bY := SlotOf(a, x), SlotOf(a, y), SlotOf(b, x), SlotOf(b, y);
    (ax < ay && bx < bY) || (ax > ay && bx > bY)
  }

  /** Each ranking puts `x` and `y` in the same slot. */
  predicate TiedInBoth(a: Ranking, b: Ranking, x: int, y: int)
    requires Occurs(a, x) && Occurs(a, y) && Occurs(b, x) && Occurs(b, y)
  {
    SlotOf(a, x) == SlotOf(a, y) && SlotOf(b, x) == SlotOf(b, y)
  }

  /** `P = (Y_A & Y_B.T) | (Y_A.T & Y_B)` */
  function PairMatrix(ya: Matrix, yb: Matrix): (p: Matrix)
    requires Square(ya) && Square(yb) && |ya| == |yb|
    ensures Square(p) && |p| == |ya|
  {
    Or(And(ya, Transpose(yb)), And(Transpose(ya), yb))
  }

  /** The object list and both order matrices of the source. */
  function Objects(a: Ranking): seq<int> {
    Flatten(a)
  }

  function YA(a: Ranking): (m: Matrix)
    ensures Square(m) && |m| == |Objects(a)|
  {
    OrderMatrix(a, Objects(a))
  }

  function YB(a: Ranking, b: Ranking): (m: Matrix)
    requires Covers(a, b)
    ensures Square(m) && |m| == |Objects(a)|
  {
    OrderMatrix(b, Objects(a))
  }

  function P(a: Ranking, b: Ranking): (p: Matrix)
    requires Covers(a, b)
    ensures Square(p) && |p| == |Objects(a)|
  {
    PairMatrix(YA(a), YB(a, b))
  }

  /** `P[i][j]` is false exactly for the pairs both rankings order strictly
      the same way. A pair tied in either ranking never qualifies, and
      neither does an object paired with itself. */
  lemma PairMatrixFalseIffAlike(a: Ranking, b: Ranking, i: int, j: int)
    requires Covers(a, b) && 0 <= i < |Objects(a)| && 0 <= j < |Objects(a)|
    ensures var x, y := Objects(a)[i], Objects(a)[j];
      !P(a, b)[i][j] <==> OrderedAlike(a, b, x, y)
  {
  }

  // ---------------------------------------------------------------------
  // The core list: `for i in range(n): for j in range(i + 1, n)`.

  predicate LexLess(x: (int, int), y: (int, int)) {
    x.0 < y.0 || (x.0 == y.0 && x.1 < y.1)
  }

  /** The inner loop over `j`, from column `j` of row `i` on. */
  function RowPairs(p: Matrix, i: int, j: int): (ps: seq<(int, int)>)
    requires Square(p) && 0 <= i < |p| && 0 <= j <= |p|
    ensures forall q :: q in ps <==> q.0 == i && j <= q.1 < |p| && !p[i][q.1]
    ensures forall s, t :: 0 <= s < t < |ps| ==> ps[s].1 < ps[t].1
    decreases |p| - j
  {
    if j == |p| then []
    else (if !p[i][j] then [(i, j)] else []) + RowPairs(p, i, j + 1)
  }

  /** Both loops from row `i` on: every index pair above the diagonal whose
      entry is false, in lexicographic order, each once. */
  function PairsFrom(p: Matrix, i: int): (ps: seq<(int, int)>)
    requires Square(p) && 0 <= i <= |p|
    ensures forall q :: q in ps <==> i <= q.0 < q.1 < |p| && !p[q.0][q.1]
    ensures forall s, t :: 0 <= s < t < |ps| ==> LexLess(ps[s], ps[t])
    decreases |p| - i
  {
    if i == |p| then []
    else
      var row := RowPairs(p, i, i + 1);
      var rest := PairsFrom(p, i + 1);
      assert forall s :: 0 <= s < |row| ==> row[s] in row;
      assert forall t :: 0 <= t < |rest| ==> rest[t] in rest;
      row + rest
  }

  /** The index pairs of the core. */
  function CoreIndices(a: Ranking, b: Ranking): (ps: seq<(int, int)>)
    requires Covers(a, b)
    ensures forall q :: q in ps ==> 0 <= q.0 < q.1 < |Objects(a)|
  {
    PairsFrom(P(a, b), 0)
  }

  lemma PairsFromAbove(p: Matrix, i: int, j: int)
    requires Square(p)
    ensures (i, j) in PairsFrom(p, 0) <==> 0 <= i < j < |p| && !p[i][j]
  {
  }

  lemma CoreIndicesAbove(a: Ranking, b: Ranking, i: int, j: int)
    requires Covers(a, b)
    ensures (i, j) in CoreIndices(a, b) <==> 0 <= i < j < |Objects(a)| && !P(a, b)[i][j]
  {
    var p := P(a, b);
    assert CoreIndices(a, b) == PairsFrom(p, 0);
    PairsFromAbove(p, i, j);
  }

  /** An index pair is collected exactly when it lies above the diagonal and
      its two objects are ordered alike. */
  lemma CoreIndexMembers(a: Ranking, b: Ranking, i: int, j: int)
    requires Covers(a, b)
    ensures (i, j) in CoreIndices(a, b) <==>
      0 <= i < j < |Objects(a)| && OrderedAlike(a, b, Objects(a)[i], Objects(a)[j])
  {
    CoreIndicesAbove(a, b, i, j);
    if 0 <= i < j < |Objects(a)| {
      PairMatrixFalseIffAlike(a, b, i, j);
    }
  }

  /** The objects at each index pair. */
  function PairValues(objs: seq<int>, ps: seq<(int, int)>): (vs: seq<(int, int)>)
    requires forall q :: q in ps ==> 0 <= q.0 < |objs| && 0 <= q.1 < |objs|
    ensures |vs| == |ps|
    ensures forall s :: 0 <= s < |ps| ==> vs[s] == (objs[ps[s].0], objs[ps[s].1])
  {
    assert forall s :: 0 <= s < |ps| ==> ps[s] in ps;
    seq(|ps|, s requires 0 <= s < |ps| => (objs[ps[s].0], objs[ps[s].1]))
  }

  /** `core.append([objects[i], objects[j]])` for every index pair. */
  function CorePairs(a: Ranking, b: Ranking): (core: seq<(int, int)>)
    requires Covers(a, b)
  {
    PairValues(Objects(a), CoreIndices(a, b))
  }

  /** The objects of a listed index pair are listed. */
  lemma PairValuesHas(objs: seq<int>, ps: seq<(int, int)>, i: int, j: int)
    requires forall q :: q in ps ==> 0 <= q.0 < |objs| && 0 <= q.1 < |objs|
    requires (i, j) in ps
    ensures (objs[i], objs[j]) in PairValues(objs, ps)
  {
    var s :| 0 <= s < |ps| && ps[s] == (i, j);
    assert PairValues(objs, ps)[s] == (objs[i], objs[j]);
  }

  /** A listed pair of objects comes from a listed index pair. */
  lemma PairValuesFrom(objs: seq<int>, ps: seq<(int, int)>, x: int, y: int) returns (q: (int, int))
    requires forall q :: q in ps ==> 0 <= q.0 < |objs| && 0 <= q.1 < |objs|
    requires (x, y) in PairValues(objs, ps)
    ensures q in ps && objs[q.0] == x && objs[q.1] == y
  {
    var vs := PairValues(objs, ps);
    var s :| 0 <= s < |vs| && vs[s] == (x, y);
    q := ps[s];
  }

  lemma CoreMembersSound(a: Ranking, b: Ranking, x: int, y: int)
    requires Covers(a, b) && (x, y) in CorePairs(a, b)
    ensures Occurs(a, x) && Occurs(a, y) && x < y && OrderedAlike(a, b, x, y)
  {
    var objs := Objects(a);
    var q := PairValuesFrom(objs, CoreIndices(a, b), x, y);
    CoreIndexMembers(a, b, q.0, q.1);
    assert objs[q.0] in objs && objs[q.1] in objs;
    assert x <= y;
  }

  /** In an ascending sequence a smaller value sits further left. */
  lemma SortedOrder(objs: seq<int>, i: int, j: int)
    requires Sorted(objs) && 0 <= i < |objs| && 0 <= j < |objs| && objs[i] < objs[j]
    ensures i < j
  {
  }

  lemma CoreMembersComplete(a: Ranking, b: Ranking, x: int, y: int)
    requires Covers(a, b)
    requires Occurs(a, x) && Occurs(a, y) && x < y && OrderedAlike(a, b, x, y)
    ensures (x, y) in CorePairs(a, b)
  {
    var objs := Objects(a);
    assert x in objs && y in objs;
    var i :| 0 <= i < |objs| && objs[i] == x;
    var j :| 0 <= j < |objs| && objs[j] == y;
    SortedOrder(objs, i, j);
    CoreIndexMembers(a, b, i, j);
    PairValuesHas(objs, CoreIndices(a, b), i, j);
  }

  /** A pair is in the core exactly when both objects belong to the first
      ranking, the smaller comes first, and both rankings order them
      strictly the same way. Ordering alike needs two different slots, so
      an object is never paired with itself. */
  lemma CoreMembers(a: Ranking, b: Ranking, x: int, y: int)
    requires Covers(a, b)
    ensures (x, y) in CorePairs(a, b) <==>
      Occurs(a, x) && Occurs(a, y) && x < y && OrderedAlike(a, b, x, y)
  {
    if (x, y) in CorePairs(a, b) {
      CoreMembersSound(a, b, x, y);
    }
    if Occurs(a, x) && Occurs(a, y) && x < y && OrderedAlike(a, b, x, y) {
      CoreMembersComplete(a, b, x, y);
    }
  }

  /** Identical rankings whose slots are single, distinct objects put every
      pair into the core (the behaviour the source's tests call a
      peculiarity of the algorithm). */
  lemma IdenticalStrictCoreIsEverything(a: Ranking, x: int, y: int)
    requires Strict(a) && Occurs(a, x) && Occurs(a, y) && x < y
    ensures (x, y) in CorePairs(a, a)
  {
    StrictSlots(a, x, y);
    CoreMembers(a, a, x, y);
  }

  /** Reversed rankings of single, distinct objects give an empty core. */
  lemma ReversedCoreIsEmpty(a: Ranking)
    requires Strict(a)
    ensures Covers(a, Reverse(a))
    ensures CorePairs(a, Reverse(a)) == []
  {
    ReverseOccurs(a);
    var b := Reverse(a);
    var core := CorePairs(a, b);
    if core != [] {
      var x, y := core[0].0, core[0].1;
      assert (x, y) in core;
      CoreMembers(a, b, x, y);
      ReverseSlot(a, x);
      ReverseSlot(a, y);
      assert false;
    }
  }

  /** Rankings that tie everything in one slot give an empty core. */
  lemma AllTiedCoreIsEmpty(a: Ranking, b: Ranking)
    requires Covers(a, b) && |a| == 1
    ensures CorePairs(a, b) == []
  {
    var core := CorePairs(a, b);
    if core != [] {
      var q := core[0];
      assert q in core;
      CoreMembersSound(a, b, q.0, q.1);
      OneSlotNotAlike(a, b, q.0, q.1);
    }
  }

  lemma OneSlotNotAlike(a: Ranking, b: Ranking, x: int, y: int)
    requires |a| == 1 && Occurs(a, x) && Occurs(a, y) && Occurs(b, x) && Occurs(b, y)
    ensures !OrderedAlike(a, b, x, y)
  {
    assert SlotOf(a, x) == 0 == SlotOf(a, y);
  }

  // ---------------------------------------------------------------------
  // Strict rankings and their reversal.

  /** Single objects in every slot, no object twice. */
  predicate Strict(r: Ranking) {
    && (forall t :: 0 <= t < |r| ==> r[t].One?)
    && (forall t, u :: 0 <= t < u < |r| ==> r[t].obj != r[u].obj)
  }

  function Reverse(r: Ranking): (rev: Ranking)
    ensures |rev| == |r|
    ensures forall t :: 0 <= t < |r| ==> rev[t] == r[|r| - 1 - t]
  {
    seq(|r|, t requires 0 <= t < |r| => r[|r| - 1 - t])
  }

  lemma StrictSlots(r: Ranking, x: int, y: int)
    requires Strict(r) && Occurs(r, x) && Occurs(r, y) && x != y
    ensures SlotOf(r, x) != SlotOf(r, y)
  {
  }

  lemma ReverseOccurs(r: Ranking)
    ensures forall x :: Occurs(r, x) <==> Occurs(Reverse(r), x)
  {
    var rev := Reverse(r);
    forall x | Occurs(r, x)
      ensures Occurs(rev, x)
    {
      var t :| 0 <= t < |r| && x in Members(r[t]);
      assert rev[|r| - 1 - t] == r[t];
    }
    forall x | Occurs(rev, x)
      ensures Occurs(r, x)
    {
      var t :| 0 <= t < |rev| && x in Members(rev[t]);
      assert rev[t] == r[|r| - 1 - t];
    }
  }

  /** In a strict ranking the slot holding `x` moves to the mirrored
      position. */
  lemma ReverseLast(r: Ranking, x: int, t: int)
    requires Strict(r) && LastSlot(r, x, t)
    ensures LastSlot(Reverse(r), x, |r| - 1 - t)
  {
    var rev := Reverse(r);
    var u := |r| - 1 - t;
    assert rev[u] == r[t];
    forall w | u < w < |rev|
      ensures x !in Members(rev[w])
    {
      var v := |r| - 1 - w;
      assert rev[w] == r[v];
      StrictApart(r, v, t);
    }
  }

  lemma StrictApart(r: Ranking, v: int, t: int)
    requires Strict(r) && 0 <= v < t < |r|
    ensures Members(r[v]) == [r[v].obj] && r[t].obj !in Members(r[v])
  {
  }

  lemma ReverseSlot(r: Ranking, x: int)
    requires Strict(r) && Occurs(r, x)
    ensures Occurs(Reverse(r), x)
    ensures SlotOf(Reverse(r), x) == |r| - 1 - SlotOf(r, x)
  {
    ReverseOccurs(r);
    var t := SlotOf(r, x);
    ReverseLast(r, x, t);
    LastSlotUnique(Reverse(r), x, |r| - 1 - t, SlotOf(Reverse(r), x));
  }

  // ---------------------------------------------------------------------
  // Forcing the core pairs and symmetrising.

  /** `i` is the first position its object holds. */
  predicate IsFirst(objs: seq<int>, i: int)
    requires 0 <= i < |objs|
  {
    forall t :: 0 <= t < i ==> objs[t] != objs[i]
  }

  /** `objects.index` returns a position exactly when it is the first. */
  lemma IndexOfIsFirst(objs: seq<int>, i: int)
    requires 0 <= i < |objs|
    ensures IndexOf(objs, objs[i]) == i <==> IsFirst(objs, i)
  {
  }

  /** The objects of every pair are objects of `objs`. */
  predicate PairsIn(objs: seq<int>, core: seq<(int, int)>) {
    forall s :: 0 <= s < |core| ==> core[s].0 in objs && core[s].1 in objs
  }

  /** Cells `(i, j)` with `i`, `j` first positions whose objects form a pair
      of `core`, in either order. */
  ghost predicate PairCell(objs: seq<int>, core: seq<(int, int)>, c: (int, int)) {
    && 0 <= c.0 < |objs| && 0 <= c.1 < |objs|
    && IsFirst(objs, c.0) && IsFirst(objs, c.1)
    && ((objs[c.0], objs[c.1]) in core || (objs[c.1], objs[c.0]) in core)
  }

  /** The cells `C[i][j]` and `C[j][i]` that the loop over the core sets,
      with `i`, `j` the positions `objects.index` finds. */
  function ForcedCells(objs: seq<int>, core: seq<(int, int)>): (cells: seq<(int, int)>)
    requires PairsIn(objs, core)
    ensures forall c :: c in cells <==> PairCell(objs, core, c)
    decreases |core|
  {
    if core == [] then []
    else
      var front := core[..|core| - 1];
      var last := core[|core| - 1];
      assert forall s :: 0 <= s < |front| ==> front[s] == core[s];
      var i, j := IndexOf(objs, last.0), IndexOf(objs, last.1);
      var cells := ForcedCells(objs, front) + [(i, j), (j, i)];
      ForcedCellsStep(objs, core, ForcedCells(objs, front), cells);
      cells
  }

  lemma ForcedCellsStep(objs: seq<int>, core: seq<(int, int)>, earlier: seq<(int, int)>, cells: seq<(int, int)>)
    requires PairsIn(objs, core) && core != []
    requires forall c :: c in earlier <==> PairCell(objs, core[..|core| - 1], c)
    requires var last := core[|core| - 1];
      cells == earlier + [(IndexOf(objs, last.0), IndexOf(objs, last.1)), (IndexOf(objs, last.1), IndexOf(objs, last.0))]
    ensures forall c :: c in cells <==> PairCell(objs, core, c)
  {
    var front := core[..|core| - 1];
    var last := core[|core| - 1];
    assert last in core;
    assert core == front + [last];
    var i, j := IndexOf(objs, last.0), IndexOf(objs, last.1);
    IndexOfIsFirst(objs, i);
    IndexOfIsFirst(objs, j);
    forall c | PairCell(objs, core, c)
      ensures c in cells
    {
      if !PairCell(objs, front, c) {
        IndexOfIsFirst(objs, c.0);
        IndexOfIsFirst(objs, c.1);
        if (objs[c.0], objs[c.1]) == last {
          assert c == (i, j);
        } else {
          assert (objs[c.1], objs[c.0]) == last;
          assert c == (j, i);
        }
      }
    }
  }

  /** Every object of a core pair is an object of the first ranking. */
  lemma CoreInObjects(a: Ranking, b: Ranking)
    requires Covers(a, b)
    ensures PairsIn(Objects(a), CorePairs(a, b))
  {
    var core := CorePairs(a, b);
    forall s | 0 <= s < |core|
      ensures core[s].0 in Objects(a) && core[s].1 in Objects(a)
    {
      assert core[s] in core;
      CoreMembersSound(a, b, core[s].0, core[s].1);
    }
  }

  /** `C = Y_A & Y_B`, then the core pairs forced to true. */
  function Forced(a: Ranking, b: Ranking): (c: Matrix)
    requires Covers(a, b)
    ensures Square(c) && |c| == |Objects(a)|
  {
    CoreInObjects(a, b);
    Force(And(YA(a), YB(a, b)), Objects(a), CorePairs(a, b))
  }

  /** Sets the cells of every pair of `core`, both ways round. */
  function Force(m: Matrix, objs: seq<int>, core: seq<(int, int)>): (c: Matrix)
    requires Square(m) && |m| == |objs| && PairsIn(objs, core)
    ensures Square(c) && |c| == |m|
    ensures forall i, j :: 0 <= i < |m| && 0 <= j < |m| ==>
      (c[i][j] <==> m[i][j] || PairCell(objs, core, (i, j)))
  {
    var cells := ForcedCells(objs, core);
    assert forall t :: 0 <= t < |cells| ==> cells[t] in cells;
    MarkAll(m, cells)
  }

  /** `E = C & C.T`, the tolerance relation. */
  function Tolerance(a: Ranking, b: Ranking): (e: Matrix)
    requires Covers(a, b)
    ensures Square(e) && |e| == |Objects(a)|
  {
    var c := Forced(a, b);
    And(c, Transpose(c))
  }

  lemma OrderedAlikeSymmetric(a: Ranking, b: Ranking, x: int, y: int)
    requires Occurs(a, x) && Occurs(a, y) && Occurs(b, x) && Occurs(b, y)
    ensures OrderedAlike(a, b, x, y) <==> OrderedAlike(a, b, y, x)
    ensures OrderedAlike(a, b, x, y) ==> x != y
  {
  }

  /** A pair of objects of the first ranking is in the core, one way round
      or the other, exactly when the two are ordered alike. */
  lemma CoreEitherWay(a: Ranking, b: Ranking, x: int, y: int)
    requires Covers(a, b) && Occurs(a, x) && Occurs(a, y)
    ensures (x, y) in CorePairs(a, b) || (y, x) in CorePairs(a, b) <==> OrderedAlike(a, b, x, y)
  {
    CoreMembers(a, b, x, y);
    CoreMembers(a, b, y, x);
    OrderedAlikeSymmetric(a, b, x, y);
  }

  lemma ForcedEntry(a: Ranking, b: Ranking, i: int, j: int)
    requires Covers(a, b) && 0 <= i < |Objects(a)| && 0 <= j < |Objects(a)|
    requires PairsIn(Objects(a), CorePairs(a, b))
    ensures Forced(a, b)[i][j] <==>
        (YA(a)[i][j] && YB(a, b)[i][j]) || PairCell(Objects(a), CorePairs(a, b), (i, j))
  {
    CoreInObjects(a, b);
  }

  /** A cell is forced exactly when both its positions are first positions
      of their objects and those objects are ordered alike. */
  lemma ForcedCellsIff(a: Ranking, b: Ranking, i: int, j: int)
    requires Covers(a, b) && 0 <= i < |Objects(a)| && 0 <= j < |Objects(a)|
    ensures Forced(a, b)[i][j] <==>
      (YA(a)[i][j] && YB(a, b)[i][j]) ||
      (IsFirst(Objects(a), i) && IsFirst(Objects(a), j) &&
       OrderedAlike(a, b, Objects(a)[i], Objects(a)[j]))
  {
    var objs := Objects(a);
    assert objs[i] in objs && objs[j] in objs;
    CoreInObjects(a, b);
    ForcedEntry(a, b, i, j);
    CoreEitherWay(a, b, objs[i], objs[j]);
  }

  /** `E[i][j]` holds exactly for pairs tied in both rankings, and for the
      first positions of pairs ordered alike (the forced core pairs). `E` is
      reflexive and symmetric: a tolerance relation. */
  lemma ToleranceEntries(a: Ranking, b: Ranking, i: int, j: int)
    requires Covers(a, b) && 0 <= i < |Objects(a)| && 0 <= j < |Objects(a)|
    ensures var objs := Objects(a);
      Tolerance(a, b)[i][j] <==>
        TiedInBoth(a, b, objs[i], objs[j]) ||
        (IsFirst(objs, i) && IsFirst(objs, j) && OrderedAlike(a, b, objs[i], objs[j]))
  {
    ForcedCellsIff(a, b, i, j);
    ForcedCellsIff(a, b, j, i);
  }

  lemma ToleranceIsTolerance(a: Ranking, b: Ranking)
    requires Covers(a, b)
    ensures Reflexive(Tolerance(a, b)) && Symmetric(Tolerance(a, b))
  {
    forall i | 0 <= i < |Objects(a)|
      ensures Tolerance(a, b)[i][i]
    {
      ToleranceEntries(a, b, i, i);
    }
  }

  /** Every copy of an object is tolerated with its first copy, and the
      first copies of a core pair are tolerated with each other. */
  lemma CorePairTolerated(a: Ranking, b: Ranking, x: int, y: int)
    requires Covers(a, b) && (x, y) in CorePairs(a, b)
    ensures x in Objects(a) && y in Objects(a)
    ensures Tolerance(a, b)[IndexOf(Objects(a), x)][IndexOf(Objects(a), y)]
  {
    CoreMembers(a, b, x, y);
    var objs := Objects(a);
    ToleranceEntries(a, b, IndexOf(objs, x), IndexOf(objs, y));
  }

  lemma CopiesTolerated(a: Ranking, b: Ranking, i: int)
    requires Covers(a, b) && 0 <= i < |Objects(a)|
    ensures Tolerance(a, b)[i][IndexOf(Objects(a), Objects(a)[i])]
  {
    ToleranceEntries(a, b, i, IndexOf(Objects(a), Objects(a)[i]));
  }
}
