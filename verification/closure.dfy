/** Warshall's transitive closure, the k-i-j triple loop that turns the
    tolerance relation `E` into `E_star` (task3/main.py:66-71), updated in
    place exactly as the source does. */
module Closure {
  import opened BoolMatrix

  /** One round of the outer loop for pivot `k`, as a whole: an entry is set
      afterwards when it was set before or when it is joined through `k`. */
  function Step(r: Matrix, k: int): (s: Matrix)
    requires Square(r) && InRange(r, k)
    ensures Square(s) && |s| == |r|
    ensures forall i, j :: 0 <= i < |r| && 0 <= j < |r| ==>
      s[i][j] == (r[i][j] || (r[i][k] && r[k][j]))
  {
    seq(|r|, i requires 0 <= i < |r| =>
      seq(|r|, j requires 0 <= j < |r| => r[i][j] || (r[i][k] && r[k][j])))
  }

  /** Composition through every pivot below `k` is already closed. */
  ghost predicate ClosedBelow(r: Matrix, k: int)
    requires Square(r)
  {
    forall i, j, m :: 0 <= i < |r| && 0 <= j < |r| && 0 <= m < k && m < |r| && r[i][m] && r[m][j] ==> r[i][j]
  }

  /** The round for pivot `k` keeps the pivots below `k` closed and closes `k`. */
  lemma StepClosesPivot(r: Matrix, k: int)
    requires Square(r) && InRange(r, k) && ClosedBelow(r, k)
    ensures ClosedBelow(Step(r, k), k + 1)
  {
    var s := Step(r, k);
    forall i, j, m | 0 <= i < |r| && 0 <= j < |r| && 0 <= m < k + 1 && m < |r| && s[i][m] && s[m][j]
      ensures s[i][j]
    {
      if m == k {
        assert r[i][k] && r[k][j];
      } else if r[i][m] && r[m][j] {
      } else if r[i][m] {
        assert r[m][k] && r[k][j];
        assert r[i][k];
      } else if r[m][j] {
        assert r[i][k] && r[k][m];
        assert r[k][j];
      } else {
        assert r[i][k] && r[k][j];
      }
    }
  }

  lemma StepSymmetric(r: Matrix, k: int)
    requires Square(r) && InRange(r, k) && Symmetric(r)
    ensures Symmetric(Step(r, k))
  {
  }

  /** Every entry added by a round is a walk of `e`. */
  lemma StepSound(e: Matrix, r: Matrix, k: int)
    requires Square(e) && Square(r) && |e| == |r| && InRange(r, k)
    requires forall i, j :: 0 <= i < |r| && 0 <= j < |r| && r[i][j] ==> Reach(e, i, j)
    ensures forall i, j :: 0 <= i < |r| && 0 <= j < |r| && Step(r, k)[i][j] ==> Reach(e, i, j)
  {
    forall i, j | 0 <= i < |r| && 0 <= j < |r| && Step(r, k)[i][j]
      ensures Reach(e, i, j)
    {
      if !r[i][j] {
        ReachTrans(e, i, k, j);
      }
    }
  }

  /** The inner two loops for pivot `k`, updating `r` in place. Row `k` and
      column `k` do not change during the round, so the in-place update
      computes the same matrix as `Step`. */
  method Round(r: Matrix, k: int) returns (s: Matrix)
    requires Square(r) && InRange(r, k)
    ensures s == Step(r, k)
  {
    var n := |r|;
    ghost var target := Step(r, k);
    s := r;
    var i := 0;
    while i < n
      invariant 0 <= i <= n
      invariant |s| == n
      invariant forall a :: 0 <= a < i ==> s[a] == target[a]
      invariant forall a :: i <= a < n ==> s[a] == r[a]
    {
      s := RowPass(s, r, i, k);
      i := i + 1;
    }
  }

  /** The `j` loop for row `i` of the round with pivot `k`; `r` is the matrix
      at the start of the round and `cur` agrees with it from row `i` on. */
  method RowPass(cur: Matrix, ghost r: Matrix, i: int, k: int) returns (s: Matrix)
    requires Square(r) && InRange(r, k) && InRange(r, i) && |cur| == |r|
    requires forall a :: i <= a < |r| ==> cur[a] == r[a]
    requires forall a :: 0 <= a < i ==> cur[a] == Step(r, k)[a]
    ensures |s| == |r|
    ensures forall a :: 0 <= a < |r| && a != i ==> s[a] == cur[a]
    ensures s[i] == Step(r, k)[i]
  {
    var n := |cur|;
    ghost var target := Step(r, k);
    s := cur;
    var j := 0;
    while j < n
      invariant 0 <= j <= n
      invariant |s| == n && |s[i]| == n
      invariant forall a :: 0 <= a < n && a != i ==> s[a] == cur[a]
      invariant forall b :: 0 <= b < j ==> s[i][b] == target[i][b]
      invariant forall b :: j <= b < n ==> s[i][b] == r[i][b]
    {
      assert s[i][k] == r[i][k];
      assert s[k][j] == r[k][j];
      if s[i][k] && s[k][j] {
        s := s[i := s[i][j := true]];
      }
      j := j + 1;
    }
  }

  /** `E_star = E.copy()` followed by the k-i-j triple loop. The result is
      the transitive closure of `e`: it contains `e`, is transitive, and sets
      exactly the pairs joined by a walk of `e`. Reflexivity and symmetry of
      `e` carry over, so a tolerance relation closes to an equivalence. */
  method Warshall(e: Matrix) returns (r: Matrix)
    requires Square(e)
    ensures Square(r) && |r| == |e|
    ensures Includes(r, e)
    ensures Transitive(r)
    ensures forall i, j :: 0 <= i < |e| && 0 <= j < |e| ==> (r[i][j] <==> Reach(e, i, j))
    ensures Reflexive(e) ==> Reflexive(r)
    ensures Symmetric(e) ==> Symmetric(r)
  {
    var n := |e|;
    r := e;
    forall i, j | 0 <= i < n && 0 <= j < n && r[i][j]
      ensures Reach(e, i, j)
    {
      EdgeReach(e, i, j);
    }
    var k := 0;
    while k < n
      invariant 0 <= k <= n
      invariant Square(r) && |r| == n
      invariant Includes(r, e)
      invariant ClosedBelow(r, k)
      invariant forall i, j :: 0 <= i < n && 0 <= j < n && r[i][j] ==> Reach(e, i, j)
      invariant Symmetric(e) ==> Symmetric(r)
    {
      ghost var r0 := r;
      r := Round(r, k);
      StepClosesPivot(r0, k);
      StepSound(e, r0, k);
      if Symmetric(e) {
        StepSymmetric(r0, k);
      }
      k := k + 1;
    }
    forall i, j | 0 <= i < n && 0 <= j < n && Reach(e, i, j)
      ensures r[i][j]
    {
      var p :| IsPath(e, p) && p[0] == i && p[|p| - 1] == j;
      PathIncluded(e, r, p);
    }
  }
}
