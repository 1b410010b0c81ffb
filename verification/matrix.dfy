/** Square boolean matrices as sequences of rows, the relational algebra the
    ranking reconciliation and the tree relations are written in: transpose,
    element-wise and/or, marking cells, and the usual relation properties. */
module BoolMatrix {

  type Matrix = seq<seq<bool>>

  /** Every row is as long as the matrix is high. */
  predicate Square(m: Matrix) {
    forall i :: 0 <= i < |m| ==> |m[i]| == |m|
  }

  predicate InRange(m: Matrix, i: int) {
    0 <= i < |m|
  }

  /** The n x n matrix of all-false entries. */
  function Zero(n: nat): (z: Matrix)
    ensures Square(z) && |z| == n
    ensures forall i, j :: 0 <= i < n && 0 <= j < n ==> !z[i][j]
  {
    seq(n, i => seq(n, j => false))
  }

  function Transpose(m: Matrix): (t: Matrix)
    requires Square(m)
    ensures Square(t) && |t| == |m|
    ensures forall i, j :: 0 <= i < |m| && 0 <= j < |m| ==> t[i][j] == m[j][i]
  {
    seq(|m|, i requires 0 <= i < |m| => seq(|m|, j requires 0 <= j < |m| => m[j][i]))
  }

  /** Element-wise conjunction, numpy's `&` on two 0/1 arrays. */
  function And(m1: Matrix, m2: Matrix): (r: Matrix)
    requires Square(m1) && Square(m2) && |m1| == |m2|
    ensures Square(r) && |r| == |m1|
    ensures forall i, j :: 0 <= i < |m1| && 0 <= j < |m1| ==> r[i][j] == (m1[i][j] && m2[i][j])
  {
    seq(|m1|, i requires 0 <= i < |m1| =>
      seq(|m1|, j requires 0 <= j < |m1| => m1[i][j] && m2[i][j]))
  }

  /** Element-wise disjunction, numpy's `|` on two 0/1 arrays. */
  function Or(m1: Matrix, m2: Matrix): (r: Matrix)
    requires Square(m1) && Square(m2) && |m1| == |m2|
    ensures Square(r) && |r| == |m1|
    ensures forall i, j :: 0 <= i < |m1| && 0 <= j < |m1| ==> r[i][j] == (m1[i][j] || m2[i][j])
  {
    seq(|m1|, i requires 0 <= i < |m1| =>
      seq(|m1|, j requires 0 <= j < |m1| => m1[i][j] || m2[i][j]))
  }

  /** Sets one cell to true, the assignment `M[i][j] = 1`. */
  function Mark(m: Matrix, i: int, j: int): (r: Matrix)
    requires Square(m) && InRange(m, i) && InRange(m, j)
    ensures Square(r) && |r| == |m|
    ensures forall a, b :: 0 <= a < |m| && 0 <= b < |m| ==>
      r[a][b] == (m[a][b] || (a == i && b == j))
  {
    m[i := m[i][j := true]]
  }

  predicate CellsInRange(m: Matrix, cells: seq<(int, int)>) {
    forall t :: 0 <= t < |cells| ==> InRange(m, cells[t].0) && InRange(m, cells[t].1)
  }

  /** Sets every listed cell to true, one after the other, as the source's
      marking loops do. The result holds exactly the old entries plus the
      listed cells. */
  function MarkAll(m: Matrix, cells: seq<(int, int)>): (r: Matrix)
    requires Square(m) && CellsInRange(m, cells)
    ensures Square(r) && |r| == |m|
    ensures forall a, b :: 0 <= a < |m| && 0 <= b < |m| ==>
      (r[a][b] <==> m[a][b] || (a, b) in cells)
    decreases |cells|
  {
    if cells == [] then m
    else
      var last := cells[|cells| - 1];
      var front := cells[..|cells| - 1];
      assert cells == front + [last];
      Mark(MarkAll(m, front), last.0, last.1)
  }

  predicate Reflexive(m: Matrix)
    requires Square(m)
  {
    forall i :: 0 <= i < |m| ==> m[i][i]
  }

  predicate Irreflexive(m: Matrix)
    requires Square(m)
  {
    forall i :: 0 <= i < |m| ==> !m[i][i]
  }

  predicate Symmetric(m: Matrix)
    requires Square(m)
  {
    forall i, j :: 0 <= i < |m| && 0 <= j < |m| ==> m[i][j] == m[j][i]
  }

  predicate Total(m: Matrix)
    requires Square(m)
  {
    forall i, j :: 0 <= i < |m| && 0 <= j < |m| ==> m[i][j] || m[j][i]
  }

  predicate Transitive(m: Matrix)
    requires Square(m)
  {
    forall i, j, k :: 0 <= i < |m| && 0 <= j < |m| && 0 <= k < |m| && m[i][k] && m[k][j] ==> m[i][j]
  }

  predicate Equivalence(m: Matrix)
    requires Square(m)
  {
    Reflexive(m) && Symmetric(m) && Transitive(m)
  }

  /** Every entry set in `small` is set in `big`. */
  predicate Includes(big: Matrix, small: Matrix)
    requires Square(big) && Square(small) && |big| == |small|
  {
    forall i, j :: 0 <= i < |big| && 0 <= j < |big| && small[i][j] ==> big[i][j]
  }

  /** A walk of at least one step along set entries of `m`. */
  ghost predicate IsPath(m: Matrix, p: seq<int>)
    requires Square(m)
  {
    && |p| >= 2
    && (forall t :: 0 <= t < |p| ==> InRange(m, p[t]))
    && (forall t :: 0 <= t < |p| - 1 ==> m[p[t]][p[t + 1]])
  }

  /** `j` can be reached from `i` in one or more steps: the transitive
      closure of `m`. */
  ghost predicate Reach(m: Matrix, i: int, j: int)
    requires Square(m)
  {
    exists p :: IsPath(m, p) && p[0] == i && p[|p| - 1] == j
  }

  lemma EdgeReach(m: Matrix, i: int, j: int)
    requires Square(m) && InRange(m, i) && InRange(m, j) && m[i][j]
    ensures Reach(m, i, j)
  {
    assert IsPath(m, [i, j]);
  }

  /** Two walks that meet can be joined. */
  lemma ReachTrans(m: Matrix, i: int, k: int, j: int)
    requires Square(m) && Reach(m, i, k) && Reach(m, k, j)
    ensures Reach(m, i, j)
  {
    var p :| IsPath(m, p) && p[0] == i && p[|p| - 1] == k;
    var q :| IsPath(m, q) && q[0] == k && q[|q| - 1] == j;
    var w := p + q[1..];
    assert forall t :: |p| <= t < |w| ==> w[t] == q[t - |p| + 1];
    assert forall t :: 0 <= t < |w| - 1 ==> m[w[t]][w[t + 1]] by {
      forall t | 0 <= t < |w| - 1
        ensures m[w[t]][w[t + 1]]
      {
        if t < |p| - 1 {
        } else if t == |p| - 1 {
          assert w[t] == q[0] && w[t + 1] == q[1];
        } else {
          assert w[t] == q[t - |p| + 1] && w[t + 1] == q[t - |p| + 2];
        }
      }
    }
    assert IsPath(m, w);
  }

  /** A transitive relation that contains `m` contains every walk of `m`:
      the closure is the least transitive relation above `m`. */
  lemma {:induction false} PathIncluded(m: Matrix, r: Matrix, p: seq<int>)
    requires Square(m) && Square(r) && |m| == |r|
    requires Includes(r, m) && Transitive(r) && IsPath(m, p)
    ensures r[p[0]][p[|p| - 1]]
    decreases |p|
  {
    if |p| > 2 {
      var front := p[..|p| - 1];
      assert IsPath(m, front);
      PathIncluded(m, r, front);
      assert r[p[|p| - 2]][p[|p| - 1]];
    }
  }

  /** The reach relation of a symmetric matrix is symmetric: walks reverse. */
  lemma {:induction false} ReachSymmetric(m: Matrix, i: int, j: int)
    requires Square(m) && Symmetric(m) && Reach(m, i, j)
    ensures Reach(m, j, i)
  {
    var p :| IsPath(m, p) && p[0] == i && p[|p| - 1] == j;
    var q := seq(|p|, t requires 0 <= t < |p| => p[|p| - 1 - t]);
    assert forall t :: 0 <= t < |q| - 1 ==> m[q[t]][q[t + 1]] by {
      forall t | 0 <= t < |q| - 1
        ensures m[q[t]][q[t + 1]]
      {
        assert m[p[|p| - 2 - t]][p[|p| - 1 - t]];
      }
    }
    assert IsPath(m, q);
  }

  /** In a relation that only relates an index to itself, walks stay put. */
  lemma {:induction false} DiagonalReach(m: Matrix, i: int, j: int)
    requires Square(m)
    requires forall x, y :: 0 <= x < |m| && 0 <= y < |m| && m[x][y] ==> x == y
    requires Reach(m, i, j)
    ensures i == j
  {
    var p :| IsPath(m, p) && p[0] == i && p[|p| - 1] == j;
    DiagonalPath(m, p);
  }

  lemma {:induction false} DiagonalPath(m: Matrix, p: seq<int>)
    requires Square(m)
    requires forall x, y :: 0 <= x < |m| && 0 <= y < |m| && m[x][y] ==> x == y
    requires IsPath(m, p)
    ensures p[0] == p[|p| - 1]
    decreases |p|
  {
    if |p| > 2 {
      assert IsPath(m, p[1..]);
      DiagonalPath(m, p[1..]);
      assert m[p[0]][p[1]];
    } else {
      assert m[p[0]][p[1]];
    }
  }
}
