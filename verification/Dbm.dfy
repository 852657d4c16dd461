/** Difference bound matrices of src/POSET.cc and src/approx.c: entry [i][j] bounds
    t(i) - t(j) from above, and a matrix stands for the timings it allows. */
module Dbm {

  /** bound_type with its two reserved values: _UNBOUNDED_ (INFIN in
      src/approx.c), and _MARKED_, which only ever stands on the diagonal of a
      matrix about to be shrunk and bounds nothing. */
  datatype Bound = Fin(v: int) | Unbounded | Marked

  type Matrix = seq<seq<Bound>>

  ghost predicate IsMatrix(m: Matrix, n: nat) {
    |m| == n && forall i :: 0 <= i < n ==> |m[i]| == n
  }

  /** t(i) - t(j) may be as large as d. */
  predicate Allows(b: Bound, d: int) {
    b.Fin? ==> d <= b.v
  }

  ghost predicate Sat(m: Matrix, t: seq<int>)
    requires IsMatrix(m, |t|)
  {
    forall i, j {:trigger m[i][j]} :: 0 <= i < |t| && 0 <= j < |t| ==> Allows(m[i][j], t[i] - t[j])
  }

  ghost predicate Satisfiable(m: Matrix, n: nat)
    requires IsMatrix(m, n)
  {
    exists t {:trigger Sat(m, t)} :: |t| == n && Sat(m, t)
  }

  lemma SatAt(m: Matrix, t: seq<int>, i: nat, j: nat)
    requires IsMatrix(m, |t|) && i < |t| && j < |t| && Sat(m, t)
    ensures Allows(m[i][j], t[i] - t[j])
  {
  }

  /** a is at most b + c. */
  predicate AtMostSum(a: Bound, b: Bound, c: Bound) {
    b.Fin? && c.Fin? ==> a.Fin? && a.v <= b.v + c.v
  }

  predicate AtMost(a: Bound, b: Bound) {
    b.Fin? ==> a.Fin? && a.v <= b.v
  }

  /** Zero diagonal and every entry as tight as any path through one event, on
      the events lo to hi. */
  ghost predicate Canonical(m: Matrix, n: nat, lo: nat, hi: nat)
    requires IsMatrix(m, n) && hi <= n
  {
    && (forall i :: lo <= i < hi ==> m[i][i] == Fin(0))
    && (forall i, k, j {:trigger m[i][k], m[k][j]} :: lo <= i < hi && lo <= k < hi && lo <= j < hi ==>
          AtMostSum(m[i][j], m[i][k], m[k][j]))
  }

  ghost predicate ZeroDiagonal(m: Matrix, n: nat, lo: nat, hi: nat)
    requires IsMatrix(m, n) && hi <= n
  {
    forall i :: lo <= i < hi ==> m[i][i] == Fin(0)
  }

  /** m' says no less than m, entry by entry, and allows the same timings. */
  ghost predicate Tightens(m: Matrix, m': Matrix, n: nat) {
    && IsMatrix(m, n) && IsMatrix(m', n)
    && (forall i, j :: 0 <= i < n && 0 <= j < n ==>
          AtMost(m'[i][j], m[i][j]) && (m'[i][j].Fin? || m'[i][j] == m[i][j]))
    && (forall t {:trigger Sat(m, t)} {:trigger Sat(m', t)} :: |t| == n ==> (Sat(m, t) <==> Sat(m', t)))
  }

  lemma TightensTransitive(m: Matrix, m': Matrix, m'': Matrix, n: nat)
    requires Tightens(m, m', n) && Tightens(m', m'', n)
    ensures Tightens(m, m'', n)
  {
  }

  /** One relaxation step: the entry after comparing it with a path b + c. */
  function Relaxed(a: Bound, b: Bound, c: Bound): (r: Bound)
    ensures AtMost(r, a) && AtMostSum(r, b, c)
    ensures r == a || (b.Fin? && c.Fin? && r == Fin(b.v + c.v))
  {
    if b.Fin? && c.Fin? && (!a.Fin? || a.v > b.v + c.v) then Fin(b.v + c.v) else a
  }

  function Set(m: Matrix, n: nat, i: nat, j: nat, b: Bound): (m': Matrix)
    requires IsMatrix(m, n) && i < n && j < n
    ensures IsMatrix(m', n)
    ensures forall a, c :: 0 <= a < n && 0 <= c < n ==> m'[a][c] == if a == i && c == j then b else m[a][c]
  {
    m[i := m[i][j := b]]
  }

  lemma RelaxTightens(m: Matrix, n: nat, i: nat, k: nat, j: nat)
    requires IsMatrix(m, n) && i < n && k < n && j < n
    ensures Tightens(m, Set(m, n, i, j, Relaxed(m[i][j], m[i][k], m[k][j])), n)
  {
  }

  lemma SatisfiableKeepsDiagonal(m: Matrix, m': Matrix, n: nat, lo: nat, hi: nat)
    requires Tightens(m, m', n) && hi <= n && ZeroDiagonal(m, n, lo, hi) && Satisfiable(m, n)
    ensures ZeroDiagonal(m', n, lo, hi) && Satisfiable(m', n)
  {
    var t :| |t| == n && Sat(m, t);
    assert Sat(m', t);
    forall i | lo <= i < hi
      ensures m'[i][i] == Fin(0)
    {
      assert AtMost(m'[i][i], m[i][i]);
      SatAt(m', t, i, i);
    }
  }

  // The array that holds a matrix

  ghost function Abs(d: array2<Bound>): (m: Matrix)
    requires d.Length0 == d.Length1
    reads d
    ensures IsMatrix(m, d.Length0)
    ensures forall i, j :: 0 <= i < d.Length0 && 0 <= j < d.Length0 ==> m[i][j] == d[i, j]
  {
    seq(d.Length0, i requires 0 <= i < d.Length0 reads d =>
      seq(d.Length1, j requires 0 <= j < d.Length1 reads d => d[i, j]))
  }

  lemma SameMatrix(m: Matrix, m': Matrix, n: nat)
    requires IsMatrix(m, n) && IsMatrix(m', n)
    requires forall i, j :: 0 <= i < n && 0 <= j < n ==> m[i][j] == m'[i][j]
    ensures m == m'
  {
    forall i | 0 <= i < n
      ensures m[i] == m'[i]
    {
    }
  }

  /** The assignment every closure loop makes; m is the matrix before it. */
  method RelaxEntry(d: array2<Bound>, i: nat, k: nat, j: nat)
    requires d.Length0 == d.Length1 && i < d.Length0 && k < d.Length0 && j < d.Length0
    modifies d
    ensures d[i, j] == Relaxed(old(d[i, j]), old(d[i, k]), old(d[k, j]))
    ensures forall a, c :: 0 <= a < d.Length0 && 0 <= c < d.Length0 && !(a == i && c == j) ==> d[a, c] == old(d[a, c])
    ensures Tightens(old(Abs(d)), Abs(d), d.Length0)
  {
    ghost var n, m := d.Length0, Abs(d);
    RelaxTightens(m, n, i, k, j);
    if d[i, k].Fin? && d[k, j].Fin? && (!d[i, j].Fin? || d[i, j].v > d[i, k].v + d[k, j].v) {
      d[i, j] := Fin(d[i, k].v + d[k, j].v);
    }
    SameMatrix(Abs(d), Set(m, n, i, j, Relaxed(m[i][j], m[i][k], m[k][j])), n);
  }
}
