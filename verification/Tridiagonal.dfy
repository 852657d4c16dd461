/** The elimination loops of src/CSpline.cpp, for any system with their diagonal dominance. */
module Tridiagonal {

  /** Row i reads u[i-1] * x[i-1] + d[i] * x[i] + u[i] * x[i+1] == w[i]; the
      rows are numbered from 1 to |u| - 1. */
  datatype System = System(u: seq<real>, d: seq<real>, w: seq<real>)

  ghost predicate IsDominant(s: System) {
    && |s.d| == |s.w| == |s.u| + 1 && |s.u| > 0
    && (forall i :: 0 <= i < |s.u| ==> s.u[i] > 0.0)
    && (forall i :: 0 < i < |s.u| ==> s.d[i] == 2.0 * (s.u[i - 1] + s.u[i]))
  }

  ghost predicate RowHolds(u0: real, d: real, u1: real, w: real, a: real, b: real, c: real) {
    u0 * a + d * b + u1 * c == w
  }

  ghost predicate SolvesRow(s: System, x: seq<real>, i: nat)
    requires IsDominant(s) && |x| == |s.d| && 0 < i < |s.u|
  {
    RowHolds(s.u[i - 1], s.d[i], s.u[i], s.w[i], x[i - 1], x[i], x[i + 1])
  }

  /** x solves the system with both ends zero. */
  ghost predicate Solves(s: System, x: seq<real>)
    requires IsDominant(s)
  {
    && |x| == |s.d| && x[0] == 0.0 && x[|x| - 1] == 0.0
    && forall i :: 0 < i < |s.u| ==> SolvesRow(s, x, i)
  }

  /** What elimination leaves of y when u/d times v is taken off. */
  function Less(y: real, v: real, u: real, d: real): real
    requires d != 0.0
  {
    y - v * u / d
  }

  lemma PositiveProduct(a: real, b: real)
    requires a > 0.0 && b > 0.0
    ensures a * b > 0.0
  {
  }

  lemma AtLeastFactor(q: real, d: real)
    requires q >= 1.0 && d > 0.0
    ensures q * d >= d
  {
  }

  lemma RatioBelowOne(u: real, d: real) returns (q: real)
    requires 0.0 < u < d
    ensures q < 1.0 && q * d == u
  {
    q := u / d;
    if q >= 1.0 {
      AtLeastFactor(q, d);
    }
  }

  /** The pivot below stays above the width of its own interval. */
  lemma NextPivot(u0: real, u1: real, d: real)
    requires 0.0 < u0 < d && 0.0 < u1
    ensures Less(2.0 * (u0 + u1), u0, u0, d) > u1
  {
    var q := RatioBelowOne(u0, d);
    LessByRatio(2.0 * (u0 + u1), u0, u0, d, q);
    PositiveProduct(u0, 1.0 - q);
    assert u0 * (1.0 - q) == u0 - q * u0;
  }

  lemma LessByRatio(y: real, v: real, u: real, d: real, q: real)
    requires d != 0.0 && q * d == u
    ensures Less(y, v, u, d) == y - q * v
  {
  }

  /** The pivot of row i after elimination: above the width of the interval on
      its right, so never zero. */
  ghost function Pivot(s: System, i: nat): (d: real)
    requires IsDominant(s) && 0 < i < |s.u|
    ensures d > s.u[i] > 0.0
  {
    if i == 1 then
      assert s.u[0] > 0.0;
      s.d[1]
    else
      NextPivot(s.u[i - 1], s.u[i], Pivot(s, i - 1));
      Less(s.d[i], s.u[i - 1], s.u[i - 1], Pivot(s, i - 1))
  }

  ghost function Rhs(s: System, i: nat): real
    requires IsDominant(s) && 0 < i < |s.u|
  {
    if i == 1 then s.w[1] else Less(s.w[i], Rhs(s, i - 1), s.u[i - 1], Pivot(s, i - 1))
  }

  /** t holds the pivots and right-hand sides that eliminating s leaves. */
  ghost predicate IsEliminated(s: System, t: System) {
    && IsDominant(s) && |t.d| == |t.w| == |s.u|
    && (forall i {:trigger Pivot(s, i)} :: 0 < i < |s.u| ==> t.d[i] == Pivot(s, i))
    && (forall i {:trigger Rhs(s, i)} :: 0 < i < |s.u| ==> t.w[i] == Rhs(s, i))
  }

  ghost function Elimination(s: System): (t: System)
    requires IsDominant(s)
    ensures IsEliminated(s, t)
  {
    var d := seq(|s.u|, i requires 0 <= i < |s.u| && IsDominant(s) => if i == 0 then 0.0 else Pivot(s, i));
    var w := seq(|s.u|, i requires 0 <= i < |s.u| && IsDominant(s) => if i == 0 then 0.0 else Rhs(s, i));
    System(s.u, d, w)
  }

  lemma FirstRow(s: System, t: System)
    requires IsEliminated(s, t)
    ensures |s.u| > 1 ==> t.d[1] == s.d[1] && t.w[1] == s.w[1]
  {
    assert |s.u| > 1 ==> Pivot(s, 1) == s.d[1] && Rhs(s, 1) == s.w[1];
  }

  lemma NextRow(s: System, i: nat)
    requires IsDominant(s) && 1 < i < |s.u|
    ensures Pivot(s, i) == Less(s.d[i], s.u[i - 1], s.u[i - 1], Pivot(s, i - 1))
    ensures Rhs(s, i) == Less(s.w[i], Rhs(s, i - 1), s.u[i - 1], Pivot(s, i - 1))
  {
  }

  /** The row that elimination leaves. */
  ghost predicate ShortRowHolds(d: real, u: real, w: real, b: real, c: real) {
    d * b + u * c == w
  }

  /** Taking u/d times the row above away is undone by adding it back. */
  lemma RowAlgebra(u: real, d: real, w: real, d0: real, w0: real, d1: real, w1: real,
                   a: real, b: real, c: real, r: real)
    requires d != 0.0 && d1 == Less(d0, u, u, d) && w1 == Less(w0, w, u, d)
    requires ShortRowHolds(d, u, w, a, b)
    ensures ShortRowHolds(d1, r, w1, b, c) <==> RowHolds(u, d0, r, w0, a, b, c)
  {
  }

  lemma RowsAgree(s: System, x: seq<real>, i: nat)
    requires IsDominant(s) && |x| == |s.d| && 0 < i < |s.u| && x[0] == 0.0
    requires i > 1 ==> ShortRowHolds(Pivot(s, i - 1), s.u[i - 1], Rhs(s, i - 1), x[i - 1], x[i])
    ensures SolvesRow(s, x, i) <==> ShortRowHolds(Pivot(s, i), s.u[i], Rhs(s, i), x[i], x[i + 1])
  {
    if i > 1 {
      RowAlgebra(s.u[i - 1], Pivot(s, i - 1), Rhs(s, i - 1), s.d[i], s.w[i], Pivot(s, i), Rhs(s, i),
                 x[i - 1], x[i], x[i + 1], s.u[i]);
    }
  }

  lemma {:induction false} SolutionsEliminate(s: System, x: seq<real>, i: nat)
    requires IsDominant(s) && Solves(s, x) && 0 < i < |s.u|
    ensures ShortRowHolds(Pivot(s, i), s.u[i], Rhs(s, i), x[i], x[i + 1])
  {
    if i > 1 {
      SolutionsEliminate(s, x, i - 1);
    }
    RowsAgree(s, x, i);
  }

  lemma Cancel(d: real, u: real, w: real, a: real, b: real, c: real)
    requires d > 0.0 && ShortRowHolds(d, u, w, a, c) && ShortRowHolds(d, u, w, b, c)
    ensures a == b
  {
  }

  /** The system has no second solution. */
  lemma {:induction false} SolutionIsUnique(s: System, x: seq<real>, y: seq<real>, i: nat)
    requires IsDominant(s) && Solves(s, x) && Solves(s, y) && i < |x|
    ensures x[i] == y[i]
    decreases |x| - i
  {
    if 0 < i < |s.u| {
      SolutionIsUnique(s, x, y, i + 1);
      SolutionsEliminate(s, x, i);
      SolutionsEliminate(s, y, i);
      Cancel(Pivot(s, i), s.u[i], Rhs(s, i), x[i], y[i], x[i + 1]);
    }
  }

  /** The unknown that a row leaves, given the one after it. */
  function SolveFor(w: real, u: real, c: real, d: real): (b: real)
    requires d != 0.0
    ensures ShortRowHolds(d, u, w, b, c)
  {
    (w - u * c) / d
  }

  /** Back substitution solves the rows as they were before elimination. */
  lemma ShortRowsSuffice(s: System, t: System, x: seq<real>)
    requires IsEliminated(s, t) && |x| == |s.d| && x[0] == 0.0 && x[|x| - 1] == 0.0
    requires forall i :: 0 < i < |s.u| ==> ShortRowHolds(t.d[i], s.u[i], t.w[i], x[i], x[i + 1])
    ensures Solves(s, x)
  {
    forall i | 0 < i < |s.u| ensures SolvesRow(s, x, i) {
      assert t.d[i] == Pivot(s, i) && t.w[i] == Rhs(s, i);
      if i > 1 {
        assert t.d[i - 1] == Pivot(s, i - 1) && t.w[i - 1] == Rhs(s, i - 1);
      }
      RowsAgree(s, x, i);
    }
  }
}
