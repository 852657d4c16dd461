/** approx_recanon_restrict of src/approx.c: canonical form restored in
    quadratic time after one bound to the reference clock 0 was lowered. */
module Clocks {
  import opened Dbm
  import opened Zones
  import opened Closure

  function Plus(b: Bound, c: Bound): Bound {
    if b.Fin? && c.Fin? then Fin(b.v + c.v) else Unbounded
  }

  /** Every bound compared with the path that uses the new bound v on r - 0. */
  ghost function ThroughRestriction(m: Matrix, n: nat, r: nat, v: int): (m': Matrix)
    requires IsMatrix(m, n) && r < n
    ensures IsMatrix(m', n)
  {
    seq(n, i requires 0 <= i < n =>
      seq(n, j requires 0 <= j < n => Relaxed(m[i][j], Plus(m[i][r], Fin(v)), m[0][j])))
  }

  /** m is the canonical matrix was with the bound on r - 0 lowered to v. */
  ghost predicate IsLowered(was: Matrix, m: Matrix, n: nat, r: nat, v: int) {
    && IsMatrix(was, n) && 0 < r < n && Canonical(was, n, 0, n) && AtMost(Fin(v), was[r][0])
    && m == Set(was, n, r, 0, Fin(v))
  }

  /** The clocks can still meet it. */
  ghost predicate IsRestriction(was: Matrix, m: Matrix, n: nat, r: nat, v: int) {
    IsLowered(was, m, n, r, v) && Satisfiable(m, n)
  }

  /** They can exactly if the bound on 0 - r does not contradict it. */
  ghost predicate IsFeasible(was: Matrix, n: nat, r: nat, v: int)
    requires IsMatrix(was, n) && 0 < r < n
  {
    was[0][r].Fin? ==> was[0][r].v + v >= 0
  }

  lemma FeasibleIff(was: Matrix, m: Matrix, n: nat, r: nat, v: int)
    requires IsLowered(was, m, n, r, v)
    ensures Satisfiable(m, n) <==> IsFeasible(was, n, r, v)
    ensures Satisfiable(m, n) ==> ZeroDiagonal(m, n, 0, n)
  {
    if IsFeasible(was, n, r, v) {
      var m' := ThroughRestriction(was, n, r, v);
      ThroughRestrictionIsCanonical(was, n, r, v);
      CanonicalIsSatisfiable(m', n);
      var t :| |t| == n && Sat(m', t);
      forall i, j | 0 <= i < n && 0 <= j < n ensures Allows(m[i][j], t[i] - t[j]) {
        SatAt(m', t, i, j);
      }
      assert Sat(m, t);
    }
  }

  lemma ThroughRestrictionIsCanonical(was: Matrix, n: nat, r: nat, v: int)
    requires IsMatrix(was, n) && 0 < r < n && Canonical(was, n, 0, n) && IsFeasible(was, n, r, v)
    ensures Canonical(ThroughRestriction(was, n, r, v), n, 0, n)
  {
    var m' := ThroughRestriction(was, n, r, v);
    forall i | 0 <= i < n
      ensures m'[i][i] == Fin(0)
    {
      assert AtMostSum(was[0][r], was[0][i], was[i][r]);
    }
    forall i, q, j | 0 <= i < n && 0 <= q < n && 0 <= j < n
      ensures AtMostSum(m'[i][j], m'[i][q], m'[q][j])
    {
      assert AtMostSum(was[i][j], was[i][q], was[q][j]);
      assert AtMostSum(was[i][r], was[i][q], was[q][r]);
      assert AtMostSum(was[0][j], was[0][q], was[q][j]);
      assert AtMostSum(was[0][r], was[0][q], was[q][r]);
    }
  }

  /** The loop body for row i: nothing unless the path through r is shorter. */
  method RestrictRow(clocks: array2<Bound>, i: nat, r: nat)
    requires clocks.Length0 == clocks.Length1 && i < clocks.Length0 && 0 < r < clocks.Length0
    modifies clocks
    ensures Tightens(old(Abs(clocks)), Abs(clocks), clocks.Length0)
    ensures forall a, c :: 0 <= a < clocks.Length0 && 0 <= c < clocks.Length0 && a != i ==>
      clocks[a, c] == old(clocks[a, c])
    ensures old(clocks[0, 0]) == Fin(0) && (i == 0 || i == r ==>
              Relaxed(old(clocks[i, 0]), old(clocks[i, r]), old(clocks[r, 0])) == old(clocks[i, 0])) ==>
      RowRestricted(old(Abs(clocks)), Abs(clocks), clocks.Length0, i, r)
  {
    ghost var n, m := clocks.Length0, Abs(clocks);
    ghost var start := Relaxed(m[i][0], m[i][r], m[r][0]);
    ghost var good := m[0][0] == Fin(0) && (i == 0 || i == r ==> start == m[i][0]);
    if clocks[i, r].Fin? && clocks[r, 0].Fin?
       && (!clocks[i, 0].Fin? || clocks[i, 0].v > clocks[i, r].v + clocks[r, 0].v) {
      RelaxEntry(clocks, i, r, 0);
      ghost var m1 := Abs(clocks);
      for j := 0 to clocks.Length0
        invariant Tightens(m, Abs(clocks), n)
        invariant forall a, c :: 0 <= a < n && 0 <= c < n && a != i ==> clocks[a, c] == m[a][c]
        invariant good ==> clocks[i, 0] == start
        invariant good ==> forall c :: 0 <= c < n ==>
          clocks[i, c] == if 0 < c < j then Relaxed(m[i][c], start, m[0][c]) else m1[i][c]
      {
        ghost var before := Abs(clocks);
        RelaxEntry(clocks, i, 0, j);
        TightensTransitive(m, before, Abs(clocks), n);
      }
    }
  }

  /** Row i after its turn: unchanged, or compared with the path through r and 0. */
  ghost predicate RowRestricted(m: Matrix, m': Matrix, n: nat, i: nat, r: nat)
    requires IsMatrix(m, n) && IsMatrix(m', n) && i < n && r < n
  {
    var start := Relaxed(m[i][0], m[i][r], m[r][0]);
    forall c :: 0 <= c < n ==>
      m'[i][c] == if start == m[i][0] then m[i][c] else if c == 0 then start else Relaxed(m[i][c], start, m[0][c])
  }

  /** Row r and the rows before i are those of goal, the others still of m. */
  ghost predicate RowsDone(m: Matrix, goal: Matrix, m': Matrix, n: nat, r: nat, i: nat)
    requires IsMatrix(m, n) && IsMatrix(goal, n) && IsMatrix(m', n)
  {
    forall a, c {:trigger m'[a][c]} :: 0 <= a < n && 0 <= c < n ==>
      m'[a][c] == if a == r || a < i then goal[a][c] else m[a][c]
  }

  /** The loop over row r: each entry against the new bound. */
  method RestrictOwnRow(clocks: array2<Bound>, r: nat)
    requires clocks.Length0 == clocks.Length1 && 0 < r < clocks.Length0
    modifies clocks
    ensures Tightens(old(Abs(clocks)), Abs(clocks), clocks.Length0)
    ensures old(clocks[0, 0]) == Fin(0) ==> OwnRowRestricted(old(Abs(clocks)), Abs(clocks), clocks.Length0, r)
  {
    ghost var n, m := clocks.Length0, Abs(clocks);
    for j := 0 to clocks.Length0
      invariant Tightens(m, Abs(clocks), n)
      invariant m[0][0] == Fin(0) ==> forall a, c {:trigger clocks[a, c]} :: 0 <= a < n && 0 <= c < n ==>
        clocks[a, c] == if a == r && c < j then Relaxed(m[r][c], m[r][0], m[0][c]) else m[a][c]
    {
      ghost var before := Abs(clocks);
      RelaxEntry(clocks, r, 0, j);
      TightensTransitive(m, before, Abs(clocks), n);
    }
  }

  ghost predicate OwnRowRestricted(m: Matrix, m': Matrix, n: nat, r: nat)
    requires IsMatrix(m, n) && IsMatrix(m', n) && 0 < r < n
  {
    forall a, c {:trigger m'[a][c]} :: 0 <= a < n && 0 <= c < n ==>
      m'[a][c] == if a == r then Relaxed(m[r][c], m[r][0], m[0][c]) else m[a][c]
  }

  lemma ZeroRowDone(was: Matrix, m: Matrix, m': Matrix, n: nat, r: nat, v: int)
    requires IsRestriction(was, m, n, r, v) && IsMatrix(m', n) && OwnRowRestricted(m, m', n, r)
    ensures RowsDone(m, ThroughRestriction(was, n, r, v), m', n, r, 0)
  {
  }

  lemma RestrictionOutcome(was: Matrix, m: Matrix, m': Matrix, n: nat, r: nat, v: int)
    requires IsRestriction(was, m, n, r, v) && Tightens(m, m', n) && m' == ThroughRestriction(was, n, r, v)
    ensures m' == FullClosure(m, n)
  {
    FeasibleIff(was, m, n, r, v);
    ThroughRestrictionIsCanonical(was, n, r, v);
    ClosureIsCanonical(m, n, n);
    ClosedByTightens(m, n, n);
    CanonicalTighteningsAgree(m, m', FullClosure(m, n), n);
  }

  /** was is the matrix before clocks[r][0] was lowered to v. */
  method RecanonRestrict(clocks: array2<Bound>, numClocks: nat, r: nat, ghost was: Matrix, ghost v: int)
    requires clocks.Length0 == clocks.Length1 == numClocks + 1 && 1 <= r <= numClocks
    modifies clocks
    ensures Tightens(old(Abs(clocks)), Abs(clocks), numClocks + 1)
    ensures IsRestriction(was, old(Abs(clocks)), numClocks + 1, r, v) ==>
      && Abs(clocks) == ThroughRestriction(was, numClocks + 1, r, v)
      && Abs(clocks) == FullClosure(old(Abs(clocks)), numClocks + 1)
    ensures IsLowered(was, old(Abs(clocks)), numClocks + 1, r, v) ==>
      (ZeroDiagonal(Abs(clocks), numClocks + 1, 0, numClocks + 1) <==> Satisfiable(old(Abs(clocks)), numClocks + 1))
  {
    ghost var n, m := numClocks + 1, Abs(clocks);
    ghost var good := IsRestriction(was, m, n, r, v);
    ghost var goal := m;
    if good {
      FeasibleIff(was, m, n, r, v);
      goal := ThroughRestriction(was, n, r, v);
    }
    RestrictOwnRow(clocks, r);
    ghost var own := Abs(clocks);
    if good {
      ZeroRowDone(was, m, Abs(clocks), n, r, v);
    }
    for i := 0 to numClocks + 1
      invariant Tightens(m, Abs(clocks), n) && Tightens(own, Abs(clocks), n)
      invariant good ==> RowsDone(m, goal, Abs(clocks), n, r, i)
    {
      ghost var before := Abs(clocks);
      RestrictRow(clocks, i, r);
      TightensTransitive(m, before, Abs(clocks), n);
      TightensTransitive(own, before, Abs(clocks), n);
      if good {
        RowTurn(was, m, before, Abs(clocks), n, r, v, i);
      }
    }
    if good {
      SameMatrix(Abs(clocks), goal, n);
      RestrictionOutcome(was, m, goal, n, r, v);
    }
    if IsLowered(was, m, n, r, v) {
      LoweringShows(was, m, own, Abs(clocks), n, r, v);
    }
  }

  /** If the clocks cannot meet the bound, the first loop makes a diagonal entry
      negative. */
  lemma LoweringShows(was: Matrix, m: Matrix, own: Matrix, m': Matrix, n: nat, r: nat, v: int)
    requires IsLowered(was, m, n, r, v) && IsMatrix(own, n) && Tightens(m, m', n) && Tightens(own, m', n)
    requires m[0][0] == Fin(0) ==> OwnRowRestricted(m, own, n, r)
    ensures ZeroDiagonal(m', n, 0, n) <==> Satisfiable(m, n)
  {
    FeasibleIff(was, m, n, r, v);
    if Satisfiable(m, n) {
      SatisfiableKeepsDiagonal(m, m', n, 0, n);
    } else {
      assert own[r][r] == Relaxed(m[r][r], m[r][0], m[0][r]);
      assert AtMost(m'[r][r], own[r][r]);
    }
  }

  lemma RowTurn(was: Matrix, m: Matrix, m1: Matrix, m2: Matrix, n: nat, r: nat, v: int, i: nat)
    requires IsRestriction(was, m, n, r, v) && IsMatrix(m1, n) && IsMatrix(m2, n) && i < n
    requires RowsDone(m, ThroughRestriction(was, n, r, v), m1, n, r, i) && RowRestricted(m1, m2, n, i, r)
    requires forall a, c {:trigger m2[a][c]} :: 0 <= a < n && 0 <= c < n && a != i ==> m2[a][c] == m1[a][c]
    ensures RowsDone(m, ThroughRestriction(was, n, r, v), m2, n, r, i + 1)
  {
    FeasibleIff(was, m, n, r, v);
    var goal := ThroughRestriction(was, n, r, v);
    forall c | 0 <= c < n
      ensures m2[i][c] == goal[i][c]
    {
      assert AtMostSum(was[i][c], was[i][0], was[0][c]);
      assert m1[i][c] == if i == r then goal[i][c] else m[i][c];
    }
  }
}
