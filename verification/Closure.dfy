/** Shortest-path closure: floyds and incremental_floyds of src/POSET.cc, and
    approx_recanon_process of src/approx.c, the latter on events 1 to num_clocks. */
module Closure {
  import opened Dbm
  import opened Zones

  // Floyd-Warshall as a function: the reference both loops are held against

  ghost function Phase(m: Matrix, n: nat, k: nat): (m': Matrix)
    requires IsMatrix(m, n) && k < n
    ensures IsMatrix(m', n)
  {
    seq(n, i requires 0 <= i < n => seq(n, j requires 0 <= j < n => Relaxed(m[i][j], m[i][k], m[k][j])))
  }

  ghost function ClosedBy(m: Matrix, n: nat, k: nat): (m': Matrix)
    requires IsMatrix(m, n) && k <= n
    ensures IsMatrix(m', n)
  {
    if k == 0 then m else Phase(ClosedBy(m, n, k - 1), n, k - 1)
  }

  ghost function FullClosure(m: Matrix, n: nat): (m': Matrix)
    requires IsMatrix(m, n)
    ensures IsMatrix(m', n)
  {
    ClosedBy(m, n, n)
  }

  lemma PhaseTightens(m: Matrix, n: nat, k: nat)
    requires IsMatrix(m, n) && k < n
    ensures Tightens(m, Phase(m, n, k), n)
  {
    var m' := Phase(m, n, k);
    forall t | |t| == n
      ensures Sat(m, t) <==> Sat(m', t)
    {
      if Sat(m, t) {
        forall i, j | 0 <= i < n && 0 <= j < n
          ensures Allows(m'[i][j], t[i] - t[j])
        {
          assert Allows(m[i][j], t[i] - t[j]) && Allows(m[i][k], t[i] - t[k]) && Allows(m[k][j], t[k] - t[j]);
        }
      }
      if Sat(m', t) {
        forall i, j | 0 <= i < n && 0 <= j < n
          ensures Allows(m[i][j], t[i] - t[j])
        {
          assert Allows(m'[i][j], t[i] - t[j]) && AtMost(m'[i][j], m[i][j]);
        }
      }
    }
  }

  lemma PhaseAfter(m: Matrix, m1: Matrix, n: nat, k: nat) returns (m2: Matrix)
    requires Tightens(m, m1, n) && k < n
    ensures m2 == Phase(m1, n, k) && Tightens(m, m2, n)
  {
    m2 := Phase(m1, n, k);
    PhaseTightens(m1, n, k);
    TightensTransitive(m, m1, m2, n);
  }

  lemma {:induction false} ClosedByTightens(m: Matrix, n: nat, k: nat)
    requires IsMatrix(m, n) && k <= n
    ensures Tightens(m, ClosedBy(m, n, k), n)
  {
    if k > 0 {
      var m1 := ClosedBy(m, n, k - 1);
      ClosedByTightens(m, n, k - 1);
      var m2 := PhaseAfter(m, m1, n, k - 1);
      assert m2 == ClosedBy(m, n, k);
    }
  }

  /** Entries are as tight as any path through one of the first k events. */
  ghost predicate ClosedUnder(m: Matrix, n: nat, k: nat)
    requires IsMatrix(m, n)
  {
    forall i, q, j :: 0 <= i < n && 0 <= q < n && 0 <= j < n && q < k ==> AtMostSum(m[i][j], m[i][q], m[q][j])
  }

  lemma PhaseCloses(m: Matrix, n: nat, k: nat)
    requires IsMatrix(m, n) && k < n && ClosedUnder(m, n, k) && m[k][k] == Fin(0)
    ensures ClosedUnder(Phase(m, n, k), n, k + 1)
  {
    var m' := Phase(m, n, k);
    forall i, q, j | 0 <= i < n && 0 <= q < n && 0 <= j < n && q < k + 1
      ensures AtMostSum(m'[i][j], m'[i][q], m'[q][j])
    {
      assert AtMostSum(m'[i][j], m[i][k], m[k][j]) && AtMost(m'[i][j], m[i][j]);
      if q < k {
        assert AtMostSum(m[i][j], m[i][q], m[q][j]);
        assert AtMostSum(m[i][k], m[i][q], m[q][k]);
        assert AtMostSum(m[k][j], m[k][q], m[q][j]);
        assert AtMostSum(m[k][k], m[k][q], m[q][k]);
      }
    }
  }

  /** Full closure is canonical as soon as some timing satisfies the bounds. */
  lemma {:induction false} ClosureIsCanonical(m: Matrix, n: nat, k: nat)
    requires IsMatrix(m, n) && k <= n && ZeroDiagonal(m, n, 0, n) && Satisfiable(m, n)
    ensures ClosedUnder(ClosedBy(m, n, k), n, k) && ZeroDiagonal(ClosedBy(m, n, k), n, 0, n)
    ensures k == n ==> Canonical(ClosedBy(m, n, k), n, 0, n)
  {
    if k > 0 {
      ClosureIsCanonical(m, n, k - 1);
      var m1 := ClosedBy(m, n, k - 1);
      PhaseCloses(m1, n, k - 1);
    }
    ClosedByTightens(m, n, k);
    SatisfiableKeepsDiagonal(m, ClosedBy(m, n, k), n, 0, n);
  }

  // floyds

  /** The two inner loops of floyds.  As long as the diagonal entry is 0 the
      row and the column of k stay put and the phase is the one above. */
  method FloydPhase(d: array2<Bound>, k: nat)
    requires d.Length0 == d.Length1 && k < d.Length0
    modifies d
    ensures Tightens(old(Abs(d)), Abs(d), d.Length0)
    ensures old(d[k, k]) == Fin(0) ==> Abs(d) == Phase(old(Abs(d)), d.Length0, k)
  {
    ghost var n, m := d.Length0, Abs(d);
    for i := 0 to d.Length0
      invariant Tightens(m, Abs(d), n)
      invariant m[k][k] == Fin(0) ==> forall a, c {:trigger d[a, c]} :: 0 <= a < n && 0 <= c < n ==>
        d[a, c] == if a < i then Relaxed(m[a][c], m[a][k], m[k][c]) else m[a][c]
    {
      for j := 0 to d.Length0
        invariant Tightens(m, Abs(d), n)
        invariant m[k][k] == Fin(0) ==> forall a, c {:trigger d[a, c]} :: 0 <= a < n && 0 <= c < n ==>
          d[a, c] == if a < i || (a == i && c < j) then Relaxed(m[a][c], m[a][k], m[k][c]) else m[a][c]
      {
        ghost var before := Abs(d);
        RelaxEntry(d, i, k, j);
        TightensTransitive(m, before, Abs(d), n);
      }
    }
    if m[k][k] == Fin(0) {
      SameMatrix(Abs(d), Phase(m, n, k), n);
    }
  }

  method Floyds(d: array2<Bound>)
    requires d.Length0 == d.Length1
    modifies d
    ensures Tightens(old(Abs(d)), Abs(d), d.Length0)
    ensures var n, m := d.Length0, old(Abs(d));
      ZeroDiagonal(m, n, 0, n) ==>
        && (ZeroDiagonal(Abs(d), n, 0, n) <==> Satisfiable(m, n))
        && (Satisfiable(m, n) ==> Abs(d) == FullClosure(m, n) && Canonical(Abs(d), n, 0, n))
  {
    ghost var n, m := d.Length0, Abs(d);
    for k := 0 to d.Length0
      invariant Tightens(m, Abs(d), n) && PhasesDone(m, Abs(d), n, k)
    {
      ghost var before := Abs(d);
      FloydPhase(d, k);
      TightensTransitive(m, before, Abs(d), n);
      PhaseDone(m, before, Abs(d), n, k);
    }
    ClosureDecides(m, Abs(d), n);
  }

  /** As long as the diagonal has stayed 0, the first k phases have been made. */
  ghost predicate PhasesDone(m: Matrix, m': Matrix, n: nat, k: nat)
    requires IsMatrix(m, n) && IsMatrix(m', n) && k <= n
  {
    ZeroDiagonal(m, n, 0, n) && ZeroDiagonal(m', n, 0, n) ==> m' == ClosedBy(m, n, k) && ClosedUnder(m', n, k)
  }

  lemma PhaseDone(m: Matrix, m1: Matrix, m2: Matrix, n: nat, k: nat)
    requires Tightens(m, m1, n) && Tightens(m1, m2, n) && k < n && PhasesDone(m, m1, n, k)
    requires m1[k][k] == Fin(0) ==> m2 == Phase(m1, n, k)
    ensures PhasesDone(m, m2, n, k + 1)
  {
    if ZeroDiagonal(m, n, 0, n) && ZeroDiagonal(m2, n, 0, n) {
      forall i | 0 <= i < n ensures m1[i][i] == Fin(0) {
        SandwichedZero(m[i][i], m1[i][i], m2[i][i]);
      }
      PhaseCloses(m1, n, k);
    }
  }

  lemma ClosureDecides(m: Matrix, m': Matrix, n: nat)
    requires Tightens(m, m', n) && PhasesDone(m, m', n, n)
    ensures ZeroDiagonal(m, n, 0, n) ==>
      && (ZeroDiagonal(m', n, 0, n) <==> Satisfiable(m, n))
      && (Satisfiable(m, n) ==> m' == FullClosure(m, n) && Canonical(m', n, 0, n))
  {
    if ZeroDiagonal(m, n, 0, n) && Satisfiable(m, n) {
      SatisfiableKeepsDiagonal(m, m', n, 0, n);
    }
    if ZeroDiagonal(m, n, 0, n) && ZeroDiagonal(m', n, 0, n) {
      CanonicalIsSatisfiable(m', n);
    }
  }

  // incremental_floyds

  /** Nothing outside the rows and columns lo to hi has changed. */
  ghost predicate SameOutside(m: Matrix, m': Matrix, n: nat, lo: nat, hi: nat)
    requires IsMatrix(m, n) && IsMatrix(m', n)
  {
    forall a, c :: 0 <= a < n && 0 <= c < n && !(lo <= a < hi && lo <= c < hi) ==> m'[a][c] == m[a][c]
  }

  /** Column e after comparing each entry of rows lo to hi with the path through k. */
  ghost predicate ColumnRelaxed(m: Matrix, m': Matrix, n: nat, k: nat, e: nat, lo: nat, hi: nat)
    requires IsMatrix(m, n) && IsMatrix(m', n) && k < n && e < n
  {
    forall a, c :: 0 <= a < n && 0 <= c < n ==>
      m'[a][c] == if c == e && lo <= a < hi then Relaxed(m[a][e], m[a][k], m[k][e]) else m[a][c]
  }

  ghost predicate RowRelaxed(m: Matrix, m': Matrix, n: nat, k: nat, e: nat, lo: nat, hi: nat)
    requires IsMatrix(m, n) && IsMatrix(m', n) && k < n && e < n
  {
    forall a, c {:trigger m'[a][c]} {:trigger m[a][c]} :: 0 <= a < n && 0 <= c < n ==>
      m'[a][c] == if a == e && lo <= c < hi then Relaxed(m[e][c], m[e][k], m[k][c]) else m[a][c]
  }

  ghost predicate SweptThrough(m: Matrix, m': Matrix, n: nat, e: nat, lo: nat, hi: nat)
    requires IsMatrix(m, n) && IsMatrix(m', n) && e < n
  {
    forall a, c {:trigger m'[a][c]} {:trigger m[a][c]} :: 0 <= a < n && 0 <= c < n ==>
      m'[a][c] == if lo <= a < hi && lo <= c < hi then Relaxed(m[a][c], m[a][e], m[e][c]) else m[a][c]
  }

  /** The bounds between the events lo to hi alone. */
  ghost function Block(m: Matrix, n: nat, lo: nat, hi: nat): (b: Matrix)
    requires IsMatrix(m, n) && lo <= hi <= n
    ensures IsMatrix(b, hi - lo)
    ensures forall a, c {:trigger b[a][c]} :: 0 <= a < hi - lo && 0 <= c < hi - lo ==> b[a][c] == m[lo + a][lo + c]
  {
    seq(hi - lo, a requires 0 <= a < hi - lo => seq(hi - lo, c requires 0 <= c < hi - lo => m[lo + a][lo + c]))
  }

  /** m' tightens m using only bounds between the events lo to hi. */
  ghost predicate Relaxes(m: Matrix, m': Matrix, n: nat, lo: nat, hi: nat) {
    && lo <= hi <= n && Tightens(m, m', n)
    && Tightens(Block(m, n, lo, hi), Block(m', n, lo, hi), hi - lo)
  }

  lemma RelaxesTransitive(m: Matrix, m': Matrix, m'': Matrix, n: nat, lo: nat, hi: nat)
    requires Relaxes(m, m', n, lo, hi) && Relaxes(m', m'', n, lo, hi)
    ensures Relaxes(m, m'', n, lo, hi)
  {
    TightensTransitive(m, m', m'', n);
    TightensTransitive(Block(m, n, lo, hi), Block(m', n, lo, hi), Block(m'', n, lo, hi), hi - lo);
  }

  lemma RelaxesNothing(m: Matrix, n: nat, lo: nat, hi: nat)
    requires IsMatrix(m, n) && lo <= hi <= n
    ensures Relaxes(m, m, n, lo, hi)
  {
  }

  lemma EntryRelaxes(m: Matrix, n: nat, i: nat, k: nat, j: nat, lo: nat, hi: nat)
    requires IsMatrix(m, n) && hi <= n && lo <= i < hi && lo <= k < hi && lo <= j < hi
    ensures Relaxes(m, Set(m, n, i, j, Relaxed(m[i][j], m[i][k], m[k][j])), n, lo, hi)
  {
    var b, r := Block(m, n, lo, hi), Relaxed(m[i][j], m[i][k], m[k][j]);
    RelaxTightens(m, n, i, k, j);
    RelaxTightens(b, hi - lo, i - lo, k - lo, j - lo);
    SameMatrix(Block(Set(m, n, i, j, r), n, lo, hi), Set(b, hi - lo, i - lo, j - lo, r), hi - lo);
  }

  /** One comparison among the events lo to hi. */
  method RelaxWithin(d: array2<Bound>, i: nat, k: nat, j: nat, ghost lo: nat, ghost hi: nat)
    requires d.Length0 == d.Length1 && hi <= d.Length0 && lo <= i < hi && lo <= k < hi && lo <= j < hi
    modifies d
    ensures d[i, j] == Relaxed(old(d[i, j]), old(d[i, k]), old(d[k, j]))
    ensures forall a, c :: 0 <= a < d.Length0 && 0 <= c < d.Length0 && !(a == i && c == j) ==> d[a, c] == old(d[a, c])
    ensures Relaxes(old(Abs(d)), Abs(d), d.Length0, lo, hi)
  {
    ghost var n, m := d.Length0, Abs(d);
    RelaxEntry(d, i, k, j);
    EntryRelaxes(m, n, i, k, j, lo, hi);
    SameMatrix(Abs(d), Set(m, n, i, j, Relaxed(m[i][j], m[i][k], m[k][j])), n);
  }

  method RelaxColumn(d: array2<Bound>, k: nat, e: nat, lo: nat, hi: nat)
    requires d.Length0 == d.Length1 && lo <= hi <= d.Length0 && lo <= k < hi && lo <= e < hi
    modifies d
    ensures Relaxes(old(Abs(d)), Abs(d), d.Length0, lo, hi)
    ensures forall a, c :: 0 <= a < d.Length0 && 0 <= c < d.Length0 && !(c == e && lo <= a < hi) ==>
      d[a, c] == old(d[a, c])
    ensures old(d[k, k]) == Fin(0) ==> ColumnRelaxed(old(Abs(d)), Abs(d), d.Length0, k, e, lo, hi)
  {
    ghost var n, m := d.Length0, Abs(d);
    RelaxesNothing(m, n, lo, hi);
    for i := lo to hi
      invariant Relaxes(m, Abs(d), n, lo, hi)
      invariant forall a, c :: 0 <= a < n && 0 <= c < n && !(c == e && lo <= a < i) ==> d[a, c] == m[a][c]
      invariant m[k][k] == Fin(0) ==> forall a {:trigger d[a, e]} :: lo <= a < i ==>
        d[a, e] == Relaxed(m[a][e], m[a][k], m[k][e])
    {
      ghost var before := Abs(d);
      RelaxWithin(d, i, k, e, lo, hi);
      RelaxesTransitive(m, before, Abs(d), n, lo, hi);
    }
  }

  method RelaxRow(d: array2<Bound>, k: nat, e: nat, lo: nat, hi: nat)
    requires d.Length0 == d.Length1 && lo <= hi <= d.Length0 && lo <= k < hi && lo <= e < hi
    modifies d
    ensures Relaxes(old(Abs(d)), Abs(d), d.Length0, lo, hi)
    ensures forall a, c :: 0 <= a < d.Length0 && 0 <= c < d.Length0 && !(a == e && lo <= c < hi) ==>
      d[a, c] == old(d[a, c])
    ensures old(d[k, k]) == Fin(0) ==> RowRelaxed(old(Abs(d)), Abs(d), d.Length0, k, e, lo, hi)
  {
    ghost var n, m := d.Length0, Abs(d);
    RelaxesNothing(m, n, lo, hi);
    for j := lo to hi
      invariant Relaxes(m, Abs(d), n, lo, hi)
      invariant forall a, c :: 0 <= a < n && 0 <= c < n && !(a == e && lo <= c < j) ==> d[a, c] == m[a][c]
      invariant m[k][k] == Fin(0) ==> forall c {:trigger d[e, c]} :: lo <= c < j ==>
        d[e, c] == Relaxed(m[e][c], m[e][k], m[k][c])
    {
      ghost var before := Abs(d);
      RelaxWithin(d, e, k, j, lo, hi);
      RelaxesTransitive(m, before, Abs(d), n, lo, hi);
    }
  }

  method SweepThrough(d: array2<Bound>, e: nat, lo: nat, hi: nat)
    requires d.Length0 == d.Length1 && hi <= d.Length0 && lo <= e < hi
    modifies d
    ensures Relaxes(old(Abs(d)), Abs(d), d.Length0, lo, hi)
    ensures SameOutside(old(Abs(d)), Abs(d), d.Length0, lo, hi)
    ensures old(d[e, e]) == Fin(0) ==> SweptThrough(old(Abs(d)), Abs(d), d.Length0, e, lo, hi)
  {
    ghost var n, m := d.Length0, Abs(d);
    RelaxesNothing(m, n, lo, hi);
    for i := lo to hi
      invariant Relaxes(m, Abs(d), n, lo, hi)
      invariant forall a, c :: 0 <= a < n && 0 <= c < n && !(lo <= a < i && lo <= c < hi) ==> d[a, c] == m[a][c]
      invariant m[e][e] == Fin(0) ==> forall a, c {:trigger d[a, c]} :: lo <= a < i && lo <= c < hi ==>
        d[a, c] == Relaxed(m[a][c], m[a][e], m[e][c])
    {
      ghost var before := Abs(d);
      assert m[e][e] == Fin(0) ==> before[e][e] == Fin(0);
      SweepRow(d, i, e, lo, hi);
      RelaxesTransitive(m, before, Abs(d), n, lo, hi);
    }
  }

  method SweepRow(d: array2<Bound>, i: nat, e: nat, lo: nat, hi: nat)
    requires d.Length0 == d.Length1 && lo <= i < hi <= d.Length0 && lo <= e < hi
    modifies d
    ensures Relaxes(old(Abs(d)), Abs(d), d.Length0, lo, hi)
    ensures forall a, c :: 0 <= a < d.Length0 && 0 <= c < d.Length0 && !(a == i && lo <= c < hi) ==>
      d[a, c] == old(d[a, c])
    ensures old(d[e, e]) == Fin(0) ==> forall c {:trigger d[i, c]} :: lo <= c < hi ==>
      d[i, c] == Relaxed(old(d[i, c]), old(d[i, e]), old(d[e, c]))
  {
    ghost var n, m := d.Length0, Abs(d);
    RelaxesNothing(m, n, lo, hi);
    for j := lo to hi
      invariant Relaxes(m, Abs(d), n, lo, hi)
      invariant forall a, c :: 0 <= a < n && 0 <= c < n && !(a == i && lo <= c < j) ==> d[a, c] == m[a][c]
      invariant m[e][e] == Fin(0) ==> forall c {:trigger d[i, c]} :: lo <= c < j ==>
        d[i, c] == Relaxed(m[i][c], m[i][e], m[e][c])
    {
      ghost var before := Abs(d);
      RelaxWithin(d, i, e, j, lo, hi);
      RelaxesTransitive(m, before, Abs(d), n, lo, hi);
    }
  }

  /** After the first k of the passes through an event below e: the last column
      and row are closed under these events, and nothing else has changed. */
  ghost predicate PassSoFar(m0: Matrix, m: Matrix, n: nat, lo: nat, e: nat, k: nat)
    requires IsMatrix(m0, n) && IsMatrix(m, n) && e < n
  {
    && (forall a, c :: 0 <= a < n && 0 <= c < n && a != e && c != e ==> m[a][c] == m0[a][c])
    && (forall i, q {:trigger m[i][q]} {:trigger m[i][e], m[q][e]} :: lo <= i < e && lo <= q < e && q < k ==>
          AtMostSum(m[i][e], m[i][q], m[q][e]))
    && (forall j, q {:trigger m[q][j]} {:trigger m[e][j], m[e][q]} :: lo <= j < e && lo <= q < e && q < k ==>
          AtMostSum(m[e][j], m[e][q], m[q][j]))
    && (forall q {:trigger m[q][e]} {:trigger m[e][q]} :: lo <= q < e && q < k ==> AtMostSum(m[e][e], m[e][q], m[q][e]))
  }

  lemma PassStep(m0: Matrix, m: Matrix, m1: Matrix, m2: Matrix, n: nat, lo: nat, e: nat, k: nat)
    requires IsMatrix(m0, n) && IsMatrix(m, n) && IsMatrix(m1, n) && IsMatrix(m2, n) && lo <= k < e < n
    requires Canonical(m0, n, lo, e) && PassSoFar(m0, m, n, lo, e, k)
    requires ColumnRelaxed(m, m1, n, k, e, lo, e + 1) && RowRelaxed(m1, m2, n, k, e, lo, e + 1)
    requires m[e][e] == m1[e][e] == m2[e][e] == Fin(0)
    ensures PassSoFar(m0, m2, n, lo, e, k + 1)
  {
    forall a, c | 0 <= a < n && 0 <= c < n && a != e && c != e
      ensures m2[a][c] == m0[a][c]
    {
      assert m2[a][c] == m1[a][c] && m1[a][c] == m[a][c];
    }
    forall i, q | lo <= i < e && lo <= q < e && q < k + 1
      ensures AtMostSum(m2[i][e], m2[i][q], m2[q][e])
    {
      PassColumn(m0, m, m1, n, lo, e, k, i, q);
    }
    forall j, q | lo <= j < e && lo <= q < e && q < k + 1
      ensures AtMostSum(m2[e][j], m2[e][q], m2[q][j])
    {
      PassRow(m0, m, m1, m2, n, lo, e, k, j, q);
    }
    forall q | lo <= q < e && q < k + 1
      ensures AtMostSum(m2[e][e], m2[e][q], m2[q][e])
    {
      PassCorner(m0, m, m1, m2, n, lo, e, k, q);
    }
  }

  lemma PassColumn(m0: Matrix, m: Matrix, m1: Matrix, n: nat, lo: nat, e: nat, k: nat, i: nat, q: nat)
    requires IsMatrix(m0, n) && IsMatrix(m, n) && IsMatrix(m1, n) && lo <= k < e < n
    requires Canonical(m0, n, lo, e) && PassSoFar(m0, m, n, lo, e, k)
    requires ColumnRelaxed(m, m1, n, k, e, lo, e + 1)
    requires lo <= i < e && lo <= q <= k
    ensures AtMostSum(m1[i][e], m1[i][q], m1[q][e])
  {
    assert AtMostSum(m1[i][e], m[i][k], m[k][e]) && AtMost(m1[i][e], m[i][e]);
    assert AtMostSum(m0[i][k], m0[i][q], m0[q][k]) && m0[k][k] == Fin(0);
    if q < k {
      assert AtMostSum(m[i][e], m[i][q], m[q][e]);
    }
  }

  lemma PassRow(m0: Matrix, m: Matrix, m1: Matrix, m2: Matrix, n: nat, lo: nat, e: nat, k: nat, j: nat, q: nat)
    requires IsMatrix(m0, n) && IsMatrix(m, n) && IsMatrix(m1, n) && IsMatrix(m2, n) && lo <= k < e < n
    requires Canonical(m0, n, lo, e) && PassSoFar(m0, m, n, lo, e, k)
    requires ColumnRelaxed(m, m1, n, k, e, lo, e + 1) && RowRelaxed(m1, m2, n, k, e, lo, e + 1)
    requires lo <= j < e && lo <= q <= k
    ensures AtMostSum(m2[e][j], m2[e][q], m2[q][j])
  {
    assert AtMostSum(m2[e][j], m1[e][k], m1[k][j]) && AtMost(m2[e][j], m1[e][j]);
    assert m1[e][j] == m[e][j] && m1[e][q] == m[e][q] && m1[e][k] == m[e][k];
    assert AtMostSum(m0[k][j], m0[k][q], m0[q][j]) && m0[k][k] == Fin(0);
    if q < k {
      assert AtMostSum(m[e][j], m[e][q], m[q][j]);
    }
  }

  lemma PassCorner(m0: Matrix, m: Matrix, m1: Matrix, m2: Matrix, n: nat, lo: nat, e: nat, k: nat, q: nat)
    requires IsMatrix(m0, n) && IsMatrix(m, n) && IsMatrix(m1, n) && IsMatrix(m2, n) && lo <= k < e < n
    requires Canonical(m0, n, lo, e) && PassSoFar(m0, m, n, lo, e, k)
    requires ColumnRelaxed(m, m1, n, k, e, lo, e + 1) && RowRelaxed(m1, m2, n, k, e, lo, e + 1)
    requires lo <= q <= k
    ensures AtMostSum(m2[e][e], m2[e][q], m2[q][e])
  {
    assert m1[k][e] == Relaxed(m[k][e], m[k][k], m[k][e]) && m[k][k] == m0[k][k] == Fin(0);
    assert m2[e][k] == Relaxed(m[e][k], m[e][k], m[k][k]);
    assert AtMostSum(m2[e][e], m[e][k], m[k][e]) && AtMost(m2[e][e], m[e][e]);
    if q < k {
      assert AtMostSum(m[e][e], m[e][q], m[q][e]);
      assert AtMostSum(m[e][k], m[e][q], m[q][k]);
      assert AtMostSum(m[k][e], m[k][q], m[q][e]) && AtMostSum(m0[k][k], m0[k][q], m0[q][k]);
      assert m2[q][e] == Relaxed(m[q][e], m[q][k], m[k][e]);
      assert m2[e][q] == Relaxed(m[e][q], m[e][k], m[k][q]);
    }
  }

  /** What the closing sweep through e makes of a finished pass. */
  lemma SweepCloses(m0: Matrix, m: Matrix, m': Matrix, n: nat, lo: nat, e: nat)
    requires IsMatrix(m0, n) && IsMatrix(m, n) && IsMatrix(m', n) && lo <= e < n
    requires Canonical(m0, n, lo, e) && PassSoFar(m0, m, n, lo, e, e) && m[e][e] == Fin(0)
    requires SweptThrough(m, m', n, e, lo, e + 1)
    requires m'[e][e] == Fin(0) && ZeroDiagonal(m', n, lo, e)
    ensures Canonical(m', n, lo, e + 1)
  {
    forall i | lo <= i < e + 1
      ensures m'[i][e] == m[i][e] && m'[e][i] == m[e][i]
    {
    }
    forall i, q, j | lo <= i < e + 1 && lo <= q < e + 1 && lo <= j < e + 1
      ensures AtMostSum(m'[i][j], m'[i][q], m'[q][j])
    {
      SweepTriangle(m0, m, m', n, lo, e, i, q, j);
    }
  }

  lemma SweepTriangle(m0: Matrix, m: Matrix, m': Matrix, n: nat, lo: nat, e: nat, i: nat, q: nat, j: nat)
    requires IsMatrix(m0, n) && IsMatrix(m, n) && IsMatrix(m', n) && lo <= e < n
    requires Canonical(m0, n, lo, e) && PassSoFar(m0, m, n, lo, e, e) && m[e][e] == Fin(0)
    requires SweptThrough(m, m', n, e, lo, e + 1)
    requires lo <= i < e + 1 && lo <= q < e + 1 && lo <= j < e + 1
    ensures AtMostSum(m'[i][j], m'[i][q], m'[q][j])
  {
    assert m'[i][j] == Relaxed(m[i][j], m[i][e], m[e][j]);
    assert m'[i][q] == Relaxed(m[i][q], m[i][e], m[e][q]);
    assert m'[q][j] == Relaxed(m[q][j], m[q][e], m[e][j]);
    if q < e {
      assert AtMostSum(m[e][e], m[e][q], m[q][e]);
      if i < e {
        assert AtMostSum(m[i][e], m[i][q], m[q][e]);
      }
      if j < e {
        assert AtMostSum(m[e][j], m[e][q], m[q][j]);
      }
      if i < e && j < e {
        assert AtMostSum(m0[i][j], m0[i][q], m0[q][j]);
      }
    }
  }

  /** m' is a sound result of the pass for event hi - 1 of m: the timings are
      the same; if the older events were in canonical form and the diagonal did
      not turn negative, all are; and if the bounds between the events of the
      range are satisfiable, these become their full closure. */
  ghost predicate IsPassResult(m: Matrix, m': Matrix, n: nat, lo: nat, hi: nat)
    requires lo < hi <= n
  {
    && Relaxes(m, m', n, lo, hi) && SameOutside(m, m', n, lo, hi)
    && (ReadyForPass(m, n, lo, hi - 1) && ZeroDiagonal(m', n, lo, hi) ==> Canonical(m', n, lo, hi))
    && (ReadyForPass(m, n, lo, hi - 1) && Satisfiable(Block(m, n, lo, hi), hi - lo) ==>
          Block(m', n, lo, hi) == FullClosure(Block(m, n, lo, hi), hi - lo))
  }

  /** One pass for the newest of the events lo to hi.  If the older ones are in
      canonical form and the diagonal does not turn negative, all of them are
      afterwards; the timings never change. */
  method IncrementalFloyds(d: array2<Bound>, lo: nat, hi: nat)
    requires d.Length0 == d.Length1 && lo < hi <= d.Length0
    modifies d
    ensures IsPassResult(old(Abs(d)), Abs(d), d.Length0, lo, hi)
  {
    var e := hi - 1;
    ghost var n, m0 := d.Length0, Abs(d);
    PassThroughAll(d, lo, e);
    ghost var m := Abs(d);
    SweepThrough(d, e, lo, hi);
    ghost var m' := Abs(d);
    assert Abs(d) == m';
    PassOutcome(m0, m, m', n, lo, e);
  }

  lemma PassOutcome(m0: Matrix, m: Matrix, m': Matrix, n: nat, lo: nat, e: nat)
    requires PassState(m0, m, n, lo, e, e) && lo <= e
    requires Relaxes(m, m', n, lo, e + 1) && SameOutside(m, m', n, lo, e + 1)
    requires m[e][e] == Fin(0) ==> SweptThrough(m, m', n, e, lo, e + 1)
    ensures IsPassResult(m0, m', n, lo, e + 1)
  {
    FinishPass(m0, m, m', n, lo, e);
    if ReadyForPass(m0, n, lo, e) && Satisfiable(Block(m0, n, lo, e + 1), e + 1 - lo) {
      BlockIsClosed(m0, m', n, lo, e);
    }
  }

  lemma BlockIsClosed(m: Matrix, m': Matrix, n: nat, lo: nat, e: nat)
    requires lo <= e < n && Relaxes(m, m', n, lo, e + 1) && ReadyForPass(m, n, lo, e)
    requires ZeroDiagonal(m', n, lo, e + 1) ==> Canonical(m', n, lo, e + 1)
    requires Satisfiable(Block(m, n, lo, e + 1), e + 1 - lo)
    ensures Block(m', n, lo, e + 1) == FullClosure(Block(m, n, lo, e + 1), e + 1 - lo)
  {
    BlockOfCanonical(m, n, lo, e, e + 1);
    BlockOfCanonical(m', n, lo, e + 1, e + 1);
    OnePassIsFullClosure(Block(m, n, lo, e + 1), Block(m', n, lo, e + 1), e + 1 - lo);
  }

  lemma BlockOfCanonical(m: Matrix, n: nat, lo: nat, e: nat, hi: nat)
    requires IsMatrix(m, n) && lo <= e <= hi <= n
    ensures Canonical(Block(m, n, lo, hi), hi - lo, 0, e - lo) <==> Canonical(m, n, lo, e)
    ensures ZeroDiagonal(Block(m, n, lo, hi), hi - lo, 0, e - lo) <==> ZeroDiagonal(m, n, lo, e)
    ensures e < hi ==> Block(m, n, lo, hi)[e - lo][e - lo] == m[e][e]
  {
    var b := Block(m, n, lo, hi);
    forall i | lo <= i < e ensures b[i - lo][i - lo] == m[i][i] {
    }
    if Canonical(m, n, lo, e) {
      forall i, k, j | 0 <= i < e - lo && 0 <= k < e - lo && 0 <= j < e - lo
        ensures AtMostSum(b[i][j], b[i][k], b[k][j])
      {
        assert AtMostSum(m[lo + i][lo + j], m[lo + i][lo + k], m[lo + k][lo + j]);
      }
    }
    if Canonical(b, hi - lo, 0, e - lo) {
      forall i, k, j | lo <= i < e && lo <= k < e && lo <= j < e
        ensures AtMostSum(m[i][j], m[i][k], m[k][j])
      {
        assert AtMostSum(b[i - lo][j - lo], b[i - lo][k - lo], b[k - lo][j - lo]);
      }
    }
  }

  /** One incremental pass refines full Floyd-Warshall: any tightening that is
      canonical is the full closure. */
  lemma OnePassIsFullClosure(m: Matrix, m': Matrix, n: nat)
    requires n > 0 && IsMatrix(m, n) && ReadyForPass(m, n, 0, n - 1) && Satisfiable(m, n) && Tightens(m, m', n)
    requires ZeroDiagonal(m', n, 0, n) ==> Canonical(m', n, 0, n)
    ensures m' == FullClosure(m, n)
  {
    ClosureIsCanonical(m, n, n);
    ClosedByTightens(m, n, n);
    CanonicalTightening(m, m', FullClosure(m, n), n);
  }

  lemma CanonicalTightening(m: Matrix, m': Matrix, c: Matrix, n: nat)
    requires Tightens(m, m', n) && Tightens(m, c, n) && ZeroDiagonal(m, n, 0, n) && Satisfiable(m, n)
    requires ZeroDiagonal(m', n, 0, n) ==> Canonical(m', n, 0, n)
    requires Canonical(c, n, 0, n)
    ensures m' == c
  {
    SatisfiableKeepsDiagonal(m, m', n, 0, n);
    CanonicalTighteningsAgree(m, m', c, n);
  }

  lemma CanonicalTighteningsAgree(m: Matrix, a: Matrix, b: Matrix, n: nat)
    requires Tightens(m, a, n) && Tightens(m, b, n) && Canonical(a, n, 0, n) && Canonical(b, n, 0, n)
    ensures a == b
  {
    assert SameTimings(a, b, n);
    CanonicalIsUnique(a, b, n);
    forall i, j | 0 <= i < n && 0 <= j < n
      ensures a[i][j] == b[i][j]
    {
      assert AtMost(a[i][j], b[i][j]) && AtMost(b[i][j], a[i][j]);
    }
    SameMatrix(a, b, n);
  }

  lemma CanonicalIsClosure(m: Matrix, m': Matrix, n: nat)
    requires Tightens(m, m', n) && ZeroDiagonal(m, n, 0, n) && Satisfiable(m, n) && Canonical(m', n, 0, n)
    ensures m' == FullClosure(m, n)
  {
    ClosureIsCanonical(m, n, n);
    ClosedByTightens(m, n, n);
    CanonicalTighteningsAgree(m, m', FullClosure(m, n), n);
  }

  lemma PassStart(m: Matrix, n: nat, lo: nat, e: nat)
    requires IsMatrix(m, n) && lo <= e < n
    ensures PassState(m, m, n, lo, e, lo)
  {
  }

  ghost function SmallerOf(k: nat, e: nat): nat {
    if k < e then k else e
  }

  lemma FinishPass(m0: Matrix, m: Matrix, m': Matrix, n: nat, lo: nat, e: nat)
    requires PassState(m0, m, n, lo, e, e) && lo <= e
    requires Relaxes(m, m', n, lo, e + 1) && SameOutside(m, m', n, lo, e + 1)
    requires m[e][e] == Fin(0) ==> SweptThrough(m, m', n, e, lo, e + 1)
    ensures Relaxes(m0, m', n, lo, e + 1) && SameOutside(m0, m', n, lo, e + 1)
    ensures ReadyForPass(m0, n, lo, e) && ZeroDiagonal(m', n, lo, e + 1) ==> Canonical(m', n, lo, e + 1)
  {
    RelaxesTransitive(m0, m, m', n, lo, e + 1);
    if ReadyForPass(m0, n, lo, e) && ZeroDiagonal(m', n, lo, e + 1) {
      SandwichedZero(m0[e][e], m[e][e], m'[e][e]);
      SweepCloses(m0, m, m', n, lo, e);
    }
  }

  lemma SandwichedZero(a: Bound, b: Bound, c: Bound)
    requires a == Fin(0) && AtMost(b, a) && AtMost(c, b) && c == Fin(0)
    ensures b == Fin(0)
  {
  }

  ghost predicate ReadyForPass(m: Matrix, n: nat, lo: nat, e: nat)
    requires IsMatrix(m, n) && e < n
  {
    Canonical(m, n, lo, e) && m[e][e] == Fin(0)
  }

  /** What holds during a pass for e whatever the matrix is. */
  ghost predicate PassFrame(m0: Matrix, m: Matrix, n: nat, lo: nat, e: nat) {
    && e < n && Relaxes(m0, m, n, lo, e + 1)
    && SameOutside(m0, m, n, lo, e + 1)
    && forall a, c :: 0 <= a < n && 0 <= c < n && a != e && c != e ==> m[a][c] == m0[a][c]
  }

  ghost predicate PassState(m0: Matrix, m: Matrix, n: nat, lo: nat, e: nat, k: nat) {
    && PassFrame(m0, m, n, lo, e)
    && (ReadyForPass(m0, n, lo, e) && m[e][e] == Fin(0) ==> PassSoFar(m0, m, n, lo, e, k))
  }

  method PassThroughAll(d: array2<Bound>, lo: nat, e: nat)
    requires d.Length0 == d.Length1 && lo <= e < d.Length0
    modifies d
    ensures PassState(old(Abs(d)), Abs(d), d.Length0, lo, e, e)
  {
    ghost var n, m0 := d.Length0, Abs(d);
    PassStart(m0, n, lo, e);
    for k := lo to e + 1
      invariant PassState(m0, Abs(d), n, lo, e, SmallerOf(k, e))
    {
      PassThrough(d, k, lo, e, m0);
    }
  }

  /** One round of the loop over k. */
  method PassThrough(d: array2<Bound>, k: nat, lo: nat, e: nat, ghost m0: Matrix)
    requires d.Length0 == d.Length1 && lo <= k <= e < d.Length0
    requires PassState(m0, Abs(d), d.Length0, lo, e, k)
    modifies d
    ensures PassState(m0, Abs(d), d.Length0, lo, e, SmallerOf(k + 1, e))
  {
    ghost var m := Abs(d);
    RelaxColumn(d, k, e, lo, e + 1);
    ghost var m1 := Abs(d);
    RelaxRow(d, k, e, lo, e + 1);
    RoundDone(m0, m, m1, Abs(d), d.Length0, lo, e, k);
  }

  lemma RoundDone(m0: Matrix, m: Matrix, m1: Matrix, m2: Matrix, n: nat, lo: nat, e: nat, k: nat)
    requires PassState(m0, m, n, lo, e, k) && lo <= k <= e
    requires Relaxes(m, m1, n, lo, e + 1) && Relaxes(m1, m2, n, lo, e + 1)
    requires forall a, c :: 0 <= a < n && 0 <= c < n && !(c == e && lo <= a < e + 1) ==> m1[a][c] == m[a][c]
    requires forall a, c :: 0 <= a < n && 0 <= c < n && !(a == e && lo <= c < e + 1) ==> m2[a][c] == m1[a][c]
    requires m[k][k] == Fin(0) ==> ColumnRelaxed(m, m1, n, k, e, lo, e + 1)
    requires m1[k][k] == Fin(0) ==> RowRelaxed(m1, m2, n, k, e, lo, e + 1)
    ensures PassState(m0, m2, n, lo, e, SmallerOf(k + 1, e))
  {
    RelaxesTransitive(m0, m, m1, n, lo, e + 1);
    RelaxesTransitive(m0, m1, m2, n, lo, e + 1);
    if ReadyForPass(m0, n, lo, e) && m2[e][e] == Fin(0) {
      SandwichedZero(m0[e][e], m1[e][e], m2[e][e]);
      SandwichedZero(m0[e][e], m[e][e], m1[e][e]);
      assert m[k][k] == Fin(0) && m1[k][k] == Fin(0);
      PassRound(m0, m, m1, m2, n, lo, e, k);
    }
  }

  lemma PassRound(m0: Matrix, m: Matrix, m1: Matrix, m2: Matrix, n: nat, lo: nat, e: nat, k: nat)
    requires IsMatrix(m0, n) && IsMatrix(m, n) && IsMatrix(m1, n) && IsMatrix(m2, n) && lo <= k <= e < n
    requires Canonical(m0, n, lo, e) && PassSoFar(m0, m, n, lo, e, k)
    requires ColumnRelaxed(m, m1, n, k, e, lo, e + 1) && RowRelaxed(m1, m2, n, k, e, lo, e + 1)
    requires m[e][e] == m1[e][e] == m2[e][e] == Fin(0)
    ensures PassSoFar(m0, m2, n, lo, e, SmallerOf(k + 1, e))
  {
    if k < e {
      PassStep(m0, m, m1, m2, n, lo, e, k);
    } else {
      SameMatrix(m1, m, n);
      forall a, c | 0 <= a < n && 0 <= c < n
        ensures m2[a][c] == m[a][c]
      {
        assert Relaxed(m[e][c], Fin(0), m[e][c]) == m[e][c];
        assert m1[e][k] == Fin(0);
      }
      SameMatrix(m2, m, n);
    }
  }
}
