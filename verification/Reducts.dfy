/** What is left of a table after reduce: where its rows, its '1's and its
    taken columns come from. */
module Reducts {
  import opened CoverTable
  import opened RowReduction
  import opened ColumnReduction
  import opened TableReduction

  // Rows

  ghost predicate HasOneAt(F: seq<string>, i: nat)
    requires forall p :: 0 <= p < |F| ==> i < |F[p]|
  {
    exists p :: 0 <= p < |F| && F[p][i] == '1'
  }

  /** Columns that cover a row of F' cover one of F already. */
  ghost predicate NoNewOnes(F: seq<string>, F': seq<string>, n: nat)
    requires IsTable(F, n) && IsTable(F', n)
  {
    forall p, i :: 0 <= p < |F'| && 0 <= i < n && F'[p][i] == '1' ==> HasOneAt(F, i)
  }

  lemma NoNewOnesTransitive(F: seq<string>, F': seq<string>, F'': seq<string>, n: nat)
    requires IsTable(F, n) && IsTable(F', n) && IsTable(F'', n)
    requires NoNewOnes(F, F', n) && NoNewOnes(F', F'', n)
    ensures NoNewOnes(F, F'', n)
  {
    forall p, i | 0 <= p < |F''| && 0 <= i < n && F''[p][i] == '1' ensures HasOneAt(F, i) {
      assert HasOneAt(F', i);
      var q :| 0 <= q < |F'| && F'[q][i] == '1';
    }
  }

  lemma RowsOf(F: seq<string>, F': seq<string>, n: nat)
    requires IsTable(F, n) && IsTable(F', n) && forall p :: 0 <= p < |F'| ==> F'[p] in F
    ensures NoNewOnes(F, F', n)
  {
    forall p, i | 0 <= p < |F'| && 0 <= i < n && F'[p][i] == '1' ensures HasOneAt(F, i) {
      assert F'[p] in F;
      var q :| 0 <= q < |F| && F[q] == F'[p];
      assert F[q][i] == '1';
    }
  }

  /** Every row of F is solved by sol or has a row of F' inside it. */
  ghost predicate AccountsFor(F: seq<string>, F': seq<string>, sol: string)
    requires IsTable(F, |sol|) && IsTable(F', |sol|)
  {
    forall q :: 0 <= q < |F| ==> Solved(F[q], sol) || HoldsRow(F', F[q])
  }

  ghost predicate HoldsRow(F: seq<string>, row: string)
    requires IsTable(F, |row|)
  {
    exists p :: 0 <= p < |F| && Included(F[p], row)
  }

  ghost predicate TakesMore(sol: string, sol': string) {
    |sol'| == |sol| && forall i :: 0 <= i < |sol| && sol[i] == '1' ==> sol'[i] == '1'
  }

  /** What rounds without a column pass make of a table. */
  ghost predicate IsRowReduct(F: seq<string>, sol: string, r: Reduct)
    requires IsTable(F, |sol|)
  {
    && IsReduct(r, |sol|) && TakesMore(sol, r.sol)
    && (forall p :: 0 <= p < |r.F| ==> r.F[p] in F)
    && AccountsFor(F, r.F, r.sol)
    && (forall i :: 0 <= i < |sol| && r.sol[i] == '1' && sol[i] != '1' ==> EssentialIn(F, i))
  }

  lemma RowPassIsReduct(F: seq<string>, sol: string)
    requires IsReduct(Reduct(F, sol), |sol|)
    ensures IsRowReduct(F, sol, RowPass(F, sol))
    ensures forall i :: 0 <= i < |sol| && EssentialIn(F, i) ==> RowPass(F, sol).sol[i] == '1'
  {
    RowPassRows(F, sol);
    var r := RowPass(F, sol);
    var F' := Unsolved(F, r.sol, |F|);
    UnsolvedRows(F, r.sol, |F|);
    forall q | 0 <= q < |F| && !Solved(F[q], r.sol) ensures HoldsRow(r.F, F[q]) {
      assert F[q] in F';
      var p :| 0 <= p < |F'| && F'[p] == F[q];
      SurvivorInside(F', |sol|, p);
      var k :| 0 <= k < |F'| && !Superfluous(F', k) && Included(F'[k], F'[p]);
      SurvivingRows(F', |sol|, |F'|);
      assert F'[k] in r.F;
    }
  }

  lemma RowReductTransitive(F: seq<string>, sol: string, r: Reduct, r': Reduct)
    requires IsReduct(Reduct(F, sol), |sol|) && IsRowReduct(F, sol, r) && IsRowReduct(r.F, r.sol, r')
    ensures IsRowReduct(F, sol, r')
  {
    forall q | 0 <= q < |F| && !Solved(F[q], r'.sol) ensures HoldsRow(r'.F, F[q]) {
      StillUnsolved(F[q], r.sol, r'.sol);
      var p :| 0 <= p < |r.F| && Included(r.F[p], F[q]);
      if Solved(r.F[p], r'.sol) {
        SolvedInside(r.F[p], F[q], r'.sol, |sol|);
      }
      var k :| 0 <= k < |r'.F| && Included(r'.F[k], r.F[p]);
      IncludedTransitive(r'.F[k], r.F[p], F[q]);
    }
    forall i | 0 <= i < |sol| && EssentialIn(r.F, i) ensures EssentialIn(F, i) {
      var p :| 0 <= p < |r.F| && IsSoleOne(r.F[p], i);
      assert r.F[p] in F;
      var q :| 0 <= q < |F| && F[q] == r.F[p];
    }
  }

  lemma StillUnsolved(row: string, sol: string, sol': string)
    requires |row| == |sol| && TakesMore(sol, sol') && !Solved(row, sol')
    ensures !Solved(row, sol)
  {
  }

  lemma SolvedInside(row: string, row': string, sol: string, n: nat)
    requires IsRow(row, n) && IsRow(row', n) && |sol| == n && Included(row, row') && Solved(row, sol)
    ensures Solved(row', sol)
  {
    var i :| 0 <= i < n && row[i] == '1' && sol[i] == '1';
    assert row'[i] == '1';
  }

  lemma {:induction false} RowRoundsIsReduct(F: seq<string>, sol: string)
    requires IsReduct(Reduct(F, sol), |sol|)
    ensures IsRowReduct(F, sol, RowRounds(F, sol))
    ensures forall i :: 0 <= i < |sol| && EssentialIn(F, i) ==> RowRounds(F, sol).sol[i] == '1'
    decreases |F|
  {
    if F != [] {
      RowPassIsReduct(F, sol);
      if HasWork(F, sol) {
        var r := RowPass(F, sol);
        WorkShortens(F, sol);
        RowRoundsIsReduct(r.F, r.sol);
        RowReductTransitive(F, sol, r, RowRounds(r.F, r.sol));
      }
    }
  }

  lemma GivenUpNoNewOnes(F: seq<string>, sol: string, F': seq<string>, sol': string, cost: seq<int>)
    requires ColumnsGivenUp(F, sol, F', sol', cost)
    ensures NoNewOnes(F, F', |sol|)
  {
    forall p, i | 0 <= p < |F'| && 0 <= i < |sol| && F'[p][i] == '1' ensures HasOneAt(F, i) {
      assert sol'[i] == '-';
      assert SameColumn(F, F', |sol|, i);
    }
  }

  lemma ReducedNoNewOnes(F: seq<string>, sol: string, cost: seq<int>)
    requires WellFormed(F, sol) && |cost| == |sol|
    ensures NoNewOnes(F, Reduced(F, sol, cost).F, |sol|)
  {
    if F != [] {
      var e := RowPass(F, sol);
      var c := ColumnPass(e.F, e.sol, cost);
      RowPassKeeps(F, sol);
      RowPassRows(F, sol);
      RowsOf(F, e.F, |sol|);
      ColumnPassKeepsOptimum(e.F, e.sol, cost);
      GivenUpNoNewOnes(e.F, e.sol, c.F, c.sol, cost);
      NoNewOnesTransitive(F, e.F, c.F, |sol|);
      RowRoundsIsReduct(c.F, c.sol);
      RowsOf(c.F, RowRounds(c.F, c.sol).F, |sol|);
      NoNewOnesTransitive(F, c.F, RowRounds(c.F, c.sol).F, |sol|);
    }
  }

  /** The stages of reduce: e after the first row passes, c after the column
      pass, and the reduct after all further rounds. */
  ghost predicate IsStaged(F: seq<string>, sol: string, cost: seq<int>, e: Reduct, c: Reduct, r: Reduct)
    requires IsReduct(Reduct(F, sol), |cost|)
  {
    && IsReduct(e, |cost|) && IsReduct(c, |cost|)
    && WellFormed(e.F, e.sol) && (forall i :: !EssentialIn(e.F, i)) && IsRowReduct(F, sol, e)
    && ColumnsGivenUp(e.F, e.sol, c.F, c.sol, cost) && NoColumnYields(c.F, |cost|, cost)
    && IsRowReduct(c.F, c.sol, r)
    && (forall i :: 0 <= i < |cost| && EssentialIn(c.F, i) ==> r.sol[i] == '1')
  }

  lemma ReducedIsStaged(F: seq<string>, sol: string, cost: seq<int>) returns (e: Reduct, c: Reduct)
    requires WellFormed(F, sol) && |cost| == |sol| && F != []
    ensures IsStaged(F, sol, cost, e, c, Reduced(F, sol, cost))
  {
    e := RowPass(F, sol);
    var pass := ColumnPass(e.F, e.sol, cost);
    c := Reduct(pass.F, pass.sol);
    RowPassKeeps(F, sol);
    RowPassRows(F, sol);
    RowPassIsReduct(F, sol);
    ColumnPassKeepsOptimum(e.F, e.sol, cost);
    RowRoundsIsReduct(c.F, c.sol);
    ItsOwnReduct(c.F, c.sol);
  }

  lemma ItsOwnReduct(F: seq<string>, sol: string)
    requires IsReduct(Reduct(F, sol), |sol|)
    ensures IsRowReduct(F, sol, Reduct(F, sol))
  {
    forall q | 0 <= q < |F| ensures HoldsRow(F, F[q]) {
      assert Included(F[q], F[q]);
    }
  }

  // No row is left that has been solved

  lemma {:induction false} RowRoundsSolveNone(F: seq<string>, sol: string)
    requires IsReduct(Reduct(F, sol), |sol|)
    ensures NoneSolved(RowRounds(F, sol).F, RowRounds(F, sol).sol)
    decreases |F|
  {
    if F != [] {
      RowPassRows(F, sol);
      if HasWork(F, sol) {
        WorkShortens(F, sol);
        RowRoundsSolveNone(RowPass(F, sol).F, RowPass(F, sol).sol);
      }
    }
  }

  lemma ReducedSolvesNone(F: seq<string>, sol: string, cost: seq<int>)
    requires IsReduct(Reduct(F, sol), |sol|) && |cost| == |sol|
    ensures NoneSolved(Reduced(F, sol, cost).F, Reduced(F, sol, cost).sol)
  {
    if F != [] {
      var e := RowPass(F, sol);
      var c := ColumnPass(e.F, e.sol, cost);
      RowPassRows(F, sol);
      AllSettledSolvesNone(AllColumns(e.F, e.sol), cost, 0);
      RowRoundsSolveNone(c.F, c.sol);
    }
  }
}
