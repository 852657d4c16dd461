/** reduce of src/bcp.c: the loop that repeats the reductions. */
module TableReduction {
  import opened CoverTable
  import opened RowReduction
  import opened ColumnReduction

  // What a round leaves

  /** No row lies inside another. */
  ghost predicate Incomparable(F: seq<string>, n: nat)
    requires IsTable(F, n)
  {
    forall p, q :: 0 <= p < |F| && 0 <= q < |F| && p != q ==> !Included(F[q], F[p])
  }

  /** Nothing for the first two reductions to do: no row has a single '1', and
      no row lies inside another. */
  ghost predicate Irredundant(F: seq<string>, n: nat)
    requires IsTable(F, n)
  {
    (forall i :: !EssentialIn(F, i)) && Incomparable(F, n)
  }

  lemma {:induction false} SurvivorsAreIncomparable(F: seq<string>, n: nat, k: nat)
    requires k <= |F| && IsTable(F, n)
    ensures IsTable(Surviving(F, n, k), n) && Incomparable(Surviving(F, n, k), n)
  {
    if k > 0 {
      SurvivorsAreIncomparable(F, n, k - 1);
      SurvivingRows(F, n, k - 1);
      var rest := Surviving(F, n, k - 1);
      assert Surviving(F, n, k) == if Superfluous(F, k - 1) then rest else [F[k - 1]] + rest;
      if !Superfluous(F, k - 1) {
        forall q | 0 <= q < |rest|
          ensures !Included(rest[q], F[k - 1]) && !Included(F[k - 1], rest[q])
        {
          assert rest[q] in rest;
          var p :| 0 <= p < k - 1 && F[p] == rest[q] && !Superfluous(F, p);
          assert !MakesSuperfluous(F, k - 1, p) && !MakesSuperfluous(F, p, k - 1);
        }
      }
    }
  }

  // A reduced table is left alone

  ghost predicate IsReduced(F: seq<string>, cost: seq<int>) {
    IsTable(F, |cost|) && Irredundant(F, |cost|) && NoColumnYields(F, |cost|, cost)
  }

  ghost function Reversed(F: seq<string>, k: nat): seq<string>
    requires k <= |F|
  {
    if k == 0 then [] else [F[k - 1]] + Reversed(F, k - 1)
  }

  lemma {:induction false} ReversedAt(F: seq<string>, k: nat)
    requires k <= |F|
    ensures |Reversed(F, k)| == k && forall i :: 0 <= i < k ==> Reversed(F, k)[i] == F[k - 1 - i]
  {
    if k > 0 {
      ReversedAt(F, k - 1);
    }
  }

  lemma {:induction false} NothingSolved(F: seq<string>, sol: string, k: nat)
    requires k <= |F| && WellFormed(F, sol)
    ensures Unsolved(F, sol, k) == Reversed(F, k)
  {
    if k > 0 {
      NothingSolved(F, sol, k - 1);
      assert !Solved(F[k - 1], sol);
    }
  }

  lemma {:induction false} NothingSuperfluous(F: seq<string>, n: nat, k: nat)
    requires k <= |F| && IsTable(F, n) && Incomparable(F, n)
    ensures Surviving(F, n, k) == Reversed(F, k)
  {
    if k > 0 {
      NothingSuperfluous(F, n, k - 1);
      assert !Superfluous(F, k - 1);
    }
  }

  lemma ReversedIncomparable(F: seq<string>, n: nat)
    requires IsTable(F, n) && Incomparable(F, n)
    ensures IsTable(Reversed(F, |F|), n) && Incomparable(Reversed(F, |F|), n)
  {
    ReversedAt(F, |F|);
    MirrorIncomparable(F, Reversed(F, |F|), n);
  }

  lemma MirrorIncomparable(F: seq<string>, G: seq<string>, n: nat)
    requires IsTable(F, n) && Incomparable(F, n) && |G| == |F|
    requires forall p {:trigger G[p]} :: 0 <= p < |G| ==> G[p] == F[|F| - 1 - p]
    ensures IsTable(G, n) && Incomparable(G, n)
  {
  }

  lemma ReversedTwice(F: seq<string>)
    ensures |Reversed(F, |F|)| == |F| && Reversed(Reversed(F, |F|), |F|) == F
  {
    ReversedAt(F, |F|);
    ReversedAt(Reversed(F, |F|), |F|);
  }

  /** The first two passes each reverse a reduced table. */
  lemma PassesReverseTwice(F: seq<string>, sol: string)
    requires WellFormed(F, sol) && Incomparable(F, |sol|)
    ensures IsTable(Unsolved(F, sol, |F|), |sol|)
    ensures Surviving(Unsolved(F, sol, |F|), |sol|, |Unsolved(F, sol, |F|)|) == F
  {
    NothingSolved(F, sol, |F|);
    ReversedIncomparable(F, |sol|);
    ReversedTwice(F);
    NothingSuperfluous(Reversed(F, |F|), |sol|, |F|);
  }

  lemma NothingGivenUp(F: seq<string>, sol: string, F': seq<string>, sol': string, cost: seq<int>)
    requires ColumnsGivenUp(F, sol, F', sol', cost) && NoColumnYields(F, |sol|, cost)
    ensures F' == F && sol' == sol
  {
    forall k | 0 <= k < |sol| ensures sol'[k] == sol[k] && SameColumn(F, F', |sol|, k) {
      assert !HasStayingDominator(F, sol', cost, k);
    }
    forall p, k | 0 <= p < |F| && 0 <= k < |sol| ensures F'[p][k] == F[p][k] {
      assert SameColumn(F, F', |sol|, k);
    }
    SameTable(F', F, |sol|);
  }

  // The loop as a function

  datatype Reduct = Reduct(F: seq<string>, sol: string)

  ghost predicate IsReduct(r: Reduct, n: nat) {
    |r.sol| == n && IsTable(r.F, n) && IsPartial(r.sol)
  }

  /** The first two passes of a round. */
  ghost function RowPass(F: seq<string>, sol: string): (r: Reduct)
    requires IsReduct(Reduct(F, sol), |sol|)
    ensures IsReduct(r, |sol|) && r.sol == WithEssentials(F, sol)
    ensures IsTable(Unsolved(F, r.sol, |F|), |sol|)
    ensures r.F == Surviving(Unsolved(F, r.sol, |F|), |sol|, |Unsolved(F, r.sol, |F|)|)
  {
    var sol' := WithEssentials(F, sol);
    UnsolvedRows(F, sol', |F|);
    var F' := Unsolved(F, sol', |F|);
    SurvivingRows(F', |sol|, |F'|);
    Reduct(Surviving(F', |sol|, |F'|), sol')
  }

  /** What makes these passes report a change. */
  ghost predicate HasWork(F: seq<string>, sol: string)
    requires IsReduct(Reduct(F, sol), |sol|)
  {
    || (exists i :: EssentialIn(F, i))
    || HasSuperfluous(Unsolved(F, RowPass(F, sol).sol, |F|))
  }

  ghost predicate HasSuperfluous(F: seq<string>)
    requires exists n :: IsTable(F, n)
  {
    exists p :: 0 <= p < |F| && Superfluous(F, p)
  }

  lemma WorkShortens(F: seq<string>, sol: string)
    requires IsReduct(Reduct(F, sol), |sol|)
    ensures |RowPass(F, sol).F| <= |F| && (HasWork(F, sol) ==> |RowPass(F, sol).F| < |F|)
  {
    var sol' := WithEssentials(F, sol);
    var F' := Unsolved(F, sol', |F|);
    UnsolvedRows(F, sol', |F|);
    UnsolvedCount(F, sol', |F|);
    SurvivingCount(F', |sol|, |F'|);
    if exists i :: EssentialIn(F, i) {
      EssentialRowIsSolved(F, sol');
    }
  }

  /** The rounds after the first, which leave the columns alone. */
  ghost function RowRounds(F: seq<string>, sol: string): (r: Reduct)
    requires IsReduct(Reduct(F, sol), |sol|)
    ensures IsReduct(r, |sol|)
    decreases |F|
  {
    if F == [] then Reduct(F, sol)
    else if HasWork(F, sol) then
      WorkShortens(F, sol);
      RowRounds(RowPass(F, sol).F, RowPass(F, sol).sol)
    else RowPass(F, sol)
  }

  ghost function Reduced(F: seq<string>, sol: string, cost: seq<int>): (r: Reduct)
    requires IsReduct(Reduct(F, sol), |sol|) && |cost| == |sol|
    ensures IsReduct(r, |sol|)
  {
    if F == [] then Reduct(F, sol)
    else
      var e := RowPass(F, sol);
      var c := ColumnPass(e.F, e.sol, cost);
      if HasWork(F, sol) || c.gone != Chosen(e.sol) then RowRounds(c.F, c.sol) else Reduct(c.F, c.sol)
  }

  /** Repeats the reductions, the column pass in the first round only, until a
      round changes nothing or no row is left. */
  method Reduce(Sol: TableSol, cost: seq<int>) returns (NewSol: TableSol)
    requires Sol.Valid() && |cost| == Sol.size
    ensures NewSol.Valid() && NewSol.size == Sol.size && NewSol.cost == Sol.cost
    ensures if Sol.F == [] then NewSol == Sol else fresh(NewSol) && fresh(NewSol.currentSol)
    ensures Reduct(NewSol.F, NewSol.currentSol[..]) == Reduced(Sol.F, Sol.currentSol[..], cost)
  {
    NewSol := Sol;
    var changed, first := true, false;
    ghost var goal := Reduced(Sol.F, Sol.currentSol[..], cost);
    while NewSol.F != [] && changed
      invariant NewSol.Valid() && NewSol.size == Sol.size && NewSol.cost == Sol.cost
      invariant if Sol.F == [] || !first then NewSol == Sol else fresh(NewSol) && fresh(NewSol.currentSol)
      invariant first && changed ==> goal == RowRounds(NewSol.F, NewSol.currentSol[..])
      invariant first && !changed ==> goal == Reduct(NewSol.F, NewSol.currentSol[..])
      invariant !first ==> changed
      decreases !first, changed, |NewSol.F|
    {
      WorkShortens(NewSol.F, NewSol.currentSol[..]);
      NewSol, changed := ReduceOnce(NewSol, first, cost);
      first := true;
    }
  }

  /** One round of reduce. */
  method ReduceOnce(Sol: TableSol, first: bool, cost: seq<int>) returns (NewSol: TableSol, changed: bool)
    requires Sol.Valid() && |cost| == Sol.size
    ensures fresh(NewSol) && fresh(NewSol.currentSol) && NewSol.Valid()
    ensures NewSol.size == Sol.size && NewSol.cost == Sol.cost
    ensures var e := RowPass(Sol.F, Sol.currentSol[..]);
      if first then
        && Reduct(NewSol.F, NewSol.currentSol[..]) == e
        && changed == HasWork(Sol.F, Sol.currentSol[..])
      else
        var c := ColumnPass(e.F, e.sol, cost);
        && NewSol.F == c.F && NewSol.currentSol[..] == c.sol
        && changed == (HasWork(Sol.F, Sol.currentSol[..]) || c.gone != Chosen(e.sol))
  {
    var Sol1, c1 := FindEssential(Sol, false);
    NewSol, changed := RmDominatingRows(Sol1, c1);
    if !first {
      changed := RmDominatedCols(NewSol, changed, cost);
    }
  }

  lemma EssentialRowIsSolved(F: seq<string>, sol': string)
    requires IsTable(F, |sol'|) && exists i :: EssentialIn(F, i)
    requires forall i :: 0 <= i < |sol'| && EssentialIn(F, i) ==> sol'[i] == '1'
    ensures |Unsolved(F, sol', |F|)| < |F|
  {
    var i :| EssentialIn(F, i);
    var p :| 0 <= p < |F| && IsSoleOne(F[p], i);
    assert Solved(F[p], sol');
    UnsolvedCount(F, sol', |F|);
  }

  // What the loop keeps

  /** The rows left are rows from before, none of them solved and none with a
      single '1'. */
  lemma RowPassRows(F: seq<string>, sol: string)
    requires IsReduct(Reduct(F, sol), |sol|)
    ensures var r := RowPass(F, sol);
      && (forall i :: !EssentialIn(r.F, i))
      && forall p :: 0 <= p < |r.F| ==> r.F[p] in F && !Solved(r.F[p], r.sol)
  {
    var r := RowPass(F, sol);
    var F' := Unsolved(F, r.sol, |F|);
    UnsolvedRows(F, r.sol, |F|);
    SurvivingRows(F', |sol|, |F'|);
    forall p | 0 <= p < |r.F| ensures r.F[p] in F && !Solved(r.F[p], r.sol) {
      assert r.F[p] in r.F;
      assert r.F[p] in F';
    }
    forall i, p | 0 <= p < |r.F| ensures !IsSoleOne(r.F[p], i) {
      var q :| 0 <= q < |F| && F[q] == r.F[p];
      assert IsSoleOne(F[q], i) ==> EssentialIn(F, i);
    }
  }

  lemma RowPassKeeps(F: seq<string>, sol: string)
    requires WellFormed(F, sol)
    ensures var r := RowPass(F, sol);
      WellFormed(r.F, r.sol) && SameCompletions(F, sol, r.F, r.sol)
  {
    var r := RowPass(F, sol);
    var F' := Unsolved(F, r.sol, |F|);
    EssentialStaysWellFormed(F, sol, r.sol);
    EssentialKeepsCompletions(F, sol, r.sol);
    DominanceKeepsCompletions(F', r.sol);
    SurvivingAreRows(F', |sol|);
    forall p, i | 0 <= p < |r.F| && 0 <= i < |r.sol| && r.sol[i] != '-' ensures r.F[p][i] == '0' {
      assert r.F[p] in F';
      var q :| 0 <= q < |F'| && F'[q] == r.F[p];
    }
  }

  lemma IdleRowPass(F: seq<string>, sol: string)
    requires IsReduct(Reduct(F, sol), |sol|) && !HasWork(F, sol)
    ensures Irredundant(RowPass(F, sol).F, |sol|)
  {
    RowPassRows(F, sol);
    var F' := Unsolved(F, RowPass(F, sol).sol, |F|);
    SurvivorsAreIncomparable(F', |sol|, |F'|);
  }

  lemma {:induction false} RowRoundsKeep(F: seq<string>, sol: string)
    requires WellFormed(F, sol)
    ensures var r := RowRounds(F, sol);
      WellFormed(r.F, r.sol) && SameCompletions(F, sol, r.F, r.sol) && Irredundant(r.F, |sol|)
    decreases |F|
  {
    if F != [] {
      RowPassKeeps(F, sol);
      if HasWork(F, sol) {
        WorkShortens(F, sol);
        RowRoundsKeep(RowPass(F, sol).F, RowPass(F, sol).sol);
      } else {
        IdleRowPass(F, sol);
      }
    }
  }

  ghost predicate Descends(F: seq<string>, sol: string, F': seq<string>, sol': string, cost: seq<int>)
    requires |sol| == |sol'| == |cost| && IsTable(F, |sol|) && IsTable(F', |sol|)
  {
    && (forall s :: Completion(F', sol', s) ==> Completion(F, sol, s))
    && (CostsAtLeast(cost, 0) ==> KeepsOptimum(F, sol, F', sol', cost))
  }

  lemma SameDescends(F: seq<string>, sol: string, F': seq<string>, sol': string, cost: seq<int>)
    requires |sol| == |sol'| == |cost| && IsTable(F, |sol|) && IsTable(F', |sol|)
    requires SameCompletions(F, sol, F', sol')
    ensures Descends(F, sol, F', sol', cost)
  {
    SameCompletionsKeepOptimum(F, sol, F', sol', cost);
  }

  lemma DescendsTransitive(
      F: seq<string>, sol: string, F': seq<string>, sol': string, F'': seq<string>, sol'': string, cost: seq<int>)
    requires |sol| == |sol'| == |sol''| == |cost|
    requires IsTable(F, |sol|) && IsTable(F', |sol|) && IsTable(F'', |sol|)
    requires Descends(F, sol, F', sol', cost) && Descends(F', sol', F'', sol'', cost)
    ensures Descends(F, sol, F'', sol'', cost)
  {
    if CostsAtLeast(cost, 0) {
      KeepsOptimumTransitive(F, sol, F', sol', F'', sol'', cost);
    }
  }

  lemma ColumnPassDescends(F: seq<string>, sol: string, cost: seq<int>)
    requires WellFormed(F, sol) && |sol| == |cost|
    ensures var c := ColumnPass(F, sol, cost);
      WellFormed(c.F, c.sol) && Descends(F, sol, c.F, c.sol, cost)
  {
    var c := ColumnPass(F, sol, cost);
    ColumnPassKeepsOptimum(F, sol, cost);
    GivenUpAdmitsNothing(F, sol, c.F, c.sol, cost);
  }

  /** reduce keeps a cheapest completion, admits no new one, and leaves nothing
      for its first two passes to do. */
  lemma ReducedKeepsOptimum(F: seq<string>, sol: string, cost: seq<int>)
    requires WellFormed(F, sol) && |cost| == |sol|
    ensures var r := Reduced(F, sol, cost);
      WellFormed(r.F, r.sol) && Descends(F, sol, r.F, r.sol, cost) && Irredundant(r.F, |sol|)
  {
    if F == [] {
      SameDescends(F, sol, F, sol, cost);
    } else {
      var e := RowPass(F, sol);
      var c := ColumnPass(e.F, e.sol, cost);
      RowPassKeeps(F, sol);
      SameDescends(F, sol, e.F, e.sol, cost);
      ColumnPassDescends(e.F, e.sol, cost);
      DescendsTransitive(F, sol, e.F, e.sol, c.F, c.sol, cost);
      if HasWork(F, sol) || c.gone != Chosen(e.sol) {
        var r := RowRounds(c.F, c.sol);
        RowRoundsKeep(c.F, c.sol);
        SameDescends(c.F, c.sol, r.F, r.sol, cost);
        DescendsTransitive(F, sol, c.F, c.sol, r.F, r.sol, cost);
      } else {
        ColumnPassKeepsOptimum(e.F, e.sol, cost);
        IdleRowPass(F, sol);
      }
    }
  }

  lemma IrredundantIsIdle(F: seq<string>, sol: string)
    requires WellFormed(F, sol) && Irredundant(F, |sol|)
    ensures !HasWork(F, sol) && RowPass(F, sol) == Reduct(F, sol)
  {
    assert WithEssentials(F, sol) == sol;
    PassesReverseTwice(F, sol);
    NothingSolved(F, sol, |F|);
    ReversedIncomparable(F, |sol|);
    NoSuperfluous(Reversed(F, |F|), |sol|);
  }

  lemma NoSuperfluous(F: seq<string>, n: nat)
    requires IsTable(F, n) && Incomparable(F, n)
    ensures !HasSuperfluous(F)
  {
  }

  /** A table with nothing to reduce is left as it is. */
  lemma ReducedIsLeftAlone(F: seq<string>, sol: string, cost: seq<int>)
    requires WellFormed(F, sol) && |cost| == |sol| && IsReduced(F, cost)
    ensures Reduced(F, sol, cost) == Reduct(F, sol)
  {
    if F != [] {
      IrredundantIsIdle(F, sol);
      ColumnPassKeepsOptimum(F, sol, cost);
      var c := ColumnPass(F, sol, cost);
      NothingGivenUp(F, sol, c.F, c.sol, cost);
    }
  }
}
