/** Which of several answers the covering search returns: the branch that takes the
    column comes first, and an answer at the lower bound ends the search. */
module CoverOrder {
  import opened CoverTable
  import opened RowReduction
  import opened TableReduction
  import opened CoverBound
  import opened Compression
  import opened SmallTables
  import opened CoverSearch
  import opened FreeColumns

  /** A branch that leaves no row to cover takes nothing more. */
  lemma ChildWithoutRows(F: seq<string>, sol: string, base: int, U: int, cost: seq<int>)
    requires IsReduct(Reduct(F, sol), |cost|) && FreeCount(sol, |sol|) < |sol| && Unsolved(F, sol, |F|) == []
    ensures var total := base + Weight(Chosen(sol), cost);
      SearchChild(F, sol, base, U, cost) ==
        if total < U then Found(Lift(sol, AllDashes(FreeCount(sol, |sol|))), total) else Nothing
  {
    var q := ChildProblem(F, sol, base, cost);
    var open := AllDashes(|q.cost|);
    assert q.F == [];
    NothingWeighsNothing(Chosen(open), q.cost, |q.cost|);
  }

  // Two free columns and one that costs 1

  ghost predicate IsExitTable(F: seq<string>, cost: seq<int>) {
    |cost| == 3 && cost[0] == 0 && cost[1] == 0 && cost[2] == 1 && F == TwoFree(cost, 0, 1, 2)
  }

  /** Column 2 covers both rows at 1, which the lower bound has already reached:
      the search returns it, although columns 0 and 1 cover them for nothing. */
  lemma EarlyExit(F: seq<string>, cost: seq<int>)
    requires IsExitTable(F, cost)
    ensures IsTable(F, 3) && Search(F, AllDashes(3), 0, 2, cost) == Found("001", 1)
    ensures Covers(F, Both(3, 0, 1)) && Weight(Both(3, 0, 1), cost) == 0
  {
    var open := AllDashes(3);
    TwoFreeIsReduced(cost, 0, 1, 2);
    ReducedIsLeftAlone(F, open, cost);
    BothWeigh(cost, 0, 1);
    ExitBound(F, cost);
    ExitColumn(F, cost);
    ExitBranch(F, cost, open);
  }

  lemma ExitRows(F: seq<string>, cost: seq<int>)
    requires IsExitTable(F, cost)
    ensures IsTable(F, 3) && |F| == 2 && F[0] == "011" && F[1] == "101"
  {
    assert F[0] == Pair(3, 1, 2) && F[1] == Pair(3, 0, 2);
  }

  lemma ExitBound(F: seq<string>, cost: seq<int>)
    requires IsExitTable(F, cost)
    ensures IsTable(F, 3) && BoundOf(Reduct(F, AllDashes(3)), 0, cost) == 1
  {
    ExitRows(F, cost);
    TwoFreeIsReduced(cost, 0, 1, 2);
    GreedyPicksOne(F, cost);
    GreedyIsOneRow(F, cost, Both(3, 0, 1));
    NothingWeighsNothing(Chosen(AllDashes(3)), cost, 3);
  }

  lemma ExitColumn(F: seq<string>, cost: seq<int>)
    requires IsExitTable(F, cost)
    ensures IsTable(F, 3) && BranchColumn(F, 3, 3) == 2
  {
    ExitRows(F, cost);
    assert F[..1] == [F[0]] && F[..1][..0] == [];
    forall i | 0 <= i < 3
      ensures OnesInColumn(F, i) == (if F[0][i] == '1' then 1 else 0) + if F[1][i] == '1' then 1 else 0
    {
      assert OnesInColumn(F[..1], i) == if F[0][i] == '1' then 1 else 0;
    }
  }

  lemma ExitBranch(F: seq<string>, cost: seq<int>, open: string)
    requires IsExitTable(F, cost) && open == AllDashes(3)
    ensures IsTable(F, 3) && SearchBoth(Reduct(F, open), 2, 0, 1, 2, cost) == Found("001", 1)
  {
    ExitRows(F, cost);
    var sol := open[2 := '1'];
    OneLess(open, 2, '1');
    OneLess(open, 2, '0');
    assert Solved(F[0], sol) && Solved(F[1], sol) by { assert sol[2] == '1'; }
    assert Unsolved(F, sol, 0) == [];
    assert Unsolved(F, sol, 1) == [];
    assert Unsolved(F, sol, 2) == [];
    ChildWithoutRows(F, sol, 0, 2, cost);
    assert Chosen(sol) == [false, false, true];
    OneWeighs(Chosen(sol), cost, 2);
    var lifted := Lift(sol, AllDashes(FreeCount(sol, 3)));
    LiftDecides(sol, AllDashes(FreeCount(sol, 3)));
    assert lifted == "001" by {
      forall i | 0 <= i < 2 ensures lifted[i] == '0' {
        ExpandEntry(sol, Chosen(AllDashes(FreeCount(sol, 3))), i);
        assert Chosen(lifted)[i] == false;
      }
    }
  }
}
