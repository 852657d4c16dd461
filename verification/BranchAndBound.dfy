/** chooseVar, selectCol, removeCol, expand_solution and BCP of src/bcp.c on the
    tables themselves: each computes what CoverSearch says. */
module BranchAndBound {
  import opened CoverTable
  import opened RowReduction
  import opened ColumnReduction
  import opened TableReduction
  import opened CoverBound
  import opened Compression
  import opened Reducts
  import opened CoverSearch
  import opened FreeColumns
  import opened CubeTables

  method ChooseVar(F: seq<string>, size: nat) returns (max: int)
    requires F != [] && IsTable(F, size)
    ensures max == BranchColumn(F, size, size)
  {
    var counts := new nat[size](_ => 0);
    for p := 0 to |F|
      invariant forall i :: 0 <= i < size ==> counts[i] == OnesInColumn(F[..p], i)
    {
      assert F[..p + 1][..p] == F[..p];
      for i := 0 to size
        invariant forall k :: 0 <= k < i ==> counts[k] == OnesInColumn(F[..p + 1], k)
        invariant forall k :: i <= k < size ==> counts[k] == OnesInColumn(F[..p], k)
      {
        if F[p][i] == '1' {
          counts[i] := counts[i] + 1;
        }
      }
    }
    assert F[..|F|] == F;
    max := -1;
    var i := 1;
    while i < size
      invariant 1 <= i && (i <= size || i == 1)
      invariant max == BranchColumn(F, size, if i <= size then i else size)
    {
      if (max == -1 && counts[i] > 0) || (max != -1 && counts[i] > counts[max]) {
        max := i;
      }
      i := i + 1;
    }
  }

  method CompressRow<T>(sol: string, xs: seq<T>) returns (r: seq<T>)
    requires |sol| == |xs|
    ensures r == Compress(sol, xs, |sol|)
  {
    r := [];
    for i := 0 to |sol|
      invariant r == Compress(sol, xs, i)
    {
      if sol[i] == '-' {
        r := r + [xs[i]];
      }
    }
  }

  method CountOpen(sol: string) returns (size: nat)
    ensures size == FreeCount(sol, |sol|)
  {
    size := 0;
    for i := 0 to |sol|
      invariant size == FreeCount(sol, i)
    {
      if sol[i] == '-' {
        size := size + 1;
      }
    }
  }

  /** The row loop of selectCol. */
  method SelectRows(F: seq<string>, sol: string, currentSol: array<char>) returns (rows: seq<string>)
    requires IsTable(F, |sol|) && currentSol[..] == sol
    ensures IsTable(Unsolved(F, sol, |F|), |sol|) && rows == ChildTable(F, sol)
  {
    rows := [];
    UnsolvedRows(F, sol, 0);
    for p := 0 to |F|
      invariant IsTable(Unsolved(F, sol, p), |sol|) && rows == CompressAll(Unsolved(F, sol, p), sol)
    {
      var solved := IsSolved(F[p], currentSol);
      UnsolvedRows(F, sol, p + 1);
      OneMoreRow(F, sol, p);
      if !solved {
        var row := CompressRow(sol, F[p]);
        rows := [row] + rows;
      }
    }
  }

  lemma OneMoreRow(F: seq<string>, sol: string, p: nat)
    requires p < |F| && IsTable(F, |sol|)
    requires IsTable(Unsolved(F, sol, p), |sol|) && IsTable(Unsolved(F, sol, p + 1), |sol|)
    ensures CompressAll(Unsolved(F, sol, p + 1), sol)
         == (if Solved(F[p], sol) then [] else [Compress(sol, F[p], |sol|)]) + CompressAll(Unsolved(F, sol, p), sol)
  {
  }

  /** The row loop of removeCol, which keeps every row. */
  method RemoveRows(F: seq<string>, sol: string) returns (rows: seq<string>)
    requires IsTable(F, |sol|)
    ensures IsTable(Reversed(F, |F|), |sol|) && rows == CompressAll(Reversed(F, |F|), sol)
  {
    rows := [];
    for p := 0 to |F|
      invariant IsTable(Reversed(F, p), |sol|) && rows == CompressAll(Reversed(F, p), sol)
    {
      var row := CompressRow(sol, F[p]);
      rows := [row] + rows;
    }
  }

  /** Where no row is solved, the unsolved rows are all rows. */
  lemma {:induction false} AllUnsolved(F: seq<string>, sol: string, k: nat)
    requires k <= |F| && IsTable(F, |sol|) && NoneSolved(F, sol)
    ensures Unsolved(F, sol, k) == Reversed(F, k)
  {
    if k > 0 {
      AllUnsolved(F, sol, k - 1);
      assert !Solved(F[k - 1], sol);
    }
  }

  /** child is the problem that the decisions in sol leave. */
  ghost predicate IsChild(child: TableSol, F: seq<string>, sol: string, base: int, cost: seq<int>)
    requires IsReduct(Reduct(F, sol), |cost|)
    reads child, child.currentSol
  {
    var q := ChildProblem(F, sol, base, cost);
    && child.currentSol.Length == child.size == |q.cost|
    && child.currentSol[..] == AllDashes(|q.cost|) && child.F == q.F && child.cost == q.base
  }

  /** Takes column x and keeps what is left to cover. */
  method SelectCol(Sol: TableSol, x: nat, cost: seq<int>) returns (NewSol: TableSol)
    requires Sol.Valid() && x < Sol.size == |cost|
    modifies Sol.currentSol
    ensures Sol.Valid() && Sol.currentSol[..] == old(Sol.currentSol[..])[x := '1']
    ensures fresh(NewSol) && fresh(NewSol.currentSol)
    ensures IsChild(NewSol, Sol.F, Sol.currentSol[..], Sol.cost, cost)
  {
    Sol.currentSol[x] := '1';
    var sol, F := Sol.currentSol[..], Sol.F;
    var oldcost := Cost(sol, cost, Sol.cost);
    var size := CountOpen(sol);
    var rows := SelectRows(F, sol, Sol.currentSol);
    NewSol := new TableSol(rows, seq(size, _ => '-'), oldcost);
  }

  /** Gives column x up and keeps all rows, which are the unsolved ones if no
      row was solved before. */
  method RemoveCol(Sol: TableSol, x: nat, cost: seq<int>) returns (NewSol: TableSol)
    requires Sol.Valid() && x < Sol.size == |cost|
    modifies Sol.currentSol
    ensures Sol.Valid() && Sol.currentSol[..] == old(Sol.currentSol[..])[x := '0']
    ensures fresh(NewSol) && fresh(NewSol.currentSol)
    ensures NewSol.currentSol.Length == NewSol.size == FreeCount(Sol.currentSol[..], Sol.size)
    ensures NewSol.currentSol[..] == AllDashes(NewSol.size)
    ensures NewSol.cost == Sol.cost + Weight(Chosen(Sol.currentSol[..]), cost)
    ensures IsTable(Reversed(Sol.F, |Sol.F|), Sol.size)
    ensures NewSol.F == CompressAll(Reversed(Sol.F, |Sol.F|), Sol.currentSol[..])
    ensures NoneSolved(Sol.F, Sol.currentSol[..]) ==> IsChild(NewSol, Sol.F, Sol.currentSol[..], Sol.cost, cost)
  {
    ghost var before := Sol.currentSol[..];
    Sol.currentSol[x] := '0';
    var sol, F := Sol.currentSol[..], Sol.F;
    assert sol == before[x := '0'];
    var oldcost := Cost(sol, cost, Sol.cost);
    var size := CountOpen(sol);
    var rows := RemoveRows(F, sol);
    if NoneSolved(F, sol) {
      AllUnsolved(F, sol, |F|);
    }
    NewSol := new TableSol(rows, seq(size, _ => '-'), oldcost);
  }

  /** Lifts the child's solution into the parent's columns and takes the
      decided columns out of its base cost again. */
  method ExpandSolution(newtab: TableSol, oldtab: TableSol, cost: seq<int>)
    requires newtab != oldtab && oldtab.currentSol.Length == oldtab.size == |cost|
    requires newtab.currentSol.Length == newtab.size == FreeCount(oldtab.currentSol[..], oldtab.size)
    modifies newtab
    ensures newtab.F == old(newtab.F) && newtab.size == oldtab.size && fresh(newtab.currentSol)
    ensures newtab.currentSol[..] == Lift(oldtab.currentSol[..], old(newtab.currentSol[..]))
    ensures IsPartial(oldtab.currentSol[..]) && IsPartial(old(newtab.currentSol[..])) ==>
      KeepsDecisions(oldtab.currentSol[..], newtab.currentSol[..]) && AllDecided(newtab.currentSol[..])
    ensures newtab.cost == old(newtab.cost) - Weight(Chosen(oldtab.currentSol[..]), cost)
  {
    ghost var child := newtab.currentSol[..];
    var sol := oldtab.currentSol[..];
    var solution := new char[oldtab.size](_ => '-');
    var oldcost := Cost(sol, cost, 0);
    var j := 0;
    for i := 0 to oldtab.size
      invariant j == FreeCount(sol, i)
      invariant forall k :: 0 <= k < i ==> solution[k] == LiftedEntry(sol, child, k)
      modifies solution
    {
      FreeCountGrows(sol, i, |sol|);
      if sol[i] == '-' {
        if newtab.currentSol[j] == '-' {
          solution[i] := '0';
        } else {
          solution[i] := newtab.currentSol[j];
        }
        j := j + 1;
      } else {
        solution[i] := sol[i];
      }
    }
    if IsPartial(sol) && IsPartial(child) {
      LiftDecides(sol, child);
    }
    newtab.currentSol := solution;
    newtab.size := oldtab.size;
    newtab.cost := newtab.cost - oldcost;
  }

  // The search

  /** r and U' are what answer a leaves of the bound U. */
  ghost predicate IsOutcome(r: TableSol?, U': int, a: Answer, U: int, n: nat, base: int)
    reads r, if r == null then {} else {r.currentSol}
  {
    && U' == Lowered(a, U) && (r != null <==> a.Found?)
    && (r != null ==>
          r.currentSol.Length == r.size == n && r.currentSol[..] == a.sol && r.cost == base && r.F == [])
  }

  /** newcost, the recursive call on the child, and expand_solution. */
  method SolveBranch(parent: TableSol, child: TableSol, U: int, cost: seq<int>) returns (r: TableSol?, U': int)
    requires parent != child && parent.Valid() && parent.size == |cost|
    requires FreeCount(parent.currentSol[..], parent.size) < parent.size
    requires IsChild(child, parent.F, parent.currentSol[..], parent.cost, cost)
    modifies child
    ensures r != null ==> (r == child || fresh(r)) && fresh(r.currentSol)
    ensures IsOutcome(r, U', SearchChild(parent.F, parent.currentSol[..], parent.cost, U, cost), U, |cost|, parent.cost)
    decreases parent.size, 0
  {
    var newcost := CompressRow(parent.currentSol[..], cost);
    assert newcost == ChildProblem(parent.F, parent.currentSol[..], parent.cost, cost).cost;
    r, U' := BCP(child, U, newcost);
    if r != null {
      ExpandSolution(r, parent, cost);
    }
  }

  /** Searches for a cover cheaper than U; U' is the new bound. */
  method BCP(Sol: TableSol, U: int, cost: seq<int>) returns (r: TableSol?, U': int)
    requires Sol.Valid() && |cost| == Sol.size
    ensures r != null ==> r == Sol || (fresh(r) && fresh(r.currentSol))
    ensures IsOutcome(r, U', Search(Sol.F, Sol.currentSol[..], Sol.cost, U, cost), U, |cost|, Sol.cost)
    ensures WellFormed(Sol.F, Sol.currentSol[..]) && r != null ==>
      && U' < U && Completion(Sol.F, Sol.currentSol[..], Chosen(r.currentSol[..]))
      && U' == Sol.cost + Weight(Chosen(r.currentSol[..]), cost)
    ensures r != null ==> Decides(Reduced(Sol.F, Sol.currentSol[..], cost), r.currentSol[..])
    ensures r != null && WellFormed(Sol.F, Sol.currentSol[..]) ==>
      KeepsDecisions(Reduced(Sol.F, Sol.currentSol[..], cost).sol, r.currentSol[..])
    ensures WellFormed(Sol.F, Sol.currentSol[..]) && CountsRows(Sol.F, cost) ==>
      && NoneCheaper(Sol.F, Sol.currentSol[..], cost, Sol.cost, U')
      && (r != null <==> exists s :: Completion(Sol.F, Sol.currentSol[..], s) && Sol.cost + Weight(s, cost) < U)
    decreases Sol.size, 3
  {
    SearchMeans(Sol.F, Sol.currentSol[..], Sol.cost, U, cost);
    SearchDecides(Sol.F, Sol.currentSol[..], Sol.cost, U, cost);
    ReducedSolvesNone(Sol.F, Sol.currentSol[..], cost);
    var NewSol := Reduce(Sol, cost);
    if NewSol.F == [] {
      var total := Cost(NewSol.currentSol[..], cost, NewSol.cost);
      if total < U {
        return NewSol, total;
      } else {
        return null, U;
      }
    }
    r, U' := BranchOrPrune(NewSol, U, cost);
  }

  /** BCP when reduce has left rows. */
  method BranchOrPrune(NewSol: TableSol, U: int, cost: seq<int>) returns (r: TableSol?, U': int)
    requires NewSol.Valid() && |cost| == NewSol.size && NewSol.F != []
    requires NoneSolved(NewSol.F, NewSol.currentSol[..])
    modifies NewSol.currentSol
    ensures r != null ==> fresh(r) && fresh(r.currentSol)
    ensures IsOutcome(
      r, U', old(SearchReduct(Reduct(NewSol.F, NewSol.currentSol[..]), NewSol.cost, U, cost)), U, |cost|, NewSol.cost)
    decreases NewSol.size, 2
  {
    var L := LowerBound(NewSol, cost);
    if L >= U {
      return null, U;
    }
    var x := ChooseVar(NewSol.F, NewSol.size);
    if x == -1 {
      return null, U;
    }
    r, U' := Branches(NewSol, x, L, U, cost);
  }

  /** The two branches on column x and the choice between their answers. */
  method Branches(NewSol: TableSol, x: nat, L: int, U: int, cost: seq<int>) returns (r: TableSol?, U': int)
    requires NewSol.Valid() && x < NewSol.size == |cost| && NoneSolved(NewSol.F, NewSol.currentSol[..])
    modifies NewSol.currentSol
    ensures r != null ==> fresh(r) && fresh(r.currentSol)
    ensures IsOutcome(
      r, U', old(SearchBoth(Reduct(NewSol.F, NewSol.currentSol[..]), x, NewSol.cost, L, U, cost)), U, |cost|,
      NewSol.cost)
    decreases NewSol.size, 1, 1
  {
    ghost var sol := NewSol.currentSol[..];
    OneLess(sol, x, '1');
    OneLess(sol, x, '0');
    var Sol1, U1 := TakeColumn(NewSol, x, U, cost);
    ChildTotal(NewSol.F, sol[x := '1'], NewSol.cost, U, cost);
    if Sol1 != null {
      var total1 := Cost(Sol1.currentSol[..], cost, Sol1.cost);
      if total1 == L {
        return Sol1, U1;
      }
    }
    assert NewSol.currentSol[..][x := '0'] == sol[x := '0'];
    FewerSolved(NewSol.F, sol, x);
    var Sol0, U0 := DropColumn(NewSol, x, U1, cost);
    ChildTotal(NewSol.F, sol[x := '0'], NewSol.cost, U1, cost);
    r := BetterOf(Sol1, Sol0, cost);
    U' := U0;
  }

  method TakeColumn(NewSol: TableSol, x: nat, U: int, cost: seq<int>) returns (r: TableSol?, U': int)
    requires NewSol.Valid() && x < NewSol.size == |cost|
    requires FreeCount(NewSol.currentSol[..][x := '1'], NewSol.size) < NewSol.size
    modifies NewSol.currentSol
    ensures NewSol.Valid() && NewSol.currentSol[..] == old(NewSol.currentSol[..])[x := '1']
    ensures r != null ==> fresh(r) && fresh(r.currentSol)
    ensures IsOutcome(r, U', SearchChild(NewSol.F, NewSol.currentSol[..], NewSol.cost, U, cost), U, |cost|, NewSol.cost)
    decreases NewSol.size, 1, 0
  {
    var child := SelectCol(NewSol, x, cost);
    r, U' := SolveBranch(NewSol, child, U, cost);
  }

  method DropColumn(NewSol: TableSol, x: nat, U: int, cost: seq<int>) returns (r: TableSol?, U': int)
    requires NewSol.Valid() && x < NewSol.size == |cost|
    requires NoneSolved(NewSol.F, NewSol.currentSol[..][x := '0'])
    requires FreeCount(NewSol.currentSol[..][x := '0'], NewSol.size) < NewSol.size
    modifies NewSol.currentSol
    ensures NewSol.Valid() && NewSol.currentSol[..] == old(NewSol.currentSol[..])[x := '0']
    ensures r != null ==> fresh(r) && fresh(r.currentSol)
    ensures IsOutcome(r, U', SearchChild(NewSol.F, NewSol.currentSol[..], NewSol.cost, U, cost), U, |cost|, NewSol.cost)
    decreases NewSol.size, 1, 0
  {
    var child := RemoveCol(NewSol, x, cost);
    r, U' := SolveBranch(NewSol, child, U, cost);
  }

  lemma FewerSolved(F: seq<string>, sol: string, x: nat)
    requires IsTable(F, |sol|) && x < |sol| && NoneSolved(F, sol)
    ensures NoneSolved(F, sol[x := '0'])
  {
    forall p | 0 <= p < |F| ensures !Solved(F[p], sol[x := '0']) {
      assert !Solved(F[p], sol);
    }
  }

  /** The final choice of BCP between the answers of its branches. */
  method BetterOf(Sol1: TableSol?, Sol0: TableSol?, cost: seq<int>) returns (r: TableSol?)
    requires Sol1 != null ==> Sol1.currentSol.Length == |cost|
    requires Sol0 != null ==> Sol0.currentSol.Length == |cost|
    ensures r == Sol1 || r == Sol0
    ensures Sol0 == null ==> r == Sol1
    ensures Sol1 == null ==> r == Sol0
    ensures Sol1 != null && Sol0 != null ==>
      var total1 := Sol1.cost + Weight(Chosen(Sol1.currentSol[..]), cost);
      var total0 := Sol0.cost + Weight(Chosen(Sol0.currentSol[..]), cost);
      r == if total1 < total0 then Sol1 else Sol0
  {
    if Sol0 != null {
      if Sol1 != null {
        var total1 := Cost(Sol1.currentSol[..], cost, Sol1.cost);
        var total0 := Cost(Sol0.currentSol[..], cost, Sol0.cost);
        if total1 < total0 {
          return Sol1;
        } else {
          return Sol0;
        }
      } else {
        return Sol0;
      }
    }
    return Sol1;
  }

  /** What the outcome of the search means. */
  lemma SearchMeans(F: seq<string>, sol: string, base: int, U: int, cost: seq<int>)
    requires IsReduct(Reduct(F, sol), |cost|)
    ensures var a := Search(F, sol, base, U, cost);
      && (WellFormed(F, sol) ==> IsAnswer(a, F, sol, cost, base))
      && (WellFormed(F, sol) && CountsRows(F, cost) ==>
            && NoneCheaper(F, sol, cost, base, Lowered(a, U))
            && (a.Found? <==> exists s :: Completion(F, sol, s) && base + Weight(s, cost) < U))
  {
    if WellFormed(F, sol) {
      SearchIsSound(F, sol, base, U, cost);
      if CountsRows(F, cost) {
        SearchIsExact(F, sol, base, U, cost);
      }
    }
  }

  // The calls

  /** A cheapest cover, or null if there is none: the search starts with every
      column open, nothing paid, and a bound above the cost of all columns. */
  method CheapestCover(F: seq<string>, cost: seq<int>) returns (r: TableSol?)
    requires IsTable(F, |cost|)
    ensures r != null ==> r.currentSol.Length == |cost| && Covers(F, Chosen(r.currentSol[..]))
    ensures IsPriced(cost) || FreeAreTrivial(F, cost) ==>
      (r != null <==> exists s :: |s| == |cost| && Covers(F, s))
    ensures (IsPriced(cost) || FreeAreTrivial(F, cost)) && r != null ==>
      forall s :: |s| == |cost| && Covers(F, s) ==> Weight(Chosen(r.currentSol[..]), cost) <= Weight(s, cost)
  {
    var Sol := new TableSol(F, seq(|cost|, _ => '-'), 0);
    ghost var all := seq(|cost|, _ => true);
    var U := 0;
    for j := 0 to |cost|
      invariant U == PartialWeight(all, cost, j)
    {
      U := U + cost[j];
    }
    U := U + 1;
    CallIsExact(F, cost, U);
    var U';
    r, U' := BCP(Sol, U, cost);
  }

  lemma CallIsExact(F: seq<string>, cost: seq<int>, U: int)
    requires IsTable(F, |cost|) && U == Weight(seq(|cost|, _ => true), cost) + 1
    ensures var a := Search(F, AllDashes(|cost|), 0, U, cost);
      && (a.Found? ==> |a.sol| == |cost| && Covers(F, Chosen(a.sol)))
      && (IsPriced(cost) || FreeAreTrivial(F, cost) ==>
            forall s :: |s| == |cost| && Covers(F, s) ==> a.Found? && Weight(Chosen(a.sol), cost) <= Weight(s, cost))
  {
    var open, all := AllDashes(|cost|), seq(|cost|, _ => true);
    var a := Search(F, open, 0, U, cost);
    SearchIsSound(F, open, 0, U, cost);
    if IsPriced(cost) || FreeAreTrivial(F, cost) {
      if IsPriced(cost) {
        SearchIsExact(F, open, 0, U, cost);
      } else {
        TrivialFreeIsExact(F, cost, 0, U);
      }
      forall s | |s| == |cost| && Covers(F, s) ensures a.Found? && Weight(Chosen(a.sol), cost) <= Weight(s, cost) {
        WeightIsMonotone(s, all, cost, |s|);
        assert Completion(F, open, s);
      }
    }
  }

  const TRIANGLE: seq<string> := ["110", "011", "101"]

  /** Three rows over three free columns: two columns cover them at no cost, but
      the row count already reaches the bound 1 that the sum of the costs plus
      one gives, so the search reports that there is no cover. */
  method FreeColumnsMissCover() returns (r: TableSol?, U': int)
    ensures r == null && U' == 1
    ensures IsTable(TRIANGLE, 3) && Covers(TRIANGLE, [true, true, false])
    ensures Weight([true, true, false], [0, 0, 0]) < 1
  {
    var Sol := new TableSol(TRIANGLE, "---", 0);
    TriangleIsPruned();
    assert Sol.currentSol[..] == AllDashes(3);
    r, U' := BCP(Sol, 1, [0, 0, 0]);
  }

  lemma TriangleIsPruned()
    ensures IsTable(TRIANGLE, 3) && Covers(TRIANGLE, [true, true, false])
    ensures Weight([true, true, false], [0, 0, 0]) == 0
    ensures Search(TRIANGLE, AllDashes(3), 0, 1, [0, 0, 0]) == Nothing
  {
    var cost: seq<int> := [0, 0, 0];
    TriangleIsTwoFree();
    BothWeigh(cost, 0, 1);
    TwoFreeIsReduced(cost, 0, 1, 2);
    TwoFreeBreak(cost, 0, 1, 2);
    BrokenBoundPrunes(TRIANGLE, cost, Both(3, 0, 1), 1);
  }

  lemma TriangleIsTwoFree()
    ensures TRIANGLE == TwoFree([0, 0, 0], 0, 1, 2) && Both(3, 0, 1) == [true, true, false]
  {
    var F := TwoFree([0, 0, 0], 0, 1, 2);
    forall p | 0 <= p < 3 ensures F[p] == TRIANGLE[p] {
      assert |F[p]| == 3;
    }
  }
}
