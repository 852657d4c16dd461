/** The covering search from an all-'0' partial solution, as in src/heursyn.c:
    reduce works as usual, but a branch has no open column left. */
module ClosedTables {
  import opened CoverTable
  import opened RowReduction
  import opened ColumnReduction
  import opened TableReduction
  import opened CoverBound
  import opened Compression
  import opened Reducts
  import opened CoverSearch
  import opened FreeColumns

  // reduce does not distinguish '0' from '-'

  lemma SolvedAlike(row: string, sol: string, sol': string)
    requires |row| == |sol| == |sol'| && Chosen(sol) == Chosen(sol')
    ensures Solved(row, sol) <==> Solved(row, sol')
  {
    forall i | 0 <= i < |sol| ensures sol[i] == '1' <==> sol'[i] == '1' {
      assert Chosen(sol)[i] == Chosen(sol')[i];
    }
  }

  lemma {:induction false} UnsolvedAlike(F: seq<string>, sol: string, sol': string, k: nat)
    requires k <= |F| && IsTable(F, |sol|) && |sol| == |sol'| && Chosen(sol) == Chosen(sol')
    ensures Unsolved(F, sol, k) == Unsolved(F, sol', k)
  {
    if k > 0 {
      UnsolvedAlike(F, sol, sol', k - 1);
      SolvedAlike(F[k - 1], sol, sol');
    }
  }

  lemma UpdatedAlike(sol: string, sol': string, i: nat, d: char)
    requires i < |sol| == |sol'| && Chosen(sol) == Chosen(sol')
    ensures Chosen(sol[i := d]) == Chosen(sol'[i := d])
  {
    assert Chosen(sol[i := d]) == Chosen(sol)[i := d == '1'];
    assert Chosen(sol'[i := d]) == Chosen(sol')[i := d == '1'];
  }

  ghost predicate ReductsAlike(r: Reduct, r': Reduct) {
    r.F == r'.F && |r.sol| == |r'.sol| && Chosen(r.sol) == Chosen(r'.sol)
  }

  lemma RowPassAlike(F: seq<string>, sol: string, sol': string)
    requires IsReduct(Reduct(F, sol), |sol|) && IsReduct(Reduct(F, sol'), |sol|) && Chosen(sol) == Chosen(sol')
    ensures ReductsAlike(RowPass(F, sol), RowPass(F, sol')) && (HasWork(F, sol) <==> HasWork(F, sol'))
  {
    var m, m' := WithEssentials(F, sol), WithEssentials(F, sol');
    assert forall i :: 0 <= i < |sol| ==> Chosen(sol)[i] == Chosen(sol')[i];
    assert Chosen(m) == Chosen(m');
    UnsolvedAlike(F, m, m', |F|);
  }

  ghost predicate ColumnsAlike(s: Columns, s': Columns, n: nat) {
    IsColumns(s, n) && IsColumns(s', n) && s.F == s'.F && s.gone == s'.gone && Chosen(s.sol) == Chosen(s'.sol)
  }

  lemma {:induction false} SettledAlike(s: Columns, s': Columns, cost: seq<int>, i: nat, j: nat)
    requires ColumnsAlike(s, s', |cost|) && i < j <= |cost|
    ensures ColumnsAlike(Settled(s, cost, i, j), Settled(s', cost, i, j), |cost|)
    decreases |cost| - j
  {
    if j < |cost| {
      UpdatedAlike(s.sol, s'.sol, i, '0');
      UpdatedAlike(s.sol, s'.sol, j, '0');
      if !Stops(s, cost, i, j) {
        SettledAlike(Compared(s, cost, i, j), Compared(s', cost, i, j), cost, i, j + 1);
      }
    }
  }

  lemma {:induction false} AllSettledAlike(s: Columns, s': Columns, cost: seq<int>, i: nat)
    requires ColumnsAlike(s, s', |cost|) && i <= |cost|
    ensures ColumnsAlike(AllSettled(s, cost, i), AllSettled(s', cost, i), |cost|)
    decreases |cost| - i
  {
    if i < |cost| {
      if !s.gone[i] {
        SettledAlike(s, s', cost, i, i + 1);
      }
      AllSettledAlike(Turn(s, cost, i), Turn(s', cost, i), cost, i + 1);
    }
  }

  lemma {:induction false} RowRoundsAlike(F: seq<string>, sol: string, sol': string)
    requires IsReduct(Reduct(F, sol), |sol|) && IsReduct(Reduct(F, sol'), |sol|) && Chosen(sol) == Chosen(sol')
    ensures ReductsAlike(RowRounds(F, sol), RowRounds(F, sol'))
    decreases |F|
  {
    if F != [] {
      RowPassAlike(F, sol, sol');
      if HasWork(F, sol) {
        WorkShortens(F, sol);
        RowRoundsAlike(RowPass(F, sol).F, RowPass(F, sol).sol, RowPass(F, sol').sol);
      }
    }
  }

  /** The same rows are left and the same columns are taken. */
  lemma ReducedAlike(F: seq<string>, sol: string, sol': string, cost: seq<int>)
    requires IsReduct(Reduct(F, sol), |cost|) && IsReduct(Reduct(F, sol'), |cost|) && Chosen(sol) == Chosen(sol')
    ensures ReductsAlike(Reduced(F, sol, cost), Reduced(F, sol', cost))
  {
    if F != [] {
      var e, e' := RowPass(F, sol), RowPass(F, sol');
      RowPassAlike(F, sol, sol');
      AllSettledAlike(AllColumns(e.F, e.sol), AllColumns(e'.F, e'.sol), cost, 0);
      var c, c' := ColumnPass(e.F, e.sol, cost), ColumnPass(e'.F, e'.sol, cost);
      RowRoundsAlike(c.F, c.sol, c'.sol);
    }
  }

  // No column stays open

  ghost predicate IsDecided(sol: string) {
    IsPartial(sol) && forall i :: 0 <= i < |sol| ==> sol[i] != '-'
  }

  lemma {:induction false} SettledStaysClosed(s: Columns, cost: seq<int>, i: nat, j: nat)
    requires IsColumns(s, |cost|) && i < j <= |cost| && IsDecided(s.sol)
    ensures IsDecided(Settled(s, cost, i, j).sol)
    decreases |cost| - j
  {
    if j < |cost| && !Stops(s, cost, i, j) {
      SettledStaysClosed(Compared(s, cost, i, j), cost, i, j + 1);
    }
  }

  lemma {:induction false} AllSettledStaysClosed(s: Columns, cost: seq<int>, i: nat)
    requires IsColumns(s, |cost|) && i <= |cost| && IsDecided(s.sol)
    ensures IsDecided(AllSettled(s, cost, i).sol)
    decreases |cost| - i
  {
    if i < |cost| {
      if !s.gone[i] {
        SettledStaysClosed(s, cost, i, i + 1);
      }
      AllSettledStaysClosed(Turn(s, cost, i), cost, i + 1);
    }
  }

  lemma {:induction false} RowRoundsStayClosed(F: seq<string>, sol: string)
    requires IsReduct(Reduct(F, sol), |sol|) && IsDecided(sol)
    ensures IsDecided(RowRounds(F, sol).sol)
    decreases |F|
  {
    if F != [] && HasWork(F, sol) {
      WorkShortens(F, sol);
      RowRoundsStayClosed(RowPass(F, sol).F, RowPass(F, sol).sol);
    }
  }

  lemma ReducedStaysClosed(F: seq<string>, sol: string, cost: seq<int>)
    requires IsReduct(Reduct(F, sol), |cost|) && IsDecided(sol)
    ensures IsDecided(Reduced(F, sol, cost).sol)
  {
    if F != [] {
      var e := RowPass(F, sol);
      AllSettledStaysClosed(AllColumns(e.F, e.sol), cost, 0);
      RowRoundsStayClosed(ColumnPass(e.F, e.sol, cost).F, ColumnPass(e.F, e.sol, cost).sol);
    }
  }

  lemma {:induction false} NothingOpen(sol: string, k: nat)
    requires k <= |sol| && IsDecided(sol)
    ensures FreeCount(sol, k) == 0
  {
    if k > 0 {
      NothingOpen(sol, k - 1);
    }
  }

  // Tables without columns

  lemma {:induction false} RowRoundsKeepARow(F: seq<string>)
    requires IsTable(F, 0) && F != []
    ensures RowRounds(F, "").F != []
    decreases |F|
  {
    RowPassKeepsARow(F);
    if HasWork(F, "") {
      WorkShortens(F, "");
      assert RowPass(F, "").sol == "";
      RowRoundsKeepARow(RowPass(F, "").F);
    }
  }

  lemma RowPassKeepsARow(F: seq<string>)
    requires IsTable(F, 0) && F != []
    ensures RowPass(F, "").F != []
  {
    var r := RowPass(F, "");
    var F' := Unsolved(F, r.sol, |F|);
    UnsolvedRows(F, r.sol, |F|);
    assert !Solved(F[0], r.sol) && F[0] in F';
    SurvivorInside(F', 0, 0);
    SurvivingRows(F', 0, |F'|);
    var q :| 0 <= q < |F'| && !Superfluous(F', q);
    assert F'[q] in r.F;
  }

  /** Without columns a row can never be covered, and chooseVar finds nothing. */
  lemma NoColumns(F: seq<string>, base: int, U: int)
    requires IsTable(F, 0)
    ensures Search(F, "", base, U, []) == if F == [] && base < U then Found("", base) else Nothing
  {
    if F != [] {
      var e := RowPass(F, "");
      RowPassKeepsARow(F);
      assert e.sol == "";
      var c := ColumnPass(e.F, e.sol, []);
      assert c == AllColumns(e.F, e.sol);
      RowRoundsKeepARow(c.F);
    }
  }

  // When there is an answer

  ghost predicate CoversAll(F: seq<string>, x: nat)
    requires forall p :: 0 <= p < |F| ==> x < |F[p]|
  {
    forall p :: 0 <= p < |F| ==> F[p][x] == '1'
  }

  /** A branch whose decisions leave no open column. */
  lemma ClosedChild(F: seq<string>, sol: string, base: int, U: int, cost: seq<int>)
    requires IsReduct(Reduct(F, sol), |cost|) && IsDecided(sol) && FreeCount(sol, |sol|) < |sol|
    ensures var total := base + Weight(Chosen(sol), cost);
      SearchChild(F, sol, base, U, cost)
      == if Unsolved(F, sol, |F|) == [] && total < U then Found(sol, total) else Nothing
  {
    NothingOpen(sol, |sol|);
    var q := ChildProblem(F, sol, base, cost);
    assert q.cost == [] && AllDashes(0) == "";
    NoColumns(q.F, q.base, U);
    assert Lift(sol, "") == sol by {
      forall i | 0 <= i < |sol| ensures Lift(sol, "")[i] == sol[i] {
        FreeCountGrows(sol, i, |sol|);
      }
    }
  }

  lemma UnsolvedByOne(F: seq<string>, sol: string, x: nat)
    requires IsTable(F, |sol|) && x < |sol| && NoneSolved(F, sol)
    ensures Unsolved(F, sol[x := '1'], |F|) == [] <==> CoversAll(F, x)
    ensures F != [] ==> Unsolved(F, sol[x := '0'], |F|) != []
  {
    var sol1, sol0 := sol[x := '1'], sol[x := '0'];
    NoneLeft(F, sol1);
    NoneLeft(F, sol0);
    forall p | 0 <= p < |F|
      ensures (Solved(F[p], sol1) <==> F[p][x] == '1') && !Solved(F[p], sol0)
    {
      assert !Solved(F[p], sol);
      assert sol1[x] == '1';
    }
  }

  lemma NoneLeft(F: seq<string>, sol: string)
    requires IsTable(F, |sol|)
    ensures Unsolved(F, sol, |F|) == [] <==> forall p :: 0 <= p < |F| ==> Solved(F[p], sol)
  {
    var rest := Unsolved(F, sol, |F|);
    UnsolvedRows(F, sol, |F|);
    assert rest != [] ==> rest[0] in rest;
    assert forall p :: 0 <= p < |F| && !Solved(F[p], sol) ==> F[p] in rest;
  }

  /** The answer is what reduce takes, together with the branching column if
      rows are left and that column covers all of them; else there is none. */
  ghost function ClosedAnswer(F: seq<string>, sol: string, base: int, U: int, cost: seq<int>): Answer
    requires IsReduct(Reduct(F, sol), |cost|)
  {
    var r := Reduced(F, sol, cost);
    var x := BranchColumn(r.F, |sol|, |sol|);
    if r.F == [] then
      var total := base + Weight(Chosen(r.sol), cost);
      if total < U then Found(r.sol, total) else Nothing
    else if BoundOf(r, base, cost) < U && x != -1 && CoversAll(r.F, x) then
      var total := base + Weight(Chosen(r.sol[x := '1']), cost);
      if total < U then Found(r.sol[x := '1'], total) else Nothing
    else Nothing
  }

  lemma ClosedSearch(F: seq<string>, sol: string, base: int, U: int, cost: seq<int>)
    requires IsReduct(Reduct(F, sol), |cost|) && IsDecided(sol)
    ensures Search(F, sol, base, U, cost) == ClosedAnswer(F, sol, base, U, cost)
  {
    var r := Reduced(F, sol, cost);
    var x := BranchColumn(r.F, |sol|, |sol|);
    ReducedStaysClosed(F, sol, cost);
    ReducedSolvesNone(F, sol, cost);
    if r.F != [] && BoundOf(r, base, cost) < U && x != -1 {
      ClosedBranches(r, x, base, BoundOf(r, base, cost), U, cost);
    }
  }

  /** One branch takes x and the other nothing, and neither has a column left. */
  lemma ClosedBranches(r: Reduct, x: nat, base: int, L: int, U: int, cost: seq<int>)
    requires IsReduct(r, |cost|) && IsDecided(r.sol) && x < |cost| && r.F != [] && NoneSolved(r.F, r.sol)
    ensures var total := base + Weight(Chosen(r.sol[x := '1']), cost);
      SearchBoth(r, x, base, L, U, cost)
      == if CoversAll(r.F, x) && total < U then Found(r.sol[x := '1'], total) else Nothing
  {
    var a1 := ClosedTake(r, x, base, U, cost);
    ClosedDrop(r, x, base, Lowered(a1, U), cost);
  }

  lemma ClosedTake(r: Reduct, x: nat, base: int, U: int, cost: seq<int>) returns (a: Answer)
    requires IsReduct(r, |cost|) && IsDecided(r.sol) && x < |cost| && NoneSolved(r.F, r.sol)
    ensures FreeCount(r.sol[x := '1'], |cost|) < |cost| && a == SearchChild(r.F, r.sol[x := '1'], base, U, cost)
    ensures var total := base + Weight(Chosen(r.sol[x := '1']), cost);
      a == if CoversAll(r.F, x) && total < U then Found(r.sol[x := '1'], total) else Nothing
  {
    OneLess(r.sol, x, '1');
    ClosedChild(r.F, r.sol[x := '1'], base, U, cost);
    UnsolvedByOne(r.F, r.sol, x);
    a := SearchChild(r.F, r.sol[x := '1'], base, U, cost);
  }

  lemma ClosedDrop(r: Reduct, x: nat, base: int, U: int, cost: seq<int>)
    requires IsReduct(r, |cost|) && IsDecided(r.sol) && x < |cost| && r.F != [] && NoneSolved(r.F, r.sol)
    ensures FreeCount(r.sol[x := '0'], |cost|) < |cost|
    ensures SearchChild(r.F, r.sol[x := '0'], base, U, cost) == Nothing
  {
    OneLess(r.sol, x, '0');
    ClosedChild(r.F, r.sol[x := '0'], base, U, cost);
    UnsolvedByOne(r.F, r.sol, x);
  }

  /** What is answered for an all '0' partial solution is a cover all the same. */
  lemma ClosedIsSound(F: seq<string>, sol: string, base: int, U: int, cost: seq<int>)
    requires IsReduct(Reduct(F, sol), |cost|) && forall i :: 0 <= i < |sol| ==> sol[i] == '0'
    ensures var a := Search(F, sol, base, U, cost);
      a.Found? ==> Covers(F, Chosen(a.sol)) && a.total == base + Weight(Chosen(a.sol), cost)
  {
    var open := AllDashes(|sol|);
    assert Chosen(sol) == Chosen(open);
    ReducedAlike(F, sol, open, cost);
    ReducedKeepsOptimum(F, open, cost);
    ClosedSearch(F, sol, base, U, cost);
    var r, o, a := Reduced(F, sol, cost), Reduced(F, open, cost), Search(F, sol, base, U, cost);
    if a.Found? && r.F == [] {
      assert Completion(o.F, o.sol, Chosen(a.sol)) by { ChosenIsCheapest(o.sol, cost); }
      assert Completion(F, open, Chosen(a.sol));
    } else if a.Found? {
      var x := BranchColumn(r.F, |sol|, |sol|);
      OneMoreTaken(r, o, x);
      assert Completion(F, open, Chosen(a.sol));
    }
  }

  lemma OneMoreTaken(r: Reduct, o: Reduct, x: nat)
    requires ReductsAlike(r, o) && IsReduct(o, |r.sol|) && WellFormed(o.F, o.sol) && x < |r.sol|
    requires r.F != [] && CoversAll(r.F, x)
    ensures Completion(o.F, o.sol, Chosen(r.sol[x := '1']))
  {
    var s := Chosen(r.sol[x := '1']);
    assert o.F[0][x] == '1';
    forall i | 0 <= i < |s| && i != x ensures s[i] == (o.sol[i] == '1') {
      assert Chosen(r.sol)[i] == Chosen(o.sol)[i];
    }
    forall p | 0 <= p < |o.F| ensures Hits(o.F[p], s) {
      assert o.F[p][x] == '1' && s[x];
    }
  }

  /** With unit costs, as the callers pass them, an answer is a cheapest cover. */
  lemma ClosedIsCheapest(F: seq<string>, sol: string, base: int, U: int, cost: seq<int>, s: seq<bool>)
    requires IsReduct(Reduct(F, sol), |cost|) && forall i :: 0 <= i < |sol| ==> sol[i] == '0'
    requires (forall i :: 0 <= i < |cost| ==> cost[i] == 1) && |s| == |cost| && Covers(F, s)
    ensures var a := Search(F, sol, base, U, cost);
      a.Found? ==> Weight(Chosen(a.sol), cost) <= Weight(s, cost)
  {
    var open := AllDashes(|sol|);
    assert Chosen(sol) == Chosen(open);
    ReducedAlike(F, sol, open, cost);
    ClosedSearch(F, sol, base, U, cost);
    var r, o := Reduced(F, sol, cost), Reduced(F, open, cost);
    var s' := NoDearerCover(F, cost, s);
    if r.F == [] {
      ChosenIsCheapest(o.sol, cost);
    } else {
      OneMoreIsCheapest(r, o, cost, BranchColumn(r.F, |sol|, |sol|), s');
    }
  }

  lemma NoDearerCover(F: seq<string>, cost: seq<int>, s: seq<bool>) returns (s': seq<bool>)
    requires IsTable(F, |cost|) && CostsAtLeast(cost, 0) && |s| == |cost| && Covers(F, s)
    ensures var o := Reduced(F, AllDashes(|cost|), cost);
      WellFormed(o.F, o.sol) && Completion(o.F, o.sol, s') && Weight(s', cost) <= Weight(s, cost)
  {
    var open := AllDashes(|cost|);
    var o := Reduced(F, open, cost);
    ReducedKeepsOptimum(F, open, cost);
    assert Completion(F, open, s);
    assert HasNoDearer(o.F, o.sol, cost, s);
    s' :| Completion(o.F, o.sol, s') && Weight(s', cost) <= Weight(s, cost);
  }

  /** A column more than reduce takes is no more than the rows left cost anyway. */
  lemma OneMoreIsCheapest(r: Reduct, o: Reduct, cost: seq<int>, x: int, s: seq<bool>)
    requires ReductsAlike(r, o) && WellFormed(o.F, o.sol) && |cost| == |o.sol| && r.F != []
    requires (forall i :: 0 <= i < |cost| ==> cost[i] == 1) && Completion(o.F, o.sol, s)
    ensures 0 <= x < |cost| ==> Weight(Chosen(r.sol[x := '1']), cost) <= Weight(s, cost)
  {
    if 0 <= x < |cost| {
      GreedyPicksOne(o.F, cost);
      LowerBoundIsSound(o.F, o.sol, cost, s);
      UpdateWeight(Chosen(r.sol), cost, x, true, |cost|);
      assert Chosen(r.sol[x := '1']) == Chosen(r.sol)[x := true];
    }
  }

  lemma EqualCosts(F: seq<string>, cost: seq<int>, cost': seq<int>)
    requires |cost| == |cost'| && IsReduced(F, cost)
    requires forall i, j :: 0 <= i < |cost| && 0 <= j < |cost| ==> cost[i] == cost[j]
    requires forall i, j :: 0 <= i < |cost| && 0 <= j < |cost| ==> cost'[i] == cost'[j]
    ensures IsReduced(F, cost')
  {
    forall i, j | 0 <= i < |cost| && 0 <= j < |cost| ensures !Yields(F, |cost|, cost', i, j) {
      assert !Yields(F, |cost|, cost, i, j);
    }
  }

  /** Without such a column rows that are left are not covered. */
  lemma NoAnswer(F: seq<string>, sol: string, base: int, U: int, cost: seq<int>)
    requires IsReduct(Reduct(F, sol), |cost|) && IsDecided(sol) && Reduced(F, sol, cost).F != []
    requires forall x :: 0 <= x < |cost| ==> !CoversAll(Reduced(F, sol, cost).F, x)
    ensures Search(F, sol, base, U, cost) == Nothing
  {
    ClosedSearch(F, sol, base, U, cost);
  }

  /** Three rows that two of the three columns cover, and what src/heursyn.c
      passes with them. */
  ghost predicate IsClosedTriangle(F: seq<string>, sol: string, cost: seq<int>) {
    F == TwoFree([0, 0, 0], 0, 1, 2) && sol == "000" && cost == [1, 1, 1]
  }

  lemma ClosedTriangleStays(F: seq<string>, sol: string, cost: seq<int>)
    requires IsClosedTriangle(F, sol, cost)
    ensures IsReduct(Reduct(F, sol), |cost|) && Reduced(F, sol, cost).F == F
  {
    var open := AllDashes(3);
    TwoFreeIsReduced([0, 0, 0], 0, 1, 2);
    EqualCosts(F, [0, 0, 0], cost);
    ReducedIsLeftAlone(F, open, cost);
    assert Chosen(sol) == Chosen(open);
    ReducedAlike(F, sol, open, cost);
  }

  /** Two columns cover the rows, but no answer is found, whatever the bound and
      the base cost, which the callers leave unset. */
  lemma ClosedTriangle(F: seq<string>, sol: string, base: int, U: int, cost: seq<int>)
    requires IsClosedTriangle(F, sol, cost)
    ensures IsReduct(Reduct(F, sol), |cost|) && Search(F, sol, base, U, cost) == Nothing
    ensures Covers(F, Both(3, 0, 1)) && Weight(Both(3, 0, 1), cost) < 4
  {
    ClosedTriangleStays(F, sol, cost);
    forall x | 0 <= x < 3 ensures !CoversAll(F, x) {
      assert F[0][2] == '0' && F[1][0] == '0' && F[2][1] == '0';
    }
    NoAnswer(F, sol, base, U, cost);
    TwoFreeIsReduced([0, 0, 0], 0, 1, 2);
    BothWeigh(cost, 0, 1);
  }
}
