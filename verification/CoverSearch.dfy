/** BCP of src/bcp.c as a function, and what it is for: with costs that count,
    the answer is a cheapest cover below the bound. */
module CoverSearch {
  import opened CoverTable
  import opened RowReduction
  import opened TableReduction
  import opened CoverBound
  import opened Reducts
  import opened SmallTables
  import opened Compression

  // The branching column

  ghost function OnesInColumn(F: seq<string>, i: nat): nat
    requires forall p :: 0 <= p < |F| ==> i < |F[p]|
  {
    if F == [] then 0
    else OnesInColumn(F[..|F| - 1], i) + if F[|F| - 1][i] == '1' then 1 else 0
  }

  lemma {:induction false} ColumnWithoutOnes(F: seq<string>, i: nat)
    requires forall p :: 0 <= p < |F| ==> i < |F[p]|
    ensures OnesInColumn(F, i) == 0 <==> forall p :: 0 <= p < |F| ==> F[p][i] != '1'
  {
    if F != [] {
      ColumnWithoutOnes(F[..|F| - 1], i);
      assert forall p :: 0 <= p < |F| - 1 ==> F[p] == F[..|F| - 1][p];
    }
  }

  /** The first of the columns 1 to k - 1 with the most '1's, or -1 if these
      columns have none.  Column 0 is never considered. */
  ghost function BranchColumn(F: seq<string>, n: nat, k: nat): (x: int)
    requires IsTable(F, n) && k <= n
    ensures x == -1 || 1 <= x < k
    ensures x == -1 ==> forall i :: 1 <= i < k ==> OnesInColumn(F, i) == 0
    ensures x != -1 ==> OnesInColumn(F, x) > 0
    ensures x != -1 ==> forall i :: 1 <= i < k ==>
      OnesInColumn(F, i) <= OnesInColumn(F, x) && (i < x ==> OnesInColumn(F, i) < OnesInColumn(F, x))
  {
    if k <= 1 then -1
    else
      var x := BranchColumn(F, n, k - 1);
      if x == -1 then if OnesInColumn(F, k - 1) > 0 then k - 1 else -1
      else if OnesInColumn(F, k - 1) > OnesInColumn(F, x) then k - 1 else x
  }

  /** Skipping column 0 is harmless on a reduced table: if chooseVar finds no
      column, some row is empty and nothing covers the table. */
  lemma NoColumnMeansNoCover(F: seq<string>, sol: string, s: seq<bool>)
    requires WellFormed(F, sol) && F != [] && Irredundant(F, |sol|)
    requires forall i :: 1 <= i < |sol| ==> OnesInColumn(F, i) == 0
    ensures !Completion(F, sol, s)
  {
    assert !IsSoleOne(F[0], 0) by { assert !EssentialIn(F, 0); }
    if Completion(F, sol, s) {
      assert Hits(F[0], s);
      var i :| 0 <= i < |sol| && F[0][i] == '1' && s[i];
      forall k | 1 <= k < |sol|
        ensures F[0][k] != '1'
      {
        ColumnWithoutOnes(F, k);
      }
    }
  }

  // The search

  datatype Answer = Nothing | Found(sol: string, total: int)

  ghost function BoundOf(r: Reduct, base: int, cost: seq<int>): int
    requires IsReduct(r, |cost|)
  {
    base + Weight(Chosen(r.sol), cost) + |GreedyRows(r.F, cost, [])|
  }

  /** The bound after the search: lowered to the total of the answer. */
  ghost function Lowered(a: Answer, U: int): int {
    if a.Found? then a.total else U
  }

  ghost function Search(F: seq<string>, sol: string, base: int, U: int, cost: seq<int>): (a: Answer)
    requires IsReduct(Reduct(F, sol), |sol|) && |cost| == |sol|
    ensures a.Found? ==> |a.sol| == |sol| && a.total < U
    decreases |sol|, 2
  {
    var r := Reduced(F, sol, cost);
    if r.F == [] then
      var total := base + Weight(Chosen(r.sol), cost);
      if total < U then Found(r.sol, total) else Nothing
    else
      var L, x := BoundOf(r, base, cost), BranchColumn(r.F, |sol|, |sol|);
      if L >= U || x == -1 then Nothing else SearchBoth(r, x, base, L, U, cost)
  }

  /** The two branches on column x. */
  ghost function SearchBoth(r: Reduct, x: nat, base: int, L: int, U: int, cost: seq<int>): (a: Answer)
    requires IsReduct(r, |cost|) && x < |cost|
    ensures a.Found? ==> |a.sol| == |cost| && a.total < U
    decreases |cost|, 1
  {
    OneLess(r.sol, x, '1');
    OneLess(r.sol, x, '0');
    var a1 := SearchChild(r.F, r.sol[x := '1'], base, U, cost);
    if a1.Found? && a1.total == L then a1
    else
      var a0 := SearchChild(r.F, r.sol[x := '0'], base, Lowered(a1, U), cost);
      if a0.Found? then a0 else a1
  }

  lemma OneLess(sol: string, x: nat, d: char)
    requires x < |sol| && d != '-'
    ensures FreeCount(sol[x := d], |sol|) < |sol|
  {
    assert sol[x := d][x] != '-';
    FreeCountShrinks(sol[x := d], |sol|);
  }

  /** What a branch hands to the recursive call. */
  datatype Problem = Problem(F: seq<string>, base: int, cost: seq<int>)

  ghost function ChildProblem(F: seq<string>, sol: string, base: int, cost: seq<int>): (q: Problem)
    requires IsReduct(Reduct(F, sol), |cost|)
    ensures |q.cost| == FreeCount(sol, |sol|) && IsTable(q.F, |q.cost|)
  {
    ChildTableIsTable(F, sol);
    CompressEntry(sol, cost, |sol|);
    Problem(ChildTable(F, sol), base + Weight(Chosen(sol), cost), Compress(sol, cost, |sol|))
  }

  /** The search in the table that the decisions in sol leave. */
  ghost function SearchChild(F: seq<string>, sol: string, base: int, U: int, cost: seq<int>): (a: Answer)
    requires IsReduct(Reduct(F, sol), |cost|) && FreeCount(sol, |sol|) < |sol|
    ensures a.Found? ==> |a.sol| == |cost| && a.total < U
    decreases |cost|, 0
  {
    var q := ChildProblem(F, sol, base, cost);
    var c := Search(q.F, AllDashes(|q.cost|), q.base, U, q.cost);
    if c.Found? then Found(Lift(sol, c.sol), c.total) else Nothing
  }

  /** The search once reduce has left rows: prune, or branch. */
  ghost function SearchReduct(r: Reduct, base: int, U: int, cost: seq<int>): (a: Answer)
    requires IsReduct(r, |cost|) && r.F != []
    ensures a.Found? ==> |a.sol| == |cost| && a.total < U
  {
    var L, x := BoundOf(r, base, cost), BranchColumn(r.F, |cost|, |cost|);
    if L >= U || x == -1 then Nothing else SearchBoth(r, x, base, L, U, cost)
  }

  // An answer is a cover at the reported total

  /** An answer completes sol to a cover of F at its total. */
  ghost predicate IsAnswer(a: Answer, F: seq<string>, sol: string, cost: seq<int>, base: int)
    requires |sol| == |cost| && IsTable(F, |sol|)
  {
    a.Found? ==> |a.sol| == |sol| && Completion(F, sol, Chosen(a.sol)) && a.total == base + Weight(Chosen(a.sol), cost)
  }

  /** Covers of a branch of a table are covers of the table. */
  lemma WiderCompletion(F: seq<string>, sol: string, x: nat, d: char, s: seq<bool>)
    requires IsTable(F, |sol|) && x < |sol| && sol[x] == '-'
    requires Completion(F, sol[x := d], s)
    ensures Completion(F, sol, s)
  {
  }

  lemma BranchIsOpen(F: seq<string>, sol: string, x: nat)
    requires WellFormed(F, sol) && x < |sol| && OnesInColumn(F, x) > 0
    ensures sol[x] == '-'
  {
    ColumnWithoutOnes(F, x);
  }

  /** Lifting a cover of the child. */
  lemma LiftIsCover(F: seq<string>, sol: string, base: int, cost: seq<int>, c: string)
    requires IsReduct(Reduct(F, sol), |cost|) && |c| == FreeCount(sol, |sol|)
    requires Covers(ChildProblem(F, sol, base, cost).F, Chosen(c))
    ensures var q := ChildProblem(F, sol, base, cost);
      && Completion(F, sol, Chosen(Lift(sol, c)))
      && base + Weight(Chosen(Lift(sol, c)), cost) == q.base + Weight(Chosen(c), q.cost)
  {
    ChildCovers(F, sol, Chosen(c));
    ExpandWeight(sol, Chosen(c), cost);
  }

  lemma {:induction false} SearchIsSound(F: seq<string>, sol: string, base: int, U: int, cost: seq<int>)
    requires WellFormed(F, sol) && |cost| == |sol|
    ensures IsAnswer(Search(F, sol, base, U, cost), F, sol, cost, base)
    decreases |sol|, 2
  {
    var r := Reduced(F, sol, cost);
    ReducedKeepsOptimum(F, sol, cost);
    if r.F == [] {
      ChosenIsCheapest(r.sol, cost);
    } else {
      var L, x := BoundOf(r, base, cost), BranchColumn(r.F, |sol|, |sol|);
      if L < U && x != -1 {
        BranchIsOpen(r.F, r.sol, x);
        BothAreSound(r, x, base, L, U, cost);
      }
    }
  }

  lemma {:induction false} BothAreSound(r: Reduct, x: nat, base: int, L: int, U: int, cost: seq<int>)
    requires IsReduct(r, |cost|) && x < |cost| && r.sol[x] == '-'
    ensures IsAnswer(SearchBoth(r, x, base, L, U, cost), r.F, r.sol, cost, base)
    decreases |cost|, 1
  {
    OneLess(r.sol, x, '1');
    OneLess(r.sol, x, '0');
    var a1 := SearchChild(r.F, r.sol[x := '1'], base, U, cost);
    var a0 := SearchChild(r.F, r.sol[x := '0'], base, Lowered(a1, U), cost);
    ChildIsSound(r.F, r.sol[x := '1'], base, U, cost);
    ChildIsSound(r.F, r.sol[x := '0'], base, Lowered(a1, U), cost);
    if a1.Found? {
      WiderCompletion(r.F, r.sol, x, '1', Chosen(a1.sol));
    }
    if a0.Found? {
      WiderCompletion(r.F, r.sol, x, '0', Chosen(a0.sol));
    }
  }

  lemma {:induction false} ChildIsSound(F: seq<string>, sol: string, base: int, U: int, cost: seq<int>)
    requires IsReduct(Reduct(F, sol), |cost|) && FreeCount(sol, |sol|) < |sol|
    ensures IsAnswer(SearchChild(F, sol, base, U, cost), F, sol, cost, base)
    decreases |cost|, 0
  {
    var q := ChildProblem(F, sol, base, cost);
    var c := Search(q.F, AllDashes(|q.cost|), q.base, U, q.cost);
    SearchIsSound(q.F, AllDashes(|q.cost|), q.base, U, q.cost);
    if c.Found? {
      LiftIsCover(F, sol, base, cost, c.sol);
    }
  }

  /** What an answer decides: it is the reduct's partial solution if no rows are
      left, and decides every column if there was a branch. */
  ghost predicate Decides(r: Reduct, sol: string) {
    |sol| == |r.sol| && IsPartial(sol) && if r.F == [] then sol == r.sol else AllDecided(sol)
  }

  lemma {:induction false} SearchDecides(F: seq<string>, sol: string, base: int, U: int, cost: seq<int>)
    requires IsReduct(Reduct(F, sol), |cost|)
    ensures var a, r := Search(F, sol, base, U, cost), Reduced(F, sol, cost);
      a.Found? ==> Decides(r, a.sol) && (WellFormed(F, sol) ==> KeepsDecisions(r.sol, a.sol))
    decreases |cost|, 1
  {
    var r := Reduced(F, sol, cost);
    if WellFormed(F, sol) {
      ReducedKeepsOptimum(F, sol, cost);
    }
    if r.F != [] {
      var L, x := BoundOf(r, base, cost), BranchColumn(r.F, |sol|, |sol|);
      if L < U && x != -1 {
        BothDecide(r, x, base, L, U, cost);
        if WellFormed(F, sol) {
          BranchIsOpen(r.F, r.sol, x);
        }
      }
    }
  }

  lemma {:induction false} BothDecide(r: Reduct, x: nat, base: int, L: int, U: int, cost: seq<int>)
    requires IsReduct(r, |cost|) && x < |cost|
    ensures var a := SearchBoth(r, x, base, L, U, cost);
      a.Found? ==> AllDecided(a.sol) && (r.sol[x] == '-' ==> KeepsDecisions(r.sol, a.sol))
    decreases |cost|, 0, 1
  {
    OneLess(r.sol, x, '1');
    OneLess(r.sol, x, '0');
    var a1 := SearchChild(r.F, r.sol[x := '1'], base, U, cost);
    ChildDecides(r.F, r.sol[x := '1'], base, U, cost);
    ChildDecides(r.F, r.sol[x := '0'], base, Lowered(a1, U), cost);
    if r.sol[x] == '-' {
      KeepsThroughBranch(r.sol, x, '1');
      KeepsThroughBranch(r.sol, x, '0');
    }
  }

  lemma KeepsThroughBranch(sol: string, x: nat, d: char)
    requires x < |sol| && sol[x] == '-'
    ensures forall s :: KeepsDecisions(sol[x := d], s) ==> KeepsDecisions(sol, s)
  {
    forall s | KeepsDecisions(sol[x := d], s) ensures KeepsDecisions(sol, s) {
      forall i | 0 <= i < |sol| && sol[i] != '-' ensures s[i] == sol[i] {
        assert sol[x := d][i] == sol[i];
      }
    }
  }

  lemma {:induction false} ChildDecides(F: seq<string>, sol: string, base: int, U: int, cost: seq<int>)
    requires IsReduct(Reduct(F, sol), |cost|) && FreeCount(sol, |sol|) < |sol|
    ensures var a := SearchChild(F, sol, base, U, cost);
      a.Found? ==> KeepsDecisions(sol, a.sol) && AllDecided(a.sol)
    decreases |cost|, 0, 0
  {
    var q := ChildProblem(F, sol, base, cost);
    var c := Search(q.F, AllDashes(|q.cost|), q.base, U, q.cost);
    SearchDecides(q.F, AllDashes(|q.cost|), q.base, U, q.cost);
    if c.Found? {
      LiftDecides(sol, c.sol);
    }
  }

  /** An answer costs what it says, whatever the partial solution. */
  lemma {:induction false} SearchTotal(F: seq<string>, sol: string, base: int, U: int, cost: seq<int>)
    requires IsReduct(Reduct(F, sol), |cost|)
    ensures var a := Search(F, sol, base, U, cost);
      a.Found? ==> a.total == base + Weight(Chosen(a.sol), cost)
    decreases |cost|, 1
  {
    var r := Reduced(F, sol, cost);
    if r.F != [] {
      var x := BranchColumn(r.F, |sol|, |sol|);
      if BoundOf(r, base, cost) < U && x != -1 {
        OneLess(r.sol, x, '1');
        OneLess(r.sol, x, '0');
        var a1 := SearchChild(r.F, r.sol[x := '1'], base, U, cost);
        ChildTotal(r.F, r.sol[x := '1'], base, U, cost);
        ChildTotal(r.F, r.sol[x := '0'], base, Lowered(a1, U), cost);
      }
    }
  }

  lemma {:induction false} ChildTotal(F: seq<string>, sol: string, base: int, U: int, cost: seq<int>)
    requires IsReduct(Reduct(F, sol), |cost|) && FreeCount(sol, |sol|) < |sol|
    ensures var a := SearchChild(F, sol, base, U, cost);
      a.Found? ==> a.total == base + Weight(Chosen(a.sol), cost)
    decreases |cost|, 0
  {
    var q := ChildProblem(F, sol, base, cost);
    var c := Search(q.F, AllDashes(|q.cost|), q.base, U, q.cost);
    SearchTotal(q.F, AllDashes(|q.cost|), q.base, U, q.cost);
    if c.Found? {
      ExpandWeight(sol, Chosen(c.sol), cost);
    }
  }

  // Nothing is cheaper

  /** No completion has a total below the bound. */
  ghost predicate NoneCheaper(F: seq<string>, sol: string, cost: seq<int>, base: int, bound: int)
    requires |sol| == |cost| && IsTable(F, |sol|)
  {
    forall s :: Completion(F, sol, s) ==> base + Weight(s, cost) >= bound
  }

  /** What makes lower_bound right on every table the search meets: no cost is
      negative, and the columns that cover something cost something, or there
      are too few columns for the difference to show. */
  ghost predicate CountsRows(F: seq<string>, cost: seq<int>)
    requires IsTable(F, |cost|)
  {
    CostsAtLeast(cost, 0) && (Priced(F, cost) || IsSmall(cost))
  }

  lemma ReducedBound(F: seq<string>, sol: string, r: Reduct, cost: seq<int>, base: int, bound: int)
    requires |sol| == |cost| && IsTable(F, |sol|) && IsReduct(r, |cost|)
    requires KeepsOptimum(F, sol, r.F, r.sol, cost) && NoneCheaper(r.F, r.sol, cost, base, bound)
    ensures NoneCheaper(F, sol, cost, base, bound)
  {
    forall s | Completion(F, sol, s) ensures base + Weight(s, cost) >= bound {
      assert HasNoDearer(r.F, r.sol, cost, s);
    }
  }

  lemma LeafBound(sol: string, cost: seq<int>, base: int)
    requires IsPartial(sol) && |cost| == |sol| && CostsAtLeast(cost, 0)
    ensures NoneCheaper([], sol, cost, base, base + Weight(Chosen(sol), cost))
  {
    ChosenIsCheapest(sol, cost);
  }

  /** lower_bound is right for the reduct. */
  lemma PruneBound(F: seq<string>, sol: string, cost: seq<int>, base: int)
    requires WellFormed(F, sol) && |cost| == |sol| && CountsRows(F, cost) && Reduced(F, sol, cost).F != []
    ensures var r := Reduced(F, sol, cost);
      CountsRows(r.F, cost) && NoneCheaper(r.F, r.sol, cost, base, BoundOf(r, base, cost))
  {
    var r := Reduced(F, sol, cost);
    ReducedKeepsOptimum(F, sol, cost);
    ReducedNoNewOnes(F, sol, cost);
    forall s | Completion(r.F, r.sol, s) ensures base + Weight(s, cost) >= BoundOf(r, base, cost) {
      if Priced(F, cost) {
        StillPriced(F, r.F, cost);
        LowerBoundIsSound(r.F, r.sol, cost, s);
      } else {
        SmallBound(F, sol, cost, s);
      }
    }
    if Priced(F, cost) {
      StillPriced(F, r.F, cost);
    }
  }

  lemma StillPriced(F: seq<string>, F': seq<string>, cost: seq<int>)
    requires IsTable(F, |cost|) && IsTable(F', |cost|) && Priced(F, cost) && NoNewOnes(F, F', |cost|)
    ensures Priced(F', cost)
  {
    forall p, i | 0 <= p < |F'| && 0 <= i < |cost| && F'[p][i] == '1' ensures cost[i] >= 1 {
      assert HasOneAt(F, i);
    }
  }

  /** The two branches together bound the table they split. */
  lemma BothBranches(F: seq<string>, sol: string, cost: seq<int>, base: int, bound: int, x: nat)
    requires |sol| == |cost| && IsTable(F, |sol|) && x < |sol| && sol[x] == '-'
    requires NoneCheaper(F, sol[x := '1'], cost, base, bound)
    requires NoneCheaper(F, sol[x := '0'], cost, base, bound)
    ensures NoneCheaper(F, sol, cost, base, bound)
  {
    forall s | Completion(F, sol, s) ensures base + Weight(s, cost) >= bound {
      assert Completion(F, if s[x] then sol[x := '1'] else sol[x := '0'], s);
    }
  }

  /** What the recursive call proves about the child holds of the parent. */
  lemma ChildBound(F: seq<string>, sol: string, cost: seq<int>, base: int, bound: int)
    requires IsReduct(Reduct(F, sol), |cost|)
    requires var q := ChildProblem(F, sol, base, cost);
      NoneCheaper(q.F, AllDashes(|q.cost|), q.cost, q.base, bound)
    ensures NoneCheaper(F, sol, cost, base, bound)
  {
    var q := ChildProblem(F, sol, base, cost);
    forall s | Completion(F, sol, s) ensures base + Weight(s, cost) >= bound {
      var c := Compress(sol, s, |sol|);
      ExpandCompress(sol, s);
      ChildCovers(F, sol, c);
      ExpandWeight(sol, c, cost);
      assert Completion(q.F, AllDashes(|q.cost|), c);
    }
  }

  lemma ChildEntry(F: seq<string>, sol: string, base: int, cost: seq<int>, p: nat, j: nat)
    requires IsReduct(Reduct(F, sol), |cost|) && Priced(F, cost)
    requires var q := ChildProblem(F, sol, base, cost);
      p < |q.F| && j < |q.cost| && q.F[p][j] == '1'
    ensures ChildProblem(F, sol, base, cost).cost[j] >= 1
  {
    UnsolvedRows(F, sol, |F|);
    var row := Unsolved(F, sol, |F|)[p];
    assert row in Unsolved(F, sol, |F|);
    var k :| 0 <= k < |F| && F[k] == row;
    var i := OpenColumn(sol, |sol|, j);
    CompressEntry(sol, row, |sol|);
    CompressEntry(sol, cost, |sol|);
    assert F[k][i] == '1';
  }

  lemma ChildCosts(F: seq<string>, sol: string, base: int, cost: seq<int>)
    requires IsReduct(Reduct(F, sol), |cost|) && CostsAtLeast(cost, 0)
    ensures CostsAtLeast(ChildProblem(F, sol, base, cost).cost, 0)
  {
    var c := ChildProblem(F, sol, base, cost).cost;
    CompressEntry(sol, cost, |sol|);
    forall j | 0 <= j < |c| ensures c[j] >= 0 {
      assert c[j] in cost;
    }
  }

  lemma ChildIsPriced(F: seq<string>, sol: string, base: int, cost: seq<int>)
    requires IsReduct(Reduct(F, sol), |cost|) && Priced(F, cost)
    ensures var q := ChildProblem(F, sol, base, cost); Priced(q.F, q.cost)
  {
    var q := ChildProblem(F, sol, base, cost);
    ChildCosts(F, sol, base, cost);
    forall p, j | 0 <= p < |q.F| && 0 <= j < |q.cost| && q.F[p][j] == '1' ensures q.cost[j] >= 1 {
      ChildEntry(F, sol, base, cost, p, j);
    }
  }

  /** The child inherits that its rows can be counted. */
  lemma ChildCountsRows(F: seq<string>, sol: string, base: int, cost: seq<int>)
    requires IsReduct(Reduct(F, sol), |cost|) && FreeCount(sol, |sol|) < |sol| && CountsRows(F, cost)
    ensures var q := ChildProblem(F, sol, base, cost); CountsRows(q.F, q.cost)
  {
    ChildCosts(F, sol, base, cost);
    if Priced(F, cost) {
      ChildIsPriced(F, sol, base, cost);
    }
  }

  /** The search is exact: nothing whatsoever is below the bound it leaves. */
  lemma {:induction false} SearchIsExact(F: seq<string>, sol: string, base: int, U: int, cost: seq<int>)
    requires WellFormed(F, sol) && |cost| == |sol| && CountsRows(F, cost)
    ensures NoneCheaper(F, sol, cost, base, Lowered(Search(F, sol, base, U, cost), U))
    decreases |sol|, 2
  {
    var r, a := Reduced(F, sol, cost), Search(F, sol, base, U, cost);
    ReducedKeepsOptimum(F, sol, cost);
    if r.F == [] {
      LeafBound(r.sol, cost, base);
    } else {
      var L, x := BoundOf(r, base, cost), BranchColumn(r.F, |sol|, |sol|);
      PruneBound(F, sol, cost, base);
      if x == -1 {
        NoColumnNoCover(r, cost, base, U);
      } else if L < U {
        BranchIsOpen(r.F, r.sol, x);
        BothAreExact(r, x, base, L, U, cost);
      }
    }
    ReducedBound(F, sol, r, cost, base, Lowered(a, U));
  }

  lemma NoColumnNoCover(r: Reduct, cost: seq<int>, base: int, U: int)
    requires IsReduct(r, |cost|) && WellFormed(r.F, r.sol) && r.F != [] && Irredundant(r.F, |cost|)
    requires forall i :: 1 <= i < |cost| ==> OnesInColumn(r.F, i) == 0
    ensures NoneCheaper(r.F, r.sol, cost, base, U)
  {
    forall s ensures !Completion(r.F, r.sol, s) {
      NoColumnMeansNoCover(r.F, r.sol, s);
    }
  }

  lemma {:induction false} BothAreExact(r: Reduct, x: nat, base: int, L: int, U: int, cost: seq<int>)
    requires IsReduct(r, |cost|) && x < |cost| && r.sol[x] == '-' && CountsRows(r.F, cost)
    requires NoneCheaper(r.F, r.sol, cost, base, L)
    ensures NoneCheaper(r.F, r.sol, cost, base, Lowered(SearchBoth(r, x, base, L, U, cost), U))
    decreases |cost|, 1
  {
    OneLess(r.sol, x, '1');
    OneLess(r.sol, x, '0');
    var a1 := SearchChild(r.F, r.sol[x := '1'], base, U, cost);
    var a0 := SearchChild(r.F, r.sol[x := '0'], base, Lowered(a1, U), cost);
    ChildIsExact(r.F, r.sol[x := '1'], base, U, cost);
    ChildIsExact(r.F, r.sol[x := '0'], base, Lowered(a1, U), cost);
    BothBranches(r.F, r.sol, cost, base, Lowered(a0, Lowered(a1, U)), x);
  }

  lemma {:induction false} ChildIsExact(F: seq<string>, sol: string, base: int, U: int, cost: seq<int>)
    requires IsReduct(Reduct(F, sol), |cost|) && FreeCount(sol, |sol|) < |sol| && CountsRows(F, cost)
    ensures NoneCheaper(F, sol, cost, base, Lowered(SearchChild(F, sol, base, U, cost), U))
    decreases |cost|, 0
  {
    var q := ChildProblem(F, sol, base, cost);
    ChildCountsRows(F, sol, base, cost);
    SearchIsExact(q.F, AllDashes(|q.cost|), q.base, U, q.cost);
    ChildBound(F, sol, cost, base, Lowered(SearchChild(F, sol, base, U, cost), U));
  }
}
