/** For which costs the covering search of src/bcp.c is exact on every table:
    the exact condition, and a table that fails for all other costs. */
module FreeColumns {
  import opened CoverTable
  import opened RowReduction
  import opened ColumnReduction
  import opened TableReduction
  import opened CoverBound
  import opened Compression
  import opened SmallTables
  import opened CoverSearch

  /** Nothing is below the bound that the search leaves. */
  ghost predicate IsExact(F: seq<string>, cost: seq<int>, base: int, U: int)
    requires IsTable(F, |cost|)
  {
    var open := AllDashes(|cost|);
    NoneCheaper(F, open, cost, base, Lowered(Search(F, open, base, U, cost), U))
  }

  /** Every column costs something, or there are at most three and few free ones. */
  ghost predicate IsPriced(cost: seq<int>) {
    CostsAtLeast(cost, 1) || (CostsAtLeast(cost, 0) && IsSmall(cost))
  }

  /** lower_bound is wrong for the reduct of F: s completes it for less. */
  ghost predicate BreaksBound(F: seq<string>, cost: seq<int>, s: seq<bool>)
    requires IsTable(F, |cost|)
  {
    var r := Reduced(F, AllDashes(|cost|), cost);
    r.F != [] && Completion(r.F, r.sol, s) && Weight(s, cost) < BoundOf(r, 0, cost)
  }

  lemma BrokenBoundMisses(F: seq<string>, cost: seq<int>, s: seq<bool>)
    requires IsTable(F, |cost|) && BreaksBound(F, cost, s)
    ensures !IsExact(F, cost, 0, BoundOf(Reduced(F, AllDashes(|cost|), cost), 0, cost))
  {
    var open := AllDashes(|cost|);
    ReducedKeepsOptimum(F, open, cost);
    assert Completion(F, open, s);
  }

  lemma BrokenBoundPrunes(F: seq<string>, cost: seq<int>, s: seq<bool>, U: int)
    requires IsTable(F, |cost|) && BreaksBound(F, cost, s) && U <= Weight(s, cost) + 1
    ensures Search(F, AllDashes(|cost|), 0, U, cost) == Nothing
  {
  }

  // Selections and rows

  ghost function Both(n: nat, i: nat, j: nat): (s: seq<bool>)
    requires i < n && j < n
    ensures |s| == n && forall k :: 0 <= k < n ==> s[k] == (k == i || k == j)
  {
    seq(n, k => k == i || k == j)
  }

  lemma BothWeigh(cost: seq<int>, i: nat, j: nat)
    requires i < |cost| && j < |cost| && i != j
    ensures Weight(Both(|cost|, i, j), cost) == cost[i] + cost[j]
  {
    var n := |cost|;
    var none := seq(n, _ => false);
    NothingWeighsNothing(none, cost, n);
    UpdateWeight(none, cost, i, true, n);
    UpdateWeight(none[i := true], cost, j, true, n);
    assert none[i := true][j := true] == Both(n, i, j);
  }

  lemma OneWeighs(s: seq<bool>, cost: seq<int>, i: nat)
    requires i < |s| == |cost| && forall k :: 0 <= k < |s| ==> s[k] == (k == i)
    ensures Weight(s, cost) == cost[i]
  {
    var none := seq(|s|, _ => false);
    NothingWeighsNothing(none, cost, |s|);
    UpdateWeight(none, cost, i, true, |s|);
    assert none[i := true] == s;
  }

  /** The row that needs i or j. */
  ghost function Pair(n: nat, i: nat, j: nat): (row: string)
    requires i < n && j < n
    ensures IsRow(row, n) && forall k :: 0 <= k < n ==> (row[k] == '1' <==> k == i || k == j)
  {
    seq(n, k => if k == i || k == j then '1' else '0')
  }

  lemma PairIsNotSole(n: nat, i: nat, j: nat, k: nat)
    requires i < n && j < n && i != j
    ensures !IsSoleOne(Pair(n, i, j), k)
  {
    var row := Pair(n, i, j);
    assert row[i] == '1' && row[j] == '1';
  }

  // The greedy choice is never empty

  lemma {:induction false} SomeShortest(M: seq<string>, cost: seq<int>, k: nat) returns (i: nat)
    requires IsTable(M, |cost|) && 0 < k <= |M|
    ensures i < k && forall q :: 0 <= q < k ==>
      RowCost(M[i], cost) <= RowCost(M[q], cost) && (q < i ==> RowCost(M[i], cost) < RowCost(M[q], cost))
  {
    if k == 1 {
      i := 0;
    } else {
      i := SomeShortest(M, cost, k - 1);
      if RowCost(M[k - 1], cost) < RowCost(M[i], cost) {
        i := k - 1;
      }
    }
  }

  lemma GreedyPicksOne(M: seq<string>, cost: seq<int>)
    requires IsTable(M, |cost|) && M != []
    ensures |GreedyRows(M, cost, [])| >= 1
  {
    var i := SomeShortest(M, cost, |M|);
    assert IsShortest(M, cost, [], i);
    NextIsShortest(M, cost, [], i);
    GreedyRowsGrow(M, cost, [] + [i]);
  }

  // Negative costs

  /** The empty table is covered by taking a column of negative cost, which the
      search does not do. */
  lemma NegativeMisses(cost: seq<int>, k: nat)
    requires k < |cost| && cost[k] < 0
    ensures !IsExact([], cost, 0, 1)
  {
    var n := |cost|;
    var open, none := AllDashes(n), seq(n, _ => false);
    NothingWeighsNothing(Chosen(open), cost, n);
    NothingWeighsNothing(none, cost, n);
    UpdateWeight(none, cost, k, true, n);
    assert Completion([], open, none[k := true]);
  }

  // Two free columns

  lemma ReducedTableBreaks(F: seq<string>, cost: seq<int>, s: seq<bool>)
    requires IsReduced(F, cost) && F != [] && |s| == |cost| && Covers(F, s) && Weight(s, cost) < 1
    ensures BreaksBound(F, cost, s)
  {
    var open := AllDashes(|cost|);
    ReducedIsLeftAlone(F, open, cost);
    NothingWeighsNothing(Chosen(open), cost, |cost|);
    GreedyPicksOne(F, cost);
  }

  ghost function TwoFree(cost: seq<int>, p: nat, q: nat, r: nat): (F: seq<string>)
    requires p < |cost| && q < |cost| && r < |cost|
    ensures IsTable(F, |cost|)
  {
    var n := |cost|;
    if cost[r] > 0 then [Pair(n, q, r), Pair(n, p, r)] else [Pair(n, p, q), Pair(n, q, r), Pair(n, p, r)]
  }

  /** Two free columns cover what a third column joins; each row costs at least
      nothing but is counted as 1. */
  lemma TwoFreeBreak(cost: seq<int>, p: nat, q: nat, r: nat)
    requires CostsAtLeast(cost, 0) && p < |cost| && q < |cost| && r < |cost| && p != q && q != r && p != r
    requires cost[p] == 0 && cost[q] == 0
    ensures BreaksBound(TwoFree(cost, p, q, r), cost, Both(|cost|, p, q))
  {
    BothWeigh(cost, p, q);
    TwoFreeIsReduced(cost, p, q, r);
    ReducedTableBreaks(TwoFree(cost, p, q, r), cost, Both(|cost|, p, q));
  }

  lemma TwoFreeIsReduced(cost: seq<int>, p: nat, q: nat, r: nat)
    requires CostsAtLeast(cost, 0) && p < |cost| && q < |cost| && r < |cost| && p != q && q != r && p != r
    requires cost[p] == 0 && cost[q] == 0
    ensures IsReduced(TwoFree(cost, p, q, r), cost) && Covers(TwoFree(cost, p, q, r), Both(|cost|, p, q))
  {
    var n, F := |cost|, TwoFree(cost, p, q, r);
    forall k, i: nat | 0 <= k < |F| ensures !IsSoleOne(F[k], i) {
      PairIsNotSole(n, p, q, i);
      PairIsNotSole(n, q, r, i);
      PairIsNotSole(n, p, r, i);
    }
    TwoFreeApart(cost, p, q, r);
    TwoFreeStay(cost, p, q, r);
    forall k | 0 <= k < |F| ensures Hits(F[k], Both(n, p, q)) {
      assert F[k][p] == '1' || F[k][q] == '1';
    }
  }

  lemma TwoFreeApart(cost: seq<int>, p: nat, q: nat, r: nat)
    requires p < |cost| && q < |cost| && r < |cost| && p != q && q != r && p != r
    ensures Incomparable(TwoFree(cost, p, q, r), |cost|)
  {
    var n, F := |cost|, TwoFree(cost, p, q, r);
    forall a, b | 0 <= a < |F| && 0 <= b < |F| && a != b ensures !Included(F[b], F[a]) {
      assert F[b][p] == '1' || F[b][q] == '1';
      assert F[b][q] == '1' || F[b][r] == '1';
      assert F[b][p] == '1' || F[b][r] == '1';
    }
  }

  lemma TwoFreeStay(cost: seq<int>, p: nat, q: nat, r: nat)
    requires p < |cost| && q < |cost| && r < |cost| && p != q && q != r && p != r
    requires cost[p] == 0 && cost[q] == 0 && cost[r] >= 0
    ensures NoColumnYields(TwoFree(cost, p, q, r), |cost|, cost)
  {
    var n, F := |cost|, TwoFree(cost, p, q, r);
    forall i, j | 0 <= i < n && 0 <= j < n ensures !Yields(F, n, cost, i, j) {
      if (j == p || j == q || j == r) && i != j && cost[j] >= cost[i] {
        var k := if cost[r] > 0 then if j == q || (j == r && i != q) then 0 else 1
                 else if j == p then if i == q then 2 else 0
                 else if j == q then if i == p then 1 else 0
                 else if i == q then 2 else 1;
        assert F[k][i] == '0' && F[k][j] == '1';
      }
    }
  }

  // One free column

  /** c is no dearer than d; z is free. */
  ghost predicate AreSpread(cost: seq<int>, c: nat, d: nat, a: nat, z: nat) {
    && c < |cost| && d < |cost| && a < |cost| && z < |cost|
    && c != d && c != a && c != z && d != a && d != z && a != z
    && cost[z] == 0 && cost[a] > 0 && 0 < cost[c] <= cost[d]
  }

  ghost function OneFree(cost: seq<int>, c: nat, d: nat, a: nat, z: nat): (F: seq<string>)
    requires AreSpread(cost, c, d, a, z)
    ensures IsTable(F, |cost|)
  {
    var n := |cost|;
    [Pair(n, c, d), Pair(n, c, a), Pair(n, a, z)]
  }

  lemma OneFreeIsIrredundant(cost: seq<int>, c: nat, d: nat, a: nat, z: nat)
    requires AreSpread(cost, c, d, a, z)
    ensures Irredundant(OneFree(cost, c, d, a, z), |cost|)
  {
    var n, F := |cost|, OneFree(cost, c, d, a, z);
    forall k, i: nat | 0 <= k < |F| ensures !IsSoleOne(F[k], i) {
      PairIsNotSole(n, c, d, i);
      PairIsNotSole(n, c, a, i);
      PairIsNotSole(n, a, z, i);
    }
    forall p, q | 0 <= p < |F| && 0 <= q < |F| && p != q ensures !Included(F[q], F[p]) {
      assert F[0][c] == '1' && F[0][d] == '1' && F[0][a] == '0' && F[0][z] == '0';
      assert F[1][c] == '1' && F[1][a] == '1' && F[1][d] == '0' && F[1][z] == '0';
      assert F[2][a] == '1' && F[2][z] == '1' && F[2][c] == '0' && F[2][d] == '0';
    }
  }

  /** The column pass gives nothing but d up. */
  lemma OnlyDYields(cost: seq<int>, c: nat, d: nat, a: nat, z: nat, sol: string, k: nat)
    requires AreSpread(cost, c, d, a, z) && |sol| == |cost| && k < |cost|
    requires HasStayingDominator(OneFree(cost, c, d, a, z), sol, cost, k)
    ensures k == d
  {
    var F, n := OneFree(cost, c, d, a, z), |cost|;
    var m :| 0 <= m < n && sol[m] == '-' && Yields(F, n, cost, m, k);
    if k != d {
      OneFreeDominators(cost, c, d, a, z, m, k);
    }
  }

  /** ... and it does give d up. */
  lemma DIsGivenUp(cost: seq<int>, c: nat, d: nat, a: nat, z: nat)
    requires AreSpread(cost, c, d, a, z)
    ensures var s := ColumnPass(OneFree(cost, c, d, a, z), AllDashes(|cost|), cost);
      |s.sol| == |cost| && s.sol[d] != '-'
  {
    var n, F, open := |cost|, OneFree(cost, c, d, a, z), AllDashes(|cost|);
    var s := ColumnPass(F, open, cost);
    ColumnPassKeepsOptimum(F, open, cost);
    if s.sol[d] == '-' {
      forall k | 0 <= k < n ensures SameColumn(F, s.F, n, k) {
        if s.sol[k] != '-' {
          OnlyDYields(cost, c, d, a, z, s.sol, k);
        }
      }
      forall p, k | 0 <= p < |F| && 0 <= k < n ensures s.F[p][k] == F[p][k] {
        assert SameColumn(F, s.F, n, k);
      }
      SameTable(s.F, F, n);
      assert F[0][d] == '1' && F[0][c] == '1';
      assert Yields(F, n, cost, c, d);
    }
  }

  /** The column pass gives exactly d up. */
  lemma OneFreePass(cost: seq<int>, c: nat, d: nat, a: nat, z: nat)
    requires AreSpread(cost, c, d, a, z)
    ensures var n, F, open := |cost|, OneFree(cost, c, d, a, z), AllDashes(|cost|);
      var s := ColumnPass(F, open, cost);
      s.F == [Pair(n, c, c), Pair(n, c, a), Pair(n, a, z)] && s.sol == open[d := '0'] && s.gone != Chosen(open)
  {
    var n, F, open := |cost|, OneFree(cost, c, d, a, z), AllDashes(|cost|);
    var s := ColumnPass(F, open, cost);
    ColumnPassKeepsOptimum(F, open, cost);
    DIsGivenUp(cost, c, d, a, z);
    forall k | 0 <= k < n && HasStayingDominator(F, s.sol, cost, k) ensures k == d {
      OnlyDYields(cost, c, d, a, z, s.sol, k);
    }
    assert s.sol == open[d := '0'];
    var G := [Pair(n, c, c), Pair(n, c, a), Pair(n, a, z)];
    forall p, k | 0 <= p < 3 && 0 <= k < n ensures s.F[p][k] == G[p][k] {
      if k == d {
        assert s.F[p][k] == '0';
      } else {
        assert SameColumn(F, s.F, n, k);
      }
    }
    SameTable(s.F, G, n);
  }

  lemma OneFreeDominators(cost: seq<int>, c: nat, d: nat, a: nat, z: nat, m: nat, k: nat)
    requires AreSpread(cost, c, d, a, z) && m < |cost| && k < |cost| && k != d
    ensures !Yields(OneFree(cost, c, d, a, z), |cost|, cost, m, k)
  {
    var F := OneFree(cost, c, d, a, z);
    if (k == c || k == a || k == z) && m != k && cost[k] >= cost[m] {
      var p := if k == c then if m == a then 0 else 1
               else if k == a then if m == c then 2 else 1
               else 2;
      assert F[p][m] == '0' && F[p][k] == '1';
    }
  }

  /** Then c has become essential and solves all rows but the last. */
  lemma OneFreeRounds(cost: seq<int>, c: nat, d: nat, a: nat, z: nat)
    requires AreSpread(cost, c, d, a, z)
    ensures var n := |cost|;
      var G, sol := [Pair(n, c, c), Pair(n, c, a), Pair(n, a, z)], AllDashes(n)[d := '0'];
      IsTable(G, n) && RowRounds(G, sol) == Reduct([Pair(n, a, z)], sol[c := '1'])
  {
    var n := |cost|;
    var G, sol := [Pair(n, c, c), Pair(n, c, a), Pair(n, a, z)], AllDashes(n)[d := '0'];
    var sol' := sol[c := '1'];
    OneFreeEssential(n, c, a, z);
    assert WithEssentials(G, sol) == sol';
    OneFreeUnsolved(n, c, d, a, z);
    var last := [Pair(n, a, z)];
    assert RowPass(G, sol) == Reduct(last, sol') by {
      assert !Superfluous(last, 0);
      assert Surviving(last, n, 1) == last + Surviving(last, n, 0);
    }
    assert HasWork(G, sol);
    PairIsIrredundant(n, a, z);
    assert WellFormed(last, sol');
    IrredundantIsIdle(last, sol');
  }

  lemma OneFreeEssential(n: nat, c: nat, a: nat, z: nat)
    requires c < n && a < n && z < n && c != a && c != z && a != z
    ensures forall i: nat :: EssentialIn([Pair(n, c, c), Pair(n, c, a), Pair(n, a, z)], i) <==> i == c
  {
    var G := [Pair(n, c, c), Pair(n, c, a), Pair(n, a, z)];
    assert IsSoleOne(G[0], c);
    forall p, i: nat | 0 <= p < 3 && IsSoleOne(G[p], i) ensures i == c {
      PairIsNotSole(n, c, a, i);
      PairIsNotSole(n, a, z, i);
    }
  }

  lemma OneFreeUnsolved(n: nat, c: nat, d: nat, a: nat, z: nat)
    requires c < n && d < n && a < n && z < n && c != a && c != z && a != z && c != d
    ensures var G, sol := [Pair(n, c, c), Pair(n, c, a), Pair(n, a, z)], AllDashes(n)[d := '0'][c := '1'];
      IsTable(G, n) && Unsolved(G, sol, 3) == [Pair(n, a, z)]
  {
    var G, sol := [Pair(n, c, c), Pair(n, c, a), Pair(n, a, z)], AllDashes(n)[d := '0'][c := '1'];
    assert G[0][c] == '1' && G[1][c] == '1' && sol[c] == '1';
    forall k | 0 <= k < n ensures !(G[2][k] == '1' && sol[k] == '1') {
      assert sol[k] == '1' ==> k == c;
    }
    assert Solved(G[0], sol) && Solved(G[1], sol) && !Solved(G[2], sol);
    assert Unsolved(G, sol, 1) == [] && Unsolved(G, sol, 2) == [];
  }

  lemma PairIsIrredundant(n: nat, a: nat, z: nat)
    requires a < n && z < n && a != z
    ensures Irredundant([Pair(n, a, z)], n)
  {
    forall k, i: nat | 0 <= k < 1 ensures !IsSoleOne([Pair(n, a, z)][k], i) {
      PairIsNotSole(n, a, z, i);
    }
  }

  /** The last row is counted as 1 on top of c, but the free column covers it. */
  lemma OneFreeBreaks(cost: seq<int>, c: nat, d: nat, a: nat, z: nat)
    requires AreSpread(cost, c, d, a, z)
    ensures BreaksBound(OneFree(cost, c, d, a, z), cost, Both(|cost|, c, z))
  {
    var n, F, open := |cost|, OneFree(cost, c, d, a, z), AllDashes(|cost|);
    OneFreeIsIrredundant(cost, c, d, a, z);
    IrredundantIsIdle(F, open);
    OneFreePass(cost, c, d, a, z);
    OneFreeRounds(cost, c, d, a, z);
    assert Reduced(F, open, cost) == Reduct([Pair(n, a, z)], open[d := '0'][c := '1']);
    OneFreeOutcome(cost, c, d, a, z);
  }

  lemma OneFreeOutcome(cost: seq<int>, c: nat, d: nat, a: nat, z: nat)
    requires AreSpread(cost, c, d, a, z)
    ensures var n := |cost|;
      var r := Reduct([Pair(n, a, z)], AllDashes(n)[d := '0'][c := '1']);
      Completion(r.F, r.sol, Both(n, c, z)) && Weight(Both(n, c, z), cost) < BoundOf(r, 0, cost)
  {
    var n := |cost|;
    var r, s := Reduct([Pair(n, a, z)], AllDashes(n)[d := '0'][c := '1']), Both(n, c, z);
    BothWeigh(cost, c, z);
    OneWeighs(Chosen(r.sol), cost, c);
    GreedyPicksOne(r.F, cost);
    assert r.F[0][z] == '1' && s[z];
    assert Hits(r.F[0], s);
  }

  // The exact condition

  /** Costs that are not priced have a table whose bound breaks. */
  lemma UnpricedBreak(cost: seq<int>) returns (F: seq<string>, s: seq<bool>)
    requires CostsAtLeast(cost, 0) && !IsPriced(cost)
    ensures IsTable(F, |cost|) && BreaksBound(F, cost, s)
  {
    var n := |cost|;
    var z :| 0 <= z < n && cost[z] < 1;
    if y :| 0 <= y < n && y != z && cost[y] == 0 {
      var r := if z != 0 && y != 0 then 0 else if z != 1 && y != 1 then 1 else 2;
      TwoFreeBreak(cost, z, y, r);
      F, s := TwoFree(cost, z, y, r), Both(n, z, y);
    } else {
      var c := if z == 0 then 1 else 0;
      var d := if z <= 1 then 2 else 1;
      var a := if z <= 2 then 3 else 2;
      if cost[c] > cost[d] {
        c, d := d, c;
      }
      OneFreeBreaks(cost, c, d, a, z);
      F, s := OneFree(cost, c, d, a, z), Both(n, c, z);
    }
  }

  /** The search is exact on every table and for every bound exactly when the
      columns are priced. */
  lemma ExactIffPriced(cost: seq<int>)
    ensures (forall F, base, U :: IsTable(F, |cost|) ==> IsExact(F, cost, base, U)) <==> IsPriced(cost)
  {
    if IsPriced(cost) {
      forall F, base, U | IsTable(F, |cost|) ensures IsExact(F, cost, base, U) {
        SearchIsExact(F, AllDashes(|cost|), base, U, cost);
      }
    } else if CostsAtLeast(cost, 0) {
      var F, s := UnpricedBreak(cost);
      BrokenBoundMisses(F, cost, s);
    } else {
      var k :| 0 <= k < |cost| && cost[k] < 0;
      NegativeMisses(cost, k);
    }
  }

  /** For costs that are not negative, lower_bound is right for every table that
      reduce leaves under the same condition. */
  lemma BoundHoldsIffPriced(cost: seq<int>)
    requires CostsAtLeast(cost, 0)
    ensures (forall F, s :: IsTable(F, |cost|) ==> !BreaksBound(F, cost, s)) <==> IsPriced(cost)
  {
    if IsPriced(cost) {
      forall F, s | IsTable(F, |cost|) ensures !BreaksBound(F, cost, s) {
        if BreaksBound(F, cost, s) {
          PruneBound(F, AllDashes(|cost|), cost, 0);
        }
      }
    } else {
      var F, s := UnpricedBreak(cost);
    }
  }
}
