/** The column reduction of src/bcp.c: a column is given up for one that covers
    at least the same rows and costs no more. */
module ColumnReduction {
  import opened CoverTable
  import opened RowReduction

  // One column against another

  /** Column i has a '1' wherever column j has one, and j has some. */
  predicate ColumnDominates(F: seq<string>, n: nat, i: nat, j: nat)
    requires i < n && j < n && forall p :: 0 <= p < |F| ==> |F[p]| == n
  {
    && (forall p :: 0 <= p < |F| ==> !(F[p][i] == '0' && F[p][j] == '1'))
    && (exists p :: 0 <= p < |F| && F[p][j] != '0')
  }

  method Dom(F: seq<string>, n: nat, i: nat, j: nat) returns (b: bool)
    requires i < n && j < n && IsTable(F, n)
    ensures b == ColumnDominates(F, n, i, j)
  {
    var nonzero := false;
    for p := 0 to |F|
      invariant forall k :: 0 <= k < p ==> !(F[k][i] == '0' && F[k][j] == '1')
      invariant nonzero <==> exists k :: 0 <= k < p && F[k][j] != '0'
    {
      if F[p][i] == '0' && F[p][j] == '1' {
        return false;
      }
      if F[p][j] != '0' {
        nonzero := true;
      }
    }
    return nonzero;
  }

  ghost predicate IsColumnCleared(F: seq<string>, F': seq<string>, n: nat, j: nat) {
    && |F'| == |F|
    && IsTable(F, n) && IsTable(F', n) && j < n
    && forall p, i :: 0 <= p < |F| && 0 <= i < n ==> F'[p][i] == if i == j then '0' else F[p][i]
  }

  method RmCol(Sol: TableSol, j: nat)
    requires IsTable(Sol.F, Sol.size) && j < Sol.size
    modifies Sol`F
    ensures IsColumnCleared(old(Sol.F), Sol.F, Sol.size, j)
  {
    for p := 0 to |Sol.F|
      invariant |Sol.F| == |old(Sol.F)| && IsTable(Sol.F, Sol.size)
      invariant forall q, i :: 0 <= q < p && 0 <= i < Sol.size ==>
        Sol.F[q][i] == if i == j then '0' else old(Sol.F)[q][i]
      invariant forall q :: p <= q < |Sol.F| ==> Sol.F[q] == old(Sol.F)[q]
    {
      Sol.F := Sol.F[p := Sol.F[p][j := '0']];
    }
  }

  /** Giving up a dominated column costs nothing: its dominator, if it is no
      dearer, takes its place. */
  lemma ClearingKeepsOptimum(F: seq<string>, sol: string, F': seq<string>, i: nat, j: nat, cost: seq<int>)
    requires WellFormed(F, sol) && |cost| == |sol| && CostsAtLeast(cost, 0)
    requires i < |sol| && j < |sol| && i != j
    requires sol[i] == '-' && sol[j] == '-' && ColumnDominates(F, |sol|, i, j) && cost[j] >= cost[i]
    requires IsColumnCleared(F, F', |sol|, j)
    ensures KeepsOptimum(F, sol, F', sol[j := '0'], cost)
  {
    var sol' := sol[j := '0'];
    forall s | Completion(F', sol', s)
      ensures Completion(F, sol, s)
    {
      assert forall k :: 0 <= k < |sol| && k != j ==> sol'[k] == sol[k];
      forall p | 0 <= p < |F|
        ensures Hits(F[p], s)
      {
        assert Hits(F'[p], s);
      }
    }
    forall s | Completion(F, sol, s)
      ensures HasNoDearer(F', sol', cost, s)
    {
      var s' := ExchangeColumn(F, sol, F', i, j, cost, s);
      assert Completion(F', sol', s');
    }
  }

  lemma ExchangeColumn(F: seq<string>, sol: string, F': seq<string>, i: nat, j: nat, cost: seq<int>, s: seq<bool>)
      returns (s': seq<bool>)
    requires WellFormed(F, sol) && |cost| == |sol| && CostsAtLeast(cost, 0)
    requires i < |sol| && j < |sol| && i != j
    requires sol[i] == '-' && sol[j] == '-' && ColumnDominates(F, |sol|, i, j) && cost[j] >= cost[i]
    requires IsColumnCleared(F, F', |sol|, j)
    requires Completion(F, sol, s)
    ensures Completion(F', sol[j := '0'], s') && Weight(s', cost) <= Weight(s, cost)
  {
    if !s[j] {
      s' := s;
    } else {
      s' := s[j := false][i := true];
      UpdateWeight(s, cost, j, false, |s|);
      UpdateWeight(s[j := false], cost, i, true, |s|);
    }
    forall p | 0 <= p < |F'|
      ensures Hits(F'[p], s')
    {
      assert Hits(F[p], s);
      var k :| 0 <= k < |sol| && F[p][k] == '1' && s[k];
      if k == j {
        assert F'[p][i] == '1' && s'[i];
      } else {
        assert F'[p][k] == '1' && s'[k];
      }
    }
  }

  /** Column k is given up for column m. */
  ghost predicate Yields(F: seq<string>, n: nat, cost: seq<int>, m: nat, k: nat)
    requires m < n == |cost| && k < n && forall p :: 0 <= p < |F| ==> |F[p]| == n
  {
    m != k && ColumnDominates(F, n, m, k) && cost[k] >= cost[m]
  }

  ghost predicate SameColumn(F: seq<string>, F': seq<string>, n: nat, k: nat)
    requires k < n && IsTable(F, n) && IsTable(F', n) && |F'| == |F|
  {
    forall p :: 0 <= p < |F| ==> F'[p][k] == F[p][k]
  }

  /** Where rm_dominated_cols stands: F0 and sol0 are the table it was given,
      and cached says which columns it has stopped looking at. */
  ghost predicate ColumnsSoFar(
      F0: seq<string>, sol0: string, F: seq<string>, sol: string, cached: seq<bool>, cost: seq<int>)
  {
    && |sol0| == |sol| == |cached| == |cost| && |F| == |F0|
    && WellFormed(F0, sol0) && WellFormed(F, sol)
    && (forall k :: 0 <= k < |sol| && (!cached[k] || sol0[k] == '1') ==>
          sol[k] == sol0[k] && SameColumn(F0, F, |sol|, k))
    && (forall k :: 0 <= k < |sol| && sol0[k] == '1' ==> cached[k])
    && (forall k :: 0 <= k < |sol| && cached[k] && sol0[k] != '1' ==>
          sol[k] == '0' && HasOpenDominator(F0, cached, cost, k))
  }

  ghost predicate HasOpenDominator(F: seq<string>, cached: seq<bool>, cost: seq<int>, k: nat)
    requires k < |cached| == |cost| && IsTable(F, |cost|)
  {
    exists m :: 0 <= m < |cached| && !cached[m] && Yields(F, |cost|, cost, m, k)
  }

  lemma DominationLooksAtTwoColumns(F: seq<string>, F': seq<string>, n: nat, i: nat, j: nat)
    requires i < n && j < n && IsTable(F, n) && IsTable(F', n) && |F'| == |F|
    requires SameColumn(F, F', n, i) && SameColumn(F, F', n, j)
    ensures ColumnDominates(F, n, i, j) <==> ColumnDominates(F', n, i, j)
  {
  }

  lemma YieldsTransitive(F: seq<string>, n: nat, cost: seq<int>, a: nat, b: nat, c: nat)
    requires a < n == |cost| && b < n && c < n && IsTable(F, n) && a != c
    requires Yields(F, n, cost, a, b) && Yields(F, n, cost, b, c)
    ensures Yields(F, n, cost, a, c)
  {
  }

  lemma DominationIsOpen(F: seq<string>, sol: string, i: nat, j: nat)
    requires WellFormed(F, sol) && i < |sol| && j < |sol| && ColumnDominates(F, |sol|, i, j)
    ensures sol[i] == '-' && sol[j] == '-'
  {
  }

  lemma ClearingStep(
      F0: seq<string>, sol0: string, F: seq<string>, sol: string, F': seq<string>,
      cached: seq<bool>, cost: seq<int>, i: nat, j: nat)
    requires ColumnsSoFar(F0, sol0, F, sol, cached, cost)
    requires i < |sol| && j < |sol| && i != j && !cached[i] && !cached[j]
    requires ColumnDominates(F, |sol|, i, j) && cost[j] >= cost[i]
    requires IsColumnCleared(F, F', |sol|, j)
    ensures ColumnsSoFar(F0, sol0, F', sol[j := '0'], cached[j := true], cost)
    ensures CostsAtLeast(cost, 0) && KeepsOptimum(F0, sol0, F, sol, cost) ==>
      KeepsOptimum(F0, sol0, F', sol[j := '0'], cost)
  {
    var n := |sol|;
    DominationLooksAtTwoColumns(F0, F, n, i, j);
    DominationIsOpen(F, sol, i, j);
    var cached' := cached[j := true];
    forall k | 0 <= k < n && cached'[k] && sol0[k] != '1'
      ensures HasOpenDominator(F0, cached', cost, k)
    {
      if k == j {
        assert Yields(F0, n, cost, i, j);
      } else {
        var m :| 0 <= m < n && !cached[m] && Yields(F0, n, cost, m, k);
        if m == j {
          YieldsTransitive(F0, n, cost, i, j, k);
          assert !cached'[i] && Yields(F0, n, cost, i, k);
        } else {
          assert !cached'[m] && Yields(F0, n, cost, m, k);
        }
      }
    }
    if CostsAtLeast(cost, 0) && KeepsOptimum(F0, sol0, F, sol, cost) {
      ClearingKeepsOptimum(F, sol, F', i, j, cost);
      KeepsOptimumTransitive(F0, sol0, F, sol, F', sol[j := '0'], cost);
    }
  }

  /** No two columns are left of which one is no dearer and dominates. */
  ghost predicate NoColumnYields(F: seq<string>, n: nat, cost: seq<int>)
    requires n == |cost| && IsTable(F, n)
  {
    forall i, j :: 0 <= i < n && 0 <= j < n ==> !Yields(F, n, cost, i, j)
  }

  /** The pairs (a, b) with a before i, or a == i and b before j, are settled. */
  ghost predicate PairsSettled(F: seq<string>, cached: seq<bool>, cost: seq<int>, i: int, j: int)
    requires |cached| == |cost| && IsTable(F, |cost|)
  {
    forall a, b :: 0 <= a < b < |cost| && (a < i || (a == i && b < j)) && !cached[a] && !cached[b] ==>
      !Yields(F, |cost|, cost, a, b) && !Yields(F, |cost|, cost, b, a)
  }

  /** What rm_dominated_cols does to a table: every column stays as it is or is
      cleared and decided '0' in favour of one that stays. */
  ghost predicate ColumnsGivenUp(F: seq<string>, sol: string, F': seq<string>, sol': string, cost: seq<int>) {
    && |sol| == |sol'| == |cost| && |F'| == |F| && WellFormed(F, sol) && WellFormed(F', sol')
    && forall k :: 0 <= k < |sol| ==>
         || (sol'[k] == sol[k] && SameColumn(F, F', |sol|, k))
         || (sol[k] == '-' && sol'[k] == '0' && HasStayingDominator(F, sol', cost, k))
  }

  ghost predicate HasStayingDominator(F: seq<string>, sol': string, cost: seq<int>, k: nat)
    requires k < |sol'| == |cost| && IsTable(F, |cost|)
  {
    exists m :: 0 <= m < |cost| && sol'[m] == '-' && Yields(F, |cost|, cost, m, k)
  }

  // The pass over the columns

  /** What rm_dominated_cols works on; gone is its dom_cache. */
  datatype Columns = Columns(F: seq<string>, sol: string, gone: seq<bool>)

  ghost predicate IsColumns(s: Columns, n: nat) {
    IsTable(s.F, n) && |s.sol| == |s.gone| == n && IsPartial(s.sol)
  }

  ghost function Cleared(F: seq<string>, n: nat, j: nat): (F': seq<string>)
    requires IsTable(F, n) && j < n
    ensures IsColumnCleared(F, F', n, j)
  {
    seq(|F|, p requires 0 <= p < |F| && IsTable(F, n) => F[p][j := '0'])
  }

  ghost function GiveUp(s: Columns, n: nat, j: nat): (r: Columns)
    requires IsColumns(s, n) && j < n
    ensures IsColumns(r, n) && |r.F| == |s.F|
  {
    Columns(Cleared(s.F, n, j), s.sol[j := '0'], s.gone[j := true])
  }

  /** Column i yields to j, and not the other way round. */
  ghost predicate Stops(s: Columns, cost: seq<int>, i: nat, j: nat)
    requires IsColumns(s, |cost|) && i < |cost| && j < |cost|
  {
    !s.gone[i] && !s.gone[j] && !Yields(s.F, |cost|, cost, i, j) && Yields(s.F, |cost|, cost, j, i)
  }

  /** Column j is given up if it yields to i. */
  ghost function Compared(s: Columns, cost: seq<int>, i: nat, j: nat): (r: Columns)
    requires IsColumns(s, |cost|) && i < |cost| && j < |cost|
    ensures IsColumns(r, |cost|) && |r.F| == |s.F|
  {
    if !s.gone[i] && !s.gone[j] && Yields(s.F, |cost|, cost, i, j) then GiveUp(s, |cost|, j) else s
  }

  /** Column i against the columns from j on. */
  ghost function Settled(s: Columns, cost: seq<int>, i: nat, j: nat): (r: Columns)
    requires IsColumns(s, |cost|) && i < j <= |cost|
    ensures IsColumns(r, |cost|) && |r.F| == |s.F|
    decreases |cost| - j
  {
    if j == |cost| then s
    else if Stops(s, cost, i, j) then GiveUp(s, |cost|, i)
    else Settled(Compared(s, cost, i, j), cost, i, j + 1)
  }

  /** The turn of column i, unless it is gone already. */
  ghost function Turn(s: Columns, cost: seq<int>, i: nat): (r: Columns)
    requires IsColumns(s, |cost|) && i < |cost|
    ensures IsColumns(r, |cost|) && |r.F| == |s.F|
  {
    if s.gone[i] then s else Settled(s, cost, i, i + 1)
  }

  /** Every column from i on against the columns after it. */
  ghost function AllSettled(s: Columns, cost: seq<int>, i: nat): (r: Columns)
    requires IsColumns(s, |cost|) && i <= |cost|
    ensures IsColumns(r, |cost|) && |r.F| == |s.F|
    decreases |cost| - i
  {
    if i == |cost| then s else AllSettled(Turn(s, cost, i), cost, i + 1)
  }

  ghost function AllColumns(F: seq<string>, sol: string): (s: Columns)
    requires IsTable(F, |sol|) && IsPartial(sol)
    ensures IsColumns(s, |sol|)
  {
    Columns(F, sol, Chosen(sol))
  }

  ghost function ColumnPass(F: seq<string>, sol: string, cost: seq<int>): (r: Columns)
    requires IsTable(F, |sol|) && IsPartial(sol) && |sol| == |cost|
    ensures IsColumns(r, |cost|) && |r.F| == |F|
  {
    AllSettled(AllColumns(F, sol), cost, 0)
  }

  method RmDominatedCols(Sol: TableSol, changed: bool, cost: seq<int>) returns (c: bool)
    requires Sol.Valid() && |cost| == Sol.size
    modifies Sol`F, Sol.currentSol
    ensures Sol.Valid()
    ensures var r := old(ColumnPass(Sol.F, Sol.currentSol[..], cost));
      && Sol.F == r.F && Sol.currentSol[..] == r.sol
      && c == (changed || r.gone != old(Chosen(Sol.currentSol[..])))
  {
    ghost var s0 := AllColumns(Sol.F, Sol.currentSol[..]);
    var cache := new bool[Sol.size];
    for i := 0 to Sol.size
      invariant forall k :: 0 <= k < i ==> cache[k] == s0.gone[k]
      modifies cache
    {
      cache[i] := Sol.currentSol[i] == '1';
    }
    assert Columns(Sol.F, Sol.currentSol[..], cache[..]) == s0;
    c := changed;
    for i := 0 to Sol.size
      invariant cache.Length == Sol.size && Sol.Valid()
      invariant AllSettled(Columns(Sol.F, Sol.currentSol[..], cache[..]), cost, i) == AllSettled(s0, cost, 0)
      invariant Grows(s0.gone, cache[..])
      invariant c == (changed || cache[..] != s0.gone)
      modifies Sol`F, Sol.currentSol, cache
    {
      if !cache[i] {
        c := SettleColumn(Sol, cache, c, cost, i);
      }
    }
  }

  ghost predicate Grows(gone: seq<bool>, gone': seq<bool>) {
    |gone| == |gone'| && forall k :: 0 <= k < |gone| && gone[k] ==> gone'[k]
  }

  /** The inner loop of rm_dominated_cols: column i against the later ones. */
  method SettleColumn(Sol: TableSol, cache: array<bool>, changed: bool, cost: seq<int>, i: nat) returns (c: bool)
    requires Sol.Valid() && cache.Length == Sol.size == |cost| && i < Sol.size
    modifies Sol`F, Sol.currentSol, cache
    ensures Sol.Valid()
    ensures Columns(Sol.F, Sol.currentSol[..], cache[..])
         == Settled(old(Columns(Sol.F, Sol.currentSol[..], cache[..])), cost, i, i + 1)
    ensures Grows(old(cache[..]), cache[..]) && c == (changed || cache[..] != old(cache[..]))
  {
    ghost var s0 := Columns(Sol.F, Sol.currentSol[..], cache[..]);
    c := changed;
    for j := i + 1 to Sol.size
      invariant Sol.Valid()
      invariant Settled(Columns(Sol.F, Sol.currentSol[..], cache[..]), cost, i, j) == Settled(s0, cost, i, i + 1)
      invariant Grows(s0.gone, cache[..]) && c == (changed || cache[..] != s0.gone)
      modifies Sol`F, Sol.currentSol, cache
    {
      var stop;
      c, stop := CompareColumns(Sol, cache, c, cost, i, j);
      if stop {
        return;
      }
    }
  }

  /** One round of that loop; the source leaves it when column i itself goes. */
  method CompareColumns(Sol: TableSol, cache: array<bool>, changed: bool, cost: seq<int>, i: nat, j: nat)
      returns (c: bool, stop: bool)
    requires Sol.Valid() && cache.Length == Sol.size == |cost| && i < j < Sol.size
    modifies Sol`F, Sol.currentSol, cache
    ensures Sol.Valid()
    ensures stop <==> old(Stops(Columns(Sol.F, Sol.currentSol[..], cache[..]), cost, i, j))
    ensures Columns(Sol.F, Sol.currentSol[..], cache[..]) ==
      if stop then GiveUp(old(Columns(Sol.F, Sol.currentSol[..], cache[..])), |cost|, i)
      else Compared(old(Columns(Sol.F, Sol.currentSol[..], cache[..])), cost, i, j)
    ensures Grows(old(cache[..]), cache[..]) && c == (changed || cache[..] != old(cache[..]))
  {
    c, stop := changed, false;
    if !cache[i] && !cache[j] {
      var iOverJ := Dom(Sol.F, Sol.size, i, j);
      if iOverJ && cost[j] >= cost[i] {
        c := true;
        RemoveColumn(Sol, cache, j);
      } else {
        var jOverI := Dom(Sol.F, Sol.size, j, i);
        if jOverI && cost[i] >= cost[j] {
          c, stop := true, true;
          RemoveColumn(Sol, cache, i);
        }
      }
    }
  }

  /** The assignments made for a column that yields. */
  method RemoveColumn(Sol: TableSol, cache: array<bool>, j: nat)
    requires Sol.Valid() && cache.Length == Sol.size && j < Sol.size && !cache[j]
    modifies Sol`F, Sol.currentSol, cache
    ensures Sol.Valid()
    ensures Columns(Sol.F, Sol.currentSol[..], cache[..])
         == GiveUp(old(Columns(Sol.F, Sol.currentSol[..], cache[..])), Sol.size, j)
    ensures Grows(old(cache[..]), cache[..]) && cache[..] != old(cache[..])
  {
    ghost var F, sol, cached := Sol.F, Sol.currentSol[..], cache[..];
    Sol.currentSol[j] := '0';
    RmCol(Sol, j);
    cache[j] := true;
    assert Sol.currentSol[..] == sol[j := '0'] && cache[..] == cached[j := true];
    assert cache[..][j] != cached[j];
    SameTable(Sol.F, Cleared(F, Sol.size, j), Sol.size);
  }

  lemma SameTable(F: seq<string>, F': seq<string>, n: nat)
    requires IsTable(F, n) && IsTable(F', n) && |F| == |F'|
    requires forall p, i :: 0 <= p < |F| && 0 <= i < n ==> F[p][i] == F'[p][i]
    ensures F == F'
  {
    forall p | 0 <= p < |F| ensures F[p] == F'[p] {
      assert |F[p]| == |F'[p]|;
    }
  }

  // The pass solves no row

  ghost predicate NoneSolved(F: seq<string>, sol: string)
    requires IsTable(F, |sol|)
  {
    forall p :: 0 <= p < |F| ==> !Solved(F[p], sol)
  }

  lemma GiveUpSolvesNone(s: Columns, n: nat, j: nat)
    requires IsColumns(s, n) && j < n && NoneSolved(s.F, s.sol)
    ensures NoneSolved(GiveUp(s, n, j).F, GiveUp(s, n, j).sol)
  {
    var r := GiveUp(s, n, j);
    forall p | 0 <= p < |r.F| ensures !Solved(r.F[p], r.sol) {
      assert !Solved(s.F[p], s.sol);
    }
  }

  lemma {:induction false} SettledSolvesNone(s: Columns, cost: seq<int>, i: nat, j: nat)
    requires IsColumns(s, |cost|) && i < j <= |cost| && NoneSolved(s.F, s.sol)
    ensures NoneSolved(Settled(s, cost, i, j).F, Settled(s, cost, i, j).sol)
    decreases |cost| - j
  {
    if j < |cost| {
      GiveUpSolvesNone(s, |cost|, i);
      GiveUpSolvesNone(s, |cost|, j);
      if !Stops(s, cost, i, j) {
        SettledSolvesNone(Compared(s, cost, i, j), cost, i, j + 1);
      }
    }
  }

  lemma {:induction false} AllSettledSolvesNone(s: Columns, cost: seq<int>, i: nat)
    requires IsColumns(s, |cost|) && i <= |cost| && NoneSolved(s.F, s.sol)
    ensures NoneSolved(AllSettled(s, cost, i).F, AllSettled(s, cost, i).sol)
    decreases |cost| - i
  {
    if i < |cost| {
      if !s.gone[i] {
        SettledSolvesNone(s, cost, i, i + 1);
      }
      AllSettledSolvesNone(Turn(s, cost, i), cost, i + 1);
    }
  }

  // What the pass keeps

  ghost predicate ScanState(
      F0: seq<string>, sol0: string, F: seq<string>, sol: string, cached: seq<bool>, cost: seq<int>)
  {
    && ColumnsSoFar(F0, sol0, F, sol, cached, cost)
    && (CostsAtLeast(cost, 0) ==> KeepsOptimum(F0, sol0, F, sol, cost))
  }

  /** Scan state and settled pairs together. */
  ghost predicate Scanned(F0: seq<string>, sol0: string, s: Columns, cost: seq<int>, i: nat, j: nat) {
    IsColumns(s, |cost|) && ScanState(F0, sol0, s.F, s.sol, s.gone, cost) && PairsSettled(F0, s.gone, cost, i, j)
  }

  /** Giving j up for i. */
  lemma GiveUpKeeps(F0: seq<string>, sol0: string, s: Columns, cost: seq<int>, i: nat, j: nat)
    requires IsColumns(s, |cost|) && ScanState(F0, sol0, s.F, s.sol, s.gone, cost)
    requires i < |cost| && j < |cost| && Yields(s.F, |cost|, cost, i, j) && !s.gone[i] && !s.gone[j]
    ensures var r := GiveUp(s, |cost|, j); ScanState(F0, sol0, r.F, r.sol, r.gone, cost)
  {
    DominationIsOpen(s.F, s.sol, i, j);
    ClearingStep(F0, sol0, s.F, s.sol, Cleared(s.F, |cost|, j), s.gone, cost, i, j);
  }

  lemma StopKeeps(F0: seq<string>, sol0: string, s: Columns, cost: seq<int>, i: nat, j: nat)
    requires i < j < |cost| && Scanned(F0, sol0, s, cost, i, j) && Stops(s, cost, i, j)
    ensures Scanned(F0, sol0, GiveUp(s, |cost|, i), cost, i + 1, 0)
  {
    GiveUpKeeps(F0, sol0, s, cost, j, i);
    FewerPairs(F0, s.gone, cost, i, j, i);
    ColumnGone(F0, s.gone[i := true], cost, i, j);
  }

  lemma ComparedKeeps(F0: seq<string>, sol0: string, s: Columns, cost: seq<int>, i: nat, j: nat)
    requires i < j < |cost| && Scanned(F0, sol0, s, cost, i, j) && !Stops(s, cost, i, j)
    ensures Scanned(F0, sol0, Compared(s, cost, i, j), cost, i, j + 1)
  {
    if s.gone[i] || s.gone[j] {
      PairGone(F0, s.gone, cost, i, j);
    } else if Yields(s.F, |cost|, cost, i, j) {
      GiveUpKeeps(F0, sol0, s, cost, i, j);
      FewerPairs(F0, s.gone, cost, i, j, j);
      PairGone(F0, s.gone[j := true], cost, i, j);
    } else {
      PairCompared(F0, sol0, s.F, s.sol, s.gone, cost, i, j);
    }
  }

  lemma FewerPairs(F: seq<string>, cached: seq<bool>, cost: seq<int>, i: nat, j: nat, k: nat)
    requires k < |cached| == |cost| && IsTable(F, |cost|) && PairsSettled(F, cached, cost, i, j)
    ensures PairsSettled(F, cached[k := true], cost, i, j)
  {
  }

  lemma {:induction false} SettledKeeps(F0: seq<string>, sol0: string, s: Columns, cost: seq<int>, i: nat, j: nat)
      returns (t: Columns)
    requires Scanned(F0, sol0, s, cost, i, j) && i < j <= |cost|
    ensures t == Settled(s, cost, i, j) && Scanned(F0, sol0, t, cost, i + 1, 0)
    decreases |cost| - j
  {
    if j == |cost| {
      LastPair(F0, s.gone, cost, i);
      t := s;
    } else if Stops(s, cost, i, j) {
      StopKeeps(F0, sol0, s, cost, i, j);
      t := GiveUp(s, |cost|, i);
    } else {
      ComparedKeeps(F0, sol0, s, cost, i, j);
      t := SettledKeeps(F0, sol0, Compared(s, cost, i, j), cost, i, j + 1);
    }
  }

  lemma TurnKeeps(F0: seq<string>, sol0: string, s: Columns, cost: seq<int>, i: nat) returns (r: Columns)
    requires Scanned(F0, sol0, s, cost, i, 0) && i < |cost|
    ensures r == Turn(s, cost, i) && Scanned(F0, sol0, r, cost, i + 1, 0)
  {
    if s.gone[i] {
      ColumnGone(F0, s.gone, cost, i, 0);
      r := s;
    } else {
      FirstPair(F0, s.gone, cost, i);
      r := SettledKeeps(F0, sol0, s, cost, i, i + 1);
    }
  }

  lemma LastPair(F: seq<string>, cached: seq<bool>, cost: seq<int>, i: nat)
    requires |cached| == |cost| && IsTable(F, |cost|) && PairsSettled(F, cached, cost, i, |cost|)
    ensures PairsSettled(F, cached, cost, i + 1, 0)
  {
  }

  lemma FirstPair(F: seq<string>, cached: seq<bool>, cost: seq<int>, i: nat)
    requires |cached| == |cost| && IsTable(F, |cost|) && PairsSettled(F, cached, cost, i, 0)
    ensures PairsSettled(F, cached, cost, i, i + 1)
  {
  }

  lemma ScanAll(F: seq<string>, sol: string, cost: seq<int>) returns (r: Columns)
    requires WellFormed(F, sol) && |sol| == |cost|
    ensures r == ColumnPass(F, sol, cost) && Scanned(F, sol, r, cost, |cost|, 0)
  {
    r := AllColumns(F, sol);
    SameCompletionsKeepOptimum(F, sol, F, sol, cost);
    for i := 0 to |cost|
      invariant IsColumns(r, |cost|) && AllSettled(r, cost, i) == ColumnPass(F, sol, cost)
      invariant Scanned(F, sol, r, cost, i, 0)
    {
      r := TurnKeeps(F, sol, r, cost, i);
    }
  }

  /** Later tests run on the table that earlier removals have changed; still
      every column given up has a dominator that stays, no pair is left to
      reduce, and a cheapest cover is kept. */
  lemma ColumnPassKeepsOptimum(F: seq<string>, sol: string, cost: seq<int>)
    requires WellFormed(F, sol) && |sol| == |cost|
    ensures var r := ColumnPass(F, sol, cost);
      && ColumnsGivenUp(F, sol, r.F, r.sol, cost) && NoColumnYields(r.F, |cost|, cost)
      && (CostsAtLeast(cost, 0) ==> KeepsOptimum(F, sol, r.F, r.sol, cost))
      && (r.gone == Chosen(sol) ==> r.F == F && r.sol == sol)
  {
    var r := ScanAll(F, sol, cost);
    ColumnsDone(F, sol, r.F, r.sol, r.gone, cost);
    if r.gone == Chosen(sol) {
      forall k | 0 <= k < |sol| ensures r.sol[k] == sol[k] && SameColumn(F, r.F, |sol|, k) {
        assert r.gone[k] == (sol[k] == '1');
      }
      forall p, k | 0 <= p < |F| && 0 <= k < |sol| ensures r.F[p][k] == F[p][k] {
        assert SameColumn(F, r.F, |sol|, k);
      }
      SameTable(r.F, F, |sol|);
    }
  }

  lemma PairGone(F: seq<string>, cached: seq<bool>, cost: seq<int>, i: nat, j: nat)
    requires i < |cached| == |cost| && j < |cost| && IsTable(F, |cost|)
    requires PairsSettled(F, cached, cost, i, j) && (cached[i] || cached[j])
    ensures PairsSettled(F, cached, cost, i, j + 1)
  {
  }

  lemma ColumnGone(F: seq<string>, cached: seq<bool>, cost: seq<int>, i: nat, j: nat)
    requires i < |cached| == |cost| && j < |cost| && IsTable(F, |cost|)
    requires PairsSettled(F, cached, cost, i, j) && cached[i]
    ensures PairsSettled(F, cached, cost, i + 1, 0)
  {
  }

  lemma PairCompared(
      F0: seq<string>, sol0: string, F: seq<string>, sol: string, cached: seq<bool>, cost: seq<int>, i: nat, j: nat)
    requires ColumnsSoFar(F0, sol0, F, sol, cached, cost) && i < j < |sol| && !cached[i] && !cached[j]
    requires PairsSettled(F0, cached, cost, i, j)
    requires !Yields(F, |sol|, cost, i, j) && !Yields(F, |sol|, cost, j, i)
    ensures PairsSettled(F0, cached, cost, i, j + 1)
  {
    DominationLooksAtTwoColumns(F0, F, |sol|, i, j);
    DominationLooksAtTwoColumns(F0, F, |sol|, j, i);
  }

  lemma ColumnsDone(F0: seq<string>, sol0: string, F: seq<string>, sol: string, cached: seq<bool>, cost: seq<int>)
    requires ColumnsSoFar(F0, sol0, F, sol, cached, cost)
    requires PairsSettled(F0, cached, cost, |cost|, 0)
    ensures ColumnsGivenUp(F0, sol0, F, sol, cost)
    ensures NoColumnYields(F, |sol|, cost)
  {
    var n := |sol|;
    forall k | 0 <= k < n && cached[k] && sol0[k] != '1'
      ensures sol0[k] == '-' && HasStayingDominator(F0, sol, cost, k)
    {
      var m :| 0 <= m < n && !cached[m] && Yields(F0, n, cost, m, k);
      DominationIsOpen(F0, sol0, m, k);
      assert sol[m] == '-';
    }
    forall i, j | 0 <= i < n && 0 <= j < n && i != j && ColumnDominates(F, n, i, j)
      ensures !(cost[j] >= cost[i])
    {
      DominationIsOpen(F, sol, i, j);
      assert !cached[i] && !cached[j];
      DominationLooksAtTwoColumns(F0, F, n, i, j);
      assert !Yields(F0, n, cost, i, j);
    }
  }

  /** A column without a '1' is never given up, even if its cost is high. */
  lemma EmptyColumnStays(F: seq<string>, sol: string, cost: seq<int>, k: nat)
    requires WellFormed(F, sol) && |sol| == |cost| && k < |sol| && sol[k] == '-'
    requires forall p :: 0 <= p < |F| ==> F[p][k] == '0'
    ensures ColumnPass(F, sol, cost).sol[k] == '-'
  {
    ColumnPassKeepsOptimum(F, sol, cost);
    assert forall m: nat :: m < |cost| ==> !Yields(F, |cost|, cost, m, k);
  }

  /** Of two equal columns of the same cost the first stays. */
  lemma TwinColumns(c: int)
    ensures var r := ColumnPass(["11"], "--", [c, c]); r.F == ["10"] && r.sol == "-0"
  {
    var F, sol, cost := ["11"], "--", [c, c];
    var s, s' := AllColumns(F, sol), Columns(["10"], "-0", [false, true]);
    assert F[0][0] == '1' && F[0][1] == '1';
    assert Yields(F, 2, cost, 0, 1) && !s.gone[0] && !s.gone[1];
    assert "11"[1 := '0'] == "10" && "--"[1 := '0'] == "-0";
    assert Cleared(F, 2, 1) == ["10"];
    assert s.gone[1 := true] == [false, true];
    assert GiveUp(s, 2, 1) == s' && !Stops(s, cost, 0, 1);
    assert Settled(s, cost, 0, 1) == Settled(s', cost, 0, 2) == s';
    assert AllSettled(s, cost, 0) == AllSettled(s', cost, 1) == AllSettled(s', cost, 2) == s';
  }

  /** Clearing columns never empties a row: a row has a '1' afterwards exactly
      if it had one before. */
  lemma GivenUpKeepsOnes(F: seq<string>, sol: string, F': seq<string>, sol': string, cost: seq<int>, p: nat)
    requires ColumnsGivenUp(F, sol, F', sol', cost) && p < |F|
    ensures HasOne(F[p]) <==> HasOne(F'[p])
  {
    var n := |sol|;
    if HasOne(F[p]) {
      var k :| 0 <= k < |F[p]| && F[p][k] == '1';
      if sol'[k] == sol[k] && SameColumn(F, F', n, k) {
        assert F'[p][k] == '1';
      } else {
        var m :| 0 <= m < n && sol'[m] == '-' && Yields(F, n, cost, m, k);
        assert F[p][m] == '1';
        assert SameColumn(F, F', n, m);
        assert F'[p][m] == '1';
      }
    }
    if HasOne(F'[p]) {
      var k :| 0 <= k < |F'[p]| && F'[p][k] == '1';
      assert sol'[k] == '-';
      assert F[p][k] == '1';
    }
  }

  /** Clearing columns admits no new completion, whatever the costs. */
  lemma GivenUpAdmitsNothing(F: seq<string>, sol: string, F': seq<string>, sol': string, cost: seq<int>)
    requires ColumnsGivenUp(F, sol, F', sol', cost)
    ensures forall s :: Completion(F', sol', s) ==> Completion(F, sol, s)
  {
    forall s | Completion(F', sol', s)
      ensures Completion(F, sol, s)
    {
      forall p | 0 <= p < |F|
        ensures Hits(F[p], s)
      {
        var k :| 0 <= k < |sol| && F'[p][k] == '1' && s[k];
        assert sol'[k] == '-';
        assert F[p][k] == '1';
      }
    }
  }
}
