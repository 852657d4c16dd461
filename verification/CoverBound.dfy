/** Cost, mis_quick and lower_bound of src/bcp.c: a quickly found set of rows
    that share no column bounds what every cover still has to pay. */
module CoverBound {
  import opened Sequences
  import opened CoverTable
  import opened RowReduction

  method Cost(sol: string, cost: seq<int>, startcost: int) returns (total: int)
    requires |sol| == |cost|
    ensures total == startcost + Weight(Chosen(sol), cost)
  {
    total := startcost;
    for i := 0 to |sol|
      invariant total == startcost + PartialWeight(Chosen(sol), cost, i)
    {
      if sol[i] == '1' {
        total := total + cost[i];
      }
    }
  }

  predicate Meet(row: string, row': string)
    requires |row| == |row'|
  {
    exists j :: 0 <= j < |row| && row[j] == '1' && row'[j] == '1'
  }

  ghost predicate AreRows(M: seq<string>, ms: seq<nat>) {
    forall k :: 0 <= k < |ms| ==> ms[k] < |M|
  }

  /** Row i is neither in ms nor touched by a row of ms. */
  ghost predicate Available(M: seq<string>, n: nat, ms: seq<nat>, i: int)
    requires IsTable(M, n) && AreRows(M, ms)
  {
    && 0 <= i < |M| && i !in ms
    && forall k :: 0 <= k < |ms| ==> !Meet(M[ms[k]], M[i])
  }

  ghost function RowCost(row: string, cost: seq<int>): int
    requires |row| == |cost|
  {
    Weight(Chosen(row), cost)
  }

  /** The first of the cheapest available rows. */
  ghost predicate IsShortest(M: seq<string>, cost: seq<int>, ms: seq<nat>, i: int)
    requires IsTable(M, |cost|) && AreRows(M, ms)
  {
    && Available(M, |cost|, ms, i)
    && forall k {:trigger Available(M, |cost|, ms, k)} :: Available(M, |cost|, ms, k) ==>
         RowCost(M[i], cost) <= RowCost(M[k], cost) && (k < i ==> RowCost(M[i], cost) < RowCost(M[k], cost))
  }

  /** The rows mis_quick ends with, in the order it picks them, once it has
      picked ms: always the first cheapest available row, until none is left. */
  ghost function GreedyRows(M: seq<string>, cost: seq<int>, ms: seq<nat>): (r: seq<nat>)
    requires IsTable(M, |cost|) && AreRows(M, ms) && Distinct(ms)
    ensures AreRows(M, r) && Distinct(r)
    decreases |M| - |ms|
  {
    if exists i :: IsShortest(M, cost, ms, i) then
      var i :| IsShortest(M, cost, ms, i);
      DistinctIsShort(ms + [i], |M|);
      GreedyRows(M, cost, ms + [i])
    else ms
  }

  /** Row i shares no column with a row of ms. */
  ghost predicate IsApart(M: seq<string>, ms: seq<nat>, i: nat)
    requires AreRows(M, ms) && i < |M|
  {
    i !in ms && forall k, j :: 0 <= k < |ms| && 0 <= j < |M[i]| && j < |M[ms[k]]| ==>
      !(M[ms[k]][j] == '1' && M[i][j] == '1')
  }

  /** Of the rows apart from ms, row i has the cheapest columns in all, and it is
      the first of several. */
  ghost predicate IsNextPick(M: seq<string>, cost: seq<int>, ms: seq<nat>, i: nat)
    requires IsTable(M, |cost|) && AreRows(M, ms) && i < |M|
  {
    && IsApart(M, ms, i)
    && forall q: nat :: q < |M| && IsApart(M, ms, q) ==>
         var ci, cq := Weight(Chosen(M[i]), cost), Weight(Chosen(M[q]), cost);
         ci < cq || (ci == cq && i <= q)
  }

  /** From the given place on every pick is the next one in that sense. */
  ghost predicate PicksFrom(M: seq<string>, cost: seq<int>, r: seq<nat>, from: nat)
    requires IsTable(M, |cost|) && AreRows(M, r)
  {
    from <= |r| && forall k :: from <= k < |r| ==> IsNextPick(M, cost, r[..k], r[k])
  }

  lemma {:induction false} GreedyPicksCheapest(M: seq<string>, cost: seq<int>, ms: seq<nat>)
    requires IsTable(M, |cost|) && AreRows(M, ms) && Distinct(ms)
    ensures PicksFrom(M, cost, GreedyRows(M, cost, ms), |ms|) && GreedyRows(M, cost, ms)[..|ms|] == ms
    decreases |M| - |ms|
  {
    if exists i :: IsShortest(M, cost, ms, i) {
      var i: nat :| IsShortest(M, cost, ms, i);
      NextIsShortest(M, cost, ms, i);
      DistinctIsShort(ms + [i], |M|);
      GreedyPicksCheapest(M, cost, ms + [i]);
      ShortestIsNext(M, cost, ms, i);
      PickedBefore(M, cost, GreedyRows(M, cost, ms), ms, i);
    }
  }

  lemma PickedBefore(M: seq<string>, cost: seq<int>, r: seq<nat>, ms: seq<nat>, i: nat)
    requires IsTable(M, |cost|) && AreRows(M, r) && AreRows(M, ms) && i < |M| && IsNextPick(M, cost, ms, i)
    requires PicksFrom(M, cost, r, |ms| + 1) && r[..|ms| + 1] == ms + [i]
    ensures PicksFrom(M, cost, r, |ms|) && r[..|ms|] == ms
  {
    assert r[..|ms|] == r[..|ms| + 1][..|ms|] == ms && r[|ms|] == r[..|ms| + 1][|ms|] == i;
  }

  lemma ShortestIsNext(M: seq<string>, cost: seq<int>, ms: seq<nat>, i: nat)
    requires IsTable(M, |cost|) && AreRows(M, ms) && IsShortest(M, cost, ms, i)
    ensures IsNextPick(M, cost, ms, i)
  {
    forall q: nat | q < |M| ensures IsApart(M, ms, q) <==> Available(M, |cost|, ms, q) {
      AvailableIsApart(M, |cost|, ms, q);
    }
  }

  lemma AvailableIsApart(M: seq<string>, n: nat, ms: seq<nat>, i: nat)
    requires IsTable(M, n) && AreRows(M, ms) && i < |M|
    ensures IsApart(M, ms, i) <==> Available(M, n, ms, i)
  {
    if Available(M, n, ms, i) {
      forall k, j | 0 <= k < |ms| && 0 <= j < |M[i]| && j < |M[ms[k]]|
        ensures !(M[ms[k]][j] == '1' && M[i][j] == '1')
      {
        assert !Meet(M[ms[k]], M[i]);
      }
    }
  }

  ghost function Members(ms: seq<nat>): set<nat> {
    set i | i in ms
  }

  ghost function Below(ms: seq<nat>, n: nat): set<nat> {
    set i | 0 <= i < n && i in ms
  }

  lemma {:induction false} DistinctCount(ms: seq<nat>)
    requires Distinct(ms)
    ensures |Members(ms)| == |ms|
  {
    if ms != [] {
      var init := ms[..|ms| - 1];
      DistinctCount(init);
      assert ms == init + [ms[|ms| - 1]];
      assert Members(ms) == Members(init) + {ms[|ms| - 1]};
    }
  }

  lemma {:induction false} BelowIsSmall(ms: seq<nat>, n: nat)
    ensures |Below(ms, n)| <= n
  {
    if n > 0 {
      BelowIsSmall(ms, n - 1);
      assert Below(ms, n) == if n - 1 in ms then Below(ms, n - 1) + {n - 1} else Below(ms, n - 1);
    }
  }

  lemma DistinctIsShort(ms: seq<nat>, n: nat)
    requires Distinct(ms) && forall k :: 0 <= k < |ms| ==> ms[k] < n
    ensures |ms| <= n
  {
    DistinctCount(ms);
    BelowIsSmall(ms, n);
    assert Below(ms, n) == Members(ms);
  }

  // The search itself

  method RowsMeet(row: string, row': string) returns (b: bool)
    requires |row| == |row'|
    ensures b == Meet(row, row')
  {
    for j := 0 to |row|
      invariant forall k :: 0 <= k < j ==> !(row[k] == '1' && row'[k] == '1')
    {
      if row[j] == '1' && row'[j] == '1' {
        return true;
      }
    }
    return false;
  }

  /** What the two flag arrays of mis_quick stand for. */
  ghost predicate Flags(M: seq<string>, n: nat, ms: seq<nat>, mis: seq<bool>, rm: seq<bool>)
    requires IsTable(M, n) && AreRows(M, ms)
  {
    && |mis| == |rm| == |M|
    && (forall i :: 0 <= i < |M| ==> (mis[i] <==> i in ms))
    && (forall i :: 0 <= i < |M| && !mis[i] ==> (rm[i] <==> !Available(M, n, ms, i)))
  }

  /** The search for the shortest row among those neither picked nor removed. */
  method FindShortest(M: seq<string>, cost: seq<int>, ghost ms: seq<nat>, mis: array<bool>, rm: array<bool>)
      returns (shortest: int)
    requires IsTable(M, |cost|) && AreRows(M, ms) && Flags(M, |cost|, ms, mis[..], rm[..])
    requires exists i :: Available(M, |cost|, ms, i)
    ensures IsShortest(M, cost, ms, shortest)
  {
    shortest := -1;
    var size := 0;
    for i := 0 to |M|
      invariant -1 <= shortest < i
      invariant shortest == -1 ==> forall k :: 0 <= k < i ==> !Available(M, |cost|, ms, k)
      invariant shortest != -1 ==> Available(M, |cost|, ms, shortest) && size == RowCost(M[shortest], cost)
      invariant shortest != -1 ==>
        forall k {:trigger Available(M, |cost|, ms, k)} :: 0 <= k < i && Available(M, |cost|, ms, k) ==>
          size <= RowCost(M[k], cost) && (k < shortest ==> size < RowCost(M[k], cost))
    {
      assert (!mis[i] && !rm[i]) == Available(M, |cost|, ms, i) by {
        assert mis[i] == mis[..][i] && rm[i] == rm[..][i];
      }
      if !mis[i] && !rm[i] {
        var c := Cost(M[i], cost, 0);
        if shortest == -1 || c < size {
          shortest := i;
          size := c;
        }
      }
    }
  }

  /** Flags every row that shares a column with the row just picked. */
  method MarkNeighbours(M: seq<string>, n: nat, ghost ms: seq<nat>, s: nat, mis: array<bool>, rm: array<bool>)
    requires IsTable(M, n) && s < |M| && mis != rm && mis.Length == rm.Length == |M|
    requires AreRows(M, ms)
    requires forall i :: 0 <= i < |M| ==> (mis[i] <==> i in ms + [s])
    requires forall i :: 0 <= i < |M| && i !in ms ==> (rm[i] <==> !Available(M, n, ms, i))
    modifies rm
    ensures Flags(M, n, ms + [s], mis[..], rm[..])
  {
    for i := 0 to |M|
      invariant forall k :: 0 <= k < i && !mis[k] ==> (rm[k] <==> !Available(M, n, ms + [s], k))
      invariant forall k :: i <= k < |M| && k !in ms ==> (rm[k] <==> !Available(M, n, ms, k))
    {
      if !mis[i] {
        AvailableAfter(M, n, ms, s, i);
        if !rm[i] {
          var b := RowsMeet(M[s], M[i]);
          if b {
            rm[i] := true;
          }
        }
      }
    }
  }

  lemma AvailableAfter(M: seq<string>, n: nat, ms: seq<nat>, s: nat, i: int)
    requires IsTable(M, n) && s < |M| && AreRows(M, ms)
    requires i != s
    ensures Available(M, n, ms + [s], i) <==> Available(M, n, ms, i) && !Meet(M[s], M[i])
  {
    var ms' := ms + [s];
    if Available(M, n, ms', i) {
      forall k | 0 <= k < |ms|
        ensures !Meet(M[ms[k]], M[i])
      {
        assert ms'[k] == ms[k];
      }
      assert ms'[|ms|] == s;
    }
  }

  /** How many rows the greedy search picks; no row is left that it could add. */
  method MisQuick(M: seq<string>, cost: seq<int>) returns (size: nat)
    requires M != [] && IsTable(M, |cost|)
    ensures size == |GreedyRows(M, cost, [])|
    ensures forall i :: !Available(M, |cost|, GreedyRows(M, cost, []), i)
  {
    var nrows := |M|;
    var mis, rm := new bool[nrows](_ => false), new bool[nrows](_ => false);
    ghost var ms: seq<nat> := [];
    var more := true;
    assert Available(M, |cost|, ms, 0);
    while more
      invariant AreRows(M, ms) && Distinct(ms) && Flags(M, |cost|, ms, mis[..], rm[..])
      invariant GreedyRows(M, cost, ms) == GreedyRows(M, cost, [])
      invariant more <==> exists i :: Available(M, |cost|, ms, i)
      decreases nrows - |ms|, more
    {
      var shortest := PickShortest(M, cost, ms, mis, rm);
      ms := ms + [shortest];
      DistinctIsShort(ms, nrows);
      more := AnyLeft(M, |cost|, ms, mis, rm);
    }
    size := CountPicked(mis, ms);
  }

  /** One round of the do loop: pick the shortest row, flag its neighbours. */
  method PickShortest(M: seq<string>, cost: seq<int>, ghost ms: seq<nat>, mis: array<bool>, rm: array<bool>)
      returns (shortest: nat)
    requires IsTable(M, |cost|) && AreRows(M, ms) && Distinct(ms) && mis != rm
    requires Flags(M, |cost|, ms, mis[..], rm[..])
    requires exists i :: Available(M, |cost|, ms, i)
    modifies mis, rm
    ensures AreRows(M, ms + [shortest]) && Distinct(ms + [shortest])
    ensures GreedyRows(M, cost, ms) == GreedyRows(M, cost, ms + [shortest])
    ensures Flags(M, |cost|, ms + [shortest], mis[..], rm[..])
  {
    var s := FindShortest(M, cost, ms, mis, rm);
    shortest := s;
    NextIsShortest(M, cost, ms, shortest);
    assert forall i :: 0 <= i < |M| ==> mis[i] == mis[..][i] && rm[i] == rm[..][i];
    mis[shortest] := true;
    MarkNeighbours(M, |cost|, ms, shortest, mis, rm);
  }

  lemma NextIsShortest(M: seq<string>, cost: seq<int>, ms: seq<nat>, i: nat)
    requires IsTable(M, |cost|) && AreRows(M, ms) && Distinct(ms) && IsShortest(M, cost, ms, i)
    ensures AreRows(M, ms + [i]) && Distinct(ms + [i])
    ensures GreedyRows(M, cost, ms) == GreedyRows(M, cost, ms + [i])
  {
  }

  method AnyLeft(M: seq<string>, n: nat, ghost ms: seq<nat>, mis: array<bool>, rm: array<bool>) returns (more: bool)
    requires IsTable(M, n) && AreRows(M, ms)
    requires Flags(M, n, ms, mis[..], rm[..])
    ensures more <==> exists i :: Available(M, n, ms, i)
  {
    for i := 0 to |M|
      invariant forall k :: 0 <= k < i ==> !Available(M, n, ms, k)
    {
      assert (!mis[i] && !rm[i]) == Available(M, n, ms, i) by {
        assert mis[i] == mis[..][i] && rm[i] == rm[..][i];
      }
      if !mis[i] && !rm[i] {
        return true;
      }
    }
    return false;
  }

  method CountPicked(mis: array<bool>, ghost ms: seq<nat>) returns (size: nat)
    requires Distinct(ms) && forall k :: 0 <= k < |ms| ==> ms[k] < mis.Length
    requires forall i :: 0 <= i < mis.Length ==> (mis[i] <==> i in ms)
    ensures size == |ms|
  {
    size := 0;
    for i := 0 to mis.Length
      invariant size == |Below(ms, i)|
    {
      assert Below(ms, i + 1) == if i in ms then Below(ms, i) + {i} else Below(ms, i);
      if mis[i] {
        size := size + 1;
      }
    }
    DistinctCount(ms);
    assert Below(ms, mis.Length) == Members(ms);
  }

  method LowerBound(Sol: TableSol, cost: seq<int>) returns (L: int)
    requires Sol.Valid() && Sol.F != [] && |cost| == Sol.size
    ensures L == Sol.cost + Weight(Chosen(Sol.currentSol[..]), cost) + |GreedyRows(Sol.F, cost, [])|
  {
    var paid := Cost(Sol.currentSol[..], cost, Sol.cost);
    var rows := MisQuick(Sol.F, cost);
    L := paid + rows;
  }

  // Why the bound is sound

  ghost predicate PairwiseApart(M: seq<string>, n: nat, ms: seq<nat>)
    requires IsTable(M, n) && AreRows(M, ms)
  {
    forall a, b :: 0 <= a < b < |ms| ==> !Meet(M[ms[a]], M[ms[b]])
  }

  lemma {:induction false} GreedyRowsAreApart(M: seq<string>, cost: seq<int>, ms: seq<nat>)
    requires IsTable(M, |cost|) && AreRows(M, ms) && Distinct(ms) && PairwiseApart(M, |cost|, ms)
    ensures PairwiseApart(M, |cost|, GreedyRows(M, cost, ms))
    decreases |M| - |ms|
  {
    if exists i :: IsShortest(M, cost, ms, i) {
      var i :| IsShortest(M, cost, ms, i);
      NextIsShortest(M, cost, ms, i);
      DistinctIsShort(ms + [i], |M|);
      GreedyRowsAreApart(M, cost, ms + [i]);
    }
  }

  /** No cost is negative, and every column that covers a row costs something. */
  ghost predicate Priced(M: seq<string>, cost: seq<int>)
    requires IsTable(M, |cost|)
  {
    && CostsAtLeast(cost, 0)
    && forall p, i :: 0 <= p < |M| && 0 <= i < |cost| && M[p][i] == '1' ==> cost[i] >= 1
  }

  /** A selection that hits rows with no common column takes one column for
      each of them, besides any columns taken outside these rows. */
  lemma {:induction false} ApartRowsCost(
      M: seq<string>, cost: seq<int>, ms: seq<nat>, base: seq<bool>, s: seq<bool>)
    requires IsTable(M, |cost|) && |base| == |s| == |cost| && Priced(M, cost)
    requires AreRows(M, ms)
    requires PairwiseApart(M, |cost|, ms)
    requires forall k :: 0 <= k < |ms| ==> Hits(M[ms[k]], s)
    requires forall i :: 0 <= i < |s| && base[i] ==> s[i]
    requires forall k, i :: 0 <= k < |ms| && 0 <= i < |s| && base[i] ==> M[ms[k]][i] != '1'
    ensures Weight(s, cost) >= Weight(base, cost) + |ms|
    decreases |ms|
  {
    if ms == [] {
      WeightIsMonotone(base, s, cost, |s|);
    } else {
      var last := |ms| - 1;
      var i :| 0 <= i < |s| && M[ms[last]][i] == '1' && s[i];
      var s' := s[i := false];
      UpdateWeight(s, cost, i, false, |s|);
      forall k | 0 <= k < last
        ensures Hits(M[ms[..last][k]], s')
      {
        assert !Meet(M[ms[k]], M[ms[last]]);
        var j :| 0 <= j < |s| && M[ms[k]][j] == '1' && s[j];
        assert j != i && s'[j];
      }
      ApartRowsCost(M, cost, ms[..last], base, s');
    }
  }

  /** No completion costs less than lower_bound says. */
  lemma LowerBoundIsSound(F: seq<string>, sol: string, cost: seq<int>, s: seq<bool>)
    requires WellFormed(F, sol) && |cost| == |sol| && Priced(F, cost)
    requires Completion(F, sol, s)
    ensures Weight(s, cost) >= Weight(Chosen(sol), cost) + |GreedyRows(F, cost, [])|
  {
    GreedyRowsAreApart(F, cost, []);
    ApartRowsCost(F, cost, GreedyRows(F, cost, []), Chosen(sol), s);
  }

  lemma {:induction false} NothingWeighsNothing(none: seq<bool>, cost: seq<int>, k: nat)
    requires k <= |none| == |cost| && forall i :: 0 <= i < |none| ==> !none[i]
    ensures PartialWeight(none, cost, k) == 0
  {
    if k > 0 {
      NothingWeighsNothing(none, cost, k - 1);
    }
  }

  lemma {:induction false} GreedyRowsGrow(M: seq<string>, cost: seq<int>, ms: seq<nat>)
    requires IsTable(M, |cost|) && AreRows(M, ms) && Distinct(ms)
    ensures |GreedyRows(M, cost, ms)| >= |ms|
    decreases |M| - |ms|
  {
    if exists i :: IsShortest(M, cost, ms, i) {
      var i :| IsShortest(M, cost, ms, i);
      NextIsShortest(M, cost, ms, i);
      DistinctIsShort(ms + [i], |M|);
      GreedyRowsGrow(M, cost, ms + [i]);
    }
  }
}
