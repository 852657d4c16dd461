/** The weighted unate covering problem of src/bcp.c: rows over '0' and '1',
    partial solutions over '-' (open), '0' (out) and '1' (in), and their covers. */
module CoverTable {

  predicate IsRow(row: string, n: nat) {
    |row| == n && forall i :: 0 <= i < n ==> row[i] == '0' || row[i] == '1'
  }

  ghost predicate IsTable(F: seq<string>, n: nat) {
    forall p :: 0 <= p < |F| ==> IsRow(F[p], n)
  }

  ghost predicate IsPartial(sol: string) {
    forall i :: 0 <= i < |sol| ==> sol[i] in {'-', '0', '1'}
  }

  /** A table paired with a partial solution over the same columns; a decided
      column holds no '1' any more. */
  ghost predicate WellFormed(F: seq<string>, sol: string) {
    && IsTable(F, |sol|)
    && IsPartial(sol)
    && forall p, i :: 0 <= p < |F| && 0 <= i < |sol| && sol[i] != '-' ==> F[p][i] == '0'
  }

  ghost predicate AllOpen(sol: string) {
    forall i :: 0 <= i < |sol| ==> sol[i] == '-'
  }

  ghost predicate CostsAtLeast(cost: seq<int>, bound: int) {
    forall i :: 0 <= i < |cost| ==> cost[i] >= bound
  }

  // Selections, their weight, and what they cover

  /** The columns a partial solution takes; an open column is not taken. */
  function Chosen(sol: string): (s: seq<bool>)
    ensures |s| == |sol|
    ensures forall i :: 0 <= i < |sol| ==> s[i] == (sol[i] == '1')
  {
    seq(|sol|, i requires 0 <= i < |sol| => sol[i] == '1')
  }

  function PartialWeight(s: seq<bool>, cost: seq<int>, k: nat): int
    requires k <= |s| == |cost|
  {
    if k == 0 then 0 else PartialWeight(s, cost, k - 1) + if s[k - 1] then cost[k - 1] else 0
  }

  function Weight(s: seq<bool>, cost: seq<int>): int
    requires |s| == |cost|
  {
    PartialWeight(s, cost, |s|)
  }

  ghost predicate Hits(row: string, s: seq<bool>)
    requires |row| == |s|
  {
    exists i :: 0 <= i < |row| && row[i] == '1' && s[i]
  }

  ghost predicate Covers(F: seq<string>, s: seq<bool>)
    requires IsTable(F, |s|)
  {
    forall p :: 0 <= p < |F| ==> Hits(F[p], s)
  }

  /** s keeps every decision of sol. */
  ghost predicate Respects(sol: string, s: seq<bool>) {
    && |s| == |sol|
    && forall i :: 0 <= i < |sol| ==> (sol[i] == '1' ==> s[i]) && (sol[i] == '0' ==> !s[i])
  }

  ghost predicate Completion(F: seq<string>, sol: string, s: seq<bool>)
    requires IsTable(F, |sol|)
  {
    Respects(sol, s) && Covers(F, s)
  }

  // What a reduction of the table has to keep

  /** The smaller problem has only completions of the larger one, and among
      them one that costs no more than any given completion of the larger. */
  ghost predicate KeepsOptimum(F: seq<string>, sol: string, F': seq<string>, sol': string, cost: seq<int>)
    requires |sol| == |sol'| == |cost|
    requires IsTable(F, |sol|) && IsTable(F', |sol|)
  {
    && (forall s :: Completion(F', sol', s) ==> Completion(F, sol, s))
    && (forall s :: Completion(F, sol, s) ==> HasNoDearer(F', sol', cost, s))
  }

  ghost predicate HasNoDearer(F: seq<string>, sol: string, cost: seq<int>, s: seq<bool>)
    requires |sol| == |cost| == |s| && IsTable(F, |sol|)
  {
    exists s' :: Completion(F, sol, s') && Weight(s', cost) <= Weight(s, cost)
  }

  ghost predicate SameCompletions(F: seq<string>, sol: string, F': seq<string>, sol': string)
    requires |sol| == |sol'| && IsTable(F, |sol|) && IsTable(F', |sol|)
  {
    forall s :: Completion(F, sol, s) <==> Completion(F', sol', s)
  }

  lemma SameCompletionsKeepOptimum(F: seq<string>, sol: string, F': seq<string>, sol': string, cost: seq<int>)
    requires |sol| == |sol'| == |cost| && IsTable(F, |sol|) && IsTable(F', |sol|)
    requires SameCompletions(F, sol, F', sol')
    ensures KeepsOptimum(F, sol, F', sol', cost)
  {
  }

  lemma KeepsOptimumTransitive(
      F: seq<string>, sol: string, F': seq<string>, sol': string, F'': seq<string>, sol'': string, cost: seq<int>)
    requires |sol| == |sol'| == |sol''| == |cost|
    requires IsTable(F, |sol|) && IsTable(F', |sol|) && IsTable(F'', |sol|)
    requires KeepsOptimum(F, sol, F', sol', cost) && KeepsOptimum(F', sol', F'', sol'', cost)
    ensures KeepsOptimum(F, sol, F'', sol'', cost)
  {
    forall s | Completion(F, sol, s)
      ensures HasNoDearer(F'', sol'', cost, s)
    {
      assert HasNoDearer(F', sol', cost, s);
      var s' :| Completion(F', sol', s') && Weight(s', cost) <= Weight(s, cost);
      assert HasNoDearer(F'', sol'', cost, s');
    }
  }

  // Arithmetic of weights

  lemma {:induction false} UpdateWeight(s: seq<bool>, cost: seq<int>, i: nat, b: bool, k: nat)
    requires k <= |s| == |cost| && i < |s|
    ensures PartialWeight(s[i := b], cost, k)
         == PartialWeight(s, cost, k)
            + if i < k then (if b then cost[i] else 0) - (if s[i] then cost[i] else 0) else 0
  {
    if k > 0 {
      UpdateWeight(s, cost, i, b, k - 1);
    }
  }

  lemma {:induction false} WeightIsMonotone(s: seq<bool>, s': seq<bool>, cost: seq<int>, k: nat)
    requires k <= |s| == |s'| == |cost|
    requires CostsAtLeast(cost, 0)
    requires forall i :: 0 <= i < |s| && s[i] ==> s'[i]
    ensures PartialWeight(s, cost, k) <= PartialWeight(s', cost, k)
  {
    if k > 0 {
      WeightIsMonotone(s, s', cost, k - 1);
    }
  }

  /** Once no row is left, taking exactly the decided columns is optimal. */
  lemma ChosenIsCheapest(sol: string, cost: seq<int>)
    requires IsPartial(sol) && |cost| == |sol|
    ensures Completion([], sol, Chosen(sol))
    ensures CostsAtLeast(cost, 0) ==> forall s :: Respects(sol, s) ==> Weight(Chosen(sol), cost) <= Weight(s, cost)
  {
    if CostsAtLeast(cost, 0) {
      forall s | Respects(sol, s)
        ensures Weight(Chosen(sol), cost) <= Weight(s, cost)
      {
        WeightIsMonotone(Chosen(sol), s, cost, |s|);
      }
    }
  }
}
