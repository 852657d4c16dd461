/** The tables that find_minimal_prs of src/storeprs.c hands to the covering search:
    one column per cube, which costs its literals, and one row per state to cover. */
module CubeTables {
  import opened CoverTable
  import opened RowReduction
  import opened ColumnReduction
  import opened TableReduction
  import opened CoverBound
  import opened Compression
  import opened Reducts
  import opened CoverSearch
  import opened FreeColumns

  // Columns that cost nothing

  /** A free column covers every row or none. */
  ghost predicate FreeAreTrivial(F: seq<string>, cost: seq<int>)
    requires IsTable(F, |cost|)
  {
    && CostsAtLeast(cost, 0)
    && forall i :: 0 <= i < |cost| && cost[i] == 0 && HasOneAt(F, i) ==> IsFull(F, i)
  }

  ghost predicate IsFull(F: seq<string>, i: nat)
    requires forall p :: 0 <= p < |F| ==> i < |F[p]|
  {
    forall p :: 0 <= p < |F| ==> F[p][i] == '1'
  }

  lemma SoleIsFull(F: seq<string>, n: nat, z: nat)
    requires IsTable(F, n) && z < n && IsFull(F, z)
    ensures forall i: nat :: EssentialIn(F, i) ==> i == z
  {
    forall i: nat | EssentialIn(F, i) ensures i == z {
      var p :| 0 <= p < |F| && IsSoleOne(F[p], i);
      assert F[p][z] == '1';
    }
  }

  /** After the column pass every row needs just one free column. */
  lemma OneColumnStays(e: Reduct, c: Reduct, cost: seq<int>, z: nat) returns (m: nat)
    requires IsReduct(e, |cost|) && IsReduct(c, |cost|) && CostsAtLeast(cost, 0) && c.F != []
    requires ColumnsGivenUp(e.F, e.sol, c.F, c.sol, cost) && NoColumnYields(c.F, |cost|, cost)
    requires z < |cost| && cost[z] == 0 && IsFull(e.F, z)
    ensures m < |cost| && cost[m] == 0 && forall p :: 0 <= p < |c.F| ==> IsSoleOne(c.F[p], m)
  {
    m := StayingFull(e, c, cost, z);
    forall p | 0 <= p < |c.F| ensures IsSoleOne(c.F[p], m) {
      forall k | 0 <= k < |cost| && k != m ensures c.F[p][k] != '1' {
        assert !Yields(c.F, |cost|, cost, m, k);
      }
    }
  }

  lemma StayingFull(e: Reduct, c: Reduct, cost: seq<int>, z: nat) returns (m: nat)
    requires IsReduct(e, |cost|) && IsReduct(c, |cost|) && CostsAtLeast(cost, 0)
    requires ColumnsGivenUp(e.F, e.sol, c.F, c.sol, cost)
    requires z < |cost| && cost[z] == 0 && IsFull(e.F, z)
    ensures m < |cost| && cost[m] == 0 && IsFull(c.F, m)
  {
    m := z;
    if !(c.sol[z] == e.sol[z] && SameColumn(e.F, c.F, |cost|, z)) {
      m :| 0 <= m < |cost| && c.sol[m] == '-' && Yields(e.F, |cost|, cost, m, z);
      assert IsFull(e.F, m);
      assert SameColumn(e.F, c.F, |cost|, m);
    }
  }

  ghost predicate TakesOnlyFree(sol: string, cost: seq<int>)
    requires |sol| == |cost|
  {
    forall i :: 0 <= i < |sol| && sol[i] == '1' ==> cost[i] == 0
  }

  lemma OnlyFreeAfter(c: Reduct, r: Reduct, cost: seq<int>)
    requires IsReduct(c, |cost|) && IsRowReduct(c.F, c.sol, r) && TakesOnlyFree(c.sol, cost)
    requires forall i :: 0 <= i < |cost| && EssentialIn(c.F, i) ==> cost[i] == 0
    ensures TakesOnlyFree(r.sol, cost)
  {
  }

  /** If every row needs column m alone, then so does every row left. */
  lemma SoleRows(F: seq<string>, F': seq<string>, n: nat, m: nat)
    requires IsTable(F, n) && IsTable(F', n) && m < n && forall p :: 0 <= p < |F'| ==> F'[p] in F
    requires forall p :: 0 <= p < |F| ==> IsSoleOne(F[p], m)
    ensures F' != [] ==> EssentialIn(F', m)
    ensures forall i: nat :: EssentialIn(F, i) ==> i == m
  {
    SoleIsFull(F, n, m);
    if F' != [] {
      assert F'[0] in F;
      assert IsSoleOne(F'[0], m);
    }
  }

  /** The column pass and the rounds after it. */
  lemma FullColumnRounds(e: Reduct, c: Reduct, r: Reduct, cost: seq<int>, z: nat)
    requires IsReduct(e, |cost|) && IsReduct(c, |cost|) && CostsAtLeast(cost, 0) && IsRowReduct(c.F, c.sol, r)
    requires ColumnsGivenUp(e.F, e.sol, c.F, c.sol, cost) && NoColumnYields(c.F, |cost|, cost)
    requires z < |cost| && cost[z] == 0 && IsFull(e.F, z)
    requires TakesOnlyFree(e.sol, cost) && forall i :: !EssentialIn(r.F, i)
    ensures r.F == [] && TakesOnlyFree(r.sol, cost)
  {
    assert TakesOnlyFree(c.sol, cost);
    assert r.F != [] ==> r.F[0] in c.F;
    if c.F != [] {
      var m := OneColumnStays(e, c, cost, z);
      SoleRows(c.F, r.F, |cost|, m);
    }
    OnlyFreeAfter(c, r, cost);
  }

  /** A free column that covers all rows is all that reduce takes. */
  lemma FullColumnIsTaken(F: seq<string>, cost: seq<int>, z: nat)
    requires IsTable(F, |cost|) && CostsAtLeast(cost, 0) && F != []
    requires z < |cost| && cost[z] == 0 && IsFull(F, z)
    ensures var r := Reduced(F, AllDashes(|cost|), cost);
      r.F == [] && TakesOnlyFree(r.sol, cost)
  {
    var open := AllDashes(|cost|);
    var e, c := ReducedIsStaged(F, open, cost);
    ReducedKeepsOptimum(F, open, cost);
    SoleIsFull(F, |cost|, z);
    OnlyFreeAfter(Reduct(F, open), e, cost);
    forall p | 0 <= p < |e.F| ensures e.F[p][z] == '1' {
      assert e.F[p] in F;
    }
    FullColumnRounds(e, c, Reduced(F, open, cost), cost, z);
  }

  lemma {:induction false} FreeWeighsNothing(sol: string, cost: seq<int>, k: nat)
    requires k <= |sol| == |cost| && TakesOnlyFree(sol, cost)
    ensures PartialWeight(Chosen(sol), cost, k) == 0
  {
    if k > 0 {
      FreeWeighsNothing(sol, cost, k - 1);
    }
  }

  /** Free columns do no harm if each of them covers all rows or none. */
  lemma TrivialFreeIsExact(F: seq<string>, cost: seq<int>, base: int, U: int)
    requires IsTable(F, |cost|) && FreeAreTrivial(F, cost)
    ensures IsExact(F, cost, base, U)
  {
    var open := AllDashes(|cost|);
    if Priced(F, cost) {
      SearchIsExact(F, open, base, U, cost);
    } else {
      var p, z :| 0 <= p < |F| && 0 <= z < |cost| && F[p][z] == '1' && cost[z] < 1;
      assert HasOneAt(F, z);
      FullColumnIsTaken(F, cost, z);
      FreeWeighsNothing(Reduced(F, open, cost).sol, cost, |cost|);
      forall s | Completion(F, open, s) ensures Weight(s, cost) >= 0 {
        var none := seq(|cost|, _ => false);
        NothingWeighsNothing(none, cost, |cost|);
        WeightIsMonotone(none, s, cost, |cost|);
      }
    }
  }

  // Cubes

  function CoverIncludes(enstate: string, cover: string): bool
    requires |enstate| == |cover|
  {
    forall i :: 0 <= i < |cover| ==> Admits(cover[i], enstate[i])
  }

  /** E admits nothing; a literal admits its value and the excitation to leave it. */
  predicate Admits(literal: char, value: char) {
    && literal != 'E'
    && (literal == 'X' || literal == 'Z' || literal == value
        || (literal == '0' && value == 'R') || (literal == '1' && value == 'F'))
  }

  method Includes(enstate: string, cover: string) returns (b: bool)
    requires |enstate| == |cover|
    ensures b == CoverIncludes(enstate, cover)
  {
    for i := 0 to |cover|
      invariant forall k :: 0 <= k < i ==> Admits(cover[k], enstate[k])
    {
      if cover[i] == 'E' {
        return false;
      }
      if cover[i] != 'X' && cover[i] != 'Z' && cover[i] != enstate[i]
         && !(cover[i] == '0' && enstate[i] == 'R') && !(cover[i] == '1' && enstate[i] == 'F') {
        return false;
      }
    }
    return true;
  }

  function Literals(cover: string): nat {
    if cover == "" then 0
    else Literals(cover[..|cover| - 1]) + if cover[|cover| - 1] in {'0', '1'} then 1 else 0
  }

  ghost predicate IsCube(cover: string) {
    forall i :: 0 <= i < |cover| ==> cover[i] in {'0', '1', 'X', 'Z', 'E'}
  }

  /** The level a signal has in a state: '0' and 'R' (about to rise) are low, '1'
      and 'F' (about to fall) are high. */
  predicate IsLow(value: char) {
    value == '0' || value == 'R'
  }

  predicate IsHigh(value: char) {
    value == '1' || value == 'F'
  }

  /** A cube includes a state if and only if no position is E and the state has
      the level of every literal. */
  lemma IncludesIffAgrees(cover: string, enstate: string)
    requires IsCube(cover) && |enstate| == |cover|
    ensures CoverIncludes(enstate, cover) <==> forall i :: 0 <= i < |cover| ==>
      cover[i] != 'E' && (cover[i] == '0' ==> IsLow(enstate[i])) && (cover[i] == '1' ==> IsHigh(enstate[i]))
  {
    forall i | 0 <= i < |cover|
      ensures Admits(cover[i], enstate[i]) <==>
        cover[i] != 'E' && (cover[i] == '0' ==> IsLow(enstate[i])) && (cover[i] == '1' ==> IsHigh(enstate[i]))
    {
    }
  }

  ghost function LiteralPositions(cover: string): set<nat> {
    set i: nat | i < |cover| && (cover[i] == '0' || cover[i] == '1')
  }

  /** The cost of a cube is the number of its literal positions. */
  lemma {:induction false} LiteralsCounts(cover: string)
    ensures Literals(cover) == |LiteralPositions(cover)|
  {
    if cover == "" {
      assert LiteralPositions(cover) == {};
    } else {
      var n, init := |cover| - 1, cover[..|cover| - 1];
      LiteralsCounts(init);
      var last: set<nat> := if cover[n] == '0' || cover[n] == '1' then {n} else {};
      assert LiteralPositions(cover) == LiteralPositions(init) + last;
    }
  }

  lemma {:induction false} NoLiterals(cover: string)
    requires Literals(cover) == 0
    ensures forall i :: 0 <= i < |cover| ==> cover[i] != '0' && cover[i] != '1'
  {
    if cover != "" {
      NoLiterals(cover[..|cover| - 1]);
      assert forall i :: 0 <= i < |cover| - 1 ==> cover[i] == cover[..|cover| - 1][i];
    }
  }

  /** A cube without literals includes every state, or none if it is marked E. */
  lemma LiteralFreeCube(cover: string, enstate: string)
    requires IsCube(cover) && Literals(cover) == 0 && |enstate| == |cover|
    ensures CoverIncludes(enstate, cover) <==> 'E' !in cover
  {
    NoLiterals(cover);
    if 'E' in cover {
      var i :| 0 <= i < |cover| && cover[i] == 'E';
      assert !Admits(cover[i], enstate[i]);
    }
  }

  ghost predicate IsCubeTable(F: seq<string>, cost: seq<int>, states: seq<string>, cubes: seq<string>) {
    && IsTable(F, |cost|) && |F| == |states| && |cost| == |cubes|
    && (forall i :: 0 <= i < |cubes| ==> IsCube(cubes[i]) && cost[i] == Literals(cubes[i]))
    && (forall p, i :: 0 <= p < |states| && 0 <= i < |cubes| ==>
          |states[p]| == |cubes[i]| && (F[p][i] == '1' <==> CoverIncludes(states[p], cubes[i])))
  }

  /** So the search is exact on the tables of the caller, free cubes or not. */
  lemma CubeTableIsExact(F: seq<string>, cost: seq<int>, states: seq<string>, cubes: seq<string>, base: int, U: int)
    requires IsCubeTable(F, cost, states, cubes)
    ensures FreeAreTrivial(F, cost) && IsExact(F, cost, base, U)
  {
    forall i | 0 <= i < |cost| && cost[i] == 0 && HasOneAt(F, i) ensures IsFull(F, i) {
      var q :| 0 <= q < |F| && F[q][i] == '1';
      LiteralFreeCube(cubes[i], states[q]);
      forall p | 0 <= p < |F| ensures F[p][i] == '1' {
        LiteralFreeCube(cubes[i], states[p]);
      }
    }
    TrivialFreeIsExact(F, cost, base, U);
  }
}
