/** Tables of at most three columns, one of them free: there lower_bound of
    src/bcp.c is right although it counts rows. */
module SmallTables {
  import opened CoverTable
  import opened RowReduction
  import opened ColumnReduction
  import opened TableReduction
  import opened CoverBound
  import opened Reducts

  /** At most two columns, or three of which at most one is free. */
  ghost predicate IsSmall(cost: seq<int>) {
    || |cost| <= 2
    || (|cost| == 3 && forall i, j :: 0 <= i < j < 3 ==> cost[i] > 0 || cost[j] > 0)
  }

  ghost predicate HasTwoOnes(row: string) {
    exists i, j :: 0 <= i < j < |row| && row[i] == '1' && row[j] == '1'
  }

  lemma CoveredRowIsWide(F: seq<string>, s: seq<bool>, p: nat)
    requires IsTable(F, |s|) && Covers(F, s) && p < |F| && forall i :: !EssentialIn(F, i)
    ensures HasTwoOnes(F[p])
  {
    assert Hits(F[p], s);
    var i :| 0 <= i < |s| && F[p][i] == '1' && s[i];
    assert !EssentialIn(F, i);
    var j :| 0 <= j < |s| && j != i && F[p][j] == '1';
  }

  lemma WideRowsMeet(row: string, row': string)
    requires |row| == |row'| <= 3 && HasTwoOnes(row) && HasTwoOnes(row')
    ensures Meet(row, row')
  {
    var i, j :| 0 <= i < j < |row| && row[i] == '1' && row[j] == '1';
    var k, l :| 0 <= k < l < |row| && row'[k] == '1' && row'[l] == '1';
    assert i == k || i == l || j == k || j == l;
  }

  /** So the greedy choice is a single row. */
  lemma GreedyIsOneRow(F: seq<string>, cost: seq<int>, s: seq<bool>)
    requires IsTable(F, |cost|) && |s| == |cost| <= 3 && Covers(F, s) && forall i :: !EssentialIn(F, i)
    ensures |GreedyRows(F, cost, [])| <= 1
  {
    var ms := GreedyRows(F, cost, []);
    GreedyRowsAreApart(F, cost, []);
    if |ms| > 1 {
      CoveredRowIsWide(F, s, ms[0]);
      CoveredRowIsWide(F, s, ms[1]);
      WideRowsMeet(F[ms[0]], F[ms[1]]);
    }
  }

  /** s takes nothing that costs beyond what sol takes. */
  ghost predicate AddsNothing(sol: string, cost: seq<int>, s: seq<bool>)
    requires |sol| == |cost| == |s|
  {
    forall i :: 0 <= i < |sol| && s[i] && sol[i] != '1' ==> cost[i] == 0
  }

  lemma CostlyColumn(sol: string, cost: seq<int>, s: seq<bool>)
    requires |sol| == |cost| && CostsAtLeast(cost, 0) && Respects(sol, s) && !AddsNothing(sol, cost, s)
    ensures Weight(s, cost) >= Weight(Chosen(sol), cost) + 1
  {
    var i :| 0 <= i < |sol| && s[i] && sol[i] != '1' && cost[i] != 0;
    UpdateWeight(s, cost, i, false, |s|);
    WeightIsMonotone(Chosen(sol), s[i := false], cost, |s|);
  }

  /** The free column that covers all rows of a reduct, and one it shares a row with. */
  lemma FreeOnAll(r: Reduct, cost: seq<int>, s: seq<bool>) returns (z: nat, a: nat)
    requires IsReduct(r, |cost|) && WellFormed(r.F, r.sol) && r.F != [] && IsSmall(cost)
    requires forall i :: !EssentialIn(r.F, i)
    requires Completion(r.F, r.sol, s) && AddsNothing(r.sol, cost, s)
    ensures z < |cost| && a < |cost| && z != a && cost[z] == 0 && r.F[0][a] == '1'
    ensures forall p :: 0 <= p < |r.F| ==> r.F[p][z] == '1'
  {
    assert Hits(r.F[0], s);
    z :| 0 <= z < |s| && r.F[0][z] == '1' && s[z];
    forall p | 0 <= p < |r.F| ensures r.F[p][z] == '1' {
      assert Hits(r.F[p], s);
      var i :| 0 <= i < |s| && r.F[p][i] == '1' && s[i];
      CoveredRowIsWide(r.F, s, p);
      assert r.sol[i] == '-' && cost[i] == 0 && cost[z] == 0;
    }
    assert !EssentialIn(r.F, z);
    assert !IsSoleOne(r.F[0], z);
    a :| 0 <= a < |s| && a != z && r.F[0][a] == '1';
  }

  /** After the column pass some row needs a but not z. */
  lemma RowWithoutZ(c: Reduct, row: string, cost: seq<int>, z: nat, a: nat) returns (q: nat)
    requires IsReduct(c, |cost|) && CostsAtLeast(cost, 0) && NoColumnYields(c.F, |cost|, cost) && row in c.F
    requires z < |cost| && a < |cost| && z != a && cost[z] == 0 && |row| == |cost| && row[a] == '1' && row[z] == '1'
    ensures q < |c.F| && c.F[q][z] == '0' && c.F[q][a] == '1' && HasOneAt(c.F, z) && HasOneAt(c.F, a)
  {
    var p :| 0 <= p < |c.F| && c.F[p] == row;
    assert c.F[p][a] == '1' && c.F[p][z] == '1';
    assert !Yields(c.F, |cost|, cost, z, a);
    q :| 0 <= q < |c.F| && c.F[q][z] == '0' && c.F[q][a] == '1';
  }

  lemma RowIsSolved(F: seq<string>, r: Reduct, z: nat, q: nat)
    requires IsTable(F, |r.sol|) && IsTable(r.F, |r.sol|) && AccountsFor(F, r.F, r.sol)
    requires z < |r.sol| && q < |F| && F[q][z] == '0' && forall p :: 0 <= p < |r.F| ==> r.F[p][z] == '1'
    ensures Solved(F[q], r.sol)
  {
    assert !HoldsRow(r.F, F[q]);
  }

  /** That row has been solved by a third column. */
  lemma ThirdColumn(c: Reduct, r: Reduct, cost: seq<int>, z: nat, a: nat) returns (b: nat)
    requires |cost| <= 3
    requires IsReduct(c, |cost|) && IsReduct(r, |cost|) && WellFormed(r.F, r.sol)
    requires CostsAtLeast(cost, 0) && NoColumnYields(c.F, |cost|, cost) && IsRowReduct(c.F, c.sol, r) && r.F != []
    requires z < |cost| && a < |cost| && z != a && cost[z] == 0 && r.F[0][a] == '1'
    requires forall p :: 0 <= p < |r.F| ==> r.F[p][z] == '1'
    ensures b < |cost| && r.sol[b] == '1' && AllCover(c.F, |cost|)
  {
    var q := RowWithoutZ(c, r.F[0], cost, z, a);
    RowIsSolved(c.F, r, z, q);
    b :| 0 <= b < |cost| && c.F[q][b] == '1' && r.sol[b] == '1';
    assert r.sol[a] == '-';
    ThreeCover(c.F, |cost|, z, a, b);
  }

  lemma ThreeCover(F: seq<string>, n: nat, z: nat, a: nat, b: nat)
    requires IsTable(F, n) && n <= 3 && z < n && a < n && b < n && z != a && z != b && a != b
    requires HasOneAt(F, z) && HasOneAt(F, a) && HasOneAt(F, b)
    ensures AllCover(F, n)
  {
    forall k | 0 <= k < n ensures HasOneAt(F, k) {
      assert k == z || k == a || k == b;
    }
  }

  ghost predicate AllCover(F: seq<string>, n: nat)
    requires IsTable(F, n)
  {
    forall k :: 0 <= k < n ==> HasOneAt(F, k)
  }

  /** A column that became essential only after the column pass needs a column
      to have been given up. */
  lemma NewEssential(e: Reduct, c: Reduct, cost: seq<int>, b: nat)
    requires IsReduct(e, |cost|) && IsReduct(c, |cost|) && ColumnsGivenUp(e.F, e.sol, c.F, c.sol, cost)
    requires b < |cost| && EssentialIn(c.F, b) && AllCover(c.F, |cost|)
    ensures EssentialIn(e.F, b)
  {
    var g :| 0 <= g < |c.F| && IsSoleOne(c.F[g], b);
    forall k | 0 <= k < |cost| ensures e.F[g][k] == c.F[g][k] {
      assert HasOneAt(c.F, k);
      var p :| 0 <= p < |c.F| && c.F[p][k] == '1';
      assert c.sol[k] == '-';
      assert SameColumn(e.F, c.F, |cost|, k);
    }
    assert IsSoleOne(e.F[g], b);
  }

  /** Of three columns that all cover rows after the column pass, none has
      become essential by it. */
  lemma NoneTakenLater(e: Reduct, c: Reduct, r: Reduct, cost: seq<int>, b: nat)
    requires IsReduct(e, |cost|) && IsReduct(c, |cost|) && |r.sol| == |cost| && b < |cost|
    requires ColumnsGivenUp(e.F, e.sol, c.F, c.sol, cost) && forall i :: !EssentialIn(e.F, i)
    requires r.sol[b] == '1' && c.sol[b] != '1' ==> EssentialIn(c.F, b)
    requires AllCover(c.F, |cost|)
    ensures r.sol[b] != '1'
  {
    assert HasOneAt(c.F, b);
    var q :| 0 <= q < |c.F| && c.F[q][b] == '1';
    assert c.sol[b] == '-';
    if EssentialIn(c.F, b) {
      NewEssential(e, c, cost, b);
    }
  }

  lemma FreeCoverIsImpossible(e: Reduct, c: Reduct, r: Reduct, cost: seq<int>, s: seq<bool>)
    requires IsReduct(e, |cost|) && IsReduct(c, |cost|) && IsReduct(r, |cost|)
    requires CostsAtLeast(cost, 0) && IsSmall(cost)
    requires ColumnsGivenUp(e.F, e.sol, c.F, c.sol, cost) && forall i :: !EssentialIn(e.F, i)
    requires NoColumnYields(c.F, |cost|, cost) && IsRowReduct(c.F, c.sol, r)
    requires WellFormed(r.F, r.sol) && r.F != [] && forall i :: !EssentialIn(r.F, i)
    requires Completion(r.F, r.sol, s)
    ensures !AddsNothing(r.sol, cost, s)
  {
    if AddsNothing(r.sol, cost, s) {
      var z, a := FreeOnAll(r, cost, s);
      var b := ThirdColumn(c, r, cost, z, a);
      NoneTakenLater(e, c, r, cost, b);
    }
  }

  /** The bound of a small table is right. */
  lemma SmallBound(F: seq<string>, sol: string, cost: seq<int>, s: seq<bool>)
    requires WellFormed(F, sol) && |cost| == |sol| && CostsAtLeast(cost, 0) && IsSmall(cost)
    requires Reduced(F, sol, cost).F != [] && Completion(Reduced(F, sol, cost).F, Reduced(F, sol, cost).sol, s)
    ensures var r := Reduced(F, sol, cost);
      Weight(s, cost) >= Weight(Chosen(r.sol), cost) + |GreedyRows(r.F, cost, [])|
  {
    var r := Reduced(F, sol, cost);
    ReducedKeepsOptimum(F, sol, cost);
    GreedyIsOneRow(r.F, cost, s);
    var e, c := ReducedIsStaged(F, sol, cost);
    FreeCoverIsImpossible(e, c, r, cost, s);
    CostlyColumn(r.sol, cost, s);
  }
}
