/** The row reductions of src/bcp.c: essential columns and dominating rows. */
module RowReduction {
  import opened CoverTable

  /** tableSolADT: the row list F, the partial solution currentSol and the
      cost already paid by the callers. */
  class TableSol {
    var F: seq<string>
    var currentSol: array<char>
    var cost: int
    var size: nat

    ghost predicate Valid()
      reads this, currentSol
    {
      currentSol.Length == size && IsTable(F, size) && IsPartial(currentSol[..])
    }

    /** CopyString of the partial solution into a new table. */
    constructor (F: seq<string>, sol: string, cost: int)
      ensures this.F == F && this.cost == cost && size == |sol|
      ensures fresh(currentSol) && currentSol[..] == sol
    {
      this.F := F;
      this.cost := cost;
      size := |sol|;
      currentSol := new char[|sol|](i requires 0 <= i < |sol| => sol[i]);
    }
  }

  // Essential columns

  ghost predicate IsSoleOne(row: string, i: nat) {
    i < |row| && row[i] == '1' && forall k :: 0 <= k < |row| && k != i ==> row[k] != '1'
  }

  ghost predicate HasOne(row: string) {
    exists i :: 0 <= i < |row| && row[i] == '1'
  }

  ghost predicate EssentialIn(F: seq<string>, i: nat) {
    exists p :: 0 <= p < |F| && IsSoleOne(F[p], i)
  }

  predicate Solved(row: string, sol: string)
    requires |row| == |sol|
  {
    exists i :: 0 <= i < |row| && row[i] == '1' && sol[i] == '1'
  }

  /** The first k rows that sol does not solve yet, last row first. */
  ghost function Unsolved(F: seq<string>, sol: string, k: nat): seq<string>
    requires k <= |F| && IsTable(F, |sol|)
  {
    if k == 0 then []
    else (if Solved(F[k - 1], sol) then [] else [F[k - 1]]) + Unsolved(F, sol, k - 1)
  }

  lemma {:induction false} UnsolvedRows(F: seq<string>, sol: string, k: nat)
    requires k <= |F| && IsTable(F, |sol|)
    ensures IsTable(Unsolved(F, sol, k), |sol|)
    ensures forall r :: r in Unsolved(F, sol, k) <==> exists p :: 0 <= p < k && F[p] == r && !Solved(r, sol)
  {
    if k > 0 {
      UnsolvedRows(F, sol, k - 1);
      var rest, last := Unsolved(F, sol, k - 1), F[k - 1];
      var rows := Unsolved(F, sol, k);
      if Solved(last, sol) {
        assert rows == rest;
      } else {
        assert rows == [last] + rest;
        assert rows[0] == last && forall q :: 1 <= q < |rows| ==> rows[q] == rest[q - 1];
      }
      forall r | exists p :: 0 <= p < k && F[p] == r && !Solved(r, sol) ensures r in rows {
        var p :| 0 <= p < k && F[p] == r && !Solved(r, sol);
        assert p < k - 1 ==> r in rest;
      }
    }
  }

  lemma {:induction false} UnsolvedCount(F: seq<string>, sol: string, k: nat)
    requires k <= |F| && IsTable(F, |sol|)
    ensures |Unsolved(F, sol, k)| <= k
    ensures (exists p :: 0 <= p < k && Solved(F[p], sol)) ==> |Unsolved(F, sol, k)| < k
  {
    if k > 0 {
      UnsolvedCount(F, sol, k - 1);
    }
  }

  /** The partial solution with every essential column taken. */
  ghost function WithEssentials(F: seq<string>, sol: string): (sol': string)
    ensures |sol'| == |sol| && (IsPartial(sol) ==> IsPartial(sol'))
    ensures forall i :: 0 <= i < |sol| ==> sol'[i] == if EssentialIn(F, i) then '1' else sol[i]
  {
    seq(|sol|, i requires 0 <= i < |sol| => if EssentialIn(F, i) then '1' else sol[i])
  }

  method IsSolved(row: string, sol: array<char>) returns (b: bool)
    requires |row| == sol.Length
    ensures b == Solved(row, sol[..])
  {
    for i := 0 to |row|
      invariant forall k :: 0 <= k < i ==> !(row[k] == '1' && sol[k] == '1')
    {
      if row[i] == '1' && sol[i] == '1' {
        assert row[i] == '1' && sol[..][i] == '1';
        return true;
      }
    }
    return false;
  }

  /** The inner loop of find_essential: the only '1' of the row, or -1. */
  method SoleColumn(row: string) returns (essential: int)
    ensures -1 <= essential < |row|
    ensures essential != -1 ==> IsSoleOne(row, essential)
    ensures essential == -1 ==> forall i :: !IsSoleOne(row, i)
  {
    essential := -1;
    for i := 0 to |row|
      invariant -1 <= essential < i
      invariant essential == -1 ==> forall k :: 0 <= k < i ==> row[k] != '1'
      invariant essential != -1 ==> row[essential] == '1'
      invariant essential != -1 ==> forall k :: 0 <= k < i && k != essential ==> row[k] != '1'
    {
      if row[i] == '1' {
        if essential == -1 {
          essential := i;
        } else {
          return -1;
        }
      }
    }
  }

  /** Marks every essential column '1' and drops the rows this solves. */
  method FindEssential(Sol: TableSol, changed: bool) returns (NewSol: TableSol, c: bool)
    requires Sol.Valid()
    ensures fresh(NewSol) && fresh(NewSol.currentSol) && NewSol.Valid()
    ensures NewSol.cost == Sol.cost && NewSol.size == Sol.size
    ensures forall i :: 0 <= i < Sol.size ==>
      NewSol.currentSol[i] == if EssentialIn(Sol.F, i) then '1' else Sol.currentSol[i]
    ensures NewSol.currentSol[..] == WithEssentials(Sol.F, Sol.currentSol[..])
    ensures NewSol.F == Unsolved(Sol.F, NewSol.currentSol[..], |Sol.F|)
    ensures c == (changed || exists i :: EssentialIn(Sol.F, i))
  {
    NewSol := new TableSol([], Sol.currentSol[..], Sol.cost);
    c := changed;
    var F := Sol.F;
    for p := 0 to |F|
      invariant NewSol.currentSol.Length == Sol.size
      invariant forall i :: 0 <= i < Sol.size ==>
        NewSol.currentSol[i] == if EssentialIn(F[..p], i) then '1' else Sol.currentSol[i]
      invariant c == (changed || exists i :: EssentialIn(F[..p], i))
      modifies NewSol.currentSol
    {
      var essential := SoleColumn(F[p]);
      EssentialExtends(F, p);
      if essential != -1 {
        c := true;
        NewSol.currentSol[essential] := '1';
      }
    }
    assert F[..|F|] == F;
    var rows := [];
    for p := 0 to |F|
      invariant rows == Unsolved(F, NewSol.currentSol[..], p)
      modifies {}
    {
      var solved := IsSolved(F[p], NewSol.currentSol);
      if !solved {
        rows := [F[p]] + rows;
      }
    }
    NewSol.F := rows;
    UnsolvedRows(F, NewSol.currentSol[..], |F|);
    assert forall k :: 0 <= k < |rows| ==> rows[k] in rows;
    assert NewSol.currentSol[..] == WithEssentials(F, Sol.currentSol[..]);
  }

  lemma EssentialExtends(F: seq<string>, p: nat)
    requires p < |F|
    ensures forall i :: EssentialIn(F[..p + 1], i) <==> EssentialIn(F[..p], i) || IsSoleOne(F[p], i)
  {
  }

  ghost predicate MarksEssentials(F: seq<string>, sol: string, sol': string) {
    && |sol'| == |sol|
    && forall i :: 0 <= i < |sol| ==> sol'[i] == if EssentialIn(F, i) then '1' else sol[i]
  }

  lemma EssentialStaysWellFormed(F: seq<string>, sol: string, sol': string)
    requires WellFormed(F, sol) && MarksEssentials(F, sol, sol')
    ensures WellFormed(Unsolved(F, sol', |F|), sol')
  {
    UnsolvedRows(F, sol', |F|);
    var F' := Unsolved(F, sol', |F|);
    forall p, i | 0 <= p < |F'| && 0 <= i < |sol'| && sol'[i] != '-'
      ensures F'[p][i] == '0'
    {
      assert F'[p] in F';
      if sol'[i] == '1' {
        assert !Solved(F'[p], sol');
        assert F'[p][i] != '1';
      }
    }
  }

  /** Marking the essential columns loses no completion and admits no new one. */
  lemma EssentialKeepsCompletions(F: seq<string>, sol: string, sol': string)
    requires WellFormed(F, sol) && MarksEssentials(F, sol, sol')
    ensures IsTable(Unsolved(F, sol', |F|), |sol|)
    ensures SameCompletions(F, sol, Unsolved(F, sol', |F|), sol')
  {
    UnsolvedRows(F, sol', |F|);
    var F' := Unsolved(F, sol', |F|);
    forall s
      ensures Completion(F, sol, s) <==> Completion(F', sol', s)
    {
      if Completion(F, sol, s) {
        EssentialForced(F, sol, sol', s);
        forall p | 0 <= p < |F'|
          ensures Hits(F'[p], s)
        {
          assert F'[p] in F';
          var q :| 0 <= q < |F| && F[q] == F'[p];
        }
      }
      if Completion(F', sol', s) {
        SolvedOrKept(F, sol, sol', s);
      }
    }
  }

  lemma EssentialForced(F: seq<string>, sol: string, sol': string, s: seq<bool>)
    requires WellFormed(F, sol) && MarksEssentials(F, sol, sol') && Completion(F, sol, s)
    ensures Respects(sol', s)
  {
  }

  lemma SolvedOrKept(F: seq<string>, sol: string, sol': string, s: seq<bool>)
    requires WellFormed(F, sol) && MarksEssentials(F, sol, sol')
    requires IsTable(Unsolved(F, sol', |F|), |sol|)
    requires Completion(Unsolved(F, sol', |F|), sol', s)
    ensures Completion(F, sol, s)
  {
    UnsolvedRows(F, sol', |F|);
    var F' := Unsolved(F, sol', |F|);
    forall p | 0 <= p < |F|
      ensures Hits(F[p], s)
    {
      if Solved(F[p], sol') {
        var i :| 0 <= i < |F[p]| && F[p][i] == '1' && sol'[i] == '1';
        assert s[i];
      } else {
        assert F[p] in F';
      }
    }
    forall i | 0 <= i < |sol| && EssentialIn(F, i)
      ensures sol[i] == '-'
    {
      var p :| 0 <= p < |F| && IsSoleOne(F[p], i);
      assert F[p][i] == '1';
    }
  }

  // Dominating rows

  predicate Included(row: string, row': string)
    requires |row| == |row'|
  {
    forall i :: 0 <= i < |row| ==> !(row'[i] == '0' && row[i] == '1')
  }

  /** Row q makes row p superfluous: it lies inside p and, when the two are
      equal, comes later in the list. */
  predicate MakesSuperfluous(F: seq<string>, q: nat, p: nat)
    requires q < |F| && p < |F| && |F[p]| == |F[q]|
  {
    q != p && Included(F[q], F[p]) && (q > p || F[q] != F[p])
  }

  ghost predicate Superfluous(F: seq<string>, p: nat)
    requires p < |F| && forall q :: 0 <= q < |F| ==> |F[q]| == |F[p]|
  {
    exists q :: 0 <= q < |F| && MakesSuperfluous(F, q, p)
  }

  ghost function Taken(row: string): set<nat> {
    set i: nat | i < |row| && row[i] == '1'
  }

  /** Row q has a '1' only where p has one, and not everywhere; or it is the same
      row and comes later. */
  ghost predicate Dominates(F: seq<string>, q: nat, p: nat)
    requires q < |F| && p < |F|
  {
    Taken(F[q]) < Taken(F[p]) || (F[q] == F[p] && q > p)
  }

  /** So of several equal rows it is the last that stays. */
  lemma SuperfluousIff(F: seq<string>, n: nat, p: nat)
    requires IsTable(F, n) && p < |F|
    ensures Superfluous(F, p) <==> exists q :: 0 <= q < |F| && Dominates(F, q, p)
  {
    forall q | 0 <= q < |F| ensures MakesSuperfluous(F, q, p) <==> Dominates(F, q, p) {
      assert IsRow(F[q], n) && IsRow(F[p], n);
      IncludedIff(F[q], F[p]);
    }
  }

  lemma IncludedIff(row: string, row': string)
    requires IsRow(row, |row|) && IsRow(row', |row|)
    ensures Included(row, row') <==> Taken(row) <= Taken(row')
    ensures row == row' <==> Taken(row) == Taken(row')
  {
    if Taken(row) <= Taken(row') {
      forall i | 0 <= i < |row| ensures !(row'[i] == '0' && row[i] == '1') {
        assert row[i] == '1' ==> i in Taken(row);
      }
    }
    if Taken(row) == Taken(row') {
      forall i | 0 <= i < |row| ensures row[i] == row'[i] {
        assert i in Taken(row) <==> i in Taken(row');
      }
    }
  }

  ghost function Surviving(F: seq<string>, n: nat, k: nat): seq<string>
    requires k <= |F| && IsTable(F, n)
  {
    if k == 0 then []
    else (if Superfluous(F, k - 1) then [] else [F[k - 1]]) + Surviving(F, n, k - 1)
  }

  lemma {:induction false} SurvivingRows(F: seq<string>, n: nat, k: nat)
    requires k <= |F| && IsTable(F, n)
    ensures IsTable(Surviving(F, n, k), n)
    ensures forall r :: r in Surviving(F, n, k) <==> exists p :: 0 <= p < k && F[p] == r && !Superfluous(F, p)
  {
    if k > 0 {
      SurvivingRows(F, n, k - 1);
      var rest, last := Surviving(F, n, k - 1), F[k - 1];
      var rows := Surviving(F, n, k);
      if Superfluous(F, k - 1) {
        assert rows == rest;
      } else {
        assert rows == [last] + rest;
        assert rows[0] == last && forall q :: 1 <= q < |rows| ==> rows[q] == rest[q - 1];
      }
      forall r | exists p :: 0 <= p < k && F[p] == r && !Superfluous(F, p) ensures r in rows {
        var p :| 0 <= p < k && F[p] == r && !Superfluous(F, p);
        assert p < k - 1 ==> r in rest;
      }
    }
  }

  lemma {:induction false} SurvivingCount(F: seq<string>, n: nat, k: nat)
    requires k <= |F| && IsTable(F, n)
    ensures |Surviving(F, n, k)| <= k
    ensures (exists p :: 0 <= p < k && Superfluous(F, p)) ==> |Surviving(F, n, k)| < k
  {
    if k > 0 {
      SurvivingCount(F, n, k - 1);
    }
  }

  /** Copies every row that no other row makes superfluous. */
  method RmDominatingRows(Sol: TableSol, changed: bool) returns (NewSol: TableSol, c: bool)
    requires Sol.Valid()
    ensures fresh(NewSol) && fresh(NewSol.currentSol) && NewSol.Valid()
    ensures NewSol.cost == Sol.cost && NewSol.size == Sol.size
    ensures NewSol.currentSol[..] == Sol.currentSol[..]
    ensures NewSol.F == Surviving(Sol.F, Sol.size, |Sol.F|)
    ensures c == (changed || exists p :: 0 <= p < |Sol.F| && Superfluous(Sol.F, p))
  {
    NewSol := new TableSol([], Sol.currentSol[..], Sol.cost);
    c := changed;
    var F, rows := Sol.F, [];
    for p := 0 to |F|
      invariant rows == Surviving(F, Sol.size, p)
      invariant c == (changed || exists k :: 0 <= k < p && Superfluous(F, k))
      modifies {}
    {
      var dominating := IsDominating(F, p, Sol.size);
      if !dominating {
        rows := [F[p]] + rows;
      } else {
        c := true;
      }
    }
    NewSol.F := rows;
    SurvivingRows(F, Sol.size, |F|);
    assert forall k :: 0 <= k < |rows| ==> rows[k] in rows;
  }

  /** The loop over cur2 in rm_dominating_rows. */
  method IsDominating(F: seq<string>, p: nat, size: nat) returns (dominating: bool)
    requires p < |F| && IsTable(F, size)
    ensures dominating == Superfluous(F, p)
  {
    dominating := false;
    var seenit := false;
    for q := 0 to |F|
      invariant seenit == (p < q)
      invariant forall k :: 0 <= k < q ==> !MakesSuperfluous(F, k, p)
    {
      if q != p {
        var i := 0;
        while i < size && !(F[p][i] == '0' && F[q][i] == '1')
          invariant 0 <= i <= size
          invariant forall k :: 0 <= k < i ==> !(F[p][k] == '0' && F[q][k] == '1')
        {
          i := i + 1;
        }
        if i == size && (seenit || F[p] != F[q]) {
          assert MakesSuperfluous(F, q, p);
          return true;
        }
      } else {
        seenit := true;
      }
    }
  }

  function Ones(row: string): nat {
    if row == "" then 0 else Ones(row[1..]) + if row[0] == '1' then 1 else 0
  }

  lemma {:induction false} SmallerRow(row: string, row': string)
    requires IsRow(row, |row|) && IsRow(row', |row|) && Included(row, row')
    ensures Ones(row) <= Ones(row')
    ensures row != row' ==> Ones(row) < Ones(row')
  {
    if row != "" {
      assert IsRow(row[1..], |row| - 1) && IsRow(row'[1..], |row| - 1);
      assert row == [row[0]] + row[1..] && row' == [row'[0]] + row'[1..];
      assert Included(row[1..], row'[1..]);
      SmallerRow(row[1..], row'[1..]);
    }
  }

  /** Every superfluous row has a surviving row inside it, also along chains
      of dominance and among equal rows. */
  lemma {:induction false} SurvivorInside(F: seq<string>, n: nat, p: nat)
    requires IsTable(F, n) && p < |F|
    ensures exists q :: 0 <= q < |F| && !Superfluous(F, q) && Included(F[q], F[p])
    decreases Ones(F[p]), |F| - p
  {
    if Superfluous(F, p) {
      var q :| 0 <= q < |F| && MakesSuperfluous(F, q, p);
      SmallerRow(F[q], F[p]);
      SurvivorInside(F, n, q);
      var r :| 0 <= r < |F| && !Superfluous(F, r) && Included(F[r], F[q]);
      assert Included(F[r], F[p]) by { IncludedTransitive(F[r], F[q], F[p]); }
    } else {
      assert Included(F[p], F[p]);
    }
  }

  lemma IncludedTransitive(a: string, b: string, c: string)
    requires IsRow(a, |a|) && IsRow(b, |a|) && IsRow(c, |a|)
    requires Included(a, b) && Included(b, c)
    ensures Included(a, c)
  {
  }

  lemma SurvivingAreRows(F: seq<string>, n: nat)
    requires IsTable(F, n)
    ensures forall r :: r in Surviving(F, n, |F|) ==> r in F
  {
    SurvivingRows(F, n, |F|);
  }

  lemma DominanceKeepsCompletions(F: seq<string>, sol: string)
    requires IsTable(F, |sol|)
    ensures IsTable(Surviving(F, |sol|, |F|), |sol|)
    ensures SameCompletions(F, sol, Surviving(F, |sol|, |F|), sol)
  {
    var n := |sol|;
    SurvivingRows(F, n, |F|);
    var F' := Surviving(F, n, |F|);
    forall s
      ensures Completion(F, sol, s) <==> Completion(F', sol, s)
    {
      if Completion(F, sol, s) {
        SurvivingAreRows(F, n);
        forall p | 0 <= p < |F'|
          ensures Hits(F'[p], s)
        {
          assert F'[p] in F' && F'[p] in F;
        }
      }
      if Completion(F', sol, s) {
        SurvivorsHitForAll(F, n, s);
      }
    }
  }

  lemma SurvivorsHitForAll(F: seq<string>, n: nat, s: seq<bool>)
    requires IsTable(F, n) && |s| == n && IsTable(Surviving(F, n, |F|), n) && Covers(Surviving(F, n, |F|), s)
    ensures Covers(F, s)
  {
    SurvivingRows(F, n, |F|);
    var F' := Surviving(F, n, |F|);
    forall p | 0 <= p < |F|
      ensures Hits(F[p], s)
    {
      SurvivorInside(F, n, p);
      var q :| 0 <= q < |F| && !Superfluous(F, q) && Included(F[q], F[p]);
      assert F[q] in F';
      var i :| 0 <= i < n && F[q][i] == '1' && s[i];
      assert F[p][i] == '1';
    }
  }
}
