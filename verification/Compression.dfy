/** What the branches of src/bcp.c do to a table: decided columns are compressed
    away, and a solution of the open columns is expanded again. */
module Compression {
  import opened CoverTable
  import opened RowReduction

  function FreeCount(sol: string, k: nat): nat
    requires k <= |sol|
  {
    if k == 0 then 0 else FreeCount(sol, k - 1) + if sol[k - 1] == '-' then 1 else 0
  }

  function Compress<T>(sol: string, xs: seq<T>, k: nat): seq<T>
    requires k <= |sol| == |xs|
  {
    if k == 0 then [] else Compress(sol, xs, k - 1) + if sol[k - 1] == '-' then [xs[k - 1]] else []
  }

  /** The parent selection that a selection of the open columns stands for. */
  function Expand(sol: string, c: seq<bool>): (s: seq<bool>)
    requires |c| == FreeCount(sol, |sol|)
    ensures |s| == |sol|
  {
    seq(|sol|, i requires 0 <= i < |sol| =>
      FreeCountGrows(sol, i, |sol|); if sol[i] == '-' then c[FreeCount(sol, i)] else sol[i] == '1')
  }

  lemma {:induction false} FreeCountGrows(sol: string, i: nat, k: nat)
    requires i <= k <= |sol|
    ensures FreeCount(sol, i) <= FreeCount(sol, k)
    ensures i < k && sol[i] == '-' ==> FreeCount(sol, i) < FreeCount(sol, k)
    decreases k
  {
    if i < k {
      FreeCountGrows(sol, i, k - 1);
    }
  }

  lemma {:induction false} FreeCountShrinks(sol: string, k: nat)
    requires k <= |sol|
    ensures FreeCount(sol, k) <= k
    ensures (exists i :: 0 <= i < k && sol[i] != '-') ==> FreeCount(sol, k) < k
  {
    if k > 0 {
      FreeCountShrinks(sol, k - 1);
    }
  }

  lemma {:induction false} CompressEntry<T>(sol: string, xs: seq<T>, k: nat)
    requires k <= |sol| == |xs|
    ensures |Compress(sol, xs, k)| == FreeCount(sol, k)
    ensures forall i :: 0 <= i < k && sol[i] == '-' ==>
      FreeCount(sol, i) < FreeCount(sol, k) && Compress(sol, xs, k)[FreeCount(sol, i)] == xs[i]
    ensures forall j :: 0 <= j < FreeCount(sol, k) ==> Compress(sol, xs, k)[j] in xs
  {
    if k > 0 {
      CompressEntry(sol, xs, k - 1);
      var c, c' := Compress(sol, xs, k - 1), Compress(sol, xs, k);
      assert forall j :: 0 <= j < |c| ==> c'[j] == c[j];
      if sol[k - 1] == '-' {
        assert c'[|c|] == xs[k - 1];
      }
      forall j | 0 <= j < |c'| ensures c'[j] in xs {
        assert j < |c| ==> c[j] in xs;
      }
    }
  }

  /** Every open position of the child belongs to an open column. */
  lemma {:induction false} OpenColumn(sol: string, k: nat, j: nat) returns (i: nat)
    requires k <= |sol| && j < FreeCount(sol, k)
    ensures i < k && sol[i] == '-' && FreeCount(sol, i) == j
  {
    if sol[k - 1] == '-' && FreeCount(sol, k - 1) == j {
      i := k - 1;
    } else {
      i := OpenColumn(sol, k - 1, j);
    }
  }

  lemma ExpandEntry(sol: string, c: seq<bool>, i: nat)
    requires |c| == FreeCount(sol, |sol|) && i < |sol|
    ensures FreeCount(sol, i) <= |c| && (sol[i] == '-' ==> FreeCount(sol, i) < |c|)
    ensures Expand(sol, c)[i] == if sol[i] == '-' then c[FreeCount(sol, i)] else sol[i] == '1'
  {
    FreeCountGrows(sol, i, |sol|);
  }

  /** Every selection that keeps sol's decisions is the expansion of its open part. */
  lemma ExpandCompress(sol: string, s: seq<bool>)
    requires IsPartial(sol) && Respects(sol, s)
    ensures |Compress(sol, s, |sol|)| == FreeCount(sol, |sol|)
    ensures Expand(sol, Compress(sol, s, |sol|)) == s
  {
    CompressEntry(sol, s, |sol|);
    forall i | 0 <= i < |sol|
      ensures Expand(sol, Compress(sol, s, |sol|))[i] == s[i]
    {
      ExpandEntry(sol, Compress(sol, s, |sol|), i);
    }
  }

  lemma {:induction false} CompressWeightPrefix(sol: string, c: seq<bool>, cost: seq<int>, k: nat)
    requires k <= |sol| == |cost| && |c| == FreeCount(sol, |sol|)
    ensures FreeCount(sol, k) <= |c| == |Compress(sol, cost, |sol|)|
    ensures PartialWeight(Expand(sol, c), cost, k)
         == PartialWeight(Chosen(sol), cost, k)
            + PartialWeight(c, Compress(sol, cost, |sol|), FreeCount(sol, k))
  {
    CompressEntry(sol, cost, |sol|);
    FreeCountGrows(sol, k, |sol|);
    if k > 0 {
      CompressWeightPrefix(sol, c, cost, k - 1);
      ExpandEntry(sol, c, k - 1);
    }
  }

  /** Lifting a child selection adds exactly the cost of the decided columns. */
  lemma ExpandWeight(sol: string, c: seq<bool>, cost: seq<int>)
    requires |sol| == |cost| && |c| == FreeCount(sol, |sol|)
    ensures |Compress(sol, cost, |sol|)| == |c|
    ensures Weight(Expand(sol, c), cost) == Weight(Chosen(sol), cost) + Weight(c, Compress(sol, cost, |sol|))
  {
    CompressWeightPrefix(sol, c, cost, |sol|);
  }

  // The child table

  function CompressAll(F: seq<string>, sol: string): seq<string>
    requires IsTable(F, |sol|)
  {
    seq(|F|, p requires 0 <= p < |F| => Compress(sol, F[p], |sol|))
  }

  /** The table both branches hand to the recursive call: the rows that the
      decided columns leave unsolved, over the open columns. */
  ghost function ChildTable(F: seq<string>, sol: string): seq<string>
    requires IsTable(F, |sol|) && IsTable(Unsolved(F, sol, |F|), |sol|)
  {
    CompressAll(Unsolved(F, sol, |F|), sol)
  }

  lemma ChildTableIsTable(F: seq<string>, sol: string)
    requires IsTable(F, |sol|)
    ensures IsTable(Unsolved(F, sol, |F|), |sol|)
    ensures IsTable(ChildTable(F, sol), FreeCount(sol, |sol|))
  {
    UnsolvedRows(F, sol, |F|);
    var F' := Unsolved(F, sol, |F|);
    forall p | 0 <= p < |F'|
      ensures IsRow(ChildTable(F, sol)[p], FreeCount(sol, |sol|))
    {
      CompressEntry(sol, F'[p], |sol|);
    }
  }

  lemma CompressedRowHit(row: string, sol: string, c: seq<bool>)
    requires IsRow(row, |sol|) && |c| == FreeCount(sol, |sol|) && !Solved(row, sol)
    ensures |Compress(sol, row, |sol|)| == |c|
    ensures Hits(row, Expand(sol, c)) <==> Hits(Compress(sol, row, |sol|), c)
  {
    CompressEntry(sol, row, |sol|);
    if Hits(row, Expand(sol, c)) {
      var i :| 0 <= i < |row| && row[i] == '1' && Expand(sol, c)[i];
      ExpandEntry(sol, c, i);
      assert Compress(sol, row, |sol|)[FreeCount(sol, i)] == '1';
    }
    if Hits(Compress(sol, row, |sol|), c) {
      var j :| 0 <= j < |c| && Compress(sol, row, |sol|)[j] == '1' && c[j];
      var i := OpenColumn(sol, |sol|, j);
      ExpandEntry(sol, c, i);
      assert row[i] == '1' && Expand(sol, c)[i];
    }
  }

  /** Covers of the child are exactly the covers of the parent with the
      decisions made, and weigh less by the decided columns. */
  lemma ChildCovers(F: seq<string>, sol: string, c: seq<bool>)
    requires IsTable(F, |sol|) && IsPartial(sol) && |c| == FreeCount(sol, |sol|)
    ensures IsTable(Unsolved(F, sol, |F|), |sol|) && IsTable(ChildTable(F, sol), |c|)
    ensures Respects(sol, Expand(sol, c))
    ensures Covers(F, Expand(sol, c)) <==> Covers(ChildTable(F, sol), c)
  {
    ChildTableIsTable(F, sol);
    var s := Expand(sol, c);
    forall i | 0 <= i < |sol|
      ensures (sol[i] == '1' ==> s[i]) && (sol[i] == '0' ==> !s[i])
    {
      ExpandEntry(sol, c, i);
    }
    var F', child := Unsolved(F, sol, |F|), ChildTable(F, sol);
    if Covers(F, s) {
      forall p | 0 <= p < |F'|
        ensures Hits(child[p], c)
      {
        UnsolvedRows(F, sol, |F|);
        assert F'[p] in F';
        CompressedRowHit(F'[p], sol, c);
      }
    }
    if Covers(child, c) {
      forall p | 0 <= p < |F|
        ensures Hits(F[p], s)
      {
        if Solved(F[p], sol) {
          var i :| 0 <= i < |sol| && F[p][i] == '1' && sol[i] == '1';
          assert s[i];
        } else {
          UnsolvedRows(F, sol, |F|);
          var q :| 0 <= q < |F'| && F'[q] == F[p];
          assert Hits(child[q], c);
          CompressedRowHit(F[p], sol, c);
        }
      }
    }
  }

  ghost function AllDashes(n: nat): (sol: string)
    ensures |sol| == n && AllOpen(sol)
  {
    seq(n, _ => '-')
  }

  /** expand_solution on the partial solutions: columns the child leaves open are out. */
  ghost function Lift(sol: string, child: string): (r: string)
    requires |child| == FreeCount(sol, |sol|)
    ensures |r| == |sol| && Chosen(r) == Expand(sol, Chosen(child))
  {
    var r := seq(|sol|, i requires 0 <= i < |sol| && |child| == FreeCount(sol, |sol|) =>
      LiftedEntry(sol, child, i));
    assert |Chosen(r)| == |Expand(sol, Chosen(child))|;
    assert forall i :: 0 <= i < |sol| ==> Chosen(r)[i] == Expand(sol, Chosen(child))[i];
    r
  }

  ghost function LiftedEntry(sol: string, child: string, i: nat): (c: char)
    requires |child| == FreeCount(sol, |sol|) && i < |sol|
    ensures (c == '1') == Expand(sol, Chosen(child))[i]
  {
    ExpandEntry(sol, Chosen(child), i);
    if sol[i] != '-' then sol[i] else if child[FreeCount(sol, i)] == '-' then '0' else child[FreeCount(sol, i)]
  }

  /** sol' is a partial solution that keeps every decision of sol. */
  ghost predicate KeepsDecisions(sol: string, sol': string) {
    && |sol| == |sol'| && IsPartial(sol')
    && forall i :: 0 <= i < |sol| && sol[i] != '-' ==> sol'[i] == sol[i]
  }

  /** Every column is taken or given up. */
  ghost predicate AllDecided(sol: string) {
    forall i :: 0 <= i < |sol| ==> sol[i] == '0' || sol[i] == '1'
  }

  /** Lifting keeps what the parent has decided and decides everything else: a
      column is taken if the child takes it, and given up if the child gives it
      up or leaves it open. */
  lemma LiftDecides(sol: string, child: string)
    requires IsPartial(sol) && IsPartial(child) && |child| == FreeCount(sol, |sol|)
    ensures KeepsDecisions(sol, Lift(sol, child)) && AllDecided(Lift(sol, child))
  {
    forall i | 0 <= i < |sol|
      ensures var c := Lift(sol, child)[i]; (c == '0' || c == '1') && (sol[i] != '-' ==> c == sol[i])
    {
      FreeCountGrows(sol, i, |sol|);
    }
  }
}
