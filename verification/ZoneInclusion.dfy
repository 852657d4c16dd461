/** The superset test of approx_clean_stack is exact: a frame goes if and only if
    all its timings are timings of the current zone. */
module ZoneInclusion {
  import opened Dbm
  import opened Zones
  import opened Subsumption

  /** No two clocks belong to the same rule. */
  ghost predicate DistinctKeys(w: Work)
    requires w.Valid()
  {
    forall i, j :: 1 <= i < j <= w.numClocks ==> w.keys[i] != w.keys[j]
  }

  /** s says which clock of w belongs to the same rule as each clock of cur. */
  ghost predicate IsMatching(w: Work, cur: Work, s: seq<nat>)
    requires w.Valid() && cur.Valid() && w.numClocks == cur.numClocks
  {
    && |s| == cur.numClocks + 1 && s[0] == 0
    && forall i :: 1 <= i <= cur.numClocks ==> 1 <= s[i] <= w.numClocks && w.keys[s[i]] == cur.keys[i]
  }

  /** Every timing of w, clock by clock, is one of cur. */
  ghost predicate LiesInside(w: Work, cur: Work, s: seq<nat>)
    requires w.Valid() && cur.Valid() && w.numClocks == cur.numClocks && IsMatching(w, cur, s)
  {
    forall t {:trigger Sat(w.clocks, t)} :: |t| == w.numClocks + 1 && Sat(w.clocks, t) ==>
      forall i, j :: 0 <= i < |s| && 0 <= j < |s| ==> Allows(cur.clocks[i][j], t[s[i]] - t[s[j]])
  }

  /** For a frame with a canonical zone and a clock per rule: it is subsumed if and
      only if state and marking are the same, the clocks belong to the same
      rules, and every timing of the frame is one of the current zone. */
  lemma SubsumedIffInside(w: Work, cur: Work)
    requires w.Valid() && cur.Valid() && DistinctKeys(w)
    requires Canonical(w.clocks, w.numClocks + 1, 0, w.numClocks + 1)
    ensures Subsumed(w, cur) <==>
      && w.state == cur.state && w.marking == cur.marking && w.numClocks == cur.numClocks
      && exists s :: IsMatching(w, cur, s) && LiesInside(w, cur, s)
  {
    if Subsumed(w, cur) {
      var s := SubsumedMeansInside(w, cur);
    }
    if w.state == cur.state && w.marking == cur.marking && w.numClocks == cur.numClocks {
      if s: seq<nat> :| IsMatching(w, cur, s) && LiesInside(w, cur, s) {
        InsideMeansSubsumed(w, cur, s);
      }
    }
  }

  lemma SubsumedMeansInside(w: Work, cur: Work) returns (s: seq<nat>)
    requires w.Valid() && cur.Valid() && Subsumed(w, cur)
    ensures IsMatching(w, cur, s) && LiesInside(w, cur, s)
  {
    s := Partners(w, cur);
    forall t | |t| == w.numClocks + 1 && Sat(w.clocks, t)
      ensures forall i, j :: 0 <= i < |s| && 0 <= j < |s| ==> Allows(cur.clocks[i][j], t[s[i]] - t[s[j]])
    {
      SubsumedIsContained(w, cur, t);
      InRenamed(w, cur, t, s);
    }
  }

  lemma InsideMeansSubsumed(w: Work, cur: Work, s: seq<nat>)
    requires w.Valid() && cur.Valid() && DistinctKeys(w)
    requires Canonical(w.clocks, w.numClocks + 1, 0, w.numClocks + 1)
    requires w.state == cur.state && w.marking == cur.marking && w.numClocks == cur.numClocks
    requires IsMatching(w, cur, s) && LiesInside(w, cur, s)
    ensures Subsumed(w, cur)
  {
    MatchingIsPartners(w, cur, s);
    forall i, j | 0 <= i <= cur.numClocks && 0 <= j <= cur.numClocks
      ensures !IsBelow(cur.clocks[i][j], w.clocks[Partner(w, cur, i)][Partner(w, cur, j)])
    {
      InsideIsNotBelow(w, cur, s, i, j);
    }
  }

  ghost function Partners(w: Work, cur: Work): (s: seq<nat>)
    requires w.Valid() && cur.Valid() && w.numClocks == cur.numClocks
    ensures |s| == cur.numClocks + 1 && forall i :: 0 <= i < |s| ==> s[i] == Partner(w, cur, i)
  {
    seq(cur.numClocks + 1, i requires 0 <= i <= cur.numClocks => Partner(w, cur, i))
  }

  lemma InRenamed(w: Work, cur: Work, t: seq<int>, s: seq<nat>)
    requires w.Valid() && cur.Valid() && w.numClocks == cur.numClocks && |t| == w.numClocks + 1
    requires s == Partners(w, cur) && Sat(cur.clocks, Renamed(w, cur, t))
    ensures forall i, j :: 0 <= i < |s| && 0 <= j < |s| ==> Allows(cur.clocks[i][j], t[s[i]] - t[s[j]])
  {
    forall i, j | 0 <= i < |s| && 0 <= j < |s| ensures Allows(cur.clocks[i][j], t[s[i]] - t[s[j]]) {
      SatAt(cur.clocks, Renamed(w, cur, t), i, j);
    }
  }

  lemma MatchingIsPartners(w: Work, cur: Work, s: seq<nat>)
    requires w.Valid() && cur.Valid() && w.numClocks == cur.numClocks && DistinctKeys(w) && IsMatching(w, cur, s)
    ensures forall i :: 0 <= i < |s| ==> Partner(w, cur, i) == s[i]
  {
  }

  /** A bound that no timing of w exceeds is not below the canonical one. */
  lemma InsideIsNotBelow(w: Work, cur: Work, s: seq<nat>, i: nat, j: nat)
    requires w.Valid() && cur.Valid() && w.numClocks == cur.numClocks && IsMatching(w, cur, s)
    requires LiesInside(w, cur, s) && Canonical(w.clocks, w.numClocks + 1, 0, w.numClocks + 1)
    requires i <= cur.numClocks && j <= cur.numClocks
    ensures !IsBelow(cur.clocks[i][j], w.clocks[s[i]][s[j]])
  {
    if cur.clocks[i][j].Fin? {
      var t := LatestTiming(w.clocks, w.numClocks + 1, s[j], cur.clocks[i][j].v + 1);
      assert Allows(cur.clocks[i][j], t[s[i]] - t[s[j]]);
    }
  }

  /** A frame is subsumed by itself, so an identical frame always goes. */
  lemma SubsumedByItself(w: Work)
    requires w.Valid() && DistinctKeys(w)
    ensures Subsumed(w, w)
  {
    forall i | 0 <= i <= w.numClocks ensures Partner(w, w, i) == i {
    }
  }
}
