/** The superset test of approx_clean_stack in src/approx.c: when the zone of a frame
    lies inside the zone just added. */
module Subsumption {
  import opened Dbm

  /** The rule a clock belongs to. */
  datatype ClockKey = ClockKey(enabling: int, enabled: int)

  /** A marked zone: clocks and keys run from 0 to numClocks, and clock 0 is the
      reference without a key. */
  datatype Work = Work(state: string, marking: string, clocks: Matrix, keys: seq<ClockKey>, numClocks: nat)
  {
    ghost predicate Valid() {
      IsMatrix(clocks, numClocks + 1) && |keys| == numClocks + 1
    }
  }

  // When a frame is subsumed

  predicate IsBelow(b: Bound, c: Bound) {
    b.Fin? && (!c.Fin? || b.v < c.v)
  }

  /** The first of the clocks 1 to k with the given key, or 0. */
  function MatchOf(key: ClockKey, keys: seq<ClockKey>, k: nat): (j: nat)
    requires k < |keys|
    ensures j <= k
    ensures j > 0 ==> keys[j] == key
    ensures j == 0 ==> forall q :: 1 <= q <= k ==> keys[q] != key
  {
    if k == 0 then 0
    else
      var j := MatchOf(key, keys, k - 1);
      if j != 0 then j else if keys[k] == key then k else 0
  }

  /** The clock of frame w that stands for clock i of cur. */
  function Partner(w: Work, cur: Work, i: nat): (j: nat)
    requires cur.numClocks == w.numClocks && i <= cur.numClocks
    requires |w.keys| == w.numClocks + 1 && |cur.keys| == cur.numClocks + 1
    ensures j <= w.numClocks
  {
    if i == 0 then 0 else MatchOf(cur.keys[i], w.keys, w.numClocks)
  }

  ghost predicate Subsumed(w: Work, cur: Work)
    requires w.Valid() && cur.Valid()
  {
    && w.state == cur.state && w.marking == cur.marking && w.numClocks == cur.numClocks
    && (forall i :: 1 <= i <= cur.numClocks ==> Partner(w, cur, i) != 0)
    && forall i, j :: 0 <= i <= cur.numClocks && 0 <= j <= cur.numClocks ==>
         !IsBelow(cur.clocks[i][j], w.clocks[Partner(w, cur, i)][Partner(w, cur, j)])
  }

  /** The same, for frames that need not be well-formed. */
  ghost predicate IsInside(w: Work, cur: Work) {
    w.Valid() && cur.Valid() && Subsumed(w, cur)
  }

  /** The clock values of a frame, in the order of the current clocks. */
  ghost function Renamed(w: Work, cur: Work, t: seq<int>): (t': seq<int>)
    requires w.Valid() && cur.Valid() && w.numClocks == cur.numClocks && |t| == w.numClocks + 1
    ensures |t'| == |t|
  {
    seq(|t|, i requires 0 <= i < |t| => t[Partner(w, cur, i)])
  }

  /** Nothing is lost: every timing of a subsumed frame is, clock by clock, one
      of the current zone. */
  lemma SubsumedIsContained(w: Work, cur: Work, t: seq<int>)
    requires w.Valid() && cur.Valid() && Subsumed(w, cur)
    requires |t| == w.numClocks + 1 && Sat(w.clocks, t)
    ensures Sat(cur.clocks, Renamed(w, cur, t))
  {
    var t' := Renamed(w, cur, t);
    forall i, j | 0 <= i < |t'| && 0 <= j < |t'|
      ensures Allows(cur.clocks[i][j], t'[i] - t'[j])
    {
      SatAt(w.clocks, t, Partner(w, cur, i), Partner(w, cur, j));
      assert !IsBelow(cur.clocks[i][j], w.clocks[Partner(w, cur, i)][Partner(w, cur, j)]);
    }
  }

  /** With distinct keys the clocks are matched one to one. */
  lemma PartnersDiffer(w: Work, cur: Work, i: nat, j: nat)
    requires w.Valid() && cur.Valid() && Subsumed(w, cur)
    requires 1 <= i < j <= cur.numClocks && cur.keys[i] != cur.keys[j]
    ensures Partner(w, cur, i) != Partner(w, cur, j)
  {
  }

  method FindPartner(key: ClockKey, keys: seq<ClockKey>, n: nat) returns (j: nat)
    requires n < |keys|
    ensures j == MatchOf(key, keys, n)
  {
    j := 1;
    while j <= n && keys[j] != key
      invariant 1 <= j <= n + 1
      invariant forall q :: 1 <= q < j ==> keys[q] != key
    {
      j := j + 1;
    }
    FirstMatch(key, keys, n, if j <= n then j else 0);
    if j > n {
      j := 0;
    }
  }

  lemma {:induction false} FirstMatch(key: ClockKey, keys: seq<ClockKey>, k: nat, j: nat)
    requires k < |keys| && j <= k && (j > 0 ==> keys[j] == key)
    requires forall q :: 1 <= q <= k && (q < j || j == 0) ==> keys[q] != key
    ensures MatchOf(key, keys, k) == j
  {
    if k > 0 {
      FirstMatch(key, keys, k - 1, if j < k then j else 0);
    }
  }

  /** The test on one frame; matching is the scratch array of the caller. */
  method IsSuperset(w: Work, cur: Work, matching: array<nat>) returns (superset: bool)
    requires w.Valid() && cur.Valid() && matching.Length == cur.numClocks + 1 && matching[0] == 0
    modifies matching
    ensures matching[0] == 0
    ensures superset <==> Subsumed(w, cur)
  {
    if w.state != cur.state || w.marking != cur.marking || w.numClocks != cur.numClocks {
      return false;
    }
    var matches := 0;
    for i := 1 to cur.numClocks + 1
      invariant matching[0] == 0 && matches <= i - 1
      invariant matches == i - 1 ==>
        forall k :: 1 <= k < i ==> Partner(w, cur, k) != 0 && matching[k] == Partner(w, cur, k)
      invariant matches != i - 1 ==> exists k :: 1 <= k < i && Partner(w, cur, k) == 0
    {
      var j := FindPartner(cur.keys[i], w.keys, cur.numClocks);
      assert Partner(w, cur, i) == j;
      if j != 0 {
        matching[i] := j;
        matches := matches + 1;
      }
    }
    if matches != cur.numClocks {
      return false;
    }
    superset := CompareZones(w, cur, matching);
  }

  method CompareZones(w: Work, cur: Work, matching: array<nat>) returns (superset: bool)
    requires w.Valid() && cur.Valid() && w.numClocks == cur.numClocks && matching.Length == cur.numClocks + 1
    requires forall i :: 0 <= i <= cur.numClocks ==> matching[i] == Partner(w, cur, i)
    ensures superset <==> forall i, j :: 0 <= i <= cur.numClocks && 0 <= j <= cur.numClocks ==>
      !IsBelow(cur.clocks[i][j], w.clocks[Partner(w, cur, i)][Partner(w, cur, j)])
  {
    for i := 0 to cur.numClocks + 1
      invariant forall a, b :: 0 <= a < i && 0 <= b <= cur.numClocks ==>
        !IsBelow(cur.clocks[a][b], w.clocks[Partner(w, cur, a)][Partner(w, cur, b)])
    {
      for j := 0 to cur.numClocks + 1
        invariant forall b :: 0 <= b < j ==>
          !IsBelow(cur.clocks[i][b], w.clocks[Partner(w, cur, i)][Partner(w, cur, b)])
      {
        if IsBelow(cur.clocks[i][j], w.clocks[matching[i]][matching[j]]) {
          assert IsBelow(cur.clocks[i][j], w.clocks[Partner(w, cur, i)][Partner(w, cur, j)]);
          return false;
        }
      }
    }
    return true;
  }
}
