/** Which events remove_non_causal of src/POSET.cc keeps, and when the size it
    computes beforehand is right. */
module Survivors {
  import opened Zones

  // Occurrences of events in the list from indices to events

  predicate IsFirst(events: seq<nat>, i: nat)
    requires i < |events|
  {
    forall k :: 0 <= k < i ==> events[k] != events[i]
  }

  predicate OccursAfter(events: seq<nat>, i: nat)
    requires i < |events|
  {
    exists k :: i < k < |events| && events[k] == events[i]
  }

  lemma {:induction false} OldestOf(events: seq<nat>, i: nat) returns (j: nat)
    requires i < |events|
    ensures j <= i && events[j] == events[i] && IsFirst(events, j)
  {
    if IsFirst(events, i) {
      j := i;
    } else {
      var k :| 0 <= k < i && events[k] == events[i];
      j := OldestOf(events, k);
    }
  }

  lemma {:induction false} NewestOf(events: seq<nat>, i: nat) returns (j: nat)
    requires i < |events|
    ensures i <= j < |events| && events[j] == events[i] && !OccursAfter(events, j)
    decreases |events| - i
  {
    if OccursAfter(events, i) {
      var k :| i < k < |events| && events[k] == events[i];
      j := NewestOf(events, k);
    } else {
      j := i;
    }
  }

  // The survivors

  /** An index stays if its event is in E, unless it is the oldest of several. */
  predicate Survives(events: seq<nat>, E: set<nat>, i: nat)
    requires i < |events|
  {
    events[i] in E && !(IsFirst(events, i) && OccursAfter(events, i))
  }

  ghost function Keep(events: seq<nat>, E: set<nat>, k: nat): seq<nat>
    requires k <= |events|
  {
    if k == 0 then []
    else Keep(events, E, k - 1) + if Survives(events, E, k - 1) then [k - 1] else []
  }

  lemma {:induction false} KeepIsSelection(events: seq<nat>, E: set<nat>, k: nat)
    requires k <= |events|
    ensures IsSelection(Keep(events, E, k), k)
    ensures forall i :: 0 <= i < k ==> (i in Keep(events, E, k) <==> Survives(events, E, i))
  {
    if k > 0 {
      KeepIsSelection(events, E, k - 1);
    }
  }

  lemma {:induction false} KeepGrows(events: seq<nat>, E: set<nat>, j: nat, k: nat)
    requires j <= k <= |events|
    ensures |Keep(events, E, j)| <= |Keep(events, E, k)|
    decreases k
  {
    if j < k {
      KeepGrows(events, E, j, k - 1);
    }
  }

  // The size computed beforehand

  ghost function NotIn(events: seq<nat>, E: set<nat>): set<nat> {
    set e | e in events && e !in E
  }

  ghost function Duplicated(events: seq<nat>): set<nat> {
    set i | 0 <= i < |events| && OccursAfter(events, i) :: events[i]
  }

  ghost function NewSize(events: seq<nat>, E: set<nat>): int {
    |events| - |NotIn(events, E)| - |Duplicated(events)|
  }

  /** A copy that is neither the oldest nor the newest of its event. */
  predicate IsMiddle(events: seq<nat>, i: nat)
    requires i < |events|
  {
    !IsFirst(events, i) && OccursAfter(events, i)
  }

  ghost function Upto(k: nat): set<nat> {
    if k == 0 then {} else Upto(k - 1) + {k - 1}
  }

  lemma {:induction false} UptoCount(k: nat)
    ensures |Upto(k)| == k && forall i: nat :: i in Upto(k) <==> i < k
  {
    if k > 0 {
      UptoCount(k - 1);
    }
  }

  ghost function Kept(events: seq<nat>, E: set<nat>, k: nat): set<nat>
    requires k <= |events|
  {
    if k == 0 then {}
    else Kept(events, E, k - 1) + if Survives(events, E, k - 1) then {k - 1} else {}
  }

  lemma {:induction false} KeptCount(events: seq<nat>, E: set<nat>, k: nat)
    requires k <= |events|
    ensures |Kept(events, E, k)| == |Keep(events, E, k)|
    ensures forall i: nat :: i in Kept(events, E, k) <==> i < k && Survives(events, E, i)
  {
    if k > 0 {
      KeptCount(events, E, k - 1);
    }
  }

  /** As many indices as events, if no event is counted twice. */
  lemma {:induction false} ImageCount(events: seq<nat>, S: set<nat>, T: set<nat>)
    requires forall i :: i in S ==> i < |events| && events[i] in T
    requires forall i, j :: i in S && j in S && i != j ==> events[i] != events[j]
    requires forall e :: e in T ==> exists i :: i in S && events[i] == e
    ensures |S| == |T|
    decreases |S|
  {
    if S == {} {
      assert T == {};
    } else {
      var i :| i in S;
      var S', T' := S - {i}, T - {events[i]};
      forall e | e in T'
        ensures exists j :: j in S' && events[j] == e
      {
        var j :| j in S && events[j] == e;
        assert j in S';
      }
      ImageCount(events, S', T');
    }
  }

  ghost function GoneOldest(events: seq<nat>, E: set<nat>): set<nat> {
    set i | 0 <= i < |events| && events[i] !in E && IsFirst(events, i)
  }

  ghost function GoneNewest(events: seq<nat>, E: set<nat>): set<nat> {
    set i | 0 <= i < |events| && events[i] !in E && !IsFirst(events, i) && !OccursAfter(events, i)
  }

  ghost function GoneMiddle(events: seq<nat>, E: set<nat>): set<nat> {
    set i | 0 <= i < |events| && events[i] !in E && IsMiddle(events, i)
  }

  ghost function Superseded(events: seq<nat>, E: set<nat>): set<nat> {
    set i | 0 <= i < |events| && events[i] in E && IsFirst(events, i) && OccursAfter(events, i)
  }

  lemma OldestAreNotIn(events: seq<nat>, E: set<nat>)
    ensures |GoneOldest(events, E)| == |NotIn(events, E)|
  {
    forall e | e in NotIn(events, E)
      ensures exists i :: i in GoneOldest(events, E) && events[i] == e
    {
      var k :| 0 <= k < |events| && events[k] == e;
      var j := OldestOf(events, k);
      assert j in GoneOldest(events, E);
    }
    ImageCount(events, GoneOldest(events, E), NotIn(events, E));
  }

  lemma NewestAndSupersededAreDuplicated(events: seq<nat>, E: set<nat>)
    ensures |GoneNewest(events, E)| + |Superseded(events, E)| == |Duplicated(events)|
  {
    var D := Duplicated(events);
    GoneNewestCount(events, E);
    SupersededCount(events, E);
    assert D == (D - E) + (D * E);
  }

  lemma GoneNewestCount(events: seq<nat>, E: set<nat>)
    ensures |GoneNewest(events, E)| == |Duplicated(events) - E|
  {
    var outside := Duplicated(events) - E;
    forall e | e in outside
      ensures exists i :: i in GoneNewest(events, E) && events[i] == e
    {
      var k :| 0 <= k < |events| && OccursAfter(events, k) && events[k] == e;
      var j := NewestOf(events, k);
      assert j in GoneNewest(events, E);
    }
    forall i | i in GoneNewest(events, E)
      ensures events[i] in outside
    {
      var k :| 0 <= k < i && events[k] == events[i];
      assert OccursAfter(events, k);
    }
    ImageCount(events, GoneNewest(events, E), outside);
  }

  lemma SupersededCount(events: seq<nat>, E: set<nat>)
    ensures |Superseded(events, E)| == |Duplicated(events) * E|
  {
    var inside := Duplicated(events) * E;
    forall e | e in inside
      ensures exists i :: i in Superseded(events, E) && events[i] == e
    {
      var k :| 0 <= k < |events| && OccursAfter(events, k) && events[k] == e;
      var j := OldestOf(events, k);
      assert OccursAfter(events, j);
      assert j in Superseded(events, E);
    }
    ImageCount(events, Superseded(events, E), inside);
  }

  /** The computed size exceeds the number of survivors by the middle copies of
      events that go. */
  lemma SizeSurplus(events: seq<nat>, E: set<nat>)
    ensures NewSize(events, E) == |Keep(events, E, |events|)| + |GoneMiddle(events, E)|
  {
    OldestAreNotIn(events, E);
    NewestAndSupersededAreDuplicated(events, E);
    UptoCount(|events|);
    KeptCount(events, E, |events|);
    EveryIndexHasItsPlace(events, E);
  }

  lemma EveryIndexHasItsPlace(events: seq<nat>, E: set<nat>)
    ensures |Upto(|events|)| == |Kept(events, E, |events|)|
      + |GoneOldest(events, E)| + |GoneNewest(events, E)| + |GoneMiddle(events, E)| + |Superseded(events, E)|
  {
    var k, a, b, c, d := Kept(events, E, |events|), GoneOldest(events, E), GoneNewest(events, E),
      GoneMiddle(events, E), Superseded(events, E);
    PlacesCover(events, E);
    PlacesDiffer(events, E);
    DisjointCount(k, a, b, c, d);
  }

  lemma PlacesCover(events: seq<nat>, E: set<nat>)
    ensures Upto(|events|) == Kept(events, E, |events|)
      + GoneOldest(events, E) + GoneNewest(events, E) + GoneMiddle(events, E) + Superseded(events, E)
  {
    var u, k, a, b, c, d := Upto(|events|), Kept(events, E, |events|), GoneOldest(events, E),
      GoneNewest(events, E), GoneMiddle(events, E), Superseded(events, E);
    forall i: nat
      ensures i in u <==> i in k || i in a || i in b || i in c || i in d
    {
      UptoCount(|events|);
      KeptCount(events, E, |events|);
    }
  }

  lemma PlacesDiffer(events: seq<nat>, E: set<nat>)
    ensures Kept(events, E, |events|)
      !! GoneOldest(events, E) !! GoneNewest(events, E) !! GoneMiddle(events, E) !! Superseded(events, E)
  {
    KeptCount(events, E, |events|);
  }

  lemma DisjointCount(k: set<nat>, a: set<nat>, b: set<nat>, c: set<nat>, d: set<nat>)
    requires k !! a !! b !! c !! d
    ensures |k + a + b + c + d| == |k| + |a| + |b| + |c| + |d|
  {
  }

  /** The computed size is never too small, and it is the number of survivors
      exactly when no event that goes occurs three times. */
  lemma SizeIsExact(events: seq<nat>, E: set<nat>)
    ensures |Keep(events, E, |events|)| <= NewSize(events, E)
    ensures |Keep(events, E, |events|)| == NewSize(events, E)
       <==> forall i :: 0 <= i < |events| && events[i] !in E ==> !IsMiddle(events, i)
  {
    SizeSurplus(events, E);
    if forall i :: 0 <= i < |events| && events[i] !in E ==> !IsMiddle(events, i) {
      assert GoneMiddle(events, E) == {};
    } else {
      var i :| 0 <= i < |events| && events[i] !in E && IsMiddle(events, i);
      assert i in GoneMiddle(events, E);
    }
  }

  /** The newest copy of every event in E is kept, and it is the only one kept
      exactly when no event in E occurs three times. */
  lemma NewestIsKept(events: seq<nat>, E: set<nat>)
    ensures forall i :: 0 <= i < |events| && events[i] in E && !OccursAfter(events, i) ==>
      i in Keep(events, E, |events|)
    ensures (forall i :: i in Keep(events, E, |events|) ==> i < |events| && !OccursAfter(events, i))
       <==> forall i :: 0 <= i < |events| && events[i] in E ==> !IsMiddle(events, i)
  {
    KeepIsSelection(events, E, |events|);
  }

  /** When the computed size is the old one, nothing goes. */
  lemma NothingGoes(events: seq<nat>, E: set<nat>)
    requires NewSize(events, E) == |events|
    ensures forall i :: 0 <= i < |events| ==> Survives(events, E, i)
    ensures |Keep(events, E, |events|)| == |events|
    ensures forall a :: 0 <= a < |events| ==> Keep(events, E, |events|)[a] == a
  {
    assert NotIn(events, E) == {} && Duplicated(events) == {};
    forall i | 0 <= i < |events|
      ensures Survives(events, E, i)
    {
      assert events[i] !in NotIn(events, E) && events[i] !in Duplicated(events);
    }
    KeepEverything(events, E, |events|);
  }

  lemma {:induction false} KeepEverything(events: seq<nat>, E: set<nat>, k: nat)
    requires k <= |events| && forall i :: 0 <= i < |events| ==> Survives(events, E, i)
    ensures |Keep(events, E, k)| == k && forall a :: 0 <= a < k ==> Keep(events, E, k)[a] == a
  {
    if k > 0 {
      KeepEverything(events, E, k - 1);
    }
  }
}
