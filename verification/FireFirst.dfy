/** get_fire_first_events of src/bap.cc, and why its test of the closed matrix
    is the one on timings. */
module FireFirst {
  import opened Dbm
  import opened Zones
  import opened Sequences
  import opened TimedRules
  import opened Posets
  import opened CausalChoices

  /** Splits the enabled events into those no other one must precede strictly
      and the rest. */
  method GetFireFirstEvents(Een: seq<seq<nat>>, t: Tel, Me: Poset, Ef0: set<nat>, ghost events: seq<nat>)
      returns (Ef: set<nat>, Enf: set<nat>)
    requires AreRulesOf(Een, t) && Me.Valid() && Me.ptrMap == events + EnabledEvents(Een, t)
    ensures forall f :: f in Ef <==> f in Ef0 || Fireable(Abs(Me.dbm), events, EnabledEvents(Een, t), f)
    ensures forall f :: f in Enf <==>
      f in EnabledEvents(Een, t) && !Fireable(Abs(Me.dbm), events, EnabledEvents(Een, t), f)
  {
    ghost var m, evs, o := Abs(Me.dbm), EnabledEvents(Een, t), |events|;
    Ef, Enf := Ef0, {};
    for i := 0 to |Een|
      invariant forall f :: f in Ef <==> f in Ef0 || (f in evs[..i] && Fireable(m, events, evs, f))
      invariant forall f :: f in Enf <==> f in evs[..i] && !Fireable(m, events, evs, f)
    {
      assert evs[..i + 1] == evs[..i] + [evs[i]];
      var ei := GetEnabled(Een[i], t);
      var fireable := IsFireFirst(i, Een, t, Me, events);
      FireableAt(m, events, evs, i);
      if fireable {
        Ef := Ef + {ei};
      } else {
        Enf := Enf + {ei};
      }
    }
    assert evs[..|Een|] == evs;
  }

  method IsFireFirst(i: nat, Een: seq<seq<nat>>, t: Tel, Me: Poset, ghost events: seq<nat>) returns (fireable: bool)
    requires AreRulesOf(Een, t) && Me.Valid() && Me.ptrMap == events + EnabledEvents(Een, t) && i < |Een|
    ensures fireable <==> NotPreceded(Abs(Me.dbm), |events|, |Een|, i)
  {
    for j := 0 to |Een|
      invariant forall k :: 0 <= k < j && k != i ==> !Precedes(Abs(Me.dbm), |events|, |Een|, k, i)
    {
      var before := MustPrecede(j, i, Een, t, Me, events);
      if before {
        return false;
      }
    }
    return true;
  }

  /** The test of two enabled events. */
  method MustPrecede(j: nat, i: nat, Een: seq<seq<nat>>, t: Tel, Me: Poset, ghost events: seq<nat>)
      returns (before: bool)
    requires AreRulesOf(Een, t) && Me.Valid() && Me.ptrMap == events + EnabledEvents(Een, t)
    requires j < |Een| && i < |Een|
    ensures before <==> j != i && Precedes(Abs(Me.dbm), |events|, |Een|, j, i)
  {
    var ei, ej := GetEnabled(Een[i], t), GetEnabled(Een[j], t);
    var b := Me.GetSeparation(ej, ei);
    NewestIsEnabled(Me.ptrMap, EnabledEvents(Een, t), |events|, j);
    NewestIsEnabled(Me.ptrMap, EnabledEvents(Een, t), |events|, i);
    return ei != ej && b.Fin? && b.v < 0;
  }

  /** Enabled event f is bound by no other enabled event to come strictly later. */
  ghost predicate Fireable(m: Matrix, events: seq<nat>, evs: seq<nat>, f: nat)
    requires IsMatrix(m, |events| + |evs|)
  {
    exists i :: 0 <= i < |evs| && evs[i] == f && NotPreceded(m, |events|, |evs|, i)
  }

  ghost predicate NotPreceded(m: Matrix, o: nat, count: nat, i: nat)
    requires IsMatrix(m, o + count) && i < count
  {
    forall k :: 0 <= k < count && k != i ==> !Precedes(m, o, count, k, i)
  }

  /** Enabled event k is bound to come strictly before enabled event i. */
  ghost predicate Precedes(m: Matrix, o: nat, count: nat, k: nat, i: nat)
    requires IsMatrix(m, o + count) && k < count && i < count
  {
    Negative(m[o + k][o + i])
  }

  lemma FireableAt(m: Matrix, events: seq<nat>, evs: seq<nat>, i: nat)
    requires IsMatrix(m, |events| + |evs|) && i < |evs| && Distinct(evs)
    ensures Fireable(m, events, evs, evs[i]) <==> NotPreceded(m, |events|, |evs|, i)
  {
  }

  lemma NewestIsEnabled(all: seq<nat>, evs: seq<nat>, o: nat, j: nat)
    requires EndsWith(all, evs, o) && Distinct(evs) && j < |evs|
    ensures evs[j] in all
    ensures forall a :: IsLastOf(all, evs[j], a, -1) ==> a == o + j
  {
    assert all[o + j] == evs[j];
  }

  /** The fire-first test of the code, on the canonical form m' of a consistent
      matrix, is the one on timings. */
  lemma FireableMeansFiresFirst(m: Matrix, m': Matrix, events: seq<nat>, evs: seq<nat>, f: nat)
    requires Tightens(m, m', |events| + |evs|) && Canonical(m', |events| + |evs|, 0, |events| + |evs|)
    requires Consistent(m, |events| + |evs|, |events|)
    ensures Fireable(m', events, evs, f) <==> FiresFirst(m, events, evs, f)
  {
    var o := |events|;
    forall k | 0 <= k < |evs|
      ensures NotPreceded(m', o, |evs|, k) <==> FirstAt(m, o, evs, evs[k], k)
    {
      NotPrecededIsFirst(m, m', o, evs, k);
    }
    if Fireable(m', events, evs, f) {
      var k :| 0 <= k < |evs| && evs[k] == f && NotPreceded(m', o, |evs|, k);
      assert FirstAt(m, o, evs, f, k);
    }
  }

  lemma NotPrecededIsFirst(m: Matrix, m': Matrix, o: nat, evs: seq<nat>, k: nat)
    requires Tightens(m, m', o + |evs|) && Canonical(m', o + |evs|, 0, o + |evs|) && k < |evs|
    requires Consistent(m, o + |evs|, o)
    ensures NotPreceded(m', o, |evs|, k) <==> FirstAt(m, o, evs, evs[k], k)
  {
    var n := o + |evs|;
    NextIsOneTiming(m', n, o, o + k);
    NoneIsForcedBack(m, m', n, o);
    NotPrecededMeansNoneForced(m', o, |evs|, k);
    SameNext(m, m', n, o, o + k);
  }

  lemma NoneIsForcedBack(m: Matrix, m': Matrix, n: nat, o: nat)
    requires Tightens(m, m', n) && Canonical(m', n, 0, n) && o <= n && Consistent(m, n, o)
    ensures forall i, j :: o <= i < n && 0 <= j < o ==> !Negative(m'[i][j])
  {
    forall i, j | o <= i < n && 0 <= j < o ensures !Negative(m'[i][j]) {
      NegativeMeansBefore(m', n, i, j);
      FollowsAlike(m, m', n, i, j);
    }
  }

  lemma NotPrecededMeansNoneForced(m: Matrix, o: nat, count: nat, k: nat)
    requires IsMatrix(m, o + count) && k < count && m[o + k][o + k] == Fin(0)
    requires forall i, j :: o <= i < o + count && 0 <= j < o ==> !Negative(m[i][j])
    ensures NotPreceded(m, o, count, k) <==> NoneForced(m, o + count, o, o + k)
  {
    if NotPreceded(m, o, count, k) {
      forall x | o <= x < o + count ensures !Negative(m[x][o + k]) {
        assert x == o + k || !Precedes(m, o, count, x - o, k);
      }
    }
  }

  lemma SameNext(m: Matrix, m': Matrix, n: nat, o: nat, k: nat)
    requires Tightens(m, m', n) && o <= k < n
    ensures CanBeNext(m, n, o, k) <==> CanBeNext(m', n, o, k)
  {
  }
}
