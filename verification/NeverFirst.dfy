/** can_never_fire_first and count_non_fire_first_events of src/bap.cc: which
    events no choice of causes is said to let fire first, and when that is so. */
module NeverFirst {
  import opened Dbm
  import opened Zones
  import opened Closure
  import opened Sequences
  import opened TimedRules
  import opened Posets
  import opened CausalChoices

  /** The separation is within the upper bound of a rule, in either direction. */
  predicate InTime(sep: Bound, upper: Bound) {
    upper.Fin? ==> sep.Fin? && -upper.v <= sep.v <= upper.v
  }

  /** Every rule of event f that does not wait for e and whose enabling event
      is in the poset is out of time. */
  ghost predicate AllExpired(all: seq<nat>, m: Matrix, rules: set<nat>, t: Tel, f: nat, e: nat)
    requires IsMatrix(m, |all|)
  {
    forall r :: r in rules && t.enabling(r) != e && t.enabling(r) in all ==> Expired(all, m, r, t, f)
  }

  ghost predicate Expired(all: seq<nat>, m: Matrix, r: nat, t: Tel, f: nat)
    requires IsMatrix(m, |all|)
  {
    !InTime(CausalSeparation(all, m, t.enabling(r), f), t.upper(t.enabling(r), f))
  }

  /** m with bound b on event i against the first k events from o on. */
  ghost function PutFirst(m: Matrix, n: nat, o: nat, i: nat, k: nat, b: Bound): (m': Matrix)
    requires IsMatrix(m, n) && i < n && o + k <= n
    ensures IsMatrix(m', n)
    ensures forall x, y {:trigger m'[x][y]} :: 0 <= x < n && 0 <= y < n ==>
      m'[x][y] == if x == i && o <= y < o + k && x != y then b else m[x][y]
  {
    seq(n, x requires 0 <= x < n =>
      seq(n, y requires 0 <= y < n => if x == i && o <= y < o + k && x != y then b else m[x][y]))
  }

  /** The bounds with no cause chosen and the oldest copy of e put first. */
  ghost function WithFirst(m: Matrix, events: seq<nat>, evs: seq<nat>, e: nat): (m': Matrix)
    requires IsMatrix(m, |events| + |evs|) && e in events + evs
    ensures IsMatrix(m', |events| + |evs|)
  {
    var n, o := |events| + |evs|, |events|;
    PutFirst(WithoutUppers(m, n, o), n, o, FirstIndex(events + evs, e), |evs|, Fin(0))
  }

  /** These bounds are consistent, and some enabled event has no rule left that
      is in time. */
  ghost predicate IsNeverFirst(m: Matrix, events: seq<nat>, evs: seq<nat>, R: seq<set<nat>>, t: Tel, e: nat)
    requires Shape(m, events, evs, R)
  {
    && e in evs && Consistent(WithFirst(m, events, evs, e), |m|, |events|)
    && SomeExpired(events, FullClosure(WithFirst(m, events, evs, e), |m|), evs, R, t, e)
  }

  ghost predicate SomeExpired(events: seq<nat>, m: Matrix, evs: seq<nat>, R: seq<set<nat>>, t: Tel, e: nat)
    requires Shape(m, events, evs, R)
  {
    exists k :: 0 <= k < |evs| && AllExpired(events + evs, m, R[k], t, evs[k], e)
  }

  // Putting an event first

  lemma WithFirstKeepsPrefix(m: Matrix, events: seq<nat>, evs: seq<nat>, e: nat)
    requires IsMatrix(m, |events| + |evs|) && PrefixCanonical(m, |events| + |evs|, |events|) && e in events + evs
    ensures PrefixCanonical(WithFirst(m, events, evs, e), |events| + |evs|, |events|)
  {
    var n, o, m' := |events| + |evs|, |events|, WithFirst(m, events, evs, e);
    forall i, j | 0 <= i < o && 0 <= j < o ensures m'[i][j] == m[i][j] {
    }
  }

  /** A timing that has e next meets the bounds that put it first. */
  lemma NextMeetsBounds(m: Matrix, events: seq<nat>, evs: seq<nat>, k: nat, tau: seq<int>)
    requires IsMatrix(m, |events| + |evs|) && |tau| == |events| + |evs| && k < |evs| && Distinct(evs)
    requires Sat(m, tau) && ComesNext(tau, |events|, |events| + k)
    ensures evs[k] in events + evs && Sat(WithFirst(m, events, evs, evs[k]), tau)
  {
    var n, o, all := |events| + |evs|, |events|, events + evs;
    assert all[o + k] == evs[k];
    var i, m' := FirstIndex(all, evs[k]), WithFirst(m, events, evs, evs[k]);
    assert i < o || i == o + k by {
      assert i >= o ==> all[i] == evs[i - o];
    }
    forall a, b | 0 <= a < n && 0 <= b < n
      ensures Allows(m'[a][b], tau[a] - tau[b])
    {
      SatAt(m, tau, a, b);
    }
  }

  // When it is right

  /** The fired causes of enabled events are over: none of them is enabled
      again, and no lower bound is below 0. */
  ghost predicate CausesAreOver(events: seq<nat>, Een: seq<seq<nat>>, t: Tel)
    requires AreRuleSets(Een)
  {
    forall k, r :: 0 <= k < |Een| && r in Een[k] && t.enabling(r) in events ==>
      t.enabling(r) !in EnabledEvents(Een, t) && IsNotNegative(t.lower(t.enabling(r), t.enabled(r)))
  }

  predicate IsNotNegative(b: Bound) {
    b.Unbounded? || (b.Fin? && b.v >= 0)
  }

  /** The same, as it shows in the matrix. */
  ghost predicate CausesComeBefore(m: Matrix, events: seq<nat>, evs: seq<nat>, R: seq<set<nat>>, t: Tel)
    requires Shape(m, events, evs, R)
  {
    forall q, r :: 0 <= q < |evs| && r in R[q] && t.enabling(r) in events ==>
      t.enabling(r) !in evs && AtMost(m[FirstIndex(events, t.enabling(r))][|events| + q], Fin(0))
  }

  /** The causes of the first p enabled events have been chosen. */
  ghost predicate UppersChosen(m: Matrix, events: seq<nat>, evs: seq<nat>, R: seq<set<nat>>, t: Tel, p: nat)
    requires Shape(m, events, evs, R)
  {
    forall q :: 0 <= q < p && q < |evs| ==> HasChosen(m, events, evs, R, t, q)
  }

  ghost predicate HasChosen(m: Matrix, events: seq<nat>, evs: seq<nat>, R: seq<set<nat>>, t: Tel, q: nat)
    requires Shape(m, events, evs, R) && q < |evs|
  {
    exists r :: IsChosen(m, events, evs, R, t, q, r)
  }

  ghost predicate IsChosen(m: Matrix, events: seq<nat>, evs: seq<nat>, R: seq<set<nat>>, t: Tel, q: nat, r: nat)
    requires Shape(m, events, evs, R) && q < |evs|
  {
    && r in R[q] && t.enabling(r) in events
    && m[|events| + q][FirstIndex(events, t.enabling(r))] == t.upper(t.enabling(r), evs[q])
  }

  /** A rule that caused its event in some timing is in time. */
  lemma ChosenIsInTime(
      m: Matrix, c: Matrix, events: seq<nat>, evs: seq<nat>, R: seq<set<nat>>, t: Tel, q: nat, r: nat, tau: seq<int>)
    requires Shape(m, events, evs, R) && IsMatrix(c, |m|) && Distinct(evs) && q < |evs|
    requires IsChosen(m, events, evs, R, t, q, r)
    requires |tau| == |m| && Sat(m, tau) && Sat(c, tau)
    requires AtMost(c[FirstIndex(events, t.enabling(r))][|events| + q], Fin(0))
    ensures t.enabling(r) in events + evs && !Expired(events + evs, c, r, t, evs[q])
  {
    var i, j := FirstIndex(events, t.enabling(r)), |events| + q;
    CausalPlaces(events, evs, t.enabling(r), q);
    SeparationAt(events + evs, c, t.enabling(r), evs[q], i, j);
    SatAt(m, tau, j, i);
    SatAt(c, tau, i, j);
  }

  /** With all causes chosen, what IsNeverFirst names does not come first. */
  lemma NeverFirstIsNotNext(
      m: Matrix, events: seq<nat>, evs: seq<nat>, R: seq<set<nat>>, t: Tel, k: nat, tau: seq<int>)
    requires Shape(m, events, evs, R) && Distinct(evs) && CausesComeBefore(m, events, evs, R, t)
    requires UppersChosen(m, events, evs, R, t, |evs|)
    requires k < |evs| && IsNeverFirst(m, events, evs, R, t, evs[k])
    requires |tau| == |m| && Sat(m, tau)
    ensures !ComesNext(tau, |events|, |events| + k)
  {
    if ComesNext(tau, |events|, |events| + k) {
      var m' := WithFirst(m, events, evs, evs[k]);
      NextMeetsBounds(m, events, evs, k, tau);
      ClosedByTightens(m', |m|, |m|);
      var q, r := ExpiredCause(m, FullClosure(m', |m|), events, evs, R, t, evs[k]);
      CauseIsBefore(m, FullClosure(m', |m|), events, evs, t, evs[k], q, r);
      ChosenIsInTime(m, FullClosure(m', |m|), events, evs, R, t, q, r, tau);
    }
  }

  lemma ExpiredCause(
      m: Matrix, c: Matrix, events: seq<nat>, evs: seq<nat>, R: seq<set<nat>>, t: Tel, e: nat)
      returns (q: nat, r: nat)
    requires Shape(m, events, evs, R) && IsMatrix(c, |m|) && e in evs && SomeExpired(events, c, evs, R, t, e)
    requires CausesComeBefore(m, events, evs, R, t) && UppersChosen(m, events, evs, R, t, |evs|)
    ensures q < |evs| && IsChosen(m, events, evs, R, t, q, r) && t.enabling(r) != e
    ensures AtMost(m[FirstIndex(events, t.enabling(r))][|events| + q], Fin(0))
    ensures t.enabling(r) in events + evs ==> Expired(events + evs, c, r, t, evs[q])
  {
    q :| 0 <= q < |evs| && AllExpired(events + evs, c, R[q], t, evs[q], e);
    assert HasChosen(m, events, evs, R, t, q);
    r :| IsChosen(m, events, evs, R, t, q, r);
  }

  lemma CauseIsBefore(
      m: Matrix, c: Matrix, events: seq<nat>, evs: seq<nat>, t: Tel, e: nat, q: nat, r: nat)
    requires IsMatrix(m, |events| + |evs|) && q < |evs| && t.enabling(r) in events
    requires e in events + evs && e != t.enabling(r)
    requires AtMost(m[FirstIndex(events, t.enabling(r))][|events| + q], Fin(0))
    requires Tightens(WithFirst(m, events, evs, e), c, |events| + |evs|)
    ensures AtMost(c[FirstIndex(events, t.enabling(r))][|events| + q], Fin(0))
  {
    var all, i, j := events + evs, FirstIndex(events, t.enabling(r)), |events| + q;
    assert all[i] == t.enabling(r) && all[FirstIndex(all, e)] == e;
    assert WithFirst(m, events, evs, e)[i][j] == m[i][j];
  }

  // Over all choices of causes

  /** Nothing but the upper bounds of enabled events may differ. */
  ghost predicate SameButUppers(m: Matrix, m': Matrix, n: nat, o: nat) {
    && IsMatrix(m, n) && IsMatrix(m', n) && o <= n
    && WithoutUppers(m, n, o) == WithoutUppers(m', n, o)
  }

  lemma ChoiceSetsUppers(m: Matrix, events: seq<nat>, evs: seq<nat>, R: seq<set<nat>>, t: Tel, p: nat, r: nat)
    requires Shape(m, events, evs, R) && p < |evs| && r in R[p] && t.enabling(r) in events
    ensures SameButUppers(m, WithCause(m, events, evs, t, p, r), |m|, |events|)
    ensures UppersChosen(m, events, evs, R, t, p) ==>
      UppersChosen(WithCause(m, events, evs, t, p, r), events, evs, R, t, p + 1)
    ensures CausesComeBefore(m, events, evs, R, t) ==>
      CausesComeBefore(WithCause(m, events, evs, t, p, r), events, evs, R, t)
  {
    var n, o, m' := |m|, |events|, WithCause(m, events, evs, t, p, r);
    SameMatrix(WithoutUppers(m, n, o), WithoutUppers(m', n, o), n);
    if UppersChosen(m, events, evs, R, t, p) {
      forall q | 0 <= q < p + 1 ensures HasChosen(m', events, evs, R, t, q) {
        if q < p {
          assert HasChosen(m, events, evs, R, t, q);
          var r' :| IsChosen(m, events, evs, R, t, q, r');
          assert IsChosen(m', events, evs, R, t, q, r');
        } else {
          assert IsChosen(m', events, evs, R, t, p, r);
        }
      }
    }
  }

  lemma NeverFirstAlike(
      m: Matrix, m': Matrix, events: seq<nat>, evs: seq<nat>, R: seq<set<nat>>, t: Tel, e: nat)
    requires Shape(m, events, evs, R) && SameButUppers(m, m', |m|, |events|)
    ensures IsNeverFirst(m, events, evs, R, t, e) <==> IsNeverFirst(m', events, evs, R, t, e)
  {
  }

  /** Whatever causes are chosen, an event that IsNeverFirst names does not come
      first. */
  lemma {:induction false} NeverFirstCannotFire(
      m: Matrix, events: seq<nat>, evs: seq<nat>, R: seq<set<nat>>, t: Tel, p: nat, e: nat)
    requires Shape(m, events, evs, R) && p <= |evs| && Distinct(evs)
    requires CausesComeBefore(m, events, evs, R, t) && UppersChosen(m, events, evs, R, t, p)
    requires IsNeverFirst(m, events, evs, R, t, e)
    ensures !CanFire(m, events, evs, R, t, p, e)
    decreases |evs| - p
  {
    if CanFire(m, events, evs, R, t, p, e) {
      if p == |evs| {
        var k :| FirstAt(m, |events|, evs, e, k);
        var tau :| |tau| == |m| && Sat(m, tau) && ComesNext(tau, |events|, |events| + k);
        NeverFirstIsNotNext(m, events, evs, R, t, k, tau);
      } else {
        var r := SomeChoiceFires(m, events, evs, R, t, p, e);
        ChoiceSetsUppers(m, events, evs, R, t, p, r);
        NeverFirstAlike(m, WithCause(m, events, evs, t, p, r), events, evs, R, t, e);
        NeverFirstCannotFire(WithCause(m, events, evs, t, p, r), events, evs, R, t, p + 1, e);
      }
    }
  }

  // The methods

  method AreAllExpired(event: nat, rules: seq<nat>, t: Tel, Me: Poset, ghost f: nat) returns (b: bool)
    requires Me.Valid() && forall r :: r in rules ==> t.enabled(r) == f
    ensures b <==> AllExpired(Me.ptrMap, Abs(Me.dbm), (set r | r in rules), t, f, event)
  {
    ghost var all, m := Me.ptrMap, Abs(Me.dbm);
    for j := 0 to |rules|
      invariant forall k :: 0 <= k < j && t.enabling(rules[k]) != event && t.enabling(rules[k]) in all ==>
        Expired(all, m, rules[k], t, f)
    {
      var e := t.enabling(rules[j]);
      if e == event {
        continue;
      }
      var inPoset := Me.IsInPoset(e, 0);
      assert all[..|all|] == all;
      if !inPoset {
        continue;
      }
      var sep := Me.GetCausalSeparation(e, t.enabled(rules[j]));
      if InTime(sep, t.upper(e, t.enabled(rules[j]))) {
        assert !Expired(all, m, rules[j], t, f);
        return false;
      }
    }
    return true;
  }

  /** Some enabled event is out of time unless event itself causes it. */
  method CanNeverFireFirst(event: nat, Een: seq<seq<nat>>, t: Tel, Me: Poset, ghost events: seq<nat>)
      returns (b: bool)
    requires Me.Valid() && AreRulesOf(Een, t) && Me.ptrMap == events + EnabledEvents(Een, t)
    ensures b <==> SomeExpired(events, Abs(Me.dbm), EnabledEvents(Een, t), RuleSets(Een), t, event)
  {
    ghost var evs, R := EnabledEvents(Een, t), RuleSets(Een);
    for i := 0 to |Een|
      invariant forall k :: 0 <= k < i ==> !AllExpired(Me.ptrMap, Abs(Me.dbm), R[k], t, evs[k], event)
    {
      var allRulesExpired := AreAllExpired(event, Een[i], t, Me, evs[i]);
      assert R[i] == set r | r in Een[i];
      if allRulesExpired {
        return true;
      }
    }
    return false;
  }

  /** Constrains event ei to come come no later than any enabled event. */
  method ConstrainFirst(ei: nat, zero: Bound, Een: seq<seq<nat>>, t: Tel, Mt: Poset, ghost events: seq<nat>)
    requires Mt.Valid() && AreRulesOf(Een, t) && Mt.ptrMap == events + EnabledEvents(Een, t)
    requires ei in EnabledEvents(Een, t) && zero.Fin? && zero.v == 0
    modifies Mt.dbm
    ensures ei in Mt.ptrMap && Abs(Mt.dbm) ==
      PutFirst(old(Abs(Mt.dbm)), |Mt.ptrMap|, |events|, FirstIndex(Mt.ptrMap, ei), |Een|, zero)
  {
    ghost var m, n, o, evs := Abs(Mt.dbm), |Mt.ptrMap|, |events|, EnabledEvents(Een, t);
    EnabledIsListed(Mt.ptrMap, evs, o, ei);
    ghost var i := FirstIndex(Mt.ptrMap, ei);
    SameMatrix(m, PutFirst(m, n, o, i, 0, zero), n);
    for j := 0 to |Een|
      invariant Abs(Mt.dbm) == PutFirst(m, n, o, i, j, zero)
    {
      ConstrainBefore(ei, t.enabled(Een[j][0]), zero, Mt, m, evs, o, i, j);
    }
  }

  /** The bound of event ei, whose oldest index is i, against enabled event j. */
  method ConstrainBefore(
      ei: nat, ej: nat, zero: Bound, Mt: Poset, ghost m: Matrix, ghost evs: seq<nat>, ghost o: nat, ghost i: nat,
      ghost j: nat)
    requires Mt.Valid() && EndsWith(Mt.ptrMap, evs, o) && Distinct(evs) && j < |evs| && evs[j] == ej
    requires ei in evs && IsFirstOf(Mt.ptrMap, ei, i) && zero.Fin? && zero.v == 0
    requires IsMatrix(m, |Mt.ptrMap|) && Abs(Mt.dbm) == PutFirst(m, |Mt.ptrMap|, o, i, j, zero)
    modifies Mt.dbm
    ensures Abs(Mt.dbm) == PutFirst(m, |Mt.ptrMap|, o, i, j + 1, zero)
  {
    FirstPlaces(Mt.ptrMap, evs, o, ei, i, j);
    Mt.SetMinSeparation(ei, ej, zero);
    PutOneMore(m, Abs(Mt.dbm), |Mt.ptrMap|, o, i, j, zero);
  }

  lemma EnabledIsListed(all: seq<nat>, evs: seq<nat>, o: nat, e: nat)
    requires EndsWith(all, evs, o) && e in evs
    ensures e in all
  {
    var k :| 0 <= k < |evs| && evs[k] == e;
    assert all[o + k] == e;
  }

  lemma PutOneMore(m: Matrix, m': Matrix, n: nat, o: nat, i: nat, k: nat, b: Bound)
    requires IsMatrix(m, n) && i < n && o + k < n
    requires m' == if i == o + k then PutFirst(m, n, o, i, k, b) else Set(PutFirst(m, n, o, i, k, b), n, i, o + k, b)
    ensures m' == PutFirst(m, n, o, i, k + 1, b)
  {
    SameMatrix(m', PutFirst(m, n, o, i, k + 1, b), n);
  }

  /** Where set_min_separation puts the bound of e against enabled event j. */
  lemma FirstPlaces(all: seq<nat>, evs: seq<nat>, o: nat, e: nat, i: nat, j: nat)
    requires EndsWith(all, evs, o) && Distinct(evs) && IsFirstOf(all, e, i) && j < |evs|
    ensures i == o + j ==> !HasCausalIndexes(all, e, evs[j])
    ensures i != o + j ==> IsLastOf(all, evs[j], o + j, i)
  {
    assert all[o + j] == evs[j];
    if i == o + j {
      forall a, b | IsFirstOf(all, e, a) ensures !IsLastOf(all, evs[j], b, a) {
        FirstIsUnique(all, e, i, a);
      }
    }
  }

  ghost function NeverFirsts(
      m: Matrix, events: seq<nat>, evs: seq<nat>, R: seq<set<nat>>, t: Tel, S: set<nat>): (r: set<nat>)
    requires Shape(m, events, evs, R)
    ensures r <= S
  {
    set e | e in S && IsNeverFirst(m, events, evs, R, t, e)
  }

  method IsNonFireFirst(ei: nat, Een: seq<seq<nat>>, t: Tel, Mc: Poset, ghost m: Matrix, ghost events: seq<nat>)
      returns (b: bool)
    requires Mc.Valid() && AreRulesOf(Een, t) && Mc.ptrMap == events + EnabledEvents(Een, t)
    requires IsMatrix(m, |Mc.ptrMap|) && PrefixCanonical(m, |Mc.ptrMap|, |events|)
    requires Abs(Mc.dbm) == WithoutUppers(m, |Mc.ptrMap|, |events|) && ei in EnabledEvents(Een, t)
    ensures b <==> IsNeverFirst(m, events, EnabledEvents(Een, t), RuleSets(Een), t, ei)
  {
    ghost var evs := EnabledEvents(Een, t);
    var Mt := new Poset.Copy(Mc);
    ConstrainFirst(ei, Fin(0), Een, t, Mt, events);
    ghost var m' := WithFirst(m, events, evs, ei);
    assert Abs(Mt.dbm) == m';
    WithFirstKeepsPrefix(m, events, evs, ei);
    b := Mt.IsConsistent(|Een|);
    if b {
      b := CanNeverFireFirst(ei, Een, t, Mt, events);
    }
  }

  /** How many of the late events IsNeverFirst names. */
  method CountNonFireFirstEvents(Een: seq<seq<nat>>, t: Tel, Me: Poset, Enf: set<nat>, ghost events: seq<nat>)
      returns (killCount: nat)
    requires Me.Valid() && AreRulesOf(Een, t) && Me.ptrMap == events + EnabledEvents(Een, t)
    requires PrefixCanonical(Abs(Me.dbm), |Me.ptrMap|, |events|) && forall e :: e in Enf ==> e in EnabledEvents(Een, t)
    ensures killCount == |NeverFirsts(Abs(Me.dbm), events, EnabledEvents(Een, t), RuleSets(Een), t, Enf)|
  {
    ghost var m, evs, R := Abs(Me.dbm), EnabledEvents(Een, t), RuleSets(Een);
    var Mc := new Poset.Copy(Me);
    Mc.ClearSeparationsOnRows(|Een|);
    killCount := 0;
    var rest := Enf;
    while rest != {}
      invariant rest <= Enf && killCount == |NeverFirsts(m, events, evs, R, t, Enf - rest)|
      modifies {}
    {
      var ei :| ei in rest;
      var never := IsNonFireFirst(ei, Een, t, Mc, m, events);
      OneMoreNever(m, events, evs, R, t, Enf - rest, ei);
      assert Enf - (rest - {ei}) == Enf - rest + {ei};
      if never {
        killCount := killCount + 1;
      }
      rest := rest - {ei};
    }
    assert Enf - rest == Enf;
  }

  lemma OneMoreNever(m: Matrix, events: seq<nat>, evs: seq<nat>, R: seq<set<nat>>, t: Tel, S: set<nat>, e: nat)
    requires Shape(m, events, evs, R) && e !in S
    ensures |NeverFirsts(m, events, evs, R, t, S + {e})| ==
      |NeverFirsts(m, events, evs, R, t, S)| + if IsNeverFirst(m, events, evs, R, t, e) then 1 else 0
  {
    var S' := NeverFirsts(m, events, evs, R, t, S);
    assert NeverFirsts(m, events, evs, R, t, S + {e}) == if IsNeverFirst(m, events, evs, R, t, e) then S' + {e} else S';
  }
}
