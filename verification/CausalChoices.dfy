/** What combinatorial_search of src/bap.cc looks for: the enabled events that
    some choice of a cause for each enabled event lets fire first. */
module CausalChoices {
  import opened Dbm
  import opened Zones
  import opened Sequences
  import opened TimedRules
  import opened Posets

  // What the search is for

  ghost function FirstIndex(events: seq<nat>, e: nat): (i: nat)
    requires e in events
    ensures IsFirstOf(events, e, i)
  {
    if events[0] == e then 0 else FirstIndex(events[1..], e) + 1
  }

  /** The rules of each enabled event, without their order. */
  ghost function RuleSets(Een: seq<seq<nat>>): (R: seq<set<nat>>)
    ensures |R| == |Een| && forall k, r :: 0 <= k < |R| ==> (r in R[k] <==> r in Een[k])
  {
    seq(|Een|, k requires 0 <= k < |Een| => set r | r in Een[k])
  }

  ghost predicate Shape(m: Matrix, events: seq<nat>, evs: seq<nat>, R: seq<set<nat>>) {
    |R| == |evs| && IsMatrix(m, |events| + |evs|)
  }

  /** m with rule r chosen as the cause of enabled event p. */
  ghost function WithCause(m: Matrix, events: seq<nat>, evs: seq<nat>, t: Tel, p: nat, r: nat): (m': Matrix)
    requires IsMatrix(m, |events| + |evs|) && p < |evs| && t.enabling(r) in events
    ensures IsMatrix(m', |events| + |evs|)
  {
    Set(m, |events| + |evs|, |events| + p, FirstIndex(events, t.enabling(r)), t.upper(t.enabling(r), evs[p]))
  }

  /** Some timing under m has enabled event f next: no fired event is later
      than it, and no enabled one earlier. */
  ghost predicate FiresFirst(m: Matrix, events: seq<nat>, evs: seq<nat>, f: nat)
    requires IsMatrix(m, |events| + |evs|)
  {
    exists k :: FirstAt(m, |events|, evs, f, k)
  }

  ghost predicate FirstAt(m: Matrix, o: nat, evs: seq<nat>, f: nat, k: int)
    requires IsMatrix(m, o + |evs|)
  {
    0 <= k < |evs| && evs[k] == f && CanBeNext(m, o + |evs|, o, o + k)
  }

  /** ... under some choice of a cause for each enabled event from p on. */
  ghost predicate CanFire(m: Matrix, events: seq<nat>, evs: seq<nat>, R: seq<set<nat>>, t: Tel, p: nat, f: nat)
    requires Shape(m, events, evs, R) && p <= |evs|
    decreases |evs| - p
  {
    if p == |evs| then FiresFirst(m, events, evs, f)
    else exists r :: (r in R[p] && t.enabling(r) in events
      && CanFire(WithCause(m, events, evs, t, p, r), events, evs, R, t, p + 1, f))
  }

  lemma {:induction false} OnlyEnabledFire(
      m: Matrix, events: seq<nat>, evs: seq<nat>, R: seq<set<nat>>, t: Tel, p: nat, f: nat)
    requires Shape(m, events, evs, R) && p <= |evs| && CanFire(m, events, evs, R, t, p, f)
    ensures f in evs
    decreases |evs| - p
  {
    if p < |evs| {
      var r :| r in R[p] && t.enabling(r) in events
        && CanFire(WithCause(m, events, evs, t, p, r), events, evs, R, t, p + 1, f);
      OnlyEnabledFire(WithCause(m, events, evs, t, p, r), events, evs, R, t, p + 1, f);
    }
  }

  lemma FirstTiming(m: Matrix, events: seq<nat>, evs: seq<nat>, f: nat) returns (tau: seq<int>, k: int)
    requires IsMatrix(m, |events| + |evs|) && FiresFirst(m, events, evs, f)
    ensures |tau| == |events| + |evs| && 0 <= k < |evs| && evs[k] == f
    ensures Sat(m, tau) && ComesNext(tau, |events|, |events| + k)
  {
    k :| FirstAt(m, |events|, evs, f, k);
    tau :| |tau| == |events| + |evs| && Sat(m, tau) && ComesNext(tau, |events|, |events| + k);
  }

  lemma TimingIsFirst(m: Matrix, events: seq<nat>, evs: seq<nat>, f: nat, tau: seq<int>, k: int)
    requires IsMatrix(m, |events| + |evs|) && |tau| == |events| + |evs| && 0 <= k < |evs| && evs[k] == f
    requires Sat(m, tau) && ComesNext(tau, |events|, |events| + k)
    ensures FiresFirst(m, events, evs, f)
  {
    assert FirstAt(m, |events|, evs, f, k);
  }

  // Fewer bounds, more events

  ghost predicate Looser(m: Matrix, m': Matrix, n: nat) {
    && IsMatrix(m, n) && IsMatrix(m', n)
    && forall i, j :: 0 <= i < n && 0 <= j < n ==> AtMost(m'[i][j], m[i][j])
  }

  lemma LooserTimings(m: Matrix, m': Matrix, n: nat, t: seq<int>)
    requires Looser(m, m', n) && |t| == n && Sat(m', t)
    ensures Sat(m, t)
  {
  }

  lemma LooserFires(m: Matrix, m': Matrix, events: seq<nat>, evs: seq<nat>, f: nat)
    requires Looser(m, m', |events| + |evs|) && FiresFirst(m', events, evs, f)
    ensures FiresFirst(m, events, evs, f)
  {
    var tau, k := FirstTiming(m', events, evs, f);
    LooserTimings(m, m', |events| + |evs|, tau);
    TimingIsFirst(m, events, evs, f, tau, k);
  }

  /** Dropping or relaxing bounds can only let more events fire. */
  lemma {:induction false} CanFireIsMonotone(
      m: Matrix, m': Matrix, events: seq<nat>, evs: seq<nat>, R: seq<set<nat>>, t: Tel, p: nat, f: nat)
    requires Looser(m, m', |events| + |evs|) && |R| == |evs| && p <= |evs|
    requires CanFire(m', events, evs, R, t, p, f)
    ensures CanFire(m, events, evs, R, t, p, f)
    decreases |evs| - p
  {
    if p == |evs| {
      LooserFires(m, m', events, evs, f);
    } else {
      var r :| r in R[p] && t.enabling(r) in events
        && CanFire(WithCause(m', events, evs, t, p, r), events, evs, R, t, p + 1, f);
      CanFireIsMonotone(
        WithCause(m, events, evs, t, p, r), WithCause(m', events, evs, t, p, r), events, evs, R, t, p + 1, f);
    }
  }

  /** No choice has been made yet for the enabled events from p on. */
  ghost predicate UppersOpen(m: Matrix, events: seq<nat>, evs: seq<nat>, R: seq<set<nat>>, t: Tel, p: nat)
    requires Shape(m, events, evs, R)
  {
    forall q, r :: p <= q < |evs| && r in R[q] && t.enabling(r) in events ==>
      m[|events| + q][FirstIndex(events, t.enabling(r))] == Unbounded
  }

  /** Choosing a cause where nothing was chosen yet only adds a bound. */
  lemma ChoiceTightens(m: Matrix, events: seq<nat>, evs: seq<nat>, R: seq<set<nat>>, t: Tel, p: nat, r: nat)
    requires Shape(m, events, evs, R) && p < |evs| && UppersOpen(m, events, evs, R, t, p)
    requires r in R[p] && t.enabling(r) in events
    ensures Looser(m, WithCause(m, events, evs, t, p, r), |events| + |evs|)
    ensures t.upper(t.enabling(r), evs[p]) == Unbounded ==> WithCause(m, events, evs, t, p, r) == m
  {
    assert m[|events| + p][FirstIndex(events, t.enabling(r))] == Unbounded;
    if t.upper(t.enabling(r), evs[p]) == Unbounded {
      SameMatrix(WithCause(m, events, evs, t, p, r), m, |events| + |evs|);
    }
  }

  lemma ChosenFires(m: Matrix, events: seq<nat>, evs: seq<nat>, R: seq<set<nat>>, t: Tel, p: nat, r: nat, f: nat)
    requires Shape(m, events, evs, R) && p < |evs| && r in R[p] && t.enabling(r) in events
    requires CanFire(WithCause(m, events, evs, t, p, r), events, evs, R, t, p + 1, f)
    ensures CanFire(m, events, evs, R, t, p, f)
  {
  }

  lemma SomeChoiceFires(m: Matrix, events: seq<nat>, evs: seq<nat>, R: seq<set<nat>>, t: Tel, p: nat, f: nat)
      returns (r: nat)
    requires Shape(m, events, evs, R) && p < |evs| && CanFire(m, events, evs, R, t, p, f)
    ensures r in R[p] && t.enabling(r) in events
    ensures CanFire(WithCause(m, events, evs, t, p, r), events, evs, R, t, p + 1, f)
  {
    r :| r in R[p] && t.enabling(r) in events
      && CanFire(WithCause(m, events, evs, t, p, r), events, evs, R, t, p + 1, f);
  }

  /** An unbounded rule with its enabling event in the old part makes all other
      rules of the event superfluous. */
  lemma UnboundedRuleSuffices(
      m: Matrix, events: seq<nat>, evs: seq<nat>, R: seq<set<nat>>, t: Tel, p: nat, r0: nat, f: nat)
    requires Shape(m, events, evs, R) && p < |evs| && UppersOpen(m, events, evs, R, t, p)
    requires r0 in R[p] && t.enabling(r0) in events && t.upper(t.enabling(r0), evs[p]) == Unbounded
    ensures CanFire(m, events, evs, R, t, p, f)
       <==> CanFire(WithCause(m, events, evs, t, p, r0), events, evs, R, t, p + 1, f)
  {
    ChoiceTightens(m, events, evs, R, t, p, r0);
    if CanFire(m, events, evs, R, t, p, f) {
      var r := SomeChoiceFires(m, events, evs, R, t, p, f);
      ChoiceTightens(m, events, evs, R, t, p, r);
      CanFireIsMonotone(m, WithCause(m, events, evs, t, p, r), events, evs, R, t, p + 1, f);
    }
    if CanFire(m, events, evs, R, t, p + 1, f) {
      ChosenFires(m, events, evs, R, t, p, r0, f);
    }
  }

  // The search state

  /** Each rule set belongs to one enabled event, and no two to the same. */
  ghost predicate AreRulesOf(Een: seq<seq<nat>>, t: Tel) {
    && AreRuleSets(Een)
    && (forall k, r :: 0 <= k < |Een| && r in Een[k] ==> t.enabled(r) == GetEnabled(Een[k], t))
    && Distinct(EnabledEvents(Een, t))
  }

  /** The same rules for the same events, perhaps in another order. */
  ghost predicate SameRules(Een: seq<seq<nat>>, Een': seq<seq<nat>>, t: Tel) {
    && AreRulesOf(Een, t) && AreRulesOf(Een', t)
    && RuleSets(Een) == RuleSets(Een') && EnabledEvents(Een, t) == EnabledEvents(Een', t)
  }

  /** What combinatorial_search relies on when it reaches enabled event p. */
  ghost predicate Ready(m: Matrix, events: seq<nat>, Een: seq<seq<nat>>, t: Tel, p: nat) {
    && p <= |Een| && AreRulesOf(Een, t)
    && IsMatrix(m, |events| + |Een|) && PrefixCanonical(m, |events| + |Een|, |events|)
    && UppersOpen(m, events, EnabledEvents(Een, t), RuleSets(Een), t, p)
  }

  /** The events that some choice of causes from p on lets fire first. */
  ghost predicate CanFireFrom(m: Matrix, events: seq<nat>, Een: seq<seq<nat>>, t: Tel, p: nat, f: nat)
    requires Ready(m, events, Een, t, p)
  {
    CanFire(m, events, EnabledEvents(Een, t), RuleSets(Een), t, p, f)
  }

  /** A timing with some event next shows that the bounds are consistent. */
  lemma FiresFirstIsConsistent(m: Matrix, events: seq<nat>, evs: seq<nat>, f: nat)
    requires IsMatrix(m, |events| + |evs|) && FiresFirst(m, events, evs, f)
    ensures Consistent(m, |events| + |evs|, |events|)
  {
    var o, n := |events|, |events| + |evs|;
    var t, k := FirstTiming(m, events, evs, f);
    forall i, j | o <= i < n && 0 <= j < o ensures CanFollow(m, n, i, j) {
      assert t[i] >= t[j];
    }
  }

  lemma CausalPlaces(events: seq<nat>, evs: seq<nat>, e: nat, p: nat)
    requires Distinct(evs) && p < |evs| && e in events
    ensures IsFirstOf(events + evs, e, FirstIndex(events, e))
    ensures IsLastOf(events + evs, evs[p], |events| + p, FirstIndex(events, e))
  {
  }

  lemma ChosenKeepsReady(m: Matrix, events: seq<nat>, Een: seq<seq<nat>>, t: Tel, p: nat, r: nat)
    requires Ready(m, events, Een, t, p) && p < |Een| && r in Een[p] && t.enabling(r) in events
    ensures Ready(WithCause(m, events, EnabledEvents(Een, t), t, p, r), events, Een, t, p + 1)
    ensures Set(WithCause(m, events, EnabledEvents(Een, t), t, p, r), |events| + |Een|,
                |events| + p, FirstIndex(events, t.enabling(r)), Unbounded) == m
  {
    ChosenKeepsOpen(m, events, EnabledEvents(Een, t), RuleSets(Een), t, p, r);
  }

  lemma ChosenKeepsOpen(m: Matrix, events: seq<nat>, evs: seq<nat>, R: seq<set<nat>>, t: Tel, p: nat, r: nat)
    requires Shape(m, events, evs, R) && PrefixCanonical(m, |events| + |evs|, |events|)
    requires UppersOpen(m, events, evs, R, t, p) && p < |evs| && r in R[p] && t.enabling(r) in events
    ensures PrefixCanonical(WithCause(m, events, evs, t, p, r), |events| + |evs|, |events|)
    ensures UppersOpen(WithCause(m, events, evs, t, p, r), events, evs, R, t, p + 1)
    ensures Set(WithCause(m, events, evs, t, p, r), |events| + |evs|,
                |events| + p, FirstIndex(events, t.enabling(r)), Unbounded) == m
  {
    var n, o := |events| + |evs|, |events|;
    var i, v := FirstIndex(events, t.enabling(r)), t.upper(t.enabling(r), evs[p]);
    assert m[o + p][i] == Unbounded;
    SetKeepsPrefix(m, n, o, o + p, i, v);
    SameMatrix(Set(Set(m, n, o + p, i, v), n, o + p, i, Unbounded), m, n);
  }

  lemma SetKeepsPrefix(m: Matrix, n: nat, o: nat, i: nat, j: nat, v: Bound)
    requires IsMatrix(m, n) && j < o <= i < n && PrefixCanonical(m, n, o)
    ensures PrefixCanonical(Set(m, n, i, j, v), n, o)
  {
  }
}
