/** Runs of the fired and the enabled events: firing times that keep the bounds of
    the poset and of the rules, with one chosen cause for each enabled event. */
module Runs {
  import opened Dbm
  import opened Zones
  import opened Survivors
  import opened TimedRules
  import opened Posets
  import opened CausalChoices

  /** One rule per enabled event, from p on, whose enabling event has fired. */
  ghost predicate IsChoice(events: seq<nat>, R: seq<set<nat>>, t: Tel, c: seq<nat>, p: nat) {
    |c| == |R| && forall q :: p <= q < |c| ==> c[q] in R[q] && t.enabling(c[q]) in events
  }

  /** The upper bounds that the chosen causes impose. */
  ghost predicate UppersHold(events: seq<nat>, evs: seq<nat>, t: Tel, c: seq<nat>, tau: seq<int>, p: nat)
    requires |c| == |evs| && |tau| == |events| + |evs|
  {
    forall q :: p <= q < |c| && t.enabling(c[q]) in events ==> UpperHolds(events, evs, t, c[q], tau, q)
  }

  ghost predicate UpperHolds(events: seq<nat>, evs: seq<nat>, t: Tel, r: nat, tau: seq<int>, q: nat)
    requires q < |evs| && |tau| == |events| + |evs| && t.enabling(r) in events
  {
    Allows(t.upper(t.enabling(r), evs[q]), tau[|events| + q] - tau[FirstIndex(events, t.enabling(r))])
  }

  ghost function Applied(m: Matrix, events: seq<nat>, evs: seq<nat>, R: seq<set<nat>>, t: Tel, c: seq<nat>, p: nat)
      : (m': Matrix)
    requires Shape(m, events, evs, R) && IsChoice(events, R, t, c, p) && p <= |evs|
    ensures IsMatrix(m', |events| + |evs|)
    decreases |evs| - p
  {
    if p == |evs| then m
    else Applied(WithCause(m, events, evs, t, p, c[p]), events, evs, R, t, c, p + 1)
  }

  lemma ChosenTimings(
      m: Matrix, events: seq<nat>, evs: seq<nat>, R: seq<set<nat>>, t: Tel, p: nat, r: nat, tau: seq<int>)
    requires Shape(m, events, evs, R) && p < |evs| && r in R[p] && t.enabling(r) in events
    requires UppersOpen(m, events, evs, R, t, p) && |tau| == |events| + |evs|
    ensures Sat(WithCause(m, events, evs, t, p, r), tau) <==> Sat(m, tau) && UpperHolds(events, evs, t, r, tau, p)
    ensures UppersOpen(WithCause(m, events, evs, t, p, r), events, evs, R, t, p + 1)
  {
    var n, i := |events| + |evs|, FirstIndex(events, t.enabling(r));
    var m' := WithCause(m, events, evs, t, p, r);
    if Sat(m', tau) {
      assert Looser(m, m', n);
      LooserTimings(m, m', n, tau);
      SatAt(m', tau, |events| + p, i);
    }
    if Sat(m, tau) && UpperHolds(events, evs, t, r, tau, p) {
      forall a, b | 0 <= a < n && 0 <= b < n
        ensures Allows(m'[a][b], tau[a] - tau[b])
      {
        SatAt(m, tau, a, b);
      }
    }
  }

  lemma {:induction false} AppliedTimings(
      m: Matrix, events: seq<nat>, evs: seq<nat>, R: seq<set<nat>>, t: Tel, c: seq<nat>, p: nat, tau: seq<int>)
    requires Shape(m, events, evs, R) && IsChoice(events, R, t, c, p) && p <= |evs|
    requires UppersOpen(m, events, evs, R, t, p) && |tau| == |events| + |evs|
    ensures Sat(Applied(m, events, evs, R, t, c, p), tau) <==> Sat(m, tau) && UppersHold(events, evs, t, c, tau, p)
    decreases |evs| - p
  {
    if p < |evs| {
      var m' := WithCause(m, events, evs, t, p, c[p]);
      ChosenTimings(m, events, evs, R, t, p, c[p], tau);
      AppliedTimings(m', events, evs, R, t, c, p + 1, tau);
      OneMoreUpper(events, evs, t, c, tau, p);
    }
  }

  lemma OneMoreUpper(events: seq<nat>, evs: seq<nat>, t: Tel, c: seq<nat>, tau: seq<int>, p: nat)
    requires |c| == |evs| && |tau| == |events| + |evs| && p < |c| && t.enabling(c[p]) in events
    ensures UppersHold(events, evs, t, c, tau, p) <==>
      UpperHolds(events, evs, t, c[p], tau, p) && UppersHold(events, evs, t, c, tau, p + 1)
  {
  }

  lemma {:induction false} AppliedLooksAhead(
      m: Matrix, events: seq<nat>, evs: seq<nat>, R: seq<set<nat>>, t: Tel, c: seq<nat>, c': seq<nat>, p: nat)
    requires Shape(m, events, evs, R) && IsChoice(events, R, t, c, p) && IsChoice(events, R, t, c', p) && p <= |evs|
    requires forall q :: p <= q < |c| ==> c[q] == c'[q]
    ensures Applied(m, events, evs, R, t, c, p) == Applied(m, events, evs, R, t, c', p)
    decreases |evs| - p
  {
    if p < |evs| {
      AppliedLooksAhead(WithCause(m, events, evs, t, p, c[p]), events, evs, R, t, c, c', p + 1);
    }
  }

  /** The recursion over causes is a search over whole choices. */
  lemma {:induction false} ChoiceOfCauses(
      m: Matrix, events: seq<nat>, evs: seq<nat>, R: seq<set<nat>>, t: Tel, p: nat, f: nat) returns (c: seq<nat>)
    requires Shape(m, events, evs, R) && p <= |evs| && CanFire(m, events, evs, R, t, p, f)
    ensures IsChoice(events, R, t, c, p) && FiresFirst(Applied(m, events, evs, R, t, c, p), events, evs, f)
    decreases |evs| - p
  {
    if p == |evs| {
      c := seq(|R|, _ => 0);
    } else {
      var r :| r in R[p] && t.enabling(r) in events
        && CanFire(WithCause(m, events, evs, t, p, r), events, evs, R, t, p + 1, f);
      var c' := ChoiceOfCauses(WithCause(m, events, evs, t, p, r), events, evs, R, t, p + 1, f);
      c := c'[p := r];
      AppliedLooksAhead(WithCause(m, events, evs, t, p, r), events, evs, R, t, c, c', p + 1);
    }
  }

  lemma {:induction false} ChoiceIsFound(
      m: Matrix, events: seq<nat>, evs: seq<nat>, R: seq<set<nat>>, t: Tel, c: seq<nat>, p: nat, f: nat)
    requires Shape(m, events, evs, R) && p <= |evs| && IsChoice(events, R, t, c, p)
    requires FiresFirst(Applied(m, events, evs, R, t, c, p), events, evs, f)
    ensures CanFire(m, events, evs, R, t, p, f)
    decreases |evs| - p
  {
    if p < |evs| {
      ChoiceIsFound(WithCause(m, events, evs, t, p, c[p]), events, evs, R, t, c, p + 1, f);
    }
  }

  // Runs

  /** The lower bounds of all rules whose enabling event has fired. */
  ghost predicate LowersHold(events: seq<nat>, Een: seq<seq<nat>>, t: Tel, tau: seq<int>)
    requires AreRuleSets(Een) && |tau| == |events| + |Een|
  {
    forall k, e :: 0 <= k < |Een| && WaitsFor(Een[k], t, e) && e in events ==>
      LowerHolds(events, Een, t, tau, k, e)
  }

  /** Those that add sets: it skips the rules whose enabling event is itself
      enabled again. */
  ghost predicate LowersKept(events: seq<nat>, Een: seq<seq<nat>>, t: Tel, tau: seq<int>)
    requires AreRuleSets(Een) && |tau| == |events| + |Een|
  {
    forall k, e :: 0 <= k < |Een| && WaitsFor(Een[k], t, e) && e in events && e !in EnabledEvents(Een, t) ==>
      LowerHolds(events, Een, t, tau, k, e)
  }

  ghost predicate LowerHolds(events: seq<nat>, Een: seq<seq<nat>>, t: Tel, tau: seq<int>, k: nat, e: nat)
    requires AreRuleSets(Een) && |tau| == |events| + |Een| && k < |Een| && e in events
  {
    MeetsLower(t.lower(e, GetEnabled(Een[k], t)), tau[|events| + k] - tau[FirstIndex(events, e)])
  }

  /** Firing times that keep the bounds that the search knows: those of m on the
      fired events, the lower bounds set by add, and the upper bounds of the
      causes that c chooses. */
  ghost predicate KeepsBounds(events: seq<nat>, m: Matrix, Een: seq<seq<nat>>, t: Tel, c: seq<nat>, tau: seq<int>)
    requires AreRuleSets(Een) && IsMatrix(m, |events|)
  {
    && |tau| == |events| + |Een| && |c| == |Een|
    && Sat(m, tau[..|events|]) && LowersKept(events, Een, t, tau)
    && UppersHold(events, EnabledEvents(Een, t), t, c, tau, 0)
  }

  /** No enabled event comes before a fired one. */
  ghost predicate InOrder(o: nat, tau: seq<int>) {
    forall i, j :: 0 <= i < o && o <= j < |tau| && i < |tau| ==> tau[i] <= tau[j]
  }

  /** Such firing times in that order: a run as far as the search can tell. */
  ghost predicate IsLooseRun(events: seq<nat>, m: Matrix, Een: seq<seq<nat>>, t: Tel, c: seq<nat>, tau: seq<int>)
    requires AreRuleSets(Een) && IsMatrix(m, |events|)
  {
    KeepsBounds(events, m, Een, t, c, tau) && InOrder(|events|, tau)
  }

  /** A run keeps all lower bounds, also those that add skips. */
  ghost predicate IsRun(events: seq<nat>, m: Matrix, Een: seq<seq<nat>>, t: Tel, c: seq<nat>, tau: seq<int>)
    requires AreRuleSets(Een) && IsMatrix(m, |events|)
  {
    IsLooseRun(events, m, Een, t, c, tau) && LowersHold(events, Een, t, tau)
  }

  /** f is the first enabled event to fire. */
  ghost predicate Begins(events: seq<nat>, Een: seq<seq<nat>>, t: Tel, tau: seq<int>, f: nat)
    requires AreRuleSets(Een) && |tau| == |events| + |Een|
  {
    exists k :: BeginsAt(events, Een, t, tau, f, k)
  }

  ghost predicate BeginsAt(events: seq<nat>, Een: seq<seq<nat>>, t: Tel, tau: seq<int>, f: nat, k: int)
    requires AreRuleSets(Een) && |tau| == |events| + |Een|
  {
    && 0 <= k < |Een| && EnabledEvents(Een, t)[k] == f
    && forall x :: |events| <= x < |tau| ==> tau[|events| + k] <= tau[x]
  }

  /** Some choice of causes has a run in which f fires next. */
  ghost predicate MayFireNext(events: seq<nat>, m: Matrix, Een: seq<seq<nat>>, t: Tel, f: nat)
    requires AreRuleSets(Een) && IsMatrix(m, |events|)
  {
    exists c, tau :: IsChoice(events, RuleSets(Een), t, c, 0) && IsRun(events, m, Een, t, c, tau)
      && Begins(events, Een, t, tau, f)
  }

  /** The same of loose runs. */
  ghost predicate MayFireLoosely(events: seq<nat>, m: Matrix, Een: seq<seq<nat>>, t: Tel, f: nat)
    requires AreRuleSets(Een) && IsMatrix(m, |events|)
  {
    exists c :: IsChoice(events, RuleSets(Een), t, c, 0) && HasLooseRun(events, m, Een, t, c, f)
  }

  ghost predicate HasLooseRun(events: seq<nat>, m: Matrix, Een: seq<seq<nat>>, t: Tel, c: seq<nat>, f: nat)
    requires AreRuleSets(Een) && IsMatrix(m, |events|)
  {
    exists tau :: IsLooseRun(events, m, Een, t, c, tau) && Begins(events, Een, t, tau, f)
  }

  /** Adding the enabled events constrains the timings by exactly the lower bounds
      that are not skipped. */
  lemma ExtensionTimings(events: seq<nat>, m: Matrix, Een: seq<seq<nat>>, t: Tel, m': Matrix, tau: seq<int>)
    requires AreRuleSets(Een) && IsMatrix(m, |events|) && IsExtension(events, m, Een, t, m')
    requires |tau| == |events| + |Een|
    ensures Sat(m', tau) <==> Sat(m, tau[..|events|]) && LowersKept(events, Een, t, tau)
  {
    var o, n, en := |events|, |events| + |Een|, EnabledEvents(Een, t);
    if Sat(m', tau) {
      forall i, j | 0 <= i < o && 0 <= j < o
        ensures Allows(m[i][j], tau[..o][i] - tau[..o][j])
      {
        SatAt(m', tau, i, j);
      }
      forall k, e | 0 <= k < |Een| && WaitsFor(Een[k], t, e) && e in events && e !in en
        ensures LowerHolds(events, Een, t, tau, k, e)
      {
        var i := FirstIndex(events, e);
        SatAt(m', tau, i, o + k);
        assert m'[i][o + k] == LowerEntry(events, Een, t, RulesDone(Een, k, |Een|, []), i, k);
      }
    }
    if Sat(m, tau[..o]) && LowersKept(events, Een, t, tau) {
      forall i, j | 0 <= i < n && 0 <= j < n
        ensures Allows(m'[i][j], tau[i] - tau[j])
      {
        ExtensionEntryHolds(events, m, Een, t, m', tau, i, j);
      }
    }
  }

  lemma ExtensionEntryHolds(
      events: seq<nat>, m: Matrix, Een: seq<seq<nat>>, t: Tel, m': Matrix, tau: seq<int>, i: nat, j: nat)
    requires AreRuleSets(Een) && IsMatrix(m, |events|) && IsExtension(events, m, Een, t, m')
    requires |tau| == |events| + |Een| && i < |tau| && j < |tau|
    requires Sat(m, tau[..|events|]) && LowersKept(events, Een, t, tau)
    ensures Allows(m'[i][j], tau[i] - tau[j])
  {
    var o := |events|;
    if i < o && j < o {
      SatAt(m, tau[..o], i, j);
    } else if i < o {
      var k, e := j - o, events[i];
      assert m'[i][j] == LowerEntry(events, Een, t, RulesDone(Een, k, |Een|, []), i, k);
      if m'[i][j] != Unbounded {
        assert WaitsFor(Een[k], t, e) && e !in EnabledEvents(Een, t) && IsFirst(events, i);
        FirstIsUnique(events, e, i, FirstIndex(events, e));
        assert LowerHolds(events, Een, t, tau, k, e);
      }
    }
  }

  /** What keeps the bounds of a choice are the timings of the matrix it leads to. */
  lemma RunsAreTimings(
      events: seq<nat>, m0: Matrix, Een: seq<seq<nat>>, t: Tel, m: Matrix, c: seq<nat>, tau: seq<int>)
    requires AreRuleSets(Een) && IsMatrix(m0, |events|) && IsExtension(events, m0, Een, t, m)
    requires UppersOpen(m, events, EnabledEvents(Een, t), RuleSets(Een), t, 0)
    requires IsChoice(events, RuleSets(Een), t, c, 0) && |tau| == |events| + |Een|
    ensures KeepsBounds(events, m0, Een, t, c, tau)
       <==> Sat(Applied(m, events, EnabledEvents(Een, t), RuleSets(Een), t, c, 0), tau)
  {
    ExtensionTimings(events, m0, Een, t, m, tau);
    AppliedTimings(m, events, EnabledEvents(Een, t), RuleSets(Een), t, c, 0, tau);
  }

  /** A loose run that f begins is a timing that has f next. */
  lemma RunMeansNext(
      events: seq<nat>, m0: Matrix, Een: seq<seq<nat>>, t: Tel, c: seq<nat>, tau: seq<int>, f: nat, k: int)
    requires AreRuleSets(Een) && IsMatrix(m0, |events|) && |tau| == |events| + |Een| && 0 <= k < |Een|
    requires EnabledEvents(Een, t)[k] == f && KeepsBounds(events, m0, Een, t, c, tau)
    ensures IsLooseRun(events, m0, Een, t, c, tau) && BeginsAt(events, Een, t, tau, f, k)
       <==> ComesNext(tau, |events|, |events| + k)
  {
    var o := |events|;
    if ComesNext(tau, o, o + k) {
      forall i, j | 0 <= i < o && o <= j < |tau| ensures tau[i] <= tau[j] {
        assert tau[i] <= tau[o + k] <= tau[j];
      }
    }
  }

  lemma NextHasRun(events: seq<nat>, m0: Matrix, Een: seq<seq<nat>>, t: Tel, c: seq<nat>, tau: seq<int>, f: nat, k: int)
    requires AreRuleSets(Een) && IsMatrix(m0, |events|) && |tau| == |events| + |Een| && 0 <= k < |Een|
    requires EnabledEvents(Een, t)[k] == f && KeepsBounds(events, m0, Een, t, c, tau)
    requires ComesNext(tau, |events|, |events| + k)
    ensures HasLooseRun(events, m0, Een, t, c, f)
  {
    RunMeansNext(events, m0, Een, t, c, tau, f, k);
    assert Begins(events, Een, t, tau, f);
  }

  lemma RunIsNext(events: seq<nat>, m0: Matrix, Een: seq<seq<nat>>, t: Tel, c: seq<nat>, f: nat)
      returns (tau: seq<int>, k: int)
    requires AreRuleSets(Een) && IsMatrix(m0, |events|) && HasLooseRun(events, m0, Een, t, c, f)
    ensures |tau| == |events| + |Een| && 0 <= k < |Een| && EnabledEvents(Een, t)[k] == f
    ensures KeepsBounds(events, m0, Een, t, c, tau) && ComesNext(tau, |events|, |events| + k)
  {
    tau :| IsLooseRun(events, m0, Een, t, c, tau) && Begins(events, Een, t, tau, f);
    k :| BeginsAt(events, Een, t, tau, f, k);
    RunMeansNext(events, m0, Een, t, c, tau, f, k);
  }

  /** One choice: f can fire first under its bounds exactly if it begins a loose
      run. */
  lemma ChoiceRuns(events: seq<nat>, m0: Matrix, Een: seq<seq<nat>>, t: Tel, m: Matrix, c: seq<nat>, f: nat)
    requires AreRuleSets(Een) && IsMatrix(m0, |events|) && IsExtension(events, m0, Een, t, m)
    requires Ready(m, events, Een, t, 0) && IsChoice(events, RuleSets(Een), t, c, 0)
    ensures var evs, R := EnabledEvents(Een, t), RuleSets(Een); (
      FiresFirst(Applied(m, events, evs, R, t, c, 0), events, evs, f) <==> HasLooseRun(events, m0, Een, t, c, f))
  {
    var m' := Applied(m, events, EnabledEvents(Een, t), RuleSets(Een), t, c, 0);
    if FiresFirst(m', events, EnabledEvents(Een, t), f) {
      var tau, k := FirstTiming(m', events, EnabledEvents(Een, t), f);
      RunsAreTimings(events, m0, Een, t, m, c, tau);
      NextHasRun(events, m0, Een, t, c, tau, f, k);
    }
    if HasLooseRun(events, m0, Een, t, c, f) {
      var tau, k := RunIsNext(events, m0, Een, t, c, f);
      RunsAreTimings(events, m0, Een, t, m, c, tau);
      TimingIsFirst(m', events, EnabledEvents(Een, t), f, tau, k);
    }
  }

  /** Choices of causes and loose runs let the same events fire next. */
  lemma FiringIsRunning(events: seq<nat>, m0: Matrix, Een: seq<seq<nat>>, t: Tel, m: Matrix, f: nat)
    requires AreRuleSets(Een) && IsMatrix(m0, |events|) && IsExtension(events, m0, Een, t, m)
    requires Ready(m, events, Een, t, 0)
    ensures CanFireFrom(m, events, Een, t, 0, f) <==> MayFireLoosely(events, m0, Een, t, f)
  {
    var evs, R := EnabledEvents(Een, t), RuleSets(Een);
    if CanFireFrom(m, events, Een, t, 0, f) {
      var c := ChoiceOfCauses(m, events, evs, R, t, 0, f);
      ChoiceRuns(events, m0, Een, t, m, c, f);
    }
    if MayFireLoosely(events, m0, Een, t, f) {
      var c :| IsChoice(events, R, t, c, 0) && HasLooseRun(events, m0, Een, t, c, f);
      ChoiceRuns(events, m0, Een, t, m, c, f);
      ChoiceIsFound(m, events, evs, R, t, c, 0, f);
    }
  }

  lemma ExtensionIsReady(events: seq<nat>, m0: Matrix, Een: seq<seq<nat>>, t: Tel, m: Matrix)
    requires AreRulesOf(Een, t) && IsMatrix(m0, |events|) && Canonical(m0, |events|, 0, |events|)
    requires IsExtension(events, m0, Een, t, m)
    ensures Ready(m, events, Een, t, 0)
  {
    var o := |events|;
    forall i, k, j | 0 <= i < o && 0 <= k < o && 0 <= j < o
      ensures AtMostSum(m[i][j], m[i][k], m[k][j])
    {
      assert AtMostSum(m0[i][j], m0[i][k], m0[k][j]);
    }
  }

  // Runs and loose runs

  /** No rule that add skips holds its event back: its lower bound is at most 0. */
  ghost predicate NoBoundLost(events: seq<nat>, Een: seq<seq<nat>>, t: Tel)
    requires AreRuleSets(Een)
  {
    forall k, e :: 0 <= k < |Een| && WaitsFor(Een[k], t, e) && e in events && e in EnabledEvents(Een, t) ==>
      MeetsLower(t.lower(e, GetEnabled(Een[k], t)), 0)
  }

  lemma OrderKeepsLowers(events: seq<nat>, Een: seq<seq<nat>>, t: Tel, tau: seq<int>)
    requires AreRuleSets(Een) && |tau| == |events| + |Een| && InOrder(|events|, tau)
    requires LowersKept(events, Een, t, tau) && NoBoundLost(events, Een, t)
    ensures LowersHold(events, Een, t, tau)
  {
    forall k, e | 0 <= k < |Een| && WaitsFor(Een[k], t, e) && e in events
      ensures LowerHolds(events, Een, t, tau, k, e)
    {
      if e in EnabledEvents(Een, t) {
        assert tau[FirstIndex(events, e)] <= tau[|events| + k];
      }
    }
  }

  /** A run is a loose run, and the other way round if no bound is lost. */
  lemma RunsAreLoose(events: seq<nat>, m: Matrix, Een: seq<seq<nat>>, t: Tel, f: nat)
    requires AreRuleSets(Een) && IsMatrix(m, |events|)
    ensures MayFireNext(events, m, Een, t, f) ==> MayFireLoosely(events, m, Een, t, f)
    ensures NoBoundLost(events, Een, t) && MayFireLoosely(events, m, Een, t, f) ==> MayFireNext(events, m, Een, t, f)
  {
    if MayFireNext(events, m, Een, t, f) {
      var c, tau :| IsChoice(events, RuleSets(Een), t, c, 0) && IsRun(events, m, Een, t, c, tau)
        && Begins(events, Een, t, tau, f);
      assert HasLooseRun(events, m, Een, t, c, f);
    }
    if NoBoundLost(events, Een, t) && MayFireLoosely(events, m, Een, t, f) {
      var c :| IsChoice(events, RuleSets(Een), t, c, 0) && HasLooseRun(events, m, Een, t, c, f);
      var tau :| IsLooseRun(events, m, Een, t, c, tau) && Begins(events, Een, t, tau, f);
      OrderKeepsLowers(events, Een, t, tau);
    }
  }
}
