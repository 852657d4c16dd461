/** An event that is enabled again while an enabled event still waits for its
    last firing: the early exit of combinatorial_search then loses events. */
module EnabledCauses {
  import opened Dbm
  import opened Zones
  import opened Closure
  import opened Sequences
  import opened TimedRules
  import opened Posets
  import opened CausalChoices
  import opened NeverFirst
  import opened SearchPlan
  import opened CausalSearch
  import opened Runs
  import opened FireableEvents

  // A cause that is enabled again

  /** If all rules of event q wait for event k, and k comes next in some timing,
      then k is taken never to come first. */
  lemma SkippedIsExpired(
      m: Matrix, events: seq<nat>, evs: seq<nat>, R: seq<set<nat>>, t: Tel, tau: seq<int>, k: nat, q: nat)
    requires Shape(m, events, evs, R) && |tau| == |m| && k < |evs| && Distinct(evs) && q < |evs|
    requires Sat(m, tau) && ComesNext(tau, |events|, |events| + k)
    requires forall r :: r in R[q] ==> t.enabling(r) == evs[k]
    ensures IsNeverFirst(m, events, evs, R, t, evs[k])
  {
    NextMeetsBounds(m, events, evs, k, tau);
    var m' := WithFirst(m, events, evs, evs[k]);
    TimingIsFirst(m', events, evs, evs[k], tau, k);
    FiresFirstIsConsistent(m', events, evs, evs[k]);
    assert AllExpired(events + evs, FullClosure(m', |m|), R[q], t, evs[q], evs[k]);
  }

  // The search stops in the first configuration

  lemma {:induction false} FirstConfigurationStops(
      m: Matrix, events: seq<nat>, evs: seq<nat>, R: seq<set<nat>>, X: seq<seq<nat>>, t: Tel, c: seq<nat>, p: nat,
      s: Gathered)
    requires Shape(m, events, evs, R) && |X| == |evs| && p <= |evs| && IsChoice(events, R, t, c, p) && !s.done
    requires forall q :: p <= q < |evs| ==> X[q] != [] && X[q][0] == c[q]
    requires Checked(Applied(m, events, evs, R, t, c, p), events, evs, R, t, s).done
    ensures SearchCauses(m, events, evs, R, X, t, p, s) ==
      Checked(Applied(m, events, evs, R, t, c, p), events, evs, R, t, s)
    decreases |evs| - p
  {
    if p < |evs| {
      var m' := WithCause(m, events, evs, t, p, c[p]);
      FirstConfigurationStops(m', events, evs, R, X, t, c, p + 1, s);
      assert SearchCauses(m, events, evs, R, X, t, p, s) ==
        Explore(m, events, evs, R, X, t, p, X[p][1..], SearchCauses(m', events, evs, R, X, t, p + 1, s));
    }
  }

  lemma {:induction false} ChoiceSetsOnlyUppers(
      m: Matrix, events: seq<nat>, evs: seq<nat>, R: seq<set<nat>>, t: Tel, c: seq<nat>, p: nat)
    requires Shape(m, events, evs, R) && p <= |evs| && IsChoice(events, R, t, c, p)
    ensures SameButUppers(m, Applied(m, events, evs, R, t, c, p), |m|, |events|)
    decreases |evs| - p
  {
    if p < |evs| {
      ChoiceSetsUppers(m, events, evs, R, t, p, c[p]);
      ChoiceSetsOnlyUppers(WithCause(m, events, evs, t, p, c[p]), events, evs, R, t, c, p + 1);
    }
  }

  /** A configuration whose late events are all counted as ones that can never
      fire first ends the search. */
  lemma CountedLateEventsStop(m: Matrix, events: seq<nat>, evs: seq<nat>, R: seq<set<nat>>, t: Tel, s: Gathered)
    requires Shape(m, events, evs, R) && Consistent(m, |m|, |events|) && s.cannotFire == -1
    requires LateEvents(m, events, evs) != {}
    requires forall f :: f in LateEvents(m, events, evs) ==> IsNeverFirst(m, events, evs, R, t, f)
    ensures Checked(m, events, evs, R, t, s).done
    ensures Checked(m, events, evs, R, t, s).first == s.first + EarlyEvents(m, events, evs)
  {
    var late := LateEvents(m, events, evs);
    assert NeverFirsts(m, events, evs, R, t, late) == late;
  }

  ghost predicate StartsWith(X: seq<seq<nat>>, c: seq<nat>) {
    |X| == |c| && forall q :: 0 <= q < |c| ==> X[q] != [] && X[q][0] == c[q]
  }

  /** c chooses the first causes that the search tries. */
  ghost predicate IsFirstChoice(
      events: seq<nat>, m0: Matrix, Een: seq<seq<nat>>, t: Tel, m: Matrix, c: seq<nat>) {
    && AreRulesOf(Een, t) && IsMatrix(m0, |events|) && IsExtension(events, m0, Een, t, m)
    && Ready(m, events, Een, t, 0)
    && IsChoice(events, RuleSets(Een), t, c, 0) && StartsWith(Plan(Een, events, t), c)
  }

  ghost function FirstMatrix(events: seq<nat>, Een: seq<seq<nat>>, t: Tel, m: Matrix, c: seq<nat>): (m': Matrix)
    requires AreRulesOf(Een, t) && IsMatrix(m, |events| + |Een|) && IsChoice(events, RuleSets(Een), t, c, 0)
    ensures IsMatrix(m', |events| + |Een|)
  {
    Applied(m, events, EnabledEvents(Een, t), RuleSets(Een), t, c, 0)
  }

  /** The events that come late under that choice. */
  ghost function FirstLate(events: seq<nat>, Een: seq<seq<nat>>, t: Tel, m: Matrix, c: seq<nat>): set<nat>
    requires AreRulesOf(Een, t) && IsMatrix(m, |events| + |Een|) && IsChoice(events, RuleSets(Een), t, c, 0)
  {
    LateEvents(FirstMatrix(events, Een, t, m, c), events, EnabledEvents(Een, t))
  }

  /** The first configuration is consistent, and all its late events are counted. */
  ghost predicate IsCountedFirst(
      events: seq<nat>, m0: Matrix, Een: seq<seq<nat>>, t: Tel, m: Matrix, c: seq<nat>) {
    && IsFirstChoice(events, m0, Een, t, m, c)
    && Consistent(FirstMatrix(events, Een, t, m, c), |m|, |events|) && FirstLate(events, Een, t, m, c) != {}
    && forall f :: f in FirstLate(events, Een, t, m, c) ==>
         IsNeverFirst(m, events, EnabledEvents(Een, t), RuleSets(Een), t, f)
  }

  lemma CountedFirstStops(
      events: seq<nat>, m0: Matrix, Een: seq<seq<nat>>, t: Tel, m: Matrix, c: seq<nat>, s: Gathered)
      returns (r: Gathered)
    requires IsCountedFirst(events, m0, Een, t, m, c) && s.cannotFire == -1
    ensures Checked(FirstMatrix(events, Een, t, m, c), events, EnabledEvents(Een, t), RuleSets(Een), t, s) == r
    ensures r.done
    ensures r.first == s.first + EarlyEvents(FirstMatrix(events, Een, t, m, c), events, EnabledEvents(Een, t))
  {
    var evs, R, m' := EnabledEvents(Een, t), RuleSets(Een), FirstMatrix(events, Een, t, m, c);
    ChoiceSetsOnlyUppers(m, events, evs, R, t, c, 0);
    forall f | f in LateEvents(m', events, evs) ensures IsNeverFirst(m', events, evs, R, t, f) {
      NeverFirstAlike(m, m', events, evs, R, t, f);
    }
    CountedLateEventsStop(m', events, evs, R, t, s);
    r := Checked(m', events, evs, R, t, s);
  }

  lemma FirstChoiceStops(
      m: Matrix, events: seq<nat>, Een: seq<seq<nat>>, t: Tel, c: seq<nat>, s: Gathered, r: Gathered)
    requires Ready(m, events, Een, t, 0) && IsChoice(events, RuleSets(Een), t, c, 0)
    requires StartsWith(Plan(Een, events, t), c) && !s.done && r.done
    requires Checked(FirstMatrix(events, Een, t, m, c), events, EnabledEvents(Een, t), RuleSets(Een), t, s) == r
    ensures SearchFrom(m, events, Een, t, 0, s) == r
  {
    FirstConfigurationStops(m, events, EnabledEvents(Een, t), RuleSets(Een), Plan(Een, events, t), t, c, 0, s);
  }

  /** The search then stops after its first configuration, and it has found
      everything exactly if no late event of that configuration begins a loose run. */
  lemma CountedFirstIsCompleteIff(
      events: seq<nat>, m0: Matrix, Een: seq<seq<nat>>, t: Tel, m: Matrix, c: seq<nat>)
    requires IsCountedFirst(events, m0, Een, t, m, c)
    ensures (forall f :: MayFireLoosely(events, m0, Een, t, f) ==>
               f in SearchFrom(m, events, Een, t, 0, Gathered(false, {}, -1)).first)
       <==> (forall f :: f in FirstLate(events, Een, t, m, c) ==> !MayFireLoosely(events, m0, Een, t, f))
  {
    var s := Gathered(false, {}, -1);
    var r := CountedFirstStops(events, m0, Een, t, m, c, s);
    FirstChoiceStops(m, events, Een, t, c, s, r);
    forall f
      ensures MayFireLoosely(events, m0, Een, t, f) ==> f in r.first || f in FirstLate(events, Een, t, m, c)
      ensures f in FirstLate(events, Een, t, m, c) ==> f !in r.first
    {
      FirstsAreLoose(events, m0, Een, t, m, f);
    }
  }

  /** If the first configuration is consistent and no event is late in it, the
      search is over at once and has found all enabled events. */
  lemma NoneLateFindsAll(
      events: seq<nat>, m0: Matrix, Een: seq<seq<nat>>, t: Tel, m: Matrix, c: seq<nat>, s: Gathered)
    requires IsFirstChoice(events, m0, Een, t, m, c) && !s.done
    requires Consistent(FirstMatrix(events, Een, t, m, c), |m|, |events|) && FirstLate(events, Een, t, m, c) == {}
    ensures SearchFrom(m, events, Een, t, 0, s) ==
      Gathered(true, s.first + (set f | f in EnabledEvents(Een, t)), s.cannotFire)
  {
    var evs, m' := EnabledEvents(Een, t), FirstMatrix(events, Een, t, m, c);
    forall f | f in evs ensures f in EarlyEvents(m', events, evs) {
      assert f !in LateEvents(m', events, evs);
    }
    assert EarlyEvents(m', events, evs) == set f | f in evs;
    FirstChoiceStops(m, events, Een, t, c, s, Checked(m', events, evs, RuleSets(Een), t, s));
  }

  /** All rules of event q wait for e, which is enabled again, and e is the only
      event that comes late under the first choice. */
  ghost predicate IsOnlyLate(
      events: seq<nat>, m0: Matrix, Een: seq<seq<nat>>, t: Tel, m: Matrix, c: seq<nat>, e: nat, q: nat) {
    && IsFirstChoice(events, m0, Een, t, m, c)
    && q < |Een| && (forall r :: r in Een[q] ==> t.enabling(r) == e)
    && Consistent(FirstMatrix(events, Een, t, m, c), |m|, |events|) && FirstLate(events, Een, t, m, c) == {e}
  }

  /** A loose run that e begins is a timing of the matrix before any cause is chosen. */
  lemma NextTiming(events: seq<nat>, m0: Matrix, Een: seq<seq<nat>>, t: Tel, m: Matrix, e: nat)
      returns (tau: seq<int>, k: nat)
    requires AreRuleSets(Een) && IsMatrix(m0, |events|) && IsExtension(events, m0, Een, t, m)
    requires MayFireLoosely(events, m0, Een, t, e)
    ensures |tau| == |events| + |Een| && k < |Een| && EnabledEvents(Een, t)[k] == e
    ensures Sat(m, tau) && ComesNext(tau, |events|, |events| + k)
  {
    var c :| IsChoice(events, RuleSets(Een), t, c, 0) && HasLooseRun(events, m0, Een, t, c, e);
    tau, k := RunIsNext(events, m0, Een, t, c, e);
    ExtensionTimings(events, m0, Een, t, m, tau);
  }

  lemma SkippedIsNeverFirst(
      events: seq<nat>, m0: Matrix, Een: seq<seq<nat>>, t: Tel, m: Matrix, e: nat, q: nat)
    requires AreRulesOf(Een, t) && IsMatrix(m0, |events|) && IsExtension(events, m0, Een, t, m) && q < |Een|
    requires (forall r :: r in Een[q] ==> t.enabling(r) == e) && MayFireLoosely(events, m0, Een, t, e)
    ensures IsNeverFirst(m, events, EnabledEvents(Een, t), RuleSets(Een), t, e)
  {
    var tau, k := NextTiming(events, m0, Een, t, m, e);
    SkippedIsExpired(m, events, EnabledEvents(Een, t), RuleSets(Een), t, tau, k, q);
  }

  lemma OnlyLateIsCounted(
      events: seq<nat>, m0: Matrix, Een: seq<seq<nat>>, t: Tel, m: Matrix, c: seq<nat>, e: nat, q: nat)
    requires IsOnlyLate(events, m0, Een, t, m, c, e, q) && MayFireLoosely(events, m0, Een, t, e)
    ensures IsCountedFirst(events, m0, Een, t, m, c)
  {
    SkippedIsNeverFirst(events, m0, Een, t, m, e, q);
    assert e in FirstLate(events, Een, t, m, c);
  }

  /** Then e is counted, and the search never finds it, even if e may fire next. */
  lemma SkippedIsMissed(
      events: seq<nat>, m0: Matrix, Een: seq<seq<nat>>, t: Tel, m: Matrix, c: seq<nat>, e: nat, q: nat, s: Gathered)
    requires IsOnlyLate(events, m0, Een, t, m, c, e, q) && MayFireLoosely(events, m0, Een, t, e)
    requires s.cannotFire == -1 && !s.done && e !in s.first
    ensures e !in SearchFrom(m, events, Een, t, 0, s).first
  {
    OnlyLateIsCounted(events, m0, Een, t, m, c, e, q);
    CountedIsMissed(events, m0, Een, t, m, c, e, s);
  }

  lemma CountedIsMissed(
      events: seq<nat>, m0: Matrix, Een: seq<seq<nat>>, t: Tel, m: Matrix, c: seq<nat>, e: nat, s: Gathered)
    requires IsCountedFirst(events, m0, Een, t, m, c) && e in FirstLate(events, Een, t, m, c)
    requires s.cannotFire == -1 && !s.done && e !in s.first
    ensures e !in SearchFrom(m, events, Een, t, 0, s).first
  {
    var r := CountedFirstStops(events, m0, Een, t, m, c, s);
    FirstChoiceStops(m, events, Een, t, c, s, r);
  }

  // An example

  // Events 0, 1 and 2 have fired, 1 and 2 at the same time and 0 up to 10
  // later.  Event 3 waits for 0 or 1, event 2 for 0, event 4 for 2.

  predicate InPast(tau: seq<int>)
    requires |tau| >= 3
  {
    tau[1] == tau[2] <= tau[0] <= tau[1] + 10
  }

  ghost predicate IsPast(events: seq<nat>, m0: Matrix) {
    && events == [0, 1, 2] && IsMatrix(m0, 3) && Canonical(m0, 3, 0, 3)
    && forall tau: seq<int> {:trigger Sat(m0, tau)} :: |tau| == 3 ==> (Sat(m0, tau) <==> InPast(tau))
  }

  ghost predicate AreLateRules(Een: seq<seq<nat>>, t: Tel) {
    && Een == [[0, 1], [2], [3]]
    && t.enabling(0) == 0 && t.enabling(1) == 1 && t.enabling(2) == 0 && t.enabling(3) == 2
    && t.enabled(0) == 3 && t.enabled(1) == 3 && t.enabled(2) == 2 && t.enabled(3) == 4
    && t.lower(0, 3) == Fin(0) && t.lower(1, 3) == t.lower(0, 2) == Fin(4) && t.lower(2, 4) == Fin(0)
    && t.upper(0, 3) == Fin(1) && t.upper(1, 3) == t.upper(0, 2) == Fin(20) && t.upper(2, 4) == Fin(6)
  }

  /** There are such a past and such rules. */
  lemma LateExample() returns (events: seq<nat>, m0: Matrix, Een: seq<seq<nat>>, t: Tel)
    ensures IsPast(events, m0) && AreLateRules(Een, t)
  {
    events, Een := [0, 1, 2], [[0, 1], [2], [3]];
    m0 := [[Fin(0), Fin(10), Fin(10)], [Fin(0), Fin(0), Fin(0)], [Fin(0), Fin(0), Fin(0)]];
    t := Tel(
      r => if r == 3 then 2 else if r == 1 then 1 else 0,
      r => if r == 3 then 4 else if r == 2 then 2 else 3,
      (e, f) => if e == 1 || f == 2 then Fin(4) else Fin(0),
      (e, f) => if e == 1 || f == 2 then Fin(20) else if f == 3 then Fin(1) else Fin(6));
    PastTimings(m0);
  }

  lemma PastTimings(m: Matrix)
    requires IsMatrix(m, 3) && m[0][0] == m[1][1] == m[2][2] == Fin(0)
    requires m[0][1] == m[0][2] == Fin(10) && m[1][0] == m[1][2] == m[2][0] == m[2][1] == Fin(0)
    ensures forall tau: seq<int> {:trigger Sat(m, tau)} :: |tau| == 3 ==> (Sat(m, tau) <==> InPast(tau))
  {
    forall tau: seq<int> | |tau| == 3
      ensures Sat(m, tau) <==> InPast(tau)
    {
      if Sat(m, tau) {
        SatAt(m, tau, 0, 1);
        SatAt(m, tau, 1, 2);
        SatAt(m, tau, 2, 1);
        SatAt(m, tau, 1, 0);
      }
    }
  }

  lemma LateRulesAreRules(Een: seq<seq<nat>>, t: Tel)
    requires AreLateRules(Een, t)
    ensures AreRulesOf(Een, t) && EnabledEvents(Een, t) == [3, 2, 4]
    ensures RuleSets(Een) == [{0, 1}, {2}, {3}]
  {
    assert EnabledEvents(Een, t)[0] == 3 && EnabledEvents(Een, t)[1] == 2 && EnabledEvents(Een, t)[2] == 4;
    assert RuleSets(Een)[0] == {0, 1} && RuleSets(Een)[1] == {2} && RuleSets(Een)[2] == {3};
  }

  lemma LatePlan(Een: seq<seq<nat>>, events: seq<nat>, t: Tel)
    requires AreLateRules(Een, t)
    ensures Plan(Een, events, t) == Een
  {
    forall k | 0 <= k < |Een| ensures Explored(Een[k], events, t) == Een[k] {
      assert forall r :: r in Een[k] ==> !Suffices(r, events, t);
    }
  }

  /** Event 3 waits for rule r, the others for their only rules. */
  ghost predicate IsLateChoice(c: seq<nat>, r: nat) {
    |c| == 3 && c[0] == r && c[1] == 2 && c[2] == 3 && (r == 0 || r == 1)
  }

  lemma LateChoiceIsChoice(events: seq<nat>, Een: seq<seq<nat>>, t: Tel, c: seq<nat>, r: nat)
    requires events == [0, 1, 2] && AreLateRules(Een, t) && IsLateChoice(c, r)
    ensures IsChoice(events, RuleSets(Een), t, c, 0)
  {
    LateRulesAreRules(Een, t);
  }

  /** The bounds that the chosen causes and the past impose. */
  predicate InLateBounds(tau: seq<int>, r: nat)
    requires |tau| == 6
  {
    InPast(tau) && LateLowers(tau) && LateUppers(tau, r)
  }

  predicate LateLowers(tau: seq<int>)
    requires |tau| == 6
  {
    tau[3] >= tau[0] && tau[3] >= tau[1] + 4 && tau[4] >= tau[0] + 4
  }

  predicate LateUppers(tau: seq<int>, r: nat)
    requires |tau| == 6
  {
    tau[3] <= (if r == 0 then tau[0] + 1 else tau[1] + 20) && tau[4] <= tau[0] + 20 && tau[5] <= tau[2] + 6
  }

  lemma LateBounds(
      events: seq<nat>, m0: Matrix, Een: seq<seq<nat>>, t: Tel, c: seq<nat>, r: nat, tau: seq<int>)
    requires IsPast(events, m0) && AreLateRules(Een, t) && AreRuleSets(Een) && IsLateChoice(c, r) && |tau| == 6
    ensures KeepsBounds(events, m0, Een, t, c, tau) <==> InLateBounds(tau, r)
  {
    LowersAreLate(events, Een, t, tau);
    UppersAreLate(events, Een, t, c, r, tau);
    assert tau[..3][0] == tau[0] && tau[..3][1] == tau[1] && tau[..3][2] == tau[2];
  }

  lemma LowersAreLate(events: seq<nat>, Een: seq<seq<nat>>, t: Tel, tau: seq<int>)
    requires events == [0, 1, 2] && AreLateRules(Een, t) && AreRuleSets(Een) && |tau| == 6
    ensures LowersKept(events, Een, t, tau) <==> LateLowers(tau)
  {
    LateRulesAreRules(Een, t);
    assert WaitsFor(Een[0], t, 0) by { assert t.enabling(Een[0][0]) == 0; }
    assert WaitsFor(Een[0], t, 1) by { assert t.enabling(Een[0][1]) == 1; }
    assert WaitsFor(Een[1], t, 0) by { assert t.enabling(Een[1][0]) == 0; }
    assert FirstIndex(events, 0) == 0 && FirstIndex(events, 1) == 1;
    if LowersKept(events, Een, t, tau) {
      assert LowerHolds(events, Een, t, tau, 0, 0);
      assert LowerHolds(events, Een, t, tau, 0, 1);
      assert LowerHolds(events, Een, t, tau, 1, 0);
    }
    if LateLowers(tau) {
      forall k, e | 0 <= k < |Een| && WaitsFor(Een[k], t, e) && e in events && e !in EnabledEvents(Een, t)
        ensures LowerHolds(events, Een, t, tau, k, e)
      {
        assert (k == 0 && (e == 0 || e == 1)) || (k == 1 && e == 0);
      }
    }
  }

  lemma UppersAreLate(events: seq<nat>, Een: seq<seq<nat>>, t: Tel, c: seq<nat>, r: nat, tau: seq<int>)
    requires events == [0, 1, 2] && AreLateRules(Een, t) && AreRuleSets(Een) && IsLateChoice(c, r) && |tau| == 6
    ensures UppersHold(events, EnabledEvents(Een, t), t, c, tau, 0) <==> LateUppers(tau, r)
  {
    LateRulesAreRules(Een, t);
    var evs := EnabledEvents(Een, t);
    assert FirstIndex(events, 0) == 0 && FirstIndex(events, 1) == 1 && FirstIndex(events, 2) == 2;
    OneMoreUpper(events, evs, t, c, tau, 0);
    OneMoreUpper(events, evs, t, c, tau, 1);
    OneMoreUpper(events, evs, t, c, tau, 2);
  }

  /** Timings in these bounds that have event k next. */
  ghost predicate IsLateRun(tau: seq<int>, r: nat, k: nat) {
    |tau| == 6 && k < 3 && InLateBounds(tau, r) && ComesNext(tau, 3, 3 + k)
  }

  lemma LateRun(
      events: seq<nat>, m0: Matrix, Een: seq<seq<nat>>, t: Tel, c: seq<nat>, r: nat, tau: seq<int>, k: nat)
    requires IsPast(events, m0) && AreLateRules(Een, t) && AreRuleSets(Een) && IsLateChoice(c, r)
    requires IsLateRun(tau, r, k)
    ensures HasLooseRun(events, m0, Een, t, c, EnabledEvents(Een, t)[k])
  {
    LateBounds(events, m0, Een, t, c, r, tau);
    NextHasRun(events, m0, Een, t, c, tau, EnabledEvents(Een, t)[k], k);
  }

  lemma LateRuns() returns (tau: seq<int>, tau': seq<int>)
    ensures IsLateRun(tau, 0, 0) && IsLateRun(tau, 0, 2) && IsLateRun(tau', 1, 1)
  {
    tau, tau' := [3, 0, 0, 4, 7, 4], [0, 0, 0, 4, 4, 5];
  }

  // The configuration in which event 3 waits for event 0

  /** Some run begins with event 3 and some with event 4. */
  lemma FirstRuns(events: seq<nat>, m0: Matrix, Een: seq<seq<nat>>, t: Tel, c: seq<nat>)
    requires IsPast(events, m0) && AreLateRules(Een, t) && AreRuleSets(Een) && IsLateChoice(c, 0)
    ensures HasLooseRun(events, m0, Een, t, c, 3) && HasLooseRun(events, m0, Een, t, c, 4)
  {
    var tau, _ := LateRuns();
    LateRulesAreRules(Een, t);
    LateRun(events, m0, Een, t, c, 0, tau, 0);
    LateRun(events, m0, Een, t, c, 0, tau, 2);
  }

  /** No run begins with event 2: event 0 is at least 3 and event 2 at least 7
      after event 2 last fired, and event 4 at most 6. */
  lemma TwoIsLate(events: seq<nat>, m0: Matrix, Een: seq<seq<nat>>, t: Tel, c: seq<nat>)
    requires IsPast(events, m0) && AreLateRules(Een, t) && AreRulesOf(Een, t) && IsLateChoice(c, 0)
    ensures !HasLooseRun(events, m0, Een, t, c, 2)
  {
    if HasLooseRun(events, m0, Een, t, c, 2) {
      var tau, k := RunIsNext(events, m0, Een, t, c, 2);
      LateBounds(events, m0, Een, t, c, 0, tau);
      LateRulesAreRules(Een, t);
    }
  }

  // When it waits for event 1 instead

  /** Event 2 may fire next. */
  lemma OtherRun(events: seq<nat>, m0: Matrix, Een: seq<seq<nat>>, t: Tel, c: seq<nat>)
    requires IsPast(events, m0) && AreLateRules(Een, t) && AreRuleSets(Een) && IsLateChoice(c, 1)
    ensures MayFireNext(events, m0, Een, t, 2) && MayFireLoosely(events, m0, Een, t, 2)
  {
    var _, tau := LateRuns();
    LateRulesAreRules(Een, t);
    LateRun(events, m0, Een, t, c, 1, tau, 1);
    LateChoiceIsChoice(events, Een, t, c, 1);
    LateLosesNothing(events, Een, t);
    RunsAreLoose(events, m0, Een, t, 2);
  }

  lemma LateLosesNothing(events: seq<nat>, Een: seq<seq<nat>>, t: Tel)
    requires events == [0, 1, 2] && AreLateRules(Een, t) && AreRuleSets(Een)
    ensures NoBoundLost(events, Een, t)
  {
    LateRulesAreRules(Een, t);
  }

  ghost predicate IsLateSearch(events: seq<nat>, m0: Matrix, Een: seq<seq<nat>>, t: Tel, m: Matrix, c: seq<nat>) {
    && IsPast(events, m0) && AreLateRules(Een, t) && AreRuleSets(Een) && IsLateChoice(c, 0)
    && IsExtension(events, m0, Een, t, m) && Ready(m, events, Een, t, 0)
    && IsChoice(events, RuleSets(Een), t, c, 0)
  }

  /** There event 2 is late and the others are not. */
  lemma LateConfiguration(events: seq<nat>, m0: Matrix, Een: seq<seq<nat>>, t: Tel, m: Matrix, c: seq<nat>, p: nat)
    requires IsLateSearch(events, m0, Een, t, m, c) && p == 0
    ensures var evs := EnabledEvents(Een, t); var m' := Applied(m, events, evs, RuleSets(Een), t, c, p);
      !FiresFirst(m', events, evs, 2) && FiresFirst(m', events, evs, 3) && FiresFirst(m', events, evs, 4)
  {
    FirstRuns(events, m0, Een, t, c);
    TwoIsLate(events, m0, Een, t, c);
    ChoiceRuns(events, m0, Een, t, m, c, 2);
    ChoiceRuns(events, m0, Een, t, m, c, 3);
    ChoiceRuns(events, m0, Een, t, m, c, 4);
  }

  lemma OneOfThreeIsLate(m: Matrix, events: seq<nat>, evs: seq<nat>)
    requires IsMatrix(m, |events| + |evs|) && |evs| == 3 && evs[0] == 3 && evs[1] == 2 && evs[2] == 4
    requires !FiresFirst(m, events, evs, 2) && FiresFirst(m, events, evs, 3) && FiresFirst(m, events, evs, 4)
    ensures LateEvents(m, events, evs) == {2} && EarlyEvents(m, events, evs) == {3, 4}
    ensures Consistent(m, |m|, |events|)
  {
    FiresFirstIsConsistent(m, events, evs, 3);
    assert forall f :: f in evs <==> f == 2 || f == 3 || f == 4;
  }

  lemma LatePlanStarts(Een: seq<seq<nat>>, events: seq<nat>, t: Tel, c: seq<nat>)
    requires AreLateRules(Een, t) && IsLateChoice(c, 0)
    ensures StartsWith(Plan(Een, events, t), c)
  {
    LatePlan(Een, events, t);
  }

  lemma LateChoices() returns (c: seq<nat>, c': seq<nat>)
    ensures IsLateChoice(c, 0) && IsLateChoice(c', 1)
  {
    c, c' := [0, 2, 3], [1, 2, 3];
  }

  lemma TwoIsOnlyLate(events: seq<nat>, m0: Matrix, Een: seq<seq<nat>>, t: Tel, m: Matrix, c: seq<nat>)
    requires IsLateSearch(events, m0, Een, t, m, c)
    ensures IsOnlyLate(events, m0, Een, t, m, c, 2, 2)
  {
    LatePlanStarts(Een, events, t, c);
    LateRulesAreRules(Een, t);
    LateConfiguration(events, m0, Een, t, m, c, 0);
    OneOfThreeIsLate(Applied(m, events, EnabledEvents(Een, t), RuleSets(Een), t, c, 0), events, EnabledEvents(Een, t));
  }

  /** Event 2 may fire next, and get_fireable_set does not return it. */
  lemma EnabledCauseIsMissed(
      events: seq<nat>, m0: Matrix, Een: seq<seq<nat>>, t: Tel, Ef0: set<nat>, Ef: set<nat>)
    requires IsPast(events, m0) && AreLateRules(Een, t) && AreRuleSets(Een)
    requires IsReturned(events, m0, Een, t, Ef0, Ef) && 2 !in Ef0
    ensures MayFireNext(events, m0, Een, t, 2) && 2 !in Ef
  {
    var m :| IsSearched(events, m0, Een, t, m, Ef0, Ef);
    var c, c' := LateChoices();
    LateChoiceIsChoice(events, Een, t, c, 0);
    OtherRun(events, m0, Een, t, c');
    TwoIsOnlyLate(events, m0, Een, t, m, c);
    SkippedIsMissed(events, m0, Een, t, m, c, 2, 2, Gathered(false, Ef0, -1));
  }
}
