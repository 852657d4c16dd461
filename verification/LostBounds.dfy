/** When POSET::add keeps all lower bounds of the enabled events, and what
    get_fireable_set returns when it does not. */
module LostBounds {
  import opened Dbm
  import opened TimedRules
  import opened Posets
  import opened CausalChoices
  import opened SearchPlan
  import opened Runs
  import opened FireableEvents

  /** tau is a timing, with no enabled event before a fired one, of some canonical
      past with the enabled events added. */
  ghost predicate IsAdded(events: seq<nat>, Een: seq<seq<nat>>, t: Tel, m0: Matrix, m: Matrix, tau: seq<int>)
    requires AreRuleSets(Een)
  {
    && IsMatrix(m0, |events|) && Canonical(m0, |events|, 0, |events|) && IsExtension(events, m0, Een, t, m)
    && |tau| == |events| + |Een| && Sat(m, tau) && InOrder(|events|, tau)
  }

  /** All such timings, whatever the past, keep all lower bounds if and only if no
      rule that is skipped has a lower bound above 0. */
  lemma AddKeepsLowersIff(events: seq<nat>, Een: seq<seq<nat>>, t: Tel)
    requires AreRuleSets(Een)
    ensures (forall m0, m, tau :: IsAdded(events, Een, t, m0, m, tau) ==> LowersHold(events, Een, t, tau))
       <==> NoBoundLost(events, Een, t)
  {
    if NoBoundLost(events, Een, t) {
      forall m0, m, tau | IsAdded(events, Een, t, m0, m, tau) ensures LowersHold(events, Een, t, tau) {
        ExtensionTimings(events, m0, Een, t, m, tau);
        OrderKeepsLowers(events, Een, t, tau);
      }
    } else {
      var k, e :| 0 <= k < |Een| && WaitsFor(Een[k], t, e) && e in events && e in EnabledEvents(Een, t)
        && !MeetsLower(t.lower(e, GetEnabled(Een[k], t)), 0);
      var m0, m, tau := LateCause(events, Een, t, e);
      assert !LowerHolds(events, Een, t, tau, k, e);
    }
  }

  /** Any event that is enabled again may have fired just now, at the same time
      as all enabled events fire, if the others fired early enough. */
  lemma LateCause(events: seq<nat>, Een: seq<seq<nat>>, t: Tel, e: nat) returns (m0: Matrix, m: Matrix, tau: seq<int>)
    requires AreRuleSets(Een) && e in events && e in EnabledEvents(Een, t)
    ensures IsAdded(events, Een, t, m0, m, tau)
    ensures tau[FirstIndex(events, e)] == 0 && forall j :: |events| <= j < |tau| ==> tau[j] == 0
  {
    var o, n := |events|, |events| + |Een|;
    m0 := seq(o, i requires 0 <= i < o => seq(o, j requires 0 <= j < o => if i == j then Fin(0) else Unbounded));
    m := Extended(events, m0, Een, t);
    tau := seq(n, i requires 0 <= i < n =>
      if i >= o || i == FirstIndex(events, e) then 0 else -Enough(Een, t, events[i], |Een|));
    forall k, e' | 0 <= k < |Een| && WaitsFor(Een[k], t, e') && e' in events && e' !in EnabledEvents(Een, t)
      ensures LowerHolds(events, Een, t, tau, k, e')
    {
      EnoughCovers(Een, t, e', |Een|, k);
    }
    ExtensionTimings(events, m0, Een, t, m, tau);
  }

  /** The matrix that add leaves. */
  ghost function Extended(events: seq<nat>, m0: Matrix, Een: seq<seq<nat>>, t: Tel): (m: Matrix)
    requires AreRuleSets(Een) && IsMatrix(m0, |events|)
    ensures IsExtension(events, m0, Een, t, m)
  {
    var o, n := |events|, |events| + |Een|;
    seq(n, i requires 0 <= i < n => seq(n, j requires 0 <= j < n =>
      if i < o && j < o then m0[i][j]
      else if i < o then LowerEntry(events, Een, t, RulesDone(Een, j - o, |Een|, []), i, j - o)
      else if i == j then Fin(0) else Unbounded))
  }

  /** No lower bound of a rule that waits for e is larger. */
  ghost function Enough(Een: seq<seq<nat>>, t: Tel, e: nat, k: nat): (b: int)
    requires AreRuleSets(Een) && k <= |Een|
    ensures b >= 0
  {
    if k == 0 then 0
    else
      var a := t.lower(e, GetEnabled(Een[k - 1], t));
      Enough(Een, t, e, k - 1) + if a.Fin? then if a.v > 0 then a.v else 0 else 2147483646
  }

  lemma {:induction false} EnoughCovers(Een: seq<seq<nat>>, t: Tel, e: nat, n: nat, k: nat)
    requires AreRuleSets(Een) && k < n <= |Een|
    ensures MeetsLower(t.lower(e, GetEnabled(Een[k], t)), Enough(Een, t, e, n))
  {
    if k < n - 1 {
      EnoughCovers(Een, t, e, n - 1, k);
    }
  }

  // An example

  // Events 1 and 2 have fired together and 2 is enabled again, within 3 of 1.
  // Event 4 waits for 2 and cannot come before 5, but add does not bound it.

  ghost predicate IsLostPast(events: seq<nat>, m0: Matrix) {
    && events == [1, 2] && IsMatrix(m0, 2) && Canonical(m0, 2, 0, 2)
    && forall tau: seq<int> {:trigger Sat(m0, tau)} :: |tau| == 2 ==> (Sat(m0, tau) <==> tau[0] == tau[1])
  }

  ghost predicate AreLostRules(Een: seq<seq<nat>>, t: Tel) {
    && Een == [[0], [1]]
    && t.enabling(0) == 2 && t.enabled(0) == 4 && t.lower(2, 4) == Fin(5) && t.upper(2, 4) == Fin(6)
    && t.enabling(1) == 1 && t.enabled(1) == 2 && t.lower(1, 2) == Fin(0) && t.upper(1, 2) == Fin(3)
  }

  lemma LostExample() returns (events: seq<nat>, m0: Matrix, Een: seq<seq<nat>>, t: Tel)
    ensures IsLostPast(events, m0) && AreLostRules(Een, t)
  {
    events, m0, Een := [1, 2], [[Fin(0), Fin(0)], [Fin(0), Fin(0)]], [[0], [1]];
    t := Tel(
      r => if r == 0 then 2 else 1, r => if r == 0 then 4 else 2,
      (e, f) => if e == 2 then Fin(5) else Fin(0), (e, f) => if e == 2 then Fin(6) else Fin(3));
    AllZeroMeansTogether(m0, 2);
  }

  lemma LostRulesAreRules(Een: seq<seq<nat>>, t: Tel)
    requires AreLostRules(Een, t)
    ensures AreRulesOf(Een, t) && EnabledEvents(Een, t) == [4, 2] && RuleSets(Een) == [{0}, {1}]
  {
    assert EnabledEvents(Een, t)[0] == 4 && EnabledEvents(Een, t)[1] == 2;
    assert RuleSets(Een)[0] == {0} && RuleSets(Een)[1] == {1};
  }

  predicate InLostBounds(tau: seq<int>)
    requires |tau| == 4
  {
    tau[0] == tau[1] && tau[0] <= tau[3] <= tau[0] + 3 && tau[2] <= tau[1] + 6
  }

  lemma LostRuns(events: seq<nat>, m0: Matrix, Een: seq<seq<nat>>, t: Tel, c: seq<nat>, tau: seq<int>)
    requires IsLostPast(events, m0) && AreLostRules(Een, t) && AreRuleSets(Een) && |tau| == 4
    requires |c| == 2 && c[0] == 0 && c[1] == 1
    ensures KeepsBounds(events, m0, Een, t, c, tau) <==> InLostBounds(tau)
  {
    LostLowers(events, Een, t, tau);
    LostUppers(events, Een, t, c, tau);
    assert tau[..2][0] == tau[0] && tau[..2][1] == tau[1];
  }

  lemma LostLowers(events: seq<nat>, Een: seq<seq<nat>>, t: Tel, tau: seq<int>)
    requires events == [1, 2] && AreLostRules(Een, t) && AreRuleSets(Een) && |tau| == 4
    ensures LowersKept(events, Een, t, tau) <==> tau[3] >= tau[0]
    ensures LowersHold(events, Een, t, tau) ==> tau[2] >= tau[1] + 5
  {
    LostRulesAreRules(Een, t);
    assert WaitsFor(Een[0], t, 2) by { assert t.enabling(Een[0][0]) == 2; }
    assert WaitsFor(Een[1], t, 1) by { assert t.enabling(Een[1][0]) == 1; }
    assert FirstIndex(events, 1) == 0 && FirstIndex(events, 2) == 1;
    if LowersKept(events, Een, t, tau) {
      assert LowerHolds(events, Een, t, tau, 1, 1);
    }
    if LowersHold(events, Een, t, tau) {
      assert LowerHolds(events, Een, t, tau, 0, 2);
    }
    if tau[3] >= tau[0] {
      forall k, e | 0 <= k < |Een| && WaitsFor(Een[k], t, e) && e in events && e !in EnabledEvents(Een, t)
        ensures LowerHolds(events, Een, t, tau, k, e)
      {
        assert k == 1 && e == 1;
      }
    }
  }

  lemma LostUppers(events: seq<nat>, Een: seq<seq<nat>>, t: Tel, c: seq<nat>, tau: seq<int>)
    requires events == [1, 2] && AreLostRules(Een, t) && AreRuleSets(Een) && |tau| == 4
    requires |c| == 2 && c[0] == 0 && c[1] == 1
    ensures UppersHold(events, EnabledEvents(Een, t), t, c, tau, 0) <==> tau[2] <= tau[1] + 6 && tau[3] <= tau[0] + 3
  {
    LostRulesAreRules(Een, t);
    var evs := EnabledEvents(Een, t);
    assert FirstIndex(events, 1) == 0 && FirstIndex(events, 2) == 1;
    OneMoreUpper(events, evs, t, c, tau, 0);
    OneMoreUpper(events, evs, t, c, tau, 1);
  }

  lemma FourBegins(events: seq<nat>, Een: seq<seq<nat>>, t: Tel, tau: seq<int>)
    requires |events| == 2 && AreRuleSets(Een) && EnabledEvents(Een, t) == [4, 2] && |tau| == 4
    requires Begins(events, Een, t, tau, 4)
    ensures tau[2] <= tau[3]
  {
    var k :| BeginsAt(events, Een, t, tau, 4, k);
    assert k == 0;
  }

  /** No run begins with event 4: it comes 5 after event 2 last fired, and event 2
      fires again within 3. */
  lemma FourIsLate(events: seq<nat>, m0: Matrix, Een: seq<seq<nat>>, t: Tel)
    requires IsLostPast(events, m0) && AreLostRules(Een, t) && AreRuleSets(Een)
    ensures !MayFireNext(events, m0, Een, t, 4)
  {
    if MayFireNext(events, m0, Een, t, 4) {
      var c, tau :| IsChoice(events, RuleSets(Een), t, c, 0) && IsRun(events, m0, Een, t, c, tau)
        && Begins(events, Een, t, tau, 4);
      LostRulesAreRules(Een, t);
      LostLowers(events, Een, t, tau);
      LostRuns(events, m0, Een, t, c, tau);
      FourBegins(events, Een, t, tau);
    }
  }

  /** A loose run does: both fire at once. */
  lemma FourIsLoose(events: seq<nat>, m0: Matrix, Een: seq<seq<nat>>, t: Tel, c: seq<nat>, tau: seq<int>)
    requires IsLostPast(events, m0) && AreLostRules(Een, t) && AreRuleSets(Een) && |c| == 2 && c[0] == 0 && c[1] == 1
    requires |tau| == 4 && forall i :: 0 <= i < 4 ==> tau[i] == 0
    ensures MayFireLoosely(events, m0, Een, t, 4)
  {
    LostRulesAreRules(Een, t);
    LostRuns(events, m0, Een, t, c, tau);
    NextHasRun(events, m0, Een, t, c, tau, 4, 0);
    assert IsChoice(events, RuleSets(Een), t, c, 0);
  }

  /** get_fireable_set returns event 4, which begins no run. */
  lemma LostBoundIsReturned(
      events: seq<nat>, m0: Matrix, Een: seq<seq<nat>>, t: Tel, Ef0: set<nat>, Ef: set<nat>)
    requires IsLostPast(events, m0) && AreLostRules(Een, t) && AreRulesOf(Een, t)
    requires IsReturned(events, m0, Een, t, Ef0, Ef)
    ensures 4 in Ef && !MayFireNext(events, m0, Een, t, 4)
  {
    FourIsLate(events, m0, Een, t);
    FourIsLoose(events, m0, Een, t, [0, 1], [0, 0, 0, 0]);
    assert forall k :: 0 <= k < |Een| ==> |Explored(Een[k], events, t)| <= 1;
    ReturnedMeetsRuns(events, m0, Een, t, Ef0, Ef, 4);
  }
}
