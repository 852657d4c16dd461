/** What get_fireable_set of src/bap.cc computes, said on runs alone: which enabled
    events can come first in one, and when all of them are found. */
module FireableEvents {
  import opened Dbm
  import opened TimedRules
  import opened Posets
  import opened CausalChoices
  import opened NeverFirst
  import opened SearchPlan
  import opened CausalSearch
  import opened Runs

  // What the search finds

  lemma CausesShowInMatrix(events: seq<nat>, m0: Matrix, Een: seq<seq<nat>>, t: Tel, m: Matrix)
    requires AreRulesOf(Een, t) && IsMatrix(m0, |events|) && IsExtension(events, m0, Een, t, m)
    requires CausesAreOver(events, Een, t)
    ensures CausesComeBefore(m, events, EnabledEvents(Een, t), RuleSets(Een), t)
  {
    var evs, R, o := EnabledEvents(Een, t), RuleSets(Een), |events|;
    forall q, r | 0 <= q < |evs| && r in R[q] && t.enabling(r) in events
      ensures t.enabling(r) !in evs && AtMost(m[FirstIndex(events, t.enabling(r))][o + q], Fin(0))
    {
      var i, k := FirstIndex(events, t.enabling(r)), IndexOf(Een[q], r);
      assert WaitsFor(Een[q], t, t.enabling(r));
      assert m[i][o + q] == LowerEntry(events, Een, t, RulesDone(Een, q, |Een|, []), i, q);
    }
  }

  ghost function IndexOf(rules: seq<nat>, r: nat): (k: nat)
    requires r in rules
    ensures k < |rules| && rules[k] == r
  {
    if rules[0] == r then 0 else 1 + IndexOf(rules[1..], r)
  }

  /** A condition for the early exit to lose nothing: causes are over, or there
      is one cause to explore for each event, or no event is counted that some
      loose run begins with. */
  ghost predicate ExitIsSafe(events: seq<nat>, m0: Matrix, Een: seq<seq<nat>>, t: Tel, m: Matrix)
    requires AreRulesOf(Een, t) && IsMatrix(m0, |events|) && IsMatrix(m, |events| + |Een|)
  {
    || CausesAreOver(events, Een, t)
    || (forall k :: 0 <= k < |Een| ==> |Explored(Een[k], events, t)| <= 1)
    || (forall f :: MayFireLoosely(events, m0, Een, t, f) ==>
          !IsNeverFirst(m, events, EnabledEvents(Een, t), RuleSets(Een), t, f))
  }

  lemma SafeExitIsComplete(events: seq<nat>, m0: Matrix, Een: seq<seq<nat>>, t: Tel, m: Matrix, Ef0: set<nat>)
    requires AreRulesOf(Een, t) && IsMatrix(m0, |events|) && IsExtension(events, m0, Een, t, m)
    requires Ready(m, events, Een, t, 0) && ExitIsSafe(events, m0, Een, t, m)
    ensures SearchFrom(m, events, Een, t, 0, Gathered(false, Ef0, -1)).first ==
      Ef0 + Firsts(m, events, EnabledEvents(Een, t), RuleSets(Een), t, 0)
  {
    var evs, R, X, s := EnabledEvents(Een, t), RuleSets(Een), Plan(Een, events, t), Gathered(false, Ef0, -1);
    PlanIsPlan(Een, events, t);
    if CausesAreOver(events, Een, t) {
      CausesShowInMatrix(events, m0, Een, t, m);
      SearchIsCompleteWhenOver(m, events, evs, R, X, t, Ef0);
    } else if forall k :: 0 <= k < |Een| ==> |Explored(Een[k], events, t)| <= 1 {
      SingleCausesAreComplete(m, events, evs, R, X, t, 0, s);
    } else {
      forall f | f in Firsts(m, events, evs, R, t, 0) ensures !IsNeverFirst(m, events, evs, R, t, f) {
        FiringIsRunning(events, m0, Een, t, m, f);
      }
      SearchIsComplete(m, events, evs, R, X, t, s);
    }
  }

  lemma FirstsAreLoose(events: seq<nat>, m0: Matrix, Een: seq<seq<nat>>, t: Tel, m: Matrix, f: nat)
    requires AreRulesOf(Een, t) && IsMatrix(m0, |events|) && IsExtension(events, m0, Een, t, m)
    requires Ready(m, events, Een, t, 0)
    ensures f in Firsts(m, events, EnabledEvents(Een, t), RuleSets(Een), t, 0)
       <==> MayFireLoosely(events, m0, Een, t, f)
  {
    FiringIsRunning(events, m0, Een, t, m, f);
    if CanFireFrom(m, events, Een, t, 0, f) {
      OnlyEnabledFire(m, events, EnabledEvents(Een, t), RuleSets(Een), t, 0, f);
    }
  }

  /** With the early exit off, the search finds exactly the events that loose
      runs begin with; these are the ones that runs begin with if no bound is lost. */
  lemma FullSearchIsExact(events: seq<nat>, m0: Matrix, Een: seq<seq<nat>>, t: Tel, m: Matrix, Ef0: set<nat>, f: nat)
    requires AreRulesOf(Een, t) && IsMatrix(m0, |events|) && IsExtension(events, m0, Een, t, m)
    requires Ready(m, events, Een, t, 0)
    ensures var Ef := SearchFrom(m, events, Een, t, 0, Gathered(false, Ef0, 0)).first;
      && (f in Ef <==> f in Ef0 || MayFireLoosely(events, m0, Een, t, f))
      && (NoBoundLost(events, Een, t) ==> (f in Ef <==> f in Ef0 || MayFireNext(events, m0, Een, t, f)))
  {
    PlanIsPlan(Een, events, t);
    FullSearchIsComplete(m, events, EnabledEvents(Een, t), RuleSets(Een), Plan(Een, events, t), t, Ef0);
    FirstsAreLoose(events, m0, Een, t, m, f);
    RunsAreLoose(events, m0, Een, t, f);
  }

  /** With the exit on, it finds only such events, and all of them where the exit
      is safe. */
  lemma SearchMeetsRuns(events: seq<nat>, m0: Matrix, Een: seq<seq<nat>>, t: Tel, m: Matrix, Ef0: set<nat>, f: nat)
    requires AreRulesOf(Een, t) && IsMatrix(m0, |events|) && IsExtension(events, m0, Een, t, m)
    requires Ready(m, events, Een, t, 0)
    ensures var Ef := SearchFrom(m, events, Een, t, 0, Gathered(false, Ef0, -1)).first;
      && (f in Ef0 ==> f in Ef)
      && (f in Ef ==> f in Ef0 || MayFireLoosely(events, m0, Een, t, f))
      && (ExitIsSafe(events, m0, Een, t, m) && MayFireLoosely(events, m0, Een, t, f) ==> f in Ef)
  {
    PlanIsPlan(Een, events, t);
    SearchFinds(m, events, EnabledEvents(Een, t), RuleSets(Een), Plan(Een, events, t), t, 0, Gathered(false, Ef0, -1));
    FirstsAreLoose(events, m0, Een, t, m, f);
    if ExitIsSafe(events, m0, Een, t, m) {
      SafeExitIsComplete(events, m0, Een, t, m, Ef0);
    }
  }

  /** Ef is what the search returns on these events and rules. */
  ghost predicate IsReturned(
      events: seq<nat>, m0: Matrix, Een: seq<seq<nat>>, t: Tel, Ef0: set<nat>, Ef: set<nat>)
    requires AreRuleSets(Een) && IsMatrix(m0, |events|)
  {
    exists m :: IsSearched(events, m0, Een, t, m, Ef0, Ef)
  }

  ghost predicate IsSearched(
      events: seq<nat>, m0: Matrix, Een: seq<seq<nat>>, t: Tel, m: Matrix, Ef0: set<nat>, Ef: set<nat>)
    requires AreRuleSets(Een) && IsMatrix(m0, |events|)
  {
    && IsExtension(events, m0, Een, t, m) && Ready(m, events, Een, t, 0)
    && Ef == SearchFrom(m, events, Een, t, 0, Gathered(false, Ef0, -1)).first
  }

  /** The early exit is safe on these events and rules. */
  ghost predicate IsSafe(events: seq<nat>, m0: Matrix, Een: seq<seq<nat>>, t: Tel)
    requires AreRulesOf(Een, t) && IsMatrix(m0, |events|)
  {
    forall m :: IsExtension(events, m0, Een, t, m) ==> ExitIsSafe(events, m0, Een, t, m)
  }

  lemma ReturnedMeetsRuns(
      events: seq<nat>, m0: Matrix, Een: seq<seq<nat>>, t: Tel, Ef0: set<nat>, Ef: set<nat>, f: nat)
    requires AreRulesOf(Een, t) && IsMatrix(m0, |events|) && IsReturned(events, m0, Een, t, Ef0, Ef)
    ensures f in Ef0 ==> f in Ef
    ensures f in Ef ==> f in Ef0 || MayFireLoosely(events, m0, Een, t, f)
    ensures NoBoundLost(events, Een, t) && f in Ef ==> f in Ef0 || MayFireNext(events, m0, Een, t, f)
    ensures IsSafe(events, m0, Een, t) && MayFireLoosely(events, m0, Een, t, f) ==> f in Ef
    ensures IsSafe(events, m0, Een, t) && MayFireNext(events, m0, Een, t, f) ==> f in Ef
  {
    var m :| IsSearched(events, m0, Een, t, m, Ef0, Ef);
    SearchMeetsRuns(events, m0, Een, t, m, Ef0, f);
    RunsAreLoose(events, m0, Een, t, f);
  }

  /** Copies the poset, adds the enabled events and searches all causes.  Ef gains
      only events that begin a loose run, so a run if no bound is lost, and all
      of them where the early exit is safe. */
  method GetFireableSet(Een: array<seq<nat>>, sc: Poset, t: Tel, Ef0: set<nat>) returns (Ef: set<nat>)
    requires sc.Valid() && Canonical(Abs(sc.dbm), |sc.ptrMap|, 0, |sc.ptrMap|)
    requires AreRulesOf(Een[..], t)
    modifies Een
    ensures SamePlan(old(Een[..]), Een[..], sc.ptrMap, t) && OnlyPruned(old(Een[..]), Een[..], sc.ptrMap, t)
    ensures IsReturned(sc.ptrMap, Abs(sc.dbm), old(Een[..]), t, Ef0, Ef) && Ef0 <= Ef
    ensures forall f :: f in Ef ==> f in Ef0 || MayFireLoosely(sc.ptrMap, Abs(sc.dbm), old(Een[..]), t, f)
    ensures NoBoundLost(sc.ptrMap, old(Een[..]), t) ==>
      forall f :: f in Ef ==> f in Ef0 || MayFireNext(sc.ptrMap, Abs(sc.dbm), old(Een[..]), t, f)
    ensures IsSafe(sc.ptrMap, Abs(sc.dbm), old(Een[..]), t) ==>
      forall f :: MayFireLoosely(sc.ptrMap, Abs(sc.dbm), old(Een[..]), t, f) ==> f in Ef
    ensures IsSafe(sc.ptrMap, Abs(sc.dbm), old(Een[..]), t) ==>
      forall f :: MayFireNext(sc.ptrMap, Abs(sc.dbm), old(Een[..]), t, f) ==> f in Ef
  {
    ghost var events, m0, Een0 := sc.ptrMap, Abs(sc.dbm), Een[..];
    var Me := new Poset.Copy(sc);
    Me.Add(Een[..], t);
    ghost var m := Abs(Me.dbm);
    ExtensionIsReady(events, m0, Een0, t, m);
    var done, cannotFire;
    done, Ef, cannotFire := CombinatorialSearch(0, Een, t, Me, Ef0, -1, events);
    assert IsSearched(events, m0, Een0, t, m, Ef0, Ef);
    ReturnedIsSound(events, m0, Een0, t, Ef0, Ef);
  }

  lemma ReturnedIsSound(events: seq<nat>, m0: Matrix, Een: seq<seq<nat>>, t: Tel, Ef0: set<nat>, Ef: set<nat>)
    requires AreRulesOf(Een, t) && IsMatrix(m0, |events|) && IsReturned(events, m0, Een, t, Ef0, Ef)
    ensures forall f :: f in Ef ==> f in Ef0 || MayFireLoosely(events, m0, Een, t, f)
    ensures NoBoundLost(events, Een, t) ==> forall f :: f in Ef ==> f in Ef0 || MayFireNext(events, m0, Een, t, f)
    ensures Ef0 <= Ef
    ensures IsSafe(events, m0, Een, t) ==> forall f :: MayFireLoosely(events, m0, Een, t, f) ==> f in Ef
    ensures IsSafe(events, m0, Een, t) ==> forall f :: MayFireNext(events, m0, Een, t, f) ==> f in Ef
  {
    forall f
      ensures f in Ef ==> f in Ef0 || MayFireLoosely(events, m0, Een, t, f)
      ensures NoBoundLost(events, Een, t) && f in Ef ==> f in Ef0 || MayFireNext(events, m0, Een, t, f)
      ensures f in Ef0 ==> f in Ef
      ensures IsSafe(events, m0, Een, t) && MayFireLoosely(events, m0, Een, t, f) ==> f in Ef
      ensures IsSafe(events, m0, Een, t) && MayFireNext(events, m0, Een, t, f) ==> f in Ef
    {
      ReturnedMeetsRuns(events, m0, Een, t, Ef0, Ef, f);
    }
  }
}
