/** remove_over_bounded and combinatorial_search of src/bap.cc. */
module CausalSearch {
  import opened Dbm
  import opened TimedRules
  import opened Posets
  import opened CausalChoices
  import opened FireFirst
  import opened NeverFirst
  import opened SearchPlan

  /** Brings the first rule that makes the others superfluous, if there is one,
      to the front; the rules from the returned position on need no exploring. */
  method RemoveOverBounded(Een: array<seq<nat>>, p: nat, Me: Poset, t: Tel, ghost events: seq<nat>) returns (end: nat)
    requires AreRulesOf(Een[..], t) && p < Een.Length && Me.ptrMap == events + EnabledEvents(Een[..], t)
    modifies Een
    ensures SamePlan(old(Een[..]), Een[..], events, t)
    ensures Een[p] == Pruned(old(Een[p]), events, t)
    ensures forall k :: 0 <= k < Een.Length && k != p ==> Een[k] == old(Een[k])
    ensures end <= |Een[p]| && Een[p][..end] == Explored(old(Een[p]), events, t)
    ensures (forall r :: r in old(Een[p]) ==> !Suffices(r, events, t)) ==> end == |Een[p]| && Een[p] == old(Een[p])
    ensures forall i :: 0 <= i < |old(Een[p])| && IsFirstSufficient(old(Een[p]), events, t, i) ==>
      end == 1 && Een[p] == old(Een[p])[i := old(Een[p])[0]][0 := old(Een[p])[i]]
  {
    var rules := Een[p];
    for i := 0 to |rules|
      invariant Een[..] == old(Een[..])
      invariant forall k :: 0 <= k < i ==> !Suffices(rules[k], events, t)
    {
      var e, f := t.enabling(rules[i]), t.enabled(rules[i]);
      var inOld := Me.IsInPoset(e, Een.Length);
      assert Me.ptrMap[..|Me.ptrMap| - Een.Length] == events;
      if t.IsUnbounded(e, f) && inOld {
        ghost var before := Een[..];
        Een[p] := rules[i := rules[0]][0 := rules[i]];
        SwappedRules(before, Een[..], t, p, i);
        SwappedPlan(before, Een[..], events, t, p, i);
        assert Sufficient(rules, events, t) == i;
        return 1;
      }
    }
    assert Explored(rules, events, t) == rules[..|rules|];
    return |rules|;
  }

  ghost predicate IsFirstSufficient(rules: seq<nat>, events: seq<nat>, t: Tel, i: nat)
    requires i < |rules|
  {
    Suffices(rules[i], events, t) && forall k :: 0 <= k < i ==> !Suffices(rules[k], events, t)
  }

  lemma SwappedRules(Een: seq<seq<nat>>, Een': seq<seq<nat>>, t: Tel, p: nat, i: nat)
    requires AreRulesOf(Een, t) && p < |Een| && i < |Een[p]|
    requires Een' == Een[p := Een[p][i := Een[p][0]][0 := Een[p][i]]]
    ensures SameRules(Een, Een', t)
  {
    var rules, rules' := Een[p], Een'[p];
    assert rules'[0] == rules[i] && rules'[i] == if i == 0 then rules[i] else rules[0];
    forall r
      ensures r in rules <==> r in rules'
    {
      if r in rules {
        var k :| 0 <= k < |rules| && rules[k] == r;
        assert rules'[if k == 0 then i else if k == i then 0 else k] == r;
      }
      if r in rules' {
        var k :| 0 <= k < |rules| && rules'[k] == r;
        assert rules[if k == 0 then i else if k == i then 0 else k] == r;
      }
    }
    assert EnabledEvents(Een, t) == EnabledEvents(Een', t);
    forall k | 0 <= k < |Een|
      ensures RuleSets(Een)[k] == RuleSets(Een')[k]
    {
      assert forall r :: r in RuleSets(Een)[k] <==> r in RuleSets(Een')[k];
    }
  }

  lemma SwappedPlan(Een: seq<seq<nat>>, Een': seq<seq<nat>>, events: seq<nat>, t: Tel, p: nat, i: nat)
    requires p < |Een| && i < |Een[p]| && Een' == Een[p := Een[p][i := Een[p][0]][0 := Een[p][i]]]
    requires Suffices(Een[p][i], events, t) && forall k :: 0 <= k < i ==> !Suffices(Een[p][k], events, t)
    ensures Plan(Een, events, t) == Plan(Een', events, t)
    ensures Explored(Een[p], events, t) == Explored(Een'[p], events, t) == [Een[p][i]]
  {
    assert Sufficient(Een[p], events, t) == i;
    assert Een'[p][0] == Een[p][i] && Sufficient(Een'[p], events, t) == 0;
  }

  lemma PlanIsPlan(Een: seq<seq<nat>>, events: seq<nat>, t: Tel)
    requires AreRulesOf(Een, t)
    ensures IsPlan(events, EnabledEvents(Een, t), RuleSets(Een), Plan(Een, events, t), t)
  {
    forall q | 0 <= q < |Een|
      ensures PlansFor(Plan(Een, events, t)[q], RuleSets(Een)[q], events, EnabledEvents(Een, t)[q], t)
    {
      var k := Sufficient(Een[q], events, t);
      if k < |Een[q]| {
        assert Een[q][k] in Een[q];
      }
    }
  }

  // The search

  /** What the search returns from enabled event p on. */
  ghost function SearchFrom(m: Matrix, events: seq<nat>, Een: seq<seq<nat>>, t: Tel, p: nat, s: Gathered): Gathered
    requires Ready(m, events, Een, t, p)
  {
    SearchCauses(m, events, EnabledEvents(Een, t), RuleSets(Een), Plan(Een, events, t), t, p, s)
  }

  ghost function TriedFrom(
      m: Matrix, events: seq<nat>, Een: seq<seq<nat>>, t: Tel, p: nat, r: nat, s: Gathered): Gathered
    requires Ready(m, events, Een, t, p) && p < |Een|
  {
    Tried(m, events, EnabledEvents(Een, t), RuleSets(Een), Plan(Een, events, t), t, p, r, s)
  }

  ghost function ExploreFrom(
      m: Matrix, events: seq<nat>, Een: seq<seq<nat>>, t: Tel, p: nat, rules: seq<nat>, s: Gathered): Gathered
    requires Ready(m, events, Een, t, p) && p < |Een|
  {
    Explore(m, events, EnabledEvents(Een, t), RuleSets(Een), Plan(Een, events, t), t, p, rules, s)
  }

  /** One cause of enabled event p, if it has fired: the search goes on with it. */
  lemma TriedIsSearched(m: Matrix, events: seq<nat>, Een: seq<seq<nat>>, t: Tel, p: nat, r: nat, s: Gathered)
    requires Ready(m, events, Een, t, p) && p < |Een| && r in Een[p] && t.enabling(r) in events
    ensures Ready(WithCause(m, events, EnabledEvents(Een, t), t, p, r), events, Een, t, p + 1)
    ensures TriedFrom(m, events, Een, t, p, r, s) ==
      SearchFrom(WithCause(m, events, EnabledEvents(Een, t), t, p, r), events, Een, t, p + 1, s)
  {
    ChosenKeepsReady(m, events, Een, t, p, r);
  }

  lemma SamePlanTries(
      m: Matrix, events: seq<nat>, Een: seq<seq<nat>>, Een': seq<seq<nat>>, t: Tel, p: nat, r: nat, s: Gathered)
    requires SamePlan(Een, Een', events, t) && Ready(m, events, Een, t, p) && p < |Een|
    ensures |Een'| == |Een| && Ready(m, events, Een', t, p)
    ensures TriedFrom(m, events, Een', t, p, r, s) == TriedFrom(m, events, Een, t, p, r, s)
  {
    assert |RuleSets(Een)| == |Een| && |RuleSets(Een')| == |Een'|;
  }

  lemma SamePlanExplores(
      m: Matrix, events: seq<nat>, Een: seq<seq<nat>>, Een': seq<seq<nat>>, t: Tel, p: nat, rules: seq<nat>,
      s: Gathered)
    requires SamePlan(Een, Een', events, t) && Ready(m, events, Een, t, p) && p < |Een|
    ensures |Een'| == |Een| && Ready(m, events, Een', t, p)
    ensures ExploreFrom(m, events, Een', t, p, rules, s) == ExploreFrom(m, events, Een, t, p, rules, s)
  {
    assert |RuleSets(Een)| == |Een| && |RuleSets(Een')| == |Een'|;
  }

  lemma ExploreStep(m: Matrix, events: seq<nat>, Een: seq<seq<nat>>, t: Tel, p: nat, rules: seq<nat>, s: Gathered)
    requires Ready(m, events, Een, t, p) && p < |Een| && !s.done && rules != []
    ensures ExploreFrom(m, events, Een, t, p, rules, s) ==
      ExploreFrom(m, events, Een, t, p, rules[1..], TriedFrom(m, events, Een, t, p, rules[0], s))
  {
  }

  lemma ExploreEnd(m: Matrix, events: seq<nat>, Een: seq<seq<nat>>, t: Tel, p: nat, rules: seq<nat>, s: Gathered)
    requires Ready(m, events, Een, t, p) && p < |Een| && (s.done || rules == [])
    ensures ExploreFrom(m, events, Een, t, p, rules, s) == s
  {
  }

  /** All causes were chosen: check the configuration. */
  method CheckConfiguration(
      Een: seq<seq<nat>>, t: Tel, Me: Poset, Ef0: set<nat>, cannotFire0: int, ghost events: seq<nat>)
      returns (done: bool, Ef: set<nat>, cannotFire: int)
    requires Me.Valid() && AreRuleSets(Een) && Me.ptrMap == events + EnabledEvents(Een, t)
    requires Ready(Abs(Me.dbm), events, Een, t, |Een|)
    ensures Gathered(done, Ef, cannotFire) ==
      Checked(Abs(Me.dbm), events, EnabledEvents(Een, t), RuleSets(Een), t, Gathered(false, Ef0, cannotFire0))
  {
    ghost var m, evs := Abs(Me.dbm), EnabledEvents(Een, t);
    done, Ef, cannotFire := false, Ef0, cannotFire0;
    var Mt := new Poset.Copy(Me);
    var consistent := Mt.IsConsistent(|Een|);
    if consistent {
      var Enf;
      Ef, Enf := GetFireFirstEvents(Een, t, Mt, Ef0, events);
      SplitByTiming(m, Abs(Mt.dbm), events, evs, Ef0, Ef, Enf);
      if cannotFire == -1 && |Enf| != 0 {
        cannotFire := CountNonFireFirstEvents(Een, t, Me, Enf, events);
      }
      done := |Enf| == 0 || |Enf| == cannotFire;
    }
  }

  lemma SplitByTiming(
      m: Matrix, m': Matrix, events: seq<nat>, evs: seq<nat>, Ef0: set<nat>, Ef: set<nat>, Enf: set<nat>)
    requires Tightens(m, m', |events| + |evs|) && Canonical(m', |events| + |evs|, 0, |events| + |evs|)
    requires Consistent(m, |events| + |evs|, |events|)
    requires forall f :: f in Ef <==> f in Ef0 || Fireable(m', events, evs, f)
    requires forall f :: f in Enf <==> f in evs && !Fireable(m', events, evs, f)
    ensures Ef == Ef0 + EarlyEvents(m, events, evs) && Enf == LateEvents(m, events, evs)
  {
    forall f ensures Fireable(m', events, evs, f) <==> FiresFirst(m, events, evs, f) {
      FireableMeansFiresFirst(m, m', events, evs, f);
    }
  }

  /** One cause after the other for each enabled event; Ef collects what the
      consistent configurations let fire first. */
  method CombinatorialSearch(
      current: nat, Een: array<seq<nat>>, t: Tel, Me: Poset, Ef0: set<nat>, cannotFire0: int, ghost events: seq<nat>)
      returns (done: bool, Ef: set<nat>, cannotFire: int)
    requires Me.Valid() && AreRuleSets(Een[..]) && Me.ptrMap == events + EnabledEvents(Een[..], t)
    requires Ready(Abs(Me.dbm), events, Een[..], t, current)
    modifies Een, Me.dbm
    ensures SamePlan(old(Een[..]), Een[..], events, t) && OnlyPruned(old(Een[..]), Een[..], events, t)
    ensures forall k :: 0 <= k < current ==> Een[k] == old(Een[k])
    ensures !done ==> Abs(Me.dbm) == old(Abs(Me.dbm))
    ensures Gathered(done, Ef, cannotFire) ==
      old(SearchFrom(Abs(Me.dbm), events, Een[..], t, current, Gathered(false, Ef0, cannotFire0)))
    decreases Een.Length - current, 2
  {
    if current == Een.Length {
      done, Ef, cannotFire := CheckConfiguration(Een[..], t, Me, Ef0, cannotFire0, events);
      return;
    }
    done, Ef, cannotFire := ExploreCauses(current, Een, t, Me, Ef0, cannotFire0, events);
  }

  /** The loop over the causes of enabled event current. */
  method ExploreCauses(
      current: nat, Een: array<seq<nat>>, t: Tel, Me: Poset, Ef0: set<nat>, cannotFire0: int, ghost events: seq<nat>)
      returns (done: bool, Ef: set<nat>, cannotFire: int)
    requires Me.Valid() && AreRuleSets(Een[..]) && Me.ptrMap == events + EnabledEvents(Een[..], t)
    requires Ready(Abs(Me.dbm), events, Een[..], t, current) && current < Een.Length
    modifies Een, Me.dbm
    ensures SamePlan(old(Een[..]), Een[..], events, t) && OnlyPruned(old(Een[..]), Een[..], events, t)
    ensures forall k :: 0 <= k < current ==> Een[k] == old(Een[k])
    ensures !done ==> Abs(Me.dbm) == old(Abs(Me.dbm))
    ensures Gathered(done, Ef, cannotFire) ==
      old(SearchFrom(Abs(Me.dbm), events, Een[..], t, current, Gathered(false, Ef0, cannotFire0)))
    decreases Een.Length - current, 1
  {
    ghost var m, Een0, s0 := Abs(Me.dbm), Een[..], Gathered(false, Ef0, cannotFire0);
    var end := RemoveOverBounded(Een, current, Me, t, events);
    ghost var Een1 := Een[..];
    SamePlanExplores(m, events, Een0, Een1, t, current, Een1[current][..end], s0);
    done, Ef, cannotFire := ExploreRules(current, Een, end, t, Me, Ef0, cannotFire0, events, m, Een1);
    OnlyPrunedTwice(Een0, Een1, Een[..], events, t);
  }

  /** The rules up to end, one after the other. */
  method ExploreRules(
      current: nat, Een: array<seq<nat>>, end: nat, t: Tel, Me: Poset, Ef0: set<nat>, cannotFire0: int,
      ghost events: seq<nat>, ghost m: Matrix, ghost Een0: seq<seq<nat>>)
      returns (done: bool, Ef: set<nat>, cannotFire: int)
    requires Me.Valid() && AreRuleSets(Een0) && Me.ptrMap == events + EnabledEvents(Een0, t)
    requires Abs(Me.dbm) == m && Een[..] == Een0
    requires Ready(m, events, Een0, t, current) && current < |Een0| && end <= |Een0[current]|
    modifies Een, Me.dbm
    ensures SamePlan(Een0, Een[..], events, t) && OnlyPruned(Een0, Een[..], events, t)
    ensures forall k :: 0 <= k < current ==> Een[k] == Een0[k]
    ensures !done ==> Abs(Me.dbm) == m
    ensures Gathered(done, Ef, cannotFire) ==
      ExploreFrom(m, events, Een0, t, current, Een0[current][..end], Gathered(false, Ef0, cannotFire0))
    decreases Een.Length - current, 0, 2
  {
    ghost var s0, rules := Gathered(false, Ef0, cannotFire0), Een0[current][..end];
    done, Ef, cannotFire := false, Ef0, cannotFire0;
    for i := 0 to end
      invariant SamePlan(Een0, Een[..], events, t) && OnlyPruned(Een0, Een[..], events, t)
      invariant forall k :: 0 <= k <= current ==> Een[k] == Een0[k]
      invariant Abs(Me.dbm) == m && !done
      invariant ExploreFrom(m, events, Een0, t, current, rules, s0) ==
        ExploreFrom(m, events, Een0, t, current, rules[i..], Gathered(false, Ef, cannotFire))
    {
      ghost var s, before := Gathered(false, Ef, cannotFire), Een[..];
      SamePlanTries(m, events, Een0, before, t, current, rules[i], s);
      ExploreStep(m, events, Een0, t, current, rules[i..], s);
      done, Ef, cannotFire := TryCause(current, Een[current][i], Een, t, Me, Ef, cannotFire, events, m, before);
      OnlyPrunedTwice(Een0, before, Een[..], events, t);
      assert rules[i..][1..] == rules[i + 1..];
      if done {
        ExploreEnd(m, events, Een0, t, current, rules[i + 1..], Gathered(done, Ef, cannotFire));
        return;
      }
    }
    ExploreEnd(m, events, Een0, t, current, rules[end..], Gathered(done, Ef, cannotFire));
  }

  method AssignCause(p: nat, r: nat, t: Tel, Me: Poset, ghost Een: seq<seq<nat>>, ghost events: seq<nat>)
    requires Me.Valid() && AreRuleSets(Een) && Me.ptrMap == events + EnabledEvents(Een, t)
    requires Ready(Abs(Me.dbm), events, Een, t, p) && p < |Een| && r in Een[p] && t.enabling(r) in events
    modifies Me.dbm
    ensures Abs(Me.dbm) == WithCause(old(Abs(Me.dbm)), events, EnabledEvents(Een, t), t, p, r)
    ensures Ready(Abs(Me.dbm), events, Een, t, p + 1)
  {
    CausalPlaces(events, EnabledEvents(Een, t), t.enabling(r), p);
    ChosenKeepsReady(Abs(Me.dbm), events, Een, t, p, r);
    Me.SetMaxSeparation(t.enabling(r), t.enabled(r), t.upper(t.enabling(r), t.enabled(r)));
  }

  method WithdrawCause(
      p: nat, r: nat, t: Tel, Me: Poset, ghost m: Matrix, ghost Een: seq<seq<nat>>, ghost events: seq<nat>)
    requires Me.Valid() && AreRuleSets(Een) && Me.ptrMap == events + EnabledEvents(Een, t)
    requires Ready(m, events, Een, t, p) && p < |Een| && r in Een[p] && t.enabling(r) in events
    requires Abs(Me.dbm) == WithCause(m, events, EnabledEvents(Een, t), t, p, r)
    modifies Me.dbm
    ensures Abs(Me.dbm) == m
  {
    CausalPlaces(events, EnabledEvents(Een, t), t.enabling(r), p);
    ChosenKeepsReady(m, events, Een, t, p, r);
    Me.SetMaxSeparation(t.enabling(r), t.enabled(r), Unbounded);
  }

  /** The body of that loop: assign the cause, search on, take it back. */
  method TryCause(
      current: nat, r: nat, Een: array<seq<nat>>, t: Tel, Me: Poset, Ef0: set<nat>, cannotFire0: int,
      ghost events: seq<nat>, ghost m: Matrix, ghost Een0: seq<seq<nat>>)
      returns (done: bool, Ef: set<nat>, cannotFire: int)
    requires Me.Valid() && AreRuleSets(Een0) && Me.ptrMap == events + EnabledEvents(Een0, t)
    requires Abs(Me.dbm) == m && Een[..] == Een0
    requires Ready(m, events, Een0, t, current) && current < |Een0| && r in Een0[current]
    modifies Een, Me.dbm
    ensures SamePlan(Een0, Een[..], events, t) && OnlyPruned(Een0, Een[..], events, t)
    ensures forall k :: 0 <= k <= current ==> Een[k] == Een0[k]
    ensures !done ==> Abs(Me.dbm) == m
    ensures Gathered(done, Ef, cannotFire) ==
      TriedFrom(m, events, Een0, t, current, r, Gathered(false, Ef0, cannotFire0))
    decreases Een.Length - current, 0, 1
  {
    var inOld := Me.IsInPoset(t.enabling(r), Een.Length);
    assert Me.ptrMap[..|Me.ptrMap| - Een.Length] == events;
    if !inOld {
      return false, Ef0, cannotFire0;
    }
    done, Ef, cannotFire := FollowCause(current, r, Een, t, Me, Ef0, cannotFire0, events, m, Een0);
    if !done {
      WithdrawCause(current, r, t, Me, m, Een0, events);
    }
  }

  /** Sets the bound of the cause and searches on. */
  method FollowCause(
      current: nat, r: nat, Een: array<seq<nat>>, t: Tel, Me: Poset, Ef0: set<nat>, cannotFire0: int,
      ghost events: seq<nat>, ghost m: Matrix, ghost Een0: seq<seq<nat>>)
      returns (done: bool, Ef: set<nat>, cannotFire: int)
    requires Me.Valid() && AreRuleSets(Een0) && Me.ptrMap == events + EnabledEvents(Een0, t)
    requires Abs(Me.dbm) == m && Een[..] == Een0
    requires Ready(m, events, Een0, t, current) && current < |Een0| && r in Een0[current] && t.enabling(r) in events
    modifies Een, Me.dbm
    ensures SamePlan(Een0, Een[..], events, t) && OnlyPruned(Een0, Een[..], events, t)
    ensures forall k :: 0 <= k <= current ==> Een[k] == Een0[k]
    ensures !done ==> Abs(Me.dbm) == WithCause(m, events, EnabledEvents(Een0, t), t, current, r)
    ensures Gathered(done, Ef, cannotFire) ==
      TriedFrom(m, events, Een0, t, current, r, Gathered(false, Ef0, cannotFire0))
    decreases Een.Length - current, 0, 0
  {
    TriedIsSearched(m, events, Een0, t, current, r, Gathered(false, Ef0, cannotFire0));
    AssignCause(current, r, t, Me, Een0, events);
    done, Ef, cannotFire := CombinatorialSearch(current + 1, Een, t, Me, Ef0, cannotFire0, events);
  }
}
