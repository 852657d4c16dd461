/** combinatorial_search of src/bap.cc as a single loop over the configurations of
    causes, and when its verdict is that the search is over. */
module SearchVerdict {
  import opened Dbm
  import opened TimedRules
  import opened Posets
  import opened CausalChoices
  import opened NeverFirst
  import opened SearchPlan
  import opened CausalSearch
  import opened Runs

  // All configurations

  ghost predicate AreMatrices(cs: seq<Matrix>, n: nat) {
    forall i :: 0 <= i < |cs| ==> IsMatrix(cs[i], n)
  }

  /** The matrices that the explored choices of causes from p on lead to, in the
      order of the search. */
  ghost function Configurations(
      m: Matrix, events: seq<nat>, evs: seq<nat>, X: seq<seq<nat>>, t: Tel, p: nat): (cs: seq<Matrix>)
    requires IsMatrix(m, |events| + |evs|) && |X| == |evs| && p <= |evs|
    ensures AreMatrices(cs, |events| + |evs|)
    decreases |evs| - p, 1, 0
  {
    if p == |evs| then [m] else ConfigurationsBy(m, events, evs, X, t, p, X[p])
  }

  ghost function ConfigurationsBy(
      m: Matrix, events: seq<nat>, evs: seq<nat>, X: seq<seq<nat>>, t: Tel, p: nat, rules: seq<nat>)
      : (cs: seq<Matrix>)
    requires IsMatrix(m, |events| + |evs|) && |X| == |evs| && p < |evs|
    ensures AreMatrices(cs, |events| + |evs|)
    decreases |evs| - p, 0, |rules|
  {
    if rules == [] then []
    else
      (if t.enabling(rules[0]) in events
       then Configurations(WithCause(m, events, evs, t, p, rules[0]), events, evs, X, t, p + 1) else [])
      + ConfigurationsBy(m, events, evs, X, t, p, rules[1..])
  }

  /** One configuration after the other, until the search is over. */
  ghost function Loop(
      cs: seq<Matrix>, events: seq<nat>, evs: seq<nat>, R: seq<set<nat>>, t: Tel, s: Gathered): Gathered
    requires AreMatrices(cs, |events| + |evs|) && |R| == |evs|
  {
    if s.done || cs == [] then s else Loop(cs[1..], events, evs, R, t, Checked(cs[0], events, evs, R, t, s))
  }

  lemma {:induction false} LoopOver(
      a: seq<Matrix>, b: seq<Matrix>, events: seq<nat>, evs: seq<nat>, R: seq<set<nat>>, t: Tel, s: Gathered)
    requires AreMatrices(a, |events| + |evs|) && AreMatrices(b, |events| + |evs|) && |R| == |evs|
    ensures AreMatrices(a + b, |events| + |evs|)
    ensures Loop(a + b, events, evs, R, t, s) == Loop(b, events, evs, R, t, Loop(a, events, evs, R, t, s))
  {
    if a == [] {
      assert a + b == b;
    } else if !s.done {
      assert (a + b)[1..] == a[1..] + b;
      LoopOver(a[1..], b, events, evs, R, t, Checked(a[0], events, evs, R, t, s));
    }
  }

  /** The recursion is that loop. */
  lemma {:induction false} SearchIsLoop(
      m: Matrix, events: seq<nat>, evs: seq<nat>, R: seq<set<nat>>, X: seq<seq<nat>>, t: Tel, p: nat, s: Gathered)
    requires Shape(m, events, evs, R) && |X| == |evs| && p <= |evs| && !s.done
    ensures SearchCauses(m, events, evs, R, X, t, p, s) ==
      Loop(Configurations(m, events, evs, X, t, p), events, evs, R, t, s)
    decreases |evs| - p, 1, 0
  {
    if p < |evs| {
      ExploreIsLoop(m, events, evs, R, X, t, p, X[p], s);
    }
  }

  lemma {:induction false} ExploreIsLoop(
      m: Matrix, events: seq<nat>, evs: seq<nat>, R: seq<set<nat>>, X: seq<seq<nat>>, t: Tel, p: nat,
      rules: seq<nat>, s: Gathered)
    requires Shape(m, events, evs, R) && |X| == |evs| && p < |evs|
    ensures Explore(m, events, evs, R, X, t, p, rules, s) ==
      Loop(ConfigurationsBy(m, events, evs, X, t, p, rules), events, evs, R, t, s)
    decreases |evs| - p, 0, |rules|
  {
    if !s.done && rules != [] {
      var r := rules[0];
      var s' := Tried(m, events, evs, R, X, t, p, r, s);
      if t.enabling(r) in events {
        SearchIsLoop(WithCause(m, events, evs, t, p, r), events, evs, R, X, t, p + 1, s);
        LoopOver(Configurations(WithCause(m, events, evs, t, p, r), events, evs, X, t, p + 1),
                 ConfigurationsBy(m, events, evs, X, t, p, rules[1..]), events, evs, R, t, s);
      } else {
        assert ConfigurationsBy(m, events, evs, X, t, p, rules) ==
          ConfigurationsBy(m, events, evs, X, t, p, rules[1..]);
      }
      ExploreIsLoop(m, events, evs, R, X, t, p, rules[1..], s');
    }
  }

  // They are the explored choices

  /** c chooses, from p on, causes that have fired and that the search explores. */
  ghost predicate IsExplored(
      events: seq<nat>, R: seq<set<nat>>, X: seq<seq<nat>>, t: Tel, c: seq<nat>, p: nat) {
    |X| == |R| && IsChoice(events, R, t, c, p) && forall q :: p <= q < |c| ==> c[q] in X[q]
  }

  ghost predicate IsReached(
      m: Matrix, events: seq<nat>, evs: seq<nat>, R: seq<set<nat>>, X: seq<seq<nat>>, t: Tel, p: nat, c: seq<nat>,
      m': Matrix)
    requires Shape(m, events, evs, R) && p <= |evs|
  {
    IsExplored(events, R, X, t, c, p) && m' == Applied(m, events, evs, R, t, c, p)
  }

  lemma {:induction false} ChoiceIsListed(
      m: Matrix, events: seq<nat>, evs: seq<nat>, R: seq<set<nat>>, X: seq<seq<nat>>, t: Tel, p: nat, c: seq<nat>)
    requires Shape(m, events, evs, R) && p <= |evs| && IsExplored(events, R, X, t, c, p)
    ensures Applied(m, events, evs, R, t, c, p) in Configurations(m, events, evs, X, t, p)
    decreases |evs| - p
  {
    if p < |evs| {
      ChoiceIsListed(WithCause(m, events, evs, t, p, c[p]), events, evs, R, X, t, p + 1, c);
      ListedByRule(m, events, evs, X, t, p, X[p], c[p], Applied(m, events, evs, R, t, c, p));
    }
  }

  lemma {:induction false} ListedByRule(
      m: Matrix, events: seq<nat>, evs: seq<nat>, X: seq<seq<nat>>, t: Tel, p: nat, rules: seq<nat>, r: nat,
      m': Matrix)
    requires IsMatrix(m, |events| + |evs|) && |X| == |evs| && p < |evs| && r in rules && t.enabling(r) in events
    requires m' in Configurations(WithCause(m, events, evs, t, p, r), events, evs, X, t, p + 1)
    ensures m' in ConfigurationsBy(m, events, evs, X, t, p, rules)
  {
    if r != rules[0] {
      ListedByRule(m, events, evs, X, t, p, rules[1..], r, m');
    }
  }

  lemma {:induction false} ListedIsChoice(
      m: Matrix, events: seq<nat>, evs: seq<nat>, R: seq<set<nat>>, X: seq<seq<nat>>, t: Tel, p: nat, m': Matrix)
      returns (c: seq<nat>)
    requires Shape(m, events, evs, R) && |X| == |R| && p <= |evs|
    requires forall q, r :: 0 <= q < |X| && r in X[q] ==> r in R[q]
    requires m' in Configurations(m, events, evs, X, t, p)
    ensures IsReached(m, events, evs, R, X, t, p, c, m')
    decreases |evs| - p
  {
    if p == |evs| {
      c := seq(|R|, _ => 0);
    } else {
      var r := RuleOfListed(m, events, evs, X, t, p, X[p], m');
      var m1 := WithCause(m, events, evs, t, p, r);
      var c' := ListedIsChoice(m1, events, evs, R, X, t, p + 1, m');
      c := c'[p := r];
      AppliedLooksAhead(m1, events, evs, R, t, c, c', p + 1);
    }
  }

  lemma {:induction false} RuleOfListed(
      m: Matrix, events: seq<nat>, evs: seq<nat>, X: seq<seq<nat>>, t: Tel, p: nat, rules: seq<nat>, m': Matrix)
      returns (r: nat)
    requires IsMatrix(m, |events| + |evs|) && |X| == |evs| && p < |evs|
    requires m' in ConfigurationsBy(m, events, evs, X, t, p, rules)
    ensures r in rules && t.enabling(r) in events
    ensures m' in Configurations(WithCause(m, events, evs, t, p, r), events, evs, X, t, p + 1)
  {
    r := rules[0];
    if t.enabling(r) !in events || m' !in Configurations(WithCause(m, events, evs, t, p, r), events, evs, X, t, p + 1) {
      r := RuleOfListed(m, events, evs, X, t, p, rules[1..], m');
    }
  }

  // When the search is over

  /** The count that is known once the first k configurations were checked: the
      one given, or that of the first consistent one with late events. */
  ghost function CountAfter(
      cs: seq<Matrix>, events: seq<nat>, evs: seq<nat>, R: seq<set<nat>>, t: Tel, k: nat, known: int): int
    requires AreMatrices(cs, |events| + |evs|) && |R| == |evs| && k <= |cs|
  {
    if k == 0 then known
    else if CountAfter(cs, events, evs, R, t, k - 1, known) != -1 then CountAfter(cs, events, evs, R, t, k - 1, known)
    else if Consistent(cs[k - 1], |events| + |evs|, |events|) && LateEvents(cs[k - 1], events, evs) != {} then
      |NeverFirsts(cs[k - 1], events, evs, R, t, LateEvents(cs[k - 1], events, evs))|
    else -1
  }

  /** Configuration i is consistent, and either no enabled event is late in it or
      as many are as the count says that is known by then. */
  ghost predicate EndsSearch(
      cs: seq<Matrix>, events: seq<nat>, evs: seq<nat>, R: seq<set<nat>>, t: Tel, known: int, i: nat)
    requires AreMatrices(cs, |events| + |evs|) && |R| == |evs| && i < |cs|
  {
    && Consistent(cs[i], |events| + |evs|, |events|)
    && ((forall f :: f in evs ==> FiresFirst(cs[i], events, evs, f))
        || |LateEvents(cs[i], events, evs)| == CountAfter(cs, events, evs, R, t, i + 1, known))
  }

  lemma CheckedEnds(m: Matrix, events: seq<nat>, evs: seq<nat>, R: seq<set<nat>>, t: Tel, s: Gathered)
    requires Shape(m, events, evs, R)
    ensures AreMatrices([m], |events| + |evs|)
    ensures Checked(m, events, evs, R, t, s).done <==> EndsSearch([m], events, evs, R, t, s.cannotFire, 0)
    ensures Checked(m, events, evs, R, t, s).cannotFire == CountAfter([m], events, evs, R, t, 1, s.cannotFire)
  {
    var late := LateEvents(m, events, evs);
    assert CountAfter([m], events, evs, R, t, 0, s.cannotFire) == s.cannotFire;
    assert late == {} <==> forall f :: f in evs ==> FiresFirst(m, events, evs, f) by {
      if late == {} {
        forall f | f in evs ensures FiresFirst(m, events, evs, f) {
          assert f !in late;
        }
      }
    }
  }

  lemma {:induction false} CountOver(
      cs: seq<Matrix>, events: seq<nat>, evs: seq<nat>, R: seq<set<nat>>, t: Tel, k: nat, known: int)
    requires AreMatrices(cs, |events| + |evs|) && |R| == |evs| && 0 < k <= |cs|
    ensures AreMatrices([cs[0]], |events| + |evs|)
    ensures CountAfter(cs, events, evs, R, t, k, known) ==
      CountAfter(cs[1..], events, evs, R, t, k - 1, CountAfter([cs[0]], events, evs, R, t, 1, known))
  {
    if k > 1 {
      CountOver(cs, events, evs, R, t, k - 1, known);
      assert cs[1..][k - 2] == cs[k - 1];
    } else {
      assert [cs[0]][0] == cs[0];
      assert CountAfter([cs[0]], events, evs, R, t, 0, known) == CountAfter(cs, events, evs, R, t, 0, known);
    }
  }

  /** The loop ends early exactly if some configuration ends it. */
  lemma {:induction false} LoopVerdict(
      cs: seq<Matrix>, events: seq<nat>, evs: seq<nat>, R: seq<set<nat>>, t: Tel, s: Gathered)
    requires AreMatrices(cs, |events| + |evs|) && |R| == |evs| && !s.done
    ensures Loop(cs, events, evs, R, t, s).done <==>
      exists i :: 0 <= i < |cs| && EndsSearch(cs, events, evs, R, t, s.cannotFire, i)
  {
    if cs != [] {
      var s' := Checked(cs[0], events, evs, R, t, s);
      CheckedEnds(cs[0], events, evs, R, t, s);
      forall i: nat | i < |cs|
        ensures AreMatrices([cs[0]], |events| + |evs|)
        ensures EndsSearch(cs, events, evs, R, t, s.cannotFire, i) <==>
          if i == 0 then EndsSearch([cs[0]], events, evs, R, t, s.cannotFire, 0)
          else EndsSearch(cs[1..], events, evs, R, t, s'.cannotFire, i - 1)
      {
        CountOver(cs, events, evs, R, t, i + 1, s.cannotFire);
      }
      if !s'.done {
        LoopVerdict(cs[1..], events, evs, R, t, s');
        if i :| 0 <= i < |cs[1..]| && EndsSearch(cs[1..], events, evs, R, t, s'.cannotFire, i) {
          assert EndsSearch(cs, events, evs, R, t, s.cannotFire, i + 1);
        }
      } else {
        assert EndsSearch(cs, events, evs, R, t, s.cannotFire, 0);
      }
    }
  }

  /** What the search was given as the count, once it is known. */
  lemma {:induction false} KnownCountStays(
      cs: seq<Matrix>, events: seq<nat>, evs: seq<nat>, R: seq<set<nat>>, t: Tel, k: nat, known: int)
    requires AreMatrices(cs, |events| + |evs|) && |R| == |evs| && k <= |cs| && known != -1
    ensures CountAfter(cs, events, evs, R, t, k, known) == known
  {
    if k > 0 {
      KnownCountStays(cs, events, evs, R, t, k - 1, known);
    }
  }

  /** The verdict is that the search is over if and only if some configuration, in
      the order of the search, is consistent and lets every enabled event come
      first in some timing, or has as many late events as the count known there. */
  lemma VerdictIff(m: Matrix, events: seq<nat>, Een: seq<seq<nat>>, t: Tel, s: Gathered)
    requires Ready(m, events, Een, t, 0) && !s.done
    ensures var evs, R := EnabledEvents(Een, t), RuleSets(Een);
      var cs := Configurations(m, events, evs, Plan(Een, events, t), t, 0);
      SearchFrom(m, events, Een, t, 0, s).done <==>
        exists i :: 0 <= i < |cs| && EndsSearch(cs, events, evs, R, t, s.cannotFire, i)
  {
    var evs, R, X := EnabledEvents(Een, t), RuleSets(Een), Plan(Een, events, t);
    SearchIsLoop(m, events, evs, R, X, t, 0, s);
    LoopVerdict(Configurations(m, events, evs, X, t, 0), events, evs, R, t, s);
  }

  /** The choice c is consistent and leaves no event late, or as many as known. */
  ghost predicate ChoiceEnds(
      m: Matrix, events: seq<nat>, Een: seq<seq<nat>>, t: Tel, known: int, c: seq<nat>)
    requires AreRulesOf(Een, t) && IsMatrix(m, |events| + |Een|)
  {
    && IsExplored(events, RuleSets(Een), Plan(Een, events, t), t, c, 0)
    && var evs := EnabledEvents(Een, t); var m' := Applied(m, events, evs, RuleSets(Een), t, c, 0);
       && Consistent(m', |events| + |Een|, |events|)
       && ((forall f :: f in evs ==> FiresFirst(m', events, evs, f)) || |LateEvents(m', events, evs)| == known)
  }

  /** With a known count: if and only if some explored choice of causes does so. */
  lemma KnownVerdictIff(m: Matrix, events: seq<nat>, Een: seq<seq<nat>>, t: Tel, s: Gathered)
    requires Ready(m, events, Een, t, 0) && !s.done && s.cannotFire != -1
    ensures SearchFrom(m, events, Een, t, 0, s).done <==>
      exists c :: ChoiceEnds(m, events, Een, t, s.cannotFire, c)
  {
    var evs, R, X := EnabledEvents(Een, t), RuleSets(Een), Plan(Een, events, t);
    var cs := Configurations(m, events, evs, X, t, 0);
    VerdictIff(m, events, Een, t, s);
    if i: nat :| i < |cs| && EndsSearch(cs, events, evs, R, t, s.cannotFire, i) {
      var c := EndingChoice(m, events, Een, t, s.cannotFire, i);
    }
    if c: seq<nat> :| ChoiceEnds(m, events, Een, t, s.cannotFire, c) {
      var i := EndingIndex(m, events, Een, t, s.cannotFire, c);
    }
  }

  lemma EndingIndex(m: Matrix, events: seq<nat>, Een: seq<seq<nat>>, t: Tel, known: int, c: seq<nat>) returns (i: nat)
    requires Ready(m, events, Een, t, 0) && known != -1 && ChoiceEnds(m, events, Een, t, known, c)
    ensures var cs := Configurations(m, events, EnabledEvents(Een, t), Plan(Een, events, t), t, 0);
      i < |cs| && EndsSearch(cs, events, EnabledEvents(Een, t), RuleSets(Een), t, known, i)
  {
    var evs, R, X := EnabledEvents(Een, t), RuleSets(Een), Plan(Een, events, t);
    var cs := Configurations(m, events, evs, X, t, 0);
    ChoiceIsListed(m, events, evs, R, X, t, 0, c);
    i :| 0 <= i < |cs| && cs[i] == Applied(m, events, evs, R, t, c, 0);
    KnownCountStays(cs, events, evs, R, t, i + 1, known);
  }

  lemma EndingChoice(m: Matrix, events: seq<nat>, Een: seq<seq<nat>>, t: Tel, known: int, i: nat) returns (c: seq<nat>)
    requires Ready(m, events, Een, t, 0) && known != -1
    requires var cs := Configurations(m, events, EnabledEvents(Een, t), Plan(Een, events, t), t, 0);
      i < |cs| && EndsSearch(cs, events, EnabledEvents(Een, t), RuleSets(Een), t, known, i)
    ensures ChoiceEnds(m, events, Een, t, known, c)
  {
    var evs, R, X := EnabledEvents(Een, t), RuleSets(Een), Plan(Een, events, t);
    var cs := Configurations(m, events, evs, X, t, 0);
    PlanIsPlan(Een, events, t);
    forall q, r | 0 <= q < |X| && r in X[q] ensures r in R[q] {
      assert PlansFor(X[q], R[q], events, evs[q], t);
    }
    KnownCountStays(cs, events, evs, R, t, i + 1, known);
    c := ListedIsChoice(m, events, evs, R, X, t, 0, cs[i]);
  }

  /** Whatever the count: a consistent choice that leaves no event late ends the
      search, unless an earlier one does. */
  lemma NoneLateEnds(m: Matrix, events: seq<nat>, Een: seq<seq<nat>>, t: Tel, s: Gathered, c: seq<nat>)
    requires Ready(m, events, Een, t, 0) && !s.done
    requires IsExplored(events, RuleSets(Een), Plan(Een, events, t), t, c, 0)
    requires var evs := EnabledEvents(Een, t); var m' := Applied(m, events, evs, RuleSets(Een), t, c, 0);
      Consistent(m', |events| + |Een|, |events|) && forall f :: f in evs ==> FiresFirst(m', events, evs, f)
    ensures SearchFrom(m, events, Een, t, 0, s).done
  {
    var evs, R, X := EnabledEvents(Een, t), RuleSets(Een), Plan(Een, events, t);
    var cs := Configurations(m, events, evs, X, t, 0);
    VerdictIff(m, events, Een, t, s);
    ChoiceIsListed(m, events, evs, R, X, t, 0, c);
    var i :| 0 <= i < |cs| && cs[i] == Applied(m, events, evs, R, t, c, 0);
    assert EndsSearch(cs, events, evs, R, t, s.cannotFire, i);
  }
}
