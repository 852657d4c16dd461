/** What combinatorial_search of src/bap.cc returns, as a function: which causes
    it explores in which order, what it collects and when it stops. */
module SearchPlan {
  import opened Dbm
  import opened Sequences
  import opened TimedRules
  import opened Posets
  import opened CausalChoices
  import opened NeverFirst

  // Which rules are explored

  ghost predicate Suffices(r: nat, events: seq<nat>, t: Tel) {
    t.enabling(r) in events && t.upper(t.enabling(r), t.enabled(r)) == Unbounded
  }

  /** The index of the first rule that suffices, or the number of rules. */
  ghost function Sufficient(rules: seq<nat>, events: seq<nat>, t: Tel): (k: nat)
    ensures k <= |rules| && forall i :: 0 <= i < k ==> !Suffices(rules[i], events, t)
    ensures k < |rules| ==> Suffices(rules[k], events, t)
  {
    if rules == [] || Suffices(rules[0], events, t) then 0 else 1 + Sufficient(rules[1..], events, t)
  }

  ghost function Explored(rules: seq<nat>, events: seq<nat>, t: Tel): seq<nat> {
    var k := Sufficient(rules, events, t);
    if k < |rules| then [rules[k]] else rules
  }

  ghost function Plan(Een: seq<seq<nat>>, events: seq<nat>, t: Tel): (X: seq<seq<nat>>)
    ensures |X| == |Een| && forall k :: 0 <= k < |X| ==> X[k] == Explored(Een[k], events, t)
  {
    seq(|Een|, k requires 0 <= k < |Een| => Explored(Een[k], events, t))
  }

  /** The same rules and the same rules to explore, perhaps in another order. */
  ghost predicate SamePlan(Een: seq<seq<nat>>, Een': seq<seq<nat>>, events: seq<nat>, t: Tel) {
    SameRules(Een, Een', t) && Plan(Een, events, t) == Plan(Een', events, t)
  }

  /** The list with its first rule that suffices, if any, moved to the front. */
  ghost function Pruned(rules: seq<nat>, events: seq<nat>, t: Tel): seq<nat> {
    var k := Sufficient(rules, events, t);
    if k < |rules| then rules[k := rules[0]][0 := rules[k]] else rules
  }

  /** Every list of rules is as it was or pruned. */
  ghost predicate OnlyPruned(Een: seq<seq<nat>>, Een': seq<seq<nat>>, events: seq<nat>, t: Tel) {
    |Een'| == |Een| && forall k :: 0 <= k < |Een| ==> Een'[k] == Een[k] || Een'[k] == Pruned(Een[k], events, t)
  }

  lemma PrunedTwice(rules: seq<nat>, events: seq<nat>, t: Tel)
    ensures Pruned(Pruned(rules, events, t), events, t) == Pruned(rules, events, t)
  {
    var k, rules' := Sufficient(rules, events, t), Pruned(rules, events, t);
    if k < |rules| {
      assert rules'[0] == rules[k] && Sufficient(rules', events, t) == 0;
      assert rules'[0 := rules'[0]][0 := rules'[0]] == rules';
    }
  }

  lemma OnlyPrunedTwice(
      Een: seq<seq<nat>>, Een': seq<seq<nat>>, Een'': seq<seq<nat>>, events: seq<nat>, t: Tel)
    requires OnlyPruned(Een, Een', events, t) && OnlyPruned(Een', Een'', events, t)
    ensures OnlyPruned(Een, Een'', events, t)
  {
    forall k | 0 <= k < |Een| ensures Een''[k] == Een[k] || Een''[k] == Pruned(Een[k], events, t) {
      PrunedTwice(Een[k], events, t);
    }
  }

  // What is found

  /** The enabled events found so far, whether the search is over, and the
      number of events that can never fire first, -1 while it is not known. */
  datatype Gathered = Gathered(done: bool, first: set<nat>, cannotFire: int)

  ghost function EarlyEvents(m: Matrix, events: seq<nat>, evs: seq<nat>): set<nat>
    requires IsMatrix(m, |events| + |evs|)
  {
    set f | f in evs && FiresFirst(m, events, evs, f)
  }

  ghost function LateEvents(m: Matrix, events: seq<nat>, evs: seq<nat>): set<nat>
    requires IsMatrix(m, |events| + |evs|)
  {
    set f | f in evs && !FiresFirst(m, events, evs, f)
  }

  /** What one configuration adds. */
  ghost function Checked(m: Matrix, events: seq<nat>, evs: seq<nat>, R: seq<set<nat>>, t: Tel, s: Gathered): Gathered
    requires Shape(m, events, evs, R)
  {
    if !Consistent(m, |m|, |events|) then Gathered(false, s.first, s.cannotFire)
    else
      var late := LateEvents(m, events, evs);
      var cannotFire :=
        if s.cannotFire == -1 && late != {} then |NeverFirsts(m, events, evs, R, t, late)| else s.cannotFire;
      Gathered(late == {} || |late| == cannotFire, s.first + EarlyEvents(m, events, evs), cannotFire)
  }

  ghost function SearchCauses(
      m: Matrix, events: seq<nat>, evs: seq<nat>, R: seq<set<nat>>, X: seq<seq<nat>>, t: Tel, p: nat,
      s: Gathered): Gathered
    requires Shape(m, events, evs, R) && |X| == |evs| && p <= |evs|
    decreases |evs| - p, 1, 0
  {
    if p == |evs| then Checked(m, events, evs, R, t, s) else Explore(m, events, evs, R, X, t, p, X[p], s)
  }

  ghost function Explore(
      m: Matrix, events: seq<nat>, evs: seq<nat>, R: seq<set<nat>>, X: seq<seq<nat>>, t: Tel, p: nat,
      rules: seq<nat>, s: Gathered): Gathered
    requires Shape(m, events, evs, R) && |X| == |evs| && p < |evs|
    decreases |evs| - p, 0, |rules|
  {
    if s.done || rules == [] then s
    else Explore(m, events, evs, R, X, t, p, rules[1..],
      if t.enabling(rules[0]) in events then
        SearchCauses(WithCause(m, events, evs, t, p, rules[0]), events, evs, R, X, t, p + 1, s)
      else s)
  }

  /** One cause of enabled event p. */
  ghost function Tried(
      m: Matrix, events: seq<nat>, evs: seq<nat>, R: seq<set<nat>>, X: seq<seq<nat>>, t: Tel, p: nat, r: nat,
      s: Gathered): Gathered
    requires Shape(m, events, evs, R) && |X| == |evs| && p < |evs|
  {
    if t.enabling(r) in events then
      SearchCauses(WithCause(m, events, evs, t, p, r), events, evs, R, X, t, p + 1, s)
    else s
  }

  // Sound, and complete unless it stops early

  ghost predicate IsPlan(events: seq<nat>, evs: seq<nat>, R: seq<set<nat>>, X: seq<seq<nat>>, t: Tel) {
    |X| == |R| == |evs| && forall q :: 0 <= q < |evs| ==> PlansFor(X[q], R[q], events, evs[q], t)
  }

  /** All rules of the event, or one that makes the others superfluous. */
  ghost predicate PlansFor(rules: seq<nat>, all: set<nat>, events: seq<nat>, f: nat, t: Tel) {
    || (forall r :: r in rules <==> r in all)
    || (exists r :: rules == [r] && r in all && t.enabling(r) in events && t.upper(t.enabling(r), f) == Unbounded)
  }

  ghost predicate CauseFires(
      m: Matrix, events: seq<nat>, evs: seq<nat>, R: seq<set<nat>>, t: Tel, p: nat, r: nat, f: nat)
    requires Shape(m, events, evs, R) && p < |evs|
  {
    t.enabling(r) in events && CanFire(WithCause(m, events, evs, t, p, r), events, evs, R, t, p + 1, f)
  }

  /** The events that some choice of causes from p on lets fire first. */
  ghost function Firsts(m: Matrix, events: seq<nat>, evs: seq<nat>, R: seq<set<nat>>, t: Tel, p: nat): set<nat>
    requires Shape(m, events, evs, R) && p <= |evs|
  {
    set f | f in evs && CanFire(m, events, evs, R, t, p, f)
  }

  /** ... with the cause of p among the given rules. */
  ghost function FirstsOf(
      m: Matrix, events: seq<nat>, evs: seq<nat>, R: seq<set<nat>>, t: Tel, p: nat, rules: seq<nat>): set<nat>
    requires Shape(m, events, evs, R) && p < |evs|
  {
    if rules == [] then {}
    else FirstsBy(m, events, evs, R, t, p, rules[0]) + FirstsOf(m, events, evs, R, t, p, rules[1..])
  }

  ghost function FirstsBy(
      m: Matrix, events: seq<nat>, evs: seq<nat>, R: seq<set<nat>>, t: Tel, p: nat, r: nat): set<nat>
    requires Shape(m, events, evs, R) && p < |evs|
  {
    if t.enabling(r) in events then Firsts(WithCause(m, events, evs, t, p, r), events, evs, R, t, p + 1) else {}
  }

  /** From s to s' only events in can were found, and all of them unless the
      search stopped. */
  ghost predicate Finds(s: Gathered, s': Gathered, can: set<nat>) {
    s.first <= s'.first <= s.first + can && (!s'.done ==> s'.first == s.first + can)
  }

  lemma CheckedFinds(m: Matrix, events: seq<nat>, evs: seq<nat>, R: seq<set<nat>>, t: Tel, s: Gathered)
    requires Shape(m, events, evs, R)
    ensures Checked(m, events, evs, R, t, s).first == s.first + Firsts(m, events, evs, R, t, |evs|)
  {
    forall f | f in evs && FiresFirst(m, events, evs, f) ensures Consistent(m, |m|, |events|) {
      FiresFirstIsConsistent(m, events, evs, f);
    }
  }

  lemma {:induction false} SearchFinds(
      m: Matrix, events: seq<nat>, evs: seq<nat>, R: seq<set<nat>>, X: seq<seq<nat>>, t: Tel, p: nat, s: Gathered)
    requires Shape(m, events, evs, R) && IsPlan(events, evs, R, X, t) && p <= |evs|
    requires UppersOpen(m, events, evs, R, t, p)
    ensures Finds(s, SearchCauses(m, events, evs, R, X, t, p, s), Firsts(m, events, evs, R, t, p))
    decreases |evs| - p, 1, 0
  {
    if p == |evs| {
      CheckedFinds(m, events, evs, R, t, s);
    } else {
      PlanSuffices(m, events, evs, R, X, t, p);
      ExploreFinds(m, events, evs, R, X, t, p, X[p], s);
    }
  }

  lemma {:induction false} ExploreFinds(
      m: Matrix, events: seq<nat>, evs: seq<nat>, R: seq<set<nat>>, X: seq<seq<nat>>, t: Tel, p: nat,
      rules: seq<nat>, s: Gathered)
    requires Shape(m, events, evs, R) && IsPlan(events, evs, R, X, t) && p < |evs|
    requires UppersOpen(m, events, evs, R, t, p) && forall r :: r in rules ==> r in R[p]
    ensures Finds(s, Explore(m, events, evs, R, X, t, p, rules, s), FirstsOf(m, events, evs, R, t, p, rules))
    decreases |evs| - p, 0, |rules|
  {
    if !s.done && rules != [] {
      var r := rules[0];
      var s' := Tried(m, events, evs, R, X, t, p, r, s);
      if t.enabling(r) in events {
        ChoiceKeepsOpen(m, events, evs, R, t, p, r);
        SearchFinds(WithCause(m, events, evs, t, p, r), events, evs, R, X, t, p + 1, s);
      }
      ExploreFinds(m, events, evs, R, X, t, p, rules[1..], s');
    }
  }

  lemma ChoiceKeepsOpen(m: Matrix, events: seq<nat>, evs: seq<nat>, R: seq<set<nat>>, t: Tel, p: nat, r: nat)
    requires Shape(m, events, evs, R) && UppersOpen(m, events, evs, R, t, p) && p < |evs|
    requires r in R[p] && t.enabling(r) in events
    ensures UppersOpen(WithCause(m, events, evs, t, p, r), events, evs, R, t, p + 1)
  {
  }

  /** The explored causes find what all causes allow. */
  lemma PlanSuffices(
      m: Matrix, events: seq<nat>, evs: seq<nat>, R: seq<set<nat>>, X: seq<seq<nat>>, t: Tel, p: nat)
    requires Shape(m, events, evs, R) && IsPlan(events, evs, R, X, t) && p < |evs|
    requires UppersOpen(m, events, evs, R, t, p)
    ensures (forall r :: r in X[p] ==> r in R[p])
    ensures FirstsOf(m, events, evs, R, t, p, X[p]) == Firsts(m, events, evs, R, t, p)
  {
    assert PlansFor(X[p], R[p], events, evs[p], t);
    forall f ensures f in FirstsOf(m, events, evs, R, t, p, X[p]) <==> f in Firsts(m, events, evs, R, t, p) {
      InFirstsOf(m, events, evs, R, t, p, X[p], f);
      CauseSuffices(m, events, evs, R, t, p, X[p], f);
    }
  }

  lemma {:induction false} InFirstsOf(
      m: Matrix, events: seq<nat>, evs: seq<nat>, R: seq<set<nat>>, t: Tel, p: nat, rules: seq<nat>, f: nat)
    requires Shape(m, events, evs, R) && p < |evs|
    ensures f in FirstsOf(m, events, evs, R, t, p, rules) <==>
      f in evs && exists r :: r in rules && CauseFires(m, events, evs, R, t, p, r, f)
  {
    if rules != [] {
      InFirstsOf(m, events, evs, R, t, p, rules[1..], f);
      assert f in FirstsBy(m, events, evs, R, t, p, rules[0]) <==>
        f in evs && CauseFires(m, events, evs, R, t, p, rules[0], f);
      assert forall r :: r in rules <==> r == rules[0] || r in rules[1..];
    }
  }

  lemma CauseSuffices(
      m: Matrix, events: seq<nat>, evs: seq<nat>, R: seq<set<nat>>, t: Tel, p: nat, rules: seq<nat>, f: nat)
    requires Shape(m, events, evs, R) && p < |evs| && UppersOpen(m, events, evs, R, t, p)
    requires PlansFor(rules, R[p], events, evs[p], t)
    ensures CanFire(m, events, evs, R, t, p, f) <==>
      exists r :: r in rules && CauseFires(m, events, evs, R, t, p, r, f)
  {
    if forall r :: r in rules <==> r in R[p] {
      if CanFire(m, events, evs, R, t, p, f) {
        var r := SomeChoiceFires(m, events, evs, R, t, p, f);
        assert CauseFires(m, events, evs, R, t, p, r, f);
      }
      if r: nat :| r in rules && CauseFires(m, events, evs, R, t, p, r, f) {
        ChosenFires(m, events, evs, R, t, p, r, f);
      }
    } else {
      var r :| rules == [r] && r in R[p] && t.enabling(r) in events && t.upper(t.enabling(r), evs[p]) == Unbounded;
      UnboundedRuleSuffices(m, events, evs, R, t, p, r, f);
      assert CauseFires(m, events, evs, R, t, p, r, f) <==> CanFire(m, events, evs, R, t, p, f);
    }
  }

  // Stopping early

  /** The number is not known yet, or counts events of which none is in can. */
  ghost predicate IsCount(cannotFire: int, evs: seq<nat>, can: set<nat>) {
    cannotFire == -1 || exists never :: CountsNever(cannotFire, evs, can, never)
  }

  ghost predicate CountsNever(cannotFire: int, evs: seq<nat>, can: set<nat>, never: set<nat>) {
    |never| == cannotFire && forall f :: f in never ==> f in evs && f !in can
  }

  /** A count that is still to be taken will be right: it covers no event of can. */
  ghost predicate CountsRight(
      m: Matrix, events: seq<nat>, evs: seq<nat>, R: seq<set<nat>>, t: Tel, cannotFire: int, can: set<nat>)
    requires Shape(m, events, evs, R)
  {
    cannotFire == -1 ==> forall f :: f in can ==> !IsNeverFirst(m, events, evs, R, t, f)
  }

  /** From s to s' a count that was known is kept, and where the search stopped
      all of can was found. */
  ghost predicate StopsRight(evs: seq<nat>, can: set<nat>, s: Gathered, s': Gathered) {
    && IsCount(s'.cannotFire, evs, can) && (s.cannotFire != -1 ==> s'.cannotFire == s.cannotFire)
    && (s'.done ==> can <= s'.first)
  }

  lemma CheckedStopsRight(
      m: Matrix, events: seq<nat>, evs: seq<nat>, R: seq<set<nat>>, t: Tel, s: Gathered, can: set<nat>)
    requires Shape(m, events, evs, R) && CountsRight(m, events, evs, R, t, s.cannotFire, can)
    requires IsCount(s.cannotFire, evs, can)
    requires Firsts(m, events, evs, R, t, |evs|) <= can && forall f :: f in can ==> f in evs
    ensures StopsRight(evs, can, s, Checked(m, events, evs, R, t, s))
  {
    var late, s' := LateEvents(m, events, evs), Checked(m, events, evs, R, t, s);
    if Consistent(m, |m|, |events|) {
      if s.cannotFire == -1 && late != {} {
        assert CountsNever(s'.cannotFire, evs, can, NeverFirsts(m, events, evs, R, t, late));
      }
      if s'.cannotFire == |late| {
        CountIsLate(m, events, evs, R, t, can);
      }
      forall f | late == {} && f in can ensures f in EarlyEvents(m, events, evs) {
        assert f !in late;
      }
    }
  }

  /** As many events that cannot come first as are late: the others are early. */
  lemma CountIsLate(m: Matrix, events: seq<nat>, evs: seq<nat>, R: seq<set<nat>>, t: Tel, can: set<nat>)
    requires Shape(m, events, evs, R) && IsCount(|LateEvents(m, events, evs)|, evs, can)
    requires Firsts(m, events, evs, R, t, |evs|) <= can && forall f :: f in can ==> f in evs
    ensures can <= EarlyEvents(m, events, evs)
  {
    var late := LateEvents(m, events, evs);
    var never :| CountsNever(|late|, evs, can, never);
    forall f | f in evs && FiresFirst(m, events, evs, f) ensures f in can {
      assert f in Firsts(m, events, evs, R, t, |evs|);
    }
    EqualSizes(never, late);
  }

  lemma EqualSizes(a: set<nat>, b: set<nat>)
    requires a <= b && |a| == |b|
    ensures a == b
  {
    assert b == a + (b - a) && |b - a| == |b| - |a|;
  }

  lemma {:induction false} SearchStopsRight(
      m: Matrix, events: seq<nat>, evs: seq<nat>, R: seq<set<nat>>, X: seq<seq<nat>>, t: Tel, p: nat, s: Gathered,
      can: set<nat>)
    requires Shape(m, events, evs, R) && IsPlan(events, evs, R, X, t) && p <= |evs|
    requires CountsRight(m, events, evs, R, t, s.cannotFire, can) && IsCount(s.cannotFire, evs, can) && !s.done
    requires UppersOpen(m, events, evs, R, t, p)
    requires Firsts(m, events, evs, R, t, p) <= can && forall f :: f in can ==> f in evs
    ensures StopsRight(evs, can, s, SearchCauses(m, events, evs, R, X, t, p, s))
    decreases |evs| - p, 1, 0
  {
    if p == |evs| {
      CheckedStopsRight(m, events, evs, R, t, s, can);
    } else {
      PlanSuffices(m, events, evs, R, X, t, p);
      ExploreStopsRight(m, events, evs, R, X, t, p, X[p], s, can);
    }
  }

  lemma {:induction false} ExploreStopsRight(
      m: Matrix, events: seq<nat>, evs: seq<nat>, R: seq<set<nat>>, X: seq<seq<nat>>, t: Tel, p: nat,
      rules: seq<nat>, s: Gathered, can: set<nat>)
    requires Shape(m, events, evs, R) && IsPlan(events, evs, R, X, t) && p < |evs|
    requires CountsRight(m, events, evs, R, t, s.cannotFire, can) && StopsRight(evs, can, s, s)
    requires UppersOpen(m, events, evs, R, t, p) && forall r :: r in rules ==> r in R[p]
    requires FirstsOf(m, events, evs, R, t, p, rules) <= can && forall f :: f in can ==> f in evs
    ensures StopsRight(evs, can, s, Explore(m, events, evs, R, X, t, p, rules, s))
    decreases |evs| - p, 0, |rules|
  {
    if !s.done && rules != [] {
      var s' := Tried(m, events, evs, R, X, t, p, rules[0], s);
      TriedStopsRight(m, events, evs, R, X, t, p, rules[0], s, can);
      ExploreStopsRight(m, events, evs, R, X, t, p, rules[1..], s', can);
    }
  }

  lemma {:induction false} TriedStopsRight(
      m: Matrix, events: seq<nat>, evs: seq<nat>, R: seq<set<nat>>, X: seq<seq<nat>>, t: Tel, p: nat, r: nat,
      s: Gathered, can: set<nat>)
    requires Shape(m, events, evs, R) && IsPlan(events, evs, R, X, t) && p < |evs| && r in R[p]
    requires CountsRight(m, events, evs, R, t, s.cannotFire, can) && StopsRight(evs, can, s, s) && !s.done
    requires UppersOpen(m, events, evs, R, t, p)
    requires FirstsBy(m, events, evs, R, t, p, r) <= can && forall f :: f in can ==> f in evs
    ensures StopsRight(evs, can, s, Tried(m, events, evs, R, X, t, p, r, s))
    decreases |evs| - p, 0, 0
  {
    if t.enabling(r) in events {
      ChoiceKeepsOpen(m, events, evs, R, t, p, r);
      ChoiceCountsRight(m, events, evs, R, t, p, r, s.cannotFire, can);
      SearchStopsRight(WithCause(m, events, evs, t, p, r), events, evs, R, X, t, p + 1, s, can);
    }
  }

  lemma ChoiceCountsRight(
      m: Matrix, events: seq<nat>, evs: seq<nat>, R: seq<set<nat>>, t: Tel, p: nat, r: nat, cannotFire: int,
      can: set<nat>)
    requires Shape(m, events, evs, R) && p < |evs| && r in R[p] && t.enabling(r) in events
    requires CountsRight(m, events, evs, R, t, cannotFire, can)
    ensures CountsRight(WithCause(m, events, evs, t, p, r), events, evs, R, t, cannotFire, can)
  {
    ChoiceSetsUppers(m, events, evs, R, t, p, r);
    forall f | cannotFire == -1 && f in can
      ensures !IsNeverFirst(WithCause(m, events, evs, t, p, r), events, evs, R, t, f)
    {
      NeverFirstAlike(m, WithCause(m, events, evs, t, p, r), events, evs, R, t, f);
    }
  }

  // When the search finds everything

  /** It finds everything unless it counts an event that can fire first. */
  lemma SearchIsComplete(
      m: Matrix, events: seq<nat>, evs: seq<nat>, R: seq<set<nat>>, X: seq<seq<nat>>, t: Tel, s: Gathered)
    requires Shape(m, events, evs, R) && IsPlan(events, evs, R, X, t) && UppersOpen(m, events, evs, R, t, 0)
    requires CountsRight(m, events, evs, R, t, s.cannotFire, Firsts(m, events, evs, R, t, 0)) && !s.done
    requires IsCount(s.cannotFire, evs, Firsts(m, events, evs, R, t, 0))
    ensures SearchCauses(m, events, evs, R, X, t, 0, s).first == s.first + Firsts(m, events, evs, R, t, 0)
  {
    SearchFinds(m, events, evs, R, X, t, 0, s);
    SearchStopsRight(m, events, evs, R, X, t, 0, s, Firsts(m, events, evs, R, t, 0));
  }

  /** With the early exit off, that is with a count of 0, the search is complete
      without any condition. */
  lemma FullSearchIsComplete(
      m: Matrix, events: seq<nat>, evs: seq<nat>, R: seq<set<nat>>, X: seq<seq<nat>>, t: Tel, Ef: set<nat>)
    requires Shape(m, events, evs, R) && IsPlan(events, evs, R, X, t) && UppersOpen(m, events, evs, R, t, 0)
    ensures SearchCauses(m, events, evs, R, X, t, 0, Gathered(false, Ef, 0)).first ==
      Ef + Firsts(m, events, evs, R, t, 0)
  {
    assert CountsNever(0, evs, Firsts(m, events, evs, R, t, 0), {});
    SearchIsComplete(m, events, evs, R, X, t, Gathered(false, Ef, 0));
  }

  /** With the exit on, it is complete where no fired cause of an enabled event
      is enabled again and no lower bound is negative. */
  lemma SearchIsCompleteWhenOver(
      m: Matrix, events: seq<nat>, evs: seq<nat>, R: seq<set<nat>>, X: seq<seq<nat>>, t: Tel, Ef: set<nat>)
    requires Shape(m, events, evs, R) && IsPlan(events, evs, R, X, t) && Distinct(evs)
    requires UppersOpen(m, events, evs, R, t, 0) && CausesComeBefore(m, events, evs, R, t)
    ensures SearchCauses(m, events, evs, R, X, t, 0, Gathered(false, Ef, -1)).first ==
      Ef + Firsts(m, events, evs, R, t, 0)
  {
    forall f | f in Firsts(m, events, evs, R, t, 0) ensures !IsNeverFirst(m, events, evs, R, t, f) {
      if IsNeverFirst(m, events, evs, R, t, f) {
        NeverFirstCannotFire(m, events, evs, R, t, 0, f);
      }
    }
    SearchIsComplete(m, events, evs, R, X, t, Gathered(false, Ef, -1));
  }

  /** It is complete, too, where every event has at most one cause to explore:
      there is one configuration only. */
  lemma {:induction false} SingleCausesAreComplete(
      m: Matrix, events: seq<nat>, evs: seq<nat>, R: seq<set<nat>>, X: seq<seq<nat>>, t: Tel, p: nat, s: Gathered)
    requires Shape(m, events, evs, R) && IsPlan(events, evs, R, X, t) && UppersOpen(m, events, evs, R, t, p)
    requires p <= |evs| && !s.done && forall q :: p <= q < |X| ==> |X[q]| <= 1
    ensures SearchCauses(m, events, evs, R, X, t, p, s).first == s.first + Firsts(m, events, evs, R, t, p)
    decreases |evs| - p
  {
    if p == |evs| {
      CheckedFinds(m, events, evs, R, t, s);
    } else {
      PlanSuffices(m, events, evs, R, X, t, p);
      if X[p] != [] {
        var r := X[p][0];
        var s' := Tried(m, events, evs, R, X, t, p, r, s);
        if t.enabling(r) in events {
          ChoiceKeepsOpen(m, events, evs, R, t, p, r);
          SingleCausesAreComplete(WithCause(m, events, evs, t, p, r), events, evs, R, X, t, p + 1, s);
        }
        assert X[p][1..] == [];
        assert SearchCauses(m, events, evs, R, X, t, p, s) == Explore(m, events, evs, R, X, t, p, X[p][1..], s');
        assert FirstsOf(m, events, evs, R, t, p, X[p]) == FirstsBy(m, events, evs, R, t, p, r);
      }
    }
  }
}
