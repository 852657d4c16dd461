/** What can_never_fire_first and count_non_fire_first_events of src/bap.cc decide,
    said on timings: which late events are counted. */
module Expiry {
  import opened Dbm
  import opened Zones
  import opened Closure
  import opened Sequences
  import opened TimedRules
  import opened Posets
  import opened CausalChoices
  import opened NeverFirst
  import opened Runs

  // Rules out of time

  /** For the bound u on t(j) - t(i): some timing has i later than j by more than
      u, or every timing has j later than i by more than u.  An event is never in
      time against itself. */
  ghost predicate IsOutOfTime(m: Matrix, n: nat, i: nat, j: nat, u: Bound)
    requires IsMatrix(m, n) && i < n && j < n
  {
    u.Fin? && (i == j || SomeLater(m, n, i, j, u.v) || AllLater(m, n, j, i, u.v))
  }

  ghost predicate SomeLater(m: Matrix, n: nat, i: nat, j: nat, d: int)
    requires IsMatrix(m, n) && i < n && j < n
  {
    exists tau {:trigger Sat(m, tau)} :: |tau| == n && Sat(m, tau) && tau[i] - tau[j] > d
  }

  ghost predicate AllLater(m: Matrix, n: nat, i: nat, j: nat, d: int)
    requires IsMatrix(m, n) && i < n && j < n
  {
    forall tau {:trigger Sat(m, tau)} :: |tau| == n && Sat(m, tau) ==> tau[i] - tau[j] > d
  }

  /** The test of an entry of the closed matrix, in either direction. */
  lemma InTimeIff(c: Matrix, n: nat, i: nat, j: nat, u: Bound)
    requires IsMatrix(c, n) && Canonical(c, n, 0, n) && i < n && j < n && i != j
    ensures InTime(c[i][j], u) <==> !IsOutOfTime(c, n, i, j, u)
  {
    if u.Fin? {
      var tau := LatestTiming(c, n, j, u.v + 1);
      forall tau' | |tau'| == n && Sat(c, tau') ensures Allows(c[i][j], tau'[i] - tau'[j]) {
        SatAt(c, tau', i, j);
      }
      assert c[i][j].Fin? ==> tau[i] - tau[j] == c[i][j].v;
      assert !c[i][j].Fin? ==> tau[i] - tau[j] > u.v;
    }
  }

  lemma SameOutOfTime(m: Matrix, c: Matrix, n: nat, i: nat, j: nat, u: Bound)
    requires Tightens(m, c, n) && i < n && j < n
    ensures IsOutOfTime(m, n, i, j, u) <==> IsOutOfTime(c, n, i, j, u)
  {
  }

  /** The test of the entry for i and j. */
  ghost predicate EntryExpired(c: Matrix, n: nat, i: nat, j: nat, u: Bound)
    requires IsMatrix(c, n) && i < n && j < n
  {
    !InTime(if i == j then Unbounded else c[i][j], u)
  }

  lemma EntryExpiredIff(m: Matrix, c: Matrix, n: nat, i: nat, j: nat, u: Bound)
    requires Tightens(m, c, n) && Canonical(c, n, 0, n) && i < n && j < n
    ensures EntryExpired(c, n, i, j, u) <==> IsOutOfTime(m, n, i, j, u)
  {
    if i != j {
      InTimeIff(c, n, i, j, u);
      SameOutOfTime(m, c, n, i, j, u);
    }
  }

  /** Which entry the test of a rule looks at. */
  lemma ExpiredByEntry(all: seq<nat>, c: Matrix, evs: seq<nat>, o: nat, t: Tel, k: nat, r: nat)
    requires EndsWith(all, evs, o) && Distinct(evs) && k < |evs| && t.enabling(r) in all && IsMatrix(c, |all|)
    ensures Expired(all, c, r, t, evs[k]) <==>
      EntryExpired(c, |all|, FirstIndex(all, t.enabling(r)), o + k, t.upper(t.enabling(r), evs[k]))
  {
    SeparationFound(all, c, evs, o, t.enabling(r), k);
  }

  lemma SeparationFound(all: seq<nat>, c: Matrix, evs: seq<nat>, o: nat, e: nat, k: nat)
    requires EndsWith(all, evs, o) && Distinct(evs) && k < |evs| && e in all && IsMatrix(c, |all|)
    ensures CausalSeparation(all, c, e, evs[k]) ==
      if FirstIndex(all, e) == o + k then Unbounded else c[FirstIndex(all, e)][o + k]
  {
    var i := FirstIndex(all, e);
    FirstPlaces(all, evs, o, e, i, k);
    if i != o + k {
      SeparationAt(all, c, e, evs[k], i, o + k);
    }
  }

  // The consistency test

  /** With no cause chosen the added events can be as late as the lower bounds ask
      for, so the consistency test of an event put first never fails. */
  lemma WithFirstIsConsistent(m: Matrix, events: seq<nat>, evs: seq<nat>, e: nat)
    requires IsMatrix(m, |events| + |evs|) && PrefixCanonical(m, |events| + |evs|, |events|) && e in events + evs
    ensures Consistent(WithFirst(m, events, evs, e), |events| + |evs|, |events|)
  {
    var o, n, w := |events|, |events| + |evs|, WithFirst(m, events, evs, e);
    BlockOfCanonical(m, n, 0, o, o);
    CanonicalIsSatisfiable(Block(m, n, 0, o), o);
    var past: seq<int> :| |past| == o && Sat(Block(m, n, 0, o), past);
    var late := LateEnough(m, n, o, past, o);
    var tau := past + seq(|evs|, _ => late);
    forall i, j | 0 <= i < n && 0 <= j < n ensures Allows(w[i][j], tau[i] - tau[j]) {
      if i < o && j < o {
        SatAt(Block(m, n, 0, o), past, i, j);
      } else if i < o {
        assert IsLateEnough(m, n, o, i, past[i], n, late);
      }
    }
    assert Sat(w, tau);
    forall i, j | o <= i < n && 0 <= j < o ensures CanFollow(w, n, i, j) {
      assert IsLateEnough(m, n, o, j, past[j], n, late);
      assert tau[i] >= tau[j];
    }
  }

  /** If event i came at x, the events from o to k may all come at this time. */
  ghost predicate IsLateEnough(m: Matrix, n: nat, o: nat, i: nat, x: int, k: nat, late: int)
    requires IsMatrix(m, n) && i < n && k <= n
  {
    x <= late && forall j :: o <= j < k ==> Allows(m[i][j], x - late)
  }

  lemma {:induction false} LateEnough(m: Matrix, n: nat, o: nat, past: seq<int>, k: nat) returns (late: int)
    requires IsMatrix(m, n) && k <= o <= n && |past| == o
    ensures forall i :: 0 <= i < k ==> IsLateEnough(m, n, o, i, past[i], n, late)
    decreases k
  {
    if k == 0 {
      late := 0;
    } else {
      var before := LateEnough(m, n, o, past, k - 1);
      var row := RowLateEnough(m, n, o, k - 1, past[k - 1], n);
      late := if before <= row then row else before;
      forall i | 0 <= i < k ensures IsLateEnough(m, n, o, i, past[i], n, late) {
        assert IsLateEnough(m, n, o, i, past[i], n, if i < k - 1 then before else row);
      }
    }
  }

  lemma {:induction false} RowLateEnough(m: Matrix, n: nat, o: nat, i: nat, x: int, k: nat) returns (late: int)
    requires IsMatrix(m, n) && i < o <= k <= n
    ensures IsLateEnough(m, n, o, i, x, k, late)
    decreases k
  {
    if k == o {
      late := x;
    } else {
      late := RowLateEnough(m, n, o, i, x, k - 1);
      if m[i][k - 1].Fin? && x - late > m[i][k - 1].v {
        late := x - m[i][k - 1].v;
      }
    }
  }

  // Which events are counted

  /** Every rule of event k that does not wait for e, and whose enabling event is
      in the poset, is out of time under the bounds w. */
  ghost predicate NoneInTime(
      w: Matrix, events: seq<nat>, evs: seq<nat>, rules: set<nat>, t: Tel, e: nat, k: nat)
    requires IsMatrix(w, |events| + |evs|) && k < |evs|
  {
    forall r :: r in rules && t.enabling(r) != e && t.enabling(r) in events + evs ==>
      RuleOutOfTime(w, events, evs, t, r, k)
  }

  ghost predicate RuleOutOfTime(w: Matrix, events: seq<nat>, evs: seq<nat>, t: Tel, r: nat, k: nat)
    requires IsMatrix(w, |events| + |evs|) && k < |evs| && t.enabling(r) in events + evs
  {
    IsOutOfTime(w, |events| + |evs|, FirstIndex(events + evs, t.enabling(r)), |events| + k,
                t.upper(t.enabling(r), evs[k]))
  }

  /** The same of the entries of the closed matrix. */
  ghost predicate NoEntryInTime(
      c: Matrix, events: seq<nat>, evs: seq<nat>, rules: set<nat>, t: Tel, e: nat, k: nat)
    requires IsMatrix(c, |events| + |evs|) && k < |evs|
  {
    forall r :: r in rules && t.enabling(r) != e && t.enabling(r) in events + evs ==>
      RuleEntryExpired(c, events, evs, t, r, k)
  }

  ghost predicate RuleEntryExpired(c: Matrix, events: seq<nat>, evs: seq<nat>, t: Tel, r: nat, k: nat)
    requires IsMatrix(c, |events| + |evs|) && k < |evs| && t.enabling(r) in events + evs
  {
    EntryExpired(c, |events| + |evs|, FirstIndex(events + evs, t.enabling(r)), |events| + k,
                 t.upper(t.enabling(r), evs[k]))
  }

  lemma AllExpiredByEntry(c: Matrix, events: seq<nat>, evs: seq<nat>, rules: set<nat>, t: Tel, e: nat, k: nat)
    requires IsMatrix(c, |events| + |evs|) && Distinct(evs) && k < |evs|
    ensures AllExpired(events + evs, c, rules, t, evs[k], e) <==> NoEntryInTime(c, events, evs, rules, t, e, k)
  {
    forall r | r in rules && t.enabling(r) in events + evs
      ensures Expired(events + evs, c, r, t, evs[k]) <==> RuleEntryExpired(c, events, evs, t, r, k)
    {
      ExpiredByEntry(events + evs, c, evs, |events|, t, k, r);
    }
  }

  lemma NoEntryInTimeIff(
      w: Matrix, events: seq<nat>, evs: seq<nat>, rules: set<nat>, t: Tel, e: nat, k: nat)
    requires IsMatrix(w, |events| + |evs|) && k < |evs|
    requires ZeroDiagonal(w, |w|, 0, |w|) && Satisfiable(w, |w|)
    ensures NoEntryInTime(FullClosure(w, |w|), events, evs, rules, t, e, k)
       <==> NoneInTime(w, events, evs, rules, t, e, k)
  {
    var n, c := |w|, FullClosure(w, |w|);
    ClosureIsCanonical(w, n, n);
    ClosedByTightens(w, n, n);
    forall r | r in rules && t.enabling(r) in events + evs
      ensures RuleEntryExpired(c, events, evs, t, r, k) <==> RuleOutOfTime(w, events, evs, t, r, k)
    {
      EntryExpiredIff(w, c, n, FirstIndex(events + evs, t.enabling(r)), |events| + k,
                      t.upper(t.enabling(r), evs[k]));
    }
  }

  /** An event is counted if and only if, with it put first and no cause chosen,
      some enabled event has no rule in time. */
  lemma NeverFirstIff(m: Matrix, events: seq<nat>, evs: seq<nat>, R: seq<set<nat>>, t: Tel, e: nat)
    requires Shape(m, events, evs, R) && Distinct(evs) && PrefixCanonical(m, |m|, |events|) && e in events + evs
    ensures IsNeverFirst(m, events, evs, R, t, e) <==>
      e in evs && exists k :: 0 <= k < |evs| && NoneInTime(WithFirst(m, events, evs, e), events, evs, R[k], t, e, k)
  {
    var w := WithFirst(m, events, evs, e);
    WithFirstIsConsistent(m, events, evs, e);
    WithFirstKeepsPrefix(m, events, evs, e);
    forall k | 0 <= k < |evs|
      ensures AllExpired(events + evs, FullClosure(w, |m|), R[k], t, evs[k], e) <==>
        NoneInTime(w, events, evs, R[k], t, e, k)
    {
      AllExpiredByEntry(FullClosure(w, |m|), events, evs, R[k], t, e, k);
      NoEntryInTimeIff(w, events, evs, R[k], t, e, k);
    }
  }

  // The same without matrices

  /** Firing times that keep the past and the lower bounds set by add, with the
      oldest copy of e no later than any enabled event; no cause is chosen. */
  ghost predicate IsPutFirst(events: seq<nat>, m0: Matrix, Een: seq<seq<nat>>, t: Tel, e: nat, tau: seq<int>)
    requires AreRuleSets(Een) && IsMatrix(m0, |events|) && e in events + EnabledEvents(Een, t)
  {
    && |tau| == |events| + |Een| && Sat(m0, tau[..|events|]) && LowersKept(events, Een, t, tau)
    && forall j :: |events| <= j < |tau| ==> tau[FirstIndex(events + EnabledEvents(Een, t), e)] <= tau[j]
  }

  lemma FirstTimings(events: seq<nat>, m0: Matrix, Een: seq<seq<nat>>, t: Tel, m: Matrix, e: nat, tau: seq<int>)
    requires AreRuleSets(Een) && IsMatrix(m0, |events|) && IsExtension(events, m0, Een, t, m)
    requires e in EnabledEvents(Een, t) && e in events + EnabledEvents(Een, t) && |tau| == |events| + |Een|
    ensures Sat(WithFirst(m, events, EnabledEvents(Een, t), e), tau) <==> IsPutFirst(events, m0, Een, t, e, tau)
  {
    var evs, o, n := EnabledEvents(Een, t), |events|, |events| + |Een|;
    var i, w := FirstIndex(events + evs, e), WithFirst(m, events, evs, e);
    ExtensionTimings(events, m0, Een, t, m, tau);
    assert (events + evs)[i] == e && (i < o ==> events[i] == e);
    forall y | o <= y < n && y != i ensures m[i][y] == Unbounded {
      if i < o {
        assert m[i][y] == LowerEntry(events, Een, t, RulesDone(Een, y - o, |Een|, []), i, y - o);
      }
    }
    if Sat(w, tau) {
      forall x, y | 0 <= x < n && 0 <= y < n ensures Allows(m[x][y], tau[x] - tau[y]) {
        SatAt(w, tau, x, y);
      }
      forall y | o <= y < n ensures tau[i] <= tau[y] {
        SatAt(w, tau, i, y);
      }
    }
    if IsPutFirst(events, m0, Een, t, e, tau) {
      forall x, y | 0 <= x < n && 0 <= y < n ensures Allows(w[x][y], tau[x] - tau[y]) {
        SatAt(m, tau, x, y);
      }
    }
  }

  /** Some such timing keeps the upper bound of rule r, whose cause has fired. */
  ghost predicate SomeKeepsUpper(
      events: seq<nat>, m0: Matrix, Een: seq<seq<nat>>, t: Tel, e: nat, k: nat, r: nat)
    requires AreRuleSets(Een) && IsMatrix(m0, |events|) && e in events + EnabledEvents(Een, t)
    requires k < |Een| && t.enabling(r) in events
  {
    exists tau :: IsPutFirst(events, m0, Een, t, e, tau) && UpperHolds(events, EnabledEvents(Een, t), t, r, tau, k)
  }

  /** A rule whose cause is over is out of time exactly if no such timing keeps
      its upper bound. */
  lemma OverOutOfTime(
      events: seq<nat>, m0: Matrix, Een: seq<seq<nat>>, t: Tel, m: Matrix, e: nat, k: nat, r: nat)
    requires AreRulesOf(Een, t) && IsMatrix(m0, |events|) && IsExtension(events, m0, Een, t, m)
    requires CausesAreOver(events, Een, t) && e in EnabledEvents(Een, t) && e in events + EnabledEvents(Een, t)
    requires k < |Een| && r in Een[k] && t.enabling(r) in events && t.enabling(r) in events + EnabledEvents(Een, t)
    ensures RuleOutOfTime(WithFirst(m, events, EnabledEvents(Een, t), e), events, EnabledEvents(Een, t), t, r, k) <==>
      t.upper(t.enabling(r), EnabledEvents(Een, t)[k]).Fin? && !SomeKeepsUpper(events, m0, Een, t, e, k, r)
  {
    var evs, o, n := EnabledEvents(Een, t), |events|, |events| + |Een|;
    var w, i, j := WithFirst(m, events, evs, e), FirstIndex(events, t.enabling(r)), o + k;
    var u := t.upper(t.enabling(r), evs[k]);
    FiredIndex(events, evs, t.enabling(r));
    forall tau | |tau| == n && Sat(w, tau)
      ensures tau[i] <= tau[j] && IsPutFirst(events, m0, Een, t, e, tau)
    {
      FirstTimings(events, m0, Een, t, m, e, tau);
      CauseComesBefore(events, m0, Een, t, e, k, r, tau);
    }
    if u.Fin? {
      if tau: seq<int> :| IsPutFirst(events, m0, Een, t, e, tau) && UpperHolds(events, evs, t, r, tau, k) {
        FirstTimings(events, m0, Een, t, m, e, tau);
        assert Sat(w, tau) && tau[j] - tau[i] <= u.v;
      }
    }
  }

  lemma FiredIndex(events: seq<nat>, evs: seq<nat>, e: nat)
    requires e in events && e in events + evs
    ensures FirstIndex(events + evs, e) == FirstIndex(events, e)
  {
    var i := FirstIndex(events, e);
    assert (events + evs)[i] == e;
    assert FirstIndex(events + evs, e) < |events|;
  }

  lemma CauseComesBefore(
      events: seq<nat>, m0: Matrix, Een: seq<seq<nat>>, t: Tel, e: nat, k: nat, r: nat, tau: seq<int>)
    requires AreRulesOf(Een, t) && IsMatrix(m0, |events|) && CausesAreOver(events, Een, t)
    requires e in events + EnabledEvents(Een, t) && IsPutFirst(events, m0, Een, t, e, tau)
    requires k < |Een| && r in Een[k] && t.enabling(r) in events
    ensures tau[FirstIndex(events, t.enabling(r))] <= tau[|events| + k]
  {
    var p :| 0 <= p < |Een[k]| && Een[k][p] == r;
    assert WaitsFor(Een[k], t, t.enabling(r));
    assert IsNotNegative(t.lower(t.enabling(r), GetEnabled(Een[k], t)));
    assert LowerHolds(events, Een, t, tau, k, t.enabling(r));
  }

  /** A rule that waits for an event not fired yet is never in time. */
  lemma UnfiredOutOfTime(
      m: Matrix, events: seq<nat>, evs: seq<nat>, t: Tel, e: nat, k: nat, r: nat, tau: seq<int>)
    requires IsMatrix(m, |events| + |evs|) && e in events + evs && k < |evs|
    requires t.enabling(r) in events + evs && t.enabling(r) !in events && t.enabling(r) != e
    requires |tau| == |events| + |evs| && Sat(WithFirst(m, events, evs, e), tau)
    ensures RuleOutOfTime(WithFirst(m, events, evs, e), events, evs, t, r, k) <==> t.upper(t.enabling(r), evs[k]).Fin?
  {
    var all, n, w, j := events + evs, |events| + |evs|, WithFirst(m, events, evs, e), |events| + k;
    var i, u := FirstIndex(all, t.enabling(r)), t.upper(t.enabling(r), evs[k]);
    assert all[i] == t.enabling(r) && all[FirstIndex(all, e)] == e && i >= |events|;
    if u.Fin? && i != j {
      var d := if u.v + 1 > tau[i] - tau[j] then u.v + 1 + tau[j] - tau[i] else 0;
      var late := tau[i := tau[i] + d];
      forall x, y | 0 <= x < n && 0 <= y < n ensures Allows(w[x][y], late[x] - late[y]) {
        SatAt(w, tau, x, y);
      }
      assert Sat(w, late) && late[i] - late[j] > u.v;
    }
  }

  /** No rule of event k that does not wait for e, and whose enabling event is in
      the poset, has fired its cause and may still be in time. */
  ghost predicate NoRuleKept(events: seq<nat>, m0: Matrix, Een: seq<seq<nat>>, t: Tel, e: nat, k: nat)
    requires AreRuleSets(Een) && IsMatrix(m0, |events|) && e in events + EnabledEvents(Een, t) && k < |Een|
  {
    forall r :: r in Een[k] && t.enabling(r) != e && t.enabling(r) in events + EnabledEvents(Een, t) ==>
      && t.upper(t.enabling(r), EnabledEvents(Een, t)[k]).Fin?
      && (t.enabling(r) in events ==> !SomeKeepsUpper(events, m0, Een, t, e, k, r))
  }

  /** Where causes are over, an event is counted if and only if, with it put
      first, some enabled event has no rule whose upper bound a timing keeps. */
  lemma CountedIff(events: seq<nat>, m0: Matrix, Een: seq<seq<nat>>, t: Tel, m: Matrix, e: nat)
    requires AreRulesOf(Een, t) && IsMatrix(m0, |events|) && Canonical(m0, |events|, 0, |events|)
    requires IsExtension(events, m0, Een, t, m) && CausesAreOver(events, Een, t)
    requires e in EnabledEvents(Een, t) && e in events + EnabledEvents(Een, t)
    ensures IsNeverFirst(m, events, EnabledEvents(Een, t), RuleSets(Een), t, e)
       <==> exists k :: 0 <= k < |Een| && NoRuleKept(events, m0, Een, t, e, k)
  {
    var evs, R := EnabledEvents(Een, t), RuleSets(Een);
    ExtensionIsReady(events, m0, Een, t, m);
    NeverFirstIff(m, events, evs, R, t, e);
    WithFirstIsConsistent(m, events, evs, e);
    forall k | 0 <= k < |Een|
      ensures NoneInTime(WithFirst(m, events, evs, e), events, evs, R[k], t, e, k)
         <==> NoRuleKept(events, m0, Een, t, e, k)
    {
      NoneInTimeIff(events, m0, Een, t, m, e, k);
    }
  }

  lemma NoneInTimeIff(events: seq<nat>, m0: Matrix, Een: seq<seq<nat>>, t: Tel, m: Matrix, e: nat, k: nat)
    requires AreRulesOf(Een, t) && IsMatrix(m0, |events|) && IsExtension(events, m0, Een, t, m)
    requires CausesAreOver(events, Een, t) && k < |Een|
    requires e in EnabledEvents(Een, t) && e in events + EnabledEvents(Een, t)
    requires Satisfiable(WithFirst(m, events, EnabledEvents(Een, t), e), |events| + |Een|)
    ensures NoneInTime(
        WithFirst(m, events, EnabledEvents(Een, t), e), events, EnabledEvents(Een, t), RuleSets(Een)[k], t, e, k)
      <==> NoRuleKept(events, m0, Een, t, e, k)
  {
    var evs, w := EnabledEvents(Een, t), WithFirst(m, events, EnabledEvents(Een, t), e);
    var tau :| |tau| == |events| + |Een| && Sat(w, tau);
    forall r | r in Een[k] && t.enabling(r) != e && t.enabling(r) in events + evs
      ensures RuleOutOfTime(w, events, evs, t, r, k) <==>
        && t.upper(t.enabling(r), evs[k]).Fin?
        && (t.enabling(r) in events ==> !SomeKeepsUpper(events, m0, Een, t, e, k, r))
    {
      if t.enabling(r) in events {
        OverOutOfTime(events, m0, Een, t, m, e, k, r);
      } else {
        UnfiredOutOfTime(m, events, evs, t, e, k, r, tau);
      }
    }
  }
}
