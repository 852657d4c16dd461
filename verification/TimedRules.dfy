/** The rules of class tel: an enabling and an enabled event, a lower and an upper
    bound; an infinite bound is Unbounded. */
module TimedRules {
  import opened Dbm

  datatype Tel = Tel(
    enabling: nat -> nat,
    enabled: nat -> nat,
    lower: (nat, nat) -> Bound,
    upper: (nat, nat) -> Bound)
  {
    predicate IsUnbounded(e: nat, f: nat) {
      upper(e, f) == Unbounded
    }
  }

  /** A rule set lists the rules of one event; it is never empty. */
  ghost predicate AreRuleSets(Een: seq<seq<nat>>) {
    forall k :: 0 <= k < |Een| ==> Een[k] != []
  }

  function GetEnabled(rules: seq<nat>, t: Tel): nat
    requires rules != []
  {
    t.enabled(rules[0])
  }

  function EnabledEvents(Een: seq<seq<nat>>, t: Tel): (evs: seq<nat>)
    requires AreRuleSets(Een)
    ensures |evs| == |Een| && forall k :: 0 <= k < |Een| ==> evs[k] == GetEnabled(Een[k], t)
  {
    seq(|Een|, k requires 0 <= k < |Een| && AreRuleSets(Een) => GetEnabled(Een[k], t))
  }

  /** Some rule of the list waits for event e. */
  ghost predicate WaitsFor(rules: seq<nat>, t: Tel, e: nat) {
    exists p :: 0 <= p < |rules| && t.enabling(rules[p]) == e
  }

  /** An event that comes d after its cause meets the lower bound of the rule; an
      infinite one asks for INT_MAX - 1, the number that the source stores. */
  ghost predicate MeetsLower(lower: Bound, d: int) {
    (lower.Fin? ==> d >= lower.v) && (lower.Unbounded? ==> d >= 2147483646)
  }
}
