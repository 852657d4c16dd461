/** Lists without repetition, and lists with a given end. */
module Sequences {

  ghost predicate Distinct(s: seq<nat>) {
    forall a, b :: 0 <= a < b < |s| ==> s[a] != s[b]
  }

  /** s is made of o members and then those of end. */
  ghost predicate EndsWith(s: seq<nat>, end: seq<nat>, o: nat) {
    |s| == o + |end| && forall k :: o <= k < |s| ==> s[k] == end[k - o]
  }
}
