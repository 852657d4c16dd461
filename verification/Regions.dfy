/** The excitation regions of src/bddrsg.c, with each BDD read as the set of states it holds of. */
module Regions {

  /** A valuation of the signals. */
  type State = seq<bool>

  /** Pairs of a state and a next state. */
  type Relation = set<(State, State)>

  predicate Joined(N: Relation, x: State, y: State) {
    (x, y) in N || (y, x) in N
  }

  /** c is part of t, and N joins nothing in it to the rest of t. */
  ghost predicate IsClosed(N: Relation, t: set<State>, c: set<State>) {
    c <= t && forall x, y :: x in c && y in t && Joined(N, x, y) ==> y in c
  }

  /** r is the least closed part of t around the seed. */
  ghost predicate IsRegion(N: Relation, t: set<State>, seed: set<State>, r: set<State>) {
    && seed <= r && IsClosed(N, t, r)
    && forall c :: IsClosed(N, t, c) && seed <= c ==> r <= c
  }

  /** The states of t with a next state in u. */
  function Predecessors(N: Relation, t: set<State>, u: set<State>): set<State> {
    set x | x in t && exists y :: y in u && (x, y) in N
  }

  /** The states of t that are a next state of one in u. */
  function Successors(N: Relation, t: set<State>, u: set<State>): set<State> {
    set y | y in t && exists x :: x in u && (x, y) in N
  }

  method GrowRegion(N: Relation, t: set<State>, seed: set<State>) returns (s: set<State>)
    requires seed <= t
    ensures IsRegion(N, t, seed, s)
  {
    s := seed;
    var settled := false;
    while !settled
      invariant seed <= s <= t
      invariant forall c :: IsClosed(N, t, c) && seed <= c ==> s <= c
      invariant settled ==> IsClosed(N, t, s)
      decreases t - s, !settled
    {
      var u := s;
      s := u + (Predecessors(N, t, u) + Successors(N, t, u));
      StepStaysInside(N, t, u, s);
      settled := s == u;
    }
  }

  /** One step adds only what a closed set around u holds already, and nothing
      exactly when u is closed. */
  lemma StepStaysInside(N: Relation, t: set<State>, u: set<State>, s: set<State>)
    requires u <= t && s == u + (Predecessors(N, t, u) + Successors(N, t, u))
    ensures u <= s <= t
    ensures forall c :: IsClosed(N, t, c) && u <= c ==> s <= c
    ensures s == u <==> IsClosed(N, t, u)
  {
    forall c | IsClosed(N, t, c) && u <= c ensures s <= c {
      forall x | x in s ensures x in c {
        if x !in u {
          var y :| y in u && Joined(N, x, y);
          assert Joined(N, y, x);
        }
      }
    }
    if s == u {
      forall x, y | x in u && y in t && Joined(N, x, y) ensures y in u {
        assert y in s;
      }
    }
  }

  ghost predicate AllRegions(N: Relation, t: set<State>, seeds: seq<set<State>>, dest: seq<set<State>>) {
    |seeds| == |dest| && forall i :: 0 <= i < |dest| ==> seeds[i] != {} && IsRegion(N, t, seeds[i], dest[i])
  }

  /** The sets of dest are disjoint and split what t0 has and rest has not. */
  ghost predicate IsSplit(t0: set<State>, rest: set<State>, dest: seq<set<State>>) {
    && (forall i :: 0 <= i < |dest| ==> dest[i] <= t0 - rest)
    && (forall i, j :: 0 <= i < j < |dest| ==> dest[i] !! dest[j])
    && (forall x :: x in t0 && x !in rest ==> InSome(dest, x))
  }

  ghost predicate InSome(dest: seq<set<State>>, x: State) {
    exists i :: 0 <= i < |dest| && x in dest[i]
  }

  /** What t has outside the given regions. */
  ghost function LeftOf(t: set<State>, dest: seq<set<State>>): set<State> {
    set x | x in t && !InSome(dest, x)
  }

  /** Every region was grown from what satisfy picked of the states that were left
      when it was found; the last one found stands in front. */
  ghost predicate AllPicked(
      t: set<State>, satisfy: set<State> -> set<State>, seeds: seq<set<State>>, dest: seq<set<State>>) {
    |seeds| == |dest| && forall i :: 0 <= i < |dest| ==> PickedAt(t, satisfy, seeds[i], dest[i + 1..])
  }

  ghost predicate PickedAt(
      t: set<State>, satisfy: set<State> -> set<State>, seed: set<State>, found: seq<set<State>>) {
    LeftOf(t, found) != {} && seed == satisfy(LeftOf(t, found))
  }

  /** Splits t into regions, the last one found in front.  If what satisfy picks
      always lies in one component, the regions are the components of t. */
  method FindER(t: set<State>, N: Relation, satisfy: set<State> -> set<State>)
    returns (dest: seq<set<State>>, ghost seeds: seq<set<State>>)
    requires forall f :: f != {} ==> satisfy(f) != {} && satisfy(f) <= f
    ensures AllRegions(N, t, seeds, dest) && AllPicked(t, satisfy, seeds, dest) && IsSplit(t, {}, dest)
    ensures forall i, j, x, y :: 0 <= i < j < |dest| && x in dest[i] && y in dest[j] ==> !Joined(N, x, y)
    ensures PicksLinked(N, t, satisfy) ==> ListsComponents(N, t, dest)
  {
    dest, seeds := [], [];
    var rest := t;
    while rest != {}
      invariant IsClosed(N, t, rest) && AllRegions(N, t, seeds, dest) && IsSplit(t, rest, dest)
      invariant AllPicked(t, satisfy, seeds, dest)
      decreases rest
    {
      var seed := satisfy(rest);
      var s := GrowRegion(N, rest, seed);
      RegionOfRest(N, t, rest, seed, s);
      OneMoreRegion(N, t, seeds, dest, seed, s);
      OneMorePick(t, rest, satisfy, seeds, dest, seed, s);
      OneMorePart(t, rest, dest, s);
      dest, seeds := [s] + dest, [seed] + seeds;
      rest := rest - s;
    }
    RegionsAreApart(N, t, seeds, dest);
    if PicksLinked(N, t, satisfy) {
      RegionsAreComponents(N, t, satisfy, seeds, dest);
    }
  }

  lemma OneMorePick(t: set<State>, rest: set<State>, satisfy: set<State> -> set<State>, seeds: seq<set<State>>,
                    dest: seq<set<State>>, seed: set<State>, s: set<State>)
    requires rest <= t && IsSplit(t, rest, dest) && AllPicked(t, satisfy, seeds, dest)
    requires rest != {} && seed == satisfy(rest)
    ensures AllPicked(t, satisfy, [seed] + seeds, [s] + dest)
  {
    assert LeftOf(t, dest) == rest;
    var seeds', dest' := [seed] + seeds, [s] + dest;
    forall i | 0 <= i < |dest'| ensures PickedAt(t, satisfy, seeds'[i], dest'[i + 1..]) {
      assert dest'[i + 1..] == dest[i..];
      assert dest[0..] == dest;
      assert i > 0 ==> PickedAt(t, satisfy, seeds[i - 1], dest[(i - 1) + 1..]);
    }
  }

  /** A region of what is left is a region of the whole. */
  lemma RegionOfRest(N: Relation, t0: set<State>, t: set<State>, seed: set<State>, s: set<State>)
    requires IsClosed(N, t0, t) && IsRegion(N, t, seed, s)
    ensures IsRegion(N, t0, seed, s) && IsClosed(N, t0, t - s)
  {
    forall c | IsClosed(N, t0, c) && seed <= c ensures s <= c {
      assert IsClosed(N, t, c * t);
    }
    forall x, y | x in t - s && y in t0 && Joined(N, x, y) ensures y in t - s {
      assert Joined(N, y, x);
    }
  }

  lemma OneMoreRegion(N: Relation, t: set<State>, seeds: seq<set<State>>, dest: seq<set<State>>,
                      seed: set<State>, s: set<State>)
    requires AllRegions(N, t, seeds, dest) && seed != {} && IsRegion(N, t, seed, s)
    ensures AllRegions(N, t, [seed] + seeds, [s] + dest)
  {
  }

  lemma OneMorePart(t0: set<State>, rest: set<State>, dest: seq<set<State>>, s: set<State>)
    requires rest <= t0 && s <= rest && IsSplit(t0, rest, dest)
    ensures IsSplit(t0, rest - s, [s] + dest)
  {
    var dest' := [s] + dest;
    forall i | 0 <= i < |dest'| ensures dest'[i] <= t0 - (rest - s) {
      assert i > 0 ==> dest'[i] == dest[i - 1];
    }
    forall i, j | 0 <= i < j < |dest'| ensures dest'[i] !! dest'[j] {
      assert dest'[j] == dest[j - 1];
      assert i > 0 ==> dest'[i] == dest[i - 1];
    }
    forall x | x in t0 && x !in rest - s ensures InSome(dest', x) {
      if x in s {
        assert x in dest'[0];
      } else {
        var i :| 0 <= i < |dest| && x in dest[i];
        assert x in dest'[i + 1];
      }
    }
  }

  /** No transition in either direction joins two regions. */
  lemma RegionsAreApart(N: Relation, t: set<State>, seeds: seq<set<State>>, dest: seq<set<State>>)
    requires AllRegions(N, t, seeds, dest) && IsSplit(t, {}, dest)
    ensures forall i, j, x, y :: 0 <= i < j < |dest| && x in dest[i] && y in dest[j] ==> !Joined(N, x, y)
  {
  }

  // What a region is made of

  /** Nothing closed parts y from x: they lie in one component of t. */
  ghost predicate Linked(N: Relation, t: set<State>, x: State, y: State) {
    forall c :: IsClosed(N, t, c) && x in c ==> y in c
  }

  lemma LinkedIsSymmetric(N: Relation, t: set<State>, x: State, y: State)
    requires x in t && y in t && Linked(N, t, x, y)
    ensures Linked(N, t, y, x)
  {
    forall c | IsClosed(N, t, c) && y in c ensures x in c {
      var d := t - c;
      forall v, w | v in d && w in t && Joined(N, v, w) ensures w in d {
        assert Joined(N, w, v);
      }
      assert IsClosed(N, t, d);
    }
  }

  /** A region is the union of the components its seed touches. */
  lemma RegionIsUnionOfComponents(N: Relation, t: set<State>, seed: set<State>, r: set<State>, x: State)
    requires seed <= t && x in t && IsRegion(N, t, seed, r)
    ensures x in r <==> exists a :: a in seed && Linked(N, t, a, x)
  {
    var c := set v | v in t && exists a :: a in seed && Linked(N, t, a, v);
    forall v, w | v in c && w in t && Joined(N, v, w) ensures w in c {
      var a :| a in seed && Linked(N, t, a, v);
      assert Linked(N, t, a, w);
    }
    forall a | a in seed ensures a in c {
      assert Linked(N, t, a, a);
    }
    assert IsClosed(N, t, c);
  }

  /** It is a single component exactly when the states of the seed already lie
      in one; a seed of one state always gives one component. */
  lemma RegionIsConnectedIffSeedIs(N: Relation, t: set<State>, seed: set<State>, r: set<State>)
    requires seed <= t && IsRegion(N, t, seed, r)
    ensures (forall x, y :: x in r && y in r ==> Linked(N, t, x, y))
      <==> (forall a, b :: a in seed && b in seed ==> Linked(N, t, a, b))
  {
    if forall a, b :: a in seed && b in seed ==> Linked(N, t, a, b) {
      forall x, y | x in r && y in r ensures Linked(N, t, x, y) {
        RegionIsUnionOfComponents(N, t, seed, r, x);
        RegionIsUnionOfComponents(N, t, seed, r, y);
        var a :| a in seed && Linked(N, t, a, x);
        var b :| b in seed && Linked(N, t, b, y);
        LinkedIsSymmetric(N, t, a, x);
        assert Linked(N, t, a, b);
      }
    }
  }

  /** All states that are linked to one of them, and no others. */
  ghost predicate IsComponent(N: Relation, t: set<State>, r: set<State>) {
    r != {} && r <= t && forall x, y :: x in r && y in t ==> (y in r <==> Linked(N, t, x, y))
  }

  /** Every set is a component of t, and every component is listed once. */
  ghost predicate ListsComponents(N: Relation, t: set<State>, dest: seq<set<State>>) {
    && (forall i :: 0 <= i < |dest| ==> IsComponent(N, t, dest[i]))
    && (forall i, j :: 0 <= i < j < |dest| ==> dest[i] != dest[j])
    && (forall c :: IsComponent(N, t, c) ==> c in dest)
  }

  /** The states that satisfy picks of a part of t lie in one component. */
  ghost predicate PicksLinked(N: Relation, t: set<State>, satisfy: set<State> -> set<State>) {
    forall f, x, y :: f != {} && f <= t && x in satisfy(f) && y in satisfy(f) ==> Linked(N, t, x, y)
  }

  lemma RegionsAreComponents(
      N: Relation, t: set<State>, satisfy: set<State> -> set<State>, seeds: seq<set<State>>, dest: seq<set<State>>)
    requires AllRegions(N, t, seeds, dest) && AllPicked(t, satisfy, seeds, dest) && IsSplit(t, {}, dest)
    requires PicksLinked(N, t, satisfy)
    ensures ListsComponents(N, t, dest)
  {
    forall i | 0 <= i < |dest| ensures IsComponent(N, t, dest[i]) {
      assert PickedAt(t, satisfy, seeds[i], dest[i + 1..]) && LeftOf(t, dest[i + 1..]) <= t;
      RegionIsComponent(N, t, seeds[i], dest[i]);
    }
    forall c | IsComponent(N, t, c) ensures c in dest {
      var x :| x in c;
      assert InSome(dest, x);
      var i :| 0 <= i < |dest| && x in dest[i];
      SameComponent(N, t, c, dest[i], x);
    }
  }

  lemma RegionIsComponent(N: Relation, t: set<State>, seed: set<State>, r: set<State>)
    requires seed != {} && seed <= t && IsRegion(N, t, seed, r)
    requires forall a, b :: a in seed && b in seed ==> Linked(N, t, a, b)
    ensures IsComponent(N, t, r)
  {
    RegionIsConnectedIffSeedIs(N, t, seed, r);
    forall x, y | x in r && y in t && Linked(N, t, x, y) ensures y in r {
      assert IsClosed(N, t, r);
    }
  }

  lemma SameComponent(N: Relation, t: set<State>, c: set<State>, d: set<State>, x: State)
    requires IsComponent(N, t, c) && IsComponent(N, t, d) && x in c && x in d
    ensures c == d
  {
    forall y ensures y in c <==> y in d {
      assert y in t ==> (y in c <==> Linked(N, t, x, y)) && (y in d <==> Linked(N, t, x, y));
    }
  }

  /** A cube of two states that nothing joins gives one region of two components. */
  lemma WideSeedMergesComponents()
    ensures var x, y: State := [true], [false];
            IsRegion({}, {x, y}, {x, y}, {x, y}) && !Linked({}, {x, y}, x, y)
  {
    var x, y: State := [true], [false];
    assert IsClosed({}, {x, y}, {x});
    assert x != y;
  }
}
