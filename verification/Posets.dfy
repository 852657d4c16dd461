/** The class POSET of src/bap.h and src/POSET.cc: fired and enabled events with
    the difference bounds between their firing times. */
module Posets {
  import opened Dbm
  import opened Zones
  import opened Closure
  import opened Survivors
  import opened TimedRules

  /** The oldest index of event e. */
  ghost predicate IsFirstOf(events: seq<nat>, e: nat, i: int) {
    0 <= i < |events| && events[i] == e && IsFirst(events, i)
  }

  /** The newest index of event e other than skip. */
  ghost predicate IsLastOf(events: seq<nat>, e: nat, i: int, skip: int) {
    0 <= i < |events| && events[i] == e && i != skip && forall k :: i < k < |events| && k != skip ==> events[k] != e
  }

  lemma FirstIsUnique(events: seq<nat>, e: nat, i: int, i': int)
    requires IsFirstOf(events, e, i) && IsFirstOf(events, e, i')
    ensures i == i'
  {
  }

  lemma IndicesAreUnique(events: seq<nat>, e: nat, f: nat, i: int, j: int, i': int, j': int)
    requires IsFirstOf(events, e, i) && IsLastOf(events, f, j, i)
    requires IsFirstOf(events, e, i') && IsLastOf(events, f, j', i')
    ensures i == i' && j == j'
  {
  }

  /** Both indices that a causal bound between e and f needs exist. */
  ghost predicate HasCausalIndexes(events: seq<nat>, e: nat, f: nat) {
    exists i, j :: IsFirstOf(events, e, i) && IsLastOf(events, f, j, i)
  }

  /** They do exactly if e occurs, and f occurs besides the oldest e. */
  lemma CausalIndexesIff(events: seq<nat>, e: nat, f: nat)
    ensures HasCausalIndexes(events, e, f) <==>
      e in events && if e != f then f in events else exists i, j :: 0 <= i < j < |events| && events[i] == events[j] == e
  {
    if e in events {
      var p :| 0 <= p < |events| && events[p] == e;
      var i := OldestOf(events, p);
      if j: nat :| j < |events| && events[j] == f && j != i {
        var k := NewestBut(events, f, i, j);
        assert IsFirstOf(events, e, i) && IsLastOf(events, f, k, i);
      }
    }
  }

  lemma {:induction false} NewestBut(events: seq<nat>, f: nat, skip: nat, j: nat) returns (k: nat)
    requires j < |events| && events[j] == f && j != skip
    ensures IsLastOf(events, f, k, skip)
    decreases |events| - j
  {
    if i: nat :| j < i < |events| && i != skip && events[i] == f {
      k := NewestBut(events, f, skip, i);
    } else {
      k := j;
    }
  }

  /** The bound between the oldest e and the newest f, as a value. */
  ghost function CausalSeparation(events: seq<nat>, m: Matrix, e: nat, f: nat): Bound
    requires IsMatrix(m, |events|)
  {
    if HasCausalIndexes(events, e, f) then
      var i, j :| IsFirstOf(events, e, i) && IsLastOf(events, f, j, i);
      m[i][j]
    else Unbounded
  }

  lemma SeparationAt(events: seq<nat>, m: Matrix, e: nat, f: nat, i: nat, j: nat)
    requires IsMatrix(m, |events|) && IsFirstOf(events, e, i) && IsLastOf(events, f, j, i)
    ensures CausalSeparation(events, m, e, f) == m[i][j]
  {
    var a, b :| IsFirstOf(events, e, a) && IsLastOf(events, f, b, a) && CausalSeparation(events, m, e, f) == m[a][b];
    IndicesAreUnique(events, e, f, i, j, a, b);
  }

  /** m without the upper bounds of the events from o on. */
  ghost function WithoutUppers(m: Matrix, n: nat, o: nat): (m': Matrix)
    requires IsMatrix(m, n) && o <= n
    ensures IsMatrix(m', n)
    ensures forall i, j {:trigger m'[i][j]} :: 0 <= i < n && 0 <= j < n ==>
      m'[i][j] == if o <= i && i != j then Unbounded else m[i][j]
  {
    seq(n, i requires 0 <= i < n =>
      seq(n, j requires 0 <= j < n => if o <= i && i != j then Unbounded else m[i][j]))
  }

  // What is_consistent decides

  /** Some timing satisfies all bounds, and no event from o on is forced to
      happen before one of the first o. */
  ghost predicate Consistent(m: Matrix, n: nat, o: nat)
    requires IsMatrix(m, n) && o <= n
  {
    Satisfiable(m, n) && forall i, j :: o <= i < n && 0 <= j < o ==> CanFollow(m, n, i, j)
  }

  lemma AllZeroMeansTogether(m: Matrix, n: nat)
    requires IsMatrix(m, n) && forall i, j {:trigger m[i][j]} :: 0 <= i < n && 0 <= j < n ==> m[i][j] == Fin(0)
    ensures forall t {:trigger Sat(m, t)} :: |t| == n ==>
      (Sat(m, t) <==> forall i, j :: 0 <= i < n && 0 <= j < n ==> t[i] == t[j])
  {
    forall t | |t| == n && Sat(m, t)
      ensures forall i, j :: 0 <= i < n && 0 <= j < n ==> t[i] == t[j]
    {
      forall i, j | 0 <= i < n && 0 <= j < n
        ensures t[i] == t[j]
      {
        SatAt(m, t, i, j);
        SatAt(m, t, j, i);
      }
    }
  }

  class Poset {
    var ptrMap: seq<nat>
    var dbm: array2<Bound>

    ghost predicate Valid()
      reads this, dbm
    {
      dbm.Length0 == dbm.Length1 == |ptrMap|
    }

    /** The poset of the reset state: its events all happened at once. */
    constructor Initial(E: seq<nat>)
      ensures Valid() && fresh(dbm) && ptrMap == E
      ensures Canonical(Abs(dbm), |E|, 0, |E|)
      ensures forall t :: |t| == |E| ==>
        (Sat(Abs(dbm), t) <==> forall i, j :: 0 <= i < |E| && 0 <= j < |E| ==> t[i] == t[j])
    {
      ptrMap := E;
      dbm := new Bound[|E|, |E|]((i, j) => Fin(0));
      new;
      AllZeroMeansTogether(Abs(dbm), |E|);
    }

    /** The copy constructor. */
    constructor Copy(p: Poset)
      requires p.Valid()
      ensures Valid() && fresh(dbm) && ptrMap == p.ptrMap && Abs(dbm) == Abs(p.dbm)
    {
      ptrMap := p.ptrMap;
      var q := p.dbm;
      dbm := new Bound[q.Length0, q.Length1](
        (i, j) requires 0 <= i < q.Length0 && 0 <= j < q.Length1 reads q => q[i, j]);
      new;
      SameMatrix(Abs(dbm), Abs(p.dbm), |ptrMap|);
    }

    /** Is e among the events before the last added ones? */
    method IsInPoset(e: nat, added: nat) returns (b: bool)
      requires added <= |ptrMap|
      ensures b <==> e in ptrMap[..|ptrMap| - added]
    {
      var size := |ptrMap| - added;
      for k := 0 to size
        invariant e !in ptrMap[..k]
      {
        if e == ptrMap[k] {
          assert ptrMap[..size][k] == e;
          return true;
        }
      }
      return false;
    }

    /** Oldest index of i and newest other index of j. */
    method GetCausalIndexes(i: nat, j: nat) returns (ok: bool, indexI: nat, indexJ: nat)
      ensures ok <==> HasCausalIndexes(ptrMap, i, j)
      ensures ok ==> IsFirstOf(ptrMap, i, indexI) && IsLastOf(ptrMap, j, indexJ, indexI)
    {
      var setI, setJ := false, false;
      indexI, indexJ := 0, 0;
      for k := 0 to |ptrMap|
        invariant setI ==> indexI < k && IsFirstOf(ptrMap, i, indexI)
        invariant !setI ==> i !in ptrMap[..k]
        invariant setJ ==> indexJ < k && ptrMap[indexJ] == j && (setI ==> indexJ != indexI)
        invariant setJ ==> forall q :: indexJ < q < k && ptrMap[q] == j ==> setI && q == indexI
        invariant !setJ ==> forall q :: 0 <= q < k && ptrMap[q] == j ==> setI && q == indexI
      {
        if !setI && ptrMap[k] == i {
          indexI := k;
          setI := true;
        } else if ptrMap[k] == j {
          indexJ := k;
          setJ := true;
        }
      }
      assert ptrMap[..|ptrMap|] == ptrMap;
      ok := setI && setJ && indexI != indexJ;
      if ok {
        assert IsLastOf(ptrMap, j, indexJ, indexI);
      } else if setI {
        forall a, b | IsFirstOf(ptrMap, i, a)
          ensures !IsLastOf(ptrMap, j, b, a)
        {
          FirstIsUnique(ptrMap, i, a, indexI);
        }
      } else {
        assert forall a :: !IsFirstOf(ptrMap, i, a);
      }
    }

    /** Newest indices of i and of j. */
    method GetSeparationIndexes(i: nat, j: nat) returns (ok: bool, indexI: nat, indexJ: nat)
      ensures ok <==> i != j && i in ptrMap && j in ptrMap
      ensures ok ==> IsLastOf(ptrMap, i, indexI, -1) && IsLastOf(ptrMap, j, indexJ, -1)
    {
      var setI, setJ := false, false;
      indexI, indexJ := 0, 0;
      for k := 0 to |ptrMap|
        invariant setI ==> indexI < k && ptrMap[indexI] == i && forall q :: indexI < q < k ==> ptrMap[q] != i
        invariant !setI ==> i !in ptrMap[..k]
        invariant setJ ==> i != j && indexJ < k && ptrMap[indexJ] == j && forall q :: indexJ < q < k ==> ptrMap[q] != j
        invariant !setJ ==> i == j || j !in ptrMap[..k]
      {
        if ptrMap[k] == i {
          indexI := k;
          setI := true;
        } else if ptrMap[k] == j {
          indexJ := k;
          setJ := true;
        }
      }
      assert ptrMap[..|ptrMap|] == ptrMap;
      ok := setI && setJ && indexI != indexJ;
    }

    /** The bound on t(i) - t(j) for the newest copies of both. */
    method GetSeparation(i: nat, j: nat) returns (b: Bound)
      requires Valid()
      ensures i == j || i !in ptrMap || j !in ptrMap ==> b == Unbounded
      ensures i != j && i in ptrMap && j in ptrMap ==>
        exists a, c :: IsLastOf(ptrMap, i, a, -1) && IsLastOf(ptrMap, j, c, -1) && b == dbm[a, c]
    {
      var ok, a, c := GetSeparationIndexes(i, j);
      if !ok {
        return Unbounded;
      }
      return dbm[a, c];
    }

    /** t(f) - t(e) <= v for the oldest e and the newest f. */
    method SetMaxSeparation(e: nat, f: nat, v: Bound)
      requires dbm.Length0 == dbm.Length1 >= |ptrMap|
      modifies dbm
      ensures forall i, j :: IsFirstOf(ptrMap, e, i) && IsLastOf(ptrMap, f, j, i) ==>
        Abs(dbm) == Set(old(Abs(dbm)), dbm.Length0, j, i, v)
      ensures !HasCausalIndexes(ptrMap, e, f) ==> Abs(dbm) == old(Abs(dbm))
    {
      ghost var m, n := Abs(dbm), dbm.Length0;
      var ok, i, j := GetCausalIndexes(e, f);
      if ok {
        dbm[j, i] := v;
        SameMatrix(Abs(dbm), Set(m, n, j, i, v), n);
        forall a, b | IsFirstOf(ptrMap, e, a) && IsLastOf(ptrMap, f, b, a)
          ensures a == i && b == j
        {
          IndicesAreUnique(ptrMap, e, f, i, j, a, b);
        }
      }
    }

    /** t(f) - t(e) >= v for the oldest e and the newest f. */
    method SetMinSeparation(e: nat, f: nat, v: Bound)
      requires dbm.Length0 == dbm.Length1 >= |ptrMap|
      modifies dbm
      ensures forall i, j :: IsFirstOf(ptrMap, e, i) && IsLastOf(ptrMap, f, j, i) ==>
        Abs(dbm) == Set(old(Abs(dbm)), dbm.Length0, i, j, Negated(v))
      ensures !HasCausalIndexes(ptrMap, e, f) ==> Abs(dbm) == old(Abs(dbm))
    {
      ghost var m, n := Abs(dbm), dbm.Length0;
      var ok, i, j := GetCausalIndexes(e, f);
      if ok {
        dbm[i, j] := Negated(v);
        SameMatrix(Abs(dbm), Set(m, n, i, j, Negated(v)), n);
        forall a, b | IsFirstOf(ptrMap, e, a) && IsLastOf(ptrMap, f, b, a)
          ensures a == i && b == j
        {
          IndicesAreUnique(ptrMap, e, f, i, j, a, b);
        }
      }
    }

    /** The bound on t(e) - t(f) for the oldest e and the newest f. */
    method GetCausalSeparation(e: nat, f: nat) returns (b: Bound)
      requires Valid()
      ensures b == CausalSeparation(ptrMap, Abs(dbm), e, f)
    {
      var ok, i, j := GetCausalIndexes(e, f);
      if !ok {
        return Unbounded;
      }
      SeparationAt(ptrMap, Abs(dbm), e, f, i, j);
      return dbm[i, j];
    }

    /** Takes all upper bounds off the added events. */
    method ClearSeparationsOnRows(added: nat)
      requires Valid() && added <= |ptrMap|
      modifies dbm
      ensures Abs(dbm) == WithoutUppers(old(Abs(dbm)), |ptrMap|, |ptrMap| - added)
    {
      var size := |ptrMap|;
      var start := size - added;
      ghost var m := Abs(dbm);
      for i := start to size
        invariant forall a, b {:trigger dbm[a, b]} :: 0 <= a < size && 0 <= b < size ==>
          dbm[a, b] == if start <= a < i && a != b then Unbounded else m[a][b]
      {
        for j := 0 to size
          invariant forall a, b {:trigger dbm[a, b]} :: 0 <= a < size && 0 <= b < size ==>
            dbm[a, b] == if a != b && (start <= a < i || (a == i && b < j)) then Unbounded else m[a][b]
        {
          if i != j {
            dbm[i, j] := Unbounded;
          }
        }
      }
      SameMatrix(Abs(dbm), WithoutUppers(m, size, start), size);
    }

    // Adding the enabled events

    /** Appends the enabled events; each is bound from below by the rules whose
        enabling event is not itself among the enabled events. */
    method Add(Een: seq<seq<nat>>, t: Tel)
      requires Valid() && AreRuleSets(Een)
      modifies this
      ensures Valid() && fresh(dbm)
      ensures ptrMap == old(ptrMap) + EnabledEvents(Een, t)
      ensures IsExtension(old(ptrMap), old(Abs(dbm)), Een, t, Abs(dbm))
    {
      ghost var events, m := ptrMap, Abs(dbm);
      var sizeNew := |ptrMap| + |Een|;
      dbm := CopyExpandDbm(dbm, |ptrMap|, sizeNew);
      ghost var en, d := EnabledEvents(Een, t), dbm;
      for k := 0 to |Een|
        invariant ptrMap == events + en[..k]
        invariant dbm == d && d.Length0 == d.Length1 == sizeNew
        invariant ExtendedSoFar(events, m, Een, t, Abs(d), k, [])
        modifies this, d
      {
        var enabled := GetEnabled(Een[k], t);
        ptrMap := ptrMap + [enabled];
        ConstrainLowerBounds(events, m, t, Een, k);
      }
      assert en[..|Een|] == en;
    }

    /** One lower bound per rule of the event just appended. */
    method ConstrainLowerBounds(ghost events: seq<nat>, ghost m: Matrix, t: Tel, Een: seq<seq<nat>>, k: nat)
      requires AreRuleSets(Een) && k < |Een| && IsMatrix(m, |events|)
      requires dbm.Length0 == dbm.Length1 == |events| + |Een|
      requires ptrMap == events + EnabledEvents(Een, t)[..k + 1]
      requires ExtendedSoFar(events, m, Een, t, Abs(dbm), k, [])
      modifies dbm
      ensures ExtendedSoFar(events, m, Een, t, Abs(dbm), k + 1, [])
    {
      var enabled := GetEnabled(Een[k], t);
      var rules := Een[k];
      for q := 0 to |rules|
        invariant ExtendedSoFar(events, m, Een, t, Abs(dbm), k, rules[..q])
      {
        assert rules[..q + 1] == rules[..q] + [rules[q]];
        var causal := t.enabling(rules[q]);
        var among := IsEnabled(Een, t, causal);
        ghost var before := Abs(dbm);
        if !among {
          SetMinSeparation(causal, enabled, t.lower(causal, enabled));
        }
        LowerBoundStep(events, m, Een, t, before, Abs(dbm), k, q, ptrMap);
      }
      assert rules[..|rules|] == rules;
      NextEvent(events, m, Een, t, Abs(dbm), k);
    }

    // Forgetting events

    method BuildNotInSet(E: set<nat>) returns (Enotin: set<nat>)
      ensures Enotin == NotIn(ptrMap, E)
    {
      Enotin := {};
      for i := 0 to |ptrMap|
        invariant Enotin == set e | e in ptrMap[..i] && e !in E
      {
        if ptrMap[i] !in E {
          Enotin := Enotin + {ptrMap[i]};
        }
      }
      assert ptrMap[..|ptrMap|] == ptrMap;
    }

    method BuildDuplicateSet() returns (Edup: set<nat>)
      ensures Edup == Duplicated(ptrMap)
    {
      Edup := {};
      for i := 0 to |ptrMap|
        invariant Edup == set k | 0 <= k < i && OccursAfter(ptrMap, k) :: ptrMap[k]
      {
        var j := i + 1;
        while j < |ptrMap| && ptrMap[j] != ptrMap[i]
          invariant i < j <= |ptrMap| && forall k :: i < k < j ==> ptrMap[k] != ptrMap[i]
        {
          j := j + 1;
        }
        if j < |ptrMap| {
          assert OccursAfter(ptrMap, i);
          Edup := Edup + {ptrMap[i]};
        }
      }
    }

    /** Marks the diagonal of what goes and lists the events that stay. */
    method UpdateAndMarkDbm(newSize: nat, ghost E: set<nat>, Enotin: set<nat>, Edup0: set<nat>)
        returns (newMap: seq<nat>)
      requires Valid() && Enotin == NotIn(ptrMap, E) && Edup0 == Duplicated(ptrMap)
      requires |Keep(ptrMap, E, |ptrMap|)| <= newSize
      modifies dbm
      ensures IsSelection(Keep(ptrMap, E, |ptrMap|), |ptrMap|)
      ensures |newMap| == newSize && ListsKept(ptrMap, Keep(ptrMap, E, |ptrMap|), newMap)
      ensures forall i, j {:trigger dbm[i, j]} :: 0 <= i < |ptrMap| && 0 <= j < |ptrMap| ==>
        dbm[i, j] == if i == j && !Survives(ptrMap, E, i) then Marked else old(dbm[i, j])
    {
      var Edup, j := Edup0, 0;
      newMap := seq(newSize, _ => 0);
      ghost var keep: seq<nat> := [];
      ghost var gone := seq(|ptrMap|, i requires 0 <= i < |ptrMap| reads this => !Survives(ptrMap, E, i));
      for i := 0 to |ptrMap|
        invariant j == |keep| && |newMap| == newSize
        invariant MarkingDone(ptrMap, E, Edup, keep, newMap, i)
        invariant forall a, b {:trigger dbm[a, b]} :: 0 <= a < |ptrMap| && 0 <= b < |ptrMap| ==>
          dbm[a, b] == if a == b && a < i && gone[a] then Marked else old(dbm[a, b])
      {
        var e := ptrMap[i];
        MarkOneMore(ptrMap, E, Enotin, Edup, keep, newMap, i);
        if e in Enotin {
          dbm[i, i] := Marked;
        } else if e in Edup {
          dbm[i, i] := Marked;
          Edup := Edup - {e};
        } else {
          newMap := newMap[j := e];
          j := j + 1;
          keep := keep + [i];
        }
      }
    }

    /** Drops every event outside E and the older copies of events kept twice. */
    method RemoveNonCausal(E: set<nat>)
      requires Valid() && forall i :: 0 <= i < |ptrMap| ==> dbm[i, i] != Marked
      modifies this, dbm
      ensures Valid() && (dbm == old(dbm) || fresh(dbm))
      ensures IsRemoval(old(ptrMap), old(Abs(dbm)), E, ptrMap, Abs(dbm))
    {
      SizeIsExact(ptrMap, E);
      KeepIsSelection(ptrMap, E, |ptrMap|);
      var Enotin := BuildNotInSet(E);
      var Edup := BuildDuplicateSet();
      var newSize := |ptrMap| - |Enotin| - |Edup|;
      if newSize == |ptrMap| {
        NothingGoes(ptrMap, E);
        RemovalDone(ptrMap, Abs(dbm), E, ptrMap, Abs(dbm));
        return;
      }
      ghost var events, m := ptrMap, Abs(dbm);
      DropMarked(newSize, E, Enotin, Edup);
      RemovalDone(events, m, E, ptrMap, Abs(dbm));
    }

    /** Marks, copies what is not marked, and takes the copies over. */
    method DropMarked(newSize: nat, ghost E: set<nat>, Enotin: set<nat>, Edup: set<nat>)
      requires Valid() && forall i :: 0 <= i < |ptrMap| ==> dbm[i, i] != Marked
      requires Enotin == NotIn(ptrMap, E) && Edup == Duplicated(ptrMap)
      requires |Keep(ptrMap, E, |ptrMap|)| <= newSize <= |ptrMap|
      modifies this, dbm
      ensures Valid() && fresh(dbm) && |ptrMap| == newSize
      ensures HoldsKept(old(ptrMap), old(Abs(dbm)), Keep(old(ptrMap), E, |old(ptrMap)|), ptrMap, Abs(dbm))
    {
      ghost var keep := Keep(ptrMap, E, |ptrMap|);
      KeepIsSelection(ptrMap, E, |ptrMap|);
      var newMap := UpdateAndMarkDbm(newSize, E, Enotin, Edup);
      var newDbm := CopyShrinkDbm(dbm, |ptrMap|, newSize, keep);
      dbm := newDbm;
      ptrMap := newMap;
    }

    /** Recanonicalises event by event, then checks the diagonal and that no
        added event is bound to precede an older one. */
    method IsConsistent(added: nat) returns (b: bool)
      requires Valid() && added <= |ptrMap|
      modifies dbm
      ensures Tightens(old(Abs(dbm)), Abs(dbm), |ptrMap|)
      ensures PrefixCanonical(old(Abs(dbm)), |ptrMap|, |ptrMap| - added) ==>
        && (ZeroDiagonal(Abs(dbm), |ptrMap|, 0, |ptrMap|) <==> Satisfiable(old(Abs(dbm)), |ptrMap|))
        && (b <==> Consistent(old(Abs(dbm)), |ptrMap|, |ptrMap| - added))
        && (b ==> Canonical(Abs(dbm), |ptrMap|, 0, |ptrMap|) && Abs(dbm) == FullClosure(old(Abs(dbm)), |ptrMap|))
    {
      var size := |ptrMap|;
      var start := size - added;
      ghost var m := Abs(dbm);
      Recanonicalize(start);
      ghost var m' := Abs(dbm);
      ConsistencyDecided(m, m', size, start);
      var zero := IsDiagonalZero();
      if !zero {
        return false;
      }
      b := NoneForcedBack(start);
      if PrefixCanonical(m, size, start) {
        CanonicalIsClosure(m, m', size);
      }
    }

    method IsDiagonalZero() returns (b: bool)
      requires Valid()
      ensures b <==> ZeroDiagonal(Abs(dbm), |ptrMap|, 0, |ptrMap|)
    {
      for i := 0 to |ptrMap|
        invariant forall k :: 0 <= k < i ==> dbm[k, k] == Fin(0)
      {
        if dbm[i, i] != Fin(0) {
          assert Abs(dbm)[i][i] != Fin(0);
          return false;
        }
      }
      return true;
    }

    method NoneForcedBack(start: nat) returns (b: bool)
      requires Valid() && start <= |ptrMap|
      ensures b <==> forall i, j :: start <= i < |ptrMap| && 0 <= j < start ==> !Negative(Abs(dbm)[i][j])
    {
      for i := start to |ptrMap|
        invariant forall k, j :: start <= k < i && 0 <= j < start ==> !Negative(Abs(dbm)[k][j])
      {
        for j := 0 to start
          invariant forall q :: 0 <= q < j ==> !Negative(Abs(dbm)[i][q])
        {
          if dbm[i, j].Fin? && dbm[i, j].v < 0 {
            assert Negative(Abs(dbm)[i][j]);
            return false;
          }
        }
      }
      return true;
    }

    /** The pass for event i. */
    method PassFor(i: nat, ghost m: Matrix, ghost start: nat)
      requires Valid() && i < |ptrMap| && PassesDone(m, Abs(dbm), |ptrMap|, start, i)
      modifies dbm
      ensures PassesDone(m, Abs(dbm), |ptrMap|, start, i + 1)
    {
      ghost var before := Abs(dbm);
      IncrementalFloyds(dbm, 0, i + 1);
      PassIsOneMore(m, before, Abs(dbm), |ptrMap|, start, i);
    }

    /** The loop of incremental passes in is_consistent. */
    method Recanonicalize(start: nat)
      requires Valid() && start <= |ptrMap|
      modifies dbm
      ensures Tightens(old(Abs(dbm)), Abs(dbm), |ptrMap|)
      ensures PrefixCanonical(old(Abs(dbm)), |ptrMap|, start) && ZeroDiagonal(Abs(dbm), |ptrMap|, 0, |ptrMap|) ==>
        Canonical(Abs(dbm), |ptrMap|, 0, |ptrMap|)
    {
      var size := |ptrMap|;
      ghost var m := Abs(dbm);
      for i := start to size
        invariant PassesDone(m, Abs(dbm), size, start, i)
      {
        PassFor(i, m, start);
      }
    }
  }

  lemma PassIsOneMore(m: Matrix, m1: Matrix, m2: Matrix, n: nat, o: nat, k: nat)
    requires PassesDone(m, m1, n, o, k) && k < n && IsPassResult(m1, m2, n, 0, k + 1)
    ensures PassesDone(m, m2, n, o, k + 1)
  {
    OneMorePass(m, m1, m2, n, o, k);
  }

  /** -1 * v as the source computes it: for an infinite lower bound this is the
      finite number -(INT_MAX - 1). */
  function Negated(v: Bound): Bound {
    if v.Fin? then Fin(-v.v) else if v.Unbounded? then Fin(-2147483646) else Marked
  }

  ghost predicate PrefixCanonical(m: Matrix, n: nat, o: nat)
    requires IsMatrix(m, n) && o <= n
  {
    Canonical(m, n, 0, o) && ZeroDiagonal(m, n, 0, n)
  }

  ghost predicate PassesDone(m: Matrix, m': Matrix, n: nat, o: nat, k: nat) {
    && o <= k <= n && Tightens(m, m', n)
    && (forall i :: k <= i < n ==> m'[i][i] == m[i][i])
    && (PrefixCanonical(m, n, o) && ZeroDiagonal(m', n, 0, k) ==> Canonical(m', n, 0, k))
  }

  lemma OneMorePass(m: Matrix, m1: Matrix, m2: Matrix, n: nat, o: nat, k: nat)
    requires PassesDone(m, m1, n, o, k) && k < n
    requires Tightens(m1, m2, n) && SameOutside(m1, m2, n, 0, k + 1)
    requires ReadyForPass(m1, n, 0, k) && ZeroDiagonal(m2, n, 0, k + 1) ==> Canonical(m2, n, 0, k + 1)
    ensures PassesDone(m, m2, n, o, k + 1)
  {
    TightensTransitive(m, m1, m2, n);
    if PrefixCanonical(m, n, o) && ZeroDiagonal(m2, n, 0, k + 1) {
      forall i | 0 <= i < k
        ensures m1[i][i] == Fin(0)
      {
        SandwichedZero(m[i][i], m1[i][i], m2[i][i]);
      }
      assert ReadyForPass(m1, n, 0, k);
    }
  }

  lemma ConsistencyDecided(m: Matrix, m': Matrix, n: nat, o: nat)
    requires o <= n && Tightens(m, m', n)
    requires PrefixCanonical(m, n, o) && ZeroDiagonal(m', n, 0, n) ==> Canonical(m', n, 0, n)
    ensures PrefixCanonical(m, n, o) ==>
      && (ZeroDiagonal(m', n, 0, n) <==> Satisfiable(m, n))
      && (ZeroDiagonal(m', n, 0, n) && (forall i, j :: o <= i < n && 0 <= j < o ==> !Negative(m'[i][j]))
          <==> Consistent(m, n, o))
  {
    if PrefixCanonical(m, n, o) {
      if Satisfiable(m, n) {
        SatisfiableKeepsDiagonal(m, m', n, 0, n);
      }
      if ZeroDiagonal(m', n, 0, n) {
        CanonicalIsSatisfiable(m', n);
        forall i, j | 0 <= i < n && 0 <= j < n
          ensures Negative(m'[i][j]) <==> !CanFollow(m, n, i, j)
        {
          NegativeMeansBefore(m', n, i, j);
          FollowsAlike(m, m', n, i, j);
        }
      }
    }
  }

  lemma FollowsAlike(m: Matrix, m': Matrix, n: nat, i: nat, j: nat)
    requires Tightens(m, m', n) && i < n && j < n
    ensures CanFollow(m, n, i, j) <==> CanFollow(m', n, i, j)
    ensures Satisfiable(m, n) <==> Satisfiable(m', n)
  {
  }

  /** Edup before index i: what is duplicated, less the events in E whose
      oldest copy has been passed. */
  ghost predicate DuplicatesLeft(events: seq<nat>, E: set<nat>, Edup: set<nat>, i: nat)
    requires i <= |events|
  {
    forall e :: e in Edup <==> e in Duplicated(events) && (e !in E || e !in events[..i])
  }

  lemma MarkingStep(events: seq<nat>, E: set<nat>, Edup: set<nat>, i: nat)
    requires i < |events| && DuplicatesLeft(events, E, Edup, i)
    ensures Survives(events, E, i) <==> events[i] in E && events[i] !in Edup
    ensures events[i] in NotIn(events, E) <==> events[i] !in E
    ensures events[i] !in E || events[i] !in Edup ==> DuplicatesLeft(events, E, Edup, i + 1)
    ensures events[i] in E ==> DuplicatesLeft(events, E, Edup - {events[i]}, i + 1)
  {
  }

  /** The kept events come first, in their old order, and then zeros. */
  ghost predicate ListsKept(events: seq<nat>, keep: seq<nat>, events': seq<nat>)
    requires IsSelection(keep, |events|)
  {
    && |keep| <= |events'|
    && forall a :: 0 <= a < |events'| ==> events'[a] == if a < |keep| then events[keep[a]] else 0
  }

  lemma KeepStep(events: seq<nat>, E: set<nat>, keep: seq<nat>, newMap: seq<nat>, i: nat)
    requires i < |events| && keep == Keep(events, E, i) && IsSelection(keep, i)
    requires ListsKept(events, keep, newMap) && |Keep(events, E, |events|)| <= |newMap|
    ensures !Survives(events, E, i) ==> Keep(events, E, i + 1) == keep && IsSelection(keep, i + 1)
    ensures Survives(events, E, i) ==>
      && Keep(events, E, i + 1) == keep + [i] && IsSelection(keep + [i], i + 1) && |keep| < |newMap|
      && ListsKept(events, keep + [i], newMap[|keep| := events[i]])
  {
    KeepGrows(events, E, i + 1, |events|);
  }

  /** What the marking loop has established when it reaches index i. */
  ghost predicate MarkingDone(
      events: seq<nat>, E: set<nat>, Edup: set<nat>, keep: seq<nat>, newMap: seq<nat>, i: nat)
  {
    && i <= |events| && keep == Keep(events, E, i) && IsSelection(keep, i)
    && ListsKept(events, keep, newMap) && DuplicatesLeft(events, E, Edup, i)
    && |Keep(events, E, |events|)| <= |newMap|
  }

  lemma MarkOneMore(
      events: seq<nat>, E: set<nat>, Enotin: set<nat>, Edup: set<nat>, keep: seq<nat>, newMap: seq<nat>, i: nat)
    requires i < |events| && Enotin == NotIn(events, E) && MarkingDone(events, E, Edup, keep, newMap, i)
    ensures var e := events[i];
      if e in Enotin then !Survives(events, E, i) && MarkingDone(events, E, Edup, keep, newMap, i + 1)
      else if e in Edup then !Survives(events, E, i) && MarkingDone(events, E, Edup - {e}, keep, newMap, i + 1)
      else && Survives(events, E, i) && |keep| < |newMap|
           && MarkingDone(events, E, Edup, keep + [i], newMap[|keep| := e], i + 1)
  {
    MarkingStep(events, E, Edup, i);
    KeepStep(events, E, keep, newMap, i);
  }

  /** The kept events and the bounds between them come first. */
  ghost predicate HoldsKept(events: seq<nat>, m: Matrix, keep: seq<nat>, events': seq<nat>, m': Matrix) {
    && IsMatrix(m, |events|) && IsSelection(keep, |events|)
    && IsMatrix(m', |events'|) && ListsKept(events, keep, events')
    && forall a, b :: 0 <= a < |keep| && 0 <= b < |keep| ==> m'[a][b] == m[keep[a]][keep[b]]
  }

  lemma KeptExactly(events: seq<nat>, m: Matrix, keep: seq<nat>, events': seq<nat>, m': Matrix)
    requires HoldsKept(events, m, keep, events', m') && |events'| == |keep|
    ensures events' == Restrict(events, keep) && m' == Shrunk(m, |events|, keep)
  {
    SameMatrix(m', Shrunk(m, |events|, keep), |events'|);
  }

  /** m' is in canonical form and allows exactly the restrictions, to the kept
      events, of the timings that m allows. */
  ghost predicate IsProjection(m: Matrix, n: nat, keep: seq<nat>, m': Matrix) {
    && IsMatrix(m, n) && IsSelection(keep, n) && IsMatrix(m', |keep|)
    && Canonical(m', |keep|, 0, |keep|)
    && forall t' {:trigger Sat(m', t')} :: |t'| == |keep| ==>
         (Sat(m', t') <==> exists t {:trigger Sat(m, t)} :: |t| == n && Sat(m, t) && Restrict(t, keep) == t')
  }

  /** What remove_non_causal leaves: an entry for every index that stays, and
      nothing else exactly when no event that goes occurs three times. */
  ghost predicate IsRemoval(events: seq<nat>, m: Matrix, E: set<nat>, events': seq<nat>, m': Matrix)
    requires IsMatrix(m, |events|)
  {
    var keep := Keep(events, E, |events|);
    && |events'| == NewSize(events, E)
    && HoldsKept(events, m, keep, events', m')
    && (|events'| == |keep| <==> GoingTwiceAtMost(events, E))
    && (GoingTwiceAtMost(events, E) && Canonical(m, |events|, 0, |events|) ==> IsProjection(m, |events|, keep, m'))
  }

  lemma RemovalDone(events: seq<nat>, m: Matrix, E: set<nat>, events': seq<nat>, m': Matrix)
    requires IsMatrix(m, |events|) && |events'| == NewSize(events, E)
    requires HoldsKept(events, m, Keep(events, E, |events|), events', m')
    ensures IsRemoval(events, m, E, events', m')
  {
    SizeIsExact(events, E);
    KeptIsProjection(events, m, Keep(events, E, |events|), events', m');
  }

  lemma KeptIsProjection(events: seq<nat>, m: Matrix, keep: seq<nat>, events': seq<nat>, m': Matrix)
    requires HoldsKept(events, m, keep, events', m')
    ensures |events'| == |keep| && Canonical(m, |events|, 0, |events|) ==> IsProjection(m, |events|, keep, m')
  {
    if |events'| == |keep| && Canonical(m, |events|, 0, |events|) {
      KeptExactly(events, m, keep, events', m');
      ShrinkStaysCanonical(m, |events|, keep);
      forall t' | |t'| == |keep|
        ensures Sat(m', t')
          <==> exists t {:trigger Sat(m, t)} :: |t| == |events| && Sat(m, t) && Restrict(t, keep) == t'
      {
        ShrinkIsProjection(m, |events|, keep, t');
      }
    }
  }

  /** No event outside E has a copy that is neither its oldest nor its newest. */
  ghost predicate GoingTwiceAtMost(events: seq<nat>, E: set<nat>) {
    forall i :: 0 <= i < |events| && events[i] !in E ==> !IsMiddle(events, i)
  }

  /** The matrix without its marked rows and columns. */
  method CopyShrinkDbm(p: array2<Bound>, sizeP: nat, sizeNew: nat, ghost keep: seq<nat>) returns (tmp: array2<Bound>)
    requires p.Length0 == p.Length1 == sizeP && IsSelection(keep, sizeP)
    requires sizeNew <= sizeP && |keep| <= sizeNew
    requires forall i :: 0 <= i < sizeP ==> (p[i, i] != Marked <==> i in keep)
    ensures fresh(tmp) && tmp.Length0 == tmp.Length1 == sizeNew
    ensures forall a, b :: 0 <= a < |keep| && 0 <= b < |keep| ==> tmp[a, b] == p[keep[a], keep[b]]
  {
    tmp := new Bound[sizeNew, sizeNew];
    var iP, iTmp := 0, 0;
    while iP < sizeP
      invariant iP <= sizeP && KeptBefore(keep, iP, iTmp)
      invariant forall a, b :: 0 <= a < iTmp && 0 <= b < |keep| ==> tmp[a, b] == p[keep[a], keep[b]]
      modifies tmp
    {
      if p[iP, iP] != Marked {
        assert keep[iTmp] == iP;
        CopyRow(p, tmp, iP, iTmp, keep);
        iTmp := iTmp + 1;
      }
      iP := iP + 1;
    }
  }

  method CopyRow(p: array2<Bound>, tmp: array2<Bound>, iP: nat, iTmp: nat, ghost keep: seq<nat>)
    requires p != tmp && p.Length0 == p.Length1 && IsSelection(keep, p.Length0)
    requires forall i :: 0 <= i < p.Length0 ==> (p[i, i] != Marked <==> i in keep)
    requires iP < p.Length0 && iTmp < tmp.Length0 && |keep| <= tmp.Length1
    modifies tmp
    ensures forall b :: 0 <= b < |keep| ==> tmp[iTmp, b] == p[iP, keep[b]]
    ensures forall a, b :: 0 <= a < tmp.Length0 && 0 <= b < tmp.Length1 && a != iTmp ==> tmp[a, b] == old(tmp[a, b])
  {
    var jP, jTmp := 0, 0;
    while jP < p.Length0
      invariant jP <= p.Length0 && KeptBefore(keep, jP, jTmp)
      invariant forall b :: 0 <= b < jTmp ==> tmp[iTmp, b] == p[iP, keep[b]]
      invariant forall a, b :: 0 <= a < tmp.Length0 && 0 <= b < tmp.Length1 && a != iTmp ==> tmp[a, b] == old(tmp[a, b])
    {
      if p[jP, jP] != Marked {
        assert keep[jTmp] == jP;
        tmp[iTmp, jTmp] := p[iP, jP];
        jTmp := jTmp + 1;
      }
      jP := jP + 1;
    }
  }

  /** a of the kept indices lie before i. */
  ghost predicate KeptBefore(keep: seq<nat>, i: nat, a: nat) {
    && a <= |keep|
    && (forall b :: 0 <= b < a ==> keep[b] < i)
    && (a < |keep| ==> keep[a] >= i)
  }

  /** The enlarged matrix: old bounds kept, new events unconstrained. */
  method CopyExpandDbm(p: array2<Bound>, sizeP: nat, sizeNew: nat) returns (tmp: array2<Bound>)
    requires p.Length0 == p.Length1 == sizeP <= sizeNew
    ensures fresh(tmp) && tmp.Length0 == tmp.Length1 == sizeNew
    ensures forall i, j :: 0 <= i < sizeNew && 0 <= j < sizeNew ==>
      tmp[i, j] == if i < sizeP && j < sizeP then p[i, j] else if i == j then Fin(0) else Unbounded
  {
    tmp := new Bound[sizeNew, sizeNew];
    for i := 0 to sizeNew
      invariant forall a, b :: 0 <= a < i && 0 <= b < sizeNew ==>
        tmp[a, b] == if a < sizeP && b < sizeP then p[a, b] else if a == b then Fin(0) else Unbounded
      modifies tmp
    {
      for j := 0 to sizeNew
        invariant forall a, b :: 0 <= a < sizeNew && 0 <= b < sizeNew && (a < i || (a == i && b < j)) ==>
          tmp[a, b] == if a < sizeP && b < sizeP then p[a, b] else if a == b then Fin(0) else Unbounded
        modifies tmp
      {
        if j < sizeP && i < sizeP {
          tmp[i, j] := p[i, j];
        } else if i == j {
          tmp[i, j] := Fin(0);
        } else {
          tmp[i, j] := Unbounded;
        }
      }
    }
  }

  method IsEnabled(Een: seq<seq<nat>>, t: Tel, f: nat) returns (b: bool)
    requires AreRuleSets(Een)
    ensures b <==> f in EnabledEvents(Een, t)
  {
    for i := 0 to |Een|
      invariant forall k :: 0 <= k < i ==> EnabledEvents(Een, t)[k] != f
    {
      if GetEnabled(Een[i], t) == f {
        assert EnabledEvents(Een, t)[i] == f;
        return true;
      }
    }
    return false;
  }

  /** The bound between old event i and enabled event k, if the rules in the
      list set one. */
  ghost function LowerEntry(events: seq<nat>, Een: seq<seq<nat>>, t: Tel, rules: seq<nat>, i: nat, k: nat): Bound
    requires AreRuleSets(Een) && i < |events| && k < |Een|
  {
    if IsFirst(events, i) && events[i] !in EnabledEvents(Een, t) && WaitsFor(rules, t, events[i])
    then Negated(t.lower(events[i], GetEnabled(Een[k], t)))
    else Unbounded
  }

  /** The rules already taken into account for enabled event c. */
  ghost function RulesDone(Een: seq<seq<nat>>, c: nat, k: nat, rules: seq<nat>): seq<nat>
    requires c < |Een|
  {
    if c < k then Een[c] else if c == k then rules else []
  }

  ghost predicate ExtendedSoFar(
      events: seq<nat>, m: Matrix, Een: seq<seq<nat>>, t: Tel, m': Matrix, k: nat, rules: seq<nat>)
    requires AreRuleSets(Een) && IsMatrix(m, |events|)
  {
    var o, n := |events|, |events| + |Een|;
    && IsMatrix(m', n)
    && (forall i, j :: 0 <= i < o && 0 <= j < o ==> m'[i][j] == m[i][j])
    && (forall i, j :: o <= i < n && 0 <= j < n ==> m'[i][j] == if i == j then Fin(0) else Unbounded)
    && (forall i, j :: 0 <= i < o && o <= j < n ==>
          m'[i][j] == LowerEntry(events, Een, t, RulesDone(Een, j - o, k, rules), i, j - o))
  }

  lemma NextEvent(events: seq<nat>, m: Matrix, Een: seq<seq<nat>>, t: Tel, m': Matrix, k: nat)
    requires AreRuleSets(Een) && IsMatrix(m, |events|) && k < |Een|
    requires ExtendedSoFar(events, m, Een, t, m', k, Een[k])
    ensures ExtendedSoFar(events, m, Een, t, m', k + 1, [])
  {
    assert forall c: nat :: c < |Een| ==> RulesDone(Een, c, k, Een[k]) == RulesDone(Een, c, k + 1, []);
  }

  /** m' is m with the enabled events added. */
  ghost predicate IsExtension(events: seq<nat>, m: Matrix, Een: seq<seq<nat>>, t: Tel, m': Matrix)
    requires AreRuleSets(Een) && IsMatrix(m, |events|)
  {
    ExtendedSoFar(events, m, Een, t, m', |Een|, [])
  }

  lemma CausePlaces(events: seq<nat>, en: seq<nat>, events': seq<nat>, causal: nat, k: nat) returns (i: nat)
    requires k < |en| && events' == events + en[..k + 1] && causal in events && causal !in en
    ensures i < |events| && IsFirst(events, i) && events[i] == causal
    ensures IsFirstOf(events', causal, i) && IsLastOf(events', en[k], |events| + k, i)
  {
    var p :| 0 <= p < |events| && events[p] == causal;
    i := OldestOf(events, p);
    assert IsFirstOf(events', causal, i);
    assert events'[|events| + k] == en[k];
    assert IsLastOf(events', en[k], |events| + k, i);
  }

  lemma LowerBoundStep(
      events: seq<nat>, m: Matrix, Een: seq<seq<nat>>, t: Tel, m1: Matrix, m2: Matrix, k: nat, q: nat,
      events': seq<nat>)
    requires AreRuleSets(Een) && IsMatrix(m, |events|) && k < |Een| && q < |Een[k]|
    requires ExtendedSoFar(events, m, Een, t, m1, k, Een[k][..q]) && IsMatrix(m2, |events| + |Een|)
    requires events' == events + EnabledEvents(Een, t)[..k + 1]
    requires var causal, enabled := t.enabling(Een[k][q]), GetEnabled(Een[k], t);
      if causal in EnabledEvents(Een, t) then m2 == m1
      else
        && (!HasCausalIndexes(events', causal, enabled) ==> m2 == m1)
        && forall i, j :: IsFirstOf(events', causal, i) && IsLastOf(events', enabled, j, i) ==>
             m2 == Set(m1, |events| + |Een|, i, j, Negated(t.lower(causal, enabled)))
    ensures ExtendedSoFar(events, m, Een, t, m2, k, Een[k][..q + 1])
  {
    var causal, enabled := t.enabling(Een[k][q]), GetEnabled(Een[k], t);
    var en := EnabledEvents(Een, t);
    if causal !in en && causal in events {
      var i := CausePlaces(events, en, events', causal, k);
      assert m2 == Set(m1, |events| + |Een|, i, |events| + k, Negated(t.lower(causal, enabled)));
      LowerBoundSet(events, m, Een, t, m1, m2, k, q, i);
    } else {
      assert causal !in en ==> causal !in events';
      LowerBoundKept(events, m, Een, t, m1, k, q);
    }
  }

  lemma LowerBoundSet(
      events: seq<nat>, m: Matrix, Een: seq<seq<nat>>, t: Tel, m1: Matrix, m2: Matrix, k: nat, q: nat, i: nat)
    requires AreRuleSets(Een) && IsMatrix(m, |events|) && k < |Een| && q < |Een[k]|
    requires ExtendedSoFar(events, m, Een, t, m1, k, Een[k][..q])
    requires i < |events| && IsFirst(events, i) && events[i] == t.enabling(Een[k][q])
    requires events[i] !in EnabledEvents(Een, t)
    requires m2 ==
      Set(m1, |events| + |Een|, i, |events| + k, Negated(t.lower(t.enabling(Een[k][q]), GetEnabled(Een[k], t))))
    ensures ExtendedSoFar(events, m, Een, t, m2, k, Een[k][..q + 1])
  {
    var o := |events|;
    forall a, j | 0 <= a < o && o <= j < o + |Een|
      ensures m2[a][j] == LowerEntry(events, Een, t, RulesDone(Een, j - o, k, Een[k][..q + 1]), a, j - o)
    {
      WaitsForOneMore(Een[k], t, q, events[a]);
    }
  }

  lemma LowerBoundKept(
      events: seq<nat>, m: Matrix, Een: seq<seq<nat>>, t: Tel, m1: Matrix, k: nat, q: nat)
    requires AreRuleSets(Een) && IsMatrix(m, |events|) && k < |Een| && q < |Een[k]|
    requires ExtendedSoFar(events, m, Een, t, m1, k, Een[k][..q])
    requires t.enabling(Een[k][q]) in EnabledEvents(Een, t) || t.enabling(Een[k][q]) !in events
    ensures ExtendedSoFar(events, m, Een, t, m1, k, Een[k][..q + 1])
  {
    var o := |events|;
    forall a, j | 0 <= a < o && o <= j < o + |Een|
      ensures m1[a][j] == LowerEntry(events, Een, t, RulesDone(Een, j - o, k, Een[k][..q + 1]), a, j - o)
    {
      WaitsForOneMore(Een[k], t, q, events[a]);
    }
  }

  lemma WaitsForOneMore(rules: seq<nat>, t: Tel, q: nat, e: nat)
    requires q < |rules|
    ensures WaitsFor(rules[..q + 1], t, e) <==> WaitsFor(rules[..q], t, e) || t.enabling(rules[q]) == e
  {
  }
}
