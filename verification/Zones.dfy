/** What canonical form buys: all bounds are reached by timings, so these determine
    the matrix, partial timings extend, and forgetting events is projection. */
module Zones {
  import opened Dbm

  // Extending a timing of some events to one more event

  ghost predicate SatOn(m: Matrix, n: nat, A: set<nat>, t: seq<int>)
    requires IsMatrix(m, n)
  {
    && |t| == n
    && forall i, j :: i in A && j in A && i < n && j < n ==> Allows(m[i][j], t[i] - t[j])
  }

  ghost predicate IsCeiling(m: Matrix, n: nat, A: set<nat>, t: seq<int>, x: nat, y: nat, v: int)
    requires IsMatrix(m, n) && |t| == n && x < n
  {
    y in A && y < n && m[x][y].Fin? && v == t[y] + m[x][y].v
  }

  ghost predicate IsFloor(m: Matrix, n: nat, A: set<nat>, t: seq<int>, x: nat, y: nat, v: int)
    requires IsMatrix(m, n) && |t| == n && x < n
  {
    y in A && y < n && m[y][x].Fin? && v == t[y] - m[y][x].v
  }

  /** The least value the first k events allow for x, from above. */
  lemma {:induction false} LowestCeiling(m: Matrix, n: nat, A: set<nat>, t: seq<int>, x: nat, k: nat)
      returns (some: bool, y: nat, v: int)
    requires IsMatrix(m, n) && |t| == n && x < n && k <= n
    ensures some ==> y < k && IsCeiling(m, n, A, t, x, y, v)
    ensures forall z, w :: 0 <= z < k && IsCeiling(m, n, A, t, x, z, w) ==> some && v <= w
  {
    some, y, v := false, 0, 0;
    if k > 0 {
      some, y, v := LowestCeiling(m, n, A, t, x, k - 1);
      if k - 1 in A && m[x][k - 1].Fin? && (!some || t[k - 1] + m[x][k - 1].v < v) {
        some, y, v := true, k - 1, t[k - 1] + m[x][k - 1].v;
      }
    }
  }

  lemma {:induction false} HighestFloor(m: Matrix, n: nat, A: set<nat>, t: seq<int>, x: nat, k: nat)
      returns (some: bool, y: nat, v: int)
    requires IsMatrix(m, n) && |t| == n && x < n && k <= n
    ensures some ==> y < k && IsFloor(m, n, A, t, x, y, v)
    ensures forall z, w :: 0 <= z < k && IsFloor(m, n, A, t, x, z, w) ==> some && v >= w
  {
    some, y, v := false, 0, 0;
    if k > 0 {
      some, y, v := HighestFloor(m, n, A, t, x, k - 1);
      if k - 1 in A && m[k - 1][x].Fin? && (!some || t[k - 1] - m[k - 1][x].v > v) {
        some, y, v := true, k - 1, t[k - 1] - m[k - 1][x].v;
      }
    }
  }

  /** Every floor for x lies below every ceiling, by the triangle inequality. */
  lemma FloorBelowCeiling(m: Matrix, n: nat, A: set<nat>, t: seq<int>, x: nat, y: nat, v: int, z: nat, w: int)
    requires IsMatrix(m, n) && Canonical(m, n, 0, n) && SatOn(m, n, A, t) && x < n
    requires IsCeiling(m, n, A, t, x, y, v) && IsFloor(m, n, A, t, x, z, w)
    ensures w <= v
  {
  }

  lemma ExtendOne(m: Matrix, n: nat, A: set<nat>, t: seq<int>, x: nat) returns (t': seq<int>)
    requires IsMatrix(m, n) && Canonical(m, n, 0, n) && SatOn(m, n, A, t) && x < n && x !in A
    ensures SatOn(m, n, A + {x}, t')
    ensures forall i :: 0 <= i < n && i != x ==> t'[i] == t[i]
  {
    var above, y, v := LowestCeiling(m, n, A, t, x, n);
    var below, z, w := HighestFloor(m, n, A, t, x, n);
    var value := if above then v else if below then w else 0;
    t' := t[x := value];
    forall i | i in A && i < n
      ensures Allows(m[x][i], value - t[i]) && Allows(m[i][x], t[i] - value)
    {
      if m[x][i].Fin? {
        assert IsCeiling(m, n, A, t, x, i, t[i] + m[x][i].v);
      }
      if m[i][x].Fin? {
        assert IsFloor(m, n, A, t, x, i, t[i] - m[i][x].v);
        if above {
          FloorBelowCeiling(m, n, A, t, x, y, v, i, t[i] - m[i][x].v);
        }
      }
    }
  }

  /** A timing of the events in A that respects a canonical matrix extends to
      all events. */
  lemma {:induction false} ExtendTiming(m: Matrix, n: nat, A: set<nat>, t: seq<int>, k: nat) returns (t': seq<int>)
    requires IsMatrix(m, n) && Canonical(m, n, 0, n) && SatOn(m, n, A, t) && k <= n
    requires forall i :: 0 <= i < k ==> i in A
    ensures |t'| == n && Sat(m, t')
    ensures forall i :: i in A && 0 <= i < n ==> t'[i] == t[i]
    decreases n - k
  {
    if k == n {
      t' := t;
    } else if k in A {
      t' := ExtendTiming(m, n, A, t, k + 1);
    } else {
      var t1 := ExtendOne(m, n, A, t, k);
      t' := ExtendTiming(m, n, A + {k}, t1, k + 1);
    }
  }

  lemma CanonicalIsSatisfiable(m: Matrix, n: nat)
    requires IsMatrix(m, n) && Canonical(m, n, 0, n)
    ensures Satisfiable(m, n)
  {
    var t := ExtendTiming(m, n, {}, seq(n, _ => 0), 0);
  }

  // Reaching the bounds

  ghost function MaxOf(f: nat -> int, n: nat): (b: int)
    ensures forall i :: 0 <= i < n ==> f(i) <= b
  {
    if n == 0 then 0 else var b := MaxOf(f, n - 1); if f(n - 1) > b then f(n - 1) else b
  }

  ghost function Gap(m: Matrix, n: nat, r: nat, t0: seq<int>, x: nat, y: nat): int
    requires IsMatrix(m, n) && |t0| == n && r < n
  {
    if x < n && y < n && m[x][r].Fin? && m[x][y].Fin? then m[x][r].v - t0[y] - m[x][y].v else 0
  }

  ghost function Late(t0: seq<int>, K: int, x: nat): int {
    if x < |t0| then K - t0[x] else 0
  }

  /** How far the events without a bound to r have to be put off: past K and
      past what the bounds to them ask for. */
  lemma Delay(m: Matrix, n: nat, r: nat, t0: seq<int>, K: int) returns (B: int)
    requires IsMatrix(m, n) && |t0| == n && r < n
    ensures forall x :: 0 <= x < n ==> t0[x] + B >= K
    ensures forall x, y :: 0 <= x < n && 0 <= y < n && m[x][r].Fin? && m[x][y].Fin? ==>
      m[x][r].v - t0[y] - B <= m[x][y].v
  {
    var rows := (x: nat) => MaxOf((y: nat) => Gap(m, n, r, t0, x, y), n);
    var late := (x: nat) => Late(t0, K, x);
    var b, c := MaxOf(rows, n), MaxOf(late, n);
    B := if b > c then b else c;
    forall x, y | 0 <= x < n && 0 <= y < n
      ensures Gap(m, n, r, t0, x, y) <= b
    {
      var row := (y: nat) => Gap(m, n, r, t0, x, y);
      assert row(y) <= MaxOf(row, n) == rows(x) <= b;
    }
    forall x | 0 <= x < n
      ensures t0[x] + B >= K
    {
      assert late(x) <= c;
    }
    forall x, y | 0 <= x < n && 0 <= y < n && m[x][r].Fin? && m[x][y].Fin?
      ensures m[x][r].v - t0[y] - B <= m[x][y].v
    {
      assert Gap(m, n, r, t0, x, y) <= b;
    }
  }

  /** The latest timing relative to event r: every event bounded against r is
      as late as its bound allows, every other one at least K later than r. */
  lemma LatestTiming(m: Matrix, n: nat, r: nat, K: int) returns (t: seq<int>)
    requires IsMatrix(m, n) && Canonical(m, n, 0, n) && r < n
    ensures |t| == n && Sat(m, t) && t[r] == 0
    ensures forall x :: 0 <= x < n ==> if m[x][r].Fin? then t[x] == m[x][r].v else t[x] >= K
  {
    CanonicalIsSatisfiable(m, n);
    var t0 :| |t0| == n && Sat(m, t0);
    var B := Delay(m, n, r, t0, K);
    t := seq(n, x requires 0 <= x < n => if m[x][r].Fin? then m[x][r].v else t0[x] + B);
    forall x, y | 0 <= x < n && 0 <= y < n
      ensures Allows(m[x][y], t[x] - t[y])
    {
      assert AtMostSum(m[x][r], m[x][y], m[y][r]);
      if m[x][y].Fin? {
        if !m[x][r].Fin? && !m[y][r].Fin? {
          assert Allows(m[x][y], t0[x] - t0[y]);
        }
      }
    }
  }

  ghost predicate SameTimings(m: Matrix, m': Matrix, n: nat)
    requires IsMatrix(m, n) && IsMatrix(m', n)
  {
    forall t {:trigger Sat(m, t)} {:trigger Sat(m', t)} :: |t| == n ==> (Sat(m, t) <==> Sat(m', t))
  }

  lemma EntryIsTightest(m: Matrix, m': Matrix, n: nat, i: nat, j: nat)
    requires IsMatrix(m, n) && IsMatrix(m', n) && i < n && j < n
    requires Canonical(m, n, 0, n) && forall t :: |t| == n && Sat(m, t) ==> Sat(m', t)
    ensures AtMost(m[i][j], m'[i][j])
  {
    if m'[i][j].Fin? {
      var t := LatestTiming(m, n, j, m'[i][j].v + 1);
      SatAt(m', t, i, j);
    }
  }

  /** Canonical form is unique: two canonical matrices with the same timings
      agree in every finite entry, and in which entries are finite. */
  lemma CanonicalIsUnique(m: Matrix, m': Matrix, n: nat)
    requires IsMatrix(m, n) && IsMatrix(m', n)
    requires Canonical(m, n, 0, n) && Canonical(m', n, 0, n) && SameTimings(m, m', n)
    ensures forall i, j :: 0 <= i < n && 0 <= j < n ==> AtMost(m[i][j], m'[i][j]) && AtMost(m'[i][j], m[i][j])
  {
    forall i, j | 0 <= i < n && 0 <= j < n
      ensures AtMost(m[i][j], m'[i][j]) && AtMost(m'[i][j], m[i][j])
    {
      EntryIsTightest(m, m', n, i, j);
      EntryIsTightest(m', m, n, i, j);
    }
  }

  /** Some timing lets i happen no earlier than j. */
  ghost predicate CanFollow(m: Matrix, n: nat, i: nat, j: nat)
    requires IsMatrix(m, n) && i < n && j < n
  {
    exists t {:trigger Sat(m, t)} :: |t| == n && Sat(m, t) && t[i] >= t[j]
  }

  /** Some timing lets r happen no later than any event from lo on. */
  ghost predicate CanBeFirst(m: Matrix, n: nat, lo: nat, r: nat)
    requires IsMatrix(m, n) && r < n
  {
    exists t {:trigger Sat(m, t)} :: |t| == n && Sat(m, t) && forall x :: lo <= x < n ==> t[r] <= t[x]
  }

  predicate Negative(b: Bound) {
    b.Fin? && b.v < 0
  }

  /** A negative entry [i][j] of a canonical matrix is exactly the statement
      that i always happens strictly before j. */
  lemma NegativeMeansBefore(m: Matrix, n: nat, i: nat, j: nat)
    requires IsMatrix(m, n) && Canonical(m, n, 0, n) && i < n && j < n
    ensures Negative(m[i][j]) <==> !CanFollow(m, n, i, j)
  {
    if CanFollow(m, n, i, j) {
      var t :| |t| == n && Sat(m, t) && t[i] >= t[j];
      SatAt(m, t, i, j);
    }
    if !Negative(m[i][j]) {
      var t := LatestTiming(m, n, j, 0);
      assert t[i] >= t[j];
    }
  }

  /** No event is forced before r exactly when one single timing has r no later
      than all of them. */
  lemma FirstIsJoint(m: Matrix, n: nat, lo: nat, r: nat)
    requires IsMatrix(m, n) && Canonical(m, n, 0, n) && r < n
    ensures (forall x :: lo <= x < n ==> !Negative(m[x][r])) <==> CanBeFirst(m, n, lo, r)
  {
    if CanBeFirst(m, n, lo, r) {
      var t :| |t| == n && Sat(m, t) && forall x :: lo <= x < n ==> t[r] <= t[x];
      forall x | lo <= x < n
        ensures !Negative(m[x][r])
      {
        SatAt(m, t, x, r);
      }
    } else {
      var t := LatestTiming(m, n, r, 0);
      assert !forall x :: lo <= x < n ==> t[r] <= t[x];
    }
  }

  // Coming next

  /** The first o events happen no later than k, and all others no earlier. */
  ghost predicate ComesNext(t: seq<int>, o: nat, k: nat)
    requires o <= k < |t|
  {
    && (forall j :: 0 <= j < o ==> t[j] <= t[k])
    && (forall x :: o <= x < |t| ==> t[k] <= t[x])
  }

  ghost predicate CanBeNext(m: Matrix, n: nat, o: nat, k: nat)
    requires IsMatrix(m, n) && o <= k < n
  {
    exists t {:trigger Sat(m, t)} :: |t| == n && Sat(m, t) && ComesNext(t, o, k)
  }

  ghost function Earlier(t: seq<int>, t': seq<int>): (r: seq<int>)
    requires |t| == |t'|
    ensures |r| == |t| && forall i :: 0 <= i < |t| ==> r[i] == if t[i] <= t'[i] then t[i] else t'[i]
  {
    seq(|t|, i requires 0 <= i < |t| == |t'| => if t[i] <= t'[i] then t[i] else t'[i])
  }

  /** Difference bounds survive the pointwise minimum. */
  lemma EarlierSat(m: Matrix, n: nat, t: seq<int>, t': seq<int>)
    requires IsMatrix(m, n) && |t| == |t'| == n && Sat(m, t) && Sat(m, t')
    ensures Sat(m, Earlier(t, t'))
  {
    var r := Earlier(t, t');
    forall i, j | 0 <= i < n && 0 <= j < n ensures Allows(m[i][j], r[i] - r[j]) {
      SatAt(m, t, i, j);
      SatAt(m, t', i, j);
    }
  }

  /** No event from o on is forced before one of the first o or before k. */
  ghost predicate NoneForced(m: Matrix, n: nat, o: nat, k: nat)
    requires IsMatrix(m, n) && o <= k < n
  {
    && (forall i, j :: o <= i < n && 0 <= j < o ==> !Negative(m[i][j]))
    && (forall x :: o <= x < n ==> !Negative(m[x][k]))
  }

  /** k at 0, the events from o on no earlier, and the first j no later. */
  lemma {:induction false} TimingAround(m: Matrix, n: nat, o: nat, k: nat, j: nat) returns (t: seq<int>)
    requires IsMatrix(m, n) && Canonical(m, n, 0, n) && j <= o <= k < n && NoneForced(m, n, o, k)
    ensures |t| == n && Sat(m, t) && t[k] == 0
    ensures (forall x :: o <= x < n ==> t[x] >= 0) && forall i :: 0 <= i < j ==> t[i] <= 0
  {
    if j == 0 {
      t := LatestTiming(m, n, k, 0);
    } else {
      var t0 := TimingAround(m, n, o, k, j - 1);
      var t1 := LatestTiming(m, n, j - 1, 0);
      EarlierSat(m, n, t0, t1);
      t := Earlier(t0, t1);
    }
  }

  /** The pairwise tests hold exactly when one single timing has k next. */
  lemma NextIsOneTiming(m: Matrix, n: nat, o: nat, k: nat)
    requires IsMatrix(m, n) && Canonical(m, n, 0, n) && o <= k < n
    ensures NoneForced(m, n, o, k) <==> CanBeNext(m, n, o, k)
  {
    if NoneForced(m, n, o, k) {
      var t := TimingAround(m, n, o, k, o);
      assert ComesNext(t, o, k);
    }
    if CanBeNext(m, n, o, k) {
      var t :| |t| == n && Sat(m, t) && ComesNext(t, o, k);
      forall i, j | o <= i < n && 0 <= j < o ensures !Negative(m[i][j]) {
        SatAt(m, t, i, j);
      }
      forall x | o <= x < n ensures !Negative(m[x][k]) {
        SatAt(m, t, x, k);
      }
    }
  }

  // Forgetting events

  /** keep lists the indices that stay, oldest first. */
  ghost predicate IsSelection(keep: seq<nat>, n: nat) {
    && (forall a :: 0 <= a < |keep| ==> keep[a] < n)
    && forall a, b :: 0 <= a < b < |keep| ==> keep[a] < keep[b]
  }

  ghost function Restrict<T>(t: seq<T>, keep: seq<nat>): seq<T>
    requires IsSelection(keep, |t|)
  {
    seq(|keep|, a requires 0 <= a < |keep| => t[keep[a]])
  }

  ghost function Shrunk(m: Matrix, n: nat, keep: seq<nat>): (m': Matrix)
    requires IsMatrix(m, n) && IsSelection(keep, n)
    ensures IsMatrix(m', |keep|)
  {
    seq(|keep|, a requires 0 <= a < |keep| => seq(|keep|, b requires 0 <= b < |keep| => m[keep[a]][keep[b]]))
  }

  /** The timing of all events that puts t' on the kept ones. */
  ghost function Spread(n: nat, keep: seq<nat>, t': seq<int>, k: nat): (t: seq<int>)
    requires IsSelection(keep, n) && k <= |keep| == |t'|
    ensures |t| == n && forall a :: 0 <= a < k ==> t[keep[a]] == t'[a]
  {
    if k == 0 then seq(n, _ => 0) else Spread(n, keep, t', k - 1)[keep[k - 1] := t'[k - 1]]
  }

  /** Dropping rows and columns of a canonical matrix is exact projection: the
      timings left are the restrictions of the timings before, no more. */
  lemma ShrinkIsProjection(m: Matrix, n: nat, keep: seq<nat>, t': seq<int>)
    requires IsMatrix(m, n) && Canonical(m, n, 0, n) && IsSelection(keep, n) && |t'| == |keep|
    ensures Sat(Shrunk(m, n, keep), t')
      <==> exists t {:trigger Sat(m, t)} :: |t| == n && Sat(m, t) && Restrict(t, keep) == t'
  {
    var m' := Shrunk(m, n, keep);
    if Sat(m', t') {
      var t0 := Spread(n, keep, t', |keep|);
      var A := set a | 0 <= a < |keep| :: keep[a];
      forall i, j | i in A && j in A && i < n && j < n
        ensures Allows(m[i][j], t0[i] - t0[j])
      {
        var a :| 0 <= a < |keep| && keep[a] == i;
        var b :| 0 <= b < |keep| && keep[b] == j;
        assert Allows(m'[a][b], t'[a] - t'[b]);
      }
      var t := ExtendTiming(m, n, A, t0, 0);
      assert forall a :: 0 <= a < |keep| ==> keep[a] in A;
      assert Restrict(t, keep) == t';
    }
    if t :| |t| == n && Sat(m, t) && Restrict(t, keep) == t' {
      forall a, b | 0 <= a < |keep| && 0 <= b < |keep|
        ensures Allows(m'[a][b], t'[a] - t'[b])
      {
        assert Allows(m[keep[a]][keep[b]], t[keep[a]] - t[keep[b]]);
      }
    }
  }

  /** ... and canonical form survives it. */
  lemma ShrinkStaysCanonical(m: Matrix, n: nat, keep: seq<nat>)
    requires IsMatrix(m, n) && Canonical(m, n, 0, n) && IsSelection(keep, n)
    ensures Canonical(Shrunk(m, n, keep), |keep|, 0, |keep|)
  {
    var m' := Shrunk(m, n, keep);
    forall a, b, c | 0 <= a < |keep| && 0 <= b < |keep| && 0 <= c < |keep|
      ensures AtMostSum(m'[a][c], m'[a][b], m'[b][c])
    {
      assert AtMostSum(m[keep[a]][keep[c]], m[keep[a]][keep[b]], m[keep[b]][keep[c]]);
    }
  }
}
