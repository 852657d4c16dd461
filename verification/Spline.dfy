/** The natural cubic spline of src/CSpline.cpp, over exact reals. */
module Spline {
  import opened Tridiagonal

  type Points = seq<(real, real)>

  /** At least one interval, and the x values strictly increase. */
  ghost predicate IsKnotted(p: Points) {
    |p| >= 2 && forall i, j :: 0 <= i < j < |p| ==> p[i].0 < p[j].0
  }

  /** The width of interval i. */
  function U(p: Points, i: nat): real
    requires i + 1 < |p|
  {
    p[i + 1].0 - p[i].0
  }

  lemma WidthIsPositive(p: Points, i: nat)
    requires IsKnotted(p) && i + 1 < |p|
    ensures U(p, i) > 0.0
  {
  }

  /** The order of pairs that fit sorts the points by. */
  predicate SortsBefore(a: (real, real), b: (real, real)) {
    a.0 < b.0 || (a.0 == b.0 && a.1 < b.1)
  }

  /** p is what sorting the points and dropping repeated ones leaves. */
  ghost predicate IsFitted(points: Points, p: Points) {
    && (forall a :: a in points <==> a in p)
    && (forall i, j :: 0 <= i < j < |p| ==> SortsBefore(p[i], p[j]))
  }

  /** No width is 0, so that nothing is divided by 0, exactly if no two of the
      points lie above each other. */
  lemma FittedIsKnotted(points: Points, p: Points)
    requires IsFitted(points, p) && |p| >= 2
    ensures IsKnotted(p) <==> forall a, b :: a in points && b in points && a.0 == b.0 ==> a.1 == b.1
    ensures IsKnotted(p) <==> forall i: nat {:trigger U(p, i)} :: i + 1 < |p| ==> U(p, i) != 0.0
  {
    if IsKnotted(p) {
      forall a, b | a in points && b in points && a.0 == b.0 ensures a.1 == b.1 {
        var i :| 0 <= i < |p| && p[i] == a;
        var j :| 0 <= j < |p| && p[j] == b;
      }
    } else {
      var i, j :| 0 <= i < j < |p| && !(p[i].0 < p[j].0);
      assert p[i] in points && p[j] in points;
      assert SortsBefore(p[i], p[i + 1]) && (i + 1 < j ==> SortsBefore(p[i + 1], p[j]));
      assert U(p, i) == 0.0;
    }
  }

  // What the spline is

  /** x cubed less x. */
  function Fx(x: real): real {
    x * x * x - x
  }

  /** What second derivatives s and r add to the chord, from the weights f and g. */
  function Swell(u: real, f: real, g: real, s: real, r: real): real {
    u * u * (f * r + g * s) / 6.0
  }

  /** The cubic on an interval of width u, at position t in it: a and b are the
      end values, s and r the second derivatives there. */
  function PieceAt(a: real, b: real, u: real, s: real, r: real, t: real): real {
    t * b + (1.0 - t) * a + Swell(u, Fx(t), Fx(1.0 - t), s, r)
  }

  /** The derivative of Fx. */
  ghost function FxSlope(x: real): real {
    3.0 * x * x - 1.0
  }

  ghost function SlopeAt(a: real, b: real, u: real, s: real, r: real, t: real): real
    requires u != 0.0
  {
    (b - a) / u + u * (FxSlope(t) * r - FxSlope(1.0 - t) * s) / 6.0
  }

  ghost function BendAt(s: real, r: real, t: real): real {
    t * r + (1.0 - t) * s
  }

  /** A piece is a cubic whose first three derivatives are SlopeAt, BendAt and
      (r - s) / u: a step of length h changes it by their Taylor sum. */
  lemma PieceExpands(a: real, b: real, u: real, s: real, r: real, t: real, g: real, h: real)
    requires u != 0.0 && h == u * g
    ensures PieceAt(a, b, u, s, r, t + g)
         == PieceAt(a, b, u, s, r, t) + h * SlopeAt(a, b, u, s, r, t)
            + h * h * BendAt(s, r, t) / 2.0 + h * h * h * ((r - s) / u) / 6.0
  {
    FxExpands(t, g);
    FxExpands(1.0 - t, -g);
    var f0, f1, f2, f3 := Fx(t), g * FxSlope(t), 3.0 * g * g * t, g * g * g;
    var e0, e1, e2, e3 := Fx(1.0 - t), -g * FxSlope(1.0 - t), 3.0 * g * g * (1.0 - t), -g * g * g;
    assert Fx(t + g) == f0 + f1 + f2 + f3;
    assert 1.0 - (t + g) == 1.0 - t + -g;
    assert Fx(1.0 - (t + g)) == e0 + e1 + e2 + e3;
    SwellAdds(u, f0, e0, f1, e1, s, r);
    SwellAdds(u, f0 + f1, e0 + e1, f2, e2, s, r);
    SwellAdds(u, f0 + f1 + f2, e0 + e1 + e2, f3, e3, s, r);
    SlopeTerm(a, b, u, s, r, t, g, h);
    BendTerm(u, s, r, t, g, h);
    JerkTerm(u, s, r, g, h);
    assert (t + g) * b + (1.0 - (t + g)) * a == t * b + (1.0 - t) * a + g * (b - a);
  }

  lemma FxExpands(t: real, g: real)
    ensures Fx(t + g) == Fx(t) + g * FxSlope(t) + 3.0 * g * g * t + g * g * g
  {
  }

  lemma SwellAdds(u: real, f: real, g: real, f': real, g': real, s: real, r: real)
    ensures Swell(u, f + f', g + g', s, r) == Swell(u, f, g, s, r) + Swell(u, f', g', s, r)
  {
  }

  lemma SlopeTerm(a: real, b: real, u: real, s: real, r: real, t: real, g: real, h: real)
    requires u != 0.0 && h == u * g
    ensures h * SlopeAt(a, b, u, s, r, t)
         == g * (b - a) + Swell(u, g * FxSlope(t), -g * FxSlope(1.0 - t), s, r)
  {
  }

  lemma BendTerm(u: real, s: real, r: real, t: real, g: real, h: real)
    requires h == u * g
    ensures h * h * BendAt(s, r, t) / 2.0 == Swell(u, 3.0 * g * g * t, 3.0 * g * g * (1.0 - t), s, r)
  {
  }

  lemma JerkTerm(u: real, s: real, r: real, g: real, h: real)
    requires u != 0.0 && h == u * g
    ensures h * h * h * ((r - s) / u) / 6.0 == Swell(u, g * g * g, -g * g * g, s, r)
  {
  }

  // The system for the second derivatives

  /** The change of chord slope at knot i, six times over. */
  function Kink(p: Points, i: nat): real
    requires 0 < i && i + 1 < |p| && U(p, i) != 0.0 && U(p, i - 1) != 0.0
  {
    6.0 * ((p[i + 1].1 - p[i].1) / U(p, i) - (p[i].1 - p[i - 1].1) / U(p, i - 1))
  }

  ghost function Widths(p: Points): (u: seq<real>)
    requires IsKnotted(p)
    ensures |u| == |p| - 1
    ensures forall i {:trigger u[i]} {:trigger U(p, i)} :: 0 <= i < |p| - 1 ==> u[i] == U(p, i) > 0.0
  {
    seq(|p| - 1, i requires 0 <= i < |p| - 1 => U(p, i))
  }

  ghost function Diagonal(p: Points): (d: seq<real>)
    requires IsKnotted(p)
    ensures |d| == |p|
    ensures forall i {:trigger d[i]} :: 0 < i < |p| - 1 ==> d[i] == 2.0 * (p[i + 1].0 - p[i - 1].0)
  {
    seq(|p|, i requires 0 <= i < |p| => if 0 < i < |p| - 1 then 2.0 * (p[i + 1].0 - p[i - 1].0) else 0.0)
  }

  ghost function Kinks(p: Points): (w: seq<real>)
    requires IsKnotted(p)
    ensures |w| == |p|
    ensures forall i {:trigger Kink(p, i)} :: 0 < i < |p| - 1 ==>
              U(p, i) > 0.0 && U(p, i - 1) > 0.0 && w[i] == Kink(p, i)
  {
    var u := Widths(p);
    assert forall i {:trigger Kink(p, i)} :: 0 < i < |p| - 1 ==> u[i] > 0.0 && u[i - 1] > 0.0;
    seq(|p|, i requires 0 <= i < |p| && IsKnotted(p) => if 0 < i < |p| - 1 then Kink(p, i) else 0.0)
  }

  ghost function SystemOf(p: Points): (s: System)
    requires IsKnotted(p)
    ensures IsDominant(s) && |s.d| == |p|
  {
    System(Widths(p), Diagonal(p), Kinks(p))
  }

  /** P holds the second derivatives of the natural cubic spline through p: zero
      at both ends, and in balance at every knot between. */
  ghost predicate IsNatural(p: Points, P: seq<real>)
    requires IsKnotted(p)
  {
    && |P| == |p| && P[0] == 0.0 && P[|P| - 1] == 0.0
    && forall i :: 0 < i < |p| - 1 ==> InBalance(p, P, i)
  }

  ghost predicate InBalance(p: Points, P: seq<real>, i: nat)
    requires IsKnotted(p) && |P| == |p| && 0 < i < |p| - 1
  {
    RowHolds(U(p, i - 1), 2.0 * (p[i + 1].0 - p[i - 1].0), U(p, i), Kink(p, i), P[i - 1], P[i], P[i + 1])
  }

  lemma BalanceIsARow(p: Points, P: seq<real>, i: nat)
    requires IsKnotted(p) && |P| == |p| && 0 < i < |p| - 1
    ensures InBalance(p, P, i) <==> SolvesRow(SystemOf(p), P, i)
  {
  }

  lemma NaturalMeansSolved(p: Points, P: seq<real>)
    requires IsKnotted(p)
    ensures IsNatural(p, P) <==> Solves(SystemOf(p), P)
  {
    if |P| == |p| {
      forall i | 0 < i < |p| - 1
        ensures InBalance(p, P, i) <==> SolvesRow(SystemOf(p), P, i)
      {
        BalanceIsARow(p, P, i);
      }
    }
  }

  /** There is one natural spline through the points and no other. */
  lemma NaturalSplineIsUnique(p: Points, P: seq<real>, Q: seq<real>)
    requires IsKnotted(p) && IsNatural(p, P) && IsNatural(p, Q)
    ensures P == Q
  {
    NaturalMeansSolved(p, P);
    NaturalMeansSolved(p, Q);
    forall i | 0 <= i < |P| ensures P[i] == Q[i] {
      SolutionIsUnique(SystemOf(p), P, Q, i);
    }
  }

  // The spline as a function

  function Piece(p: Points, P: seq<real>, i: nat, v: real): real
    requires i + 1 < |p| == |P| && U(p, i) != 0.0
  {
    PieceAt(p[i].1, p[i + 1].1, U(p, i), P[i], P[i + 1], (v - p[i].0) / U(p, i))
  }

  /** The first derivative of piece i, the second and the third. */
  ghost function Slope(p: Points, P: seq<real>, i: nat, v: real): real
    requires i + 1 < |p| == |P| && U(p, i) != 0.0
  {
    SlopeAt(p[i].1, p[i + 1].1, U(p, i), P[i], P[i + 1], (v - p[i].0) / U(p, i))
  }

  ghost function Bend(p: Points, P: seq<real>, i: nat, v: real): real
    requires i + 1 < |p| == |P| && U(p, i) != 0.0
  {
    BendAt(P[i], P[i + 1], (v - p[i].0) / U(p, i))
  }

  ghost function Jerk(p: Points, P: seq<real>, i: nat): real
    requires i + 1 < |p| == |P| && U(p, i) != 0.0
  {
    (P[i + 1] - P[i]) / U(p, i)
  }

  /** Slope, Bend and Jerk are the derivatives of the piece everywhere. */
  lemma PieceIsCubic(p: Points, P: seq<real>, i: nat, v: real, h: real)
    requires IsKnotted(p) && i + 1 < |p| == |P|
    ensures U(p, i) > 0.0
    ensures Piece(p, P, i, v + h)
         == Piece(p, P, i, v) + h * Slope(p, P, i, v) + h * h * Bend(p, P, i, v) / 2.0 + h * h * h * Jerk(p, P, i) / 6.0
  {
    var u := U(p, i);
    var g := h / u;
    assert h == u * g;
    assert (v + h - p[i].0) / u == (v - p[i].0) / u + g;
    PieceExpands(p[i].1, p[i + 1].1, u, P[i], P[i + 1], (v - p[i].0) / u, g, h);
  }

  /** Every piece passes through the knots at its two ends. */
  lemma PieceMeetsKnots(p: Points, P: seq<real>, i: nat)
    requires IsKnotted(p) && i + 1 < |p| == |P|
    ensures U(p, i) > 0.0
    ensures Piece(p, P, i, p[i].0) == p[i].1 && Piece(p, P, i, p[i + 1].0) == p[i + 1].1
  {
    EndPositions(p, i);
  }

  lemma EndPositions(p: Points, i: nat)
    requires IsKnotted(p) && i + 1 < |p|
    ensures U(p, i) > 0.0
    ensures (p[i].0 - p[i].0) / U(p, i) == 0.0 && (p[i + 1].0 - p[i].0) / U(p, i) == 1.0
  {
  }

  lemma SlopesMeet(a: real, b: real, c: real, u0: real, u1: real, s: real, r: real, q: real)
    requires u0 != 0.0 && u1 != 0.0
    ensures SlopeAt(a, b, u0, s, r, 1.0) == SlopeAt(b, c, u1, r, q, 0.0)
      <==> RowHolds(u0, 2.0 * (u0 + u1), u1, 6.0 * ((c - b) / u1 - (b - a) / u0), s, r, q)
  {
  }

  /** A row of the system says exactly that the slopes of the two pieces agree
      at the knot where they meet; their second derivatives agree in any case. */
  lemma KnotIsSmoothIffInBalance(p: Points, P: seq<real>, i: nat)
    requires IsKnotted(p) && |P| == |p| && 0 < i < |p| - 1
    ensures U(p, i - 1) > 0.0 && U(p, i) > 0.0
    ensures Slope(p, P, i - 1, p[i].0) == Slope(p, P, i, p[i].0) <==> InBalance(p, P, i)
    ensures Bend(p, P, i - 1, p[i].0) == P[i] == Bend(p, P, i, p[i].0)
  {
    EndPositions(p, i - 1);
    EndPositions(p, i);
    var u0, u1 := U(p, i - 1), U(p, i);
    SlopesMeet(p[i - 1].1, p[i].1, p[i + 1].1, u0, u1, P[i - 1], P[i], P[i + 1]);
    assert 2.0 * (u0 + u1) == 2.0 * (p[i + 1].0 - p[i - 1].0);
  }

  ghost predicate SlopesAgree(p: Points, P: seq<real>, i: nat)
    requires IsKnotted(p) && |P| == |p| && 0 < i < |p| - 1
  {
    WidthIsPositive(p, i - 1);
    WidthIsPositive(p, i);
    Slope(p, P, i - 1, p[i].0) == Slope(p, P, i, p[i].0)
  }

  /** The second derivatives are natural exactly when the curve does not bend at
      its ends and its slope is continuous. */
  lemma NaturalMeansSmooth(p: Points, P: seq<real>)
    requires IsKnotted(p) && |P| == |p|
    ensures IsNatural(p, P)
      <==> P[0] == 0.0 && P[|P| - 1] == 0.0 && forall i :: 0 < i < |p| - 1 ==> SlopesAgree(p, P, i)
  {
    forall i | 0 < i < |p| - 1 ensures InBalance(p, P, i) <==> SlopesAgree(p, P, i) {
      KnotIsSmoothIffInBalance(p, P, i);
    }
  }

  lemma NotAfter(p: Points, j: nat, k: nat)
    requires IsKnotted(p) && j < |p| && k < |p| && p[j].0 <= p[k].0
    ensures j <= k
  {
  }

  /** Pieces that both cover a point agree on it. */
  lemma OneValue(p: Points, P: seq<real>, i: nat, v: real)
    requires IsKnotted(p) && i + 1 < |p| == |P| && p[i].0 <= v <= p[i + 1].0
    ensures U(p, i) > 0.0
    ensures forall j: nat {:trigger U(p, j)} :: j + 1 < |p| && p[j].0 <= v <= p[j + 1].0
              ==> U(p, j) > 0.0 && Piece(p, P, j, v) == Piece(p, P, i, v)
  {
    PieceMeetsKnots(p, P, i);
    forall j: nat | j + 1 < |p| && p[j].0 <= v <= p[j + 1].0
      ensures U(p, j) > 0.0 && Piece(p, P, j, v) == Piece(p, P, i, v)
    {
      PieceMeetsKnots(p, P, j);
      NotAfter(p, j, i + 1);
      NotAfter(p, i, j + 1);
    }
  }

  // The object

  class CSpline {
    const pdf: Points
    var bends: array<real>

    constructor (points: Points)
      ensures pdf == points && fresh(bends)
    {
      pdf := points;
      bends := new real[0];
    }

    ghost predicate Made()
      reads this, bends
    {
      IsKnotted(pdf) && IsNatural(pdf, bends[..])
    }

    ghost predicate HasWidths(s: System) {
      IsDominant(s) && |s.d| == |pdf| && forall i {:trigger s.u[i]} :: 0 <= i < |s.u| ==> s.u[i] == U(pdf, i)
    }

    method MakeSpline()
      requires IsKnotted(pdf)
      modifies this
      ensures fresh(bends) && Made()
    {
      var n := |pdf|;
      ghost var s := SystemOf(pdf);
      var d := new real[n](_ => 0.0);
      var w := new real[n](_ => 0.0);
      FillDiagonal(d);
      FillKinks(w);
      bends := new real[n](_ => 0.0);
      ghost var t := Elimination(s);
      Eliminate(s, t, d, w);
      SubstituteBack(s, t, d, w);
      NaturalMeansSolved(pdf, bends[..]);
    }

    method FillDiagonal(d: array<real>)
      requires IsKnotted(pdf) && d.Length == |pdf|
      modifies d
      ensures forall j :: 0 < j < |pdf| - 1 ==> d[j] == SystemOf(pdf).d[j]
    {
      ghost var s := SystemOf(pdf);
      for i := 1 to |pdf| - 1
        invariant forall j :: 0 < j < i ==> d[j] == s.d[j]
      {
        d[i] := 2.0 * (pdf[i + 1].0 - pdf[i - 1].0);
      }
    }

    method FillKinks(w: array<real>)
      requires IsKnotted(pdf) && w.Length == |pdf|
      modifies w
      ensures forall j :: 0 < j < |pdf| - 1 ==> w[j] == Kinks(pdf)[j]
    {
      ghost var kinks := Kinks(pdf);
      for i := 1 to |pdf| - 1
        invariant forall j :: 0 < j < i ==> w[j] == kinks[j]
      {
        WidthIsPositive(pdf, i);
        WidthIsPositive(pdf, i - 1);
        w[i] := Kink(pdf, i);
      }
    }

    /** Row i + 1 less what row i is worth in it. */
    method EliminateRow(ghost s: System, ghost t: System, d: array<real>, w: array<real>, i: nat)
      requires HasWidths(s) && IsEliminated(s, t) && d.Length == w.Length == |pdf| && d != w && 0 < i < |pdf| - 2
      requires d[i] == t.d[i] && w[i] == t.w[i] && d[i + 1] == s.d[i + 1] && w[i + 1] == s.w[i + 1]
      modifies d, w
      ensures d[..] == old(d[..])[i + 1 := t.d[i + 1]]
      ensures w[..] == old(w[..])[i + 1 := t.w[i + 1]]
    {
      var u := U(pdf, i);
      assert t.d[i] == Pivot(s, i) && t.w[i] == Rhs(s, i);
      assert u == s.u[i] < d[i];
      NextRow(s, i + 1);
      w[i + 1] := Less(w[i + 1], w[i], u, d[i]);
      d[i + 1] := Less(d[i + 1], u, u, d[i]);
    }

    /** Turns the rows of s into the eliminated rows t. */
    method Eliminate(ghost s: System, ghost t: System, d: array<real>, w: array<real>)
      requires HasWidths(s) && IsEliminated(s, t) && d.Length == w.Length == |pdf| && d != w
      requires forall j :: 0 < j < |pdf| - 1 ==> d[j] == s.d[j] && w[j] == s.w[j]
      modifies d, w
      ensures forall j :: 0 < j < |pdf| - 1 ==> d[j] == t.d[j] && w[j] == t.w[j]
    {
      FirstRow(s, t);
      var i := 1;
      while i < |pdf| - 2
        invariant 1 <= i && (i < |pdf| - 1 || i == 1)
        invariant forall j :: 0 < j <= i && j < |pdf| - 1 ==> d[j] == t.d[j] && w[j] == t.w[j]
        invariant forall j :: i < j < |pdf| - 1 ==> d[j] == s.d[j] && w[j] == s.w[j]
      {
        ghost var d0, w0 := d[..], w[..];
        EliminateRow(s, t, d, w, i);
        assert forall j :: 0 <= j < |pdf| && j != i + 1 ==> d[..][j] == d0[j] && w[..][j] == w0[j];
        i := i + 1;
      }
    }

    method SubstituteBack(ghost s: System, ghost t: System, d: array<real>, w: array<real>)
      requires HasWidths(s) && IsEliminated(s, t)
      requires d.Length == w.Length == bends.Length == |pdf| && d != bends && w != bends
      requires forall j :: 0 < j < |pdf| - 1 ==> d[j] == t.d[j] && w[j] == t.w[j]
      requires forall j :: 0 <= j < |pdf| ==> bends[j] == 0.0
      modifies bends
      ensures Solves(s, bends[..])
    {
      var i := |pdf| - 2;
      while i > 0
        invariant 0 <= i <= |pdf| - 2
        invariant bends[0] == 0.0 && bends[|pdf| - 1] == 0.0
        invariant forall j :: i < j < |pdf| - 1 ==> ShortRowHolds(t.d[j], s.u[j], t.w[j], bends[j], bends[j + 1])
      {
        var u := U(pdf, i);
        assert t.d[i] == Pivot(s, i);
        assert u == s.u[i] < d[i];
        bends[i] := SolveFor(w[i], u, bends[i + 1], d[i]);
        i := i - 1;
      }
      ShortRowsSuffice(s, t, bends[..]);
    }

    /** The value at v: zero outside the knots, and on them and between them that
        of whichever piece covers v. */
    method F(v: real) returns (r: real)
      requires Made()
      ensures v < pdf[0].0 || v > pdf[|pdf| - 1].0 ==> r == 0.0
      ensures forall i: nat {:trigger U(pdf, i)} :: i + 1 < |pdf| && pdf[i].0 <= v <= pdf[i + 1].0
                ==> U(pdf, i) > 0.0 && r == Piece(pdf, bends[..], i, v)
    {
      if v < pdf[0].0 || v > pdf[|pdf| - 1].0 {
        return 0.0;
      }
      var i := 0;
      while v > pdf[i + 1].0
        invariant 0 <= i < |pdf| - 1 && pdf[i].0 <= v
        decreases |pdf| - i
      {
        i := i + 1;
      }
      OneValue(pdf, bends[..], i, v);
      var t := (v - pdf[i].0) / U(pdf, i);
      r := PieceAt(pdf[i].1, pdf[i + 1].1, U(pdf, i), bends[i], bends[i + 1], t);
    }
  }
}
