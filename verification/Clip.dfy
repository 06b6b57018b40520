/**
 Clipping map lines to a box (frontend/scripts/build-harbor-snapshot.py), over the reals:
 the part of a segment inside the box, and the runs of a polyline inside the box.
 */
module Clip {
  import opened Prelude

  datatype Point = Point(x: real, y: real)
  datatype Box = Box(west: real, south: real, east: real, north: real)

  predicate Inside(p: Point, box: Box) {
    box.west <= p.x <= box.east && box.south <= p.y <= box.north
  }

  /** The point of the segment from a to b at parameter t. */
  function PointAt(a: Point, b: Point, t: real): Point {
    Point(a.x + t * (b.x - a.x), a.y + t * (b.y - a.y))
  }

  ghost predicate OnSegment(p: Point, a: Point, b: Point) {
    exists t :: 0.0 <= t <= 1.0 && p == PointAt(a, b, t)
  }

  /** Each side of the box is one condition t * p <= q on the parameter. */
  predicate Meets(t: real, p: real, q: real) {
    t * p <= q
  }

  function Directions(a: Point, b: Point): (p: seq<real>)
    ensures |p| == 4
  {
    [-(b.x - a.x), b.x - a.x, -(b.y - a.y), b.y - a.y]
  }

  function Margins(a: Point, box: Box): (q: seq<real>)
    ensures |q| == 4
  {
    [a.x - box.west, box.east - a.x, a.y - box.south, box.north - a.y]
  }

  /** The first n side conditions at parameter t. */
  predicate MeetsFirst(t: real, p: seq<real>, q: seq<real>, n: nat)
    requires n <= |p| == |q|
  {
    forall k | 0 <= k < n :: Meets(t, p[k], q[k])
  }

  lemma SidesAreInside(a: Point, b: Point, box: Box, t: real)
    ensures MeetsFirst(t, Directions(a, b), Margins(a, box), 4) <==> Inside(PointAt(a, b, t), box)
  {
    var p, q := Directions(a, b), Margins(a, box);
    var dx, dy := b.x - a.x, b.y - a.y;
    assert t * -dx == -(t * dx) && t * -dy == -(t * dy);
    assert Meets(t, p[0], q[0]) <==> box.west <= a.x + t * dx;
    assert Meets(t, p[1], q[1]) <==> a.x + t * dx <= box.east;
    assert Meets(t, p[2], q[2]) <==> box.south <= a.y + t * dy;
    assert Meets(t, p[3], q[3]) <==> a.y + t * dy <= box.north;
  }

  /** One side condition is a bound on t, from below or from above, or no condition on t. */
  lemma SideIsBound(t: real, p: real, q: real)
    ensures p == 0.0 ==> (Meets(t, p, q) <==> q >= 0.0)
    ensures p < 0.0 ==> (Meets(t, p, q) <==> t >= q / p)
    ensures p > 0.0 ==> (Meets(t, p, q) <==> t <= q / p)
  {
    if p == 0.0 {
      assert t * p == 0.0;
    } else {
      var b := q / p;
      assert b * p == q;
      assert (t - b) * p == t * p - q;
      SignOfProduct(t - b, p);
    }
  }

  lemma SignOfProduct(x: real, p: real)
    ensures p < 0.0 ==> (x * p <= 0.0 <==> x >= 0.0)
    ensures p > 0.0 ==> (x * p <= 0.0 <==> x <= 0.0)
  {
    assert p < 0.0 && x < 0.0 ==> x * p > 0.0;
    assert p > 0.0 && x > 0.0 ==> x * p > 0.0;
    assert p < 0.0 && x >= 0.0 ==> x * p <= 0.0;
    assert p > 0.0 && x <= 0.0 ==> x * p <= 0.0;
  }

  /** A parameter of the segment that meets the first n sides. */
  ghost predicate Allowed(t: real, p: seq<real>, q: seq<real>, n: nat)
    requires n <= |p| == |q|
  {
    0.0 <= t <= 1.0 && MeetsFirst(t, p, q, n)
  }

  /** The interval [lo, hi] holds exactly the parameters that meet the first n sides. */
  ghost predicate Interval(lo: real, hi: real, p: seq<real>, q: seq<real>, n: nat)
    requires n <= |p| == |q|
  {
    forall t :: Allowed(t, p, q, n) <==> lo <= t <= hi
  }

  /** What one turn of the loop does to the interval. */
  lemma Narrowed(lo: real, hi: real, p: seq<real>, q: seq<real>, n: nat, lo': real, hi': real)
    requires n < |p| == |q| && Interval(lo, hi, p, q, n)
    requires p[n] == 0.0 ==> q[n] >= 0.0 && lo' == lo && hi' == hi
    requires p[n] < 0.0 ==> lo' == (if q[n] / p[n] > lo then q[n] / p[n] else lo) && hi' == hi
    requires p[n] > 0.0 ==> lo' == lo && hi' == (if q[n] / p[n] < hi then q[n] / p[n] else hi)
    ensures Interval(lo', hi', p, q, n + 1)
  {
    var m := n + 1;
    forall t
      ensures Allowed(t, p, q, m) <==> lo' <= t <= hi'
    {
      assert Allowed(t, p, q, n) <==> lo <= t <= hi;
      OneSideMore(t, p, q, n);
      SideIsBound(t, p[n], q[n]);
      hide Meets, MeetsFirst, Allowed;
    }
  }

  lemma OneSideMore(t: real, p: seq<real>, q: seq<real>, n: nat)
    requires n < |p| == |q|
    ensures Allowed(t, p, q, n + 1) <==> Allowed(t, p, q, n) && Meets(t, p[n], q[n])
  {
  }

  /** The part of a segment inside the box. The result is None exactly when at most one
      parameter gives a point inside; otherwise it is the segment between two parameters,
      and exactly the parameters between them give points inside. */
  method ClipSegment(a: Point, b: Point, box: Box)
      returns (r: Option<(Point, Point)>, ghost lo: real, ghost hi: real)
    ensures r.Some? ==> 0.0 <= lo < hi <= 1.0 && r.value == (PointAt(a, b, lo), PointAt(a, b, hi))
    ensures r.Some? ==> forall t | 0.0 <= t <= 1.0 :: Inside(PointAt(a, b, t), box) <==> lo <= t <= hi
    ensures r.None? ==> forall s, t | 0.0 <= s <= 1.0 && 0.0 <= t <= 1.0 ::
      Inside(PointAt(a, b, s), box) && Inside(PointAt(a, b, t), box) ==> s == t
  {
    var p, q := Directions(a, b), Margins(a, box);
    var low, high := 0.0, 1.0;
    var i := 0;
    while i < 4
      invariant 0 <= i <= 4 && 0.0 <= low <= high <= 1.0
      invariant Interval(low, high, p, q, i)
    {
      ghost var low0, high0 := low, high;
      if p[i] == 0.0 {
        if q[i] < 0.0 {
          NoParameter(a, b, box, i);
          return None, low, high;
        }
      } else {
        var t := q[i] / p[i];
        if p[i] < 0.0 {
          low := if t > low then t else low;
        } else {
          high := if t < high then t else high;
        }
      }
      Narrowed(low0, high0, p, q, i, low, high);
      if low > high {
        EmptyInterval(a, b, box, low, high, i + 1);
        return None, low, high;
      }
      i := i + 1;
    }
    lo, hi := low, high;
    IntervalIsInside(a, b, box, low, high);
    if low == high {
      return None, low, high;
    }
    r := Some((PointAt(a, b, low), PointAt(a, b, high)));
  }

  /** A side that no parameter can meet. */
  lemma NoParameter(a: Point, b: Point, box: Box, i: nat)
    requires i < 4 && Directions(a, b)[i] == 0.0 && Margins(a, box)[i] < 0.0
    ensures forall t :: !Inside(PointAt(a, b, t), box)
  {
    forall t
      ensures !Inside(PointAt(a, b, t), box)
    {
      SidesAreInside(a, b, box, t);
      assert !Meets(t, Directions(a, b)[i], Margins(a, box)[i]);
    }
  }

  lemma EmptyInterval(a: Point, b: Point, box: Box, lo: real, hi: real, n: nat)
    requires n <= 4 && lo > hi && Interval(lo, hi, Directions(a, b), Margins(a, box), n)
    ensures forall t | 0.0 <= t <= 1.0 :: !Inside(PointAt(a, b, t), box)
  {
    var p, q := Directions(a, b), Margins(a, box);
    forall t | 0.0 <= t <= 1.0
      ensures !Inside(PointAt(a, b, t), box)
    {
      SidesAreInside(a, b, box, t);
      assert !Allowed(t, p, q, n);
    }
  }

  lemma IntervalIsInside(a: Point, b: Point, box: Box, lo: real, hi: real)
    requires Interval(lo, hi, Directions(a, b), Margins(a, box), 4)
    ensures forall t | 0.0 <= t <= 1.0 :: Inside(PointAt(a, b, t), box) <==> lo <= t <= hi
  {
    forall t | 0.0 <= t <= 1.0
      ensures Inside(PointAt(a, b, t), box) <==> lo <= t <= hi
    {
      SidesAreInside(a, b, box, t);
      assert Allowed(t, Directions(a, b), Margins(a, box), 4) <==> lo <= t <= hi;
    }
  }

  // ---- What a clipped segment covers ----

  /** Two different points of the segment lie inside the box. */
  ghost predicate CrossesBox(a: Point, b: Point, box: Box) {
    exists p, q :: p != q && OnSegment(p, a, b) && OnSegment(q, a, b) && Inside(p, box) && Inside(q, box)
  }

  /** A point of the segment inside the box, on a segment that is not merely touched. */
  ghost predicate Visible(p: Point, a: Point, b: Point, box: Box) {
    OnSegment(p, a, b) && Inside(p, box) && CrossesBox(a, b, box)
  }

  /** A point between two points of a segment, in the parameter of the segment. */
  lemma PointBetween(a: Point, b: Point, lo: real, hi: real, s: real, t: real)
    requires t == lo + s * (hi - lo)
    ensures PointAt(PointAt(a, b, lo), PointAt(a, b, hi), s) == PointAt(a, b, t)
  {
    Mix(a.x, b.x - a.x, lo, hi, s);
    Mix(a.y, b.y - a.y, lo, hi, s);
  }

  lemma Mix(c: real, d: real, lo: real, hi: real, s: real)
    ensures c + lo * d + s * (c + hi * d - (c + lo * d)) == c + (lo + s * (hi - lo)) * d
  {
    assert c + hi * d - (c + lo * d) == (hi - lo) * d;
    assert s * ((hi - lo) * d) == (s * (hi - lo)) * d;
  }

  lemma SubSegment(a: Point, b: Point, lo: real, hi: real, p: Point)
    requires 0.0 <= lo < hi <= 1.0
    ensures OnSegment(p, PointAt(a, b, lo), PointAt(a, b, hi)) <==> exists t :: lo <= t <= hi && p == PointAt(a, b, t)
  {
    hide PointAt;
    var c, d := PointAt(a, b, lo), PointAt(a, b, hi);
    if OnSegment(p, c, d) {
      var s :| 0.0 <= s <= 1.0 && p == PointAt(c, d, s);
      var t := FromPart(s, lo, hi);
      PointBetween(a, b, lo, hi, s, t);
      assert p == PointAt(a, b, t);
    }
    if t :| lo <= t <= hi && p == PointAt(a, b, t) {
      var s := IntoPart(t, lo, hi);
      PointBetween(a, b, lo, hi, s, t);
      assert p == PointAt(c, d, s);
    }
  }

  lemma FromPart(s: real, lo: real, hi: real) returns (t: real)
    requires 0.0 <= s <= 1.0 && lo < hi
    ensures lo <= t <= hi && t == lo + s * (hi - lo)
  {
    var u := Scaled(s, hi - lo);
    t := lo + u;
  }

  lemma IntoPart(t: real, lo: real, hi: real) returns (s: real)
    requires lo <= t <= hi && lo < hi
    ensures 0.0 <= s <= 1.0 && t == lo + s * (hi - lo)
  {
    s := Unscaled(t - lo, hi - lo);
  }

  lemma Scaled(s: real, w: real) returns (u: real)
    requires 0.0 <= s <= 1.0 && w > 0.0
    ensures u == s * w && 0.0 <= u <= w
  {
    u := s * w;
    assert (1.0 - s) * w >= 0.0;
  }

  lemma Unscaled(u: real, w: real) returns (s: real)
    requires w > 0.0 && 0.0 <= u <= w
    ensures 0.0 <= s <= 1.0 && s * w == u
  {
    s := u / w;
    assert s * w == u;
    assert s < 0.0 ==> s * w < 0.0;
    assert s > 1.0 ==> (s - 1.0) * w > 0.0;
  }

  /** Between the two ends of a clipped segment lie exactly its visible points; and a
      segment without a clipped part, or with equal ends, has no visible point. */
  lemma ClippedPart(a: Point, b: Point, box: Box, lo: real, hi: real, p: Point)
    requires 0.0 <= lo < hi <= 1.0
    requires forall t | 0.0 <= t <= 1.0 :: Inside(PointAt(a, b, t), box) <==> lo <= t <= hi
    ensures PointAt(a, b, lo) != PointAt(a, b, hi) ==>
      (OnSegment(p, PointAt(a, b, lo), PointAt(a, b, hi)) <==> Visible(p, a, b, box))
    ensures PointAt(a, b, lo) == PointAt(a, b, hi) ==> !Visible(p, a, b, box)
  {
    var c, d := PointAt(a, b, lo), PointAt(a, b, hi);
    SubSegment(a, b, lo, hi, p);
    if c != d {
      assert OnSegment(c, a, b) && OnSegment(d, a, b);
      assert CrossesBox(a, b, box);
    } else {
      SameEnds(a.x, b.x, lo, hi);
      SameEnds(a.y, b.y, lo, hi);
      assert a == b;
      forall t
        ensures PointAt(a, a, t) == a
      {
        StandsStill(a.x, t);
        StandsStill(a.y, t);
      }
    }
  }

  lemma StandsStill(x: real, t: real)
    ensures x + t * (x - x) == x
  {
  }

  lemma SameEnds(u: real, v: real, lo: real, hi: real)
    requires lo < hi && u + lo * (v - u) == u + hi * (v - u)
    ensures u == v
  {
    var w, d := hi - lo, v - u;
    assert w * d == hi * d - lo * d;
    NonZeroProduct(w, d);
  }

  lemma NonZeroProduct(w: real, d: real)
    requires w > 0.0
    ensures w * d == 0.0 ==> d == 0.0
  {
  }

  lemma NothingClipped(a: Point, b: Point, box: Box, p: Point)
    requires forall s, t | 0.0 <= s <= 1.0 && 0.0 <= t <= 1.0 ::
      Inside(PointAt(a, b, s), box) && Inside(PointAt(a, b, t), box) ==> s == t
    ensures !Visible(p, a, b, box)
  {
  }

  // ---- Runs of a polyline ----

  type Run = seq<Point>

  ghost predicate OnRun(p: Point, run: Run) {
    exists k :: 0 <= k < |run| - 1 && OnSegment(p, run[k], run[k + 1])
  }

  ghost predicate OnRuns(p: Point, runs: seq<Run>) {
    exists r :: 0 <= r < |runs| && OnRun(p, runs[r])
  }

  /** Every run has at least two points, neighbours differ, and a run never starts where
      the run before it ended. */
  ghost predicate WellFormedRuns(runs: seq<Run>) {
    && (forall r | 0 <= r < |runs| :: |runs[r]| >= 2 && forall k | 0 <= k < |runs[r]| - 1 :: runs[r][k] != runs[r][k + 1])
    && (forall r | 0 <= r < |runs| - 1 :: runs[r][|runs[r]| - 1] != runs[r + 1][0])
  }

  /** The pieces of a run, in its direction. */
  function PairsOf(run: Run): seq<(Point, Point)> {
    if |run| < 2 then [] else PairsOf(run[..|run| - 1]) + [(run[|run| - 2], run[|run| - 1])]
  }

  /** The pieces of all runs, in order. */
  function Pairs(runs: seq<Run>): seq<(Point, Point)> {
    if runs == [] then [] else Pairs(runs[..|runs| - 1]) + PairsOf(runs[|runs| - 1])
  }

  /** From c to d goes the part of the segment from a to b inside the box: c is where the
      segment enters the box and d, another point, where it leaves it. */
  ghost predicate IsPiece(piece: (Point, Point), a: Point, b: Point, box: Box) {
    piece.0 != piece.1 &&
    exists lo, hi | 0.0 <= lo < hi <= 1.0 :: piece == (PointAt(a, b, lo), PointAt(a, b, hi)) && InsideBetween(a, b, box, lo, hi)
  }

  ghost predicate InsideBetween(a: Point, b: Point, box: Box, lo: real, hi: real) {
    forall t | 0.0 <= t <= 1.0 :: Inside(PointAt(a, b, t), box) <==> lo <= t <= hi
  }

  ghost predicate CrossesAt(points: seq<Point>, box: Box, i: nat) {
    i + 1 < |points| && CrossesBox(points[i], points[i + 1], box)
  }

  /** Those of the first n segments, by number and in order, that cross the box. */
  ghost predicate AreCrossing(order: seq<nat>, points: seq<Point>, box: Box, n: nat) {
    && Increasing(order)
    && (forall i: nat :: i in order <==> i < n && CrossesAt(points, box, i))
  }

  /** The k-th piece is that of the k-th of these segments. */
  ghost predicate ArePieces(pairs: seq<(Point, Point)>, order: seq<nat>, points: seq<Point>, box: Box) {
    && |pairs| == |order|
    && forall k | 0 <= k < |order| ::
         order[k] + 1 < |points| && IsPiece(pairs[k], points[order[k]], points[order[k] + 1], box)
  }

  /** Visible on one of the first n segments of the polyline. */
  ghost predicate VisibleOnFirst(p: Point, points: seq<Point>, box: Box, n: nat) {
    exists i :: 0 <= i < n && i + 1 < |points| && Visible(p, points[i], points[i + 1], box)
  }

  /** The last run grows by one point. */
  lemma GrownRun(runs: seq<Run>, next: Point, p: Point)
    requires WellFormedRuns(runs) && runs != []
    ensures var last := runs[|runs| - 1];
      OnRuns(p, runs[|runs| - 1 := last + [next]]) <==> OnRuns(p, runs) || OnSegment(p, last[|last| - 1], next)
  {
    var n := |runs| - 1;
    var last := runs[n];
    var grown := last + [next];
    var now := runs[n := grown];
    assert OnRun(p, grown) <==> OnRun(p, last) || OnSegment(p, last[|last| - 1], next) by {
      if OnRun(p, last) {
        var k :| 0 <= k < |last| - 1 && OnSegment(p, last[k], last[k + 1]);
        assert grown[k] == last[k] && grown[k + 1] == last[k + 1];
      }
      if OnSegment(p, last[|last| - 1], next) {
        assert grown[|last| - 1] == last[|last| - 1] && grown[|last|] == next;
      }
      if k :| 0 <= k < |grown| - 1 && OnSegment(p, grown[k], grown[k + 1]) {
        assert k < |last| - 1 ==> grown[k] == last[k] && grown[k + 1] == last[k + 1];
      }
    }
    assert now[n] == grown;
    if r :| 0 <= r < |runs| && OnRun(p, runs[r]) {
      assert r < n ==> now[r] == runs[r];
    }
    if r :| 0 <= r < |now| && OnRun(p, now[r]) {
      assert r < n ==> now[r] == runs[r];
    }
  }

  /** A new run of two points is put behind the others. */
  lemma AddedRun(runs: seq<Run>, c: Point, d: Point, p: Point)
    ensures OnRuns(p, runs + [[c, d]]) <==> OnRuns(p, runs) || OnSegment(p, c, d)
  {
    var now := runs + [[c, d]];
    assert OnRun(p, [c, d]) <==> OnSegment(p, c, d) by {
      if OnSegment(p, c, d) {
        assert [c, d][0] == c && [c, d][1] == d;
      }
    }
    assert now[|runs|] == [c, d];
    if r :| 0 <= r < |runs| && OnRun(p, runs[r]) {
      assert now[r] == runs[r];
    }
    if r :| 0 <= r < |now| && OnRun(p, now[r]) {
      assert r < |runs| ==> now[r] == runs[r];
    }
  }

  lemma VisibleOnNext(p: Point, points: seq<Point>, box: Box, n: nat)
    requires n + 1 < |points|
    ensures VisibleOnFirst(p, points, box, n + 1)
       <==> VisibleOnFirst(p, points, box, n) || Visible(p, points[n], points[n + 1], box)
  {
  }

  lemma PairsGrown(runs: seq<Run>, grown: Run)
    requires runs != [] && |grown| >= 2 && grown[..|grown| - 1] == runs[|runs| - 1]
    ensures Pairs(runs[|runs| - 1 := grown]) == Pairs(runs) + [(grown[|grown| - 2], grown[|grown| - 1])]
  {
    var now := runs[|runs| - 1 := grown];
    assert now[..|now| - 1] == runs[..|runs| - 1];
  }

  lemma PairsAdded(runs: seq<Run>, c: Point, d: Point)
    ensures Pairs(runs + [[c, d]]) == Pairs(runs) + [(c, d)]
  {
    assert (runs + [[c, d]])[..|runs|] == runs;
    assert [c, d][..1] == [c];
    assert PairsOf([c]) == [];
    assert PairsOf([c, d]) == [(c, d)];
  }

  /** Without its last piece; a run of two points goes with it. */
  function Shorter(runs: seq<Run>): seq<Run>
    requires runs != [] && |runs[|runs| - 1]| >= 2
  {
    var n, last := |runs| - 1, runs[|runs| - 1];
    if |last| == 2 then runs[..n] else runs[n := last[..|last| - 1]]
  }

  function LastPiece(runs: seq<Run>): (Point, Point)
    requires runs != [] && |runs[|runs| - 1]| >= 2
  {
    var last := runs[|runs| - 1];
    (last[|last| - 2], last[|last| - 1])
  }

  /** With one piece more. */
  function Longer(runs: seq<Run>, piece: (Point, Point)): seq<Run>
    requires forall r | 0 <= r < |runs| :: |runs[r]| >= 2
  {
    var n := |runs| - 1;
    if runs != [] && runs[n][|runs[n]| - 1] == piece.0 then runs[n := runs[n] + [piece.1]]
    else runs + [[piece.0, piece.1]]
  }

  lemma FrontRuns(runs: seq<Run>)
    requires WellFormedRuns(runs) && runs != []
    ensures var n := |runs| - 1;
      WellFormedRuns(runs[..n]) && (n > 0 ==> runs[n - 1][|runs[n - 1]| - 1] != runs[n][0])
  {
  }

  lemma RunWithdrawn(runs: seq<Run>)
    requires WellFormedRuns(runs) && runs != [] && |runs[|runs| - 1]| == 2
    ensures WellFormedRuns(Shorter(runs)) && Pairs(runs) == Pairs(Shorter(runs)) + [LastPiece(runs)]
    ensures Longer(Shorter(runs), LastPiece(runs)) == runs
  {
    var n, last := |runs| - 1, runs[|runs| - 1];
    var front, c, d := runs[..n], last[0], last[1];
    assert Shorter(runs) == front && LastPiece(runs) == (c, d);
    hide *;
    FrontRuns(runs);
    LongRuns(front);
    assert last == [c, d];
    assert runs == front + [last];
    PairsAdded(front, c, d);
    NewBack(front, c, d);
  }

  lemma NewBack(short: seq<Run>, c: Point, d: Point)
    requires forall r | 0 <= r < |short| :: |short[r]| >= 2
    requires short != [] ==> short[|short| - 1][|short[|short| - 1]| - 1] != c
    ensures Longer(short, (c, d)) == short + [[c, d]]
  {
  }

  lemma FrontForm(runs: seq<Run>, front: Run)
    requires WellFormedRuns(runs) && runs != [] && |runs[|runs| - 1]| > 2
    requires front == runs[|runs| - 1][..|runs[|runs| - 1]| - 1]
    ensures WellFormedRuns(runs[|runs| - 1 := front])
  {
  }

  lemma Regrown(short: seq<Run>, last: Run)
    requires WellFormedRuns(short) && short != [] && |last| >= 3 && short[|short| - 1] == last[..|last| - 1]
    ensures Longer(short, (last[|last| - 2], last[|last| - 1])) == short[|short| - 1 := last]
    ensures Pairs(short[|short| - 1 := last]) == Pairs(short) + [(last[|last| - 2], last[|last| - 1])]
  {
    PairsGrown(short, last);
    LongRuns(short);
    assert last == last[..|last| - 1] + [last[|last| - 1]];
    hide Pairs, PairsOf, WellFormedRuns;
  }

  lemma PointWithdrawn(runs: seq<Run>)
    requires WellFormedRuns(runs) && runs != [] && |runs[|runs| - 1]| > 2
    ensures WellFormedRuns(Shorter(runs)) && Pairs(runs) == Pairs(Shorter(runs)) + [LastPiece(runs)]
    ensures Longer(Shorter(runs), LastPiece(runs)) == runs
  {
    var n, last := |runs| - 1, runs[|runs| - 1];
    hide WellFormedRuns, Pairs, PairsOf, Longer;
    FrontForm(runs, last[..|last| - 1]);
    PutBack(runs, n, last[..|last| - 1]);
    Regrown(Shorter(runs), last);
  }

  lemma PutBack(runs: seq<Run>, n: nat, front: Run)
    requires n < |runs|
    ensures runs[n := front][n := runs[n]] == runs
  {
  }

  lemma LongRuns(runs: seq<Run>)
    requires WellFormedRuns(runs)
    ensures forall r | 0 <= r < |runs| :: |runs[r]| >= 2
  {
  }

  lemma ShorterThenLonger(runs: seq<Run>)
    requires WellFormedRuns(runs) && runs != []
    ensures WellFormedRuns(Shorter(runs)) && Pairs(runs) == Pairs(Shorter(runs)) + [LastPiece(runs)]
    ensures Longer(Shorter(runs), LastPiece(runs)) == runs
  {
    if |runs[|runs| - 1]| == 2 {
      RunWithdrawn(runs);
    } else {
      PointWithdrawn(runs);
    }
  }

  /** The pieces decide the runs: a new run begins exactly where a piece does not start at the
      end of the piece before it. */
  lemma {:induction false} PairsDecide(runs: seq<Run>, others: seq<Run>)
    requires WellFormedRuns(runs) && WellFormedRuns(others) && Pairs(runs) == Pairs(others)
    ensures runs == others
    decreases |Pairs(runs)|
  {
    assert Pairs([]) == [];
    LongRuns(runs);
    LongRuns(others);
    hide *;
    if runs == [] {
      if others != [] {
        ShorterThenLonger(others);
      }
    } else {
      ShorterThenLonger(runs);
      assert others != [];
      ShorterThenLonger(others);
      SameFront(Pairs(Shorter(runs)), LastPiece(runs), Pairs(Shorter(others)), LastPiece(others));
      PairsDecide(Shorter(runs), Shorter(others));
    }
  }

  lemma SameFront<T>(a: seq<T>, x: T, b: seq<T>, y: T)
    requires a + [x] == b + [y]
    ensures a == b && x == y
  {
    assert a == (a + [x])[..|a|] && b == (b + [y])[..|b|];
    assert x == (a + [x])[|a|] && y == (b + [y])[|b|];
  }

  /** A segment has at most one part inside the box. */
  lemma PieceDecided(piece: (Point, Point), other: (Point, Point), a: Point, b: Point, box: Box)
    requires IsPiece(piece, a, b, box) && IsPiece(other, a, b, box)
    ensures piece == other
  {
    var lo, hi :| 0.0 <= lo < hi <= 1.0 && piece == (PointAt(a, b, lo), PointAt(a, b, hi)) && InsideBetween(a, b, box, lo, hi);
    var lo', hi' :| 0.0 <= lo' < hi' <= 1.0 && other == (PointAt(a, b, lo'), PointAt(a, b, hi')) && InsideBetween(a, b, box, lo', hi');
    assert Inside(PointAt(a, b, lo), box) && Inside(PointAt(a, b, hi), box);
    assert Inside(PointAt(a, b, lo'), box) && Inside(PointAt(a, b, hi'), box);
  }

  /** Stitching one clipped segment from c to d to the runs so far. */
  method Stitch(runs0: seq<Run>, c: Point, d: Point) returns (runs: seq<Run>)
    requires WellFormedRuns(runs0)
    ensures WellFormedRuns(runs)
    ensures c == d ==> runs == runs0
    ensures c != d ==> Pairs(runs) == Pairs(runs0) + [(c, d)]
    ensures c != d ==> forall p :: OnRuns(p, runs) <==> OnRuns(p, runs0) || OnSegment(p, c, d)
  {
    runs := runs0;
    if runs != [] && runs[|runs| - 1][|runs[|runs| - 1]| - 1] == c {
      var last := runs[|runs| - 1];
      if last[|last| - 1] != d {
        runs := runs[|runs| - 1 := last + [d]];
        KeepsForm(runs0, last + [d]);
        PairsGrown(runs0, last + [d]);
        forall p
          ensures OnRuns(p, runs) <==> OnRuns(p, runs0) || OnSegment(p, c, d)
        {
          GrownRun(runs0, d, p);
        }
      }
    } else if c != d {
      runs := runs + [[c, d]];
      PairsAdded(runs0, c, d);
      forall p
        ensures OnRuns(p, runs) <==> OnRuns(p, runs0) || OnSegment(p, c, d)
      {
        AddedRun(runs0, c, d, p);
      }
    }
  }

  lemma NextCrossing(order: seq<nat>, pairs: seq<(Point, Point)>, points: seq<Point>, box: Box, n: nat, piece: (Point, Point))
    requires n + 1 < |points| && AreCrossing(order, points, box, n) && ArePieces(pairs, order, points, box)
    requires IsPiece(piece, points[n], points[n + 1], box) && CrossesAt(points, box, n)
    ensures AreCrossing(order + [n], points, box, n + 1) && ArePieces(pairs + [piece], order + [n], points, box)
  {
    hide IsPiece, CrossesAt;
    var now := order + [n];
    forall k | 0 <= k < |order|
      ensures order[k] < n
    {
      assert order[k] in order;
    }
    forall i: nat
      ensures i in now <==> i < n + 1 && CrossesAt(points, box, i)
    {
      assert i in now <==> i in order || i == n;
    }
  }

  lemma NotCrossing(order: seq<nat>, points: seq<Point>, box: Box, n: nat)
    requires AreCrossing(order, points, box, n) && !CrossesAt(points, box, n)
    ensures AreCrossing(order, points, box, n + 1)
  {
    hide CrossesAt;
  }

  lemma AllCrossing(order: seq<nat>, points: seq<Point>, box: Box, n: nat)
    requires n + 1 >= |points| && AreCrossing(order, points, box, n)
    ensures AreCrossing(order, points, box, |points|)
  {
    forall i: nat
      ensures i < n && CrossesAt(points, box, i) <==> i < |points| && CrossesAt(points, box, i)
    {
    }
    hide CrossesAt;
  }

  /** The clipped segment is the piece, unless its ends are equal. */
  lemma ClippedPiece(a: Point, b: Point, box: Box, lo: real, hi: real)
    requires 0.0 <= lo < hi <= 1.0 && InsideBetween(a, b, box, lo, hi)
    ensures var c, d := PointAt(a, b, lo), PointAt(a, b, hi);
      (CrossesBox(a, b, box) <==> c != d) && (c != d ==> IsPiece((c, d), a, b, box))
  {
    var c, d := PointAt(a, b, lo), PointAt(a, b, hi);
    if c != d {
      assert OnSegment(c, a, b) && OnSegment(d, a, b);
    } else {
      forall p
        ensures !Visible(p, a, b, box)
      {
        ClippedPart(a, b, box, lo, hi, p);
      }
      if p, q :| p != q && OnSegment(p, a, b) && OnSegment(q, a, b) && Inside(p, box) && Inside(q, box) {
        assert Visible(p, a, b, box);
      }
    }
  }

  lemma NoPiece(a: Point, b: Point, box: Box)
    requires forall s, t | 0.0 <= s <= 1.0 && 0.0 <= t <= 1.0 ::
      Inside(PointAt(a, b, s), box) && Inside(PointAt(a, b, t), box) ==> s == t
    ensures !CrossesBox(a, b, box)
  {
  }

  /** What the loop has done after the first n segments. */
  ghost predicate ClippedFirst(runs: seq<Run>, order: seq<nat>, points: seq<Point>, box: Box, n: nat) {
    && WellFormedRuns(runs) && AreCrossing(order, points, box, n) && ArePieces(Pairs(runs), order, points, box)
    && forall p :: OnRuns(p, runs) <==> VisibleOnFirst(p, points, box, n)
  }

  lemma ClippedCover(runs0: seq<Run>, runs: seq<Run>, a: Point, b: Point, box: Box, lo: real, hi: real)
    requires 0.0 <= lo < hi <= 1.0 && InsideBetween(a, b, box, lo, hi)
    requires var c, d := PointAt(a, b, lo), PointAt(a, b, hi);
      if c == d then runs == runs0 else forall p :: OnRuns(p, runs) <==> OnRuns(p, runs0) || OnSegment(p, c, d)
    ensures forall p :: OnRuns(p, runs) <==> OnRuns(p, runs0) || Visible(p, a, b, box)
  {
    hide OnRuns, OnSegment, Visible, PointAt;
    forall p
      ensures OnRuns(p, runs) <==> OnRuns(p, runs0) || Visible(p, a, b, box)
    {
      ClippedPart(a, b, box, lo, hi, p);
    }
  }

  /** What one clipped segment adds. */
  lemma ClippedTurn(runs0: seq<Run>, runs: seq<Run>, order0: seq<nat>, points: seq<Point>, box: Box, i: nat, lo: real, hi: real)
      returns (order: seq<nat>)
    requires i + 1 < |points| && 0.0 <= lo < hi <= 1.0 && InsideBetween(points[i], points[i + 1], box, lo, hi)
    requires ClippedFirst(runs0, order0, points, box, i) && WellFormedRuns(runs)
    requires var c, d := PointAt(points[i], points[i + 1], lo), PointAt(points[i], points[i + 1], hi);
      if c == d then runs == runs0
      else Pairs(runs) == Pairs(runs0) + [(c, d)]
           && forall p :: OnRuns(p, runs) <==> OnRuns(p, runs0) || OnSegment(p, c, d)
    ensures ClippedFirst(runs, order, points, box, i + 1)
  {
    hide WellFormedRuns, AreCrossing, ArePieces, Pairs, OnRuns, OnSegment, VisibleOnFirst, Visible, IsPiece, CrossesBox, PointAt;
    var a, b := points[i], points[i + 1];
    var c, d := PointAt(a, b, lo), PointAt(a, b, hi);
    ClippedPiece(a, b, box, lo, hi);
    ClippedCover(runs0, runs, a, b, box, lo, hi);
    NextVisible(points, box, i);
    if c == d {
      NotCrossing(order0, points, box, i);
      order := order0;
    } else {
      NextCrossing(order0, Pairs(runs0), points, box, i, (c, d));
      order := order0 + [i];
    }
  }

  lemma SkippedTurn(runs: seq<Run>, order: seq<nat>, points: seq<Point>, box: Box, i: nat, a: Point, b: Point)
    requires i + 1 < |points| && a == points[i] && b == points[i + 1] && ClippedFirst(runs, order, points, box, i)
    requires forall s, t | 0.0 <= s <= 1.0 && 0.0 <= t <= 1.0 ::
      Inside(PointAt(a, b, s), box) && Inside(PointAt(a, b, t), box) ==> s == t
    ensures ClippedFirst(runs, order, points, box, i + 1)
  {
    forall p
      ensures !Visible(p, a, b, box)
    {
      NothingClipped(a, b, box, p);
    }
    NoPiece(a, b, box);
    hide WellFormedRuns, AreCrossing, ArePieces, Pairs, OnRuns, OnSegment, VisibleOnFirst, Visible, IsPiece, CrossesBox, PointAt;
    NotCrossing(order, points, box, i);
    NextVisible(points, box, i);
  }

  lemma NothingClippedYet(points: seq<Point>, box: Box)
    ensures ClippedFirst([], [], points, box, 0)
  {
    NoRuns();
  }

  lemma AllClipped(runs: seq<Run>, order: seq<nat>, points: seq<Point>, box: Box, i: nat)
    requires i + 1 >= |points| && ClippedFirst(runs, order, points, box, i)
    ensures WellFormedRuns(runs)
    ensures AreCrossing(order, points, box, |points|) && ArePieces(Pairs(runs), order, points, box)
    ensures forall p :: OnRuns(p, runs) <==> VisibleOnFirst(p, points, box, |points|)
    ensures forall p :: OnRuns(p, runs) ==> Inside(p, box)
  {
    AllVisible(points, box, i);
    AllCrossing(order, points, box, i);
    hide WellFormedRuns, AreCrossing, ArePieces, Pairs, OnRuns, VisibleOnFirst;
  }

  /** The runs of a polyline inside a box. Their pieces, in order, are the parts inside the box
      of exactly the segments that cross it, each once, in the direction of the polyline; and
      a new run begins exactly where a piece does not start at the end of the one before. So
      they cover exactly the points of the polyline inside the box, apart from segments that
      the box meets in a single point only. */
  method ClipLine(points: seq<Point>, box: Box) returns (runs: seq<Run>, ghost order: seq<nat>)
    ensures WellFormedRuns(runs)
    ensures AreCrossing(order, points, box, |points|) && ArePieces(Pairs(runs), order, points, box)
    ensures forall p :: OnRuns(p, runs) <==> VisibleOnFirst(p, points, box, |points|)
    ensures forall p :: OnRuns(p, runs) ==> Inside(p, box)
  {
    runs, order := [], [];
    NothingClippedYet(points, box);
    var i := 0;
    while i + 1 < |points|
      invariant 0 <= i && (i < |points| || i == 0)
      invariant ClippedFirst(runs, order, points, box, i)
    {
      ghost var runs0 := runs;
      var clipped, lo, hi := ClipSegment(points[i], points[i + 1], box);
      assert WellFormedRuns(runs);
      hide WellFormedRuns, ClippedFirst, AreCrossing, ArePieces, Pairs, OnRuns, OnSegment, PointAt;
      if clipped.Some? {
        runs := Stitch(runs, clipped.value.0, clipped.value.1);
        order := ClippedTurn(runs0, runs, order, points, box, i, lo, hi);
      } else {
        SkippedTurn(runs, order, points, box, i, points[i], points[i + 1]);
      }
      i := i + 1;
    }
    AllClipped(runs, order, points, box, i);
  }

  /** There is only one such result: any runs whose pieces, in order, are the parts of the
      segments that cross the box, and that begin anew exactly where these do not join. */
  lemma RunsDecided(points: seq<Point>, box: Box, runs: seq<Run>, order: seq<nat>, others: seq<Run>, order': seq<nat>)
    requires WellFormedRuns(runs) && AreCrossing(order, points, box, |points|) && ArePieces(Pairs(runs), order, points, box)
    requires WellFormedRuns(others) && AreCrossing(order', points, box, |points|) && ArePieces(Pairs(others), order', points, box)
    ensures runs == others
  {
    hide IsPiece, CrossesAt, WellFormedRuns, Pairs, Increasing;
    SameIncreasing(order, order');
    forall k | 0 <= k < |order|
      ensures Pairs(runs)[k] == Pairs(others)[k]
    {
      PieceDecided(Pairs(runs)[k], Pairs(others)[k], points[order[k]], points[order[k] + 1], box);
    }
    PairsDecide(runs, others);
  }

  lemma IncreasingFront(a: seq<nat>)
    requires Increasing(a) && a != []
    ensures var front, last := a[..|a| - 1], a[|a| - 1];
      Increasing(front) && forall i: nat :: i in front <==> i in a && i < last
  {
    var front, last := a[..|a| - 1], a[|a| - 1];
    assert a == front + [last];
  }

  lemma HasMember(a: seq<nat>)
    ensures a != [] ==> exists i: nat :: i in a
  {
    if a != [] {
      assert a[0] in a;
    }
  }

  lemma LastIsLargest(a: seq<nat>, i: nat)
    requires Increasing(a) && i in a
    ensures i <= a[|a| - 1]
  {
  }

  /** An increasing list is decided by its members. */
  lemma {:induction false} SameIncreasing(a: seq<nat>, b: seq<nat>)
    requires Increasing(a) && Increasing(b) && forall i: nat :: i in a <==> i in b
    ensures a == b
  {
    HasMember(a);
    HasMember(b);
    if a != [] && b != [] {
      var last, last' := a[|a| - 1], b[|b| - 1];
      assert last in a && last' in b;
      LastIsLargest(a, last');
      LastIsLargest(b, last);
      IncreasingFront(a);
      IncreasingFront(b);
      hide Increasing;
      SameIncreasing(a[..|a| - 1], b[..|b| - 1]);
      assert a == a[..|a| - 1] + [last] && b == b[..|b| - 1] + [last'];
    }
  }

  lemma NoRuns()
    ensures WellFormedRuns([]) && forall p :: !OnRuns(p, [])
  {
  }

  lemma NextVisible(points: seq<Point>, box: Box, i: nat)
    requires i + 1 < |points|
    ensures forall p ::
      (VisibleOnFirst(p, points, box, i + 1) <==> VisibleOnFirst(p, points, box, i) || Visible(p, points[i], points[i + 1], box))
  {
    forall p
      ensures VisibleOnFirst(p, points, box, i + 1)
         <==> VisibleOnFirst(p, points, box, i) || Visible(p, points[i], points[i + 1], box)
    {
      VisibleOnNext(p, points, box, i);
    }
  }

  lemma AllVisible(points: seq<Point>, box: Box, i: nat)
    requires i + 1 >= |points|
    ensures forall p :: VisibleOnFirst(p, points, box, |points|) <==> VisibleOnFirst(p, points, box, i)
    ensures forall p :: VisibleOnFirst(p, points, box, i) ==> Inside(p, box)
  {
  }

  lemma KeepsForm(runs: seq<Run>, grown: Run)
    requires WellFormedRuns(runs) && runs != []
    requires |grown| == |runs[|runs| - 1]| + 1 && grown[..|grown| - 1] == runs[|runs| - 1]
    requires grown[|grown| - 2] != grown[|grown| - 1]
    ensures WellFormedRuns(runs[|runs| - 1 := grown])
  {
    var last, now := runs[|runs| - 1], runs[|runs| - 1 := grown];
    assert forall k | 0 <= k < |last| :: grown[k] == last[k];
  }
}
