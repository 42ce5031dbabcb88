/**
 Ramer-Douglas-Peucker simplification (tools/build_hamlaneh_logo_kit.py, rdp and
 simplify_closed_loop), in exact arithmetic.

 Distances are compared through their squares: the source compares a
 non-negative distance with a non-negative epsilon, and picks the first index of
 the largest distance, so squaring changes neither decision.
 */
module Simplification {

  datatype Point = Point(x: real, y: real)

  function Square(x: real): (r: real)
    ensures r >= 0.0
  {
    x * x
  }

  function Norm2(p: Point, q: Point): real {
    (q.x - p.x) * (q.x - p.x) + (q.y - p.y) * (q.y - p.y)
  }

  function Cross(a: Point, b: Point, p: Point): real {
    (b.x - a.x) * (p.y - a.y) - (b.y - a.y) * (p.x - a.x)
  }

  /**
   The squared distance rdp measures: from p to the line through a and b, or to
   the point a when a and b coincide.
   */
  function Deviation2(a: Point, b: Point, p: Point): real {
    if Norm2(a, b) == 0.0 then Norm2(a, p) else Cross(a, b, p) * Cross(a, b, p) / Norm2(a, b)
  }

  function Deviations(a: Point, b: Point, points: seq<Point>): (ds: seq<real>)
    ensures |ds| == |points|
    ensures forall i | 0 <= i < |ds| :: ds[i] == Deviation2(a, b, points[i])
  {
    seq(|points|, i requires 0 <= i < |points| => Deviation2(a, b, points[i]))
  }

  /** numpy.argmax: the first index of a largest element. */
  function ArgMax(ds: seq<real>): (k: nat)
    requires |ds| > 0
    ensures k < |ds| && (forall i | 0 <= i < |ds| :: ds[i] <= ds[k])
    ensures forall i | 0 <= i < k :: ds[i] < ds[k]
  {
    var n := |ds| - 1;
    if n == 0 then 0
    else var k := ArgMax(ds[..n]); if ds[n] > ds[k] then n else k
  }

  /** The point a fraction t of the way from a to b. */
  function Along(a: Point, b: Point, t: real): Point { Point(a.x + t * (b.x - a.x), a.y + t * (b.y - a.y)) }

  // Lengths, determinants and inner products of difference vectors.
  function Length2(x: real, y: real): real { x * x + y * y }

  function Det(dx: real, dy: real, rx: real, ry: real): real { dx * ry - dy * rx }

  function Inner(dx: real, dy: real, rx: real, ry: real): real { dx * rx + dy * ry }

  function Off(r: real, t: real, d: real): real { r - t * d }

  ghost predicate Pythagoras(n: real, near: real, c: real, s: real, t: real) { n * near == c * c + (s - t * n) * (s - t * n) }

  /** Lagrange's identity for the plane. */
  lemma Lagrange(dx: real, dy: real, rx: real, ry: real, t: real)
    ensures Pythagoras(Length2(dx, dy), Length2(Off(rx, t, dx), Off(ry, t, dy)), Det(dx, dy, rx, ry), Inner(dx, dy, rx, ry), t)
  {
    var n, c, s := dx * dx + dy * dy, dx * ry - dy * rx, dx * rx + dy * ry;
    var q := rx * rx + ry * ry;
    assert (rx - t * dx) * (rx - t * dx) == rx * rx - 2.0 * t * (dx * rx) + t * t * (dx * dx);
    assert (ry - t * dy) * (ry - t * dy) == ry * ry - 2.0 * t * (dy * ry) + t * t * (dy * dy);
    assert (rx - t * dx) * (rx - t * dx) + (ry - t * dy) * (ry - t * dy) == q - 2.0 * t * s + t * t * n;
    assert n * q == c * c + s * s;
    assert (s - t * n) * (s - t * n) == s * s - 2.0 * t * (s * n) + t * t * (n * n);
    assert n * (q - 2.0 * t * s + t * t * n) == n * q - 2.0 * t * (s * n) + t * t * (n * n);
  }

  function Dot(a: Point, b: Point, p: Point): real {
    Inner(b.x - a.x, b.y - a.y, p.x - a.x, p.y - a.y)
  }

  /** What rdp measures is the squared distance to the line: no point of it is nearer, and one is as near. */
  lemma DeviationIsDistance(a: Point, b: Point, p: Point, t: real)
    ensures Deviation2(a, b, p) <= Norm2(Along(a, b, t), p)
    ensures exists u :: Norm2(Along(a, b, u), p) == Deviation2(a, b, p)
  {
    hide *;
    if Norm2(a, b) == 0.0 {
      OnePoint(a, b, p, t);
    } else {
      Fraction(Dot(a, b, p), Norm2(a, b));
      NearestPoint(a, b, p, t);
      NearestPoint(a, b, p, Dot(a, b, p) / Norm2(a, b));
    }
  }

  lemma OnePoint(a: Point, b: Point, p: Point, t: real)
    requires Norm2(a, b) == 0.0
    ensures Norm2(Along(a, b, t), p) == Deviation2(a, b, p)
  {
    ZeroLength(b.x - a.x, b.y - a.y);
    assert Along(a, b, t) == a;
  }

  lemma Fraction(s: real, n: real)
    requires n != 0.0
    ensures s / n * n == s
  {
  }

  lemma SquareIsPositive(x: real)
    ensures x * x >= 0.0 && (x != 0.0 ==> x * x > 0.0)
  {
    if x > 0.0 { assert x * x > 0.0; } else if x < 0.0 { assert (-x) * (-x) > 0.0; }
  }

  lemma NonzeroSquare(x: real, rest: real)
    requires x != 0.0 && rest >= 0.0
    ensures x * x + rest > 0.0
  {
    hide Square;
    SquareIsPositive(x);
    var y := Square(x);
    SquareIs(x);
    assert y > 0.0;
    assert y + rest > 0.0;
  }

  lemma SquareIs(x: real)
    ensures Square(x) == x * x && (x != 0.0 ==> Square(x) > 0.0)
  {
    if x > 0.0 { Signs(x, x); } else if x < 0.0 { Signs(-x, -x); }
  }

  lemma ZeroLength(dx: real, dy: real)
    requires dx * dx + dy * dy == 0.0
    ensures dx == 0.0 && dy == 0.0
  {
    SquareIsPositive(dx);
    SquareIsPositive(dy);
    if dx != 0.0 {
      NonzeroSquare(dx, dy * dy);
    } else if dy != 0.0 {
      NonzeroSquare(dy, dx * dx);
    }
  }

  /** The squared distance from a point of the line, in terms of the differences. */
  lemma DistanceAlong(a: Point, b: Point, p: Point, t: real)
    ensures var dx, dy, rx, ry := b.x - a.x, b.y - a.y, p.x - a.x, p.y - a.y;
            Norm2(Along(a, b, t), p) == Length2(Off(rx, t, dx), Off(ry, t, dy))
  {
    var q := Along(a, b, t);
    assert p.x - q.x == (p.x - a.x) - t * (b.x - a.x) && p.y - q.y == (p.y - a.y) - t * (b.y - a.y);
  }

  lemma NearestPoint(a: Point, b: Point, p: Point, t: real)
    requires Norm2(a, b) != 0.0
    ensures Deviation2(a, b, p) <= Norm2(Along(a, b, t), p)
    ensures t * Norm2(a, b) == Dot(a, b, p) ==> Norm2(Along(a, b, t), p) == Deviation2(a, b, p)
  {
    hide *;
    var n, c, s, near := Norm2(a, b), Cross(a, b, p), Dot(a, b, p), Norm2(Along(a, b, t), p);
    LagrangeAt(a, b, p, t);
    DeviationOf(a, b, p);
    Near(n, c, s, t, near);
  }

  lemma DeviationOf(a: Point, b: Point, p: Point)
    requires Norm2(a, b) != 0.0
    ensures Norm2(a, b) > 0.0 && Deviation2(a, b, p) == Cross(a, b, p) * Cross(a, b, p) / Norm2(a, b)
  {
    SquareIsPositive(b.x - a.x);
    SquareIsPositive(b.y - a.y);
  }

  lemma LagrangeAt(a: Point, b: Point, p: Point, t: real)
    ensures Pythagoras(Norm2(a, b), Norm2(Along(a, b, t), p), Cross(a, b, p), Dot(a, b, p), t)
  {
    hide Along;
    hide Norm2;
    hide Cross;
    hide Length2;
    hide Det;
    hide Inner;
    hide Off;
    hide Pythagoras;
    AsDifferences(a, b, p);
    DistanceAlong(a, b, p, t);
    Lagrange(b.x - a.x, b.y - a.y, p.x - a.x, p.y - a.y, t);
  }

  lemma AsDifferences(a: Point, b: Point, p: Point)
    ensures Norm2(a, b) == Length2(b.x - a.x, b.y - a.y)
    ensures Cross(a, b, p) == Det(b.x - a.x, b.y - a.y, p.x - a.x, p.y - a.y)
  {
  }

  lemma Near(n: real, c: real, s: real, t: real, near: real)
    requires n > 0.0 && Pythagoras(n, near, c, s, t)
    ensures c * c / n <= near && (t * n == s ==> near == c * c / n)
  {
    SquareIsPositive(s - t * n);
    Quotient(n, near, c * c, (s - t * n) * (s - t * n));
  }

  lemma Signs(n: real, d: real)
    requires n > 0.0
    ensures (n * d >= 0.0 <==> d >= 0.0) && (n * d == 0.0 <==> d == 0.0)
  {
    if d > 0.0 { assert n * d > 0.0; } else if d < 0.0 { assert n * -d > 0.0; }
  }

  lemma Quotient(n: real, near: real, cc: real, gg: real)
    requires n > 0.0 && n * near == cc + gg && gg >= 0.0
    ensures cc / n <= near && (gg == 0.0 ==> near == cc / n)
  {
    var q := cc / n;
    assert q * n == cc;
    var d := near - q;
    assert n * d == gg;
    Signs(n, d);
  }

  lemma EndpointsOnLine(a: Point, b: Point)
    ensures Deviation2(a, b, a) == 0.0 && Deviation2(a, b, b) == 0.0
  {
    assert Cross(a, b, a) == 0.0;
    assert Cross(a, b, b) == 0.0;
  }

  /** The index rdp splits at: the first point farthest from the line through the ends. */
  function Split(points: seq<Point>): (k: nat)
    requires points != []
    ensures k < |points|
  {
    ArgMax(Deviations(points[0], points[|points| - 1], points))
  }

  /** The squared distance of the i-th point from the line through the ends. */
  function Farness(points: seq<Point>, i: nat): real
    requires i < |points|
  {
    Deviation2(points[0], points[|points| - 1], points[i])
  }

  lemma DeviationIsNonNegative(a: Point, b: Point, p: Point)
    ensures Deviation2(a, b, p) >= 0.0
  {
    var n, c := Norm2(a, b), Cross(a, b, p);
    assert n >= 0.0 && Norm2(a, p) >= 0.0 && c * c >= 0.0;
  }

  lemma SplitFacts(points: seq<Point>)
    requires |points| >= 2
    ensures forall i | 0 <= i < |points| :: 0.0 <= Farness(points, i) <= Farness(points, Split(points))
    ensures Farness(points, 0) == 0.0 && Farness(points, |points| - 1) == 0.0
    ensures forall i | 0 <= i < Split(points) :: Farness(points, i) < Farness(points, Split(points))
  {
    hide Deviation2;
    var a, b := points[0], points[|points| - 1];
    EndpointsOnLine(a, b);
    var ds := Deviations(a, b, points);
    forall i | 0 <= i < |points| ensures 0.0 <= Farness(points, i) <= Farness(points, Split(points)) {
      DeviationIsNonNegative(a, b, points[i]);
      assert ds[i] <= ds[Split(points)];
    }
  }

  /** The split index is strictly interior: what makes both recursive calls shorter. */
  lemma SplitIsInterior(points: seq<Point>, epsilon: real)
    requires |points| >= 2 && epsilon >= 0.0
    ensures Farness(points, Split(points)) > Square(epsilon) ==> 0 < Split(points) < |points| - 1
  {
    hide Farness;
    hide Split;
    hide Square;
    SplitFacts(points);
  }

  /** rdp for epsilon >= 0, as its callers pass it. */
  function Rdp(points: seq<Point>, epsilon: real): (r: seq<Point>)
    requires epsilon >= 0.0
    ensures points != [] ==> r != []
    decreases |points|
  {
    if |points| <= 2 then points
    else
      var index := Split(points);
      if Farness(points, index) <= Square(epsilon) then [points[0], points[|points| - 1]]
      else
        SplitIsInterior(points, epsilon);
        var left := Rdp(points[..index + 1], epsilon);
        var right := Rdp(points[index..], epsilon);
        left[..|left| - 1] + right
  }

  /** simplify_closed_loop: split the ring at the point farthest from its anchor. */
  function SimplifyClosedLoop(points: seq<Point>, epsilon: real): seq<Point>
    requires epsilon >= 0.0
  {
    if |points| < 4 then points
    else
      var ring := Ring(points);
      var farthest := Farthest(ring);
      var first := Rdp(ring[..farthest + 1], epsilon);
      var second := Rdp(ring[farthest..] + [ring[0]], epsilon);
      first[..|first| - 1] + second[..|second| - 1]
  }

  /** The first ring position at the greatest distance from the anchor. */
  function Farthest(ring: seq<Point>): (k: nat)
    requires |ring| >= 1
    ensures k < |ring| && forall i | 0 <= i < |ring| :: Norm2(ring[0], ring[i]) <= Norm2(ring[0], ring[k])
  {
    var ds := seq(|ring|, i requires 0 <= i < |ring| => Norm2(ring[0], ring[i]));
    assert forall i | 0 <= i < |ring| :: ds[i] == Norm2(ring[0], ring[i]);
    ArgMax(ds)
  }

  /** The points without a repeated closing point. */
  function Ring(points: seq<Point>): (ring: seq<Point>)
    requires |points| >= 2
    ensures |points| - 1 <= |ring| <= |points| && ring <= points
  {
    if points[0] == points[|points| - 1] then points[..|points| - 1] else points
  }

  // ----- what a simplification promises, independently of how it was found

  ghost predicate Increasing(ks: seq<nat>) { forall i, j | 0 <= i < j < |ks| :: ks[i] < ks[j] }

  /** `ks` are positions of `points`, first and last included, in order, and `kept` is what sits there. */
  ghost predicate Selects(points: seq<Point>, kept: seq<Point>, ks: seq<nat>) {
    && |ks| == |kept| >= 1 && Increasing(ks)
    && (forall i | 0 <= i < |ks| :: ks[i] < |points| && kept[i] == points[ks[i]])
    && ks[0] == 0 && ks[|ks| - 1] == |points| - 1
  }

  /** Every dropped point lies within epsilon of the line through the two kept points around it. */
  ghost predicate Within(points: seq<Point>, ks: seq<nat>, epsilon: real)
    requires forall i | 0 <= i < |ks| :: ks[i] < |points|
  {
    forall i, j | 0 <= i < |ks| - 1 && ks[i] < j < ks[i + 1] ::
      Deviation2(points[ks[i]], points[ks[i + 1]], points[j]) <= Square(epsilon)
  }

  ghost predicate Simplifies(points: seq<Point>, kept: seq<Point>, ks: seq<nat>, epsilon: real) {
    Selects(points, kept, ks) && Within(points, ks, epsilon)
  }

  ghost function Joined(left: seq<nat>, right: seq<nat>, index: nat): (ks: seq<nat>)
    requires |left| >= 1
    ensures |ks| == |left| - 1 + |right|
  {
    left[..|left| - 1] + seq(|right|, i requires 0 <= i < |right| => index + right[i])
  }

  lemma JoinSelects(points: seq<Point>, index: nat, kl: seq<Point>, left: seq<nat>, kr: seq<Point>, right: seq<nat>)
    requires index < |points|
    requires Selects(points[..index + 1], kl, left) && Selects(points[index..], kr, right)
    ensures Selects(points, kl[..|kl| - 1] + kr, Joined(left, right, index))
  {
    var ks, m := Joined(left, right, index), |left| - 1;
    assert forall i | 0 <= i < m :: left[i] < index;
  }

  lemma JoinWithin(points: seq<Point>, index: nat, kl: seq<Point>, left: seq<nat>, kr: seq<Point>, right: seq<nat>, epsilon: real)
    requires index < |points|
    requires Simplifies(points[..index + 1], kl, left, epsilon) && Simplifies(points[index..], kr, right, epsilon)
    ensures Simplifies(points, kl[..|kl| - 1] + kr, Joined(left, right, index), epsilon)
  {
    hide Deviation2;
    hide Square;
    JoinSelects(points, index, kl, left, kr, right);
    var ks, m := Joined(left, right, index), |left| - 1;
    assert forall i | 0 <= i <= m :: ks[i] == left[i];
    forall i, j | 0 <= i < |ks| - 1 && ks[i] < j < ks[i + 1]
      ensures Deviation2(points[ks[i]], points[ks[i + 1]], points[j]) <= Square(epsilon)
    {
      if i < m {
        var q := points[..index + 1];
        assert Deviation2(q[left[i]], q[left[i + 1]], q[j]) <= Square(epsilon);
      } else {
        var q := points[index..];
        assert Deviation2(q[right[i - m]], q[right[i + 1 - m]], q[j - index]) <= Square(epsilon);
      }
    }
  }

  lemma AllKept(points: seq<Point>, epsilon: real) returns (ks: seq<nat>)
    requires 1 <= |points| <= 2
    ensures |ks| >= 1 && Simplifies(points, points, ks, epsilon)
  {
    ks := if |points| == 1 then [0] else [0, 1];
  }

  lemma ShortIsKept(points: seq<Point>, epsilon: real)
    requires |points| <= 2 && epsilon >= 0.0
    ensures Rdp(points, epsilon) == points
  {
  }

  lemma EndsKept(points: seq<Point>, epsilon: real) returns (ks: seq<nat>)
    requires |points| >= 2
    requires forall j | 0 <= j < |points| :: Deviation2(points[0], points[|points| - 1], points[j]) <= Square(epsilon)
    ensures |ks| >= 1 && Simplifies(points, [points[0], points[|points| - 1]], ks, epsilon)
  {
    hide Deviation2;
    ks := [0, |points| - 1];
  }

  /** One level of rdp: either both ends alone, or the two halves sharing an interior point. */
  lemma RdpStep(points: seq<Point>, epsilon: real) returns (index: nat)
    requires |points| > 2 && epsilon >= 0.0
    ensures index < |points| - 1
    ensures index == 0 ==>
              && Rdp(points, epsilon) == [points[0], points[|points| - 1]]
              && forall j | 0 <= j < |points| :: Deviation2(points[0], points[|points| - 1], points[j]) <= Square(epsilon)
    ensures index > 0 ==>
              var left := Rdp(points[..index + 1], epsilon);
              Rdp(points, epsilon) == left[..|left| - 1] + Rdp(points[index..], epsilon)
  {
    hide Split;
    hide Square;
    hide Deviation2;
    SplitIsInterior(points, epsilon);
    index := if Farness(points, Split(points)) <= Square(epsilon) then 0 else Split(points);
    SplitFacts(points);
    assert forall j | 0 <= j < |points| :: Deviation2(points[0], points[|points| - 1], points[j]) == Farness(points, j);
  }

  /**
   For every polyline and every epsilon >= 0, rdp returns a subsequence with both
   endpoints, and every dropped point is within epsilon of the line through the
   two kept points bracketing it.
   */
  lemma {:induction false} RdpSimplifies(points: seq<Point>, epsilon: real) returns (ks: seq<nat>)
    requires |points| >= 1 && epsilon >= 0.0
    ensures |ks| >= 1 && Simplifies(points, Rdp(points, epsilon), ks, epsilon)
    decreases |points|
  {
    hide *;
    if |points| <= 2 {
      ks := AllKept(points, epsilon);
      ShortIsKept(points, epsilon);
    } else {
      var index := RdpStep(points, epsilon);
      if index == 0 {
        ks := EndsKept(points, epsilon);
      } else {
        var left := RdpSimplifies(points[..index + 1], epsilon);
        var right := RdpSimplifies(points[index..], epsilon);
        ks := Joined(left, right, index);
        JoinWithin(points, index, Rdp(points[..index + 1], epsilon), left, Rdp(points[index..], epsilon), right, epsilon);
      }
    }
  }

  /** What makes k the split: no point is farther from the line through the ends, and none before it as far. */
  ghost predicate FirstFarthest(points: seq<Point>, k: nat) {
    && k < |points|
    && (forall i | 0 <= i < |points| ::
          Deviation2(points[0], points[|points| - 1], points[i]) <= Deviation2(points[0], points[|points| - 1], points[k]))
    && forall i | 0 <= i < k ::
         Deviation2(points[0], points[|points| - 1], points[i]) < Deviation2(points[0], points[|points| - 1], points[k])
  }

  lemma SplitIsFirstFarthest(points: seq<Point>, k: nat)
    requires |points| >= 2 && FirstFarthest(points, k)
    ensures k == Split(points)
  {
    hide Deviation2;
    SplitFacts(points);
    var s := Split(points);
    assert Farness(points, k) == Deviation2(points[0], points[|points| - 1], points[k]);
    assert Farness(points, s) == Deviation2(points[0], points[|points| - 1], points[s]);
  }

  /**
   When rdp drops points: a list of more than two points is reduced to its ends
   exactly when no point is farther than epsilon from the line through them;
   otherwise the first farthest point is kept, and the two parts it makes are
   simplified on their own.
   */
  lemma RdpReducesIff(points: seq<Point>, epsilon: real, k: nat)
    requires |points| > 2 && epsilon >= 0.0 && FirstFarthest(points, k)
    ensures |Rdp(points, epsilon)| == 2 <==>
              forall i | 0 <= i < |points| :: Deviation2(points[0], points[|points| - 1], points[i]) <= epsilon * epsilon
    ensures |Rdp(points, epsilon)| == 2 ==> Rdp(points, epsilon) == [points[0], points[|points| - 1]]
    ensures |Rdp(points, epsilon)| != 2 ==>
              && 0 < k < |points| - 1 && points[k] in Rdp(points, epsilon)
              && var left := Rdp(points[..k + 1], epsilon);
                 left != [] && Rdp(points, epsilon) == left[..|left| - 1] + Rdp(points[k..], epsilon)
  {
    hide Deviation2;
    hide Split;
    hide Farness;
    hide Rdp;
    SplitIsFirstFarthest(points, k);
    FarnessIs(points, k);
    SplitStep(points, epsilon, k);
  }

  /** One step of rdp at its split. */
  lemma SplitStep(points: seq<Point>, epsilon: real, k: nat)
    requires |points| > 2 && epsilon >= 0.0 && k == Split(points) && k < |points|
    ensures if Farness(points, k) <= Square(epsilon) then Rdp(points, epsilon) == [points[0], points[|points| - 1]]
            else
              && 0 < k < |points| - 1
              && var left, right := Rdp(points[..k + 1], epsilon), Rdp(points[k..], epsilon);
                 && left != [] && Rdp(points, epsilon) == left[..|left| - 1] + right
                 && points[k] in Rdp(points, epsilon) && |Rdp(points, epsilon)| > 2
  {
    hide Deviation2;
    hide Split;
    hide Farness;
    SplitIsInterior(points, epsilon);
    if Farness(points, k) > Square(epsilon) {
      PartsAreLong(points, epsilon, k);
      var left, right := Rdp(points[..k + 1], epsilon), Rdp(points[k..], epsilon);
      assert (left[..|left| - 1] + right)[|left| - 1] == points[k];
    }
  }

  lemma FarnessIs(points: seq<Point>, k: nat)
    requires k < |points|
    ensures Farness(points, k) == Deviation2(points[0], points[|points| - 1], points[k])
  {
  }

  /** Both parts of a split keep their ends. */
  lemma PartsAreLong(points: seq<Point>, epsilon: real, k: nat)
    requires 0 < k < |points| - 1 && epsilon >= 0.0
    ensures |Rdp(points[..k + 1], epsilon)| >= 2 && |Rdp(points[k..], epsilon)| >= 2 && Rdp(points[k..], epsilon)[0] == points[k]
  {
    hide Rdp;
    hide Within;
    var ls := RdpSimplifies(points[..k + 1], epsilon);
    var rs := RdpSimplifies(points[k..], epsilon);
  }

  lemma JoinRing(ring: seq<Point>, f: nat, first: seq<Point>, left: seq<nat>, second: seq<Point>, right: seq<nat>, epsilon: real)
    requires f < |ring|
    requires Simplifies(ring[..f + 1], first, left, epsilon)
    requires Simplifies(ring[f..] + [ring[0]], second, right, epsilon)
    ensures Simplifies(ring + [ring[0]], first[..|first| - 1] + second[..|second| - 1] + [ring[0]],
                       Joined(left, right, f), epsilon)
  {
    hide Deviation2;
    hide Joined;
    hide Within;
    var closed := ring + [ring[0]];
    assert closed[..f + 1] == ring[..f + 1] && closed[f..] == ring[f..] + [ring[0]];
    JoinWithin(closed, f, first, left, second, right, epsilon);
    assert second == second[..|second| - 1] + [ring[0]];
    assert first[..|first| - 1] + second == first[..|first| - 1] + second[..|second| - 1] + [ring[0]];
  }

  /**
   Around a ring of four or more points the same holds cyclically: the result,
   closed again at the anchor, simplifies the closed ring.
   */
  lemma ClosedLoopSimplifies(points: seq<Point>, epsilon: real) returns (ks: seq<nat>)
    requires |points| >= 4 && epsilon >= 0.0
    ensures var ring := Ring(points);
            Simplifies(ring + [ring[0]], SimplifyClosedLoop(points, epsilon) + [ring[0]], ks, epsilon)
  {
    hide *;
    var ring := Ring(points);
    var f := Farthest(ring);
    var left := RdpSimplifies(ring[..f + 1], epsilon);
    var right := RdpSimplifies(ring[f..] + [ring[0]], epsilon);
    ks := Joined(left, right, f);
    JoinRing(ring, f, Rdp(ring[..f + 1], epsilon), left, Rdp(ring[f..] + [ring[0]], epsilon), right, epsilon);
    LoopHalves(points, epsilon);
  }

  lemma LoopHalves(points: seq<Point>, epsilon: real)
    requires |points| >= 4 && epsilon >= 0.0
    ensures var ring := Ring(points);
            var first, second := Rdp(ring[..Farthest(ring) + 1], epsilon), Rdp(ring[Farthest(ring)..] + [ring[0]], epsilon);
            SimplifyClosedLoop(points, epsilon) == first[..|first| - 1] + second[..|second| - 1]
  {
    hide Rdp;
  }
}
