/**
 When rdp (tools/build_hamlaneh_logo_kit.py) halts, for every epsilon: always for
 epsilon >= 0; for a negative epsilon exactly when no list it comes to split is
 flat, since a flat list is handed on unchanged.
 */
module RdpHalting {
  import opened Bytes
  import opened Simplification

  /** `maximum <= epsilon`: no distance is at most a negative epsilon. */
  predicate Stops(points: seq<Point>, epsilon: real)
    requires |points| >= 1
  {
    epsilon >= 0.0 && Farness(points, Split(points)) <= Square(epsilon)
  }

  /** rdp with its calls followed to the given depth; None where that is not deep enough. */
  function RdpTo(depth: nat, points: seq<Point>, epsilon: real): (r: Option<seq<Point>>)
    ensures r.Some? && points != [] ==> r.value != []
  {
    if |points| <= 2 then Some(points)
    else if Stops(points, epsilon) then Some([points[0], points[|points| - 1]])
    else if depth == 0 then None
    else
      var k := Split(points);
      var left, right := RdpTo(depth - 1, points[..k + 1], epsilon), RdpTo(depth - 1, points[k..], epsilon);
      if left.None? || right.None? then None else Some(left.value[..|left.value| - 1] + right.value)
  }

  ghost predicate Halts(points: seq<Point>, epsilon: real) { exists depth :: RdpTo(depth, points, epsilon).Some? }

  /** More than two points, none of them off the line through the ends. */
  ghost predicate Flat(points: seq<Point>) { |points| > 2 && forall i | 0 <= i < |points| :: Farness(points, i) == 0.0 }

  /** A flat list is split at its first point, so the second call gets the whole list again; any other is split inside. */
  lemma FlatIffSplitAtStart(points: seq<Point>)
    requires |points| > 2
    ensures Split(points) == 0 <==> Flat(points)
    ensures Flat(points) ==> points[Split(points)..] == points
    ensures !Flat(points) ==> 0 < Split(points) < |points| - 1
  {
    hide Farness;
    hide Split;
    SplitFacts(points);
  }

  /** No list of more than two points in the splitting of these points is flat. */
  ghost predicate NeverFlat(points: seq<Point>)
    decreases |points|
  {
    |points| > 2 ==>
      && !Flat(points)
      && (FlatIffSplitAtStart(points); NeverFlat(points[..Split(points) + 1]) && NeverFlat(points[Split(points)..]))
  }

  /** For epsilon >= 0, following as many calls as there are points computes rdp. */
  lemma {:induction false} NonNegativeHalts(points: seq<Point>, epsilon: real, depth: nat)
    requires epsilon >= 0.0 && depth >= |points|
    ensures RdpTo(depth, points, epsilon) == Some(Rdp(points, epsilon))
    decreases |points|
  {
    hide *;
    if |points| <= 2 || Stops(points, epsilon) {
      StoppedAlike(points, epsilon, depth);
    } else {
      var k := Split(points);
      Unfolds(points, epsilon);
      NonNegativeHalts(points[..k + 1], epsilon, depth - 1);
      NonNegativeHalts(points[k..], epsilon, depth - 1);
      GoesOn(depth, points, epsilon);
    }
  }

  lemma StoppedAlike(points: seq<Point>, epsilon: real, depth: nat)
    requires epsilon >= 0.0 && (|points| <= 2 || Stops(points, epsilon))
    ensures RdpTo(depth, points, epsilon) == Some(Rdp(points, epsilon))
  {
    hide Split;
    hide Farness;
    hide Square;
  }

  lemma Unfolds(points: seq<Point>, epsilon: real)
    requires epsilon >= 0.0 && |points| > 2 && !Stops(points, epsilon)
    ensures 0 < Split(points) < |points| - 1
    ensures var left := Rdp(points[..Split(points) + 1], epsilon);
            left != [] && Rdp(points, epsilon) == left[..|left| - 1] + Rdp(points[Split(points)..], epsilon)
  {
    hide Split;
    hide Farness;
    hide Square;
    SplitIsInterior(points, epsilon);
  }

  lemma GoesOn(depth: nat, points: seq<Point>, epsilon: real)
    requires depth > 0 && |points| > 2 && !Stops(points, epsilon)
    requires RdpTo(depth - 1, points[..Split(points) + 1], epsilon).Some? && RdpTo(depth - 1, points[Split(points)..], epsilon).Some?
    ensures var left, right := RdpTo(depth - 1, points[..Split(points) + 1], epsilon).value, RdpTo(depth - 1, points[Split(points)..], epsilon).value;
            left != [] && RdpTo(depth, points, epsilon) == Some(left[..|left| - 1] + right)
  {
    hide Split;
    hide Stops;
  }

  /** With a negative epsilon rdp, where it halts, drops nothing. */
  lemma {:induction false} NeverFlatHalts(points: seq<Point>, epsilon: real, depth: nat)
    requires epsilon < 0.0 && NeverFlat(points) && depth >= |points|
    ensures RdpTo(depth, points, epsilon) == Some(points)
    decreases |points|
  {
    hide Farness;
    hide Split;
    hide Flat;
    if |points| > 2 {
      FlatIffSplitAtStart(points);
      var k := Split(points);
      NeverFlatHalts(points[..k + 1], epsilon, depth - 1);
      NeverFlatHalts(points[k..], epsilon, depth - 1);
      assert points[..k + 1][..k] + points[k..] == points;
    }
  }

  lemma {:induction false} HaltingIsNeverFlat(points: seq<Point>, epsilon: real, depth: nat)
    requires epsilon < 0.0 && RdpTo(depth, points, epsilon).Some?
    ensures NeverFlat(points)
    decreases depth
  {
    hide Farness;
    hide Split;
    hide Flat;
    if |points| > 2 {
      FlatIffSplitAtStart(points);
      HaltingIsNeverFlat(points[..Split(points) + 1], epsilon, depth - 1);
      HaltingIsNeverFlat(points[Split(points)..], epsilon, depth - 1);
    }
  }

  /** For every input and every epsilon: exactly when rdp halts. */
  lemma HaltsIff(points: seq<Point>, epsilon: real)
    ensures Halts(points, epsilon) <==> epsilon >= 0.0 || NeverFlat(points)
  {
    hide RdpTo;
    hide NeverFlat;
    if epsilon >= 0.0 {
      NonNegativeHalts(points, epsilon, |points|);
    } else if NeverFlat(points) {
      NeverFlatHalts(points, epsilon, |points|);
    } else if depth: nat :| RdpTo(depth, points, epsilon).Some? {
      HaltingIsNeverFlat(points, epsilon, depth);
    }
  }

  /** Three points on a line recurse for ever under a negative epsilon; bent ones do not. */
  lemma ThreePoints(a: Point, b: Point, c: Point, epsilon: real)
    requires epsilon < 0.0
    ensures Halts([a, b, c], epsilon) <==> Deviation2(a, c, b) != 0.0
  {
    hide Deviation2;
    var points := [a, b, c];
    HaltsIff(points, epsilon);
    SplitFacts(points);
    FlatIffSplitAtStart(points);
    assert Farness(points, 1) == Deviation2(a, c, b);
  }
}
