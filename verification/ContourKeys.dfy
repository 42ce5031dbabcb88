/**
 From crossed lattice edges to the rounded coordinates marching_squares uses as
 dictionary keys (tools/build_hamlaneh_logo_kit.py), and the traced loops.
 */
module ContourLoops {
  import opened Sequences
  import opened LoopTracing
  import opened Contour

  type Point = (real, real)

  function Abs(r: real): real { if r < 0.0 then -r else r }

  /** `interpolate`: where between two samples the level lies, clipped to [0, 1]. */
  function Interpolate(a: int, b: int): real {
    if a == b then 0.5
    else
      var t := (LEVEL - a as real) / (b - a) as real;
      if t < 0.0 then 0.0 else if t > 1.0 then 1.0 else t
  }

  /** Where the contour crosses a lattice edge, in the unpadded field's coordinates. */
  function PointOf(f: Field, e: Edge): Point {
    match e
    case H(x, y) => (x as real + Interpolate(Padded(f, x, y), Padded(f, x + 1, y)) - 1.0, y as real - 1.0)
    case V(x, y) => (x as real - 1.0, y as real + Interpolate(Padded(f, x, y), Padded(f, x, y + 1)) - 1.0)
  }

  /** Python's `round(r, 4)`: to the nearest ten-thousandth, ties to even. */
  function Round4(r: real): real {
    var n := (r * 10000.0).Floor;
    var d := r * 10000.0 - n as real;
    (if d < 0.5 || (d == 0.5 && n % 2 == 0) then n else n + 1) as real / 10000.0
  }

  function Key(p: Point): Point { (Round4(p.0), Round4(p.1)) }

  lemma Round4Near(r: real)
    ensures Abs(Round4(r) - r) <= 0.00005
  {
    var n := (r * 10000.0).Floor;
    var d := r * 10000.0 - n as real;
    var m := if d < 0.5 || (d == 0.5 && n % 2 == 0) then n else n + 1;
    assert Abs(m as real - r * 10000.0) <= 0.5;
    assert Round4(r) * 10000.0 == m as real;
  }

  /** A crossing is never close to either end of its edge. */
  lemma CrossingIsInterior(a: int, b: int)
    requires 0 <= a <= 255 && 0 <= b <= 255 && (a as real >= LEVEL) != (b as real >= LEVEL)
    ensures 0.001 <= Interpolate(a, b) <= 0.999
  {
    var n, d := LEVEL - a as real, (b - a) as real;
    var t := n / d;
    assert t * d == n;
    if b > a {
      assert n >= 0.5 && d - n >= 0.5 && 0.0 < d <= 255.0;
      RatioBounds(t, d, n);
    } else {
      assert -n >= 0.5 && n - d >= 0.5 && 0.0 < -d <= 255.0;
      assert t * -d == -n;
      RatioBounds(t, -d, -n);
    }
  }

  /** A crossing is where the straight line between the two samples takes the value 127.5. */
  lemma CrossingIsAtLevel(a: int, b: int)
    requires 0 <= a <= 255 && 0 <= b <= 255 && (a as real >= LEVEL) != (b as real >= LEVEL)
    ensures a as real + Interpolate(a, b) * (b - a) as real == 127.5
  {
    var n, d := LEVEL - a as real, (b - a) as real;
    var t := n / d;
    assert t * d == n;
    CrossingIsInterior(a, b);
    UnclippedRatio(a, b, t);
  }

  lemma UnclippedRatio(a: int, b: int, t: real)
    requires a != b && t == (LEVEL - a as real) / (b - a) as real
    requires 0.001 <= Interpolate(a, b) <= 0.999
    ensures Interpolate(a, b) == t
  {
  }

  /** The sample at a lattice point of the field, zero outside it. */
  function Sample(f: Field, i: int, j: int): int
    requires Valid(f)
  {
    if 0 <= j < |f.rows| && 0 <= i < f.width then f.rows[j][i] else 0
  }

  /**
   p lies on the lattice edge from (i, j) to its right or lower neighbour, where
   the linear interpolation of the two samples equals 127.5.
   */
  ghost predicate OnContour(f: Field, i: int, j: int, across: bool, p: Point)
    requires Valid(f)
  {
    exists t: real :: OnContourAt(f, i, j, across, p, t)
  }

  ghost predicate OnContourAt(f: Field, i: int, j: int, across: bool, p: Point, t: real)
    requires Valid(f)
  {
    var a, b := Sample(f, i, j), if across then Sample(f, i + 1, j) else Sample(f, i, j + 1);
    && 0.0 <= t <= 1.0 && a as real + t * (b - a) as real == 127.5
    && p == if across then (i as real + t, j as real) else (i as real, j as real + t)
  }

  lemma PaddedIsSample(f: Field, x: int, y: int)
    requires Valid(f)
    ensures Padded(f, x, y) == Sample(f, x - 1, y - 1)
  {
  }

  lemma PointIsOnContour(f: Field, e: Edge)
    requires Valid(f) && Crossed(f, e)
    ensures OnContour(f, e.x - 1, e.y - 1, e.H?, PointOf(f, e))
  {
    hide Interpolate;
    hide Padded;
    hide Sample;
    PaddedRange(f, e.x, e.y);
    PaddedRange(f, e.x + 1, e.y);
    PaddedRange(f, e.x, e.y + 1);
    PaddedIsSample(f, e.x, e.y);
    PaddedIsSample(f, e.x + 1, e.y);
    PaddedIsSample(f, e.x, e.y + 1);
    var a, b := Padded(f, e.x, e.y), if e.H? then Padded(f, e.x + 1, e.y) else Padded(f, e.x, e.y + 1);
    CrossingIsAtLevel(a, b);
    CrossingIsInterior(a, b);
    assert OnContourAt(f, e.x - 1, e.y - 1, e.H?, PointOf(f, e), Interpolate(a, b));
  }

  /** k is a multiple of 1/10000 nearest to r, the even one of two. */
  ghost predicate IsRounded(k: real, r: real) { exists n: int :: RoundsTo(k, r, n) }

  ghost predicate RoundsTo(k: real, r: real, n: int) {
    && k == n as real / 10000.0
    && (Abs(n as real - r * 10000.0) < 0.5 || (Abs(n as real - r * 10000.0) == 0.5 && n % 2 == 0))
  }

  lemma Round4Rounds(r: real)
    ensures IsRounded(Round4(r), r)
  {
    var n := (r * 10000.0).Floor;
    var d := r * 10000.0 - n as real;
    var m := if d < 0.5 || (d == 0.5 && n % 2 == 0) then n else n + 1;
    assert RoundsTo(Round4(r), r, m);
  }

  /** A key is the four-decimal rounding of a contour point of some lattice edge. */
  ghost predicate IsVertex(f: Field, k: Point)
    requires Valid(f)
  {
    exists i, j, across, p :: OnContour(f, i, j, across, p) && IsRounded(k.0, p.0) && IsRounded(k.1, p.1)
  }

  lemma KeyIsVertex(f: Field, k: Point)
    requires Valid(f) && Adjacent(KeySegments(f), k) != []
    ensures IsVertex(f, k)
  {
    hide OnContour;
    hide IsRounded;
    hide KeySegments;
    hide PointOf;
    hide Round4;
    hide Adjacent;
    var e := KeyIsCrossing(f, k);
    PointIsOnContour(f, e);
    Round4Rounds(PointOf(f, e).0);
    Round4Rounds(PointOf(f, e).1);
  }

  lemma RatioBounds(t: real, d: real, n: real)
    requires t * d == n && 0.0 < d <= 255.0 && n >= 0.5 && d - n >= 0.5
    ensures 0.001 <= t <= 0.999
  {
    // d / 1000 <= 0.255 < 0.5 bounds both gaps
    var c := d * 0.001;
    assert c <= 0.255;
    PositiveProduct(t - 0.001, d, n - c);
    PositiveProduct(0.999 - t, d, d - c - n);
  }

  lemma PositiveProduct(a: real, d: real, p: real)
    requires a * d == p && d > 0.0 && p > 0.0
    ensures a > 0.0
  {
  }

  lemma PaddedRange(f: Field, x: int, y: int)
    requires Valid(f)
    ensures 0 <= Padded(f, x, y) <= 255
  {
  }

  /** The rounded crossing stays strictly between grid lines along its edge and on the line across it. */
  lemma KeyRange(f: Field, e: Edge)
    requires Valid(f) && Crossed(f, e)
    ensures var k := Key(PointOf(f, e));
            if e.H? then e.x as real - 0.9995 < k.0 < e.x as real - 0.0005 && Abs(k.1 - (e.y as real - 1.0)) <= 0.0001
            else e.y as real - 0.9995 < k.1 < e.y as real - 0.0005 && Abs(k.0 - (e.x as real - 1.0)) <= 0.0001
  {
    var p := PointOf(f, e);
    PaddedRange(f, e.x, e.y);
    PaddedRange(f, e.x + 1, e.y);
    PaddedRange(f, e.x, e.y + 1);
    if e.H? { CrossingIsInterior(Padded(f, e.x, e.y), Padded(f, e.x + 1, e.y)); }
    else { CrossingIsInterior(Padded(f, e.x, e.y), Padded(f, e.x, e.y + 1)); }
    Round4Near(p.0);
    Round4Near(p.1);
  }

  /** Rounding to four decimals never merges two crossings. */
  lemma KeysAreDistinct(f: Field, e1: Edge, e2: Edge)
    requires Valid(f) && Crossed(f, e1) && Crossed(f, e2)
    requires Key(PointOf(f, e1)) == Key(PointOf(f, e2))
    ensures e1 == e2
  {
    KeyRange(f, e1);
    KeyRange(f, e2);
  }

  // ----- the traced graph, on keys

  function Naming(f: Field): Edge -> Point { e => Key(PointOf(f, e)) }

  /** The segments as pairs of keys, in drawing order. */
  function KeySegments(f: Field): seq<(Point, Point)> { Renamed(Segments(f), Naming(f)) }

  lemma EndsAreCrossed(f: Field, s: (Edge, Edge))
    requires Valid(f) && s in Segments(f)
    ensures Crossed(f, s.0) && Crossed(f, s.1)
  {
    hide Segments;
    var links := SegmentLinks(Segments(f));
    var i :| 0 <= i < |links| && Segments(f)[i] == s;
    LinkSym(s.0, s.1);
    assert links[i] == Link(s.0, s.1);
    AdjacentLink(Segments(f), s.0, s.1);
    AdjacentLink(Segments(f), s.1, s.0);
    SegmentsAreTwoRegular(f, s.0);
    SegmentsAreTwoRegular(f, s.1);
  }

  /** The neighbours of a crossing's key are the keys of the crossing's neighbours. */
  lemma KeyNeighbours(f: Field, e: Edge)
    requires Valid(f) && Crossed(f, e)
    ensures Adjacent(KeySegments(f), Key(PointOf(f, e))) == Names(Adjacent(Segments(f), e), Naming(f))
  {
    hide Segments;
    forall s | s in Segments(f)
      ensures (Naming(f)(s.0) == Naming(f)(e) ==> s.0 == e) && (Naming(f)(s.1) == Naming(f)(e) ==> s.1 == e)
    {
      EndsAreCrossed(f, s);
      if Naming(f)(s.0) == Naming(f)(e) { KeysAreDistinct(f, s.0, e); }
      if Naming(f)(s.1) == Naming(f)(e) { KeysAreDistinct(f, s.1, e); }
    }
    RenamedAdjacent(Segments(f), Naming(f), e);
  }

  /** Every key of the graph is the key of a crossing. */
  lemma KeyIsCrossing(f: Field, k: Point) returns (e: Edge)
    requires Valid(f) && Adjacent(KeySegments(f), k) != []
    ensures Crossed(f, e) && Key(PointOf(f, e)) == k
  {
    hide Segments;
    var m := Adjacent(KeySegments(f), k)[0];
    AdjacentLink(KeySegments(f), k, m);
    var i :| 0 <= i < |KeySegments(f)| && SegmentLinks(KeySegments(f))[i] == Link(k, m);
    var s := Segments(f)[i];
    LinkEq(k, m, Naming(f)(s.0), Naming(f)(s.1));
    EndsAreCrossed(f, s);
    e := if Naming(f)(s.0) == k then s.0 else s.1;
  }

  /** A crossing's key has exactly the keys of two other crossings as neighbours. */
  lemma KeyDegree(f: Field, e: Edge) returns (o1: Edge, o2: Edge)
    requires Valid(f) && Crossed(f, e)
    ensures Adjacent(Segments(f), e) == [o1, o2] && Crossed(f, o1) && Crossed(f, o2)
    ensures var k1, k2, k := Key(PointOf(f, o1)), Key(PointOf(f, o2)), Key(PointOf(f, e));
            Adjacent(KeySegments(f), k) == [k1, k2] && k1 != k2 && k1 != k && k2 != k
  {
    hide *;
    o1, o2 := EdgeDegree(f, e);
    SegmentsAt(f, e, o1, o2);
    KeyNeighbours(f, e);
    NamesOfTwo(f, o1, o2);
    if Key(PointOf(f, o1)) == Key(PointOf(f, o2)) { KeysAreDistinct(f, o1, o2); }
    if Key(PointOf(f, o1)) == Key(PointOf(f, e)) { KeysAreDistinct(f, o1, e); }
    if Key(PointOf(f, o2)) == Key(PointOf(f, e)) { KeysAreDistinct(f, o2, e); }
  }

  lemma NamesOfTwo(f: Field, o1: Edge, o2: Edge)
    ensures Names([o1, o2], Naming(f)) == [Key(PointOf(f, o1)), Key(PointOf(f, o2))]
  {
  }

  /** The graph marching_squares walks is 2-regular and simple. */
  lemma KeysAreTwoRegular(f: Field, k: Point)
    requires Valid(f) && Adjacent(KeySegments(f), k) != []
    ensures Degree2(KeySegments(f), k)
  {
    hide KeySegments;
    var e := KeyIsCrossing(f, k);
    var o1, o2 := KeyDegree(f, e);
  }

  lemma SegmentsAt(f: Field, e: Edge, o1: Edge, o2: Edge)
    requires Adjacent(GridSegments(CellSegments(f), f.width + 1, |f.rows| + 1), e) == [o1, o2]
    ensures Adjacent(Segments(f), e) == [o1, o2]
  {
    hide GridSegments;
    hide CellSegments;
  }

  // ----- no loop is too short to be kept

  /** A cell's matching goes both ways. */
  lemma PartnerOfPartner(f: Field, x: int, y: int, e: Edge, o: Edge)
    requires Adjacent(CellSegments(f)(x, y), e) == [o]
    ensures Adjacent(CellSegments(f)(x, y), o) == [e]
  {
    hide CellSegments;
    var s := CellSegments(f)(x, y);
    assert o in Adjacent(s, e);
    LinkSym(e, o);
    AdjacentLink(s, e, o);
    AdjacentLink(s, o, e);
    if !(OfCell(x, y, o) && Crossed(f, o)) { CellNone(f, x, y, o); }
    var p := CellPartner(f, x, y, o);
  }

  /** Two different cells that share an edge differ by one step, so in the parity of x + y. */
  lemma SharedEdgeParity(e: Edge, x: int, y: int, u: int, v: int)
    requires OfCell(x, y, e) && OfCell(u, v, e) && (x, y) != (u, v)
    ensures (x + y - u - v) % 2 == 1
  {
  }

  /** The cell in which two neighbouring crossings are joined. */
  lemma JoiningCell(f: Field, e: Edge, o: Edge) returns (x: int, y: int)
    requires Valid(f) && Crossed(f, e) && o in Adjacent(Segments(f), e)
    ensures OfCell(x, y, e) && OfCell(x, y, o) && Adjacent(CellSegments(f)(x, y), e) == [o]
  {
    hide CellSegments;
    hide GridSegments;
    var a, b := FirstCell(e), SecondCell(e);
    CellsContain(e);
    var p := CellPartner(f, a.0, a.1, e);
    var q := CellPartner(f, b.0, b.1, e);
    CrossedIsInterior(f, e);
    CellsAreLocal(f, e);
    FromBothCells(CellSegments(f), f.width + 1, |f.rows| + 1, e, p, q);
    SegmentsAt(f, e, p, q);
    if o == p { x, y := a.0, a.1; } else { x, y := b.0, b.1; }
  }

  /** No three crossings are mutually joined: their three cells would be pairwise adjacent. */
  lemma NoTriangle(f: Field, e1: Edge, e2: Edge, e3: Edge)
    requires Valid(f) && Crossed(f, e1) && Crossed(f, e2) && Crossed(f, e3)
    requires e1 != e2 && e2 != e3 && e1 != e3
    requires e2 in Adjacent(Segments(f), e1) && e3 in Adjacent(Segments(f), e2)
    ensures e1 !in Adjacent(Segments(f), e3)
  {
    hide CellSegments;
    hide Segments;
    if e1 in Adjacent(Segments(f), e3) {
      var x1, y1 := JoiningCell(f, e1, e2);
      var x2, y2 := JoiningCell(f, e2, e3);
      var x3, y3 := JoiningCell(f, e3, e1);
      PartnerOfPartner(f, x1, y1, e1, e2);
      PartnerOfPartner(f, x2, y2, e2, e3);
      PartnerOfPartner(f, x3, y3, e3, e1);
      SharedEdgeParity(e2, x1, y1, x2, y2);
      SharedEdgeParity(e3, x2, y2, x3, y3);
      SharedEdgeParity(e1, x3, y3, x1, y1);
    }
  }

  /** A closed trace has at least four segments, so the length filter drops none. */
  lemma TraceIsKept(f: Field, loop: seq<Point>)
    requires Valid(f) && Closed(loop) && IsTrace(KeySegments(f), loop)
    ensures |loop| >= 5
  {
    hide KeySegments;
    hide Segments;
    hide PointOf;
    hide Key;
    if |loop| == 4 {
      var a, b, c := loop[0], loop[1], loop[2];
      assert b in Adjacent(KeySegments(f), a) && c in Adjacent(KeySegments(f), b);
      assert loop[2 + 1] in Adjacent(KeySegments(f), c);
      KeyTriangle(f, a, b, c);
    }
  }

  lemma KeyTriangle(f: Field, a: Point, b: Point, c: Point)
    requires Valid(f)
    requires b in Adjacent(KeySegments(f), a) && c in Adjacent(KeySegments(f), b)
    ensures a !in Adjacent(KeySegments(f), c)
  {
    hide KeySegments;
    hide Segments;
    hide PointOf;
    hide Key;
    if a in Adjacent(KeySegments(f), c) {
      var e1 := KeyIsCrossing(f, a);
      var e2 := KeyIsCrossing(f, b);
      var e3 := KeyIsCrossing(f, c);
      var p1, q1 := KeyDegree(f, e1);
      var p2, q2 := KeyDegree(f, e2);
      var p3, q3 := KeyDegree(f, e3);
      KeysJoin(f, e1, e2, p1, q1);
      KeysJoin(f, e2, e3, p2, q2);
      KeysJoin(f, e3, e1, p3, q3);
      NoTriangle(f, e1, e2, e3);
    }
  }

  lemma KeysJoin(f: Field, e: Edge, o: Edge, p: Edge, q: Edge)
    requires Valid(f) && Crossed(f, o) && Crossed(f, p) && Crossed(f, q)
    requires Adjacent(Segments(f), e) == [p, q]
    requires Key(PointOf(f, o)) == Key(PointOf(f, p)) || Key(PointOf(f, o)) == Key(PointOf(f, q))
    ensures o in Adjacent(Segments(f), e)
  {
    hide *;
    if Key(PointOf(f, o)) == Key(PointOf(f, p)) { KeysAreDistinct(f, o, p); } else { KeysAreDistinct(f, o, q); }
    assert o in [p, q];
  }

  // ----- the function itself

  /** `edge_points[k]` as cell (x, y) computes it, in the unpadded field's coordinates. */
  function CellPoint(f: Field, x: int, y: int, k: int): Point {
    var tl, tr := Padded(f, x, y), Padded(f, x + 1, y);
    var bl, br := Padded(f, x, y + 1), Padded(f, x + 1, y + 1);
    if k == 0 then (x as real + Interpolate(tl, tr) - 1.0, y as real - 1.0)
    else if k == 1 then ((x + 1) as real - 1.0, y as real + Interpolate(tr, br) - 1.0)
    else if k == 2 then (x as real + Interpolate(bl, br) - 1.0, (y + 1) as real - 1.0)
    else (x as real - 1.0, y as real + Interpolate(tl, bl) - 1.0)
  }

  lemma TraceVertex(f: Field, loop: seq<Point>, j: nat)
    requires Valid(f) && |loop| >= 5 && loop[0] == loop[|loop| - 1] && IsTrace(KeySegments(f), loop) && j < |loop|
    ensures IsVertex(f, loop[j])
  {
    hide IsVertex;
    hide Adjacent;
    hide KeySegments;
    var i := if j == |loop| - 1 then 0 else j;
    assert loop[i + 1] in Adjacent(KeySegments(f), loop[i]);
    KeyIsVertex(f, loop[i]);
  }

  /** Both cells of an edge compute the same crossing for it. */
  lemma CellsAgree(f: Field, x: int, y: int, k: int)
    ensures CellPoint(f, x, y, k) == PointOf(f, CellEdge(x, y, k))
  {
  }

  /** The pairs of one cell appended to the segment list. */
  method DrawCell(f: Field, x: int, y: int) returns (segments: seq<(Point, Point)>)
    ensures segments == Renamed(CellSegments(f)(x, y), Naming(f))
  {
    hide Pairs;
    hide PointOf;
    hide CellPoint;
    hide Key;
    var pairs := Pairs(Inside(f, x, y), Inside(f, x + 1, y), Inside(f, x + 1, y + 1), Inside(f, x, y + 1), CentreInside(f, x, y));
    segments := [];
    for i := 0 to |pairs|
      invariant |segments| == i
      invariant forall j | 0 <= j < i ::
                  segments[j] == (Key(PointOf(f, CellEdge(x, y, pairs[j].0))), Key(PointOf(f, CellEdge(x, y, pairs[j].1))))
    {
      CellsAgree(f, x, y, pairs[i].0);
      CellsAgree(f, x, y, pairs[i].1);
      segments := segments + [(Key(CellPoint(f, x, y, pairs[i].0)), Key(CellPoint(f, x, y, pairs[i].1)))];
    }
  }

  lemma RenamedConcat(s: seq<(Edge, Edge)>, t: seq<(Edge, Edge)>, name: Edge -> Point)
    ensures Renamed(s + t, name) == Renamed(s, name) + Renamed(t, name)
  {
  }

  /** The scan of all cells, row by row. */
  method DrawSegments(f: Field) returns (segments: seq<(Point, Point)>)
    ensures segments == KeySegments(f)
  {
    hide *;
    var draw, name := CellSegments(f), Naming(f);
    segments := [];
    NothingDrawn(f, draw, name);
    for y := 0 to |f.rows| + 1
      invariant segments == Renamed(GridSegments(draw, f.width + 1, y), name)
    {
      ghost var above := GridSegments(draw, f.width + 1, y);
      RowStarts(draw, f.width + 1, y);
      for x := 0 to f.width + 1
        invariant segments == Renamed(above + RowSegments(draw, y, x), name)
      {
        var cell := DrawCell(f, x, y);
        CellDrawn(draw, name, above, x, y);
        segments := segments + cell;
      }
      RowEnds(draw, f.width + 1, y);
    }
    WholeGrid(f);
  }

  lemma NothingDrawn(f: Field, draw: (int, int) -> seq<(Edge, Edge)>, name: Edge -> Point)
    ensures Renamed(GridSegments(draw, f.width + 1, 0), name) == []
  {
  }

  lemma RowStarts(draw: (int, int) -> seq<(Edge, Edge)>, width: nat, y: nat)
    ensures GridSegments(draw, width, y) + RowSegments(draw, y, 0) == GridSegments(draw, width, y)
  {
  }

  lemma RowEnds(draw: (int, int) -> seq<(Edge, Edge)>, width: nat, y: nat)
    ensures GridSegments(draw, width, y + 1) == GridSegments(draw, width, y) + RowSegments(draw, y, width)
  {
  }

  lemma CellDrawn(draw: (int, int) -> seq<(Edge, Edge)>, name: Edge -> Point, above: seq<(Edge, Edge)>, x: nat, y: nat)
    ensures Renamed(above + RowSegments(draw, y, x + 1), name) ==
              Renamed(above + RowSegments(draw, y, x), name) + Renamed(draw(x, y), name)
  {
    RenamedConcat(above + RowSegments(draw, y, x), draw(x, y), name);
    hide Renamed;
    assert above + RowSegments(draw, y, x + 1) == above + RowSegments(draw, y, x) + draw(x, y);
  }

  lemma WholeGrid(f: Field)
    ensures KeySegments(f) == Renamed(GridSegments(CellSegments(f), f.width + 1, |f.rows| + 1), Naming(f))
  {
    hide CellSegments;
    hide Naming;
  }

  /**
   marching_squares up to simplification. Every walk closes, none is dropped by
   the length filter, and the loops use every segment exactly once.
   */
  method MarchingSquares(f: Field) returns (loops: seq<seq<Point>>)
    requires Valid(f)
    ensures forall i | 0 <= i < |loops| ::
              |loops[i]| >= 5 && loops[i][0] == loops[i][|loops[i]| - 1] && IsTrace(KeySegments(f), loops[i])
    ensures forall i, j | 0 <= i < |loops| && 0 <= j < |loops[i]| :: IsVertex(f, loops[i][j])
    ensures Distinct(AllLinks(loops)) && Elements(AllLinks(loops)) == Elements(SegmentLinks(KeySegments(f)))
    ensures |AllLinks(loops)| == |KeySegments(f)|
  {
    hide KeySegments;
    hide Valid;
    hide Adjacent;
    hide Degree2;
    hide Distinct;
    hide Elements;
    hide SegmentLinks;
    hide AllLinks;
    hide IsTrace;
    hide IsVertex;
    var segments := DrawSegments(f);
    forall k | Adjacent(segments, k) != [] ensures Degree2(segments, k) { KeysAreTwoRegular(f, k); }
    var traced := TraceSegments(segments);
    forall i | 0 <= i < |traced| ensures |traced[i]| >= 5 { TraceIsKept(f, traced[i]); }
    loops := [];
    for i := 0 to |traced|
      invariant loops == traced[..i]
    {
      if |traced[i]| >= 5 && traced[i][|traced[i]| - 1] == traced[i][0] {
        loops := loops + [traced[i]];
      }
    }
    assert loops == traced;
    forall i, j | 0 <= i < |loops| && 0 <= j < |loops[i]| ensures IsVertex(f, loops[i][j]) { TraceVertex(f, loops[i], j); }
  }
}
