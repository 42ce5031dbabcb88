/**
 Outlines of a pixel mask (mask_to_loops of tools/build_hamlaneh_logo_kit.py):
 the directed boundary edges of the mask, and walks that use them up.

 The inner walk is bounded by a guard that is compared with the number of edges
 left, which the walk itself is using up. What follows from that is proved
 exactly: the walks always use every edge once, and an outline that is a single
 cycle comes back exactly when it has at most six edges.
 */
module Outlines {
  import opened Sequences

  datatype Point = Point(x: int, y: int)
  datatype Edge = Edge(source: Point, target: Point)
  type Pixels = set<Point>

  // ----- the boundary of a mask

  /** The edges one pixel contributes: each side whose neighbour is not set, clockwise. */
  ghost function Sides(m: Pixels, p: Point): set<Edge> {
    var Point(x, y) := p;
    Side(Point(x, y - 1) !in m, Point(x, y), Point(x + 1, y)) +
    Side(Point(x + 1, y) !in m, Point(x + 1, y), Point(x + 1, y + 1)) +
    Side(Point(x, y + 1) !in m, Point(x + 1, y + 1), Point(x, y + 1)) +
    Side(Point(x - 1, y) !in m, Point(x, y + 1), Point(x, y))
  }

  ghost function Side(open: bool, p: Point, q: Point): set<Edge> { if open then {Edge(p, q)} else {} }

  ghost function BoundaryOf(m: Pixels, some: Pixels): set<Edge> { set p, e | p in some && e in Sides(m, p) :: e }

  ghost function Boundary(m: Pixels): set<Edge> { BoundaryOf(m, m) }

  ghost function Out(es: set<Edge>, p: Point): nat { |set e | e in es && e.source == p| }

  ghost function In(es: set<Edge>, p: Point): nat { |set e | e in es && e.target == p| }

  /** As many edges arrive at every lattice point as leave it. */
  ghost predicate Balanced(es: set<Edge>) { forall p :: Out(es, p) == In(es, p) }

  /** An edge keeps a set pixel on its right and an unset one on its left. */
  ghost predicate Divides(m: Pixels, e: Edge) {
    var Point(x, y) := e.source;
    if e.target == Point(x + 1, y) then Point(x, y) in m && Point(x, y - 1) !in m
    else if e.target == Point(x, y + 1) then Point(x - 1, y) in m && Point(x, y) !in m
    else if e.target == Point(x - 1, y) then Point(x - 1, y - 1) in m && Point(x - 1, y) !in m
    else e.target == Point(x, y - 1) && Point(x, y - 1) in m && Point(x - 1, y - 1) !in m
  }

  /** The pixel on the right of a unit edge. */
  ghost function Owner(e: Edge): Point {
    var Point(x, y) := e.source;
    if e.target == Point(x + 1, y) then Point(x, y) else if e.target == Point(x, y + 1) then Point(x - 1, y)
    else if e.target == Point(x - 1, y) then Point(x - 1, y - 1) else Point(x, y - 1)
  }

  lemma SideDivides(m: Pixels, p: Point, e: Edge)
    requires p in m
    ensures e in Sides(m, p) <==> Divides(m, e) && Owner(e) == p
  {
    var Point(x, y) := p;
    var r, d, l, u := Edge(Point(x, y), Point(x + 1, y)), Edge(Point(x + 1, y), Point(x + 1, y + 1)),
                      Edge(Point(x + 1, y + 1), Point(x, y + 1)), Edge(Point(x, y + 1), Point(x, y));
    if Divides(m, e) && Owner(e) == p { assert e == r || e == d || e == l || e == u; }
  }

  lemma BoundaryDivides(m: Pixels, some: Pixels, e: Edge)
    requires some <= m
    ensures e in BoundaryOf(m, some) <==> Divides(m, e) && Owner(e) in some
  {
    hide Sides;
    hide Divides;
    hide Owner;
    forall p | p in some ensures e in Sides(m, p) <==> Divides(m, e) && Owner(e) == p { SideDivides(m, p, e); }
  }

  /** The edges that leave a point, told by the four pixels around it. */
  lemma EdgesOut(m: Pixels, x: int, y: int)
    ensures var nw, ne, sw, se := Point(x - 1, y - 1) in m, Point(x, y - 1) in m, Point(x - 1, y) in m, Point(x, y) in m;
            Out(Boundary(m), Point(x, y)) ==
              One(se && !ne) + One(sw && !se) + One(nw && !sw) + One(ne && !nw)
  {
    hide BoundaryOf;
    forall e ensures e in Boundary(m) <==> Divides(m, e) { BoundaryDivides(m, m, e); }
    hide Boundary;
    var nw, ne, sw, se := Point(x - 1, y - 1) in m, Point(x, y - 1) in m, Point(x - 1, y) in m, Point(x, y) in m;
    var r, d, l, u := Edge(Point(x, y), Point(x + 1, y)), Edge(Point(x, y), Point(x, y + 1)),
                      Edge(Point(x, y), Point(x - 1, y)), Edge(Point(x, y), Point(x, y - 1));
    var es := set e | e in Boundary(m) && e.source == Point(x, y);
    assert forall e | e in es :: e == r || e == d || e == l || e == u;
    assert r in es <==> se && !ne;
    assert d in es <==> sw && !se;
    assert l in es <==> nw && !sw;
    assert u in es <==> ne && !nw;
    CountFour(es, r, d, l, u);
  }

  /** The edges that arrive at a point. */
  lemma EdgesIn(m: Pixels, x: int, y: int)
    ensures var nw, ne, sw, se := Point(x - 1, y - 1) in m, Point(x, y - 1) in m, Point(x - 1, y) in m, Point(x, y) in m;
            In(Boundary(m), Point(x, y)) ==
              One(sw && !nw) + One(nw && !ne) + One(ne && !se) + One(se && !sw)
  {
    hide BoundaryOf;
    forall e ensures e in Boundary(m) <==> Divides(m, e) { BoundaryDivides(m, m, e); }
    hide Boundary;
    var nw, ne, sw, se := Point(x - 1, y - 1) in m, Point(x, y - 1) in m, Point(x - 1, y) in m, Point(x, y) in m;
    var r, d, l, u := Edge(Point(x - 1, y), Point(x, y)), Edge(Point(x, y - 1), Point(x, y)),
                      Edge(Point(x + 1, y), Point(x, y)), Edge(Point(x, y + 1), Point(x, y));
    var es := set e | e in Boundary(m) && e.target == Point(x, y);
    forall e | e in es ensures e == r || e == d || e == l || e == u { assert Divides(m, e); }
    assert r in es <==> sw && !nw;
    assert d in es <==> nw && !ne;
    assert l in es <==> ne && !se;
    assert u in es <==> se && !sw;
    CountFour(es, r, d, l, u);
  }

  ghost function One(b: bool): nat { if b then 1 else 0 }

  lemma CountFour(es: set<Edge>, r: Edge, d: Edge, l: Edge, u: Edge)
    requires r != d && r != l && r != u && d != l && d != u && l != u
    requires es <= {r, d, l, u}
    ensures |es| == One(r in es) + One(d in es) + One(l in es) + One(u in es)
  {
    hide One;
    var rest := es - {r} - {d};
    RemoveOne(es, r);
    RemoveOne(es - {r}, d);
    CountTwo(rest, l, u);
  }

  lemma CountTwo(es: set<Edge>, e: Edge, f: Edge)
    requires e != f && es <= {e, f}
    ensures |es| == One(e in es) + One(f in es)
  {
    RemoveOne(es, e);
    RemoveOne(es - {e}, f);
    assert es - {e} - {f} == {};
  }

  lemma RemoveOne(es: set<Edge>, e: Edge)
    ensures |es| == |es - {e}| + One(e in es)
  {
    if e !in es { assert es - {e} == es; }
  }

  /** The boundary of every mask is balanced. */
  lemma BoundaryIsBalanced(m: Pixels)
    ensures Balanced(Boundary(m))
  {
    hide Boundary;
    hide Out;
    hide In;
    forall p ensures Out(Boundary(m), p) == In(Boundary(m), p) {
      assert p == Point(p.x, p.y);
      EdgesOut(m, p.x, p.y);
      EdgesIn(m, p.x, p.y);
    }
  }

  // ----- walks over a set of edges

  type Walk = seq<Point>

  ghost function Steps(w: Walk): seq<Edge> {
    seq(if |w| == 0 then 0 else |w| - 1, i requires 0 <= i < |w| - 1 => Edge(w[i], w[i + 1]))
  }

  ghost function EdgesOf(w: Walk): set<Edge> { Elements(Steps(w)) }

  predicate Closed(w: Walk) { |w| >= 2 && w[|w| - 1] == w[0] }

  /** A path over edges of `es`, each taken once, that has not come back to its start before its last point. */
  ghost predicate Path(es: set<Edge>, w: Walk) {
    && |w| >= 1 && EdgesOf(w) <= es && Distinct(Steps(w))
    && forall i | 0 < i < |w| - 1 :: w[i] != w[0]
  }

  /** The guard let the walk take its last edge: it is compared with the edges then left, plus four. */
  ghost predicate Allowed(es: set<Edge>, w: Walk) { 2 * (|w| - 2) <= |es| + 4 }

  ghost predicate CutByGuard(es: set<Edge>, w: Walk) { 2 * (|w| - 1) > |es| + 4 }

  ghost predicate Stalled(es: set<Edge>, w: Walk)
    requires |w| >= 1
  {
    forall e | e in es && e.source == w[|w| - 1] :: e in EdgesOf(w)
  }

  /** One run of the inner loop over the edges left: why it could go on, and why it stopped. */
  ghost predicate Walks(es: set<Edge>, w: Walk) {
    && Path(es, w) && |w| >= 2 && Allowed(es, w)
    && (Closed(w) || CutByGuard(es, w) || Stalled(es, w))
  }

  /** The outer loop: walk after walk until no edge is left. Which edge each step takes is left open. */
  ghost predicate Traces(es: set<Edge>, walks: seq<Walk>)
    decreases |walks|
  {
    if walks == [] then es == {} else Walks(es, walks[0]) && Traces(es - EdgesOf(walks[0]), walks[1..])
  }

  /** The edges left when walk k starts. */
  ghost function Left(es: set<Edge>, walks: seq<Walk>, k: nat): set<Edge>
    requires k <= |walks|
  {
    if k == 0 then es else Left(es - EdgesOf(walks[0]), walks[1..], k - 1)
  }

  /** The walks that are kept: closed ones of at least four edges. */
  function Kept(walks: seq<Walk>): seq<Walk> {
    if walks == [] then []
    else
      var w := walks[|walks| - 1];
      Kept(walks[..|walks| - 1]) + if |w| >= 5 && Closed(w) then [w] else []
  }

  lemma StepsCount(w: Walk)
    requires |w| >= 1 && Distinct(Steps(w))
    ensures |EdgesOf(w)| == |w| - 1
  {
    ElementsFit(Steps(w));
  }

  /** Together the walks take every edge exactly once, whatever the guard does. */
  lemma {:induction false} WalksPartition(es: set<Edge>, walks: seq<Walk>, e: Edge)
    requires Traces(es, walks) && e in es
    ensures exists k | 0 <= k < |walks| ::
              && e in EdgesOf(walks[k])
              && forall j | 0 <= j < |walks| && j != k :: e !in EdgesOf(walks[j])
    decreases |walks|
  {
    var rest, left := walks[1..], es - EdgesOf(walks[0]);
    if e in EdgesOf(walks[0]) {
      forall j | 0 < j < |walks| ensures e !in EdgesOf(walks[j]) {
        TakesFromLeft(left, rest, j - 1);
        assert walks[j] == rest[j - 1];
      }
    } else {
      WalksPartition(left, rest, e);
      var k :| 0 <= k < |rest| && e in EdgesOf(rest[k]) &&
        forall j | 0 <= j < |rest| && j != k :: e !in EdgesOf(rest[j]);
      assert walks[k + 1] == rest[k];
      forall j | 0 <= j < |walks| && j != k + 1 ensures e !in EdgesOf(walks[j]) {
        if j > 0 { assert walks[j] == rest[j - 1]; }
      }
    }
  }

  lemma {:induction false} TakesFromLeft(es: set<Edge>, walks: seq<Walk>, k: nat)
    requires Traces(es, walks) && k < |walks|
    ensures Walks(Left(es, walks, k), walks[k]) && Left(es, walks, k) <= es && EdgesOf(walks[k]) <= es
    decreases k
  {
    if k > 0 { TakesFromLeft(es - EdgesOf(walks[0]), walks[1..], k - 1); }
  }

  // ----- balance along a walk

  /** How many more edges leave a point than arrive at it. */
  ghost function Net(es: set<Edge>, p: Point): int { Out(es, p) - In(es, p) }

  lemma TakeEdge(es: set<Edge>, e: Edge, p: Point)
    requires e in es
    ensures Net(es - {e}, p) == Net(es, p) - One(p == e.source) + One(p == e.target)
  {
    var outs, ins := set f | f in es && f.source == p, set f | f in es && f.target == p;
    assert (set f | f in es - {e} && f.source == p) == outs - {e};
    assert (set f | f in es - {e} && f.target == p) == ins - {e};
    RemoveOne(outs, e);
    RemoveOne(ins, e);
  }

  lemma LastStep(w: Walk)
    requires |w| >= 2 && Distinct(Steps(w))
    ensures var front, e := w[..|w| - 1], Edge(w[|w| - 2], w[|w| - 1]);
            && Distinct(Steps(front)) && e !in EdgesOf(front)
            && EdgesOf(w) == EdgesOf(front) + {e}
  {
    var front, e := w[..|w| - 1], Edge(w[|w| - 2], w[|w| - 1]);
    var n := |w| - 2;
    assert Steps(w) == Steps(front) + [e] && |Steps(front)| == n;
    assert Steps(w)[n] == e;
    assert forall i | 0 <= i < n :: Steps(front)[i] == Steps(w)[i];
  }

  /** Taking a walk away changes the balance at its two ends only. */
  lemma {:induction false} TakeWalk(es: set<Edge>, w: Walk, p: Point)
    requires |w| >= 1 && EdgesOf(w) <= es && Distinct(Steps(w))
    ensures Net(es - EdgesOf(w), p) == Net(es, p) - One(p == w[0]) + One(p == w[|w| - 1])
    decreases |w|
  {
    hide Net;
    if |w| == 1 {
      assert es - EdgesOf(w) == es;
    } else {
      var front, e := w[..|w| - 1], Edge(w[|w| - 2], w[|w| - 1]);
      LastStep(w);
      hide EdgesOf;
      TakeWalk(es, front, p);
      TakeEdge(es - EdgesOf(front), e, p);
      assert es - EdgesOf(w) == es - EdgesOf(front) - {e};
    }
  }

  lemma ClosedIsBalanced(w: Walk)
    requires Closed(w) && Distinct(Steps(w))
    ensures Balanced(EdgesOf(w))
  {
    var es := EdgesOf(w);
    forall p ensures Out(es, p) == In(es, p) {
      TakeWalk(es, w, p);
      assert es - EdgesOf(w) == {};
      assert Out({}, p) == 0 && In({}, p) == 0;
    }
  }

  /** In a balanced set a walk never runs out of edges away from its own start: if it stays open, the guard cut it. */
  lemma OpenIsCut(es: set<Edge>, w: Walk)
    requires Balanced(es) && Walks(es, w) && !Closed(w)
    ensures CutByGuard(es, w) && EdgesOf(w) != es
  {
    var last, left := w[|w| - 1], es - EdgesOf(w);
    TakeWalk(es, w, last);
    assert Out(es, last) == In(es, last);
    assert Out(left, last) >= 1;
    var some := set e | e in left && e.source == last;
    assert some != {};
    var e :| e in some;
  }

  lemma ClosedLeavesBalance(es: set<Edge>, w: Walk)
    requires Balanced(es) && Path(es, w) && Closed(w)
    ensures Balanced(es - EdgesOf(w))
  {
    forall p ensures Out(es - EdgesOf(w), p) == In(es - EdgesOf(w), p) {
      TakeWalk(es, w, p);
      assert Out(es, p) == In(es, p);
    }
  }

  lemma {:induction false} LeftIsBalanced(es: set<Edge>, walks: seq<Walk>, k: nat)
    requires Balanced(es) && Traces(es, walks) && k <= |walks| && forall j | 0 <= j < k :: Closed(walks[j])
    ensures Balanced(Left(es, walks, k))
    decreases k
  {
    if k > 0 {
      ClosedLeavesBalance(es, walks[0]);
      LeftIsBalanced(es - EdgesOf(walks[0]), walks[1..], k - 1);
    }
  }

  /** On every mask, the first walk that does not close is one the guard cut short, never one that ran out of edges. */
  lemma FirstOpenIsCut(m: Pixels, walks: seq<Walk>, k: nat)
    requires Traces(Boundary(m), walks) && k < |walks| && !Closed(walks[k])
    requires forall j | 0 <= j < k :: Closed(walks[j])
    ensures CutByGuard(Left(Boundary(m), walks, k), walks[k])
  {
    BoundaryIsBalanced(m);
    LeftIsBalanced(Boundary(m), walks, k);
    TakesFromLeft(Boundary(m), walks, k);
    OpenIsCut(Left(Boundary(m), walks, k), walks[k]);
  }

  /** The last walk takes all that is left, which the guard allows for at most six edges. */
  lemma {:induction false} LastWalkIsShort(es: set<Edge>, walks: seq<Walk>)
    requires Traces(es, walks) && walks != []
    ensures |walks[|walks| - 1]| <= 7
    decreases |walks|
  {
    if |walks| == 1 {
      StepsCount(walks[0]);
      assert walks[1..] == [] && Traces(es - EdgesOf(walks[0]), []);
      hide EdgesOf;
      assert es <= EdgesOf(walks[0]) by { assert forall e | e in es :: e !in es - EdgesOf(walks[0]); }
      assert es == EdgesOf(walks[0]);
    } else {
      LastWalkIsShort(es - EdgesOf(walks[0]), walks[1..]);
    }
  }

  /**
   Any walk, over any edges: if following its steps would close a path of L edges,
   it closes exactly when 2(L - 1) <= E + 4, for the E edges left when it began.
   */
  lemma WalkClosesIff(es: set<Edge>, w: Walk, whole: Walk)
    requires Walks(es, w) && Path(es, whole) && Closed(whole) && (w <= whole || whole <= w)
    ensures w == whole <==> 2 * (|whole| - 2) <= |es| + 4
  {
    hide Distinct;
    NotPastItsClosing(es, w, whole);
    if |w| < |whole| {
      assert !Closed(w);
      NextStepIsFree(es, w, whole);
    }
  }

  lemma NotPastItsClosing(es: set<Edge>, w: Walk, whole: Walk)
    requires Path(es, w) && Closed(whole) && (w <= whole || whole <= w)
    ensures w <= whole
  {
    assert !(|whole| < |w|);
  }

  /** A proper part of a path has not used the path's next edge. */
  lemma NextStepIsFree(es: set<Edge>, w: Walk, whole: Walk)
    requires Path(es, whole) && 1 <= |w| < |whole| && w <= whole
    ensures !Stalled(es, w)
  {
    var n := |w| - 1;
    var e := Steps(whole)[n];
    assert e.source == w[n] && e in EdgesOf(whole);
    forall f | f in EdgesOf(w) ensures f != e {
      var i :| 0 <= i < |Steps(w)| && Steps(w)[i] == f;
      assert Steps(whole)[i] == f;
    }
  }

  // ----- masks with one outline

  /** Balanced edges of which no proper part is balanced: one cycle. */
  ghost predicate OneCycle(es: set<Edge>) {
    es != {} && Balanced(es) && forall part | part <= es && part != {} && Balanced(part) :: part == es
  }

  lemma ClosedTakesAll(es: set<Edge>, w: Walk)
    requires OneCycle(es) && Path(es, w) && Closed(w)
    ensures EdgesOf(w) == es && |w| == |es| + 1
  {
    ClosedIsBalanced(w);
    StepsCount(w);
    assert Steps(w)[0] in EdgesOf(w);
  }

  /** Once part of a cycle is used up, no later walk closes. */
  lemma {:induction false} NoneCloses(es: set<Edge>, left: set<Edge>, walks: seq<Walk>, k: nat)
    requires OneCycle(es) && left < es && Traces(left, walks) && k < |walks|
    ensures !Closed(walks[k])
    decreases k
  {
    if k == 0 {
      if Closed(walks[0]) { ClosedTakesAll(es, walks[0]); }
    } else {
      NoneCloses(es, left - EdgesOf(walks[0]), walks[1..], k - 1);
    }
  }

  lemma {:induction false} NothingKept(walks: seq<Walk>)
    requires forall k | 0 <= k < |walks| :: !Closed(walks[k])
    ensures Kept(walks) == []
  {
    if walks != [] { NothingKept(walks[..|walks| - 1]); }
  }

  lemma LongCycleIsLost(es: set<Edge>, walks: seq<Walk>)
    requires OneCycle(es) && |es| > 6 && Traces(es, walks)
    ensures Kept(walks) == []
  {
    var w := walks[0];
    if Closed(w) { ClosedTakesAll(es, w); }
    assert Steps(w)[0] in EdgesOf(w);
    forall k | 0 <= k < |walks| ensures !Closed(walks[k]) {
      if k > 0 { NoneCloses(es, es - EdgesOf(w), walks[1..], k - 1); }
    }
    NothingKept(walks);
  }

  lemma NoEdgesNoWalks(walks: seq<Walk>)
    requires Traces({}, walks)
    ensures walks == []
  {
    if walks != [] { StepsCount(walks[0]); }
  }

  lemma ShortCycleCloses(es: set<Edge>, walks: seq<Walk>)
    requires OneCycle(es) && |es| <= 6 && Traces(es, walks)
    ensures |walks| == 1 && EdgesOf(walks[0]) == es && |walks[0]| == |es| + 1 && Closed(walks[0])
  {
    var w := walks[0];
    StepsCount(w);
    if !Closed(w) {
      OpenIsCut(es, w);
      PartIsSmaller(EdgesOf(w), es);
    }
    ClosedTakesAll(es, w);
    assert es - EdgesOf(w) == {};
    NoEdgesNoWalks(walks[1..]);
  }

  lemma PartIsSmaller(a: set<Edge>, b: set<Edge>)
    requires a < b
    ensures |a| < |b|
  {
    var e :| e in b && e !in a;
    assert a <= b - {e};
    SubsetIsSmaller(a, b - {e});
  }

  lemma {:induction false} SubsetIsSmaller(a: set<Edge>, b: set<Edge>)
    requires a <= b
    ensures |a| <= |b|
  {
    if a != {} {
      var e :| e in a;
      SubsetIsSmaller(a - {e}, b - {e});
    }
  }

  /**
   A mask whose boundary is one cycle gets its outline back exactly when the
   outline has four to six edges, and otherwise nothing is kept at all.
   */
  lemma OutlineKeptIff(m: Pixels, walks: seq<Walk>)
    requires OneCycle(Boundary(m)) && Traces(Boundary(m), walks)
    ensures 4 <= |Boundary(m)| <= 6 <==> exists w | w in Kept(walks) :: EdgesOf(w) == Boundary(m)
    ensures 4 <= |Boundary(m)| <= 6 <==> Kept(walks) != []
  {
    if |Boundary(m)| > 6 {
      LongCycleIsLost(Boundary(m), walks);
    } else {
      ShortCycleCloses(Boundary(m), walks);
      assert Kept(walks[..0]) == [];
      assert walks == [walks[0]];
      assert |Boundary(m)| >= 4 ==> Kept(walks) == [walks[0]];
    }
  }

  /** Edges head to tail around a ring, through each point once. */
  ghost predicate Ring(c: seq<Edge>) {
    && c != []
    && (forall i | 0 <= i < |c| :: c[i].target == c[if i == |c| - 1 then 0 else i + 1].source)
    && forall i, j | 0 <= i < j < |c| :: c[i].source != c[j].source
  }

  /** A balanced part of a ring that has one edge has the next one too. */
  lemma NextEdge(c: seq<Edge>, part: set<Edge>, i: nat)
    requires Ring(c) && part <= Elements(c) && Balanced(part) && i < |c| && c[i] in part
    ensures c[if i == |c| - 1 then 0 else i + 1] in part
  {
    var p := c[i].target;
    var ins, outs := set e | e in part && e.target == p, set e | e in part && e.source == p;
    assert c[i] in ins;
    assert Out(part, p) == In(part, p);
    assert outs != {};
    var e :| e in outs;
    assert e in Elements(c);
  }

  lemma {:induction false} EdgesFollow(c: seq<Edge>, part: set<Edge>, i: nat, j: nat)
    requires Ring(c) && part <= Elements(c) && Balanced(part) && i <= j < |c| && c[i] in part
    ensures c[j] in part
    decreases j
  {
    if i < j {
      EdgesFollow(c, part, i, j - 1);
      NextEdge(c, part, j - 1);
    }
  }

  lemma RingIsOneCycle(c: seq<Edge>)
    requires Ring(c) && Balanced(Elements(c))
    ensures OneCycle(Elements(c)) && |Elements(c)| == |c|
  {
    ElementsFit(c);
    assert c[0] in Elements(c);
    var last := |c| - 1;
    forall part | part <= Elements(c) && part != {} && Balanced(part) ensures part == Elements(c) {
      var e :| e in part;
      assert e in Elements(c);
      var i :| 0 <= i < |c| && c[i] == e;
      EdgesFollow(c, part, i, last);
      NextEdge(c, part, last);
      forall j | 0 <= j < |c| ensures c[j] in part { EdgesFollow(c, part, 0, j); }
    }
  }

  const BLOCK: Pixels := {Point(0, 0), Point(1, 0), Point(0, 1), Point(1, 1)}

  /** The outline of a two by two block, clockwise. */
  ghost function BlockRing(): seq<Edge> {
    [Edge(Point(0, 0), Point(1, 0)), Edge(Point(1, 0), Point(2, 0)), Edge(Point(2, 0), Point(2, 1)), Edge(Point(2, 1), Point(2, 2)),
     Edge(Point(2, 2), Point(1, 2)), Edge(Point(1, 2), Point(0, 2)), Edge(Point(0, 2), Point(0, 1)), Edge(Point(0, 1), Point(0, 0))]
  }

  lemma BlockBoundary()
    ensures Boundary(BLOCK) == Elements(BlockRing())
  {
    forall e ensures e in Boundary(BLOCK) <==> e in BlockRing() {
      BoundaryDivides(BLOCK, BLOCK, e);
    }
  }

  lemma BlockIsRing()
    ensures Ring(BlockRing()) && |BlockRing()| == 8
  {
    var c := BlockRing();
    assert |c| == 8;
    assert c[0].target == c[1].source && c[1].target == c[2].source && c[2].target == c[3].source && c[3].target == c[4].source;
    assert c[4].target == c[5].source && c[5].target == c[6].source && c[6].target == c[7].source && c[7].target == c[0].source;
  }

  /** The guard loses the outline of a two by two block, whichever edges the walks take. */
  lemma BlockIsLost(walks: seq<Walk>)
    requires Traces(Boundary(BLOCK), walks)
    ensures Kept(walks) == []
  {
    hide *;
    BoundaryIsBalanced(BLOCK);
    BlockBoundary();
    BlockIsRing();
    RingIsOneCycle(BlockRing());
    LongCycleIsLost(Boundary(BLOCK), walks);
  }
}
