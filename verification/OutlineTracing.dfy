/**
 The loops of mask_to_loops (tools/build_hamlaneh_logo_kit.py), over a dictionary
 of outgoing edges that keeps its keys in insertion order.
 */
module OutlineTracing {
  import opened Sequences
  import opened Outlines

  type Outgoing = map<Point, seq<Point>>

  /** The dictionary lists, under each point, the targets of its remaining edges without repeats. */
  ghost predicate Represents(out: Outgoing, es: set<Edge>) {
    && (forall p | p in out :: Distinct(out[p]))
    && forall p, q {:trigger Edge(p, q)} :: Edge(p, q) in es <==> p in out && q in out[p]
  }

  // ----- the order of the dictionary

  function Get(out: Outgoing, p: Point): seq<Point> { if p in out then out[p] else [] }

  /** The keys in the order the add_edge calls first name them. */
  function FirstSeen(calls: seq<Edge>): seq<Point> {
    if calls == [] then []
    else
      var seen, p := FirstSeen(calls[..|calls| - 1]), calls[|calls| - 1].source;
      if p in seen then seen else seen + [p]
  }

  /** The targets of the edges of `es` that leave p, in the order of the calls that filed them. */
  ghost function Filed(calls: seq<Edge>, es: set<Edge>, p: Point): seq<Point> {
    if calls == [] then []
    else
      var e := calls[|calls| - 1];
      Filed(calls[..|calls| - 1], es, p) + if e in es && e.source == p then [e.target] else []
  }

  /** The dictionary after these calls, with only the edges of `es` left in it. */
  ghost predicate InOrder(out: Outgoing, order: seq<Point>, calls: seq<Edge>, es: set<Edge>) {
    && Distinct(calls) && order == FirstSeen(calls)
    && (forall p :: p in order <==> p in out)
    && forall p :: Get(out, p) == Filed(calls, es, p)
  }

  /** Edges that never were filed, or leave another point, make no difference. */
  lemma {:induction false} FiledIgnores(calls: seq<Edge>, es: set<Edge>, e: Edge, p: Point)
    requires e !in calls || e.source != p
    ensures Filed(calls, es + {e}, p) == Filed(calls, es, p) == Filed(calls, es - {e}, p)
  {
    if calls != [] {
      var front := calls[..|calls| - 1];
      assert forall f | f in front :: f in calls;
      assert calls[|calls| - 1] in calls;
      FiledIgnores(front, es, e, p);
    }
  }

  /** Taking away the last filed edge of a point takes the last target of its list. */
  lemma {:induction false} FiledPop(calls: seq<Edge>, es: set<Edge>, p: Point)
    requires Distinct(calls) && Filed(calls, es, p) != []
    ensures var f := Filed(calls, es, p);
            Filed(calls, es - {Edge(p, f[|f| - 1])}, p) == f[..|f| - 1]
  {
    var front, c := calls[..|calls| - 1], calls[|calls| - 1];
    if c in es && c.source == p {
      assert c == Edge(p, c.target) && c !in front;
      FiledIgnores(front, es, c, p);
    } else {
      FiledPop(front, es, p);
    }
  }

  function AddKey(order: seq<Point>, out: Outgoing, p: Point): seq<Point> { if p in out then order else order + [p] }

  lemma AddInOrder(out: Outgoing, order: seq<Point>, calls: seq<Edge>, p: Point, q: Point)
    requires InOrder(out, order, calls, Elements(calls)) && Edge(p, q) !in calls
    ensures InOrder(AddEdge(out, p, q), AddKey(order, out, p), calls + [Edge(p, q)], Elements(calls + [Edge(p, q)]))
  {
    var e := Edge(p, q);
    var more := calls + [e];
    assert more[..|calls|] == calls;
    DistinctSnoc(calls, e);
    var out' := AddEdge(out, p, q);
    forall r ensures Get(out', r) == Filed(more, Elements(more), r) {
      assert Get(out, r) == Filed(calls, Elements(calls), r);
      FiledIgnores(calls, Elements(calls), e, r);
    }
    forall r ensures r in AddKey(order, out, p) <==> r in out' { assert r in order <==> r in out; }
    assert p in order <==> p in out;
  }

  lemma PopInOrder(out: Outgoing, order: seq<Point>, calls: seq<Edge>, es: set<Edge>, p: Point)
    requires InOrder(out, order, calls, es) && p in out && out[p] != []
    ensures var q := out[p][|out[p]| - 1];
            InOrder(out[p := out[p][..|out[p]| - 1]], order, calls, es - {Edge(p, q)})
  {
    var q, out' := out[p][|out[p]| - 1], out[p := out[p][..|out[p]| - 1]];
    assert Get(out, p) == Filed(calls, es, p);
    forall r ensures Get(out', r) == Filed(calls, es - {Edge(p, q)}, r) {
      assert Get(out, r) == Filed(calls, es, r);
      if r == p { FiledPop(calls, es, p); } else { FiledIgnores(calls, es, Edge(p, q), r); }
    }
    forall r ensures r in order <==> r in out' { assert r in order <==> r in out; }
  }

  // ----- the trace the source makes

  /** Each step takes the last edge filed under the point it leaves. */
  ghost predicate PopsLast(calls: seq<Edge>, es: set<Edge>, w: Walk) {
    forall i | 0 <= i < |w| - 1 :: TakesLast(calls, es - EdgesOf(w[..i + 1]), w[i], w[i + 1])
  }

  ghost predicate TakesLast(calls: seq<Edge>, left: set<Edge>, p: Point, q: Point) {
    var f := Filed(calls, left, p);
    f != [] && f[|f| - 1] == q
  }

  /** p is the first key of the dictionary with an edge left. */
  ghost predicate FirstOpen(calls: seq<Edge>, es: set<Edge>, p: Point, i: nat) {
    var order := FirstSeen(calls);
    && i < |order| && order[i] == p && Filed(calls, es, p) != []
    && forall j | 0 <= j < i :: Filed(calls, es, order[j]) == []
  }

  ghost predicate StartsFirst(calls: seq<Edge>, es: set<Edge>, p: Point) { exists i :: FirstOpen(calls, es, p, i) }

  /** One walk of the source: where it starts, which edges it takes, when it stops. */
  ghost predicate WalksAs(calls: seq<Edge>, es: set<Edge>, w: Walk) {
    Walks(es, w) && StartsFirst(calls, es, w[0]) && PopsLast(calls, es, w)
  }

  /** All of them, until no edge is left. */
  ghost predicate TracesAs(calls: seq<Edge>, es: set<Edge>, walks: seq<Walk>)
    decreases |walks|
  {
    if walks == [] then es == {} else WalksAs(calls, es, walks[0]) && TracesAs(calls, es - EdgesOf(walks[0]), walks[1..])
  }

  lemma {:induction false} TracesAsTraces(calls: seq<Edge>, es: set<Edge>, walks: seq<Walk>)
    requires TracesAs(calls, es, walks)
    ensures Traces(es, walks)
    decreases |walks|
  {
    hide Walks;
    hide StartsFirst;
    hide PopsLast;
    if walks != [] { TracesAsTraces(calls, es - EdgesOf(walks[0]), walks[1..]); }
  }

  /** Two walks of the source from the same state are the same walk. */
  lemma WalkIsDetermined(calls: seq<Edge>, es: set<Edge>, w: Walk, v: Walk)
    requires WalksAs(calls, es, w) && WalksAs(calls, es, v)
    ensures w == v
  {
    hide Filed;
    hide FirstSeen;
    hide Path;
    hide Stalled;
    SameStart(calls, es, w[0], v[0]);
    if |w| <= |v| {
      StepsAlike(calls, es, w, v, |w|);
      assert w[..|w|] == w;
      SameEnd(es, w, v);
    } else {
      StepsAlike(calls, es, v, w, |v|);
      assert v[..|v|] == v;
      SameEnd(es, v, w);
    }
  }

  lemma SameStart(calls: seq<Edge>, es: set<Edge>, p: Point, q: Point)
    requires StartsFirst(calls, es, p) && StartsFirst(calls, es, q)
    ensures p == q
  {
    hide Filed;
    hide FirstSeen;
    var i :| FirstOpen(calls, es, p, i);
    var j :| FirstOpen(calls, es, q, j);
  }

  lemma {:induction false} StepsAlike(calls: seq<Edge>, es: set<Edge>, w: Walk, v: Walk, n: nat)
    requires PopsLast(calls, es, w) && PopsLast(calls, es, v) && 1 <= n <= |w| <= |v| && w[0] == v[0]
    ensures w[..n] == v[..n]
  {
    hide Filed;
    if n > 1 {
      StepsAlike(calls, es, w, v, n - 1);
      assert w[n - 2] == w[..n - 1][n - 2] == v[..n - 1][n - 2] == v[n - 2];
      assert TakesLast(calls, es - EdgesOf(w[..(n - 2) + 1]), w[n - 2], w[(n - 2) + 1]);
      assert TakesLast(calls, es - EdgesOf(v[..(n - 2) + 1]), v[n - 2], v[(n - 2) + 1]);
    }
  }

  /** A walk does not stop where another goes on. */
  lemma SameEnd(es: set<Edge>, w: Walk, v: Walk)
    requires Walks(es, w) && Walks(es, v) && |w| <= |v| && w == v[..|w|]
    ensures w == v
  {
    hide EdgesOf;
    hide Distinct;
    if |w| < |v| {
      assert v[|w| - 1] != v[0];
      NextStepIsFree(es, w, v);
    }
  }

  /** The source makes one trace of a mask. */
  lemma {:induction false} TraceIsDetermined(calls: seq<Edge>, es: set<Edge>, a: seq<Walk>, b: seq<Walk>)
    requires TracesAs(calls, es, a) && TracesAs(calls, es, b)
    ensures a == b
    decreases |a|
  {
    hide WalksAs;
    hide EdgesOf;
    if a == [] || b == [] {
      EmptyOnlyAtTheEnd(calls, es, a);
      EmptyOnlyAtTheEnd(calls, es, b);
    } else {
      WalkIsDetermined(calls, es, a[0], b[0]);
      TraceIsDetermined(calls, es - EdgesOf(a[0]), a[1..], b[1..]);
      assert a == [a[0]] + a[1..] && b == [b[0]] + b[1..];
    }
  }

  lemma EmptyOnlyAtTheEnd(calls: seq<Edge>, es: set<Edge>, walks: seq<Walk>)
    requires TracesAs(calls, es, walks)
    ensures walks == [] <==> es == {}
  {
    TracesAsTraces(calls, es, walks);
    if es == {} { NoEdgesNoWalks(walks); }
  }

  function AddEdge(out: Outgoing, p: Point, q: Point): Outgoing {
    out[p := (if p in out then out[p] else []) + [q]]
  }

  lemma AddRepresents(out: Outgoing, es: set<Edge>, p: Point, q: Point)
    requires Represents(out, es) && Edge(p, q) !in es
    ensures Represents(AddEdge(out, p, q), es + {Edge(p, q)})
  {
  }

  lemma PopRepresents(out: Outgoing, es: set<Edge>, p: Point)
    requires Represents(out, es) && p in out && out[p] != []
    ensures var q := out[p][|out[p]| - 1];
            Edge(p, q) in es && Represents(out[p := out[p][..|out[p]| - 1]], es - {Edge(p, q)})
  {
    var q, rest := out[p][|out[p]| - 1], out[p][..|out[p]| - 1];
    assert q in out[p] && q !in rest;
    assert forall r :: r in out[p] <==> r == q || r in rest;
  }

  ghost predicate Rectangular(mask: seq<seq<bool>>, width: nat) { forall y | 0 <= y < |mask| :: |mask[y]| == width }

  /** The set pixels of the rows above y and the first x columns of row y. */
  ghost function PixelsTo(mask: seq<seq<bool>>, width: nat, x: nat, y: nat): Pixels
    requires Rectangular(mask, width)
  {
    set j, i | 0 <= j < |mask| && 0 <= i < width && mask[j][i] && (j < y || (j == y && i < x)) :: Point(i, j)
  }

  ghost function PixelsOf(mask: seq<seq<bool>>, width: nat): Pixels
    requires Rectangular(mask, width)
  {
    PixelsTo(mask, width, 0, |mask|)
  }

  // ----- filling the dictionary

  ghost function SideCall(open: bool, p: Point, q: Point): seq<Edge> { if open then [Edge(p, q)] else [] }

  /** The add_edge calls one set pixel makes. */
  ghost function PixelCalls(m: Pixels, x: int, y: int): seq<Edge> {
    SideCall(Point(x, y - 1) !in m, Point(x, y), Point(x + 1, y)) +
    SideCall(Point(x + 1, y) !in m, Point(x + 1, y), Point(x + 1, y + 1)) +
    SideCall(Point(x, y + 1) !in m, Point(x + 1, y + 1), Point(x, y + 1)) +
    SideCall(Point(x - 1, y) !in m, Point(x, y + 1), Point(x, y))
  }

  /** The calls of the rows above y and the first x columns of row y, in row order. */
  ghost function CallsTo(mask: seq<seq<bool>>, width: nat, x: nat, y: nat): seq<Edge>
    requires Rectangular(mask, width) && x <= width && (y < |mask| || (y == |mask| && x == 0))
    decreases y, x
  {
    if x > 0 then CallsTo(mask, width, x - 1, y) + if mask[y][x - 1] then PixelCalls(PixelsOf(mask, width), x - 1, y) else []
    else if y > 0 then CallsTo(mask, width, width, y - 1) else []
  }

  ghost function Calls(mask: seq<seq<bool>>, width: nat): seq<Edge>
    requires Rectangular(mask, width)
  {
    CallsTo(mask, width, 0, |mask|)
  }

  /** The dictionary holds exactly the edges of the calls made so far. */
  ghost predicate Built(out: Outgoing, order: seq<Point>, calls: seq<Edge>) {
    Represents(out, Elements(calls)) && InOrder(out, order, calls, Elements(calls))
  }

  method AddSide(open: bool, p: Point, q: Point, before: Outgoing, order0: seq<Point>, ghost calls: seq<Edge>)
    returns (out: Outgoing, order: seq<Point>)
    requires Built(before, order0, calls) && (open ==> Edge(p, q) !in Elements(calls))
    ensures Built(out, order, calls + SideCall(open, p, q))
    ensures Elements(calls + SideCall(open, p, q)) == Elements(calls) + Side(open, p, q)
  {
    hide Represents;
    hide InOrder;
    out, order := before, order0;
    if open {
      AddRepresents(out, Elements(calls), p, q);
      AddInOrder(out, order, calls, p, q);
      order := AddKey(order, out, p);
      out := AddEdge(out, p, q);
      assert Elements(calls + [Edge(p, q)]) == Elements(calls) + {Edge(p, q)};
    } else {
      assert calls + SideCall(open, p, q) == calls;
    }
  }

  lemma NewSides(m: Pixels, done: Pixels, p: Point)
    requires done <= m && p in m && p !in done
    ensures BoundaryOf(m, done + {p}) == BoundaryOf(m, done) + Sides(m, p) && BoundaryOf(m, done) !! Sides(m, p)
  {
    forall e | e in Sides(m, p) ensures e !in BoundaryOf(m, done) {
      SideDivides(m, p, e);
      BoundaryDivides(m, done, e);
    }
  }

  lemma PixelAt(mask: seq<seq<bool>>, width: nat, x: int, y: int)
    requires Rectangular(mask, width)
    ensures Point(x, y) in PixelsOf(mask, width) <==> 0 <= y < |mask| && 0 <= x < width && mask[y][x]
  {
  }

  /** The four sides of one set pixel. */
  method AddPixel(
      mask: seq<seq<bool>>, width: nat, x: nat, y: nat, before: Outgoing, order0: seq<Point>, ghost calls: seq<Edge>, ghost done: Pixels)
    returns (out: Outgoing, order: seq<Point>)
    requires Rectangular(mask, width) && y < |mask| && x < width && mask[y][x]
    requires done <= PixelsOf(mask, width) && Point(x, y) !in done
    requires Built(before, order0, calls) && Elements(calls) == BoundaryOf(PixelsOf(mask, width), done)
    ensures var m, more := PixelsOf(mask, width), calls + PixelCalls(PixelsOf(mask, width), x, y);
            Built(out, order, more) && Elements(more) == BoundaryOf(m, done + {Point(x, y)})
  {
    hide *;
    ghost var m, es := PixelsOf(mask, width), BoundaryOf(PixelsOf(mask, width), done);
    var up, right := y == 0 || !MaskAt(mask, width, x, y - 1), x == width - 1 || !MaskAt(mask, width, x + 1, y);
    var down, left := y == |mask| - 1 || !MaskAt(mask, width, x, y + 1), x == 0 || !MaskAt(mask, width, x - 1, y);
    PixelNeighbours(mask, width, x, y);
    SidesApart(m, done, x, y, up, right, down, left);
    ghost var a, b := SideCall(up, Point(x, y), Point(x + 1, y)), SideCall(right, Point(x + 1, y), Point(x + 1, y + 1));
    ghost var c, d := SideCall(down, Point(x + 1, y + 1), Point(x, y + 1)), SideCall(left, Point(x, y + 1), Point(x, y));
    out, order := AddSide(up, Point(x, y), Point(x + 1, y), before, order0, calls);
    out, order := AddSide(right, Point(x + 1, y), Point(x + 1, y + 1), out, order, calls + a);
    out, order := AddSide(down, Point(x + 1, y + 1), Point(x, y + 1), out, order, calls + a + b);
    out, order := AddSide(left, Point(x, y + 1), Point(x, y), out, order, calls + a + b + c);
    FourCalls(m, x, y, up, right, down, left);
    assert calls + a + b + c + d == calls + (a + b + c + d);
  }

  lemma FourCalls(m: Pixels, x: int, y: int, up: bool, right: bool, down: bool, left: bool)
    requires up == (Point(x, y - 1) !in m) && right == (Point(x + 1, y) !in m)
    requires down == (Point(x, y + 1) !in m) && left == (Point(x - 1, y) !in m)
    ensures PixelCalls(m, x, y) ==
              SideCall(up, Point(x, y), Point(x + 1, y)) + SideCall(right, Point(x + 1, y), Point(x + 1, y + 1)) +
              SideCall(down, Point(x + 1, y + 1), Point(x, y + 1)) + SideCall(left, Point(x, y + 1), Point(x, y))
  {
  }

  /** mask[y, x], where it exists. */
  predicate MaskAt(mask: seq<seq<bool>>, width: nat, x: int, y: int)
    requires Rectangular(mask, width) && 0 <= y < |mask| && 0 <= x < width
  {
    mask[y][x]
  }

  lemma PixelNeighbours(mask: seq<seq<bool>>, width: nat, x: nat, y: nat)
    requires Rectangular(mask, width) && y < |mask| && x < width && mask[y][x]
    ensures var m := PixelsOf(mask, width);
            && Point(x, y) in m
            && (y == 0 || !MaskAt(mask, width, x, y - 1)) == (Point(x, y - 1) !in m)
            && (x == width - 1 || !MaskAt(mask, width, x + 1, y)) == (Point(x + 1, y) !in m)
            && (y == |mask| - 1 || !MaskAt(mask, width, x, y + 1)) == (Point(x, y + 1) !in m)
            && (x == 0 || !MaskAt(mask, width, x - 1, y)) == (Point(x - 1, y) !in m)
  {
    hide PixelsOf;
    PixelAt(mask, width, x, y);
    PixelAt(mask, width, x, y - 1);
    PixelAt(mask, width, x + 1, y);
    PixelAt(mask, width, x, y + 1);
    PixelAt(mask, width, x - 1, y);
  }

  lemma SidesApart(m: Pixels, done: Pixels, x: int, y: int, up: bool, right: bool, down: bool, left: bool)
    requires done <= m && Point(x, y) in m && Point(x, y) !in done
    requires up == (Point(x, y - 1) !in m) && right == (Point(x + 1, y) !in m)
    requires down == (Point(x, y + 1) !in m) && left == (Point(x - 1, y) !in m)
    ensures var es := BoundaryOf(m, done);
            var a, b := Side(up, Point(x, y), Point(x + 1, y)), Side(right, Point(x + 1, y), Point(x + 1, y + 1));
            var c, d := Side(down, Point(x + 1, y + 1), Point(x, y + 1)), Side(left, Point(x, y + 1), Point(x, y));
            && (up ==> Edge(Point(x, y), Point(x + 1, y)) !in es)
            && (right ==> Edge(Point(x + 1, y), Point(x + 1, y + 1)) !in es + a)
            && (down ==> Edge(Point(x + 1, y + 1), Point(x, y + 1)) !in es + a + b)
            && (left ==> Edge(Point(x, y + 1), Point(x, y)) !in es + a + b + c)
            && es + a + b + c + d == BoundaryOf(m, done + {Point(x, y)})
  {
    NewSides(m, done, Point(x, y));
    assert Sides(m, Point(x, y)) ==
      Side(up, Point(x, y), Point(x + 1, y)) + Side(right, Point(x + 1, y), Point(x + 1, y + 1)) +
      Side(down, Point(x + 1, y + 1), Point(x, y + 1)) + Side(left, Point(x, y + 1), Point(x, y));
    hide *;
    FourApart(BoundaryOf(m, done), up, right, down, left,
              Edge(Point(x, y), Point(x + 1, y)), Edge(Point(x + 1, y), Point(x + 1, y + 1)),
              Edge(Point(x + 1, y + 1), Point(x, y + 1)), Edge(Point(x, y + 1), Point(x, y)));
  }

  lemma FourApart(es: set<Edge>, up: bool, right: bool, down: bool, left: bool, e: Edge, f: Edge, g: Edge, h: Edge)
    requires e != f && e != g && e != h && f != g && f != h && g != h
    requires es !! Side(up, e.source, e.target) + Side(right, f.source, f.target) + Side(down, g.source, g.target) + Side(left, h.source, h.target)
    ensures var a, b := Side(up, e.source, e.target), Side(right, f.source, f.target);
            var c, d := Side(down, g.source, g.target), Side(left, h.source, h.target);
            && (up ==> e !in es) && (right ==> f !in es + a) && (down ==> g !in es + a + b) && (left ==> h !in es + a + b + c)
            && es + a + b + c + d == es + (a + b + c + d)
  {
    var a, b := Side(up, e.source, e.target), Side(right, f.source, f.target);
    var c, d := Side(down, g.source, g.target), Side(left, h.source, h.target);
    assert (up ==> e in a) && (right ==> f in b) && (down ==> g in c) && (left ==> h in d);
    assert a <= {e} && b <= {f} && c <= {g};
  }

  /** Every boundary edge of the mask, filed under the point it leaves, keys and lists in the order of the scan. */
  method MaskEdges(mask: seq<seq<bool>>, width: nat) returns (out: Outgoing, order: seq<Point>)
    requires Rectangular(mask, width)
    ensures Built(out, order, Calls(mask, width)) && Elements(Calls(mask, width)) == Boundary(PixelsOf(mask, width))
  {
    hide Built;
    hide BoundaryOf;
    hide PixelCalls;
    hide Elements;
    ghost var m := PixelsOf(mask, width);
    out, order := map[], [];
    NothingBuilt(mask, width);
    for y := 0 to |mask|
      invariant Built(out, order, CallsTo(mask, width, 0, y))
      invariant Elements(CallsTo(mask, width, 0, y)) == BoundaryOf(m, PixelsTo(mask, width, 0, y))
    {
      for x := 0 to width
        invariant Built(out, order, CallsTo(mask, width, x, y))
        invariant Elements(CallsTo(mask, width, x, y)) == BoundaryOf(m, PixelsTo(mask, width, x, y))
      {
        ghost var done := PixelsTo(mask, width, x, y);
        if mask[y][x] {
          out, order := AddPixel(mask, width, x, y, out, order, CallsTo(mask, width, x, y), done);
          assert PixelsTo(mask, width, x + 1, y) == done + {Point(x, y)};
        } else {
          assert PixelsTo(mask, width, x + 1, y) == done;
          assert CallsTo(mask, width, x + 1, y) == CallsTo(mask, width, x, y);
        }
      }
      assert PixelsTo(mask, width, 0, y + 1) == PixelsTo(mask, width, width, y);
    }
  }

  lemma NothingBuilt(mask: seq<seq<bool>>, width: nat)
    requires Rectangular(mask, width)
    ensures Built(map[], [], []) && CallsTo(mask, width, 0, 0) == []
    ensures Elements(CallsTo(mask, width, 0, 0)) == BoundaryOf(PixelsOf(mask, width), PixelsTo(mask, width, 0, 0))
  {
    assert PixelsTo(mask, width, 0, 0) == {};
  }

  // ----- one walk

  /** One more edge at the end of an open path. */
  lemma PathGrows(es: set<Edge>, w: Walk, q: Point)
    requires Path(es, w) && !Closed(w) && Edge(w[|w| - 1], q) in es - EdgesOf(w)
    ensures Path(es, w + [q]) && EdgesOf(w + [q]) == EdgesOf(w) + {Edge(w[|w| - 1], q)}
  {
    var e := Edge(w[|w| - 1], q);
    assert Steps(w + [q]) == Steps(w) + [e];
    forall i, j | 0 <= i < j < |Steps(w + [q])| ensures Steps(w + [q])[i] != Steps(w + [q])[j] {
      assert Steps(w + [q])[i] == Steps(w)[i] && Steps(w)[i] in EdgesOf(w);
    }
  }

  lemma PathStarts(es: set<Edge>, p: Point)
    ensures Path(es, [p]) && EdgesOf([p]) == {}
  {
    assert Steps([p]) == [];
  }

  lemma NothingFiled(out: Outgoing, es: set<Edge>, w: Walk)
    requires |w| >= 1 && Represents(out, es - EdgesOf(w))
    requires w[|w| - 1] in out ==> out[w[|w| - 1]] == []
    ensures Stalled(es, w)
  {
    forall e | e in es && e.source == w[|w| - 1] ensures e in EdgesOf(w) {
      assert e == Edge(e.source, e.target);
    }
  }

  lemma NothingPopped(calls: seq<Edge>, es: set<Edge>, p: Point)
    ensures PopsLast(calls, es, [p])
  {
  }

  lemma PopsNext(out: Outgoing, order: seq<Point>, calls: seq<Edge>, es: set<Edge>, w: Walk)
    requires |w| >= 1 && PopsLast(calls, es, w) && InOrder(out, order, calls, es - EdgesOf(w))
    requires w[|w| - 1] in out && out[w[|w| - 1]] != []
    ensures var f := out[w[|w| - 1]]; PopsLast(calls, es, w + [f[|f| - 1]])
  {
    hide EdgesOf;
    hide Filed;
    var n, p := |w| - 1, w[|w| - 1];
    var v := w + [out[p][|out[p]| - 1]];
    assert Get(out, p) == Filed(calls, es - EdgesOf(w), p);
    forall i | 0 <= i < |v| - 1 ensures TakesLast(calls, es - EdgesOf(v[..i + 1]), v[i], v[i + 1]) {
      if i < n {
        assert v[..i + 1] == w[..i + 1];
        assert TakesLast(calls, es - EdgesOf(w[..i + 1]), w[i], w[i + 1]);
      } else {
        assert v[..i + 1] == w;
      }
    }
  }

  /** The inner loop: follow the last edge filed under each point until the walk closes, stalls or is cut. */
  method WalkOnce(start: Point, before: Outgoing, edgeCount: nat, ghost es: set<Edge>, ghost order: seq<Point>, ghost calls: seq<Edge>)
    returns (w: Walk, out: Outgoing, count: nat)
    requires Represents(before, es) && InOrder(before, order, calls, es)
    requires edgeCount == |es| && start in before && before[start] != []
    ensures Walks(es, w) && PopsLast(calls, es, w) && w[0] == start
    ensures Represents(out, es - EdgesOf(w)) && InOrder(out, order, calls, es - EdgesOf(w)) && count == |es - EdgesOf(w)|
  {
    hide Represents;
    hide InOrder;
    hide PopsLast;
    hide Path;
    hide EdgesOf;
    hide Stalled;
    var current, guard := start, 0;
    w, out, count := [start], before, edgeCount;
    PathStarts(es, start);
    NothingPopped(calls, es, start);
    ghost var left := es;
    while guard <= count + 4
      invariant Path(es, w) && !Closed(w) && |w| == guard + 1 && w[0] == start && w[guard] == current
      invariant left == es - EdgesOf(w) && count == |left| && guard + count == |es|
      invariant Represents(out, left) && InOrder(out, order, calls, left) && PopsLast(calls, es, w)
      invariant guard == 0 ==> out == before
      invariant guard > 0 ==> Allowed(es, w)
      decreases count
    {
      guard := guard + 1;
      if current !in out || out[current] == [] {
        NothingFiled(out, es, w);
        return;
      }
      var next := out[current][|out[current]| - 1];
      PopRepresents(out, left, current);
      PopInOrder(out, order, calls, left, current);
      PopsNext(out, order, calls, es, w);
      PathGrows(es, w, next);
      left := left - {Edge(current, next)};
      out := out[current := out[current][..|out[current]| - 1]];
      count := count - 1;
      current := next;
      w := w + [next];
      assert left == es - EdgesOf(w);
      if current == start {
        return;
      }
    }
  }

  // ----- all walks

  /** sum(len(values) for values in outgoing.values()) is the number of edges. */
  method CountEdges(out: Outgoing, ghost es: set<Edge>) returns (n: nat)
    requires Represents(out, es)
    ensures n == |es|
  {
    var keys := out.Keys;
    ghost var counted: set<Edge> := {};
    n := 0;
    while keys != {}
      invariant keys <= out.Keys && counted == (set e | e in es && e.source !in keys) && n == |counted|
      decreases keys
    {
      var p :| p in keys;
      ghost var more := set q | q in out[p] :: Edge(p, q);
      FiledUnder(out, es, p);
      assert counted !! more;
      assert (set e | e in es && e.source !in keys - {p}) == counted + more;
      n := n + |out[p]|;
      keys := keys - {p};
      counted := counted + more;
    }
    FiledSomewhere(out, es);
    assert counted == es;
  }

  lemma FiledSomewhere(out: Outgoing, es: set<Edge>)
    requires Represents(out, es)
    ensures forall e | e in es :: e.source in out && out[e.source] != []
  {
    forall e | e in es ensures e.source in out && out[e.source] != [] { assert e == Edge(e.source, e.target); }
  }

  lemma FiledUnder(out: Outgoing, es: set<Edge>, p: Point)
    requires Represents(out, es) && p in out
    ensures (set q | q in out[p] :: Edge(p, q)) == (set e | e in es && e.source == p)
    ensures |set q | q in out[p] :: Edge(p, q)| == |out[p]|
  {
    var targets := out[p];
    var filed := seq(|targets|, i requires 0 <= i < |targets| => Edge(p, targets[i]));
    ElementsFit(filed);
    forall q | q in targets ensures Edge(p, q) in filed {
      var i :| 0 <= i < |targets| && targets[i] == q;
      assert filed[i] == Edge(p, q);
    }
    assert Elements(filed) == set q | q in out[p] :: Edge(p, q);
    forall e | e in es && e.source == p ensures e.target in targets { assert e == Edge(p, e.target); }
  }

  /** next(point for point, values in outgoing.items() if values). */
  method FirstKey(out: Outgoing, order: seq<Point>, ghost calls: seq<Edge>, ghost es: set<Edge>) returns (p: Point)
    requires Represents(out, es) && InOrder(out, order, calls, es) && es != {}
    ensures StartsFirst(calls, es, p) && p in out && out[p] != []
  {
    hide Filed;
    hide FirstSeen;
    FiledSomewhere(out, es);
    ghost var e :| e in es;
    assert e.source in out && e.source in order;
    var i := 0;
    while out[order[i]] == []
      invariant i < |order| && order[i] in out
      invariant forall j | 0 <= j < i :: Filed(calls, es, order[j]) == []
      invariant exists k | i <= k < |order| :: order[k] == e.source
      decreases |order| - i
    {
      assert Get(out, order[i]) == Filed(calls, es, order[i]);
      i := i + 1;
      assert order[i] in order;
    }
    p := order[i];
    assert Get(out, p) == Filed(calls, es, p);
    assert FirstOpen(calls, es, p, i);
  }

  /** Whatever finishes the edges left finishes the whole trace. */
  ghost predicate Continues(calls: seq<Edge>, all: set<Edge>, walks: seq<Walk>, left: set<Edge>) {
    forall rest | TracesAs(calls, left, rest) :: TracesAs(calls, all, walks + rest)
  }

  lemma ContinuesFromStart(calls: seq<Edge>, all: set<Edge>)
    ensures Continues(calls, all, [], all)
  {
    assert forall rest: seq<Walk> :: [] + rest == rest;
  }

  lemma ContinuesToEnd(calls: seq<Edge>, all: set<Edge>, walks: seq<Walk>)
    requires Continues(calls, all, walks, {})
    ensures TracesAs(calls, all, walks)
  {
    assert TracesAs(calls, {}, []);
    assert walks + [] == walks;
  }

  lemma KeptGrows(walks: seq<Walk>, w: Walk)
    ensures Kept(walks + [w]) == Kept(walks) + if |w| >= 5 && Closed(w) then [w] else []
  {
    assert (walks + [w])[..|walks|] == walks;
  }

  lemma ContinuesWith(calls: seq<Edge>, all: set<Edge>, walks: seq<Walk>, left: set<Edge>, w: Walk)
    requires Continues(calls, all, walks, left) && WalksAs(calls, left, w)
    ensures Continues(calls, all, walks + [w], left - EdgesOf(w))
    ensures |left - EdgesOf(w)| < |left|
  {
    hide WalksAs;
    hide EdgesOf;
    forall rest | TracesAs(calls, left - EdgesOf(w), rest) ensures TracesAs(calls, all, walks + [w] + rest) {
      assert ([w] + rest)[1..] == rest;
      assert TracesAs(calls, left, [w] + rest);
      assert walks + [w] + rest == walks + ([w] + rest);
    }
    WalkShrinks(calls, left, w);
  }

  lemma WalkShrinks(calls: seq<Edge>, left: set<Edge>, w: Walk)
    requires WalksAs(calls, left, w)
    ensures |left - EdgesOf(w)| < |left|
  {
    StepsCount(w);
    PartIsSmaller(left - EdgesOf(w), left);
  }

  /** The trace the source makes of a mask, and what it keeps of it. */
  ghost predicate Yields(mask: seq<seq<bool>>, width: nat, walks: seq<Walk>, kept: seq<Walk>)
    requires Rectangular(mask, width)
  {
    TracesAs(Calls(mask, width), Boundary(PixelsOf(mask, width)), walks) && kept == Kept(walks)
  }

  /** mask_to_loops up to the simplification of each kept loop. */
  method MaskToLoops(mask: seq<seq<bool>>, width: nat) returns (kept: seq<Walk>)
    requires Rectangular(mask, width)
    ensures exists walks :: Yields(mask, width, walks, kept)
  {
    hide Represents;
    hide InOrder;
    hide Walks;
    hide EdgesOf;
    hide Boundary;
    hide PixelsOf;
    hide Calls;
    hide Elements;
    hide StartsFirst;
    hide PopsLast;
    hide Kept;
    hide Continues;
    hide TracesAs;
    hide Closed;
    ghost var all, calls := Boundary(PixelsOf(mask, width)), Calls(mask, width);
    ghost var es := all;
    var out, order := MaskEdges(mask, width);
    var count := CountEdges(out, es);
    kept := [];
    ghost var walks: seq<Walk> := [];  // the discarded walks too
    ContinuesFromStart(calls, all);
    NothingKeptYet();
    while count > 0
      invariant Represents(out, es) && InOrder(out, order, calls, es) && count == |es|
      invariant Continues(calls, all, walks, es)
      invariant kept == Kept(walks)
      decreases count
    {
      var start := FirstKey(out, order, calls, es);
      var w;
      w, out, count := WalkOnce(start, out, count, es, order, calls);
      ContinuesWith(calls, all, walks, es, w);
      es := es - EdgesOf(w);
      KeptGrows(walks, w);
      walks := walks + [w];
      if |w| >= 5 && Closed(w) { kept := kept + [w]; }
    }
    ContinuesToEnd(calls, all, walks);
    assert Yields(mask, width, walks, kept);
  }

  lemma NothingKeptYet()
    ensures Kept([]) == []
  {
  }

  /** What MaskToLoops returns is a function of the mask, and comes from a trace every result about traces applies to. */
  lemma YieldIsDetermined(mask: seq<seq<bool>>, width: nat, a: seq<Walk>, b: seq<Walk>, kept: seq<Walk>, other: seq<Walk>)
    requires Rectangular(mask, width) && Yields(mask, width, a, kept) && Yields(mask, width, b, other)
    ensures kept == other && Traces(Boundary(PixelsOf(mask, width)), a)
  {
    hide Kept;
    hide TracesAs;
    TraceIsDetermined(Calls(mask, width), Boundary(PixelsOf(mask, width)), a, b);
    TracesAsTraces(Calls(mask, width), Boundary(PixelsOf(mask, width)), a);
  }
}
