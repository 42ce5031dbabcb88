/**
 Walking the segment graph of a contour into closed loops
 (tools/build_hamlaneh_logo_kit.py, the second half of marching_squares).

 The walk works on any node type. Its correctness rests on the graph being
 2-regular and simple; the next module proves that of marching squares.
 */
module LoopTracing {
  import opened Sequences

  /** An undirected edge, as the sorted pair `edge_key` builds. */
  function Link<N>(a: N, b: N): set<N> { {a, b} }

  lemma LinkEq<N>(a: N, b: N, c: N, d: N)
    ensures Link(a, b) == Link(c, d) <==> (a == c && b == d) || (a == d && b == c)
  {
    if Link(a, b) == Link(c, d) {
      assert a in Link(c, d) && b in Link(c, d);
      assert c in Link(a, b) && d in Link(a, b);
    }
  }

  /** n has exactly two neighbours, neither itself nor each other, and adjacency is mutual. */
  ghost predicate Regular<N(!new)>(g: map<N, seq<N>>, n: N) {
    && n in g && |g[n]| == 2 && g[n][0] != g[n][1]
    && forall m | m in g[n] :: m != n && m in g && n in g[m]
  }

  ghost predicate TwoRegular<N(!new)>(g: map<N, seq<N>>) {
    forall n {:trigger Regular(g, n)} :: n in g ==> Regular(g, n)
  }

  ghost function Edges<N(!new)>(g: map<N, seq<N>>): set<set<N>> {
    set n, m | n in g && m in g[n] :: Link(n, m)
  }

  /** n has both of its edges visited, or neither. */
  ghost predicate Balanced<N(!new)>(g: map<N, seq<N>>, visited: set<set<N>>, n: N) {
    Regular(g, n) && (Link(n, g[n][0]) in visited <==> Link(n, g[n][1]) in visited)
  }

  /** Of n's two edges exactly the one to m is visited. */
  ghost predicate Half<N(!new)>(g: map<N, seq<N>>, visited: set<set<N>>, n: N, m: N) {
    && Regular(g, n) && m in g[n]
    && Link(n, m) in visited && Link(n, Other(g[n], m)) !in visited
  }

  /** No edge is half walked. */
  ghost predicate Settled<N(!new)>(g: map<N, seq<N>>, visited: set<set<N>>) {
    SettledBut(g, visited, {})
  }

  ghost predicate SettledBut<N(!new)>(g: map<N, seq<N>>, visited: set<set<N>>, except: set<N>) {
    forall n {:trigger Balanced(g, visited, n)} :: n in g && n !in except ==> Balanced(g, visited, n)
  }

  function Other<N(==)>(ns: seq<N>, m: N): N
    requires |ns| == 2
  {
    if ns[0] == m then ns[1] else ns[0]
  }

  // ----- paths and the edges they use

  function PathLinks<N>(path: seq<N>): seq<set<N>>
    decreases |path|
  {
    if |path| < 2 then [] else PathLinks(path[..|path| - 1]) + [Link(path[|path| - 2], path[|path| - 1])]
  }

  lemma {:induction false} PathLinksLength<N>(path: seq<N>)
    requires |path| >= 1
    ensures |PathLinks(path)| == |path| - 1
  {
    if |path| >= 2 { PathLinksLength(path[..|path| - 1]); }
  }

  ghost predicate IsPath<N(!new)>(g: map<N, seq<N>>, path: seq<N>) {
    && (forall i | 0 <= i < |path| :: path[i] in g)
    && (forall i | 0 <= i < |path| - 1 :: path[i + 1] in g[path[i]])
  }

  lemma {:induction false} PathLinksAreEdges<N(!new)>(g: map<N, seq<N>>, path: seq<N>)
    requires IsPath(g, path)
    ensures Elements(PathLinks(path)) <= Edges(g)
  {
    if |path| >= 2 {
      PathLinksAreEdges(g, path[..|path| - 1]);
      var a, b := path[|path| - 2], path[|path| - 1];
      assert path[|path| - 2 + 1] in g[path[|path| - 2]];
      assert Link(a, b) in Edges(g);
    }
  }

  /** The state of a walk that started along start-first and now stands on `current`, come from `previous`. */
  ghost predicate Walking<N(!new)>(g: map<N, seq<N>>, visited: set<set<N>>, start: N, first: N, previous: N, current: N) {
    if current == start then Settled(g, visited)
    else
      && Half(g, visited, start, first) && Half(g, visited, current, previous)
      && SettledBut(g, visited, {start, current})
  }

  /** Adding the edge a-b changes nothing at any other node. */
  lemma AddLink<N(!new)>(g: map<N, seq<N>>, visited: set<set<N>>, a: N, b: N, except: set<N>)
    requires TwoRegular(g) && SettledBut(g, visited, except) && a in except && b in except
    ensures SettledBut(g, visited + {Link(a, b)}, except)
  {
    var v := visited + {Link(a, b)};
    forall n | n in g && n !in except ensures Balanced(g, v, n) {
      assert Balanced(g, visited, n);
      LinkEq(n, g[n][0], a, b);
      LinkEq(n, g[n][1], a, b);
    }
  }

  /** Visiting one edge of an untouched node leaves it half visited. */
  lemma TouchNode<N(!new)>(g: map<N, seq<N>>, visited: set<set<N>>, n: N, m: N)
    requires Balanced(g, visited, n) && m in g[n] && Link(n, m) !in visited
    ensures Half(g, visited + {Link(n, m)}, n, m)
  {
    LinkEq(n, Other(g[n], m), n, m);
  }

  /** Visiting the second edge of a half visited node balances it. */
  lemma FinishNode<N(!new)>(g: map<N, seq<N>>, visited: set<set<N>>, n: N, m: N)
    requires Half(g, visited, n, m)
    ensures Balanced(g, visited + {Link(n, Other(g[n], m))}, n)
  {
  }

  lemma LinkSym<N>(a: N, b: N)
    ensures Link(a, b) == Link(b, a)
  {
  }

  /** Taking an unvisited first edge of a settled graph puts the walk in its state. */
  lemma StartWalk<N(!new)>(g: map<N, seq<N>>, visited: set<set<N>>, start: N, first: N)
    requires TwoRegular(g) && Settled(g, visited)
    requires start in g && first in g[start] && Link(start, first) !in visited
    ensures first in g && first != start
    ensures Walking(g, visited + {Link(start, first)}, start, first, start, first)
  {
    assert Regular(g, start);
    assert Balanced(g, visited, start) && Balanced(g, visited, first);
    LinkSym(start, first);
    TouchNode(g, visited, start, first);
    TouchNode(g, visited, first, start);
    AddLink(g, visited, start, first, {start, first});
  }

  /** One step: the other neighbour is reachable over an unvisited edge, and the state is kept. */
  lemma StepWalk<N(!new)>(g: map<N, seq<N>>, visited: set<set<N>>, start: N, first: N, previous: N, current: N)
    requires TwoRegular(g) && Walking(g, visited, start, first, previous, current) && current != start
    ensures Regular(g, current)
    ensures var q := Other(g[current], previous);
            && q in g[current] && q in g && q != previous && Link(current, q) !in visited
            && Walking(g, visited + {Link(current, q)}, start, first, current, q)
  {
    var q := Other(g[current], previous);
    var v := visited + {Link(current, q)};
    LinkSym(current, q);
    assert Regular(g, q);
    FinishNode(g, visited, current, previous);
    AddLink(g, visited, current, q, {start, current, q});
    if q == start {
      assert current == Other(g[start], first);
      FinishNode(g, visited, start, first);
      forall n | n in g ensures Balanced(g, v, n) {}
    } else {
      assert Balanced(g, visited, q);
      TouchNode(g, visited, q, current);
      LinkEq(start, first, current, q);
      LinkEq(start, Other(g[start], first), current, q);
      forall n | n in g && n !in {start, q} ensures Balanced(g, v, n) {}
    }
  }

  // ----- the walk itself

  /** The neighbours a walk may continue to. */
  function Candidates<N(==)>(options: seq<N>, current: N, previous: N, visited: set<set<N>>): seq<N> {
    if options == [] then []
    else
      (if options[0] != previous && Link(current, options[0]) !in visited then [options[0]] else [])
      + Candidates(options[1..], current, previous, visited)
  }

  lemma OneCandidate<N(!new)>(options: seq<N>, current: N, previous: N, visited: set<set<N>>)
    requires |options| == 2 && options[0] != options[1] && previous in options
    requires Link(current, Other(options, previous)) !in visited
    ensures Candidates(options, current, previous, visited) == [Other(options, previous)]
  {
    var tail := options[1..];
    assert tail[1..] == [];
    assert Candidates(tail[1..], current, previous, visited) == [];
    assert tail[0] == options[1];
  }

  /** `path` is a trail of g that uses only edges outside `before`, each once, and `visited` records them. */
  ghost predicate Trail<N(!new)>(g: map<N, seq<N>>, before: set<set<N>>, visited: set<set<N>>, path: seq<N>) {
    && IsPath(g, path) && Distinct(PathLinks(path))
    && (forall e | e in PathLinks(path) :: e !in before)
    && visited == before + Elements(PathLinks(path))
  }

  lemma ExtendTrail<N(!new)>(g: map<N, seq<N>>, before: set<set<N>>, visited: set<set<N>>, path: seq<N>, q: N)
    requires Trail(g, before, visited, path) && |path| >= 1
    requires q in g && q in g[path[|path| - 1]] && Link(path[|path| - 1], q) !in visited
    ensures Trail(g, before, visited + {Link(path[|path| - 1], q)}, path + [q])
    ensures PathLinks(path + [q]) == PathLinks(path) + [Link(path[|path| - 1], q)]
  {
    hide Link;
    var links, e := PathLinks(path), Link(path[|path| - 1], q);
    assert (path + [q])[..|path|] == path;
    assert PathLinks(path + [q]) == links + [e];
    ExtendPath(g, path, q);
    hide PathLinks;
    hide IsPath;
    DistinctSnoc(links, e);
    hide Distinct;
    assert visited + {e} == before + Elements(links + [e]);
  }

  lemma ExtendPath<N(!new)>(g: map<N, seq<N>>, path: seq<N>, q: N)
    requires IsPath(g, path) && |path| >= 1 && q in g && path[|path| - 1] in g && q in g[path[|path| - 1]]
    ensures IsPath(g, path + [q])
  {
  }

  /** A trail never has more edges than the graph. */
  lemma TrailFits<N(!new)>(g: map<N, seq<N>>, before: set<set<N>>, visited: set<set<N>>, path: seq<N>)
    requires Trail(g, before, visited, path) && |path| >= 1
    ensures |path| - 1 <= |Edges(g)|
  {
    PathLinksAreEdges(g, path);
    PathLinksLength(path);
    DistinctFits(PathLinks(path), Edges(g));
  }

  ghost predicate Closed<N>(loop: seq<N>) { |loop| >= 4 && loop[0] == loop[|loop| - 1] }

  /** Back at its start a trail has at least three edges: two would be the same edge twice. */
  lemma ClosedTrail<N(!new)>(g: map<N, seq<N>>, before: set<set<N>>, visited: set<set<N>>, path: seq<N>)
    requires TwoRegular(g) && Trail(g, before, visited, path)
    requires |path| >= 2 && path[0] == path[|path| - 1]
    ensures Closed(path)
  {
    assert Regular(g, path[0]);
    assert path[0 + 1] in g[path[0]];
    if |path| == 3 {
      LinkSym(path[0], path[1]);
      TwoLinks(path);
    }
  }

  lemma TwoLinks<N>(path: seq<N>)
    requires |path| == 3
    ensures |PathLinks(path)| == 2
    ensures PathLinks(path)[0] == Link(path[0], path[1]) && PathLinks(path)[1] == Link(path[1], path[2])
  {
    assert path[..2][..1] == [path[0]];
    assert PathLinks(path[..2]) == [Link(path[0], path[1])];
  }

  /** One traced loop: the bounded inner `for` of marching_squares. */
  method Walk<N(==, !new)>(g: map<N, seq<N>>, segmentCount: nat, start: N, first: N, before: set<set<N>>)
    returns (loop: seq<N>, visited: set<set<N>>)
    requires TwoRegular(g) && |Edges(g)| <= segmentCount
    requires Settled(g, before) && start in g && first in g[start] && Link(start, first) !in before
    ensures Closed(loop) && loop[0] == start && loop[1] == first
    ensures Trail(g, before, visited, loop) && Settled(g, visited)
  {
    loop := [start];
    var previous, current := start, first;
    visited := before + {Link(start, first)};
    StartWalk(g, before, start, first);
    assert Trail(g, before, before, [start]);
    ExtendTrail(g, before, before, [start], first);
    var k := 0;
    while k < segmentCount + 4
      invariant k <= segmentCount + 4 && |loop| == k + 1
      invariant current in g && loop[0] == start && (loop + [current])[1] == first
      invariant previous == loop[|loop| - 1]
      invariant Trail(g, before, visited, loop + [current])
      invariant Walking(g, visited, start, first, previous, current)
    {
      k := k + 1;
      TrailFits(g, before, visited, loop + [current]);
      loop := loop + [current];
      if current == start {
        ClosedTrail(g, before, visited, loop);
        return;
      }
      StepWalk(g, visited, start, first, previous, current);
      OneCandidate(g[current], current, previous, visited);
      var candidates := Candidates(g[current], current, previous, visited);
      if |candidates| == 0 {
        assert false;
      }
      var following := candidates[0];
      ExtendTrail(g, before, visited, loop, following);
      visited := visited + {Link(current, following)};
      previous, current := current, following;
    }
    TrailFits(g, before, visited, loop + [current]);
    assert false;
  }

  // ----- every loop of the graph

  function AllLinks<N>(loops: seq<seq<N>>): seq<set<N>> {
    if loops == [] then [] else AllLinks(loops[..|loops| - 1]) + PathLinks(loops[|loops| - 1])
  }

  /** The loops traced so far use each visited edge exactly once. */
  ghost predicate Traced<N(!new)>(g: map<N, seq<N>>, visited: set<set<N>>, loops: seq<seq<N>>) {
    && Settled(g, visited)
    && (forall i | 0 <= i < |loops| :: Closed(loops[i]) && IsPath(g, loops[i]))
    && Distinct(AllLinks(loops)) && Elements(AllLinks(loops)) == visited
  }

  lemma NothingTraced<N(!new)>(g: map<N, seq<N>>)
    requires TwoRegular(g)
    ensures Traced(g, {}, [])
  {
  }

  lemma AddLoop<N(!new)>(g: map<N, seq<N>>, before: set<set<N>>, visited: set<set<N>>, loops: seq<seq<N>>, loop: seq<N>)
    requires Traced(g, before, loops) && Trail(g, before, visited, loop) && Closed(loop) && Settled(g, visited)
    ensures Traced(g, visited, loops + [loop])
    ensures before <= visited && Link(loop[0], loop[1]) in visited
  {
    FirstLink(loop);
    var more := loops + [loop];
    assert more[..|loops|] == loops;
    var a, b := AllLinks(loops), PathLinks(loop);
    assert AllLinks(more) == a + b;
    forall i, j | 0 <= i < j < |a + b| ensures (a + b)[i] != (a + b)[j] {
      if i < |a| <= j {
        assert a[i] in Elements(a) && b[j - |a|] in b;
      }
    }
    forall e ensures e in Elements(a + b) <==> e in visited {
      assert e in Elements(a + b) <==> e in Elements(a) || e in Elements(b);
    }
  }

  /**
   The double loop over `neighbours` of marching_squares, on a 2-regular graph
   whose nodes are listed in `order`: every trace closes, and together the
   traces use every edge of the graph exactly once.
   */
  method TraceLoops<N(==, !new)>(g: map<N, seq<N>>, order: seq<N>, segmentCount: nat)
    returns (loops: seq<seq<N>>)
    requires TwoRegular(g) && |Edges(g)| <= segmentCount
    requires forall n :: n in order <==> n in g
    ensures forall i | 0 <= i < |loops| :: Closed(loops[i]) && IsPath(g, loops[i])
    ensures Distinct(AllLinks(loops)) && Elements(AllLinks(loops)) == Edges(g)
  {
    hide Settled;
    hide Trail;
    hide Closed;
    hide IsPath;
    hide AllLinks;
    hide Distinct;
    var visited: set<set<N>> := {};
    loops := [];
    NothingTraced(g);
    for i := 0 to |order|
      invariant Traced(g, visited, loops)
      invariant forall a | 0 <= a < i :: forall m | m in g[order[a]] :: Link(order[a], m) in visited
    {
      var start := order[i];
      var options := g[start];
      for j := 0 to |options|
        invariant Traced(g, visited, loops)
        invariant forall a | 0 <= a < i :: forall m | m in g[order[a]] :: Link(order[a], m) in visited
        invariant forall b | 0 <= b < j :: Link(start, options[b]) in visited
      {
        var firstStep := options[j];
        if Link(start, firstStep) !in visited {
          var loop, after := Walk(g, segmentCount, start, firstStep, visited);
          AddLoop(g, visited, after, loops, loop);
          visited, loops := after, loops + [loop];
        }
      }
    }
    LoopsWithin(g, loops);
    forall e | e in Edges(g) ensures e in visited {
      var n, m :| n in g && m in g[n] && Link(n, m) == e;
      var a :| 0 <= a < |order| && order[a] == n;
    }
  }

  lemma {:induction false} FirstLink<N(!new)>(path: seq<N>)
    requires |path| >= 2
    ensures Link(path[0], path[1]) in Elements(PathLinks(path))
  {
    if |path| > 2 {
      FirstLink(path[..|path| - 1]);
      assert Link(path[0], path[1]) in PathLinks(path[..|path| - 1]);
    }
  }

  lemma {:induction false} LoopsWithin<N(!new)>(g: map<N, seq<N>>, loops: seq<seq<N>>)
    requires forall i | 0 <= i < |loops| :: IsPath(g, loops[i])
    ensures Elements(AllLinks(loops)) <= Edges(g)
  {
    if loops != [] {
      LoopsWithin(g, loops[..|loops| - 1]);
      PathLinksAreEdges(g, loops[|loops| - 1]);
      forall e | e in AllLinks(loops) ensures e in Edges(g) {
        assert e in Elements(AllLinks(loops[..|loops| - 1])) || e in Elements(PathLinks(loops[|loops| - 1]));
      }
    }
  }

  // ----- from segments to the graph

  function SegmentLinks<N>(segments: seq<(N, N)>): (links: seq<set<N>>)
    ensures |links| == |segments|
    ensures forall i | 0 <= i < |links| :: links[i] == Link(segments[i].0, segments[i].1)
  {
    seq(|segments|, i requires 0 <= i < |segments| => Link(segments[i].0, segments[i].1))
  }

  /** The other ends of the segments at n, in segment order: what `neighbours[n]` collects. */
  function Adjacent<N(==)>(segments: seq<(N, N)>, n: N): seq<N> {
    if segments == [] then []
    else Adjacent(segments[..|segments| - 1], n) + Ends(segments[|segments| - 1], n)
  }

  function Ends<N(==)>(segment: (N, N), n: N): seq<N> {
    (if segment.0 == n then [segment.1] else []) + (if segment.1 == n then [segment.0] else [])
  }

  lemma AdjacentSnoc<N(!new)>(segments: seq<(N, N)>, last: (N, N), n: N)
    ensures Adjacent(segments + [last], n) == Adjacent(segments, n) + Ends(last, n)
  {
    assert (segments + [last])[..|segments|] == segments;
  }

  lemma {:induction false} AdjacentLink<N(!new)>(segments: seq<(N, N)>, n: N, m: N)
    ensures m in Adjacent(segments, n) <==> Link(n, m) in SegmentLinks(segments)
  {
    if segments != [] {
      var front, last := segments[..|segments| - 1], segments[|segments| - 1];
      AdjacentLink(front, n, m);
      LinkEq(n, m, last.0, last.1);
      assert SegmentLinks(segments) == SegmentLinks(front) + [Link(last.0, last.1)];
    }
  }

  lemma {:induction false} AdjacentConcat<N(!new)>(s: seq<(N, N)>, t: seq<(N, N)>, n: N)
    ensures Adjacent(s + t, n) == Adjacent(s, n) + Adjacent(t, n)
  {
    if t == [] {
      assert s + t == s;
    } else {
      assert (s + t)[..|s + t| - 1] == s + t[..|t| - 1];
      AdjacentConcat(s, t[..|t| - 1], n);
    }
  }

  lemma {:induction false} AdjacentNone<N(!new)>(segments: seq<(N, N)>, n: N)
    requires forall s | s in segments :: s.0 != n && s.1 != n
    ensures Adjacent(segments, n) == []
  {
    if segments != [] { AdjacentNone(segments[..|segments| - 1], n); }
  }

  function Renamed<M, N>(segments: seq<(M, M)>, name: M -> N): (r: seq<(N, N)>)
    ensures |r| == |segments|
    ensures forall i | 0 <= i < |r| :: r[i] == (name(segments[i].0), name(segments[i].1))
  {
    seq(|segments|, i requires 0 <= i < |segments| => (name(segments[i].0), name(segments[i].1)))
  }

  function Names<M, N>(ns: seq<M>, name: M -> N): (r: seq<N>)
    ensures |r| == |ns| && forall i | 0 <= i < |r| :: r[i] == name(ns[i])
  {
    seq(|ns|, i requires 0 <= i < |ns| => name(ns[i]))
  }

  /** Renaming nodes by a name that singles out n renames n's neighbours. */
  lemma {:induction false} RenamedAdjacent<M(!new), N(!new)>(segments: seq<(M, M)>, name: M -> N, n: M)
    requires forall s | s in segments :: (name(s.0) == name(n) ==> s.0 == n) && (name(s.1) == name(n) ==> s.1 == n)
    ensures Adjacent(Renamed(segments, name), name(n)) == Names(Adjacent(segments, n), name)
  {
    if segments != [] {
      var front, last := segments[..|segments| - 1], segments[|segments| - 1];
      RenamedAdjacent(front, name, n);
      assert Renamed(segments, name)[..|front|] == Renamed(front, name);
      assert last in segments;
      assert Names(Adjacent(segments, n), name) == Names(Adjacent(front, n), name) + Names(Ends(last, n), name);
    }
  }

  /** A segment listed twice would make a neighbour repeat. */
  lemma {:induction false} RepeatedSegment<N(!new)>(segments: seq<(N, N)>, i: nat, j: nat)
    requires i < j < |segments|
    requires Link(segments[i].0, segments[i].1) == Link(segments[j].0, segments[j].1)
    ensures !Distinct(Adjacent(segments, segments[i].0))
  {
    var front, last := segments[..|segments| - 1], segments[|segments| - 1];
    var a, b := segments[i].0, segments[i].1;
    var before, more := Adjacent(front, a), Ends(last, a);
    assert Adjacent(segments, a) == before + more;
    if j < |front| {
      RepeatedSegment(front, i, j);
      hide Adjacent;
      RepeatsStay(before, more);
    } else {
      AdjacentLink(front, a, b);
      assert SegmentLinks(front)[i] == Link(a, b);
      LinkEq(a, b, last.0, last.1);
      assert b in more;
      hide Adjacent;
      SharedRepeats(before, more, b);
    }
  }

  lemma RepeatsStay<T>(s: seq<T>, t: seq<T>)
    requires !Distinct(s)
    ensures !Distinct(s + t)
  {
    var p, q :| 0 <= p < q < |s| && s[p] == s[q];
    assert (s + t)[p] == (s + t)[q];
  }

  lemma SharedRepeats<T>(s: seq<T>, t: seq<T>, x: T)
    requires x in s && x in t
    ensures !Distinct(s + t)
  {
    var p :| 0 <= p < |s| && s[p] == x;
    var q :| 0 <= q < |t| && t[q] == x;
    assert (s + t)[p] == (s + t)[|s| + q];
  }

  /** In a 2-regular graph the segments are the edges, each listed once. */
  lemma SegmentsAreEdges<N(!new)>(segments: seq<(N, N)>, g: map<N, seq<N>>)
    requires TwoRegular(g)
    requires forall n :: n in g <==> Adjacent(segments, n) != []
    requires forall n | n in g :: g[n] == Adjacent(segments, n)
    ensures Distinct(SegmentLinks(segments)) && Elements(SegmentLinks(segments)) == Edges(g)
  {
    hide Adjacent;
    var links := SegmentLinks(segments);
    forall i, j | 0 <= i < j < |links| ensures links[i] != links[j] {
      AdjacentLink(segments, segments[i].0, segments[i].1);
      assert Regular(g, segments[i].0);
      if links[i] == links[j] { RepeatedSegment(segments, i, j); }
    }
    forall i | 0 <= i < |links| ensures links[i] in Edges(g) {
      AdjacentLink(segments, segments[i].0, segments[i].1);
    }
    forall n, m | n in g && m in g[n] ensures Link(n, m) in links { AdjacentLink(segments, n, m); }
  }

  /** What a dictionary of lists holds at a key, empty when the key is missing. */
  function Get<N(==)>(m: map<N, seq<N>>, n: N): seq<N> { if n in m then m[n] else [] }

  /** A dictionary of non-empty lists and its keys in insertion order. */
  ghost predicate Ordered<N(!new)>(order: seq<N>, m: map<N, seq<N>>) {
    && (forall n :: n in order <==> n in m) && Distinct(order)
    && forall n | n in m :: m[n] != []
  }

  /** `neighbours.setdefault(key, []).append(value)`. */
  method Append<N(==, !new)>(order: seq<N>, m: map<N, seq<N>>, key: N, value: N) returns (order': seq<N>, m': map<N, seq<N>>)
    requires Ordered(order, m)
    ensures Ordered(order', m')
    ensures forall n :: Get(m', n) == Get(m, n) + if n == key then [value] else []
  {
    order' := if key in m then order else order + [key];
    m' := m[key := Get(m, key) + [value]];
  }

  /** The dictionary holds the neighbours of every node among the segments. */
  ghost predicate Records<N(!new)>(m: map<N, seq<N>>, segments: seq<(N, N)>) {
    forall n :: Get(m, n) == Adjacent(segments, n)
  }

  /** One iteration of the dictionary loop: the segment is filed under both of its ends. */
  method AddSegment<N(==, !new)>(order: seq<N>, m: map<N, seq<N>>, segment: (N, N)) returns (order': seq<N>, m': map<N, seq<N>>)
    requires Ordered(order, m)
    ensures Ordered(order', m')
    ensures forall n :: Get(m', n) == Get(m, n) + Ends(segment, n)
  {
    hide Ordered;
    hide Get;
    var (first, second) := segment;
    order', m' := Append(order, m, first, second);
    ghost var middle := m';
    order', m' := Append(order', m', second, first);
    forall n ensures Get(m', n) == Get(m, n) + Ends(segment, n) {
      assert Get(middle, n) == Get(m, n) + if n == first then [second] else [];
    }
  }

  lemma RecordsSnoc<N(!new)>(m: map<N, seq<N>>, m': map<N, seq<N>>, segments: seq<(N, N)>, segment: (N, N))
    requires Records(m, segments) && forall n :: Get(m', n) == Get(m, n) + Ends(segment, n)
    ensures Records(m', segments + [segment])
  {
    hide Get;
    hide Ends;
    var longer := segments + [segment];
    assert longer[..|segments|] == segments;
  }

  /** The dictionary building of marching_squares: keys in first-seen order, neighbours in segment order. */
  method BuildNeighbours<N(==, !new)>(segments: seq<(N, N)>) returns (order: seq<N>, neighbours: map<N, seq<N>>)
    ensures Ordered(order, neighbours) && Records(neighbours, segments)
  {
    order, neighbours := [], map[];
    assert Ordered(order, neighbours) && Records(neighbours, segments[..0]);
    hide *;
    for k := 0 to |segments|
      invariant Ordered(order, neighbours) && Records(neighbours, segments[..k])
    {
      ghost var before := neighbours;
      order, neighbours := AddSegment(order, neighbours, segments[k]);
      RecordsSnoc(before, neighbours, segments[..k], segments[k]);
      assert segments[..k + 1] == segments[..k] + [segments[k]];
    }
    assert segments[..|segments|] == segments;
  }

  /**
   Everything after the segments: on any segment list whose graph is 2-regular,
   the traced loops use every segment exactly once.
   */
  method TraceSegments<N(==, !new)>(segments: seq<(N, N)>) returns (loops: seq<seq<N>>)
    requires forall n | Adjacent(segments, n) != [] :: Degree2(segments, n)
    ensures forall i | 0 <= i < |loops| :: Closed(loops[i]) && IsTrace(segments, loops[i])
    ensures Distinct(AllLinks(loops)) && Distinct(SegmentLinks(segments))
    ensures Elements(AllLinks(loops)) == Elements(SegmentLinks(segments))
    ensures |AllLinks(loops)| == |segments|
  {
    var order, neighbours := BuildNeighbours(segments);
    assert forall n :: n in neighbours <==> Get(neighbours, n) != [];
    forall n | n in neighbours ensures Regular(neighbours, n) {
      assert Get(neighbours, n) == Adjacent(segments, n);
      assert Degree2(segments, n);
      forall m | m in neighbours[n] ensures m in neighbours && n in neighbours[m] {
        AdjacentLink(segments, n, m);
        LinkSym(n, m);
        AdjacentLink(segments, m, n);
      }
    }
    SegmentsAreEdges(segments, neighbours);
    ElementsFit(SegmentLinks(segments));
    loops := TraceLoops(neighbours, order, |segments|);
    ElementsFit(AllLinks(loops));
    assert forall i | 0 <= i < |loops| :: IsPath(neighbours, loops[i]);
  }

  /** n has two different neighbours among the segments, and no segment joins it to itself. */
  ghost predicate Degree2<N(!new)>(segments: seq<(N, N)>, n: N) {
    |Adjacent(segments, n)| == 2 && Distinct(Adjacent(segments, n)) && n !in Adjacent(segments, n)
  }

  ghost predicate IsTrace<N(!new)>(segments: seq<(N, N)>, path: seq<N>) {
    forall i | 0 <= i < |path| - 1 :: path[i + 1] in Adjacent(segments, path[i])
  }
}
