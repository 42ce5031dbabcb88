/**
 The segments marching squares draws (tools/build_hamlaneh_logo_kit.py, the
 first half of marching_squares), on integer-valued fields at level 127.5.

 A node of the graph is a lattice edge the contour crosses. Each crossed edge is
 shared by two cells and each of them draws exactly one segment to it, which is
 what makes the graph 2-regular.
 */
module Contour {
  import opened Sequences
  import opened LoopTracing

  const LEVEL: real := 127.5

  /** Rows of equal length holding the 0..255 samples of an 8-bit image. */
  datatype Field = Field(width: nat, rows: seq<seq<int>>)

  ghost predicate Valid(f: Field) {
    && (forall y | 0 <= y < |f.rows| :: |f.rows[y]| == f.width)
    && forall y, x | 0 <= y < |f.rows| && 0 <= x < f.width :: 0 <= f.rows[y][x] <= 255
  }

  /** The field with the one-sample border of zeros `numpy.pad` puts around it. */
  function Padded(f: Field, x: int, y: int): int {
    if 1 <= y <= |f.rows| && 1 <= x <= |f.rows[y - 1]| then f.rows[y - 1][x - 1] else 0
  }

  predicate Inside(f: Field, x: int, y: int) { Padded(f, x, y) as real >= LEVEL }

  /** H(x, y) joins (x, y) to (x+1, y); V(x, y) joins (x, y) to (x, y+1). */
  datatype Edge = H(x: int, y: int) | V(x: int, y: int)

  predicate Crossed(f: Field, e: Edge) {
    match e
    case H(x, y) => Inside(f, x, y) != Inside(f, x + 1, y)
    case V(x, y) => Inside(f, x, y) != Inside(f, x, y + 1)
  }

  /** The four edges of a cell, numbered as in `edge_points`: top, right, bottom, left. */
  function CellEdge(x: int, y: int, k: int): Edge {
    if k == 0 then H(x, y) else if k == 1 then V(x + 1, y) else if k == 2 then H(x, y + 1) else V(x, y)
  }

  predicate OfCell(x: int, y: int, e: Edge) {
    e == H(x, y) || e == V(x + 1, y) || e == H(x, y + 1) || e == V(x, y)
  }

  /** The case table, with the centre value deciding the two ambiguous cases. */
  function Pairs(tl: bool, tr: bool, br: bool, bl: bool, centre: bool): (ps: seq<(int, int)>)
    ensures |ps| <= 2 && forall s | s in ps :: 0 <= s.0 < 4 && 0 <= s.1 < 4
  {
    var index := (if tl then 1 else 0) + (if tr then 2 else 0) + (if br then 4 else 0) + (if bl then 8 else 0);
    match index
    case 1 => [(3, 0)]
    case 2 => [(0, 1)]
    case 3 => [(3, 1)]
    case 4 => [(1, 2)]
    case 5 => if centre then [(0, 1), (2, 3)] else [(3, 0), (1, 2)]
    case 6 => [(0, 2)]
    case 7 => [(3, 2)]
    case 8 => [(2, 3)]
    case 9 => [(0, 2)]
    case 10 => if centre then [(3, 0), (1, 2)] else [(0, 1), (2, 3)]
    case 11 => [(1, 2)]
    case 12 => [(3, 1)]
    case 13 => [(0, 1)]
    case 14 => [(3, 0)]
    case _ => []
  }

  /** Whether the mean of a cell's corners is inside, the tie-break of cases 5 and 10. */
  predicate CentreInside(f: Field, x: int, y: int) {
    (Padded(f, x, y) + Padded(f, x + 1, y) + Padded(f, x + 1, y + 1) + Padded(f, x, y + 1)) as real / 4.0 >= LEVEL
  }

  function CellPairs(f: Field, x: int, y: int): seq<(int, int)> {
    Pairs(Inside(f, x, y), Inside(f, x + 1, y), Inside(f, x + 1, y + 1), Inside(f, x, y + 1), CentreInside(f, x, y))
  }

  function CellSegments(f: Field): (int, int) -> seq<(Edge, Edge)> {
    (x, y) => Renamed(CellPairs(f, x, y), Numbering(x, y))
  }

  function Numbering(x: int, y: int): int -> Edge { k => CellEdge(x, y, k) }

  /** The first n cells of a row, for any way of drawing a cell. */
  function RowSegments(draw: (int, int) -> seq<(Edge, Edge)>, y: int, n: nat): seq<(Edge, Edge)> {
    if n == 0 then [] else RowSegments(draw, y, n - 1) + draw(n - 1, y)
  }

  /** The first m rows of `width` cells. */
  function GridSegments(draw: (int, int) -> seq<(Edge, Edge)>, width: nat, m: nat): seq<(Edge, Edge)> {
    if m == 0 then [] else GridSegments(draw, width, m - 1) + RowSegments(draw, m - 1, width)
  }

  /** The segments of the whole padded field, cell by cell in row order. */
  function Segments(f: Field): seq<(Edge, Edge)> {
    GridSegments(CellSegments(f), f.width + 1, |f.rows| + 1)
  }

  // ----- one cell

  /** Whether the k-th edge of a cell is crossed, from its corners. */
  predicate CornerCrossed(tl: bool, tr: bool, br: bool, bl: bool, k: int) {
    if k == 0 then tl != tr else if k == 1 then tr != br else if k == 2 then bl != br else tl != bl
  }

  /** The ends at n of at most two segments, without recursion. */
  function ShortEnds<N(==)>(s: seq<(N, N)>, n: N): seq<N>
    requires |s| <= 2
  {
    if |s| == 0 then [] else if |s| == 1 then Ends(s[0], n) else Ends(s[0], n) + Ends(s[1], n)
  }

  lemma AdjacentShort<N(!new)>(s: seq<(N, N)>, n: N)
    requires |s| <= 2
    ensures Adjacent(s, n) == ShortEnds(s, n)
  {
    hide Ends;
    if |s| >= 1 {
      assert s[..0] == [];
      AdjacentSnoc([], s[0], n);
      assert [] + [s[0]] == s[..1];
      if |s| == 1 { assert s == s[..1]; }
      if |s| == 2 {
        AdjacentSnoc(s[..1], s[1], n);
        assert s == s[..1] + [s[1]];
      }
    }
  }

  /** The case table is a perfect matching of the crossed edges of a cell. */
  lemma TableMatching(tl: bool, tr: bool, br: bool, bl: bool, centre: bool, k: int)
    requires 0 <= k < 4
    ensures var p := Pairs(tl, tr, br, bl, centre);
            var a := ShortEnds(p, k);
            if CornerCrossed(tl, tr, br, bl, k)
            then |a| == 1 && a[0] != k && 0 <= a[0] < 4 && CornerCrossed(tl, tr, br, bl, a[0])
            else a == []
  {
  }

  lemma CornersDecide(f: Field, x: int, y: int, k: int)
    ensures Crossed(f, CellEdge(x, y, k)) ==
            CornerCrossed(Inside(f, x, y), Inside(f, x + 1, y), Inside(f, x + 1, y + 1), Inside(f, x, y + 1), k)
  {
  }

  lemma CellTable(f: Field, x: int, y: int, k: int)
    requires 0 <= k < 4
    ensures var p := CellPairs(f, x, y);
            var a := Adjacent(p, k);
            && (forall s | s in p :: 0 <= s.0 < 4 && 0 <= s.1 < 4)
            && if Crossed(f, CellEdge(x, y, k))
               then |a| == 1 && a[0] != k && 0 <= a[0] < 4 && Crossed(f, CellEdge(x, y, a[0]))
               else a == []
  {
    var tl, tr, br, bl := Inside(f, x, y), Inside(f, x + 1, y), Inside(f, x + 1, y + 1), Inside(f, x, y + 1);
    var centre := CentreInside(f, x, y);
    CornersDecide(f, x, y, k);
    TableMatching(tl, tr, br, bl, centre, k);
    var a := ShortEnds(Pairs(tl, tr, br, bl, centre), k);
    if CornerCrossed(tl, tr, br, bl, k) { CornersDecide(f, x, y, a[0]); }
    AdjacentShort(Pairs(tl, tr, br, bl, centre), k);
  }

  /** In a saddle cell, diagonal corners agree and neighbouring ones do not. */
  predicate IsSaddle(f: Field, x: int, y: int) {
    Inside(f, x, y) == Inside(f, x + 1, y + 1) != Inside(f, x + 1, y) == Inside(f, x, y + 1)
  }

  /** The cell joins two of its edges by a segment. */
  ghost predicate Joins(f: Field, x: int, y: int, e: Edge, o: Edge) { o in Adjacent(CellSegments(f)(x, y), e) }

  /**
   How a saddle cell is read: a segment cuts a corner off exactly when that
   corner's sample and the mean of the four lie on different sides of 127.5. So
   corners on the mean's side stay connected through the cell.
   */
  lemma SaddleFollowsTheMean(f: Field, x: int, y: int)
    requires IsSaddle(f, x, y)
    ensures var tl, tr, br, bl := Padded(f, x, y), Padded(f, x + 1, y), Padded(f, x + 1, y + 1), Padded(f, x, y + 1);
            var high := tl + tr + br + bl >= 510;
            && (Joins(f, x, y, H(x, y), V(x, y)) <==> (tl >= 128) != high)
            && (Joins(f, x, y, H(x, y), V(x + 1, y)) <==> (tr >= 128) != high)
            && (Joins(f, x, y, H(x, y + 1), V(x + 1, y)) <==> (br >= 128) != high)
            && (Joins(f, x, y, H(x, y + 1), V(x, y)) <==> (bl >= 128) != high)
  {
    hide Adjacent;
    hide CellSegments;
    CellRenamed(f, x, y, 0);
    CellRenamed(f, x, y, 2);
    SaddlePairs(f, x, y);
    var top, bottom := Adjacent(CellPairs(f, x, y), 0)[0], Adjacent(CellPairs(f, x, y), 2)[0];
    assert Adjacent(CellSegments(f)(x, y), H(x, y)) == [CellEdge(x, y, top)];
    assert Adjacent(CellSegments(f)(x, y), H(x, y + 1)) == [CellEdge(x, y, bottom)];
  }

  lemma SaddlePairs(f: Field, x: int, y: int)
    requires IsSaddle(f, x, y)
    ensures var high := Padded(f, x, y) + Padded(f, x + 1, y) + Padded(f, x + 1, y + 1) + Padded(f, x, y + 1) >= 510;
            && Adjacent(CellPairs(f, x, y), 0) == (if (Padded(f, x, y) >= 128) != high then [3] else [1])
            && Adjacent(CellPairs(f, x, y), 2) == (if (Padded(f, x, y) >= 128) != high then [1] else [3])
  {
    AdjacentShort(CellPairs(f, x, y), 0);
    AdjacentShort(CellPairs(f, x, y), 2);
  }

  lemma RenamedCell(pairs: seq<(int, int)>, x: int, y: int, k: int)
    requires 0 <= k < 4 && forall s | s in pairs :: 0 <= s.0 < 4 && 0 <= s.1 < 4
    ensures Adjacent(Renamed(pairs, Numbering(x, y)), CellEdge(x, y, k)) == Names(Adjacent(pairs, k), Numbering(x, y))
  {
    assert Numbering(x, y)(k) == CellEdge(x, y, k);
    RenamedAdjacent(pairs, Numbering(x, y), k);
  }

  /** The segments of a cell at its k-th edge are the table's, renamed. */
  lemma CellRenamed(f: Field, x: int, y: int, k: int)
    requires 0 <= k < 4
    ensures Adjacent(CellSegments(f)(x, y), CellEdge(x, y, k)) == Names(Adjacent(CellPairs(f, x, y), k), Numbering(x, y))
  {
    CellTable(f, x, y, k);
    RenamedCell(CellPairs(f, x, y), x, y, k);
  }

  function EdgeNumber(x: int, y: int, e: Edge): (k: int)
    requires OfCell(x, y, e)
    ensures 0 <= k < 4 && CellEdge(x, y, k) == e
  {
    if e == H(x, y) then 0 else if e == V(x + 1, y) then 1 else if e == H(x, y + 1) then 2 else 3
  }

  /** A cell draws exactly one segment to each of its crossed edges, from another of them. */
  lemma CellPartner(f: Field, x: int, y: int, e: Edge) returns (o: Edge)
    requires OfCell(x, y, e) && Crossed(f, e)
    ensures Adjacent(CellSegments(f)(x, y), e) == [o]
    ensures o != e && OfCell(x, y, o) && Crossed(f, o)
  {
    var k := EdgeNumber(x, y, e);
    CellTable(f, x, y, k);
    CellRenamed(f, x, y, k);
    o := CellEdge(x, y, Adjacent(CellPairs(f, x, y), k)[0]);
  }

  /** A cell draws nothing to any other edge. */
  lemma CellNone(f: Field, x: int, y: int, e: Edge)
    requires !OfCell(x, y, e) || !Crossed(f, e)
    ensures Adjacent(CellSegments(f)(x, y), e) == []
  {
    if OfCell(x, y, e) {
      var k := EdgeNumber(x, y, e);
      CellTable(f, x, y, k);
      CellRenamed(f, x, y, k);
    } else {
      CellTable(f, x, y, 0);
      AdjacentNone(CellSegments(f)(x, y), e);
    }
  }

  // ----- the whole grid

  /** The two cells an edge belongs to, in row order. */
  function FirstCell(e: Edge): (int, int) { if e.H? then (e.x, e.y - 1) else (e.x - 1, e.y) }

  function SecondCell(e: Edge): (int, int) { (e.x, e.y) }

  /** `draw` gives an edge nothing except from the edge's own two cells. */
  ghost predicate Local(draw: (int, int) -> seq<(Edge, Edge)>, e: Edge) {
    forall x, y {:trigger draw(x, y)} :: (x, y) != FirstCell(e) && (x, y) != SecondCell(e) ==> Adjacent(draw(x, y), e) == []
  }

  /** What a cell gives e once the first n cells of row y are drawn. */
  function FromRow(given: seq<Edge>, cell: (int, int), y: int, n: nat): seq<Edge> {
    if cell.1 == y && 0 <= cell.0 < n then given else []
  }

  lemma {:induction false} RowAdjacent(draw: (int, int) -> seq<(Edge, Edge)>, y: int, n: nat, e: Edge)
    requires Local(draw, e)
    ensures var a, b := FirstCell(e), SecondCell(e);
            Adjacent(RowSegments(draw, y, n), e) ==
            FromRow(Adjacent(draw(a.0, a.1), e), a, y, n) + FromRow(Adjacent(draw(b.0, b.1), e), b, y, n)
  {
    var a, b := FirstCell(e), SecondCell(e);
    var ga, gb := Adjacent(draw(a.0, a.1), e), Adjacent(draw(b.0, b.1), e);
    if n == 0 {
      NoCells(draw, y, e, ga, a, gb, b);
    } else {
      var given := Adjacent(draw(n - 1, y), e);
      assert (n - 1, y) == a || (n - 1, y) == b || given == [];
      assert b == (a.0 + 1, a.1) || b == (a.0, a.1 + 1);
      hide *;
      RowAdjacent(draw, y, n - 1, e);
      AddCell(draw, y, n, e);
      JoinCells(ga, gb, a, b, y, n, given);
    }
  }

  lemma NoCells(draw: (int, int) -> seq<(Edge, Edge)>, y: int, e: Edge, ga: seq<Edge>, a: (int, int), gb: seq<Edge>, b: (int, int))
    ensures Adjacent(RowSegments(draw, y, 0), e) == FromRow(ga, a, y, 0) + FromRow(gb, b, y, 0)
  {
  }

  lemma AddCell(draw: (int, int) -> seq<(Edge, Edge)>, y: int, n: nat, e: Edge)
    requires n > 0
    ensures Adjacent(RowSegments(draw, y, n), e) == Adjacent(RowSegments(draw, y, n - 1), e) + Adjacent(draw(n - 1, y), e)
  {
    AdjacentConcat(RowSegments(draw, y, n - 1), draw(n - 1, y), e);
  }

  /** Cells add up to the row: the first cell of an edge is drawn no later than the second. */
  lemma JoinCells(ga: seq<Edge>, gb: seq<Edge>, a: (int, int), b: (int, int), y: int, n: nat, given: seq<Edge>)
    requires n > 0 && (b == (a.0 + 1, a.1) || b == (a.0, a.1 + 1))
    requires given == if (n - 1, y) == a then ga else if (n - 1, y) == b then gb else []
    ensures FromRow(ga, a, y, n - 1) + FromRow(gb, b, y, n - 1) + given == FromRow(ga, a, y, n) + FromRow(gb, b, y, n)
  {
    if (n - 1, y) == a {
      assert FromRow(ga, a, y, n - 1) == [] && FromRow(gb, b, y, n - 1) == [] && FromRow(gb, b, y, n) == [];
    } else if (n - 1, y) == b {
      assert FromRow(gb, b, y, n - 1) == [] && FromRow(ga, a, y, n - 1) == FromRow(ga, a, y, n);
    }
  }

  function FromGrid(given: seq<Edge>, cell: (int, int), width: nat, m: nat): seq<Edge> {
    if 0 <= cell.1 < m && 0 <= cell.0 < width then given else []
  }

  lemma {:induction false} GridAdjacent(draw: (int, int) -> seq<(Edge, Edge)>, width: nat, m: nat, e: Edge)
    requires Local(draw, e)
    ensures var a, b := FirstCell(e), SecondCell(e);
            Adjacent(GridSegments(draw, width, m), e) ==
            FromGrid(Adjacent(draw(a.0, a.1), e), a, width, m) + FromGrid(Adjacent(draw(b.0, b.1), e), b, width, m)
  {
    hide *;
    var a, b := FirstCell(e), SecondCell(e);
    var ga, gb := Adjacent(draw(a.0, a.1), e), Adjacent(draw(b.0, b.1), e);
    if m == 0 {
      NoRows(draw, width, e, ga, a, gb, b);
    } else {
      GridAdjacent(draw, width, m - 1, e);
      AddRow(draw, width, m, e);
      RowAdjacent(draw, m - 1, width, e);
      FirstCellFirst(e);
      JoinRows(ga, gb, a, b, width, m);
    }
  }

  lemma NoRows(draw: (int, int) -> seq<(Edge, Edge)>, width: nat, e: Edge, ga: seq<Edge>, a: (int, int), gb: seq<Edge>, b: (int, int))
    ensures Adjacent(GridSegments(draw, width, 0), e) == FromGrid(ga, a, width, 0) + FromGrid(gb, b, width, 0)
  {
  }

  lemma AddRow(draw: (int, int) -> seq<(Edge, Edge)>, width: nat, m: nat, e: Edge)
    requires m > 0
    ensures Adjacent(GridSegments(draw, width, m), e) ==
            Adjacent(GridSegments(draw, width, m - 1), e) + Adjacent(RowSegments(draw, m - 1, width), e)
  {
    AdjacentConcat(GridSegments(draw, width, m - 1), RowSegments(draw, m - 1, width), e);
  }

  lemma FirstCellFirst(e: Edge)
    ensures FirstCell(e).1 <= SecondCell(e).1
  {
  }

  /** Rows add up to the grid: the first cell's row is never below the second's. */
  lemma JoinRows(ga: seq<Edge>, gb: seq<Edge>, a: (int, int), b: (int, int), width: nat, m: nat)
    requires m > 0 && a.1 <= b.1
    ensures FromGrid(ga, a, width, m - 1) + FromGrid(gb, b, width, m - 1) + (FromRow(ga, a, m - 1, width) + FromRow(gb, b, m - 1, width))
            == FromGrid(ga, a, width, m) + FromGrid(gb, b, width, m)
  {
    if a.1 != m - 1 {
      assert FromRow(ga, a, m - 1, width) == [];
      if b.1 != m - 1 { assert FromRow(gb, b, m - 1, width) == []; }
    } else {
      assert FromGrid(ga, a, width, m - 1) == [] && FromGrid(gb, b, width, m - 1) == [];
    }
  }

  /** The cell is one of the grid's `width` by `m` cells. */
  predicate InGrid(cell: (int, int), width: nat, m: nat) { 0 <= cell.0 < width && 0 <= cell.1 < m }

  /** The border of zeros keeps both cells of a crossed edge inside the scanned range. */
  lemma CrossedIsInterior(f: Field, e: Edge)
    requires Valid(f) && Crossed(f, e)
    ensures InGrid(FirstCell(e), f.width + 1, |f.rows| + 1) && InGrid(SecondCell(e), f.width + 1, |f.rows| + 1)
  {
  }

  lemma CellsAreLocal(f: Field, e: Edge)
    ensures Local(CellSegments(f), e)
  {
    forall x, y | (x, y) != FirstCell(e) && (x, y) != SecondCell(e)
      ensures Adjacent(CellSegments(f)(x, y), e) == []
    {
      CellNone(f, x, y, e);
    }
  }

  lemma FromBothCells(draw: (int, int) -> seq<(Edge, Edge)>, width: nat, m: nat, e: Edge, o1: Edge, o2: Edge)
    requires Local(draw, e) && InGrid(FirstCell(e), width, m) && InGrid(SecondCell(e), width, m)
    requires Adjacent(draw(FirstCell(e).0, FirstCell(e).1), e) == [o1]
    requires Adjacent(draw(SecondCell(e).0, SecondCell(e).1), e) == [o2]
    ensures Adjacent(GridSegments(draw, width, m), e) == [o1, o2]
  {
    GridAdjacent(draw, width, m, e);
  }

  lemma FromNeitherCell(draw: (int, int) -> seq<(Edge, Edge)>, width: nat, m: nat, e: Edge)
    requires Local(draw, e)
    requires Adjacent(draw(FirstCell(e).0, FirstCell(e).1), e) == []
    requires Adjacent(draw(SecondCell(e).0, SecondCell(e).1), e) == []
    ensures Adjacent(GridSegments(draw, width, m), e) == []
  {
    GridAdjacent(draw, width, m, e);
  }

  /** The two cells of an edge have nothing else in common. */
  lemma CellsMeetOnce(e: Edge, o: Edge)
    requires OfCell(FirstCell(e).0, FirstCell(e).1, o) && OfCell(SecondCell(e).0, SecondCell(e).1, o)
    ensures o == e
  {
  }

  lemma CellsContain(e: Edge)
    ensures OfCell(FirstCell(e).0, FirstCell(e).1, e) && OfCell(SecondCell(e).0, SecondCell(e).1, e)
  {
  }

  /**
   Exactly two segment ends at every crossed edge, one drawn by each of its two
   cells, to two different crossed edges other than itself.
   */
  lemma EdgeDegree(f: Field, e: Edge) returns (o1: Edge, o2: Edge)
    requires Valid(f) && Crossed(f, e)
    ensures Adjacent(GridSegments(CellSegments(f), f.width + 1, |f.rows| + 1), e) == [o1, o2]
    ensures o1 != e && o2 != e && o1 != o2 && Crossed(f, o1) && Crossed(f, o2)
    ensures OfCell(FirstCell(e).0, FirstCell(e).1, o1) && OfCell(SecondCell(e).0, SecondCell(e).1, o2)
  {
    hide *;
    var a, b := FirstCell(e), SecondCell(e);
    CellsContain(e);
    o1 := CellPartner(f, a.0, a.1, e);
    o2 := CellPartner(f, b.0, b.1, e);
    if o1 == o2 { CellsMeetOnce(e, o1); }
    CrossedIsInterior(f, e);
    CellsAreLocal(f, e);
    FromBothCells(CellSegments(f), f.width + 1, |f.rows| + 1, e, o1, o2);
  }

  /** No segment ends on an edge the contour does not cross. */
  lemma UncrossedEdge(f: Field, e: Edge)
    requires !Crossed(f, e)
    ensures Adjacent(GridSegments(CellSegments(f), f.width + 1, |f.rows| + 1), e) == []
  {
    hide *;
    var a, b := FirstCell(e), SecondCell(e);
    CellsAreLocal(f, e);
    CellNone(f, a.0, a.1, e);
    CellNone(f, b.0, b.1, e);
    FromNeitherCell(CellSegments(f), f.width + 1, |f.rows| + 1, e);
  }

  /** The segment graph is 2-regular and simple, on exactly the crossed edges. */
  lemma SegmentsAreTwoRegular(f: Field, e: Edge)
    requires Valid(f)
    ensures if Crossed(f, e) then Degree2(Segments(f), e) else Adjacent(Segments(f), e) == []
  {
    hide CellSegments;
    hide GridSegments;
    if Crossed(f, e) {
      var o1, o2 := EdgeDegree(f, e);
      assert Adjacent(Segments(f), e) == [o1, o2];
    } else {
      UncrossedEdge(f, e);
    }
  }
}
