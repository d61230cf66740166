/**
 * The playfield of the game: a rows x cols grid whose cells are numbered
 * `r * cols + c`, and the edge list built over it (`Edge`, `idx`, `neighbors`,
 * `adjacent_nodes`, `build_grid`).
 *
 * The source keeps its edges in a dictionary keyed by the unordered node pair;
 * the dictionary remembers insertion order, which the stable sort of Kruskal's
 * algorithm depends on. Here the dictionary is a sequence of edges in insertion
 * order whose keys `(a, b)` are distinct, and a key lookup is a search.
 */
module Grid {
  import opened Wrappers
  import opened Walks

  /** One undirected link between cells `a` and `b` with its weight and flags. */
  datatype Edge = Edge(a: int, b: int, w: int, active: bool, critical: bool)

  function Key(e: Edge): Link
  {
    (e.a, e.b)
  }

  function Keys(edges: seq<Edge>): (ks: seq<Link>)
    ensures |ks| == |edges|
    ensures forall i :: 0 <= i < |edges| ==> ks[i] == Key(edges[i])
  {
    seq(|edges|, i requires 0 <= i < |edges| => Key(edges[i]))
  }

  /** The edge joins `x` and `y`, in either order (the frozenset key). */
  predicate Joins(e: Edge, x: int, y: int)
  {
    (e.a == x && e.b == y) || (e.a == y && e.b == x)
  }

  /** Dictionary lookup by unordered key: the first edge joining `x` and `y`. */
  function FindEdge(edges: seq<Edge>, x: int, y: int): (r: Option<nat>)
    ensures r.Some? ==> r.value < |edges| && Joins(edges[r.value], x, y)
    ensures r.Some? ==> forall j :: 0 <= j < r.value ==> !Joins(edges[j], x, y)
    ensures r.None? <==> forall j :: 0 <= j < |edges| ==> !Joins(edges[j], x, y)
  {
    if edges == [] then None
    else if Joins(edges[0], x, y) then Some(0)
    else match FindEdge(edges[1..], x, y)
      case None => assert forall j :: 1 <= j < |edges| ==> edges[j] == edges[1..][j - 1]; None
      case Some(i) => Some(i + 1)
  }

  /** The links of every edge, and of the active edges only. */
  function AllLinks(edges: seq<Edge>): set<Link>
  {
    set i | 0 <= i < |edges| :: Key(edges[i])
  }

  function ActiveLinks(edges: seq<Edge>): set<Link>
  {
    set i | 0 <= i < |edges| && edges[i].active :: Key(edges[i])
  }

  lemma ActiveLinksSnoc(edges: seq<Edge>, e: Edge)
    ensures ActiveLinks(edges + [e]) == ActiveLinks(edges) + (if e.active then {Key(e)} else {})
  {
    var es := edges + [e];
    forall l | l in ActiveLinks(es)
      ensures l in ActiveLinks(edges) + (if e.active then {Key(e)} else {})
    {
      var i :| 0 <= i < |es| && es[i].active && Key(es[i]) == l;
      if i < |edges| { assert es[i] == edges[i]; }
    }
    forall l | l in ActiveLinks(edges)
      ensures l in ActiveLinks(es)
    {
      var i :| 0 <= i < |edges| && edges[i].active && Key(edges[i]) == l;
      assert es[i] == edges[i];
    }
    if e.active {
      assert es[|edges|] == e;
    }
  }

  lemma AllLinksSnoc(edges: seq<Edge>, e: Edge)
    ensures AllLinks(edges + [e]) == AllLinks(edges) + {Key(e)}
  {
    var es := edges + [e];
    forall l | l in AllLinks(es)
      ensures l in AllLinks(edges) + {Key(e)}
    {
      var i :| 0 <= i < |es| && Key(es[i]) == l;
      if i < |edges| { assert es[i] == edges[i]; }
    }
    forall l | l in AllLinks(edges)
      ensures l in AllLinks(es)
    {
      var i :| 0 <= i < |edges| && Key(edges[i]) == l;
      assert es[i] == edges[i];
    }
    assert es[|edges|] == e;
  }

  // ---------------------------------------------------------------- arithmetic

  lemma {:induction false} MulAtLeast(k: int, cols: int)
    requires k >= 1 && cols > 0
    ensures k * cols >= cols
  {
    if k > 1 {
      MulAtLeast(k - 1, cols);
      assert k * cols == (k - 1) * cols + cols;
    }
  }

  /** Quotient and remainder are unique (the source's `divmod`). */
  lemma DivModUnique(x: int, cols: int, q: int, m: int)
    requires cols > 0 && 0 <= m < cols && x == q * cols + m
    ensures x / cols == q && x % cols == m
  {
    var q', m' := x / cols, x % cols;
    if q' > q {
      assert (q' - q) * cols == q' * cols - q * cols;
      MulAtLeast(q' - q, cols);
    } else if q' < q {
      assert (q - q') * cols == q * cols - q' * cols;
      MulAtLeast(q - q', cols);
    }
  }

  // ---------------------------------------------------------------- cells

  /** `idx(r, c, cols)`: the node number of a cell. */
  function Idx(r: int, c: int, cols: int): int
  {
    r * cols + c
  }

  predicate InGrid(r: int, c: int, rows: int, cols: int)
  {
    0 <= r < rows && 0 <= c < cols
  }

  /** A cell in the grid has a node number in range, and `divmod` gives the cell back. */
  lemma IdxRoundTrip(r: int, c: int, rows: int, cols: int)
    requires InGrid(r, c, rows, cols)
    ensures 0 <= Idx(r, c, cols) < rows * cols
    ensures Idx(r, c, cols) / cols == r && Idx(r, c, cols) % cols == c
  {
    DivModUnique(Idx(r, c, cols), cols, r, c);
    assert rows * cols == (rows - r) * cols + r * cols;
    MulAtLeast(rows - r, cols);
    assert 0 <= r * cols by { if r > 0 { MulAtLeast(r, cols); } }
  }

  /** A node number in range is the number of the cell that `divmod` gives. */
  lemma DivModRoundTrip(x: int, rows: int, cols: int)
    requires cols > 0 && 0 <= x < rows * cols
    ensures InGrid(x / cols, x % cols, rows, cols)
    ensures Idx(x / cols, x % cols, cols) == x
  {
  }

  predicate Orthogonal(r: int, c: int, nr: int, nc: int)
  {
    (nr == r && (nc == c + 1 || nc == c - 1)) || (nc == c && (nr == r + 1 || nr == r - 1))
  }

  /** `neighbors(r, c, rows, cols)`: the in-grid cells right, down, up and left of (r, c), in that order. */
  function Neighbors(r: int, c: int, rows: int, cols: int): seq<(int, int)>
  {
    Maybe(InGrid(r, c + 1, rows, cols), (r, c + 1))
    + Maybe(InGrid(r + 1, c, rows, cols), (r + 1, c))
    + Maybe(InGrid(r - 1, c, rows, cols), (r - 1, c))
    + Maybe(InGrid(r, c - 1, rows, cols), (r, c - 1))
  }

  /** The one-element list `[x]` when `present`, else the empty list. */
  function Maybe<T>(present: bool, x: T): seq<T>
  {
    if present then [x] else []
  }

  lemma InMaybe<T>(present: bool, x: T, y: T)
    ensures y in Maybe(present, x) <==> present && y == x
  {
  }

  /** `neighbors` lists exactly the orthogonal neighbours inside the grid, at most four. */
  lemma NeighborsCorrect(r: int, c: int, rows: int, cols: int)
    ensures |Neighbors(r, c, rows, cols)| <= 4
    ensures forall x :: x in Neighbors(r, c, rows, cols) <==> InGrid(x.0, x.1, rows, cols) && Orthogonal(r, c, x.0, x.1)
  {
    var right := Maybe(InGrid(r, c + 1, rows, cols), (r, c + 1));
    var down := Maybe(InGrid(r + 1, c, rows, cols), (r + 1, c));
    var up := Maybe(InGrid(r - 1, c, rows, cols), (r - 1, c));
    var left := Maybe(InGrid(r, c - 1, rows, cols), (r, c - 1));
    forall x ensures x in Neighbors(r, c, rows, cols) <==> InGrid(x.0, x.1, rows, cols) && Orthogonal(r, c, x.0, x.1) {
      assert x in Neighbors(r, c, rows, cols) <==> x in right || x in down || x in up || x in left;
      InMaybe(InGrid(r, c + 1, rows, cols), (r, c + 1), x);
      InMaybe(InGrid(r + 1, c, rows, cols), (r + 1, c), x);
      InMaybe(InGrid(r - 1, c, rows, cols), (r - 1, c), x);
      InMaybe(InGrid(r, c - 1, rows, cols), (r, c - 1), x);
    }
  }

  /** Nodes `x` and `y` are in the grid and their cells are orthogonally adjacent. */
  predicate Adjacent(rows: int, cols: int, x: int, y: int)
  {
    && cols > 0
    && 0 <= x < rows * cols && 0 <= y < rows * cols
    && Orthogonal(x / cols, x % cols, y / cols, y % cols)
  }

  /** `adjacent_nodes(node, rows, cols)`: the node numbers of the cells around `node`. */
  function AdjacentNodes(node: int, rows: int, cols: int): (ms: seq<int>)
    requires cols > 0
    ensures |ms| <= 4
    ensures 0 <= node < rows * cols ==> forall k :: 0 <= k < |ms| ==> Adjacent(rows, cols, node, ms[k])
    ensures 0 <= node < rows * cols ==> forall m :: Adjacent(rows, cols, node, m) ==> m in ms
  {
    var ns := Neighbors(node / cols, node % cols, rows, cols);
    var ms := seq(|ns|, k requires 0 <= k < |ns| => Idx(ns[k].0, ns[k].1, cols));
    AdjacentNodesCorrect(node, rows, cols, ns, ms);
    ms
  }

  lemma AdjacentNodesCorrect(node: int, rows: int, cols: int, ns: seq<(int, int)>, ms: seq<int>)
    requires cols > 0
    requires ns == Neighbors(node / cols, node % cols, rows, cols)
    requires |ms| == |ns| && forall k :: 0 <= k < |ns| ==> ms[k] == Idx(ns[k].0, ns[k].1, cols)
    ensures 0 <= node < rows * cols ==> forall k :: 0 <= k < |ms| ==> Adjacent(rows, cols, node, ms[k])
    ensures 0 <= node < rows * cols ==> forall m :: Adjacent(rows, cols, node, m) ==> m in ms
  {
    if 0 <= node < rows * cols {
      NeighborsCorrect(node / cols, node % cols, rows, cols);
      forall k | 0 <= k < |ms| ensures Adjacent(rows, cols, node, ms[k]) {
        AdjacentOfNeighbor(node, rows, cols, ns, k);
      }
      forall m | Adjacent(rows, cols, node, m) ensures m in ms {
        var k := NeighborOfAdjacent(node, rows, cols, ns, m);
        assert ms[k] == m;
      }
    }
  }

  /** The node of a listed neighbour is adjacent. */
  lemma AdjacentOfNeighbor(node: int, rows: int, cols: int, ns: seq<(int, int)>, k: int)
    requires cols > 0 && 0 <= node < rows * cols && 0 <= k < |ns|
    requires forall x :: x in ns <==> InGrid(x.0, x.1, rows, cols) && Orthogonal(node / cols, node % cols, x.0, x.1)
    ensures Adjacent(rows, cols, node, Idx(ns[k].0, ns[k].1, cols))
  {
    assert ns[k] in ns;
    IdxRoundTrip(ns[k].0, ns[k].1, rows, cols);
  }

  /** An adjacent node is the node of a listed neighbour. */
  lemma NeighborOfAdjacent(node: int, rows: int, cols: int, ns: seq<(int, int)>, m: int) returns (k: int)
    requires cols > 0 && 0 <= node < rows * cols && Adjacent(rows, cols, node, m)
    requires forall x :: x in ns <==> InGrid(x.0, x.1, rows, cols) && Orthogonal(node / cols, node % cols, x.0, x.1)
    ensures 0 <= k < |ns| && Idx(ns[k].0, ns[k].1, cols) == m
  {
    DivModRoundTrip(m, rows, cols);
    assert (m / cols, m % cols) in ns;
    k :| 0 <= k < |ns| && ns[k] == (m / cols, m % cols);
  }

  // ---------------------------------------------------------------- links

  /**
   * `(a, b)` is the key of the edge that `build_grid` creates between two
   * orthogonally adjacent cells: the smaller node first, and the larger one is
   * the cell to the right (same row) or the cell below.
   */
  predicate IsLink(rows: int, cols: int, a: int, b: int)
  {
    && cols > 0
    && 0 <= a && b < rows * cols
    && ((b == a + 1 && a % cols != cols - 1) || b == a + cols)
  }

  lemma LinkIsAdjacent(rows: int, cols: int, a: int, b: int)
    requires IsLink(rows, cols, a, b)
    ensures a < b && Adjacent(rows, cols, a, b)
  {
    var q, m := a / cols, a % cols;
    assert a == q * cols + m;
    if b == a + 1 && m != cols - 1 {
      DivModUnique(b, cols, q, m + 1);
    } else {
      assert (q + 1) * cols == q * cols + cols;
      DivModUnique(b, cols, q + 1, m);
    }
  }

  lemma AdjacentIsLink(rows: int, cols: int, a: int, b: int)
    requires a < b && Adjacent(rows, cols, a, b)
    ensures IsLink(rows, cols, a, b)
  {
    var q, m, q', m' := a / cols, a % cols, b / cols, b % cols;
    assert a == q * cols + m && b == q' * cols + m';
    RowSteps(q, cols);
  }

  /** The first nodes of the rows next to row q. */
  lemma RowSteps(q: int, cols: int)
    ensures (q + 1) * cols == q * cols + cols && (q - 1) * cols == q * cols - cols
  {
  }

  /** The links are exactly the pairs of adjacent cells, smaller node first. */
  lemma LinkIsAdjacentPair(rows: int, cols: int, a: int, b: int)
    requires cols > 0
    ensures IsLink(rows, cols, a, b) <==> a < b && Adjacent(rows, cols, a, b)
  {
    if IsLink(rows, cols, a, b) {
      LinkIsAdjacent(rows, cols, a, b);
    }
    if a < b && Adjacent(rows, cols, a, b) {
      AdjacentIsLink(rows, cols, a, b);
    }
  }

  /** The links `build_grid` adds while it visits cell (r, c): to the right, then down. */
  function CellLinks(rows: int, cols: int, r: int, c: int): seq<Link>
  {
    Maybe(c + 1 < cols, (Idx(r, c, cols), Idx(r, c + 1, cols)))
    + Maybe(r + 1 < rows, (Idx(r, c, cols), Idx(r + 1, c, cols)))
  }

  /** The links added while visiting, in row-major order, every cell before (r, c). */
  function LinksBefore(rows: nat, cols: nat, r: nat, c: nat): seq<Link>
    decreases r, c
  {
    if c == 0 then (if r == 0 then [] else LinksBefore(rows, cols, r - 1, cols))
    else LinksBefore(rows, cols, r, c - 1) + CellLinks(rows, cols, r, c - 1)
  }

  /** The keys of the edge dictionary `build_grid` returns, in insertion order. */
  function GridLinks(rows: nat, cols: nat): seq<Link>
  {
    LinksBefore(rows, cols, rows, 0)
  }

  function LinkCount(rows: int, cols: int): int
  {
    if rows <= 0 || cols <= 0 then 0 else rows * (cols - 1) + (rows - 1) * cols
  }

  predicate LexLess(x: Link, y: Link)
  {
    x.0 < y.0 || (x.0 == y.0 && x.1 < y.1)
  }

  /** (r, c) is a point of the row-major visit: a cell, the end of a row, or the very end. */
  predicate Position(rows: int, cols: int, r: int, c: int)
  {
    0 <= r <= rows && 0 <= c <= cols && (r == rows ==> c == 0)
  }

  /** The cell below (r, c) is in the grid exactly when its node number is. */
  lemma DownInGrid(r: int, c: int, rows: int, cols: int)
    requires InGrid(r, c, rows, cols)
    ensures Idx(r, c, cols) % cols == c
    ensures Idx(r, c, cols) + 1 == Idx(r, c + 1, cols)
    ensures Idx(r, c, cols) + cols == Idx(r + 1, c, cols)
    ensures Idx(r, c, cols) + cols < rows * cols <==> r + 1 < rows
  {
    IdxRoundTrip(r, c, rows, cols);
    assert Idx(r, c, cols) + cols == Idx(r + 1, c, cols);
    if r + 1 < rows {
      IdxRoundTrip(r + 1, c, rows, cols);
    } else {
      assert rows * cols == (r + 1) * cols;
    }
  }

  /** The links of one cell start at that cell and are links of the grid, right before down. */
  lemma CellLinksAreLinks(rows: int, cols: int, r: int, c: int)
    requires InGrid(r, c, rows, cols)
    ensures forall i :: 0 <= i < |CellLinks(rows, cols, r, c)| ==>
      CellLinks(rows, cols, r, c)[i].0 == Idx(r, c, cols)
      && IsLink(rows, cols, CellLinks(rows, cols, r, c)[i].0, CellLinks(rows, cols, r, c)[i].1)
    ensures |CellLinks(rows, cols, r, c)| == 2 ==> CellLinks(rows, cols, r, c)[0].1 < CellLinks(rows, cols, r, c)[1].1
  {
    DownInGrid(r, c, rows, cols);
    IdxRoundTrip(r, c, rows, cols);
    if c + 1 < cols {
      IdxRoundTrip(r, c + 1, rows, cols);
    }
    if r + 1 < rows {
      IdxRoundTrip(r + 1, c, rows, cols);
    }
  }

  /** Every link of the grid that starts at cell (r, c) is added while visiting it. */
  lemma LinkOfCell(rows: int, cols: int, r: int, c: int, b: int)
    requires InGrid(r, c, rows, cols) && IsLink(rows, cols, Idx(r, c, cols), b)
    ensures (Idx(r, c, cols), b) in CellLinks(rows, cols, r, c)
  {
    DownInGrid(r, c, rows, cols);
  }

  /** The cells numbered below the start of row r are those of rows 0..r-1. */
  lemma RowStart(r: int, cols: int)
    requires r > 0
    ensures Idx(r, 0, cols) == Idx(r - 1, cols, cols)
  {
    assert r * cols == (r - 1) * cols + cols;
  }

  lemma {:induction false} LinksBeforeAreLinks(rows: nat, cols: nat, r: nat, c: nat)
    requires Position(rows, cols, r, c)
    ensures forall i :: 0 <= i < |LinksBefore(rows, cols, r, c)| ==>
      IsLink(rows, cols, LinksBefore(rows, cols, r, c)[i].0, LinksBefore(rows, cols, r, c)[i].1)
      && LinksBefore(rows, cols, r, c)[i].0 < Idx(r, c, cols)
    decreases r, c
  {
    if c == 0 {
      if r > 0 {
        LinksBeforeAreLinks(rows, cols, r - 1, cols);
        RowStart(r, cols);
      }
    } else {
      LinksBeforeAreLinks(rows, cols, r, c - 1);
      CellLinksAreLinks(rows, cols, r, c - 1);
    }
  }

  lemma {:induction false} LinksBeforeSorted(rows: nat, cols: nat, r: nat, c: nat)
    requires Position(rows, cols, r, c)
    ensures forall i, j :: 0 <= i < j < |LinksBefore(rows, cols, r, c)| ==>
      LexLess(LinksBefore(rows, cols, r, c)[i], LinksBefore(rows, cols, r, c)[j])
    decreases r, c
  {
    if c == 0 {
      if r > 0 {
        LinksBeforeSorted(rows, cols, r - 1, cols);
      }
    } else {
      LinksBeforeSorted(rows, cols, r, c - 1);
      LinksBeforeAreLinks(rows, cols, r, c - 1);
      CellLinksAreLinks(rows, cols, r, c - 1);
      var prev, cell := LinksBefore(rows, cols, r, c - 1), CellLinks(rows, cols, r, c - 1);
      var all := prev + cell;
      forall i, j | 0 <= i < j < |all| ensures LexLess(all[i], all[j]) {
        if j >= |prev| && i < |prev| {
          assert all[i] == prev[i] && all[j] == cell[j - |prev|];
        } else if i >= |prev| {
          assert all[i] == cell[i - |prev|] && all[j] == cell[j - |prev|];
        } else {
          assert all[i] == prev[i] && all[j] == prev[j];
        }
      }
    }
  }

  lemma {:induction false} LinksBeforeComplete(rows: nat, cols: nat, r: nat, c: nat, a: int, b: int)
    requires Position(rows, cols, r, c)
    requires IsLink(rows, cols, a, b) && a < Idx(r, c, cols)
    ensures (a, b) in LinksBefore(rows, cols, r, c)
    decreases r, c
  {
    if c == 0 {
      if r > 0 {
        RowStart(r, cols);
        LinksBeforeComplete(rows, cols, r - 1, cols, a, b);
      }
    } else if a < Idx(r, c - 1, cols) {
      LinksBeforeComplete(rows, cols, r, c - 1, a, b);
    } else {
      LinkOfCell(rows, cols, r, c - 1, b);
    }
  }

  lemma {:induction false} LinksBeforeCountInRow(rows: nat, cols: nat, r: nat, c: nat)
    requires r < rows && 0 < cols && c <= cols
    ensures |LinksBefore(rows, cols, r, c)|
      == r * (2 * cols - 1) + (if c == cols then cols - 1 else c) + (if r + 1 < rows then c else 0)
    decreases r, c
  {
    if c == 0 {
      if r > 0 {
        LinksBeforeCountInRow(rows, cols, r - 1, cols);
        assert (r - 1) * (2 * cols - 1) + 2 * cols - 1 == r * (2 * cols - 1);
      }
    } else {
      LinksBeforeCountInRow(rows, cols, r, c - 1);
    }
  }

  lemma {:induction false} NoColumnsNoLinks(rows: nat, r: nat)
    ensures LinksBefore(rows, 0, r, 0) == []
  {
    if r > 0 {
      NoColumnsNoLinks(rows, r - 1);
    }
  }

  lemma GridLinksCount(rows: nat, cols: nat)
    ensures |GridLinks(rows, cols)| == LinkCount(rows, cols)
  {
    if cols == 0 {
      NoColumnsNoLinks(rows, rows);
    } else if rows > 0 {
      LinksBeforeCountInRow(rows, cols, rows - 1, cols);
      assert (rows - 1) * (2 * cols - 1) + cols - 1 == rows * (cols - 1) + (rows - 1) * cols;
    }
  }

  /** Visiting more cells never removes a link. */
  lemma {:induction false} LinksBeforeMono(rows: nat, cols: nat, r1: nat, c1: nat, r2: nat, c2: nat)
    requires c1 <= cols && (r1 < r2 || (r1 == r2 && c1 <= c2))
    ensures |LinksBefore(rows, cols, r1, c1)| <= |LinksBefore(rows, cols, r2, c2)|
    decreases r2, c2
  {
    if r1 == r2 && c1 == c2 {
    } else if c2 == 0 {
      LinksBeforeMono(rows, cols, r1, c1, r2 - 1, cols);
    } else {
      LinksBeforeMono(rows, cols, r1, c1, r2, c2 - 1);
    }
  }

  /** What `build_grid` promises about its keys, stated on the reference list. */
  lemma GridLinksProperties(rows: nat, cols: nat)
    ensures |GridLinks(rows, cols)| == LinkCount(rows, cols)
    ensures forall i :: 0 <= i < |GridLinks(rows, cols)| ==>
      IsLink(rows, cols, GridLinks(rows, cols)[i].0, GridLinks(rows, cols)[i].1)
    ensures forall i, j :: 0 <= i < j < |GridLinks(rows, cols)| ==>
      LexLess(GridLinks(rows, cols)[i], GridLinks(rows, cols)[j])
    ensures forall a, b :: IsLink(rows, cols, a, b) ==> (a, b) in GridLinks(rows, cols)
  {
    GridLinksCount(rows, cols);
    LinksBeforeAreLinks(rows, cols, rows, 0);
    LinksBeforeSorted(rows, cols, rows, 0);
    forall a, b | IsLink(rows, cols, a, b) ensures (a, b) in GridLinks(rows, cols) {
      LinksBeforeComplete(rows, cols, rows, 0, a, b);
    }
  }

  /** An edge list has exactly the keys of the full grid, in build order. */
  predicate IsGrid(edges: seq<Edge>, rows: nat, cols: nat)
  {
    Keys(edges) == GridLinks(rows, cols)
  }

  /**
   * `edges` are the freshly built edges for the keys `links`: the i-th takes the
   * i-th weight drawn, and is inactive and not critical.
   */
  ghost predicate BuiltFrom(edges: seq<Edge>, links: seq<Link>, weights: seq<int>)
  {
    && |edges| == |links| <= |weights|
    && forall i :: 0 <= i < |edges| ==> edges[i] == Edge(links[i].0, links[i].1, weights[i], false, false)
  }

  /** Cell x comes after cell (r, c) in row-major order. */
  predicate After(r: int, c: int, x: (int, int))
  {
    r < x.0 || (r == x.0 && c < x.1)
  }

  /** The link from cell (r, c) to cell x. */
  function LinkTo(r: int, c: int, cols: int, x: (int, int)): Link
  {
    (Idx(r, c, cols), Idx(x.0, x.1, cols))
  }

  /** The links `build_grid` adds for the first k neighbours in `ns` of cell (r, c): those after (r, c). */
  function Forward(r: int, c: int, cols: int, ns: seq<(int, int)>, k: nat): seq<Link>
    requires k <= |ns|
  {
    if k == 0 then [] else Forward(r, c, cols, ns, k - 1) + Maybe(After(r, c, ns[k - 1]), LinkTo(r, c, cols, ns[k - 1]))
  }

  lemma {:induction false} ForwardPrefix(r: int, c: int, cols: int, ns: seq<(int, int)>, k: nat)
    requires k <= |ns|
    ensures |Forward(r, c, cols, ns, k)| <= |Forward(r, c, cols, ns, |ns|)|
    decreases |ns| - k
  {
    if k < |ns| {
      ForwardPrefix(r, c, cols, ns, k + 1);
    }
  }

  /** Only the first k neighbours matter. */
  lemma {:induction false} ForwardSame(r: int, c: int, cols: int, xs: seq<(int, int)>, ys: seq<(int, int)>, k: nat)
    requires k <= |xs| && k <= |ys| && xs[..k] == ys[..k]
    ensures Forward(r, c, cols, xs, k) == Forward(r, c, cols, ys, k)
  {
    if k > 0 {
      assert xs[..k - 1] == xs[..k][..k - 1] && ys[..k - 1] == ys[..k][..k - 1];
      assert xs[k - 1] == xs[..k][k - 1] && ys[k - 1] == ys[..k][k - 1];
      ForwardSame(r, c, cols, xs, ys, k - 1);
    }
  }

  lemma {:induction false} ForwardAppend(r: int, c: int, cols: int, xs: seq<(int, int)>, ys: seq<(int, int)>, j: nat)
    requires j <= |ys|
    ensures Forward(r, c, cols, xs + ys, |xs| + j) == Forward(r, c, cols, xs, |xs|) + Forward(r, c, cols, ys, j)
  {
    if j == 0 {
      assert (xs + ys)[..|xs|] == xs[..|xs|];
      ForwardSame(r, c, cols, xs + ys, xs, |xs|);
    } else {
      ForwardAppend(r, c, cols, xs, ys, j - 1);
      assert (xs + ys)[|xs| + j - 1] == ys[j - 1];
      var m := Maybe(After(r, c, ys[j - 1]), LinkTo(r, c, cols, ys[j - 1]));
      AppendAssoc(Forward(r, c, cols, xs, |xs|), Forward(r, c, cols, ys, j - 1), m);
    }
  }

  lemma ForwardOfParts(r: int, c: int, cols: int, right: seq<(int, int)>, down: seq<(int, int)>,
                       up: seq<(int, int)>, left: seq<(int, int)>)
    requires Forward(r, c, cols, up, |up|) == [] && Forward(r, c, cols, left, |left|) == []
    ensures Forward(r, c, cols, right + down + up + left, |right + down + up + left|)
      == Forward(r, c, cols, right, |right|) + Forward(r, c, cols, down, |down|)
  {
    var a := right + down;
    var b := a + up;
    ForwardAppend(r, c, cols, b, left, |left|);
    assert Forward(r, c, cols, b + left, |b + left|) == Forward(r, c, cols, b, |b|);
    ForwardAppend(r, c, cols, a, up, |up|);
    assert Forward(r, c, cols, b, |b|) == Forward(r, c, cols, a, |a|);
    ForwardAppend(r, c, cols, right, down, |down|);
  }

  /** A neighbour list of at most one cell contributes the link to that cell when it comes after (r, c). */
  lemma ForwardOfOne(r: int, c: int, cols: int, present: bool, x: (int, int))
    ensures Forward(r, c, cols, Maybe(present, x), |Maybe(present, x)|) ==
      Maybe(present && After(r, c, x), LinkTo(r, c, cols, x))
  {
  }

  /** Of the neighbours `neighbors` lists, `build_grid` keeps the right and the lower one. */
  lemma ForwardOfNeighbors(r: int, c: int, rows: int, cols: int)
    requires InGrid(r, c, rows, cols)
    ensures Forward(r, c, cols, Neighbors(r, c, rows, cols), |Neighbors(r, c, rows, cols)|) == CellLinks(rows, cols, r, c)
  {
    var right := Maybe(InGrid(r, c + 1, rows, cols), (r, c + 1));
    var down := Maybe(InGrid(r + 1, c, rows, cols), (r + 1, c));
    var up := Maybe(InGrid(r - 1, c, rows, cols), (r - 1, c));
    var left := Maybe(InGrid(r, c - 1, rows, cols), (r, c - 1));
    ForwardOfOne(r, c, cols, InGrid(r, c + 1, rows, cols), (r, c + 1));
    ForwardOfOne(r, c, cols, InGrid(r + 1, c, rows, cols), (r + 1, c));
    ForwardOfOne(r, c, cols, InGrid(r - 1, c, rows, cols), (r - 1, c));
    ForwardOfOne(r, c, cols, InGrid(r, c - 1, rows, cols), (r, c - 1));
    ForwardOfParts(r, c, cols, right, down, up, left);
  }

  /**
   * The body of `build_grid` for cell (r, c): for every neighbour `neighbors`
   * lists that comes after the cell, one new edge keyed by the two node
   * numbers, with the next weight drawn, inactive and not critical.
   */
  method AddCellEdges(rows: nat, cols: nat, r: nat, c: nat, weights: seq<int>, edges: seq<Edge>)
    returns (edges': seq<Edge>)
    requires r < rows && c < cols
    requires |LinksBefore(rows, cols, r, c + 1)| <= |weights|
    requires BuiltFrom(edges, LinksBefore(rows, cols, r, c), weights)
    ensures BuiltFrom(edges', LinksBefore(rows, cols, r, c + 1), weights)
  {
    var ns := Neighbors(r, c, rows, cols);
    ForwardOfNeighbors(r, c, rows, cols);
    edges' := AddForward(r, c, cols, ns, weights, edges, LinksBefore(rows, cols, r, c));
  }

  /**
   * The loop over the neighbours `ns` of cell (r, c): an edge with the next
   * weight for each neighbour that comes after the cell, in the order of `ns`.
   */
  method AddForward(r: nat, c: nat, cols: nat, ns: seq<(int, int)>, weights: seq<int>, edges: seq<Edge>, ghost links0: seq<Link>)
    returns (edges': seq<Edge>)
    requires |links0| + |Forward(r, c, cols, ns, |ns|)| <= |weights|
    requires BuiltFrom(edges, links0, weights)
    ensures BuiltFrom(edges', links0 + Forward(r, c, cols, ns, |ns|), weights)
  {
    edges' := edges;
    var k := 0;
    assert links0 + Forward(r, c, cols, ns, 0) == links0;
    while k < |ns|
      invariant 0 <= k <= |ns|
      invariant BuiltFrom(edges', links0 + Forward(r, c, cols, ns, k), weights)
    {
      var next := ns[k];
      AddCellEdge(r, c, cols, ns, k, weights, edges', links0);
      if After(r, c, next) {
        edges' := edges' + [Edge(Idx(r, c, cols), Idx(next.0, next.1, cols), weights[|edges'|], false, false)];
      }
      k := k + 1;
    }
  }

  /** One neighbour of cell (r, c): an edge to it is added exactly when it comes after the cell, with the next weight. */
  lemma AddCellEdge(r: nat, c: nat, cols: nat, ns: seq<(int, int)>, k: nat, weights: seq<int>, edges: seq<Edge>, links0: seq<Link>)
    requires k < |ns| && |links0| + |Forward(r, c, cols, ns, |ns|)| <= |weights|
    requires BuiltFrom(edges, links0 + Forward(r, c, cols, ns, k), weights)
    ensures !After(r, c, ns[k]) ==> BuiltFrom(edges, links0 + Forward(r, c, cols, ns, k + 1), weights)
    ensures After(r, c, ns[k]) ==> |edges| < |weights|
    ensures After(r, c, ns[k]) ==>
      BuiltFrom(edges + [Edge(Idx(r, c, cols), Idx(ns[k].0, ns[k].1, cols), weights[|edges|], false, false)],
                links0 + Forward(r, c, cols, ns, k + 1), weights)
  {
    ForwardPrefix(r, c, cols, ns, k + 1);
    if After(r, c, ns[k]) {
      var l := (Idx(r, c, cols), Idx(ns[k].0, ns[k].1, cols));
      BuiltFromSnoc(edges, links0 + Forward(r, c, cols, ns, k), weights, l);
      AppendAssoc(links0, Forward(r, c, cols, ns, k), [l]);
    }
  }

  /**
   * `build_grid(rows, cols)`: visits the cells in row-major order and, for
   * every neighbour that comes after the cell, adds one edge keyed by the two
   * node numbers, with the next weight drawn from `weights` (the
   * `random.randint(1, 9)` draws, in order), inactive and not critical.
   */
  method BuildGrid(rows: nat, cols: nat, weights: seq<int>) returns (edges: seq<Edge>)
    requires |weights| == LinkCount(rows, cols)
    ensures IsGrid(edges, rows, cols)
    ensures |edges| == LinkCount(rows, cols)
    ensures forall i :: 0 <= i < |edges| ==>
      edges[i].w == weights[i] && !edges[i].active && !edges[i].critical
    ensures forall i :: 0 <= i < |edges| ==> IsLink(rows, cols, edges[i].a, edges[i].b)
    ensures forall i, j :: 0 <= i < j < |edges| ==> LexLess(Key(edges[i]), Key(edges[j]))
    ensures forall a, b :: IsLink(rows, cols, a, b) ==> (a, b) in Keys(edges)
  {
    GridLinksCount(rows, cols);
    edges := [];
    var r := 0;
    while r < rows
      invariant 0 <= r <= rows
      invariant BuiltFrom(edges, LinksBefore(rows, cols, r, 0), weights)
    {
      var c := 0;
      while c < cols
        invariant 0 <= c <= cols
        invariant BuiltFrom(edges, LinksBefore(rows, cols, r, c), weights)
      {
        LinksBeforeMono(rows, cols, r, c + 1, rows, 0);
        edges := AddCellEdges(rows, cols, r, c, weights, edges);
        c := c + 1;
      }
      r := r + 1;
    }
    BuiltGrid(edges, rows, cols, weights);
  }

  lemma BuiltFromSnoc(edges: seq<Edge>, links: seq<Link>, weights: seq<int>, l: Link)
    requires BuiltFrom(edges, links, weights) && |links| < |weights|
    ensures BuiltFrom(edges + [Edge(l.0, l.1, weights[|edges|], false, false)], links + [l], weights)
  {
  }

  lemma BuiltGrid(edges: seq<Edge>, rows: nat, cols: nat, weights: seq<int>)
    requires BuiltFrom(edges, GridLinks(rows, cols), weights)
    ensures IsGrid(edges, rows, cols)
    ensures |edges| == LinkCount(rows, cols)
    ensures forall i :: 0 <= i < |edges| ==>
      edges[i].w == weights[i] && !edges[i].active && !edges[i].critical
    ensures forall i :: 0 <= i < |edges| ==> IsLink(rows, cols, edges[i].a, edges[i].b)
    ensures forall i, j :: 0 <= i < j < |edges| ==> LexLess(Key(edges[i]), Key(edges[j]))
    ensures forall a, b :: IsLink(rows, cols, a, b) ==> (a, b) in Keys(edges)
  {
    GridLinksProperties(rows, cols);
    assert Keys(edges) == GridLinks(rows, cols);
  }

  lemma KeyInAllLinks(edges: seq<Edge>, l: Link)
    requires l in Keys(edges)
    ensures l in AllLinks(edges)
  {
    var i :| 0 <= i < |edges| && Keys(edges)[i] == l;
    assert Key(edges[i]) == l;
  }

  /** Every node but 0 has a link from the node on its left or, at the start of a row, from the node above. */
  lemma PredecessorLink(rows: int, cols: int, x: int) returns (y: int)
    requires 0 < cols && 0 < x < rows * cols
    ensures 0 <= y < x && IsLink(rows, cols, y, x)
  {
    var q, m := x / cols, x % cols;
    if m != 0 {
      y := x - 1;
      DivModUnique(y, cols, q, m - 1);
    } else {
      y := x - cols;
      assert q >= 1;
      assert y == (q - 1) * cols;
      MulAtLeast(q, cols);
    }
  }

  /** The full grid is connected: every node can be reached from node 0 over its links. */
  lemma {:induction false} GridConnected(edges: seq<Edge>, rows: nat, cols: nat, x: int)
    requires IsGrid(edges, rows, cols) && 0 <= x < rows * cols
    ensures Reachable(AllLinks(edges), 0, x)
    decreases x
  {
    var links := AllLinks(edges);
    if x == 0 {
      ReachableRefl(links, 0);
    } else {
      GridLinksProperties(rows, cols);
      var y := PredecessorLink(rows, cols, x);
      KeyInAllLinks(edges, (y, x));
      GridConnected(edges, rows, cols, y);
      StepReachable(links, y, x);
      ReachableTrans(links, 0, y, x);
    }
  }
}
