/**
 * The guards' path finding: `dijkstra` over the grid edges, where crossing an
 * active edge costs 1 and an inactive one 5, and `guards_move`, which asks
 * `dijkstra` for each guard's distance field and steps the guard to a
 * neighbour that is strictly closer to the guard itself.
 */
module Pursuit {
  import opened Wrappers
  import opened Walks
  import opened Grid

  /** The initial distance `10**9`, standing for "not reached". */
  const Inf := 1000000000

  /** Guards pay 1 to cross an active edge and 5 to cross an inactive one. */
  function Cost(e: Edge): int
  {
    if e.active then 1 else 5
  }

  // ---------------------------------------------------------------- least walk costs

  /**
   * There is a walk from `s` to `v` over `edges` whose costs add up to at most
   * `c`: either `v` is `s`, or some edge joins `v` to a node reachable within
   * what is left of `c` after paying for that edge.
   */
  ghost predicate WithinCost(edges: seq<Edge>, s: int, v: int, c: nat)
    decreases c
  {
    v == s ||
    exists i :: 0 <= i < |edges| && Cost(edges[i]) <= c &&
      ((edges[i].b == v && WithinCost(edges, s, edges[i].a, c - Cost(edges[i]))) ||
       (edges[i].a == v && WithinCost(edges, s, edges[i].b, c - Cost(edges[i]))))
  }

  /** Extending a walk to `u` by an edge between `u` and `v` reaches `v`. */
  lemma WithinCostStep(edges: seq<Edge>, s: int, i: int, u: int, v: int, c: nat)
    requires 0 <= i < |edges| && Joins(edges[i], u, v) && WithinCost(edges, s, u, c)
    ensures WithinCost(edges, s, v, c + Cost(edges[i]))
  {
    var c' := c + Cost(edges[i]);
    assert c' - Cost(edges[i]) == c;
  }

  // ---------------------------------------------------------------- the adjacency lists

  /** A neighbour in an adjacency list and the cost of the edge to it. */
  type Arc = (int, int)

  /** `adj.get(u, [])`. */
  function Arcs(adj: map<int, seq<Arc>>, u: int): seq<Arc>
  {
    if u in adj then adj[u] else []
  }

  /** `adj.setdefault(u, []).append(arc)`. */
  function Push(adj: map<int, seq<Arc>>, u: int, arc: Arc): map<int, seq<Arc>>
  {
    adj[u := Arcs(adj, u) + [arc]]
  }

  predicate ArcIn(adj: map<int, seq<Arc>>, u: int, v: int, w: int)
  {
    (v, w) in Arcs(adj, u)
  }

  /** Some edge joins `u` and `v` and costs `w`. */
  ghost predicate HasArc(edges: seq<Edge>, u: int, v: int, w: int)
  {
    exists i :: 0 <= i < |edges| && Joins(edges[i], u, v) && w == Cost(edges[i])
  }

  /** The adjacency lists hold exactly one arc per direction of every edge, with its cost. */
  ghost predicate AdjOf(adj: map<int, seq<Arc>>, edges: seq<Edge>)
  {
    forall u, v, w :: ArcIn(adj, u, v, w) <==> HasArc(edges, u, v, w)
  }

  lemma PushArcs(adj: map<int, seq<Arc>>, x: int, arc: Arc)
    ensures forall u, v, w :: ArcIn(Push(adj, x, arc), u, v, w) <==> ArcIn(adj, u, v, w) || (u == x && (v, w) == arc)
  {
  }

  lemma HasArcSnoc(edges: seq<Edge>, i: nat)
    requires i < |edges|
    ensures forall u, v, w :: HasArc(edges[..i + 1], u, v, w) <==>
      HasArc(edges[..i], u, v, w) || (Joins(edges[i], u, v) && w == Cost(edges[i]))
  {
    forall u, v, w | HasArc(edges[..i + 1], u, v, w)
      ensures HasArc(edges[..i], u, v, w) || (Joins(edges[i], u, v) && w == Cost(edges[i]))
    {
      var j :| 0 <= j < i + 1 && Joins(edges[..i + 1][j], u, v) && w == Cost(edges[..i + 1][j]);
      if j < i {
        assert edges[..i][j] == edges[j];
      }
    }
    forall u, v, w | HasArc(edges[..i], u, v, w) ensures HasArc(edges[..i + 1], u, v, w) {
      var j :| 0 <= j < i && Joins(edges[..i][j], u, v) && w == Cost(edges[..i][j]);
      assert edges[..i + 1][j] == edges[j];
    }
    forall u, v | Joins(edges[i], u, v) ensures HasArc(edges[..i + 1], u, v, Cost(edges[i])) {
      assert edges[..i + 1][i] == edges[i];
    }
  }

  /** One round of the adjacency loop adds both directions of the next edge. */
  lemma AdjStep(adj: map<int, seq<Arc>>, edges: seq<Edge>, i: nat)
    requires i < |edges| && AdjOf(adj, edges[..i])
    ensures AdjOf(Push(Push(adj, edges[i].a, (edges[i].b, Cost(edges[i]))), edges[i].b, (edges[i].a, Cost(edges[i]))), edges[..i + 1])
  {
    var e := edges[i];
    var w := Cost(e);
    HasArcSnoc(edges, i);
    PushArcs(adj, e.a, (e.b, w));
    PushArcs(Push(adj, e.a, (e.b, w)), e.b, (e.a, w));
  }

  /** The adjacency loop of `dijkstra`: both directions of every edge, with its cost. */
  method BuildAdj(edges: seq<Edge>) returns (adj: map<int, seq<Arc>>)
    ensures AdjOf(adj, edges)
  {
    adj := map[];
    var i := 0;
    while i < |edges|
      invariant 0 <= i <= |edges|
      invariant AdjOf(adj, edges[..i])
    {
      var e := edges[i];
      var w := if e.active then 1 else 5;
      AdjStep(adj, edges, i);
      adj := Push(adj, e.a, (e.b, w));
      adj := Push(adj, e.b, (e.a, w));
      i := i + 1;
    }
    assert edges[..i] == edges;
  }

  /** Every arc leads to a node 0..n-1 and costs at least 1. */
  ghost predicate ArcsOK(adj: map<int, seq<Arc>>, n: int)
  {
    forall u, p :: 0 <= p < |Arcs(adj, u)| ==> 0 <= Arcs(adj, u)[p].0 < n && 1 <= Arcs(adj, u)[p].1
  }

  lemma AdjInRange(edges: seq<Edge>, adj: map<int, seq<Arc>>, n: int)
    requires AdjOf(adj, edges) && LinksWithin(AllLinks(edges), n)
    ensures ArcsOK(adj, n)
  {
    forall u, p | 0 <= p < |Arcs(adj, u)| ensures 0 <= Arcs(adj, u)[p].0 < n && 1 <= Arcs(adj, u)[p].1 {
      var (v, w) := Arcs(adj, u)[p];
      assert ArcIn(adj, u, v, w);
      var i :| 0 <= i < |edges| && Joins(edges[i], u, v) && w == Cost(edges[i]);
      assert Key(edges[i]) in AllLinks(edges);
    }
  }

  // ---------------------------------------------------------------- the frontier

  /** The order of `heapq` on `(distance, node)` pairs. */
  predicate LexLeq(x: (int, int), y: (int, int))
  {
    x.0 < y.0 || (x.0 == y.0 && x.1 <= y.1)
  }

  /**
   * `heapq.heappop(pq)`: removes and returns a least pair. The heap layout is
   * not modelled; the frontier is the multiset of pairs it holds.
   */
  method PopMin(pq: seq<(int, int)>) returns (top: (int, int), rest: seq<(int, int)>)
    requires pq != []
    ensures top in pq && forall j :: 0 <= j < |pq| ==> LexLeq(top, pq[j])
    ensures multiset(rest) + multiset{top} == multiset(pq)
    ensures |rest| == |pq| - 1
  {
    var m := 0;
    var j := 1;
    while j < |pq|
      invariant 1 <= j <= |pq| && 0 <= m < |pq|
      invariant forall q :: 0 <= q < j ==> LexLeq(pq[m], pq[q])
    {
      if !LexLeq(pq[m], pq[j]) {
        m := j;
      }
      j := j + 1;
    }
    top := pq[m];
    rest := pq[..m] + pq[m + 1..];
    assert pq == pq[..m] + [pq[m]] + pq[m + 1..];
  }

  // ---------------------------------------------------------------- the loop state

  /** Every arc out of `x` is relaxed: its target is no farther than `x` plus the arc's cost. */
  ghost predicate Relaxed(adj: map<int, seq<Arc>>, dist: seq<int>, x: int)
    requires 0 <= x < |dist|
  {
    forall p :: 0 <= p < |Arcs(adj, x)| ==>
      0 <= Arcs(adj, x)[p].0 < |dist| && dist[Arcs(adj, x)[p].0] <= dist[x] + Arcs(adj, x)[p].1
  }

  /**
   * Every node other than `skip` either still has its current distance waiting
   * in the frontier or has all its arcs relaxed.
   */
  ghost predicate Settled(adj: map<int, seq<Arc>>, dist: seq<int>, pq: seq<(int, int)>, skip: int)
  {
    forall x :: 0 <= x < |dist| && x != skip ==> (dist[x], x) in pq || Relaxed(adj, dist, x)
  }

  /** The frontier holds nodes 0..n-1 with distances below `Inf`. */
  predicate Entries(pq: seq<(int, int)>, n: int)
  {
    forall e :: e in pq ==> 0 <= e.1 < n && 0 <= e.0 < Inf
  }

  /**
   * The source is at distance 0, every distance is at most `Inf`, and every
   * distance below `Inf` is the cost of some walk from the source.
   */
  ghost predicate Sound(edges: seq<Edge>, source: int, dist: seq<int>)
  {
    && 0 <= source < |dist| && dist[source] == 0
    && forall x :: 0 <= x < |dist| ==> 0 <= dist[x] <= Inf && (dist[x] < Inf ==> WithinCost(edges, source, x, dist[x]))
  }

  /** The sum of the distances, which only ever goes down. */
  function Total(dist: seq<int>): nat
  {
    if dist == [] then 0 else (if dist[0] > 0 then dist[0] else 0) + Total(dist[1..])
  }

  lemma {:induction false} TotalLowered(dist: seq<int>, v: int, d: int)
    requires 0 <= v < |dist| && 0 <= d < dist[v]
    ensures Total(dist[v := d]) < Total(dist)
  {
    if v > 0 {
      assert dist[v := d][1..] == dist[1..][v - 1 := d];
      TotalLowered(dist[1..], v - 1, d);
    } else {
      assert dist[v := d][1..] == dist[1..];
    }
  }

  /** Lowering the distance of `v` to the cost of a walk keeps the distances sound. */
  lemma LowerSound(edges: seq<Edge>, source: int, dist: seq<int>, v: int, d: int)
    requires Sound(edges, source, dist) && 0 <= v < |dist| && 0 <= d < dist[v] && WithinCost(edges, source, v, d)
    ensures Sound(edges, source, dist[v := d])
  {
  }

  /** Lowering the distance of `v` and queueing it keeps every other node pending or relaxed. */
  lemma LowerSettled(adj: map<int, seq<Arc>>, dist: seq<int>, pq: seq<(int, int)>, skip: int, v: int, d: int)
    requires Settled(adj, dist, pq, skip) && 0 <= v < |dist| && d <= dist[v] && v != skip
    ensures Settled(adj, dist[v := d], pq + [(d, v)], skip)
  {
    var dist' := dist[v := d];
    forall x | 0 <= x < |dist'| && x != skip ensures (dist'[x], x) in pq + [(d, v)] || Relaxed(adj, dist', x) {
      if x != v && (dist[x], x) !in pq {
        assert Relaxed(adj, dist, x);
      }
    }
  }

  /** The first k arcs of `nbrs`, leaving a node at distance d, are relaxed. */
  ghost predicate PrefixRelaxed(dist: seq<int>, nbrs: seq<Arc>, k: nat, d: int)
  {
    k <= |nbrs| &&
    forall p :: 0 <= p < k ==> 0 <= nbrs[p].0 < |dist| && dist[nbrs[p].0] <= d + nbrs[p].1
  }

  lemma LowerPrefix(dist: seq<int>, nbrs: seq<Arc>, k: nat, d: int, v: int, nd: int)
    requires PrefixRelaxed(dist, nbrs, k, d) && 0 <= v < |dist| && nd <= dist[v]
    ensures PrefixRelaxed(dist[v := nd], nbrs, k, d)
  {
  }

  lemma PrefixExtend(dist: seq<int>, nbrs: seq<Arc>, k: nat, d: int)
    requires PrefixRelaxed(dist, nbrs, k, d) && k < |nbrs|
    requires 0 <= nbrs[k].0 < |dist| && dist[nbrs[k].0] <= d + nbrs[k].1
    ensures PrefixRelaxed(dist, nbrs, k + 1, d)
  {
  }

  lemma EntriesPush(pq: seq<(int, int)>, n: int, d: int, v: int)
    requires Entries(pq, n) && 0 <= v < n && 0 <= d < Inf
    ensures Entries(pq + [(d, v)], n)
  {
  }

  /**
   * The relaxation loop of `dijkstra` for a node `u` just taken from the
   * frontier at its current distance `d`: every neighbour that gets closer
   * through `u` takes the new distance and is pushed. Afterwards every node is
   * pending or relaxed, and the sum of distances went down by at least the
   * number of pushes.
   */
  method Relax(ghost edges: seq<Edge>, adj: map<int, seq<Arc>>, ghost source: int, u: int, d: int,
               dist: seq<int>, pq: seq<(int, int)>)
    returns (dist': seq<int>, pq': seq<(int, int)>)
    requires AdjOf(adj, edges) && ArcsOK(adj, |dist|)
    requires Sound(edges, source, dist) && Entries(pq, |dist|) && Settled(adj, dist, pq, u)
    requires 0 <= u < |dist| && d == dist[u] < Inf
    ensures |dist'| == |dist|
    ensures Sound(edges, source, dist') && Entries(pq', |dist|) && Settled(adj, dist', pq', -1)
    ensures Total(dist') <= Total(dist) && |pq'| + Total(dist') <= |pq| + Total(dist)
  {
    var nbrs := Arcs(adj, u);
    dist', pq' := dist, pq;
    var k := 0;
    while k < |nbrs|
      invariant 0 <= k <= |nbrs|
      invariant |dist'| == |dist| && dist'[u] == d
      invariant Sound(edges, source, dist') && Entries(pq', |dist|) && Settled(adj, dist', pq', u)
      invariant PrefixRelaxed(dist', nbrs, k, d)
      invariant Total(dist') <= Total(dist) && |pq'| + Total(dist') <= |pq| + Total(dist)
    {
      var (v, w) := nbrs[k];
      var nd := d + w;
      if nd < dist'[v] {
        assert ArcIn(adj, u, v, w);
        ghost var i :| 0 <= i < |edges| && Joins(edges[i], u, v) && w == Cost(edges[i]);
        WithinCostStep(edges, source, i, u, v, d);
        LowerSound(edges, source, dist', v, nd);
        LowerSettled(adj, dist', pq', u, v, nd);
        TotalLowered(dist', v, nd);
        LowerPrefix(dist', nbrs, k, d, v, nd);
        EntriesPush(pq', |dist|, nd, v);
        dist' := dist'[v := nd];
        pq' := pq' + [(nd, v)];
      }
      PrefixExtend(dist', nbrs, k, d);
      k := k + 1;
    }
    assert Relaxed(adj, dist', u);
  }

  /** Taking a pair off the frontier leaves every node pending or relaxed, except the node taken at its current distance. */
  lemma PopSettled(adj: map<int, seq<Arc>>, dist: seq<int>, pq: seq<(int, int)>, top: (int, int), rest: seq<(int, int)>)
    requires multiset(rest) + multiset{top} == multiset(pq) && top in pq
    requires Entries(pq, |dist|) && Settled(adj, dist, pq, -1)
    ensures 0 <= top.1 < |dist|
    ensures Entries(rest, |dist|)
    ensures Settled(adj, dist, rest, if top.0 == dist[top.1] then top.1 else -1)
  {
    forall e | e in rest ensures e in pq {
      assert multiset(rest)[e] > 0;
      assert multiset(pq)[e] > 0;
    }
    var skip := if top.0 == dist[top.1] then top.1 else -1;
    forall x | 0 <= x < |dist| && x != skip ensures (dist[x], x) in rest || Relaxed(adj, dist, x) {
      if (dist[x], x) in pq {
        assert (dist[x], x) != top;
        assert multiset(pq)[(dist[x], x)] > 0;
      }
    }
  }

  /** Every edge is relaxed in both directions. */
  ghost predicate EdgesRelaxed(edges: seq<Edge>, dist: seq<int>)
  {
    forall i :: 0 <= i < |edges| && 0 <= edges[i].a < |dist| && 0 <= edges[i].b < |dist| ==>
      dist[edges[i].b] <= dist[edges[i].a] + Cost(edges[i]) &&
      dist[edges[i].a] <= dist[edges[i].b] + Cost(edges[i])
  }

  lemma AllRelaxed(edges: seq<Edge>, adj: map<int, seq<Arc>>, dist: seq<int>)
    requires AdjOf(adj, edges) && Settled(adj, dist, [], -1)
    ensures EdgesRelaxed(edges, dist)
  {
    forall i | 0 <= i < |edges| && 0 <= edges[i].a < |dist| && 0 <= edges[i].b < |dist|
      ensures dist[edges[i].b] <= dist[edges[i].a] + Cost(edges[i])
      ensures dist[edges[i].a] <= dist[edges[i].b] + Cost(edges[i])
    {
      var e := edges[i];
      assert HasArc(edges, e.a, e.b, Cost(e)) && HasArc(edges, e.b, e.a, Cost(e));
      assert ArcIn(adj, e.a, e.b, Cost(e)) && ArcIn(adj, e.b, e.a, Cost(e));
      assert Relaxed(adj, dist, e.a) && Relaxed(adj, dist, e.b);
      var p :| 0 <= p < |Arcs(adj, e.a)| && Arcs(adj, e.a)[p] == (e.b, Cost(e));
      var q :| 0 <= q < |Arcs(adj, e.b)| && Arcs(adj, e.b)[q] == (e.a, Cost(e));
    }
  }

  /** With every edge relaxed and the source at 0, no walk is cheaper than the distance it ends at. */
  lemma {:induction false} Optimal(edges: seq<Edge>, source: int, dist: seq<int>, v: int, c: nat)
    requires EdgesRelaxed(edges, dist) && LinksWithin(AllLinks(edges), |dist|)
    requires 0 <= source < |dist| && dist[source] == 0
    requires 0 <= v < |dist| && WithinCost(edges, source, v, c)
    ensures dist[v] <= c
    decreases c
  {
    if v != source {
      var i :| 0 <= i < |edges| && Cost(edges[i]) <= c &&
        ((edges[i].b == v && WithinCost(edges, source, edges[i].a, c - Cost(edges[i]))) ||
         (edges[i].a == v && WithinCost(edges, source, edges[i].b, c - Cost(edges[i]))));
      assert Key(edges[i]) in AllLinks(edges);
      if edges[i].b == v && WithinCost(edges, source, edges[i].a, c - Cost(edges[i])) {
        Optimal(edges, source, dist, edges[i].a, c - Cost(edges[i]));
      } else {
        Optimal(edges, source, dist, edges[i].b, c - Cost(edges[i]));
      }
    }
  }

  lemma StartState(edges: seq<Edge>, adj: map<int, seq<Arc>>, source: int, dist: seq<int>)
    requires ArcsOK(adj, |dist|) && 0 <= source < |dist| && dist[source] == 0
    requires forall x :: 0 <= x < |dist| && x != source ==> dist[x] == Inf
    ensures Sound(edges, source, dist) && Entries([(0, source)], |dist|) && Settled(adj, dist, [(0, source)], -1)
  {
    forall x | 0 <= x < |dist| && x != source ensures Relaxed(adj, dist, x) {
    }
  }

  /**
   * `dijkstra(edges, rows, cols, source)`: distances from `source` over all
   * the edges, an active edge costing 1 and an inactive one 5. The source is
   * at 0; every edge is relaxed; a distance below `10**9` is the cost of a walk
   * and no walk is cheaper, so each distance is the least walk cost, or
   * `10**9` when there is no walk cheaper than that.
   */
  method Dijkstra(edges: seq<Edge>, rows: int, cols: int, source: int) returns (dist: seq<int>)
    requires 0 <= source < rows * cols
    requires LinksWithin(AllLinks(edges), rows * cols)
    ensures |dist| == rows * cols && dist[source] == 0
    ensures forall v :: 0 <= v < |dist| ==> 0 <= dist[v] <= Inf
    ensures EdgesRelaxed(edges, dist)
    ensures forall v :: 0 <= v < |dist| && dist[v] < Inf ==> WithinCost(edges, source, v, dist[v])
    ensures forall v, c: nat :: 0 <= v < |dist| && WithinCost(edges, source, v, c) ==> dist[v] <= c
  {
    var n := rows * cols;
    dist := seq(n, _ => Inf);
    dist := dist[source := 0];
    var pq := [(0, source)];
    var adj := BuildAdj(edges);
    AdjInRange(edges, adj, n);
    StartState(edges, adj, source, dist);
    while pq != []
      invariant |dist| == n
      invariant Sound(edges, source, dist) && Entries(pq, n) && Settled(adj, dist, pq, -1)
      decreases Total(dist), |pq|
    {
      var top, rest := PopMin(pq);
      PopSettled(adj, dist, pq, top, rest);
      var (d, u) := top;
      pq := rest;
      if d == dist[u] {
        dist, pq := Relax(edges, adj, source, u, d, dist, pq);
      }
    }
    AllRelaxed(edges, adj, dist);
    forall v, c: nat | 0 <= v < |dist| && WithinCost(edges, source, v, c) ensures dist[v] <= c {
      Optimal(edges, source, dist, v, c);
    }
  }

  // ---------------------------------------------------------------- the guards

  /**
   * The neighbour loop of `guards_move`: among the nodes `nbs` that are
   * strictly closer than `g` in `dist`, the first one of least distance; None
   * when no neighbour is closer.
   */
  method BestNeighbour(dist: seq<int>, g: int, nbs: seq<int>) returns (best: Option<int>, ghost at: int)
    requires 0 <= g < |dist| && forall k :: 0 <= k < |nbs| ==> 0 <= nbs[k] < |dist|
    ensures best.None? <==> forall k :: 0 <= k < |nbs| ==> dist[nbs[k]] >= dist[g]
    ensures best.Some? ==> 0 <= at < |nbs| && nbs[at] == best.value && dist[best.value] < dist[g]
    ensures best.Some? ==> forall k :: 0 <= k < |nbs| ==> dist[best.value] <= dist[nbs[k]]
    ensures best.Some? ==> forall k :: 0 <= k < at ==> dist[best.value] < dist[nbs[k]]
  {
    best, at := None, -1;
    var k := 0;
    while k < |nbs|
      invariant 0 <= k <= |nbs|
      invariant best.None? <==> forall j :: 0 <= j < k ==> dist[nbs[j]] >= dist[g]
      invariant best.Some? ==> 0 <= at < k && nbs[at] == best.value && dist[best.value] < dist[g]
      invariant best.Some? ==> forall j :: 0 <= j < k ==> dist[best.value] <= dist[nbs[j]]
      invariant best.Some? ==> forall j :: 0 <= j < at ==> dist[best.value] < dist[nbs[j]]
    {
      var nb := nbs[k];
      if dist[nb] < dist[g] {
        if best.None? || dist[nb] < dist[best.value] {
          best, at := Some(nb), k;
        }
      }
      k := k + 1;
    }
  }

  /**
   * `guards_move(edges, rows, cols, guards, player)`: each guard runs
   * `dijkstra` from its own node and steps to the best strictly closer
   * neighbour, if any. Since the guard's own distance is 0 and no distance is
   * negative, no neighbour is ever closer, and every guard stays where it is;
   * `player` is not consulted.
   */
  method GuardsMove(edges: seq<Edge>, rows: nat, cols: nat, guards: seq<int>, player: int) returns (moved: seq<int>)
    requires LinksWithin(AllLinks(edges), rows * cols)
    requires forall i :: 0 <= i < |guards| ==> 0 <= guards[i] < rows * cols
    ensures moved == guards
  {
    moved := [];
    var i := 0;
    while i < |guards|
      invariant 0 <= i <= |guards|
      invariant moved == guards[..i]
    {
      var g := guards[i];
      var dist := Dijkstra(edges, rows, cols, g);
      var nbs := AdjacentNodes(g, rows, cols);
      var best, _ := BestNeighbour(dist, g, nbs);
      var next := match best
        case None => g
        case Some(b) => b;
      moved := moved + [next];
      i := i + 1;
    }
    assert guards[..i] == guards;
  }
}
