/**
 * `kruskal(edges, n)`: the edges are scanned in ascending weight order (Python's
 * sort is stable, so equal weights keep dictionary order) and an edge is kept
 * exactly when `union` of its two ends succeeds. The kept keys form a spanning
 * forest: they connect exactly what all the edges connect, and on a connected
 * graph of n nodes there are n - 1 of them.
 */
module Kruskal {
  import opened Walks
  import opened UnionFind
  import opened Grid
  import opened Connectivity

  // ---------------------------------------------------------------- the stable sort

  /** Edge i is placed before edge j by a stable sort on the weight. */
  predicate Before(edges: seq<Edge>, i: int, j: int)
  {
    0 <= i < |edges| && 0 <= j < |edges| &&
    (edges[i].w < edges[j].w || (edges[i].w == edges[j].w && i < j))
  }

  predicate IndicesBelow(s: seq<int>, k: int)
  {
    forall p :: 0 <= p < |s| ==> 0 <= s[p] < k
  }

  /** The indices `s` are in strictly ascending stable order. */
  predicate SortedBy(edges: seq<Edge>, s: seq<int>)
  {
    forall p, q :: 0 <= p < q < |s| ==> Before(edges, s[p], s[q])
  }

  /** Inserts index i into the sorted index list s. */
  function Insert(edges: seq<Edge>, i: int, s: seq<int>): seq<int>
  {
    if s == [] then [i]
    else if Before(edges, i, s[0]) then [i] + s
    else [s[0]] + Insert(edges, i, s[1..])
  }

  /** The indices 0..k-1 in the order Python's stable sort by weight lists them. */
  function SortByWeight(edges: seq<Edge>, k: nat): seq<int>
    requires k <= |edges|
  {
    if k == 0 then [] else Insert(edges, k - 1, SortByWeight(edges, k - 1))
  }

  /** Insertion adds exactly the one index. */
  lemma {:induction false} InsertElems(edges: seq<Edge>, i: int, s: seq<int>)
    ensures |Insert(edges, i, s)| == |s| + 1
    ensures forall x :: x in Insert(edges, i, s) <==> x == i || x in s
  {
    if s != [] && !Before(edges, i, s[0]) {
      InsertElems(edges, i, s[1..]);
      assert s == [s[0]] + s[1..];
    }
  }

  lemma SortedTail(edges: seq<Edge>, s: seq<int>)
    requires s != [] && SortedBy(edges, s)
    ensures SortedBy(edges, s[1..])
  {
    var t := s[1..];
    forall p, q | 0 <= p < q < |t| ensures Before(edges, t[p], t[q]) {
      assert t[p] == s[p + 1] && t[q] == s[q + 1];
    }
  }

  lemma ConsSorted(edges: seq<Edge>, h: int, t: seq<int>)
    requires SortedBy(edges, t) && forall x :: x in t ==> Before(edges, h, x)
    ensures SortedBy(edges, [h] + t)
  {
    var r := [h] + t;
    forall p, q | 0 <= p < q < |r| ensures Before(edges, r[p], r[q]) {
      if p == 0 {
        assert r[q] == t[q - 1] && t[q - 1] in t;
      } else {
        assert r[p] == t[p - 1] && r[q] == t[q - 1];
      }
    }
  }

  /** Insertion keeps the index list sorted. */
  lemma {:induction false} InsertSorted(edges: seq<Edge>, i: int, s: seq<int>)
    requires 0 <= i < |edges| && SortedBy(edges, s) && IndicesBelow(s, |edges|) && i !in s
    ensures SortedBy(edges, Insert(edges, i, s))
  {
    if s == [] {
    } else if Before(edges, i, s[0]) {
      forall x | x in s ensures Before(edges, i, x) {
        var q :| 0 <= q < |s| && s[q] == x;
        if q > 0 {
          assert Before(edges, s[0], s[q]);
        }
      }
      ConsSorted(edges, i, s);
    } else {
      var t := s[1..];
      SortedTail(edges, s);
      assert s == [s[0]] + t;
      InsertSorted(edges, i, t);
      InsertElems(edges, i, t);
      forall x | x in Insert(edges, i, t) ensures Before(edges, s[0], x) {
        if x != i {
          var q :| 0 <= q < |t| && t[q] == x;
          assert s[q + 1] == x;
        }
      }
      ConsSorted(edges, s[0], Insert(edges, i, t));
    }
  }

  lemma {:induction false} SortByWeightBelow(edges: seq<Edge>, k: nat)
    requires k <= |edges|
    ensures IndicesBelow(SortByWeight(edges, k), |edges|)
    ensures IndicesBelow(SortByWeight(edges, k), k)
    ensures |SortByWeight(edges, k)| == k
    ensures forall x :: x in SortByWeight(edges, k) <==> 0 <= x < k
    ensures SortedBy(edges, SortByWeight(edges, k))
  {
    if k > 0 {
      SortByWeightBelow(edges, k - 1);
      InsertElems(edges, k - 1, SortByWeight(edges, k - 1));
      InsertSorted(edges, k - 1, SortByWeight(edges, k - 1));
      var s := SortByWeight(edges, k);
      forall p | 0 <= p < |s| ensures 0 <= s[p] < k {
        assert s[p] in s;
      }
    }
  }

  /**
   * The stable sort by weight lists every edge exactly once (a permutation of
   * the indices) in ascending weight order, and equal weights keep their
   * dictionary order.
   */
  lemma SortByWeightCorrect(edges: seq<Edge>)
    ensures |SortByWeight(edges, |edges|)| == |edges|
    ensures forall x :: x in SortByWeight(edges, |edges|) <==> 0 <= x < |edges|
    ensures forall p, q :: 0 <= p < q < |edges| ==> Before(edges, SortByWeight(edges, |edges|)[p], SortByWeight(edges, |edges|)[q])
  {
    SortByWeightBelow(edges, |edges|);
  }

  /** The keys of the edges in the order `kruskal` scans them. */
  function SortedKeys(edges: seq<Edge>): (ks: seq<Link>)
    ensures |ks| == |edges|
  {
    SortByWeightBelow(edges, |edges|);
    var order := SortByWeight(edges, |edges|);
    seq(|edges|, j requires 0 <= j < |edges| => Key(edges[order[j]]))
  }

  /** Two edge lists with the same keys and weights, position by position; their flags may differ. */
  ghost predicate SameKeysAndWeights(xs: seq<Edge>, ys: seq<Edge>)
  {
    |xs| == |ys| && forall i :: 0 <= i < |xs| ==> Key(xs[i]) == Key(ys[i]) && xs[i].w == ys[i].w
  }

  lemma {:induction false} InsertSame(xs: seq<Edge>, ys: seq<Edge>, i: int, s: seq<int>)
    requires SameKeysAndWeights(xs, ys)
    ensures Insert(xs, i, s) == Insert(ys, i, s)
  {
    if s != [] {
      assert Before(xs, i, s[0]) == Before(ys, i, s[0]);
      InsertSame(xs, ys, i, s[1..]);
    }
  }

  lemma {:induction false} SortByWeightSame(xs: seq<Edge>, ys: seq<Edge>, k: nat)
    requires SameKeysAndWeights(xs, ys) && k <= |xs|
    ensures SortByWeight(xs, k) == SortByWeight(ys, k)
  {
    if k > 0 {
      SortByWeightSame(xs, ys, k - 1);
      InsertSame(xs, ys, k - 1, SortByWeight(xs, k - 1));
    }
  }

  /** The scan order of `kruskal` reads only the keys and the weights, never the `active` or `critical` flags. */
  lemma SortedKeysSame(xs: seq<Edge>, ys: seq<Edge>)
    requires SameKeysAndWeights(xs, ys)
    ensures SortedKeys(xs) == SortedKeys(ys)
  {
    SortByWeightSame(xs, ys, |xs|);
    SortByWeightBelow(xs, |xs|);
    var order := SortByWeight(xs, |xs|);
    forall j | 0 <= j < |xs| ensures SortedKeys(xs)[j] == SortedKeys(ys)[j] {
      assert 0 <= order[j] < |xs|;
    }
  }

  lemma SortedKeysAreAllLinks(edges: seq<Edge>)
    ensures forall l :: l in SortedKeys(edges) <==> l in AllLinks(edges)
  {
    SortByWeightBelow(edges, |edges|);
    var order := SortByWeight(edges, |edges|);
    var ks := SortedKeys(edges);
    forall l | l in AllLinks(edges) ensures l in ks {
      var i :| 0 <= i < |edges| && Key(edges[i]) == l;
      assert i in order;
      var j :| 0 <= j < |order| && order[j] == i;
      assert ks[j] == l;
    }
  }

  // ---------------------------------------------------------------- the greedy forest

  function Elems(s: seq<Link>): set<Link>
  {
    set l | l in s
  }

  /**
   * The reference Kruskal selection: scanning `order`, a link is kept exactly
   * when its ends are not yet connected by the links kept before it.
   */
  ghost function Greedy(order: seq<Link>): seq<Link>
  {
    if order == [] then []
    else
      var prev := Greedy(order[..|order| - 1]);
      var l := order[|order| - 1];
      if Reachable(Elems(prev), l.0, l.1) then prev else prev + [l]
  }

  /** No link is kept twice. */
  predicate Distinct(s: seq<Link>)
  {
    forall p, q :: 0 <= p < q < |s| ==> s[p] != s[q]
  }

  /** The state of the scan after the first i sorted links: what the union-find knows about the kept links. */
  ghost predicate ScanState(order: seq<Link>, i: nat, root: seq<int>, kept: seq<Link>, n: nat)
  {
    && i <= |order|
    && |root| == n
    && kept == Greedy(order[..i])
    && Distinct(kept)
    && LinksWithin(Elems(kept), n)
    && Describes(root, Elems(kept))
    && |kept| + |Roots(root)| == n
    && Joined(order, i, root, n)
  }

  /** Before the scan every node is its own class and nothing is kept. */
  lemma ScanStart(order: seq<Link>, root: seq<int>, n: nat)
    requires |root| == n && forall x :: 0 <= x < n ==> root[x] == x
    ensures ScanState(order, 0, root, [], n)
  {
    assert order[..0] == [];
    IdentityRoots(root);
    NoLinksDescribed(root);
    assert Elems([]) == {};
  }

  /** Every link scanned so far joins two nodes of the same class. */
  ghost predicate Joined(order: seq<Link>, i: nat, root: seq<int>, n: nat)
    requires i <= |order| && |root| == n
  {
    forall j :: 0 <= j < i ==> 0 <= order[j].0 < n && 0 <= order[j].1 < n && root[order[j].0] == root[order[j].1]
  }

  lemma GreedyKeeps(order: seq<Link>, i: nat, kept: seq<Link>)
    requires i < |order| && kept == Greedy(order[..i]) && !Reachable(Elems(kept), order[i].0, order[i].1)
    ensures Greedy(order[..i + 1]) == kept + [order[i]]
  {
    assert order[..i + 1][..i] == order[..i];
  }

  lemma KeepDistinct(kept: seq<Link>, l: Link)
    requires Distinct(kept) && !Reachable(Elems(kept), l.0, l.1)
    ensures Distinct(kept + [l]) && Elems(kept + [l]) == Elems(kept) + {l}
  {
    if l in kept {
      StepReachable(Elems(kept), l.0, l.1);
    }
  }

  lemma KeepJoined(order: seq<Link>, i: nat, root: seq<int>, n: nat)
    requires i < |order| && |root| == n && Joined(order, i, root, n)
    requires 0 <= order[i].0 < n && 0 <= order[i].1 < n
    ensures Joined(order, i + 1, Merged(root, root[order[i].0], root[order[i].1]), n)
  {
  }

  /** The scan keeps a link whose ends are in different classes. */
  lemma ScanKeep(order: seq<Link>, i: nat, root: seq<int>, kept: seq<Link>, n: nat)
    requires ScanState(order, i, root, kept, n) && i < |order| && Canonical(root)
    requires 0 <= order[i].0 < n && 0 <= order[i].1 < n && root[order[i].0] != root[order[i].1]
    ensures ScanState(order, i + 1, Merged(root, root[order[i].0], root[order[i].1]), kept + [order[i]], n)
  {
    var (a, b) := order[i];
    GreedyKeeps(order, i, kept);
    KeepDistinct(kept, (a, b));
    UnionDescribes(Elems(kept), root, a, b);
    MergedRoots(root, root[a], root[b]);
    KeepJoined(order, i, root, n);
  }

  /** The scan skips a link whose ends are already in one class. */
  lemma ScanSkip(order: seq<Link>, i: nat, root: seq<int>, kept: seq<Link>, n: nat)
    requires ScanState(order, i, root, kept, n) && i < |order|
    requires 0 <= order[i].0 < n && 0 <= order[i].1 < n && root[order[i].0] == root[order[i].1]
    ensures ScanState(order, i + 1, Merged(root, root[order[i].0], root[order[i].1]), kept, n)
  {
    var (a, b) := order[i];
    assert order[..i + 1][..i] == order[..i];
    assert Reachable(Elems(kept), a, b);
    assert Merged(root, root[a], root[b]) == root;
  }

  /** One step of the scan: `union` of the next link's ends succeeds exactly when the greedy selection keeps it. */
  lemma ScanStep(order: seq<Link>, i: nat, root: seq<int>, kept: seq<Link>, n: nat)
    requires ScanState(order, i, root, kept, n) && i < |order| && Canonical(root)
    requires 0 <= order[i].0 < n && 0 <= order[i].1 < n
    ensures ScanState(order, i + 1, Merged(root, root[order[i].0], root[order[i].1]),
      if root[order[i].0] != root[order[i].1] then kept + [order[i]] else kept, n)
  {
    if root[order[i].0] != root[order[i].1] {
      ScanKeep(order, i, root, kept, n);
    } else {
      ScanSkip(order, i, root, kept, n);
    }
  }

  /** Both ends of every link of `order` are nodes 0..n-1. */
  predicate EndsBelow(order: seq<Link>, n: int)
  {
    forall j :: 0 <= j < |order| ==> 0 <= order[j].0 < n && 0 <= order[j].1 < n
  }

  ghost predicate Canonical(root: seq<int>)
  {
    forall x :: 0 <= x < |root| ==> 0 <= root[x] < |root| && root[root[x]] == root[x]
  }

  /**
   * The loop of `kruskal`: a fresh union-find over n nodes, and for every link in
   * scan order the link is appended to the result when `union` of its ends
   * succeeds. The result is the greedy selection, and `root` is the partition
   * the union-find ends with.
   */
  method GreedyScan(order: seq<Link>, n: nat) returns (kept: seq<Link>, ghost root: seq<int>)
    requires EndsBelow(order, n)
    ensures kept == Greedy(order) && Distinct(kept) && LinksWithin(Elems(kept), n)
    ensures ScanState(order, |order|, root, kept, n) && Canonical(root)
  {
    var dsu := new DSU(n);
    ScanStart(order, dsu.root, n);
    kept := [];
    var i := 0;
    while i < |order|
      invariant 0 <= i <= |order|
      invariant fresh(dsu) && dsu.Valid() && |dsu.p| == n
      invariant ScanState(order, i, dsu.root, kept, n)
    {
      var (a, b) := order[i];
      assert Canonical(dsu.root);
      ScanStep(order, i, dsu.root, kept, n);
      var merged := dsu.Union(a, b);
      if merged {
        kept := kept + [(a, b)];
      }
      i := i + 1;
    }
    root := dsu.root;
    assert order[..|order|] == order;
  }

  /**
   * `kruskal(edges, n)`: scans the edges in the stable weight order and keeps
   * the key of every edge whose `union` succeeds. The result is the greedy
   * selection; it connects exactly what all the edges connect; and when every
   * node is reachable from node 0 it has n - 1 keys.
   */
  method Kruskal(edges: seq<Edge>, n: nat) returns (mst: set<Link>)
    requires LinksWithin(AllLinks(edges), n)
    ensures mst == Elems(Greedy(SortedKeys(edges)))
    ensures mst <= AllLinks(edges)
    ensures forall x, y :: 0 <= x < n && 0 <= y < n ==>
      (Reachable(mst, x, y) <==> Reachable(AllLinks(edges), x, y))
    ensures n > 0 && (forall x :: 0 <= x < n ==> Reachable(AllLinks(edges), 0, x)) ==> |mst| == n - 1
  {
    var keys := SortedKeys(edges);
    SortedKeysAreAllLinks(edges);
    assert EndsBelow(keys, n) by {
      forall j | 0 <= j < |keys| ensures 0 <= keys[j].0 < n && 0 <= keys[j].1 < n {
        assert keys[j] in AllLinks(edges);
      }
    }
    var kept, root := GreedyScan(keys, n);
    assert keys[..|keys|] == keys;
    mst := set l | l in kept;
    KruskalSpans(edges, n, keys, root, kept);
  }

  /** At the end of the scan the kept links connect exactly what all the links connect. */
  lemma KruskalSpans(edges: seq<Edge>, n: nat, keys: seq<Link>, root: seq<int>, kept: seq<Link>)
    requires keys == SortedKeys(edges) && ScanState(keys, |keys|, root, kept, n)
    requires forall l :: l in keys <==> l in AllLinks(edges)
    requires Canonical(root)
    ensures Elems(kept) <= AllLinks(edges)
    ensures forall x, y :: 0 <= x < n && 0 <= y < n ==>
      (Reachable(Elems(kept), x, y) <==> Reachable(AllLinks(edges), x, y))
    ensures n > 0 && (forall x :: 0 <= x < n ==> Reachable(AllLinks(edges), 0, x)) ==> |Elems(kept)| == n - 1
  {
    GreedySubset(keys);
    assert keys[..|keys|] == keys;
    var all := AllLinks(edges);
    forall x, y | 0 <= x < n && 0 <= y < n
      ensures Reachable(Elems(kept), x, y) <==> Reachable(all, x, y)
    {
      if Reachable(Elems(kept), x, y) {
        ReachableMono(Elems(kept), all, x, y);
      }
      if Reachable(all, x, y) {
        forall l | l in all ensures root[l.0] == root[l.1] {
          var j :| 0 <= j < |keys| && keys[j] == l;
        }
        assert LinksWithin(all, n) by {
          forall l | l in all ensures 0 <= l.0 < n && 0 <= l.1 < n {
            var j :| 0 <= j < |keys| && keys[j] == l;
          }
        }
        LabelsAgreeOnReachable(all, root, x, y);
      }
    }
    DistinctCard(kept);
    if n > 0 && (forall x :: 0 <= x < n ==> Reachable(all, 0, x)) {
      forall x | 0 <= x < n ensures root[x] == root[0] {
        assert Reachable(Elems(kept), 0, x);
      }
      SingleClassRoots(root);
    }
  }

  /** The greedy selection only keeps links it scanned. */
  lemma {:induction false} GreedySubset(order: seq<Link>)
    ensures forall l :: l in Greedy(order) ==> l in order
  {
    if order != [] {
      var init := order[..|order| - 1];
      GreedySubset(init);
      forall l | l in init ensures l in order {
        var j :| 0 <= j < |init| && init[j] == l;
        assert order[j] == l;
      }
    }
  }

  lemma {:induction false} DistinctCard(s: seq<Link>)
    requires Distinct(s)
    ensures |Elems(s)| == |s|
  {
    if s != [] {
      var init := s[..|s| - 1];
      assert Distinct(init);
      DistinctCard(init);
      assert s == init + [s[|s| - 1]];
      assert Elems(s) == Elems(init) + {s[|s| - 1]};
      assert s[|s| - 1] !in Elems(init);
    }
  }
}
