/**
 * `active_connectivity`: a union-find built over the active edges only, and the
 * win test of the game that asks it whether the player's cell and the exit
 * share a representative. Both are proved against reachability over the
 * active links.
 */
module Connectivity {
  import opened Walks
  import opened UnionFind
  import opened Grid

  /**
   * The representatives of a partition of 0..n-1 describe exactly the
   * reachability of `links`.
   */
  ghost predicate Describes(root: seq<int>, links: set<Link>)
  {
    forall x, y :: 0 <= x < |root| && 0 <= y < |root| ==> (root[x] == root[y] <==> Reachable(links, x, y))
  }

  /**
   * Merging the classes of `a` and `b` describes the reachability of the links
   * with the link (a, b) added.
   */
  lemma UnionDescribes(links: set<Link>, root: seq<int>, a: int, b: int)
    requires LinksWithin(links, |root|) && 0 <= a < |root| && 0 <= b < |root|
    requires Describes(root, links)
    ensures Describes(Merged(root, root[a], root[b]), links + {(a, b)})
  {
    var more := links + {(a, b)};
    var ra, rb := root[a], root[b];
    var m := Merged(root, ra, rb);
    assert LinksWithin(more, |root|);
    forall x, y | 0 <= x < |root| && 0 <= y < |root|
      ensures m[x] == m[y] <==> Reachable(more, x, y)
    {
      if m[x] == m[y] {
        MergedSameClass(links, root, a, b, x, y);
      }
      if Reachable(more, x, y) {
        forall l | l in more ensures m[l.0] == m[l.1] {
          if l in links {
            StepReachable(links, l.0, l.1);
          }
        }
        LabelsAgreeOnReachable(more, m, x, y);
      }
    }
  }

  lemma MergedSameClass(links: set<Link>, root: seq<int>, a: int, b: int, x: int, y: int)
    requires 0 <= a < |root| && 0 <= b < |root| && 0 <= x < |root| && 0 <= y < |root|
    requires Describes(root, links)
    requires Merged(root, root[a], root[b])[x] == Merged(root, root[a], root[b])[y]
    ensures Reachable(links + {(a, b)}, x, y)
  {
    var more := links + {(a, b)};
    var ra, rb := root[a], root[b];
    StepReachable(more, b, a);
    if root[x] == root[y] {
      ReachableMono(links, more, x, y);
    } else if root[x] == rb {
      assert root[y] == ra;
      ReachableMono(links, more, x, b);
      ReachableMono(links, more, a, y);
      ReachableTrans(more, x, b, a);
      ReachableTrans(more, x, a, y);
    } else {
      assert root[y] == rb && root[x] == ra;
      ReachableMono(links, more, x, a);
      ReachableMono(links, more, b, y);
      ReachableSym(more, b, a);
      ReachableTrans(more, x, a, b);
      ReachableTrans(more, x, b, y);
    }
  }

  /** With no links, each node reaches only itself. */
  lemma NoLinksDescribed(root: seq<int>)
    requires forall x :: 0 <= x < |root| ==> root[x] == x
    ensures Describes(root, {})
  {
    forall x, y | 0 <= x < |root| && 0 <= y < |root|
      ensures root[x] == root[y] <==> Reachable({}, x, y)
    {
      if x == y {
        ReachableRefl({}, x);
      } else if Reachable({}, x, y) {
        LabelsAgreeOnReachable({}, root, x, y);
      }
    }
  }

  /** Every link of a prefix of the edges is a link of all the edges. */
  lemma ActiveWithin(edges: seq<Edge>, i: nat, n: int)
    requires i <= |edges| && LinksWithin(AllLinks(edges), n)
    ensures LinksWithin(ActiveLinks(edges[..i]), n)
  {
    forall l | l in ActiveLinks(edges[..i]) ensures l in AllLinks(edges) {
      var j :| 0 <= j < i && edges[..i][j].active && Key(edges[..i][j]) == l;
      assert Key(edges[j]) == l;
    }
  }

  /** One step of `active_connectivity`: the union of an active edge keeps the partition describing reachability. */
  lemma ActiveStep(edges: seq<Edge>, i: nat, n: nat, root: seq<int>)
    requires i < |edges| && |root| == n && LinksWithin(AllLinks(edges), n)
    requires Describes(root, ActiveLinks(edges[..i]))
    ensures 0 <= edges[i].a < n && 0 <= edges[i].b < n
    ensures edges[i].active ==>
      Describes(Merged(root, root[edges[i].a], root[edges[i].b]), ActiveLinks(edges[..i + 1]))
    ensures !edges[i].active ==> Describes(root, ActiveLinks(edges[..i + 1]))
  {
    var e := edges[i];
    assert Key(edges[i]) in AllLinks(edges);
    assert edges[..i + 1] == edges[..i] + [e];
    ActiveLinksSnoc(edges[..i], e);
    if e.active {
      ActiveWithin(edges, i, n);
      UnionDescribes(ActiveLinks(edges[..i]), root, e.a, e.b);
    }
  }

  /**
   * `active_connectivity(edges, n)`: unions the two ends of every active edge,
   * in dictionary order. Two nodes end with the same representative exactly
   * when one can be reached from the other over active edges.
   */
  method ActiveConnectivity(edges: seq<Edge>, n: nat) returns (dsu: DSU)
    requires LinksWithin(AllLinks(edges), n)
    ensures fresh(dsu) && dsu.Valid() && |dsu.p| == n
    ensures Describes(dsu.root, ActiveLinks(edges))
  {
    dsu := new DSU(n);
    NoLinksDescribed(dsu.root);
    var i := 0;
    assert ActiveLinks(edges[..0]) == {};
    while i < |edges|
      invariant 0 <= i <= |edges|
      invariant fresh(dsu) && dsu.Valid() && |dsu.p| == n
      invariant Describes(dsu.root, ActiveLinks(edges[..i]))
    {
      var e := edges[i];
      ActiveStep(edges, i, n, dsu.root);
      if e.active {
        var _ := dsu.Union(e.a, e.b);
      }
      i := i + 1;
    }
    assert edges[..i] == edges;
  }

  /**
   * The win test of the game loop: build the active-edge union-find and compare
   * the representatives of `x` and `y`.
   */
  method Connected(edges: seq<Edge>, n: nat, x: int, y: int) returns (c: bool)
    requires LinksWithin(AllLinks(edges), n) && 0 <= x < n && 0 <= y < n
    ensures c <==> Reachable(ActiveLinks(edges), x, y)
  {
    var dsu := ActiveConnectivity(edges, n);
    var rx := dsu.Find(x);
    var ry := dsu.Find(y);
    c := rx == ry;
  }
}
