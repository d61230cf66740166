/**
 * Undirected reachability over a set of links between node indices. A link
 * `(u, v)` can be crossed in either direction, as the game's edges (keyed by an
 * unordered node pair) can. This is the reference meaning of "connected" that
 * the union-find answers of the game are proved against.
 */
module Walks {
  import opened Wrappers

  type Link = (int, int)

  /** One step from `u` to `v` crosses a link in either direction. */
  predicate Step(links: set<Link>, u: int, v: int)
  {
    (u, v) in links || (v, u) in links
  }

  /** A walk is a non-empty node sequence whose consecutive nodes are linked. */
  ghost predicate IsWalk(links: set<Link>, w: seq<int>)
  {
    |w| > 0 && forall k :: 0 <= k < |w| - 1 ==> Step(links, w[k], w[k + 1])
  }

  ghost predicate Reachable(links: set<Link>, x: int, y: int)
  {
    exists w :: IsWalk(links, w) && w[0] == x && w[|w| - 1] == y
  }

  lemma ReachableRefl(links: set<Link>, x: int)
    ensures Reachable(links, x, x)
  {
    assert IsWalk(links, [x]);
  }

  lemma StepReachable(links: set<Link>, u: int, v: int)
    requires Step(links, u, v)
    ensures Reachable(links, u, v)
  {
    assert IsWalk(links, [u, v]);
  }

  lemma ReachableSym(links: set<Link>, x: int, y: int)
    requires Reachable(links, x, y)
    ensures Reachable(links, y, x)
  {
    var w :| IsWalk(links, w) && w[0] == x && w[|w| - 1] == y;
    var r := Reverse(w);
    forall k | 0 <= k < |r| - 1
      ensures Step(links, r[k], r[k + 1])
    {
      ReverseAt(w, k);
      ReverseAt(w, k + 1);
      assert r[k] == w[|w| - 1 - k] && r[k + 1] == w[|w| - 1 - k - 1];
      assert Step(links, w[|w| - 2 - k], w[|w| - 2 - k + 1]);
    }
    assert IsWalk(links, r);
    ReverseAt(w, 0);
    ReverseAt(w, |w| - 1);
  }

  lemma ReachableTrans(links: set<Link>, x: int, y: int, z: int)
    requires Reachable(links, x, y) && Reachable(links, y, z)
    ensures Reachable(links, x, z)
  {
    var w1 :| IsWalk(links, w1) && w1[0] == x && w1[|w1| - 1] == y;
    var w2 :| IsWalk(links, w2) && w2[0] == y && w2[|w2| - 1] == z;
    var w := w1 + w2[1..];
    forall k | 0 <= k < |w| - 1
      ensures Step(links, w[k], w[k + 1])
    {
      if k < |w1| - 1 {
        assert w[k] == w1[k] && w[k + 1] == w1[k + 1];
      } else {
        var j := k - |w1| + 1;
        assert w[k] == w2[j] && w[k + 1] == w2[j + 1];
      }
    }
    assert IsWalk(links, w);
  }

  /** Reachability is an equivalence relation on node indices. */
  lemma ReachableIsEquivalence(links: set<Link>)
    ensures forall x :: Reachable(links, x, x)
    ensures forall x, y :: Reachable(links, x, y) ==> Reachable(links, y, x)
    ensures forall x, y, z :: Reachable(links, x, y) && Reachable(links, y, z) ==> Reachable(links, x, z)
  {
    forall x ensures Reachable(links, x, x) { ReachableRefl(links, x); }
    forall x, y | Reachable(links, x, y) ensures Reachable(links, y, x) { ReachableSym(links, x, y); }
    forall x, y, z | Reachable(links, x, y) && Reachable(links, y, z)
      ensures Reachable(links, x, z)
    {
      ReachableTrans(links, x, y, z);
    }
  }

  /** More links never disconnect anything. */
  lemma ReachableMono(links: set<Link>, more: set<Link>, x: int, y: int)
    requires links <= more && Reachable(links, x, y)
    ensures Reachable(more, x, y)
  {
    var w :| IsWalk(links, w) && w[0] == x && w[|w| - 1] == y;
    assert IsWalk(more, w);
  }

  /** Every link of `links` joins two nodes in 0..n-1. */
  ghost predicate LinksWithin(links: set<Link>, n: int)
  {
    forall l :: l in links ==> 0 <= l.0 < n && 0 <= l.1 < n
  }

  /**
   * A labelling that agrees on both ends of every link agrees along every walk:
   * the label of the end of a walk is the label of its start.
   */
  lemma {:induction false} LabelsAgreeAlongWalk(links: set<Link>, tag: seq<int>, w: seq<int>)
    requires LinksWithin(links, |tag|)
    requires forall l :: l in links ==> tag[l.0] == tag[l.1]
    requires IsWalk(links, w) && 0 <= w[0] < |tag|
    ensures 0 <= w[|w| - 1] < |tag| && tag[w[|w| - 1]] == tag[w[0]]
  {
    if |w| > 1 {
      var s := w[..|w| - 1];
      assert IsWalk(links, s) by {
        forall k | 0 <= k < |s| - 1 ensures Step(links, s[k], s[k + 1]) {
          assert s[k] == w[k] && s[k + 1] == w[k + 1];
        }
      }
      LabelsAgreeAlongWalk(links, tag, s);
      assert Step(links, w[|w| - 2], w[|w| - 1]);
    }
  }

  lemma LabelsAgreeOnReachable(links: set<Link>, tag: seq<int>, x: int, y: int)
    requires LinksWithin(links, |tag|)
    requires forall l :: l in links ==> tag[l.0] == tag[l.1]
    requires Reachable(links, x, y) && 0 <= x < |tag|
    ensures 0 <= y < |tag| && tag[x] == tag[y]
  {
    var w :| IsWalk(links, w) && w[0] == x && w[|w| - 1] == y;
    LabelsAgreeAlongWalk(links, tag, w);
  }
}
