/**
 * The disjoint-set forest of the game (class DSU): a parent list `p` over the
 * node indices 0..n-1, `find` with path halving and `union` that hangs the
 * second root under the first one.
 *
 * The ghost sequence `root` is the abstract partition: `root[x]` is the
 * representative that `find(x)` reaches. The ghost sequence `depth` ranks every
 * element strictly above its parent, which is what makes `find` terminate.
 */
module UnionFind {

  /** The partition after the class represented by `rb` is hung under `ra`. */
  function Merged(root: seq<int>, ra: int, rb: int): (r: seq<int>)
    ensures |r| == |root|
    ensures forall x :: 0 <= x < |root| && root[x] == rb ==> r[x] == ra
    ensures forall x :: 0 <= x < |root| && root[x] != rb ==> r[x] == root[x]
  {
    seq(|root|, x requires 0 <= x < |root| => if root[x] == rb then ra else root[x])
  }

  /** The set of representatives (the roots) among 0..n-1. */
  function Roots(root: seq<int>): set<int>
  {
    set x | 0 <= x < |root| && root[x] == x
  }

  /**
   * The forest invariant on a parent list: parents and representatives are in
   * range, a parent has the same representative as its child, a representative
   * is a root, and `depth` strictly decreases from child to parent.
   */
  ghost predicate Forest(p: seq<int>, root: seq<int>, depth: seq<nat>)
  {
    && |root| == |p|
    && |depth| == |p|
    && (forall x {:trigger p[x]} :: 0 <= x < |p| ==> 0 <= p[x] < |p|)
    && (forall x {:trigger root[x]} :: 0 <= x < |p| ==>
          0 <= root[x] < |p| && root[root[x]] == root[x] && p[root[x]] == root[x])
    && (forall x {:trigger p[x]} :: 0 <= x < |p| ==> root[p[x]] == root[x])
    && (forall x {:trigger p[x]} :: 0 <= x < |p| && p[x] == x ==> root[x] == x)
    && (forall x {:trigger p[x]} :: 0 <= x < |p| ==> (p[x] == x <==> depth[x] == 0))
    && (forall x {:trigger p[x]} :: 0 <= x < |p| && p[x] != x ==> depth[p[x]] < depth[x])
  }

  /** Path halving at `x` keeps the forest invariant and every representative. */
  lemma HalvingKeepsForest(p: seq<int>, root: seq<int>, depth: seq<nat>, x: int)
    requires Forest(p, root, depth) && 0 <= x < |p| && p[x] != x
    ensures Forest(p[x := p[p[x]]], root, depth)
    ensures depth[p[p[x]]] < depth[x]
  {
  }

  /** The depth ranking after root `rb` is hung under another root. */
  ghost function Deepened(root: seq<int>, depth: seq<nat>, rb: int): (d: seq<nat>)
    requires |root| == |depth|
    ensures |d| == |depth|
    ensures forall y :: 0 <= y < |depth| ==> d[y] == if root[y] == rb then depth[y] + 1 else depth[y]
  {
    seq(|depth|, y requires 0 <= y < |depth| => if root[y] == rb then depth[y] + 1 else depth[y])
  }

  /** Hanging root `rb` under root `ra` keeps the forest invariant. */
  lemma LinkKeepsForest(p: seq<int>, root: seq<int>, depth: seq<nat>, ra: int, rb: int)
    requires Forest(p, root, depth) && 0 <= ra < |p| && 0 <= rb < |p| && ra != rb
    requires p[ra] == ra && p[rb] == rb
    ensures Forest(p[rb := ra], Merged(root, ra, rb), Deepened(root, depth, rb))
  {
    var p', root', depth' := p[rb := ra], Merged(root, ra, rb), Deepened(root, depth, rb);
    assert root[ra] == ra && root[rb] == rb;
    forall x | 0 <= x < |p|
      ensures 0 <= p'[x] < |p| && 0 <= root'[x] < |p|
      ensures root'[p'[x]] == root'[x]
      ensures p'[root'[x]] == root'[x]
      ensures p'[x] == x ==> root'[x] == x
      ensures p'[x] == x <==> depth'[x] == 0
      ensures p'[x] != x ==> depth'[p'[x]] < depth'[x]
    {
      if x == rb {
        assert root'[x] == ra && p'[x] == ra && root'[ra] == ra;
      } else {
        assert p'[x] == p[x];
        assert root[p[x]] == root[x];
      }
    }
  }

  class DSU {
    var p: seq<int>
    ghost var root: seq<int>
    ghost var depth: seq<nat>

    ghost predicate Valid()
      reads this
    {
      Forest(p, root, depth)
    }

    /** `DSU(n)`: every node is its own parent, so every class is a singleton. */
    constructor (n: nat)
      ensures Valid() && |p| == n
      ensures forall x :: 0 <= x < n ==> root[x] == x
    {
      p := seq(n, i => i);
      root := seq(n, i => i);
      depth := seq(n, i => 0);
    }

    /**
     * `find(a)`: walks to the root, pointing every visited element at its
     * grandparent on the way (path halving). The partition is unchanged and the
     * answer is the representative of `a`, which is a root.
     */
    method Find(a: int) returns (r: int)
      requires Valid() && 0 <= a < |p|
      modifies this
      ensures Valid()
      ensures root == old(root) && depth == old(depth)
      ensures r == root[a] && p[r] == r
    {
      r := a;
      while p[r] != r
        invariant Valid()
        invariant 0 <= r < |p|
        invariant root == old(root) && depth == old(depth)
        invariant root[r] == root[a]
        decreases depth[r]
      {
        HalvingKeepsForest(p, root, depth, r);
        p := p[r := p[p[r]]];
        r := p[r];
      }
    }

    /**
     * `union(a, b)`: reports whether a merge happened, which is exactly when
     * `a` and `b` were in different classes; the class of `b` joins that of `a`.
     */
    method Union(a: int, b: int) returns (merged: bool)
      requires Valid() && 0 <= a < |p| && 0 <= b < |p|
      modifies this
      ensures Valid()
      ensures merged <==> old(root)[a] != old(root)[b]
      ensures root == Merged(old(root), old(root)[a], old(root)[b])
      ensures root[a] == root[b]
    {
      var ra := Find(a);
      var rb := Find(b);
      if ra == rb {
        assert Merged(root, ra, rb) == root;
        return false;
      }
      LinkKeepsForest(p, root, depth, ra, rb);
      ghost var oldRoot := root;
      p := p[rb := ra];
      root := Merged(root, ra, rb);
      depth := Deepened(oldRoot, depth, rb);
      merged := true;
    }
  }

  /** Hanging one root under another removes exactly that root. */
  lemma {:induction false} MergedRoots(root: seq<int>, ra: int, rb: int)
    requires 0 <= ra < |root| && 0 <= rb < |root| && ra != rb
    requires root[ra] == ra && root[rb] == rb
    ensures Roots(Merged(root, ra, rb)) == Roots(root) - {rb}
    ensures |Roots(Merged(root, ra, rb))| == |Roots(root)| - 1
  {
    var m := Merged(root, ra, rb);
    forall x | 0 <= x < |root|
      ensures x in Roots(m) <==> x in Roots(root) - {rb}
    {
      if root[x] == rb {
        assert m[x] == ra;
        assert x == rb <==> x in Roots(root);
      }
    }
    assert Roots(m) == Roots(root) - {rb};
  }

  /** With the identity partition every node is a root. */
  lemma {:induction false} IdentityRoots(root: seq<int>)
    requires forall x :: 0 <= x < |root| ==> root[x] == x
    ensures |Roots(root)| == |root|
  {
    if |root| > 0 {
      var n := |root| - 1;
      var shorter := root[..n];
      IdentityRoots(shorter);
      assert Roots(root) == Roots(shorter) + {n};
    }
  }

  /** When every node shares one representative, there is exactly one root. */
  lemma {:induction false} SingleClassRoots(root: seq<int>)
    requires |root| > 0
    requires forall x :: 0 <= x < |root| ==> root[x] == root[0]
    requires 0 <= root[0] < |root| && root[root[0]] == root[0]
    ensures Roots(root) == {root[0]}
    ensures |Roots(root)| == 1
  {
  }
}
