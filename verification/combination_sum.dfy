/**
 * `combinationSum(candidates, target)`: every multiset of candidates (each one
 * usable any number of times) that adds up to `target`, each listed once in
 * candidate order. The search extends the shared `comb` list with candidate
 * positions that never go backwards, and abandons a branch as soon as the
 * running total passes `target`.
 */
module CombinationSum {
  import Wrappers

  function Sum(s: seq<int>): int
  {
    if s == [] then 0 else s[0] + Sum(s[1..])
  }

  lemma SumAppend(a: seq<int>, b: seq<int>)
    ensures Sum(a + b) == Sum(a) + Sum(b)
  {
    if a == [] {
      assert a + b == b;
    } else {
      assert (a + b)[1..] == a[1..] + b;
      SumAppend(a[1..], b);
    }
  }

  /** The candidates at the positions `idx`. */
  function Values(cands: seq<int>, idx: seq<nat>): (vs: seq<int>)
    requires forall k :: 0 <= k < |idx| ==> idx[k] < |cands|
    ensures |vs| == |idx|
  {
    if idx == [] then [] else [cands[idx[0]]] + Values(cands, idx[1..])
  }

  /** Positions into `cands`, all from `start` on, that never go backwards. */
  ghost predicate Ascending(idx: seq<nat>, start: nat, m: nat)
  {
    && (forall k :: 0 <= k < |idx| ==> start <= idx[k] < m)
    && (forall k, l :: 0 <= k < l < |idx| ==> idx[k] <= idx[l])
  }

  predicate Positive(cands: seq<int>)
  {
    forall k :: 0 <= k < |cands| ==> cands[k] > 0
  }

  /** The lists that `backtrack(start, total)` records when `comb` holds `comb`, in the order recorded. */
  function Combos(cands: seq<int>, target: int, start: nat, total: int, comb: seq<int>): seq<seq<int>>
    requires Positive(cands) && start <= |cands|
    decreases target - total, |cands| + 1
  {
    if total == target then [comb]
    else if total > target then []
    else Branches(cands, target, start, start, total, comb)
  }

  /** The loop of `backtrack(start, total)` from candidate position i on. */
  function Branches(cands: seq<int>, target: int, start: nat, i: nat, total: int, comb: seq<int>): seq<seq<int>>
    requires Positive(cands) && start <= i <= |cands| && total < target
    decreases target - total, |cands| - i
  {
    if i == |cands| then []
    else Combos(cands, target, i, total + cands[i], comb + [cands[i]]) + Branches(cands, target, start, i + 1, total, comb)
  }

  /**
   * `backtrack(start, total)`: records `comb` when the total has reached the
   * target and gives up when it has passed it; otherwise, for each position i
   * from `start` on, appends `candidates[i]`, recurses from i (so the same
   * candidate may be used again) and pops it. `comb` is handed back as it was
   * received.
   */
  method Backtrack(cands: seq<int>, target: int, start: nat, total: int, comb: seq<int>, res: seq<seq<int>>)
    returns (comb': seq<int>, res': seq<seq<int>>)
    requires Positive(cands) && start <= |cands|
    ensures comb' == comb
    ensures res' == res + Combos(cands, target, start, total, comb)
    decreases target - total
  {
    if total == target {
      return comb, res + [comb];
    }
    if total > target {
      return comb, res;
    }
    comb', res' := comb, res;
    for i := start to |cands|
      invariant comb' == comb
      invariant res' + Branches(cands, target, start, i, total, comb) == res + Combos(cands, target, start, total, comb)
    {
      ghost var before := res';
      ghost var sub := Combos(cands, target, i, total + cands[i], comb + [cands[i]]);
      ghost var rest := Branches(cands, target, start, i + 1, total, comb);
      assert Branches(cands, target, start, i, total, comb) == sub + rest;
      comb' := comb' + [cands[i]];
      comb', res' := Backtrack(cands, target, i, total + cands[i], comb', res');
      assert comb' == comb + [cands[i]];
      comb' := comb'[..|comb'| - 1];
      Wrappers.AppendAssoc(before, sub, rest);
    }
  }

  /**
   * Every list recorded is `comb` followed by the candidates at ascending
   * positions from `start` on, adding up to what the total lacked.
   */
  lemma {:induction false} CombosSound(cands: seq<int>, target: int, start: nat, total: int, comb: seq<int>, x: seq<int>)
    returns (idx: seq<nat>)
    requires Positive(cands) && start <= |cands| && x in Combos(cands, target, start, total, comb)
    ensures Ascending(idx, start, |cands|) && x == comb + Values(cands, idx)
    ensures total + Sum(Values(cands, idx)) == target
    decreases target - total, |cands| + 1
  {
    if total == target {
      idx := [];
      assert Values(cands, idx) == [];
    } else {
      idx := BranchesSound(cands, target, start, start, total, comb, x);
    }
  }

  lemma {:induction false} BranchesSound(cands: seq<int>, target: int, start: nat, i: nat, total: int, comb: seq<int>, x: seq<int>)
    returns (idx: seq<nat>)
    requires Positive(cands) && start <= i <= |cands| && total < target
    requires x in Branches(cands, target, start, i, total, comb)
    ensures Ascending(idx, start, |cands|) && x == comb + Values(cands, idx)
    ensures total + Sum(Values(cands, idx)) == target
    decreases target - total, |cands| - i
  {
    if x in Combos(cands, target, i, total + cands[i], comb + [cands[i]]) {
      var rest := CombosSound(cands, target, i, total + cands[i], comb + [cands[i]], x);
      idx := [i] + rest;
      ConsIndex(cands, start, i, rest);
    } else {
      idx := BranchesSound(cands, target, start, i + 1, total, comb, x);
    }
  }

  /**
   * `total` is the sum of `comb`: both start empty, and each call adds the
   * candidate it appends to both. So every list recorded adds up to the target.
   */
  lemma CombosTotal(cands: seq<int>, target: int, start: nat, total: int, comb: seq<int>, x: seq<int>)
    requires Positive(cands) && start <= |cands| && total == Sum(comb)
    requires x in Combos(cands, target, start, total, comb)
    ensures Sum(x) == target
  {
    var idx := CombosSound(cands, target, start, total, comb, x);
    SumAppend(comb, Values(cands, idx));
  }

  /** Putting position i in front of ascending positions from i on. */
  lemma ConsIndex(cands: seq<int>, start: nat, i: nat, rest: seq<nat>)
    requires start <= i < |cands| && Ascending(rest, i, |cands|)
    ensures Ascending([i] + rest, start, |cands|)
    ensures Values(cands, [i] + rest) == [cands[i]] + Values(cands, rest)
    ensures Sum(Values(cands, [i] + rest)) == cands[i] + Sum(Values(cands, rest))
  {
    ConsAscending(start, i, rest, |cands|);
    ConsValues(cands, i, rest);
  }

  lemma ConsAscending(start: nat, i: nat, rest: seq<nat>, m: nat)
    requires start <= i < m && Ascending(rest, i, m)
    ensures Ascending([i] + rest, start, m)
  {
    var idx := [i] + rest;
    forall k, l | 0 <= k < l < |idx| ensures idx[k] <= idx[l] {
      assert idx[l] == rest[l - 1];
      if k > 0 {
        assert idx[k] == rest[k - 1];
      }
    }
  }

  lemma ConsValues(cands: seq<int>, i: nat, rest: seq<nat>)
    requires i < |cands| && forall k :: 0 <= k < |rest| ==> rest[k] < |cands|
    ensures Values(cands, [i] + rest) == [cands[i]] + Values(cands, rest)
    ensures Sum(Values(cands, [i] + rest)) == cands[i] + Sum(Values(cands, rest))
  {
    assert ([i] + rest)[1..] == rest;
    var vs := Values(cands, rest);
    assert ([cands[i]] + vs)[1..] == vs;
  }

  lemma SumPositive(cands: seq<int>, idx: seq<nat>)
    requires Positive(cands) && forall k :: 0 <= k < |idx| ==> idx[k] < |cands|
    ensures idx != [] ==> Sum(Values(cands, idx)) > 0
    ensures idx == [] ==> Sum(Values(cands, idx)) == 0
  {
    if idx != [] {
      assert idx == [idx[0]] + idx[1..];
      ConsValues(cands, idx[0], idx[1..]);
      SumPositive(cands, idx[1..]);
    }
  }

  /** The subtree of position i is part of the loop from any earlier position on. */
  lemma {:induction false} BranchesContain(cands: seq<int>, target: int, start: nat, j: nat, i: nat, total: int, comb: seq<int>, x: seq<int>)
    requires Positive(cands) && start <= j <= i < |cands| && total < target
    requires x in Combos(cands, target, i, total + cands[i], comb + [cands[i]])
    ensures x in Branches(cands, target, start, j, total, comb)
    decreases i - j
  {
    if j < i {
      BranchesContain(cands, target, start, j + 1, i, total, comb, x);
    }
  }

  /**
   * Every choice of candidates at ascending positions from `start` on that
   * makes up what the total lacks is recorded, after `comb`.
   */
  lemma {:induction false} CombosComplete(cands: seq<int>, target: int, start: nat, total: int, comb: seq<int>, idx: seq<nat>)
    requires Positive(cands) && start <= |cands| && Ascending(idx, start, |cands|)
    requires total + Sum(Values(cands, idx)) == target
    ensures comb + Values(cands, idx) in Combos(cands, target, start, total, comb)
    decreases |idx|
  {
    SumPositive(cands, idx);
    if idx == [] {
      assert comb + Values(cands, idx) == comb;
    } else {
      var i := idx[0];
      var rest := idx[1..];
      assert idx == [i] + rest;
      ConsValues(cands, i, rest);
      assert Ascending(rest, i, |cands|);
      CombosComplete(cands, target, i, total + cands[i], comb + [cands[i]], rest);
      assert comb + Values(cands, idx) == comb + [cands[i]] + Values(cands, rest);
      BranchesContain(cands, target, start, start, i, total, comb, comb + Values(cands, idx));
    }
  }

  /**
   * `combinationSum(candidates, target)` for positive candidates: every list
   * returned is made of candidates taken at positions that never go
   * backwards, so a candidate may repeat, and adds up to `target`; every such
   * choice is returned.
   */
  method CombinationSum(cands: seq<int>, target: int) returns (res: seq<seq<int>>)
    requires Positive(cands)
    ensures forall x :: x in res ==>
      Sum(x) == target && exists idx :: Ascending(idx, 0, |cands|) && x == Values(cands, idx)
    ensures forall idx :: Ascending(idx, 0, |cands|) && Sum(Values(cands, idx)) == target ==> Values(cands, idx) in res
  {
    var comb;
    comb, res := Backtrack(cands, target, 0, 0, [], []);
    forall x | x in res ensures Sum(x) == target && exists idx :: Ascending(idx, 0, |cands|) && x == Values(cands, idx) {
      var idx := CombosSound(cands, target, 0, 0, [], x);
      assert x == Values(cands, idx);
      CombosTotal(cands, target, 0, 0, [], x);
    }
    forall idx | Ascending(idx, 0, |cands|) && Sum(Values(cands, idx)) == target ensures Values(cands, idx) in res {
      CombosComplete(cands, target, 0, 0, [], idx);
      assert [] + Values(cands, idx) == Values(cands, idx);
    }
  }
}
