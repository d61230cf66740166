/**
 * `permute(nums)`: every ordering of `nums`, found by swapping each candidate
 * into position `start`, recursing on the rest, and swapping it back.
 */
module Permutations {
  function Fact(k: nat): (r: nat)
    ensures r >= 1
  {
    if k == 0 then 1 else k * Fact(k - 1)
  }

  /** `nums[i], nums[j] = nums[j], nums[i]`. */
  function Swap(s: seq<int>, i: nat, j: nat): (r: seq<int>)
    requires i < |s| && j < |s|
    ensures |r| == |s|
  {
    s[i := s[j]][j := s[i]]
  }

  /** A swap rearranges the list; swapping twice restores it. */
  lemma SwapRearranges(s: seq<int>, i: nat, j: nat)
    requires i < |s| && j < |s|
    ensures multiset(Swap(s, i, j)) == multiset(s)
    ensures Swap(Swap(s, i, j), i, j) == s
  {
  }

  /** The lists that `backtrack(start)` records when the shared list holds `nums`, in the order recorded. */
  function Perms(nums: seq<int>, start: nat): seq<seq<int>>
    requires start <= |nums|
    decreases |nums| - start, |nums| + 1
  {
    if start == |nums| then [nums] else Branches(nums, start, start)
  }

  /** The loop of `backtrack(start)` from candidate position i on. */
  function Branches(nums: seq<int>, start: nat, i: nat): seq<seq<int>>
    requires start < |nums| && start <= i <= |nums|
    decreases |nums| - start, |nums| - i
  {
    if i == |nums| then []
    else Perms(Swap(nums, start, i), start + 1) + Branches(nums, start, i + 1)
  }

  /**
   * `backtrack(start)`: records the list once every position is fixed;
   * otherwise, for each i from `start` on, swaps positions `start` and i,
   * recurses, and swaps them back, so the list is handed back as received.
   */
  method Backtrack(start: nat, nums: seq<int>, res: seq<seq<int>>) returns (nums': seq<int>, res': seq<seq<int>>)
    requires start <= |nums|
    ensures nums' == nums
    ensures res' == res + Perms(nums, start)
    decreases |nums| - start
  {
    if start == |nums| {
      return nums, res + [nums];
    }
    nums', res' := nums, res;
    var i := start;
    while i < |nums'|
      invariant start <= i <= |nums| && nums' == nums
      invariant res' + Branches(nums, start, i) == res + Perms(nums, start)
    {
      nums' := Swap(nums', start, i);
      nums', res' := Backtrack(start + 1, nums', res');
      SwapRearranges(nums, start, i);
      nums' := Swap(nums', start, i);
      i := i + 1;
    }
  }

  lemma TimesSucc(k: nat, f: nat)
    ensures (k + 1) * f == f + k * f
  {
  }

  /** (len(nums) - start)! lists are recorded. */
  lemma {:induction false} PermsCount(nums: seq<int>, start: nat)
    requires start <= |nums|
    ensures |Perms(nums, start)| == Fact(|nums| - start)
    decreases |nums| - start, |nums| + 1
  {
    if start < |nums| {
      BranchesCount(nums, start, start);
    }
  }

  lemma {:induction false} BranchesCount(nums: seq<int>, start: nat, i: nat)
    requires start < |nums| && start <= i <= |nums|
    ensures |Branches(nums, start, i)| == (|nums| - i) * Fact(|nums| - start - 1)
    decreases |nums| - start, |nums| - i
  {
    if i < |nums| {
      PermsCount(Swap(nums, start, i), start + 1);
      BranchesCount(nums, start, i + 1);
      TimesSucc(|nums| - i - 1, Fact(|nums| - start - 1));
    }
  }

  /** Every list recorded is a rearrangement of `nums` that keeps the fixed prefix `nums[..start]`. */
  lemma {:induction false} PermsSound(nums: seq<int>, start: nat, x: seq<int>)
    requires start <= |nums| && x in Perms(nums, start)
    ensures multiset(x) == multiset(nums) && |x| == |nums| && x[..start] == nums[..start]
    decreases |nums| - start, |nums| + 1
  {
    if start < |nums| {
      BranchesSound(nums, start, start, x);
    }
  }

  lemma {:induction false} BranchesSound(nums: seq<int>, start: nat, i: nat, x: seq<int>)
    requires start < |nums| && start <= i <= |nums| && x in Branches(nums, start, i)
    ensures multiset(x) == multiset(nums) && |x| == |nums| && x[..start] == nums[..start]
    decreases |nums| - start, |nums| - i
  {
    var y := Swap(nums, start, i);
    SwapRearranges(nums, start, i);
    if x in Perms(y, start + 1) {
      PermsSound(y, start + 1, x);
      assert x[..start] == x[..start + 1][..start];
      assert y[..start] == nums[..start];
    } else {
      BranchesSound(nums, start, i + 1, x);
    }
  }

  /** The subtree of candidate i is part of the loop from any earlier candidate on. */
  lemma {:induction false} BranchesContain(nums: seq<int>, start: nat, j: nat, i: nat, x: seq<int>)
    requires start < |nums| && start <= j <= i < |nums|
    requires x in Perms(Swap(nums, start, i), start + 1)
    ensures x in Branches(nums, start, j)
    decreases i - j
  {
    if j < i {
      BranchesContain(nums, start, j + 1, i, x);
    }
  }

  /** Swapping two positions at or after `start` rearranges the suffix from `start`. */
  lemma SwapSuffix(nums: seq<int>, start: nat, i: nat)
    requires start <= i < |nums|
    ensures multiset(Swap(nums, start, i)[start..]) == multiset(nums[start..])
  {
    assert Swap(nums, start, i)[start..] == Swap(nums[start..], 0, i - start);
  }

  /**
   * The first element of a rearrangement of `nums[start..]` is at some
   * position i from `start` on; swapping it to `start` leaves the rest a
   * rearrangement of what follows.
   */
  lemma SwapToFront(nums: seq<int>, start: nat, x: seq<int>) returns (i: nat)
    requires start < |nums| && |x| == |nums| && x[..start] == nums[..start]
    requires multiset(x[start..]) == multiset(nums[start..])
    ensures start <= i < |nums|
    ensures Swap(nums, start, i)[..start + 1] == x[..start + 1]
    ensures multiset(x[start + 1..]) == multiset(Swap(nums, start, i)[start + 1..])
  {
    assert x[start..][0] == x[start];
    var k := IndexOf(nums[start..], x[start]);
    i := start + k;
    var y := Swap(nums, start, i);
    assert y[start] == x[start];
    SwapSuffix(nums, start, i);
    assert y[start..][1..] == y[start + 1..];
    assert x[start..][1..] == x[start + 1..];
    SameTail(y[start..], x[start..]);
    assert x[..start + 1] == x[..start] + [x[start]];
    assert y[..start + 1] == y[..start] + [y[start]];
    assert y[..start] == nums[..start];
  }

  lemma IndexOf(s: seq<int>, v: int) returns (k: nat)
    requires v in multiset(s)
    ensures k < |s| && s[k] == v
  {
    assert v in s;
    k :| 0 <= k < |s| && s[k] == v;
  }

  /** Two rearrangements of each other with the same head have rearranged tails. */
  lemma SameTail(a: seq<int>, b: seq<int>)
    requires a != [] && b != [] && a[0] == b[0] && multiset(a) == multiset(b)
    ensures multiset(a[1..]) == multiset(b[1..])
  {
    assert a == [a[0]] + a[1..];
    assert b == [b[0]] + b[1..];
    assert multiset(a[1..]) == multiset(a) - multiset{a[0]};
    assert multiset(b[1..]) == multiset(b) - multiset{b[0]};
  }

  /** Every rearrangement of `nums[start..]` behind the prefix `nums[..start]` is recorded. */
  lemma {:induction false} PermsComplete(nums: seq<int>, start: nat, x: seq<int>)
    requires start <= |nums| && |x| == |nums| && x[..start] == nums[..start]
    requires multiset(x[start..]) == multiset(nums[start..])
    ensures x in Perms(nums, start)
    decreases |nums| - start
  {
    if start == |nums| {
      assert x == x[..start];
      assert nums == nums[..start];
    } else {
      var i := SwapToFront(nums, start, x);
      PermsComplete(Swap(nums, start, i), start + 1, x);
      BranchesContain(nums, start, start, i, x);
    }
  }

  /**
   * `permute(nums)`: len(nums)! lists, each a rearrangement of `nums`, and
   * every rearrangement among them.
   */
  method Permute(nums: seq<int>) returns (res: seq<seq<int>>)
    ensures |res| == Fact(|nums|)
    ensures forall x :: x in res ==> multiset(x) == multiset(nums)
    ensures forall x :: multiset(x) == multiset(nums) ==> x in res
  {
    var after;
    after, res := Backtrack(0, nums, []);
    PermsCount(nums, 0);
    forall x | x in res ensures multiset(x) == multiset(nums) {
      PermsSound(nums, 0, x);
    }
    forall x | multiset(x) == multiset(nums) ensures x in res {
      assert |x| == |multiset(x)| == |nums|;
      assert x[0..] == x && nums[0..] == nums;
      PermsComplete(nums, 0, x);
    }
  }
}
