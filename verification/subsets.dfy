/**
 * `subsets(nums)`: every sub-list of `nums`, found by deciding for each
 * position in turn to take its element (explored first) or to leave it out.
 * The shared `subset` list grows before the first recursive call and shrinks
 * back after it.
 */
module Subsets {
  function Pow2(k: nat): (r: nat)
    ensures r >= 1
  {
    if k == 0 then 1 else 2 * Pow2(k - 1)
  }

  /** The sub-list of `nums` that keeps position k exactly when `mask[k]` holds. */
  function Pick(nums: seq<int>, mask: seq<bool>): (r: seq<int>)
    requires |mask| == |nums|
    ensures |r| <= |nums|
  {
    if nums == [] then [] else (if mask[0] then [nums[0]] else []) + Pick(nums[1..], mask[1..])
  }

  /** The lists that `backtrack(i)` records when `subset` holds `pre`, in the order recorded. */
  function Recorded(nums: seq<int>, i: nat, pre: seq<int>): seq<seq<int>>
    requires i <= |nums|
    decreases |nums| - i
  {
    if i == |nums| then [pre]
    else Recorded(nums, i + 1, pre + [nums[i]]) + Recorded(nums, i + 1, pre)
  }

  /**
   * `backtrack(i)`: records the current `subset` once every position has been
   * decided; otherwise appends `nums[i]`, recurses, pops it and recurses again.
   * The shared list is handed back as it was received.
   */
  method Backtrack(nums: seq<int>, i: nat, subset: seq<int>, res: seq<seq<int>>)
    returns (subset': seq<int>, res': seq<seq<int>>)
    requires i <= |nums|
    ensures subset' == subset
    ensures res' == res + Recorded(nums, i, subset)
    decreases |nums| - i
  {
    if i == |nums| {
      return subset, res + [subset];
    }
    subset' := subset + [nums[i]];
    subset', res' := Backtrack(nums, i + 1, subset', res);
    subset' := subset'[..|subset'| - 1];
    subset', res' := Backtrack(nums, i + 1, subset', res');
  }

  /** Two choices per remaining position: 2^(len(nums) - i) lists. */
  lemma {:induction false} RecordedCount(nums: seq<int>, i: nat, pre: seq<int>)
    requires i <= |nums|
    ensures |Recorded(nums, i, pre)| == Pow2(|nums| - i)
    decreases |nums| - i
  {
    if i < |nums| {
      RecordedCount(nums, i + 1, pre + [nums[i]]);
      RecordedCount(nums, i + 1, pre);
    }
  }

  /** Every list recorded is `pre` followed by an order-preserving sub-list of `nums[i..]`. */
  lemma {:induction false} RecordedSound(nums: seq<int>, i: nat, pre: seq<int>, x: seq<int>)
    requires i <= |nums| && x in Recorded(nums, i, pre)
    ensures exists mask :: |mask| == |nums| - i && x == pre + Pick(nums[i..], mask)
    decreases |nums| - i
  {
    var rest := nums[i..];
    if i == |nums| {
      var mask: seq<bool> := [];
      assert x == pre + Pick(rest, mask);
    } else {
      assert rest[1..] == nums[i + 1..];
      if x in Recorded(nums, i + 1, pre + [nums[i]]) {
        RecordedSound(nums, i + 1, pre + [nums[i]], x);
        var m :| |m| == |nums| - (i + 1) && x == pre + [nums[i]] + Pick(nums[i + 1..], m);
        var mask := [true] + m;
        assert mask[1..] == m;
        assert x == pre + Pick(rest, mask);
      } else {
        RecordedSound(nums, i + 1, pre, x);
        var m :| |m| == |nums| - (i + 1) && x == pre + Pick(nums[i + 1..], m);
        var mask := [false] + m;
        assert mask[1..] == m;
        assert x == pre + Pick(rest, mask);
      }
    }
  }

  /** Every order-preserving sub-list of `nums[i..]`, after `pre`, is recorded. */
  lemma {:induction false} RecordedComplete(nums: seq<int>, i: nat, pre: seq<int>, mask: seq<bool>)
    requires i <= |nums| && |mask| == |nums| - i
    ensures pre + Pick(nums[i..], mask) in Recorded(nums, i, pre)
    decreases |nums| - i
  {
    var rest := nums[i..];
    if i == |nums| {
      assert pre + Pick(rest, mask) == pre;
    } else {
      assert rest[1..] == nums[i + 1..];
      if mask[0] {
        RecordedComplete(nums, i + 1, pre + [nums[i]], mask[1..]);
        assert pre + Pick(rest, mask) == pre + [nums[i]] + Pick(nums[i + 1..], mask[1..]);
      } else {
        RecordedComplete(nums, i + 1, pre, mask[1..]);
        assert pre + Pick(rest, mask) == pre + Pick(nums[i + 1..], mask[1..]);
      }
    }
  }

  /**
   * `subsets(nums)`: 2^len(nums) lists, each an order-preserving sub-list of
   * `nums`, and every such sub-list among them.
   */
  method Subsets(nums: seq<int>) returns (res: seq<seq<int>>)
    ensures |res| == Pow2(|nums|)
    ensures forall x :: x in res ==> exists mask :: |mask| == |nums| && x == Pick(nums, mask)
    ensures forall mask :: |mask| == |nums| ==> Pick(nums, mask) in res
  {
    var subset;
    subset, res := Backtrack(nums, 0, [], []);
    assert nums[0..] == nums;
    RecordedCount(nums, 0, []);
    forall x | x in res ensures exists mask :: |mask| == |nums| && x == Pick(nums, mask) {
      RecordedSound(nums, 0, [], x);
      var m :| |m| == |nums| && x == [] + Pick(nums[0..], m);
      assert x == Pick(nums, m);
    }
    forall mask | |mask| == |nums| ensures Pick(nums, mask) in res {
      RecordedComplete(nums, 0, [], mask);
      assert [] + Pick(nums[0..], mask) == Pick(nums, mask);
    }
  }
}
