/**
 * Shared building blocks: the optional value used where the source answers
 * `None` or raises on a missing key, the regrouping of appended lists that
 * every search needs when it adds a branch's results to those before it, and
 * the reversal of a list (a walk read backwards, a word read backwards).
 */
module Wrappers {
  datatype Option<T> = None | Some(value: T)

  /** Appending is associative. */
  lemma AppendAssoc<T>(a: seq<T>, b: seq<T>, c: seq<T>)
    ensures a + (b + c) == (a + b) + c
  {
  }

  /** The list read back to front. */
  function Reverse<T>(w: seq<T>): (r: seq<T>)
    ensures |r| == |w|
  {
    if w == [] then [] else Reverse(w[1..]) + [w[0]]
  }

  /** The k-th element of the reversed list is the k-th from the back of the list. */
  lemma {:induction false} ReverseAt<T>(w: seq<T>, k: nat)
    requires k < |w|
    ensures Reverse(w)[k] == w[|w| - 1 - k]
  {
    var tail := w[1..];
    assert Reverse(w) == Reverse(tail) + [w[0]];
    if k < |w| - 1 {
      ReverseAt(tail, k);
      assert tail[|tail| - 1 - k] == w[|w| - 1 - k];
    }
  }
}
