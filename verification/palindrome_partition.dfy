/**
 * `partition(s)`: every way to cut `s` into pieces that each read the same
 * backwards, found by trying every palindromic first piece from `start` on,
 * pushing it on the shared `part` list, recursing on the rest, and popping it.
 */
module PalindromePartition {
  import opened Wrappers

  /** `is_palindrome(sub)`: `sub == sub[::-1]`. */
  predicate IsPalindrome(w: string)
  {
    w == Reverse(w)
  }

  /** A palindrome is a word whose i-th letter from the front is its i-th letter from the back. */
  lemma PalindromeMirror(w: string)
    ensures IsPalindrome(w) <==> forall i :: 0 <= i < |w| ==> w[i] == w[|w| - 1 - i]
  {
    forall i | 0 <= i < |w| {
      ReverseAt(w, i);
    }
    if forall i :: 0 <= i < |w| ==> w[i] == w[|w| - 1 - i] {
      assert w == Reverse(w);
    }
  }

  /** The pieces written one after the other. */
  function Concat(ws: seq<string>): string
  {
    if ws == [] then [] else ws[0] + Concat(ws[1..])
  }

  /** Every piece is a non-empty palindrome. */
  ghost predicate Pieces(ws: seq<string>)
  {
    forall k :: 0 <= k < |ws| ==> ws[k] != [] && IsPalindrome(ws[k])
  }

  /** The lists that `backtrack(start)` records when `part` holds `part`, in the order recorded. */
  function Parts(s: string, start: nat, part: seq<string>): seq<seq<string>>
    requires start <= |s|
    decreases |s| - start, |s| + 2
  {
    if start == |s| then [part] else Ends(s, start, start + 1, part)
  }

  /** The loop of `backtrack(start)` from the cut `end` on. */
  function Ends(s: string, start: nat, end: nat, part: seq<string>): seq<seq<string>>
    requires start < end <= |s| + 1
    decreases |s| - start, |s| + 1 - end
  {
    if end > |s| then []
    else (if IsPalindrome(s[start..end]) then Parts(s, end, part + [s[start..end]]) else []) + Ends(s, start, end + 1, part)
  }

  /**
   * `backtrack(start)`: records `part` once the whole string is cut; otherwise,
   * for each end after `start` whose piece `s[start:end]` is a palindrome,
   * pushes the piece, recurses from `end` and pops it, so `part` is handed
   * back as it was received.
   */
  method Backtrack(s: string, start: nat, part: seq<string>, res: seq<seq<string>>)
    returns (part': seq<string>, res': seq<seq<string>>)
    requires start <= |s|
    ensures part' == part
    ensures res' == res + Parts(s, start, part)
    decreases |s| - start
  {
    if start == |s| {
      return part, res + [part];
    }
    part', res' := part, res;
    for end := start + 1 to |s| + 1
      invariant part' == part
      invariant res' + Ends(s, start, end, part) == res + Parts(s, start, part)
    {
      ghost var before := res';
      ghost var sub := if IsPalindrome(s[start..end]) then Parts(s, end, part + [s[start..end]]) else [];
      ghost var rest := Ends(s, start, end + 1, part);
      assert Ends(s, start, end, part) == sub + rest;
      if IsPalindrome(s[start..end]) {
        part' := part' + [s[start..end]];
        part', res' := Backtrack(s, end, part', res');
        part' := part'[..|part'| - 1];
      }
      assert res' == before + sub;
      AppendAssoc(before, sub, rest);
    }
  }

  /** Every list recorded is `part` followed by non-empty palindromes that spell `s[start..]`. */
  lemma {:induction false} PartsSound(s: string, start: nat, part: seq<string>, x: seq<string>) returns (ws: seq<string>)
    requires start <= |s| && x in Parts(s, start, part)
    ensures x == part + ws && Pieces(ws) && Concat(ws) == s[start..]
    decreases |s| - start, |s| + 2
  {
    if start == |s| {
      ws := [];
      assert x == part + ws;
    } else {
      ws := EndsSound(s, start, start + 1, part, x);
    }
  }

  lemma {:induction false} EndsSound(s: string, start: nat, end: nat, part: seq<string>, x: seq<string>) returns (ws: seq<string>)
    requires start < end <= |s| + 1 && x in Ends(s, start, end, part)
    ensures x == part + ws && Pieces(ws) && Concat(ws) == s[start..]
    decreases |s| - start, |s| + 1 - end
  {
    var w := s[start..end];
    if IsPalindrome(w) && x in Parts(s, end, part + [w]) {
      var rest := PartsSound(s, end, part + [w], x);
      ws := [w] + rest;
      PiecesCons(s, start, end, rest);
    } else {
      ws := EndsSound(s, start, end + 1, part, x);
    }
  }

  /** A palindromic first piece followed by pieces spelling the rest spells the whole suffix. */
  lemma PiecesCons(s: string, start: nat, end: nat, rest: seq<string>)
    requires start < end <= |s| && IsPalindrome(s[start..end])
    requires Pieces(rest) && Concat(rest) == s[end..]
    ensures Pieces([s[start..end]] + rest) && Concat([s[start..end]] + rest) == s[start..]
  {
    var ws := [s[start..end]] + rest;
    assert ws[1..] == rest;
    assert s[start..] == s[start..end] + s[end..];
  }

  /** The subtree of the cut `cut` is part of the loop from any earlier cut on. */
  lemma {:induction false} EndsContain(s: string, start: nat, end: nat, cut: nat, part: seq<string>, x: seq<string>)
    requires start < end <= cut <= |s| && IsPalindrome(s[start..cut])
    requires x in Parts(s, cut, part + [s[start..cut]])
    ensures x in Ends(s, start, end, part)
    decreases cut - end
  {
    if end < cut {
      EndsContain(s, start, end + 1, cut, part, x);
    }
  }

  /** Every cut of `s[start..]` into non-empty palindromes is recorded, after `part`. */
  lemma {:induction false} PartsComplete(s: string, start: nat, part: seq<string>, ws: seq<string>)
    requires start <= |s| && Pieces(ws) && Concat(ws) == s[start..]
    ensures part + ws in Parts(s, start, part)
    decreases |ws|
  {
    if ws == [] {
      assert part + ws == part;
    } else {
      var w := ws[0];
      var end := start + |w|;
      assert s[start..] == w + Concat(ws[1..]);
      assert s[start..end] == w;
      assert s[end..] == Concat(ws[1..]);
      PartsComplete(s, end, part + [w], ws[1..]);
      assert part + ws == part + [w] + ws[1..];
      EndsContain(s, start, start + 1, end, part, part + ws);
    }
  }

  /**
   * `partition(s)`: every list returned is a cut of `s` into non-empty
   * palindromes (they spell `s` again), and every such cut is returned.
   */
  method Partition(s: string) returns (res: seq<seq<string>>)
    ensures forall x :: x in res ==> Pieces(x) && Concat(x) == s
    ensures forall ws :: Pieces(ws) && Concat(ws) == s ==> ws in res
  {
    var part;
    part, res := Backtrack(s, 0, [], []);
    forall x | x in res ensures Pieces(x) && Concat(x) == s {
      var ws := PartsSound(s, 0, [], x);
      assert x == ws;
    }
    forall ws | Pieces(ws) && Concat(ws) == s ensures ws in res {
      assert s[0..] == s;
      PartsComplete(s, 0, [], ws);
      assert [] + ws == ws;
    }
  }
}
