/**
 * `letterCombinations(digits)`: every word that a string of phone-keypad
 * digits can spell, one letter per digit, each letter taken from its
 * digit's key. The search extends the current prefix `cur` by each letter of
 * the next digit's key in turn. A digit without letters (anything but 2 to 9)
 * is a missing key in the keypad table: the source raises `KeyError`, and
 * the model answers `None`.
 */
module PhoneLetters {
  import opened Wrappers

  /** The keypad: the letters on the keys 2 to 9. */
  const Phone: map<char, string> :=
    map['2' := "abc", '3' := "def", '4' := "ghi", '5' := "jkl",
        '6' := "mno", '7' := "pqrs", '8' := "tuv", '9' := "wxyz"]

  /** Every digit from position i on is a key of the keypad. */
  ghost predicate Keys(digits: string, i: nat)
  {
    forall k :: i <= k < |digits| ==> digits[k] in Phone
  }

  /** `ch` is one of the letters on the key `d`. */
  predicate OnKey(d: char, ch: char)
  {
    d in Phone && ch in Phone[d]
  }

  /** `w` spells the digits from position i on: one letter per digit, each on its digit's key. */
  ghost predicate Spells(digits: string, i: nat, w: string)
  {
    |w| == |digits| - i && forall k :: 0 <= k < |w| ==> OnKey(digits[i + k], w[k])
  }

  /** The number of words the digits from position i on spell: the product of the sizes of their keys. */
  function Product(digits: string, i: nat): nat
    requires i <= |digits| && Keys(digits, i)
    decreases |digits| - i
  {
    if i == |digits| then 1 else |Phone[digits[i]]| * Product(digits, i + 1)
  }

  /** The words that `backtrack(i, cur)` records, in the order recorded. */
  function Words(digits: string, i: nat, cur: string): seq<string>
    requires i <= |digits| && Keys(digits, i)
    decreases |digits| - i, 1
  {
    if i == |digits| then [cur] else Letters(digits, i, cur, 0)
  }

  /** The loop of `backtrack(i, cur)` from the k-th letter of the key of `digits[i]` on. */
  function Letters(digits: string, i: nat, cur: string, k: nat): seq<string>
    requires i < |digits| && Keys(digits, i) && k <= |Phone[digits[i]]|
    decreases |digits| - i, 0, |Phone[digits[i]]| - k
  {
    if k == |Phone[digits[i]]| then []
    else Words(digits, i + 1, cur + [Phone[digits[i]][k]]) + Letters(digits, i, cur, k + 1)
  }

  /**
   * `backtrack(i, cur)`: records `cur` once every digit has its letter;
   * otherwise looks up the key of `digits[i]` (failing when there is none)
   * and recurses with each of its letters appended to `cur`.
   */
  method Backtrack(digits: string, i: nat, cur: string, res: seq<string>) returns (res': Option<seq<string>>)
    requires i <= |digits|
    ensures res'.None? <==> !Keys(digits, i)
    ensures res'.Some? ==> Keys(digits, i) && res'.value == res + Words(digits, i, cur)
    decreases |digits| - i
  {
    if i == |digits| {
      return Some(res + [cur]);
    }
    if digits[i] !in Phone {
      return None;
    }
    var letters := Phone[digits[i]];
    var acc := res;
    for k := 0 to |letters|
      invariant k > 0 ==> Keys(digits, i + 1)
      invariant Keys(digits, i + 1) ==> acc + Letters(digits, i, cur, k) == res + Words(digits, i, cur)
    {
      var r := Backtrack(digits, i + 1, cur + [letters[k]], acc);
      if r.None? {
        return None;
      }
      acc := r.value;
    }
    return Some(acc);
  }

  lemma TimesSucc(a: nat, b: nat)
    ensures (a + 1) * b == b + a * b
  {
  }

  /** `backtrack(i, cur)` records as many words as the keys of the remaining digits allow. */
  lemma {:induction false} WordsCount(digits: string, i: nat, cur: string)
    requires i <= |digits| && Keys(digits, i)
    ensures |Words(digits, i, cur)| == Product(digits, i)
    decreases |digits| - i, 1
  {
    if i < |digits| {
      LettersCount(digits, i, cur, 0);
    }
  }

  lemma {:induction false} LettersCount(digits: string, i: nat, cur: string, k: nat)
    requires i < |digits| && Keys(digits, i) && k <= |Phone[digits[i]]|
    ensures |Letters(digits, i, cur, k)| == (|Phone[digits[i]]| - k) * Product(digits, i + 1)
    decreases |digits| - i, 0, |Phone[digits[i]]| - k
  {
    if k < |Phone[digits[i]]| {
      WordsCount(digits, i + 1, cur + [Phone[digits[i]][k]]);
      LettersCount(digits, i, cur, k + 1);
      TimesSucc(|Phone[digits[i]]| - k - 1, Product(digits, i + 1));
    }
  }

  /** Every word recorded is `cur` followed by a spelling of the digits from i on. */
  lemma {:induction false} WordsSound(digits: string, i: nat, cur: string, w: string)
    requires i <= |digits| && Keys(digits, i) && w in Words(digits, i, cur)
    ensures |w| >= |cur| && w[..|cur|] == cur && Spells(digits, i, w[|cur|..])
    decreases |digits| - i, 1
  {
    if i < |digits| {
      LettersSound(digits, i, cur, 0, w);
    }
  }

  lemma {:induction false} LettersSound(digits: string, i: nat, cur: string, k: nat, w: string)
    requires i < |digits| && Keys(digits, i) && k <= |Phone[digits[i]]| && w in Letters(digits, i, cur, k)
    ensures |w| >= |cur| && w[..|cur|] == cur && Spells(digits, i, w[|cur|..])
    decreases |digits| - i, 0, |Phone[digits[i]]| - k
  {
    var ch := Phone[digits[i]][k];
    if w in Words(digits, i + 1, cur + [ch]) {
      WordsSound(digits, i + 1, cur + [ch], w);
      SpellsCons(digits, i, cur, ch, w);
    } else {
      LettersSound(digits, i, cur, k + 1, w);
    }
  }

  /** A letter of the key of `digits[i]` in front of a spelling of the digits after it. */
  lemma SpellsCons(digits: string, i: nat, cur: string, ch: char, w: string)
    requires i < |digits| && digits[i] in Phone && ch in Phone[digits[i]]
    requires |w| >= |cur| + 1 && w[..|cur| + 1] == cur + [ch] && Spells(digits, i + 1, w[|cur| + 1..])
    ensures w[..|cur|] == cur && Spells(digits, i, w[|cur|..])
  {
    assert w[..|cur|] == w[..|cur| + 1][..|cur|];
    assert (cur + [ch])[..|cur|] == cur;
    var tail := w[|cur|..];
    var rest := w[|cur| + 1..];
    assert |tail| == |digits| - i;
    assert tail[0] == (cur + [ch])[|cur|] == ch;
    forall k | 0 <= k < |tail| ensures OnKey(digits[i + k], tail[k]) {
      if k > 0 {
        assert tail[k] == rest[k - 1];
        assert i + 1 + (k - 1) == i + k;
        assert OnKey(digits[i + 1 + (k - 1)], rest[k - 1]);
      }
    }
  }

  /** The subtree of the j-th letter is part of the loop from any earlier letter on. */
  lemma {:induction false} LettersContain(digits: string, i: nat, cur: string, k: nat, j: nat, w: string)
    requires i < |digits| && Keys(digits, i) && k <= j < |Phone[digits[i]]|
    requires w in Words(digits, i + 1, cur + [Phone[digits[i]][j]])
    ensures w in Letters(digits, i, cur, k)
    decreases j - k
  {
    if k < j {
      LettersContain(digits, i, cur, k + 1, j, w);
    }
  }

  lemma IndexIn(s: string, ch: char) returns (j: nat)
    requires ch in s
    ensures j < |s| && s[j] == ch
  {
    j :| 0 <= j < |s| && s[j] == ch;
  }

  /** Every spelling of the digits from i on is recorded after `cur`. */
  lemma {:induction false} WordsComplete(digits: string, i: nat, cur: string, tail: string)
    requires i <= |digits| && Spells(digits, i, tail)
    ensures Keys(digits, i) && cur + tail in Words(digits, i, cur)
    decreases |digits| - i
  {
    assert Keys(digits, i) by {
      forall k | i <= k < |digits| ensures digits[k] in Phone {
        var j := k - i;
        assert 0 <= j < |tail| && i + j == k;
        assert OnKey(digits[i + j], tail[j]);
      }
    }
    if i == |digits| {
      assert cur + tail == cur;
    } else {
      var ch := tail[0];
      var j := IndexIn(Phone[digits[i]], ch);
      assert Spells(digits, i + 1, tail[1..]) by {
        forall k | 0 <= k < |tail[1..]| ensures tail[1..][k] == tail[k + 1] && i + 1 + k == i + (k + 1) {
        }
      }
      WordsComplete(digits, i + 1, cur + [ch], tail[1..]);
      assert cur + [ch] + tail[1..] == cur + tail;
      LettersContain(digits, i, cur, 0, j, cur + tail);
    }
  }

  /**
   * `letterCombinations(digits)`: no words for no digits; a failure when a
   * digit has no key; otherwise exactly the words the digits spell, as many
   * as the product of the sizes of their keys.
   */
  method LetterCombinations(digits: string) returns (res: Option<seq<string>>)
    ensures digits == [] ==> res == Some([])
    ensures res.None? <==> !Keys(digits, 0)
    ensures res.Some? && digits != [] ==> |res.value| == Product(digits, 0)
    ensures res.Some? && digits != [] ==> forall w :: w in res.value <==> Spells(digits, 0, w)
  {
    if digits == [] {
      return Some([]);
    }
    res := Backtrack(digits, 0, [], []);
    if res.Some? {
      WordsCount(digits, 0, []);
      forall w | w in res.value ensures Spells(digits, 0, w) {
        WordsSound(digits, 0, [], w);
        assert w[0..] == w;
      }
      forall w | Spells(digits, 0, w) ensures w in res.value {
        WordsComplete(digits, 0, [], w);
        assert [] + w == w;
      }
    }
  }
}
