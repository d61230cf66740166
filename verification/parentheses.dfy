/**
 * `generateParenthesis(n)`: every balanced string of n pairs of parentheses.
 * The search grows `cur` one character at a time, adding `(` while fewer than
 * n have been opened and `)` while fewer have been closed than opened.
 */
module Parentheses {
  import Wrappers

  /** How many times `ch` occurs in `s`. */
  function Count(s: string, ch: char): nat
  {
    if s == [] then 0 else (if s[0] == ch then 1 else 0) + Count(s[1..], ch)
  }

  lemma CountCons(c: char, s: string, ch: char)
    ensures Count([c] + s, ch) == (if c == ch then 1 else 0) + Count(s, ch)
  {
    assert ([c] + s)[1..] == s;
  }

  /** Every character is a parenthesis. */
  ghost predicate Parens(s: string)
  {
    forall k :: 0 <= k < |s| ==> s[k] == '(' || s[k] == ')'
  }

  /** A balanced string: as many `(` as `)`, and no prefix closes more than it opens. */
  ghost predicate Balanced(s: string)
  {
    && Parens(s)
    && Count(s, '(') == Count(s, ')')
    && forall k :: 0 <= k <= |s| ==> Count(s[..k], ')') <= Count(s[..k], '(')
  }

  /**
   * `t` completes a string that has opened `open` and closed `close`
   * parentheses into a balanced one of n pairs.
   */
  ghost predicate Completes(n: int, open: nat, close: nat, t: string)
  {
    && Parens(t)
    && open + Count(t, '(') == n && close + Count(t, ')') == n
    && forall k :: 0 <= k <= |t| ==> close + Count(t[..k], ')') <= open + Count(t[..k], '(')
  }

  /** The strings that `backtrack(openN, closeN, cur)` records, in the order recorded. */
  function Gen(n: int, open: nat, close: nat, cur: string): seq<string>
    requires close <= open && (open <= n || open == 0)
    decreases (n - open) + (n - close)
  {
    if open == n && close == n then [cur]
    else
      (if open < n then Gen(n, open + 1, close, cur + "(") else []) +
      (if close < open then Gen(n, open, close + 1, cur + ")") else [])
  }

  /**
   * `backtrack(openN, closeN, cur)`: records `cur` once n parentheses are
   * opened and closed; otherwise opens one more while fewer than n are open,
   * then closes one while fewer are closed than opened.
   */
  method Backtrack(n: int, open: nat, close: nat, cur: string, res: seq<string>) returns (res': seq<string>)
    requires close <= open && (open <= n || open == 0)
    ensures res' == res + Gen(n, open, close, cur)
    decreases (n - open) + (n - close)
  {
    if open == n && close == n {
      return res + [cur];
    }
    ghost var viaOpen := if open < n then Gen(n, open + 1, close, cur + "(") else [];
    ghost var viaClose := if close < open then Gen(n, open, close + 1, cur + ")") else [];
    assert Gen(n, open, close, cur) == viaOpen + viaClose;
    res' := res;
    if open < n {
      res' := Backtrack(n, open + 1, close, cur + "(", res');
    }
    assert res' == res + viaOpen;
    if close < open {
      res' := Backtrack(n, open, close + 1, cur + ")", res');
    }
    assert res' == (res + viaOpen) + viaClose;
    Wrappers.AppendAssoc(res, viaOpen, viaClose);
  }

  /** An opening parenthesis in front of a completion with one more open. */
  lemma OpenCompletes(n: int, open: nat, close: nat, t: string)
    requires close <= open && Completes(n, open + 1, close, t)
    ensures Completes(n, open, close, "(" + t)
  {
    var s := "(" + t;
    CountCons('(', t, '(');
    CountCons('(', t, ')');
    forall k | 1 <= k <= |s| ensures close + Count(s[..k], ')') <= open + Count(s[..k], '(') {
      assert s[..k] == [s[0]] + t[..k - 1];
      CountCons('(', t[..k - 1], '(');
      CountCons('(', t[..k - 1], ')');
    }
    assert s[..0] == [];
  }

  /** A closing parenthesis in front of a completion with one more closed. */
  lemma CloseCompletes(n: int, open: nat, close: nat, t: string)
    requires close < open && Completes(n, open, close + 1, t)
    ensures Completes(n, open, close, ")" + t)
  {
    var s := ")" + t;
    CountCons(')', t, '(');
    CountCons(')', t, ')');
    forall k | 1 <= k <= |s| ensures close + Count(s[..k], ')') <= open + Count(s[..k], '(') {
      assert s[..k] == [s[0]] + t[..k - 1];
      CountCons(')', t[..k - 1], '(');
      CountCons(')', t[..k - 1], ')');
    }
    assert s[..0] == [];
  }

  /** Every string recorded is `cur` followed by a completion. */
  lemma {:induction false} GenSound(n: int, open: nat, close: nat, cur: string, w: string) returns (t: string)
    requires close <= open && (open <= n || open == 0) && w in Gen(n, open, close, cur)
    ensures w == cur + t && Completes(n, open, close, t)
    decreases (n - open) + (n - close)
  {
    if open == n && close == n {
      t := [];
      assert w == cur + t;
    } else {
      var viaOpen := if open < n then Gen(n, open + 1, close, cur + "(") else [];
      var viaClose := if close < open then Gen(n, open, close + 1, cur + ")") else [];
      assert Gen(n, open, close, cur) == viaOpen + viaClose;
      if w in viaOpen {
        var t' := GenSound(n, open + 1, close, cur + "(", w);
        t := "(" + t';
        Wrappers.AppendAssoc(cur, "(", t');
        OpenCompletes(n, open, close, t');
      } else {
        assert w in viaClose && close < open;
        var t' := GenSound(n, open, close + 1, cur + ")", w);
        t := ")" + t';
        Wrappers.AppendAssoc(cur, ")", t');
        CloseCompletes(n, open, close, t');
      }
    }
  }

  /** The rest of a completion after its first character. */
  lemma TailCompletes(n: int, open: nat, close: nat, t: string)
    requires t != [] && Completes(n, open, close, t)
    ensures t[0] == '(' ==> Completes(n, open + 1, close, t[1..])
    ensures t[0] == ')' ==> close < open && Completes(n, open, close + 1, t[1..])
  {
    var rest := t[1..];
    assert t == [t[0]] + rest;
    CountCons(t[0], rest, '(');
    CountCons(t[0], rest, ')');
    assert t[..1] == [t[0]] + rest[..0];
    CountCons(t[0], rest[..0], '(');
    CountCons(t[0], rest[..0], ')');
    forall k | 0 <= k <= |rest|
      ensures close + (if t[0] == ')' then 1 else 0) + Count(rest[..k], ')') <=
              open + (if t[0] == '(' then 1 else 0) + Count(rest[..k], '(')
    {
      assert t[..k + 1] == [t[0]] + rest[..k];
      CountCons(t[0], rest[..k], '(');
      CountCons(t[0], rest[..k], ')');
    }
    forall k | 0 <= k < |rest| ensures rest[k] == '(' || rest[k] == ')' {
      assert rest[k] == t[k + 1];
    }
  }

  /** What the branch that opens records is recorded. */
  lemma GenFirst(n: int, open: nat, close: nat, cur: string, w: string)
    requires close <= open && open < n && w in Gen(n, open + 1, close, cur + "(")
    ensures w in Gen(n, open, close, cur)
  {
  }

  /** What the branch that closes records is recorded. */
  lemma GenSecond(n: int, open: nat, close: nat, cur: string, w: string)
    requires close < open <= n && w in Gen(n, open, close + 1, cur + ")")
    ensures w in Gen(n, open, close, cur)
  {
  }

  /** Every completion of `cur` is recorded. */
  lemma {:induction false} GenComplete(n: int, open: nat, close: nat, cur: string, t: string)
    requires close <= open && (open <= n || open == 0) && Completes(n, open, close, t)
    ensures cur + t in Gen(n, open, close, cur)
    decreases |t|
  {
    if t == [] {
      assert cur + t == cur;
    } else {
      TailCompletes(n, open, close, t);
      var rest := t[1..];
      if t[0] == '(' {
        assert t == "(" + rest;
        Wrappers.AppendAssoc(cur, "(", rest);
        GenComplete(n, open + 1, close, cur + "(", rest);
        GenFirst(n, open, close, cur, cur + t);
      } else {
        assert t == ")" + rest;
        Wrappers.AppendAssoc(cur, ")", rest);
        GenComplete(n, open, close + 1, cur + ")", rest);
        GenSecond(n, open, close, cur, cur + t);
      }
    }
  }

  /** A string made of parentheses is as long as its `(` and `)` together. */
  lemma ParensLength(s: string)
    requires Parens(s)
    ensures |s| == Count(s, '(') + Count(s, ')')
  {
    if s != [] {
      assert s == [s[0]] + s[1..];
      assert Parens(s[1..]) by {
        forall k | 0 <= k < |s[1..]| ensures s[1..][k] == s[k + 1] {
        }
      }
      ParensLength(s[1..]);
    }
  }

  /**
   * `generateParenthesis(n)`: every string returned is balanced and 2n
   * long, and every such string is returned; nothing is returned for a
   * negative n.
   */
  method GenerateParenthesis(n: int) returns (res: seq<string>)
    ensures n < 0 ==> res == []
    ensures forall w :: w in res ==> |w| == 2 * n && Balanced(w)
    ensures forall w :: Balanced(w) && |w| == 2 * n ==> w in res
  {
    res := Backtrack(n, 0, 0, "", []);
    forall w | w in res ensures |w| == 2 * n && Balanced(w) {
      var t := GenSound(n, 0, 0, "", w);
      assert w == t;
      ParensLength(w);
    }
    forall w | Balanced(w) && |w| == 2 * n ensures w in res {
      ParensLength(w);
      GenComplete(n, 0, 0, "", w);
      assert "" + w == w;
    }
  }
}
