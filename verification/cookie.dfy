/**
 * Cookie numbers: a line is read, stripped of surrounding whitespace, and
 * answered "Yes" when no two neighbouring characters are equal, "No"
 * otherwise.
 */
module Cookie {
  /** The characters Python's `str.strip()` removes. */
  predicate IsSpace(c: char)
  {
    || '\t' <= c <= '\r'
    || '\U{1c}' <= c <= ' '
    || c == '\U{85}' || c == '\U{a0}' || c == '\U{1680}'
    || '\U{2000}' <= c <= '\U{200a}'
    || c == '\U{2028}' || c == '\U{2029}' || c == '\U{202f}' || c == '\U{205f}' || c == '\U{3000}'
  }

  /** Where the leading whitespace of `s` from position k on ends: the first other character, or the end. */
  function SkipSpace(s: string, k: nat): (i: nat)
    requires k <= |s|
    ensures k <= i <= |s|
    ensures forall t :: k <= t < i ==> IsSpace(s[t])
    ensures i < |s| ==> !IsSpace(s[i])
    decreases |s| - k
  {
    if k < |s| && IsSpace(s[k]) then SkipSpace(s, k + 1) else k
  }

  /** Where the trailing whitespace of `s[lo..k]` starts: just after the last other character, or `lo`. */
  function SkipSpaceBack(s: string, lo: nat, k: nat): (j: nat)
    requires lo <= k <= |s|
    ensures lo <= j <= k
    ensures forall t :: j <= t < k ==> IsSpace(s[t])
    ensures j > lo ==> !IsSpace(s[j - 1])
    decreases k
  {
    if k > lo && IsSpace(s[k - 1]) then SkipSpaceBack(s, lo, k - 1) else k
  }

  /**
   * `line[i..j]` is `line` with its surrounding whitespace cut off: all of
   * `line` before i and from j on is whitespace, and a nonempty middle
   * neither starts nor ends with whitespace.
   */
  ghost predicate Trimmed(line: string, i: nat, j: nat)
  {
    && i <= j <= |line|
    && (forall k :: 0 <= k < i ==> IsSpace(line[k]))
    && (forall k :: j <= k < |line| ==> IsSpace(line[k]))
    && (i < j ==> !IsSpace(line[i]) && !IsSpace(line[j - 1]))
  }

  /** `line.strip()`. */
  function Strip(line: string): string
  {
    var i := SkipSpace(line, 0);
    line[i..SkipSpaceBack(line, i, |line|)]
  }

  /** `line.strip()` is the middle of `line` between its leading and trailing whitespace. */
  lemma StripTrims(line: string) returns (i: nat, j: nat)
    ensures Trimmed(line, i, j) && Strip(line) == line[i..j]
  {
    i := SkipSpace(line, 0);
    j := SkipSpaceBack(line, i, |line|);
  }

  /** No character of `n` equals the one after it. */
  ghost predicate NoEqualNeighbours(n: string)
  {
    forall i :: 0 <= i < |n| - 1 ==> n[i] != n[i + 1]
  }

  /**
   * The program's scan over neighbouring pairs: goes from the left and
   * stops at the first equal one, which is then reported at index `at`.
   */
  method IsCookie(n: string) returns (yes: bool, ghost at: nat)
    ensures yes <==> NoEqualNeighbours(n)
    ensures !yes ==> at < |n| - 1 && n[at] == n[at + 1] && forall k :: 0 <= k < at ==> n[k] != n[k + 1]
    ensures |n| <= 1 ==> yes
  {
    yes := true;
    at := 0;
    var i := 0;
    while i < |n| - 1
      invariant 0 <= i <= |n|
      invariant forall j :: 0 <= j < i && j < |n| - 1 ==> n[j] != n[j + 1]
    {
      if n[i] == n[i + 1] {
        yes := false;
        at := i;
        break;
      }
      i := i + 1;
    }
  }

  /** The program's answer for the line it reads. */
  method Answer(line: string) returns (out: string)
    ensures out == "Yes" <==> NoEqualNeighbours(Strip(line))
    ensures out == "Yes" || out == "No"
  {
    var n := Strip(line);
    var yes, _ := IsCookie(n);
    out := if yes then "Yes" else "No";
  }

  /** Whitespace around a line determines its middle. */
  lemma TrimmedUnique(line: string, i: nat, j: nat, i': nat, j': nat)
    requires Trimmed(line, i, j) && Trimmed(line, i', j')
    ensures line[i..j] == line[i'..j']
  {
  }

  /** Stripping a stripped line changes nothing. */
  lemma StripIdempotent(line: string)
    ensures Strip(Strip(line)) == Strip(line)
  {
    var i, j := StripTrims(line);
    var r := line[i..j];
    var i', j' := StripTrims(r);
    assert Trimmed(r, 0, |r|) by {
      if 0 < |r| {
        assert r[0] == line[i] && r[|r| - 1] == line[j - 1];
      }
    }
    TrimmedUnique(r, 0, |r|, i', j');
    assert r[0..|r|] == r;
  }
}
