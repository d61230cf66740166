/**
 * `solveNQueens(n)`: every way to put n queens on an n x n board so that no
 * two attack each other, found row by row on a shared board of `.` and `Q`
 * cells. A queen is written before the recursive call and erased after it.
 *
 * The queens placed so far are described by a ghost placement `q`: `q[r]` is
 * the column of the queen in row r.
 */
module NQueens {
  import Wrappers

  /** A row of the board with its queen in column `c`, or no queen when `c` is off the board. */
  function Row(n: nat, c: int): (row: seq<char>)
    ensures |row| == n
    ensures forall j :: 0 <= j < n ==> (row[j] == 'Q' <==> j == c) && (row[j] == 'Q' || row[j] == '.')
  {
    seq(n, j => if j == c then 'Q' else '.')
  }

  /** The board holding the queens of `q` in its first rows and empty rows below. */
  function Render(n: nat, q: seq<int>): (b: seq<seq<char>>)
    requires |q| <= n
    ensures |b| == n
    ensures forall r :: 0 <= r < |q| ==> b[r] == Row(n, q[r])
    ensures forall r :: |q| <= r < n ==> b[r] == Row(n, -1)
  {
    seq(n, r requires 0 <= r < n => if r < |q| then Row(n, q[r]) else Row(n, -1))
  }

  /** Every queen is on the board. */
  ghost predicate OnBoard(n: nat, q: seq<int>)
  {
    forall i :: 0 <= i < |q| ==> 0 <= q[i] < n
  }

  /** No two queens of `q` share a column or a diagonal (rows differ by construction). */
  ghost predicate Peaceful(q: seq<int>)
  {
    forall i, j :: 0 <= i < j < |q| ==> q[i] != q[j] && q[j] - q[i] != j - i && q[i] - q[j] != j - i
  }

  /** A queen in row |q| and column c is attacked by none of the queens of `q`. */
  predicate Safe(q: seq<int>, c: int)
  {
    forall i :: 0 <= i < |q| ==> q[i] != c && c - q[i] != |q| - i && q[i] - c != |q| - i
  }

  lemma PeacefulSnoc(q: seq<int>, c: int)
    ensures Peaceful(q + [c]) <==> Peaceful(q) && Safe(q, c)
  {
    var q' := q + [c];
    if Peaceful(q') {
      forall i, j | 0 <= i < j < |q| ensures q[i] != q[j] && q[j] - q[i] != j - i && q[i] - q[j] != j - i {
        assert q'[i] == q[i] && q'[j] == q[j];
      }
      forall i | 0 <= i < |q| ensures q[i] != c && c - q[i] != |q| - i && q[i] - c != |q| - i {
        assert q'[i] == q[i] && q'[|q|] == c;
      }
    }
  }

  /**
   * `is_safe(r, c)`: looks for a queen above (r, c) in the same column, then
   * up the left diagonal, then up the right diagonal, on the shared board.
   */
  method IsSafe(n: nat, board: seq<seq<char>>, r: nat, c: nat, ghost q: seq<int>) returns (safe: bool)
    requires |q| == r < n && c < n && OnBoard(n, q) && board == Render(n, q)
    ensures safe <==> Safe(q, c)
  {
    for i := 0 to r
      invariant forall k :: 0 <= k < i ==> q[k] != c
    {
      if board[i][c] == 'Q' {
        return false;
      }
    }
    var i, j := r - 1, c - 1;
    while i >= 0 && j >= 0
      invariant -1 <= i < r && -1 <= j && i - j == r - c
      invariant forall k :: i < k < r ==> c - q[k] != r - k
    {
      if board[i][j] == 'Q' {
        return false;
      }
      i, j := i - 1, j - 1;
    }
    i, j := r - 1, c + 1;
    while i >= 0 && j < n
      invariant -1 <= i < r && j <= n && j - c == r - i
      invariant forall k :: i < k < r ==> q[k] - c != r - k
    {
      if board[i][j] == 'Q' {
        return false;
      }
      i, j := i - 1, j + 1;
    }
    return true;
  }

  /** The boards that `backtrack(r)` records when the queens of `q` are on the board, in the order recorded. */
  function Boards(n: nat, q: seq<int>): seq<seq<seq<char>>>
    requires |q| <= n
    decreases n - |q|, n + 1
  {
    if |q| == n then [Render(n, q)] else Tries(n, q, 0)
  }

  /** The loop of `backtrack(r)` from column c on. */
  function Tries(n: nat, q: seq<int>, c: nat): seq<seq<seq<char>>>
    requires |q| < n && c <= n
    decreases n - |q|, n - c
  {
    if c == n then []
    else (if Safe(q, c) then Boards(n, q + [c]) else []) + Tries(n, q, c + 1)
  }

  /** Writing a queen into the empty row |q| at column c gives the board of `q + [c]`, and erasing it gives back the board of `q`. */
  lemma PlaceQueen(n: nat, q: seq<int>, c: nat)
    requires |q| < n && c < n
    ensures Render(n, q)[|q| := Render(n, q)[|q|][c := 'Q']] == Render(n, q + [c])
    ensures Render(n, q + [c])[|q| := Render(n, q + [c])[|q|][c := '.']] == Render(n, q)
  {
    var r := |q|;
    assert Render(n, q)[r][c := 'Q'] == Row(n, c);
    assert Render(n, q + [c])[r][c := '.'] == Row(n, -1);
  }

  /**
   * `backtrack(r)`: records the board once every row holds a queen;
   * otherwise, for each column c whose cell is safe, writes a queen there,
   * recurses on the next row, and erases it. The board is handed back as it
   * was received.
   */
  method Backtrack(n: nat, r: nat, board: seq<seq<char>>, res: seq<seq<seq<char>>>, ghost q: seq<int>)
    returns (board': seq<seq<char>>, res': seq<seq<seq<char>>>)
    requires |q| == r <= n && OnBoard(n, q) && board == Render(n, q)
    ensures board' == board
    ensures res' == res + Boards(n, q)
    decreases n - r
  {
    if r == n {
      return board, res + [board];
    }
    board', res' := board, res;
    for c := 0 to n
      invariant board' == board
      invariant res' + Tries(n, q, c) == res + Boards(n, q)
    {
      var safe := IsSafe(n, board', r, c, q);
      ghost var before := res';
      ghost var rest := Tries(n, q, c + 1);
      if safe {
        PlaceQueen(n, q, c);
        board' := board'[r := board'[r][c := 'Q']];
        board', res' := Backtrack(n, r + 1, board', res', q + [c]);
        board' := board'[r := board'[r][c := '.']];
        Wrappers.AppendAssoc(before, Boards(n, q + [c]), rest);
      } else {
        assert Tries(n, q, c) == [] + rest;
      }
    }
  }

  /**
   * Every board recorded below the queens of a peaceful `q` is the board of a
   * peaceful placement of n queens on the board that extends `q`.
   */
  lemma {:induction false} BoardsSound(n: nat, q: seq<int>, b: seq<seq<char>>) returns (p: seq<int>)
    requires |q| <= n && OnBoard(n, q) && Peaceful(q) && b in Boards(n, q)
    ensures |p| == n && OnBoard(n, p) && Peaceful(p) && p[..|q|] == q && b == Render(n, p)
    decreases n - |q|, n + 1
  {
    if |q| == n {
      p := q;
    } else {
      p := TriesSound(n, q, 0, b);
    }
  }

  lemma {:induction false} TriesSound(n: nat, q: seq<int>, c: nat, b: seq<seq<char>>) returns (p: seq<int>)
    requires |q| < n && c <= n && OnBoard(n, q) && Peaceful(q) && b in Tries(n, q, c)
    ensures |p| == n && OnBoard(n, p) && Peaceful(p) && p[..|q|] == q && b == Render(n, p)
    decreases n - |q|, n - c
  {
    if Safe(q, c) && b in Boards(n, q + [c]) {
      PeacefulSnoc(q, c);
      p := BoardsSound(n, q + [c], b);
      assert p[..|q|] == p[..|q| + 1][..|q|];
    } else {
      p := TriesSound(n, q, c + 1, b);
    }
  }

  /** The subtree of a safe column c is part of the loop from any earlier column on. */
  lemma {:induction false} TriesContain(n: nat, q: seq<int>, d: nat, c: nat, b: seq<seq<char>>)
    requires |q| < n && d <= c < n && Safe(q, c) && b in Boards(n, q + [c])
    ensures b in Tries(n, q, d)
    decreases c - d
  {
    if d < c {
      TriesContain(n, q, d + 1, c, b);
    }
  }

  /** The board of every peaceful placement of n queens extending `q` is recorded. */
  lemma {:induction false} BoardsComplete(n: nat, q: seq<int>, p: seq<int>)
    requires |q| <= n && |p| == n && OnBoard(n, p) && Peaceful(p) && p[..|q|] == q
    ensures Render(n, p) in Boards(n, q)
    decreases n - |q|
  {
    if |q| == n {
      assert p == p[..|q|];
    } else {
      var c := p[|q|];
      var q' := q + [c];
      assert p[..|q'|] == q';
      PeacefulPrefix(p, |q'|);
      PeacefulSnoc(q, c);
      BoardsComplete(n, q', p);
      TriesContain(n, q, 0, c, Render(n, p));
    }
  }

  lemma PeacefulPrefix(p: seq<int>, k: nat)
    requires k <= |p| && Peaceful(p)
    ensures Peaceful(p[..k])
  {
    var q := p[..k];
    forall i, j | 0 <= i < j < |q| ensures q[i] != q[j] && q[j] - q[i] != j - i && q[i] - q[j] != j - i {
      assert q[i] == p[i] && q[j] == p[j];
    }
  }

  /** Exactly one queen in every row of an n x n board. */
  ghost predicate OneQueenPerRow(n: nat, b: seq<seq<char>>)
  {
    && |b| == n
    && forall r :: 0 <= r < n ==>
         && |b[r]| == n
         && exists j :: 0 <= j < n && b[r][j] == 'Q' && forall k :: 0 <= k < n && b[r][k] == 'Q' ==> k == j
  }

  /** No two queens of the board share a column or a diagonal. */
  ghost predicate NoAttacks(n: nat, b: seq<seq<char>>)
    requires |b| == n && forall r :: 0 <= r < n ==> |b[r]| == n
  {
    forall r1, c1, r2, c2 ::
      0 <= r1 < r2 < n && 0 <= c1 < n && 0 <= c2 < n && b[r1][c1] == 'Q' && b[r2][c2] == 'Q' ==>
        c1 != c2 && c2 - c1 != r2 - r1 && c1 - c2 != r2 - r1
  }

  /** The board of a peaceful placement of n queens has one queen per row and no two attacking each other. */
  lemma RenderedPeaceful(n: nat, p: seq<int>)
    requires |p| == n && OnBoard(n, p) && Peaceful(p)
    ensures OneQueenPerRow(n, Render(n, p)) && NoAttacks(n, Render(n, p))
  {
    var b := Render(n, p);
    forall r | 0 <= r < n
      ensures exists j :: 0 <= j < n && b[r][j] == 'Q' && forall k :: 0 <= k < n && b[r][k] == 'Q' ==> k == j
    {
      assert b[r][p[r]] == 'Q';
    }
  }

  /**
   * `solveNQueens(n)`: every board returned has exactly one queen per row and
   * no two queens sharing a column or a diagonal, and every such board is
   * returned. The shared board ends all `.` again, since `Backtrack` hands
   * back the board it was given.
   */
  method SolveNQueens(n: nat) returns (res: seq<seq<seq<char>>>)
    ensures forall b :: b in res ==> OneQueenPerRow(n, b) && NoAttacks(n, b)
    ensures forall p :: |p| == n && OnBoard(n, p) && Peaceful(p) ==> Render(n, p) in res
  {
    var board := seq(n, _ => seq(n, _ => '.'));
    assert forall r | 0 <= r < n :: board[r] == Row(n, -1);
    assert board == Render(n, []);
    board, res := Backtrack(n, 0, board, [], []);
    forall b | b in res ensures OneQueenPerRow(n, b) && NoAttacks(n, b) {
      var p := BoardsSound(n, [], b);
      RenderedPeaceful(n, p);
    }
    forall p | |p| == n && OnBoard(n, p) && Peaceful(p) ensures Render(n, p) in res {
      BoardsComplete(n, [], p);
    }
  }
}
