/**
 * `ratInMaze(maze, n)`: every path of moves D, L, R, U that leads a rat from
 * the top-left cell of an n x n maze of open (1) and blocked (0) cells to the
 * bottom-right cell without entering a cell twice. The search closes the
 * current cell (writes 0) while exploring from it and reopens it (writes 1)
 * afterwards; the moves so far are kept on the shared `path` list.
 */
module RatMaze {
  import Wrappers

  /** An n x n maze. */
  ghost predicate Square(maze: seq<seq<int>>, n: int)
  {
    |maze| == n && forall i :: 0 <= i < n ==> |maze[i]| == n
  }

  /** Every cell is open (1) or blocked (0). */
  ghost predicate Binary(maze: seq<seq<int>>)
  {
    forall i, j :: 0 <= i < |maze| && 0 <= j < |maze[i]| ==> maze[i][j] == 0 || maze[i][j] == 1
  }

  /** The maze with cell (x, y) set to v. */
  function Put(maze: seq<seq<int>>, x: nat, y: nat, v: int): (m: seq<seq<int>>)
    requires x < |maze| && y < |maze[x]|
    ensures |m| == |maze| && forall i :: 0 <= i < |m| ==> |m[i]| == |maze[i]|
  {
    maze[x := maze[x][y := v]]
  }

  /** The open cells of the maze. */
  function Open(maze: seq<seq<int>>, n: nat): set<(int, int)>
    requires Square(maze, n)
  {
    set i, j | 0 <= i < n && 0 <= j < n && maze[i][j] != 0 :: (i, j)
  }

  /** Closing an open cell leaves one open cell fewer. */
  lemma CloseShrinks(maze: seq<seq<int>>, n: nat, x: nat, y: nat)
    requires Square(maze, n) && x < n && y < n && maze[x][y] != 0
    ensures Square(Put(maze, x, y, 0), n)
    ensures |Open(Put(maze, x, y, 0), n)| < |Open(maze, n)|
  {
    var m := Put(maze, x, y, 0);
    assert Open(m, n) == Open(maze, n) - {(x, y)};
    assert (x, y) in Open(maze, n);
  }

  /** Closing an open cell of a 0/1 maze keeps it 0/1, and reopening the cell gives the maze back. */
  lemma CloseReopen(maze: seq<seq<int>>, x: nat, y: nat)
    requires Binary(maze) && x < |maze| && y < |maze[x]| && maze[x][y] != 0
    ensures Binary(Put(maze, x, y, 0))
    ensures Put(Put(maze, x, y, 0), x, y, 1) == maze
  {
    assert Put(Put(maze, x, y, 0), x, y, 1)[x] == maze[x];
  }

  /** The moves in the order the source tries them, with their row and column steps. */
  const Moves: seq<(char, int, int)> := [('D', 1, 0), ('L', 0, -1), ('R', 0, 1), ('U', -1, 0)]

  /** The row and column step of a move letter. */
  function Delta(c: char): (int, int)
  {
    if c == 'D' then (1, 0) else if c == 'L' then (0, -1) else if c == 'R' then (0, 1) else (-1, 0)
  }

  /** Each of the four moves is a move letter whose steps are those of `Delta`. */
  lemma MoveSteps(k: nat)
    requires k < 4
    ensures Moves[k].0 in {'D', 'L', 'R', 'U'} && Delta(Moves[k].0) == (Moves[k].1, Moves[k].2)
  {
  }

  /**
   * `moves`, from (x, y), is a way out: it ends on the bottom-right cell
   * (reached before any test of that cell), and every cell it leaves is on
   * the board and open in the maze as it is then, the cells left before
   * having been closed behind the rat.
   */
  ghost predicate Route(maze: seq<seq<int>>, n: nat, x: int, y: int, moves: string)
    requires Square(maze, n)
    decreases |moves|
  {
    if x == n - 1 && y == n - 1 then moves == []
    else
      && 0 <= x < n && 0 <= y < n && maze[x][y] != 0
      && moves != [] && moves[0] in {'D', 'L', 'R', 'U'}
      && Route(Put(maze, x, y, 0), n, x + Delta(moves[0]).0, y + Delta(moves[0]).1, moves[1..])
  }

  /** The paths that `solve(x, y)` records when `path` holds `path`, in the order recorded. */
  function Routes(maze: seq<seq<int>>, n: nat, x: int, y: int, path: string): seq<string>
    requires Square(maze, n)
    decreases |Open(maze, n)|, 5
  {
    if x == n - 1 && y == n - 1 then [path]
    else if !(0 <= x < n && 0 <= y < n) || maze[x][y] == 0 then []
    else
      CloseShrinks(maze, n, x, y);
      Tries(Put(maze, x, y, 0), n, x, y, path, 0)
  }

  /** The loop of `solve(x, y)` from the k-th move on, in the maze with (x, y) closed. */
  function Tries(m: seq<seq<int>>, n: nat, x: int, y: int, path: string, k: nat): seq<string>
    requires Square(m, n) && k <= 4
    decreases |Open(m, n)| + 1, 4 - k
  {
    if k == 4 then []
    else Routes(m, n, x + Moves[k].1, y + Moves[k].2, path + [Moves[k].0]) + Tries(m, n, x, y, path, k + 1)
  }

  lemma TriesUnfold(m: seq<seq<int>>, n: nat, x: int, y: int, path: string, k: nat)
    requires Square(m, n) && k < 4
    ensures Tries(m, n, x, y, path, k) ==
      Routes(m, n, x + Moves[k].1, y + Moves[k].2, path + [Moves[k].0]) + Tries(m, n, x, y, path, k + 1)
  {
  }

  /**
   * `solve(x, y)`: records the path on reaching the bottom-right cell; gives
   * up off the board or on a blocked cell; otherwise closes the cell, tries
   * the four moves in the order D, L, R, U (pushing the move letter, recursing
   * and popping it), and reopens the cell. The maze and `path` are handed back
   * as they were received.
   */
  method Solve(maze: seq<seq<int>>, n: nat, x: int, y: int, path: string, res: seq<string>)
    returns (maze': seq<seq<int>>, path': string, res': seq<string>)
    requires Square(maze, n) && Binary(maze)
    ensures maze' == maze && path' == path
    ensures res' == res + Routes(maze, n, x, y, path)
    decreases |Open(maze, n)|
  {
    if x == n - 1 && y == n - 1 {
      return maze, path, res + [path];
    }
    if !(0 <= x < n && 0 <= y < n) || maze[x][y] == 0 {
      return maze, path, res;
    }
    CloseShrinks(maze, n, x, y);
    CloseReopen(maze, x, y);
    maze' := Put(maze, x, y, 0);
    ghost var m := maze';
    ghost var all := Tries(m, n, x, y, path, 0);
    assert all == Routes(maze, n, x, y, path);
    path', res' := path, res;
    for k := 0 to 4
      invariant maze' == m && path' == path
      invariant res' + Tries(m, n, x, y, path, k) == res + all
    {
      var move, dx, dy := Moves[k].0, Moves[k].1, Moves[k].2;
      ghost var before := res';
      path' := path' + [move];
      ghost var sub := Routes(maze', n, x + dx, y + dy, path');
      assert sub == Routes(m, n, x + Moves[k].1, y + Moves[k].2, path + [Moves[k].0]);
      maze', path', res' := Solve(maze', n, x + dx, y + dy, path', res');
      path' := path'[..|path'| - 1];
      assert path' == path;
      TriesUnfold(m, n, x, y, path, k);
      Wrappers.AppendAssoc(before, sub, Tries(m, n, x, y, path, k + 1));
      assert res' + Tries(m, n, x, y, path, k + 1) == before + Tries(m, n, x, y, path, k);
    }
    maze' := Put(maze', x, y, 1);
  }

  /** Every path recorded is `path` followed by a way out from (x, y). */
  lemma {:induction false} RoutesSound(maze: seq<seq<int>>, n: nat, x: int, y: int, path: string, r: string)
    returns (moves: string)
    requires Square(maze, n) && r in Routes(maze, n, x, y, path)
    ensures r == path + moves && Route(maze, n, x, y, moves)
    decreases |Open(maze, n)|, 5
  {
    if x == n - 1 && y == n - 1 {
      moves := [];
      assert r == path + moves;
    } else {
      CloseShrinks(maze, n, x, y);
      var j, rest := TriesSound(Put(maze, x, y, 0), n, x, y, path, 0, r);
      MoveSteps(j);
      moves := [Moves[j].0] + rest;
      assert moves[0] == Moves[j].0 && moves[1..] == rest;
    }
  }

  lemma {:induction false} TriesSound(m: seq<seq<int>>, n: nat, x: int, y: int, path: string, k: nat, r: string)
    returns (j: nat, rest: string)
    requires Square(m, n) && k <= 4 && r in Tries(m, n, x, y, path, k)
    ensures k <= j < 4 && r == path + [Moves[j].0] + rest
    ensures Route(m, n, x + Moves[j].1, y + Moves[j].2, rest)
    decreases |Open(m, n)| + 1, 4 - k
  {
    if r in Routes(m, n, x + Moves[k].1, y + Moves[k].2, path + [Moves[k].0]) {
      j := k;
      rest := RoutesSound(m, n, x + Moves[k].1, y + Moves[k].2, path + [Moves[k].0], r);
    } else {
      j, rest := TriesSound(m, n, x, y, path, k + 1, r);
    }
  }

  /** The subtree of the j-th move is part of the loop from any earlier move on. */
  lemma {:induction false} TriesContain(m: seq<seq<int>>, n: nat, x: int, y: int, path: string, k: nat, j: nat, r: string)
    requires Square(m, n) && k <= j < 4
    requires r in Routes(m, n, x + Moves[j].1, y + Moves[j].2, path + [Moves[j].0])
    ensures r in Tries(m, n, x, y, path, k)
    decreases j - k
  {
    if k < j {
      TriesContain(m, n, x, y, path, k + 1, j, r);
    }
  }

  /** Every way out from (x, y) is recorded, after `path`. */
  lemma {:induction false} RoutesComplete(maze: seq<seq<int>>, n: nat, x: int, y: int, path: string, moves: string)
    requires Square(maze, n) && Route(maze, n, x, y, moves)
    ensures path + moves in Routes(maze, n, x, y, path)
    decreases |moves|
  {
    if x == n - 1 && y == n - 1 {
      assert path + moves == path;
    } else {
      var c := moves[0];
      var j := if c == 'D' then 0 else if c == 'L' then 1 else if c == 'R' then 2 else 3;
      MoveSteps(j);
      var m := Put(maze, x, y, 0);
      CloseShrinks(maze, n, x, y);
      RoutesComplete(m, n, x + Delta(c).0, y + Delta(c).1, path + [c], moves[1..]);
      assert path + [c] + moves[1..] == path + moves;
      TriesContain(m, n, x, y, path, 0, j, path + moves);
    }
  }

  /** The cell reached from (x, y) after `moves`. */
  function Pos(x: int, y: int, moves: string): (int, int)
    decreases |moves|
  {
    if moves == [] then (x, y) else Pos(x + Delta(moves[0]).0, y + Delta(moves[0]).1, moves[1..])
  }

  lemma PosStep(x: int, y: int, moves: string, k: nat)
    requires 0 < k <= |moves|
    ensures Pos(x, y, moves[..k]) == Pos(x + Delta(moves[0]).0, y + Delta(moves[0]).1, moves[1..][..k - 1])
  {
    assert moves[..k][1..] == moves[1..][..k - 1];
  }

  /**
   * A way out ends on the bottom-right cell, every cell it leaves is on the
   * board and open, and it never visits a cell twice.
   */
  lemma {:induction false} RouteCells(maze: seq<seq<int>>, n: nat, x: int, y: int, moves: string)
    requires Square(maze, n) && Route(maze, n, x, y, moves)
    ensures Pos(x, y, moves) == (n - 1, n - 1)
    ensures forall k :: 0 <= k < |moves| ==>
      0 <= Pos(x, y, moves[..k]).0 < n && 0 <= Pos(x, y, moves[..k]).1 < n &&
      maze[Pos(x, y, moves[..k]).0][Pos(x, y, moves[..k]).1] != 0
    ensures forall k, l :: 0 <= k < l <= |moves| ==> Pos(x, y, moves[..k]) != Pos(x, y, moves[..l])
    decreases |moves|
  {
    if moves != [] {
      var m := Put(maze, x, y, 0);
      var (dx, dy) := Delta(moves[0]);
      var rest := moves[1..];
      RouteCells(m, n, x + dx, y + dy, rest);
      forall k | 0 < k <= |moves| ensures Pos(x, y, moves[..k]) == Pos(x + dx, y + dy, rest[..k - 1]) {
        PosStep(x, y, moves, k);
      }
      assert rest[..|rest|] == rest && moves[..|moves|] == moves;
      forall k | 0 < k < |moves|
        ensures var p := Pos(x, y, moves[..k]); 0 <= p.0 < n && 0 <= p.1 < n && maze[p.0][p.1] != 0 && p != (x, y)
      {
        var p := Pos(x + dx, y + dy, rest[..k - 1]);
        assert m[p.0][p.1] != 0;
      }
      assert (n - 1, n - 1) != (x, y);
    }
  }

  /**
   * `ratInMaze(maze, n)`: every path returned leads from (0, 0) to
   * (n - 1, n - 1) over open cells without revisiting one, and every such
   * path is returned; the maze is handed back unchanged.
   */
  method RatInMaze(maze: seq<seq<int>>, n: nat) returns (maze': seq<seq<int>>, res: seq<string>)
    requires Square(maze, n) && Binary(maze)
    ensures maze' == maze
    ensures forall r :: r in res ==> Route(maze, n, 0, 0, r)
    ensures forall r :: Route(maze, n, 0, 0, r) ==> r in res
  {
    var path;
    maze', path, res := Solve(maze, n, 0, 0, [], []);
    forall r | r in res ensures Route(maze, n, 0, 0, r) {
      var moves := RoutesSound(maze, n, 0, 0, [], r);
      assert r == moves;
    }
    forall r | Route(maze, n, 0, 0, r) ensures r in res {
      RoutesComplete(maze, n, 0, 0, [], r);
      assert [] + r == r;
    }
  }
}
