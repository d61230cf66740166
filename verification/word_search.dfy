/**
 * `exist(board, word)`: whether `word` can be spelled on a grid of letters by
 * a trail of cells, each next to the one before (above, below, left or
 * right), that uses no cell twice. A depth-first search from every cell keeps
 * the cells of the current trail in the shared set `path`.
 */
module WordSearch {
  type Cell = (int, int)

  /** A board of at least one row, all rows as long as the first. */
  ghost predicate Rect(board: seq<seq<char>>)
  {
    |board| > 0 && forall r :: 0 <= r < |board| ==> |board[r]| == |board[0]|
  }

  predicate InBoard(board: seq<seq<char>>, p: Cell)
    requires Rect(board)
  {
    0 <= p.0 < |board| && 0 <= p.1 < |board[0]|
  }

  /** b is above, below, left or right of a. */
  predicate Neighbours(a: Cell, b: Cell)
  {
    b == (a.0 + 1, a.1) || b == (a.0 - 1, a.1) || b == (a.0, a.1 + 1) || b == (a.0, a.1 - 1)
  }

  /**
   * `cells` spells `word[i..]`: one cell per letter, each on the board and
   * holding its letter, each next to the one before, none of them in `path`
   * and none used twice.
   */
  ghost predicate Trail(board: seq<seq<char>>, word: string, i: nat, path: set<Cell>, cells: seq<Cell>)
    requires Rect(board) && i <= |word|
  {
    && |cells| == |word| - i
    && (forall k :: 0 <= k < |cells| ==>
          InBoard(board, cells[k]) && board[cells[k].0][cells[k].1] == word[i + k] && cells[k] !in path)
    && (forall k :: 0 <= k < |cells| - 1 ==> Neighbours(cells[k], cells[k + 1]))
    && (forall k, l :: 0 <= k < l < |cells| ==> cells[k] != cells[l])
  }

  /** What `dfs(r, c, i)` answers when the trail so far is `path`. */
  function Search(board: seq<seq<char>>, word: string, r: int, c: int, i: nat, path: set<Cell>): bool
    requires Rect(board) && i <= |word|
    decreases |word| - i
  {
    if i == |word| then true
    else if !InBoard(board, (r, c)) || word[i] != board[r][c] || (r, c) in path then false
    else
      var p := path + {(r, c)};
      Search(board, word, r + 1, c, i + 1, p) || Search(board, word, r - 1, c, i + 1, p) ||
      Search(board, word, r, c + 1, i + 1, p) || Search(board, word, r, c - 1, i + 1, p)
  }

  /**
   * `dfs(r, c, i)`: succeeds once every letter is matched; fails off the
   * board, on a wrong letter or on a cell already on the trail; otherwise
   * adds the cell to the trail, tries the cells below, above, right and left
   * in that order, stopping at the first success, and takes the cell off the
   * trail again.
   */
  method Dfs(board: seq<seq<char>>, word: string, r: int, c: int, i: nat, path: set<Cell>)
    returns (found: bool, path': set<Cell>)
    requires Rect(board) && i <= |word|
    ensures path' == path
    ensures found == Search(board, word, r, c, i, path)
    decreases |word| - i
  {
    var rows, cols := |board|, |board[0]|;
    if i == |word| {
      return true, path;
    }
    if r < 0 || c < 0 || r >= rows || c >= cols || word[i] != board[r][c] || (r, c) in path {
      return false, path;
    }
    path' := path + {(r, c)};
    ghost var p := path';
    found, path' := Dfs(board, word, r + 1, c, i + 1, path');
    if !found {
      found, path' := Dfs(board, word, r - 1, c, i + 1, path');
    }
    if !found {
      found, path' := Dfs(board, word, r, c + 1, i + 1, path');
    }
    if !found {
      found, path' := Dfs(board, word, r, c - 1, i + 1, path');
    }
    assert path' == p;
    path' := path' - {(r, c)};
  }

  /** A successful search from (r, c) yields a trail starting there. */
  lemma {:induction false} SearchSound(board: seq<seq<char>>, word: string, r: int, c: int, i: nat, path: set<Cell>)
    returns (cells: seq<Cell>)
    requires Rect(board) && i <= |word| && Search(board, word, r, c, i, path)
    ensures Trail(board, word, i, path, cells) && (cells != [] ==> cells[0] == (r, c))
    decreases |word| - i
  {
    if i == |word| {
      cells := [];
    } else {
      var p := path + {(r, c)};
      var next: Cell :=
        if Search(board, word, r + 1, c, i + 1, p) then (r + 1, c)
        else if Search(board, word, r - 1, c, i + 1, p) then (r - 1, c)
        else if Search(board, word, r, c + 1, i + 1, p) then (r, c + 1)
        else (r, c - 1);
      var rest := SearchSound(board, word, next.0, next.1, i + 1, p);
      cells := [(r, c)] + rest;
      ConsTrail(board, word, i, path, (r, c), rest);
    }
  }

  /** A cell holding `word[i]` in front of a trail for `word[i + 1..]` that avoids it. */
  lemma ConsTrail(board: seq<seq<char>>, word: string, i: nat, path: set<Cell>, p: Cell, rest: seq<Cell>)
    requires Rect(board) && i < |word|
    requires InBoard(board, p) && board[p.0][p.1] == word[i] && p !in path
    requires Trail(board, word, i + 1, path + {p}, rest) && (rest != [] ==> Neighbours(p, rest[0]))
    ensures Trail(board, word, i, path, [p] + rest)
  {
    var cells := [p] + rest;
    forall k | 0 < k < |cells| ensures cells[k] == rest[k - 1] && cells[k] !in path && cells[k] != p {
    }
    forall k, l | 0 <= k < l < |cells| ensures cells[k] != cells[l] {
      if k > 0 {
        assert cells[k] == rest[k - 1] && cells[l] == rest[l - 1];
      }
    }
  }

  /** The tail of a trail is a trail for the rest of the word that avoids its first cell. */
  lemma TailTrail(board: seq<seq<char>>, word: string, i: nat, path: set<Cell>, cells: seq<Cell>)
    requires Rect(board) && i < |word| && Trail(board, word, i, path, cells)
    ensures Trail(board, word, i + 1, path + {cells[0]}, cells[1..])
    ensures |cells| > 1 ==> Neighbours(cells[0], cells[1])
  {
    var rest := cells[1..];
    forall k | 0 <= k < |rest| ensures rest[k] == cells[k + 1] && rest[k] != cells[0] {
    }
    forall k | 0 <= k < |rest| - 1 ensures Neighbours(rest[k], rest[k + 1]) {
      assert rest[k] == cells[k + 1] && rest[k + 1] == cells[k + 2];
    }
    forall k, l | 0 <= k < l < |rest| ensures rest[k] != rest[l] {
      assert rest[k] == cells[k + 1] && rest[l] == cells[l + 1];
    }
  }

  /** A trail starting at (r, c) makes the search from (r, c) succeed. */
  lemma {:induction false} SearchComplete(board: seq<seq<char>>, word: string, r: int, c: int, i: nat, path: set<Cell>, cells: seq<Cell>)
    requires Rect(board) && i <= |word| && Trail(board, word, i, path, cells) && (cells != [] ==> cells[0] == (r, c))
    ensures Search(board, word, r, c, i, path)
    decreases |word| - i
  {
    if i < |word| {
      var p := path + {(r, c)};
      TailTrail(board, word, i, path, cells);
      if |cells| == 1 {
        assert Search(board, word, r + 1, c, i + 1, p);
      } else {
        SearchComplete(board, word, cells[1].0, cells[1].1, i + 1, p, cells[1..]);
      }
    }
  }

  /**
   * `exist(board, word)`: tries a search from every cell, row by row, and
   * answers at the first success. The answer is yes exactly when the board
   * has columns and some trail of distinct neighbouring cells spells the
   * word (an empty word is found on any board with a cell).
   */
  method Exist(board: seq<seq<char>>, word: string) returns (found: bool)
    requires Rect(board)
    ensures found <==> exists r, c :: 0 <= r < |board| && 0 <= c < |board[0]| && Search(board, word, r, c, 0, {})
    ensures found <==> |board[0]| > 0 && exists cells :: Trail(board, word, 0, {}, cells)
  {
    var rows, cols := |board|, |board[0]|;
    found := false;
    for r := 0 to rows
      invariant forall r', c' :: 0 <= r' < r && 0 <= c' < cols ==> !Search(board, word, r', c', 0, {})
    {
      for c := 0 to cols
        invariant forall r', c' :: 0 <= r' < r && 0 <= c' < cols ==> !Search(board, word, r', c', 0, {})
        invariant forall c' :: 0 <= c' < c ==> !Search(board, word, r, c', 0, {})
      {
        var f, _ := Dfs(board, word, r, c, 0, {});
        if f {
          FoundTrail(board, word, r, c);
          return true;
        }
      }
    }
    NoTrail(board, word);
    return false;
  }

  lemma FoundTrail(board: seq<seq<char>>, word: string, r: int, c: int)
    requires Rect(board) && 0 <= r < |board| && 0 <= c < |board[0]| && Search(board, word, r, c, 0, {})
    ensures exists cells :: Trail(board, word, 0, {}, cells)
  {
    var cells := SearchSound(board, word, r, c, 0, {});
  }

  lemma NoTrail(board: seq<seq<char>>, word: string)
    requires Rect(board)
    requires forall r, c :: 0 <= r < |board| && 0 <= c < |board[0]| ==> !Search(board, word, r, c, 0, {})
    ensures |board[0]| > 0 ==> forall cells :: !Trail(board, word, 0, {}, cells)
  {
    if |board[0]| > 0 {
      forall cells | Trail(board, word, 0, {}, cells) ensures false {
        var start: Cell := if cells == [] then (0, 0) else cells[0];
        SearchComplete(board, word, start.0, start.1, 0, {}, cells);
      }
    }
  }
}
