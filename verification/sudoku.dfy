/**
 * `solveSudoku(board)`: fills the blank cells (`.`) of a 9 x 9 board with
 * digits so that no digit repeats in a row, a column or a 3 x 3 box. The
 * search fills the first blank cell in reading order with each digit that
 * `is_valid` allows, recurses, and blanks the cell again on failure.
 */
module Sudoku {
  import opened Wrappers

  const Digits: string := "123456789"

  /** A 9 x 9 board. */
  ghost predicate Grid9(b: seq<seq<char>>)
  {
    |b| == 9 && forall r :: 0 <= r < 9 ==> |b[r]| == 9
  }

  /** The cell in reading position p (row p / 9, column p % 9). */
  function Cell(b: seq<seq<char>>, p: nat): char
    requires Grid9(b) && p < 81
  {
    b[p / 9][p % 9]
  }

  /** The board with `ch` written at (r, c). */
  function Place(b: seq<seq<char>>, r: nat, c: nat, ch: char): (b': seq<seq<char>>)
    requires Grid9(b) && r < 9 && c < 9
    ensures Grid9(b')
  {
    b[r := b[r][c := ch]]
  }

  /** Blanking a cell just filled gives the board back. */
  lemma Unplace(b: seq<seq<char>>, r: nat, c: nat, ch: char)
    requires Grid9(b) && r < 9 && c < 9 && b[r][c] == '.'
    ensures Place(Place(b, r, c, ch), r, c, '.') == b
  {
    assert Place(Place(b, r, c, ch), r, c, '.')[r] == b[r];
  }

  /** The blank cells. */
  function Blanks(b: seq<seq<char>>): set<(int, int)>
    requires Grid9(b)
  {
    set r, c | 0 <= r < 9 && 0 <= c < 9 && b[r][c] == '.' :: (r, c)
  }

  /** Filling a blank cell leaves one blank fewer. */
  lemma FillShrinks(b: seq<seq<char>>, r: nat, c: nat, ch: char)
    requires Grid9(b) && r < 9 && c < 9 && b[r][c] == '.' && ch != '.'
    ensures |Blanks(Place(b, r, c, ch))| < |Blanks(b)|
  {
    assert Blanks(Place(b, r, c, ch)) == Blanks(b) - {(r, c)};
    assert (r, c) in Blanks(b);
  }

  /** The first blank cell in reading order from position p on. */
  function FirstBlank(b: seq<seq<char>>, p: nat): (q: Option<nat>)
    requires Grid9(b) && p <= 81
    ensures q.Some? ==> p <= q.value < 81 && Cell(b, q.value) == '.'
    decreases 81 - p
  {
    if p == 81 then None else if Cell(b, p) == '.' then Some(p) else FirstBlank(b, p + 1)
  }

  lemma {:induction false} FirstBlankAt(b: seq<seq<char>>, p: nat, q: nat)
    requires Grid9(b) && p <= q < 81 && Cell(b, q) == '.'
    requires forall t :: p <= t < q ==> Cell(b, t) != '.'
    ensures FirstBlank(b, p) == Some(q)
    decreases q - p
  {
    if p < q {
      FirstBlankAt(b, p + 1, q);
    }
  }

  lemma {:induction false} NoBlankFrom(b: seq<seq<char>>, p: nat)
    requires Grid9(b) && p <= 81
    ensures FirstBlank(b, p) == None <==> forall t :: p <= t < 81 ==> Cell(b, t) != '.'
    decreases 81 - p
  {
    if p < 81 {
      NoBlankFrom(b, p + 1);
    }
  }

  lemma Position(r: nat, c: nat)
    requires r < 9 && c < 9
    ensures 9 * r + c < 81 && (9 * r + c) / 9 == r && (9 * r + c) % 9 == c
  {
  }

  lemma Coordinates(t: nat)
    requires t < 81
    ensures t / 9 < 9 && t % 9 < 9 && t == 9 * (t / 9) + t % 9
  {
  }

  /** Cell (i, j) lies in the box of cell (r, c). */
  predicate InBox(r: int, c: int, i: int, j: int)
  {
    3 * (r / 3) <= i < 3 * (r / 3) + 3 && 3 * (c / 3) <= j < 3 * (c / 3) + 3
  }

  lemma BoxSymmetric(r: nat, c: nat, i: nat, j: nat)
    ensures InBox(r, c, i, j) <==> r / 3 == i / 3 && c / 3 == j / 3
  {
  }

  /** `is_valid(r, c, ch)`: `ch` is nowhere in row r, in column c or in the box of (r, c). */
  predicate Valid(b: seq<seq<char>>, r: nat, c: nat, ch: char)
    requires Grid9(b) && r < 9 && c < 9
  {
    && (forall i :: 0 <= i < 9 ==> b[r][i] != ch && b[i][c] != ch)
    && (forall i, j :: 0 <= i < 9 && 0 <= j < 9 && InBox(r, c, i, j) ==> b[i][j] != ch)
  }

  /**
   * `is_valid(r, c, ch)`: compares `ch` with every cell of row r and column
   * c, then with every cell of the box whose corner is (3 * (r // 3),
   * 3 * (c // 3)).
   */
  method IsValid(b: seq<seq<char>>, r: nat, c: nat, ch: char) returns (ok: bool)
    requires Grid9(b) && r < 9 && c < 9
    ensures ok <==> Valid(b, r, c, ch)
  {
    for i := 0 to 9
      invariant forall k :: 0 <= k < i ==> b[r][k] != ch && b[k][c] != ch
    {
      if b[r][i] == ch || b[i][c] == ch {
        return false;
      }
    }
    var boxR, boxC := 3 * (r / 3), 3 * (c / 3);
    for i := boxR to boxR + 3
      invariant forall k, l :: 0 <= k < 9 && 0 <= l < 9 && boxR <= k < i && InBox(r, c, k, l) ==> b[k][l] != ch
    {
      for j := boxC to boxC + 3
        invariant forall k, l :: 0 <= k < 9 && 0 <= l < 9 && boxR <= k < i && InBox(r, c, k, l) ==> b[k][l] != ch
        invariant forall l :: boxC <= l < j ==> b[i][l] != ch
      {
        if b[i][j] == ch {
          return false;
        }
      }
    }
    return true;
  }

  /** What `backtrack()` ends with: the filled board on success, nothing on failure. */
  function Solve(b: seq<seq<char>>): Option<seq<seq<char>>>
    requires Grid9(b)
    decreases |Blanks(b)|, 1
  {
    match FirstBlank(b, 0)
    case None => Some(b)
    case Some(p) => Coordinates(p); Try(b, p / 9, p % 9, 0)
  }

  /** The loop of `backtrack()` over the digits from the k-th on, at the blank cell (r, c). */
  function Try(b: seq<seq<char>>, r: nat, c: nat, k: nat): Option<seq<seq<char>>>
    requires Grid9(b) && r < 9 && c < 9 && b[r][c] == '.' && k <= 9
    decreases |Blanks(b)|, 0, 9 - k
  {
    if k == 9 then None
    else if Valid(b, r, c, Digits[k]) then
      FillShrinks(b, r, c, Digits[k]);
      var s := Solve(Place(b, r, c, Digits[k]));
      if s.Some? then s else Try(b, r, c, k + 1)
    else Try(b, r, c, k + 1)
  }

  /**
   * `backtrack()`: looks for the first blank cell row by row; with none left
   * the board is solved. At that cell it tries the digits 1 to 9 in order,
   * writing each one `is_valid` allows and recursing, and stops at the first
   * success; a failed digit is blanked again, and when every digit has
   * failed the board is handed back as it was received.
   */
  method Backtrack(board: seq<seq<char>>) returns (found: bool, board': seq<seq<char>>)
    requires Grid9(board)
    ensures found == Solve(board).Some?
    ensures found ==> board' == Solve(board).value
    ensures !found ==> board' == board
    decreases |Blanks(board)|
  {
    for r := 0 to 9
      invariant forall t :: 0 <= t < 9 * r ==> Cell(board, t) != '.'
    {
      for c := 0 to 9
        invariant forall t :: 0 <= t < 9 * r + c ==> Cell(board, t) != '.'
      {
        Position(r, c);
        if board[r][c] == '.' {
          FirstBlankAt(board, 0, 9 * r + c);
          board' := board;
          for k := 0 to 9
            invariant board' == board
            invariant Try(board, r, c, k) == Solve(board)
          {
            var ch := Digits[k];
            var ok := IsValid(board', r, c, ch);
            if ok {
              FillShrinks(board, r, c, ch);
              Unplace(board, r, c, ch);
              board' := Place(board', r, c, ch);
              var f;
              f, board' := Backtrack(board');
              if f {
                return true, board';
              }
              board' := Place(board', r, c, '.');
            }
          }
          return false, board';
        }
      }
    }
    NoBlankFrom(board, 0);
    return true, board;
  }

  /** Every cell that holds something other than a blank in `b` holds the same in `s`. */
  ghost predicate Keeps(s: seq<seq<char>>, b: seq<seq<char>>)
    requires Grid9(s) && Grid9(b)
  {
    forall r, c :: 0 <= r < 9 && 0 <= c < 9 && b[r][c] != '.' ==> s[r][c] == b[r][c]
  }

  /** `s` keeps what `b` holds and has a digit in every cell that `b` leaves blank. */
  ghost predicate Fills(s: seq<seq<char>>, b: seq<seq<char>>)
    requires Grid9(s) && Grid9(b)
  {
    Keeps(s, b) && forall r, c :: 0 <= r < 9 && 0 <= c < 9 && b[r][c] == '.' ==> s[r][c] in Digits
  }

  /** Two different cells of the same row, column or box. */
  predicate Peers(r1: int, c1: int, r2: int, c2: int)
  {
    (r1, c1) != (r2, c2) && (r1 == r2 || c1 == c2 || (r1 / 3 == r2 / 3 && c1 / 3 == c2 / 3))
  }

  /** No filled cell holds the same character as one of its peers. */
  ghost predicate Consistent(b: seq<seq<char>>)
    requires Grid9(b)
  {
    forall r1, c1, r2, c2 ::
      && 0 <= r1 < 9 && 0 <= c1 < 9 && 0 <= r2 < 9 && 0 <= c2 < 9
      && Peers(r1, c1, r2, c2) && b[r1][c1] != '.'
      ==> b[r1][c1] != b[r2][c2]
  }

  /** A solution of `b`: a consistent board that fills it. */
  ghost predicate Solution(s: seq<seq<char>>, b: seq<seq<char>>)
  {
    Grid9(s) && Grid9(b) && Fills(s, b) && Consistent(s)
  }

  /** Every character that `s` has written into a blank of `b` differs from each of its peers in `s`. */
  ghost predicate WritesFit(s: seq<seq<char>>, b: seq<seq<char>>)
    requires Grid9(s) && Grid9(b)
  {
    forall r1, c1, r2, c2 ::
      && 0 <= r1 < 9 && 0 <= c1 < 9 && 0 <= r2 < 9 && 0 <= c2 < 9
      && Peers(r1, c1, r2, c2) && b[r1][c1] == '.' && s[r1][c1] != '.'
      ==> s[r1][c1] != s[r2][c2]
  }

  /**
   * A digit that `is_valid` allowed in a blank, followed by a filling whose
   * writes fit, gives a filling of the board before it whose writes fit: the
   * later digits were checked against the first one, and the first one
   * against every cell given.
   */
  lemma PlaceFits(s: seq<seq<char>>, b: seq<seq<char>>, r: nat, c: nat, ch: char)
    requires Grid9(s) && Grid9(b) && r < 9 && c < 9 && b[r][c] == '.' && ch in Digits
    requires Valid(b, r, c, ch) && Fills(s, Place(b, r, c, ch)) && WritesFit(s, Place(b, r, c, ch))
    ensures WritesFit(s, b)
  {
    var b' := Place(b, r, c, ch);
    assert s[r][c] == ch;
    forall r1, c1, r2, c2 | 0 <= r1 < 9 && 0 <= c1 < 9 && 0 <= r2 < 9 && 0 <= c2 < 9 &&
      Peers(r1, c1, r2, c2) && b[r1][c1] == '.' && s[r1][c1] != '.'
      ensures s[r1][c1] != s[r2][c2]
    {
      if (r1, c1) == (r, c) {
        assert b'[r2][c2] == b[r2][c2];
        if b[r2][c2] == '.' {
          assert Peers(r2, c2, r1, c1);
        } else {
          BoxSymmetric(r, c, r2, c2);
          assert s[r2][c2] == b[r2][c2];
        }
      } else {
        assert b'[r1][c1] == '.';
      }
    }
  }

  /** Writing a digit that `is_valid` allows into a blank cell keeps a board consistent. */
  lemma PlaceConsistent(b: seq<seq<char>>, r: nat, c: nat, ch: char)
    requires Grid9(b) && r < 9 && c < 9 && b[r][c] == '.' && ch != '.'
    requires Valid(b, r, c, ch) && Consistent(b)
    ensures Consistent(Place(b, r, c, ch))
  {
    var b' := Place(b, r, c, ch);
    forall r1, c1, r2, c2 | 0 <= r1 < 9 && 0 <= c1 < 9 && 0 <= r2 < 9 && 0 <= c2 < 9 &&
      Peers(r1, c1, r2, c2) && b'[r1][c1] != '.'
      ensures b'[r1][c1] != b'[r2][c2]
    {
      BoxSymmetric(r, c, r2, c2);
      BoxSymmetric(r, c, r1, c1);
      if (r1, c1) == (r, c) {
        assert b'[r2][c2] == b[r2][c2];
      } else if (r2, c2) == (r, c) {
        assert b'[r1][c1] == b[r1][c1];
      }
    }
  }

  /** Filling a cell and then the rest of the board fills the board. */
  lemma PlaceFills(s: seq<seq<char>>, b: seq<seq<char>>, r: nat, c: nat, ch: char)
    requires Grid9(s) && Grid9(b) && r < 9 && c < 9 && b[r][c] == '.' && ch in Digits
    requires Fills(s, Place(b, r, c, ch))
    ensures Fills(s, b)
  {
    var b' := Place(b, r, c, ch);
    forall i, j | 0 <= i < 9 && 0 <= j < 9 && b[i][j] != '.' ensures s[i][j] == b[i][j] {
      assert b'[i][j] == b[i][j];
    }
    assert s[r][c] == b'[r][c];
  }

  /**
   * Whatever `backtrack()` ends with fills the board: every cell it was
   * given is kept, every blank holds a digit, and a consistent board stays
   * consistent.
   */
  lemma {:induction false} SolveSound(b: seq<seq<char>>) returns (s: seq<seq<char>>)
    requires Grid9(b) && Solve(b).Some?
    ensures Solve(b) == Some(s) && Grid9(s) && Fills(s, b)
    ensures Consistent(b) ==> Consistent(s)
    ensures WritesFit(s, b)
    decreases |Blanks(b)|, 1
  {
    match FirstBlank(b, 0)
    case None =>
      s := b;
      NoBlankFrom(b, 0);
      forall r, c | 0 <= r < 9 && 0 <= c < 9 ensures b[r][c] != '.' {
        Position(r, c);
        assert Cell(b, 9 * r + c) == b[r][c];
      }
    case Some(p) =>
      Coordinates(p);
      s := TrySound(b, p / 9, p % 9, 0);
  }

  lemma {:induction false} TrySound(b: seq<seq<char>>, r: nat, c: nat, k: nat) returns (s: seq<seq<char>>)
    requires Grid9(b) && r < 9 && c < 9 && b[r][c] == '.' && k <= 9 && Try(b, r, c, k).Some?
    ensures Try(b, r, c, k) == Some(s) && Grid9(s) && Fills(s, b)
    ensures Consistent(b) ==> Consistent(s)
    ensures WritesFit(s, b)
    decreases |Blanks(b)|, 0, 9 - k, 1
  {
    if Valid(b, r, c, Digits[k]) && Solve(Place(b, r, c, Digits[k])).Some? {
      s := TryHit(b, r, c, k);
    } else {
      assert Try(b, r, c, k) == Try(b, r, c, k + 1);
      s := TrySound(b, r, c, k + 1);
    }
  }

  /** A digit that `is_valid` allows and that leads to success gives a filling of the board. */
  lemma {:induction false} TryHit(b: seq<seq<char>>, r: nat, c: nat, k: nat) returns (s: seq<seq<char>>)
    requires Grid9(b) && r < 9 && c < 9 && b[r][c] == '.' && k < 9
    requires Valid(b, r, c, Digits[k]) && Solve(Place(b, r, c, Digits[k])).Some?
    ensures Solve(Place(b, r, c, Digits[k])) == Some(s) && Grid9(s) && Fills(s, b)
    ensures Consistent(b) ==> Consistent(s)
    ensures WritesFit(s, b)
    decreases |Blanks(b)|, 0, 9 - k, 0
  {
    var ch := Digits[k];
    FillShrinks(b, r, c, ch);
    s := SolveSound(Place(b, r, c, ch));
    PlaceFills(s, b, r, c, ch);
    PlaceFits(s, b, r, c, ch);
    if Consistent(b) {
      PlaceConsistent(b, r, c, ch);
    }
  }

  /** A digit of a solution is allowed by `is_valid` in the cell it fills. */
  lemma SolutionValid(s: seq<seq<char>>, b: seq<seq<char>>, r: nat, c: nat)
    requires Solution(s, b) && r < 9 && c < 9 && b[r][c] == '.'
    ensures s[r][c] in Digits && Valid(b, r, c, s[r][c])
  {
    var d := s[r][c];
    forall i | 0 <= i < 9 ensures b[r][i] != d && b[i][c] != d {
      assert Peers(r, i, r, c) || i == c;
      assert Peers(i, c, r, c) || i == r;
    }
    forall i, j | 0 <= i < 9 && 0 <= j < 9 && InBox(r, c, i, j) ensures b[i][j] != d {
      BoxSymmetric(r, c, i, j);
      assert Peers(i, j, r, c) || (i, j) == (r, c);
    }
  }

  /** A solution of a board is a solution of the board with one of its digits filled in. */
  lemma SolutionPlace(s: seq<seq<char>>, b: seq<seq<char>>, r: nat, c: nat)
    requires Solution(s, b) && r < 9 && c < 9 && b[r][c] == '.'
    ensures Solution(s, Place(b, r, c, s[r][c]))
  {
    var b' := Place(b, r, c, s[r][c]);
    forall i, j | 0 <= i < 9 && 0 <= j < 9 ensures b'[i][j] != '.' ==> s[i][j] == b'[i][j] {
    }
    forall i, j | 0 <= i < 9 && 0 <= j < 9 && b'[i][j] == '.' ensures s[i][j] in Digits {
      assert b[i][j] == '.';
    }
  }

  lemma DigitIndex(d: char) returns (k: nat)
    requires d in Digits
    ensures k < 9 && Digits[k] == d
  {
    k :| 0 <= k < 9 && Digits[k] == d;
  }

  /** The loop over the digits succeeds when some digit from the k-th on leads to success. */
  lemma {:induction false} TryReaches(b: seq<seq<char>>, r: nat, c: nat, k: nat, j: nat)
    requires Grid9(b) && r < 9 && c < 9 && b[r][c] == '.' && k <= j < 9
    requires Valid(b, r, c, Digits[j]) && Solve(Place(b, r, c, Digits[j])).Some?
    ensures Try(b, r, c, k).Some?
    decreases j - k
  {
    if k < j {
      TryReaches(b, r, c, k + 1, j);
    }
  }

  /** A board that has a solution is solved: the search misses none. */
  lemma {:induction false} SolveComplete(s: seq<seq<char>>, b: seq<seq<char>>)
    requires Solution(s, b)
    ensures Solve(b).Some?
    decreases |Blanks(b)|
  {
    match FirstBlank(b, 0)
    case None =>
    case Some(p) =>
      Coordinates(p);
      var r, c := p / 9, p % 9;
      SolutionValid(s, b, r, c);
      var j := DigitIndex(s[r][c]);
      SolutionPlace(s, b, r, c);
      FillShrinks(b, r, c, s[r][c]);
      SolveComplete(s, Place(b, r, c, s[r][c]));
      TryReaches(b, r, c, 0, j);
  }

  /** A board that has a solution is itself consistent. */
  lemma SolvableConsistent(s: seq<seq<char>>, b: seq<seq<char>>)
    requires Solution(s, b)
    ensures Consistent(b)
  {
    forall r1, c1, r2, c2 | 0 <= r1 < 9 && 0 <= c1 < 9 && 0 <= r2 < 9 && 0 <= c2 < 9 &&
      Peers(r1, c1, r2, c2) && b[r1][c1] != '.'
      ensures b[r1][c1] != b[r2][c2]
    {
      assert s[r1][c1] == b[r1][c1];
      if b[r2][c2] != '.' {
        assert s[r2][c2] == b[r2][c2];
      }
    }
  }

  /**
   * `solveSudoku(board)`: the board handed back is either the board received
   * or a filling of it; every digit it writes into a blank differs from each
   * of its row, column and box peers, whatever the board received; a
   * consistent board comes back consistent; and whenever the board has a
   * solution, the board handed back is one.
   */
  method SolveSudoku(board: seq<seq<char>>) returns (board': seq<seq<char>>)
    requires Grid9(board)
    ensures Grid9(board')
    ensures board' == board || Fills(board', board)
    ensures WritesFit(board', board)
    ensures Consistent(board) ==> Consistent(board')
    ensures (exists s :: Solution(s, board)) ==> Solution(board', board)
  {
    var found;
    found, board' := Backtrack(board);
    if found {
      var s := SolveSound(board);
    }
    if s :| Solution(s, board) {
      SolveComplete(s, board);
      SolvableConsistent(s, board);
      var s' := SolveSound(board);
    }
  }
}
