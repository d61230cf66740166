# A verified model of the DSA game, the backtracking collection and two small checks

This project models, in Dafny, four programs of a collection of small
algorithm exercises:

- **The network-escape game** (`TheDSAGame.py`). The player crosses a
  6 x 6 grid of nodes from node 0 to the exit, node 35. Nodes are joined
  by weighted edges that are active or inactive. The player may cross
  only active edges. Toggling the edge in a direction costs 2 energy, and
  every turn costs 1. Guards run Dijkstra's algorithm over the same
  edges. The edges of a minimum spanning tree, found with Kruskal's
  algorithm over a disjoint-set union (DSU), are marked critical. The
  player wins on reaching the exit; the program also asks that the exit be
  connected to the player over active edges, which always holds there.
  - The model covers the union-find (`union_find.dfy`), grid
    construction and indexing (`grid.dfy`), connectivity over active edges
    (`connectivity.dfy`), Kruskal (`kruskal.dfy`), Dijkstra and the guard
    move (`pursuit.dfy`), and the toggle, the command step, the end checks
    and the turn loop of `main` (`game.dfy`).
  - Walks and reachability over a set of links are defined once, in
    `walks.dfy`.
- **Ten backtracking searches** (`backtracking.py`): N-Queens, rat in a
  maze, subsets, permutations, combination sum, word search, palindrome
  partitioning, Sudoku, phone-keypad letter combinations and balanced
  parentheses. There is one module per search.
  - Each recursive `backtrack` is a recursive method. It takes the shared
    working list and the result list, and gives back the working list
    unchanged together with the results extended by a specification
    function that lists the results in the order they are recorded.
  - Lemmas prove that every result recorded is a solution, and that every
    solution is recorded.
- **Pixel Battle Arena** (`Pixel_Battle_Arena.py`): the score of a gamer
  and the three-way outcome (`pixel_battle.dfy`).
- **Cookie numbers** (`Cookie_num.py`): the rule that no two neighbouring
  characters are equal, after the line is stripped (`cookie.dfy`).

Behaviour kept as the source has it:

- **Guards never move.** `guards_move` runs Dijkstra from the guard itself,
  so the guard's own distance is 0. No neighbour is closer than that, so
  every guard stays where it is; `Pursuit.GuardsMove` proves this.
- **Standing on the exit always wins.** The win test asks for the player
  to be on the exit and connected to it, but on the exit both finds of the
  connectivity test start from the same node, so the test reduces to being
  on the exit (`Game.CheckEnd`).
- **The toggle prompt reads `d` as down.** The right-hand branch also lists
  `d`, but the down branch comes first (`Game.ToggleDir`).

Randomness is a parameter of the model:

- the edge weights (`randint(1, 9)`);
- the two activation draws per edge;
- the three guard positions.

Commands are given as strings, already stripped and lower-cased.

## Model

| member | source | states |
|---|---|---|
| UnionFind.DSU.constructor | TheDSAGame.py:128-129 | `DSU(n)` makes every node its own representative, so every class is a singleton |
| UnionFind.DSU.Find | TheDSAGame.py:130-134 | `find(a)` returns a root (`p[r] == r`) that is the representative of `a`; path halving changes no node's representative |
| UnionFind.DSU.Union | TheDSAGame.py:135-139 | `union(a, b)` answers False exactly when `a` and `b` already shared a representative; afterwards they share one, and exactly the class of `b` has moved under the root of `a` |
| UnionFind.HalvingKeepsForest | TheDSAGame.py:132 | one path-halving step keeps the parent forest and every representative, and shortens the path |
| UnionFind.LinkKeepsForest | TheDSAGame.py:138 | linking one root under another keeps a well-founded parent forest for the merged partition |
| UnionFind.MergedRoots | TheDSAGame.py:137-139 | a successful union removes exactly one root |
| UnionFind.IdentityRoots | TheDSAGame.py:129 | the fresh DSU on n nodes has n roots |
| UnionFind.SingleClassRoots | TheDSAGame.py:169-177 | a partition in which every node shares one representative has exactly one root |
| Walks.ReachableIsEquivalence | TheDSAGame.py:179-184 | connection over a set of links is reflexive, symmetric and transitive |
| Walks.ReachableMono | TheDSAGame.py:179-184 | adding links never disconnects two nodes |
| Walks.LabelsAgreeOnReachable | TheDSAGame.py:179-184 | a labelling that agrees across every link agrees on any two connected nodes |
| Grid.FindEdge | TheDSAGame.py:259-260 | lookup by unordered key `frozenset((a, b))` finds the first edge joining `a` and `b`, and finds none exactly when no edge joins them |
| Grid.IdxRoundTrip | TheDSAGame.py:149-150 | `idx(r, c, cols)` of a grid cell is a node in range, and `divmod` by `cols` gives the cell back |
| Grid.DivModRoundTrip | TheDSAGame.py:253-254 | `divmod(node, cols)` of a node in range is a grid cell whose `idx` is the node |
| Grid.NeighborsCorrect | TheDSAGame.py:152-156 | `neighbors` yields exactly the orthogonal neighbours inside the grid, at most four |
| Grid.AdjacentNodes | TheDSAGame.py:253-256 | `adjacent_nodes(node)` yields at most four nodes, exactly the nodes adjacent to `node` |
| Grid.LinkIsAdjacentPair | TheDSAGame.py:162-164 | the links of the grid are exactly the pairs of adjacent cells, with the smaller node first |
| Grid.GridLinksProperties | TheDSAGame.py:158-167 | the reference key list has one key per adjacent pair, in ascending order, so no key twice |
| Grid.GridLinksCount | TheDSAGame.py:158-167 | the grid has `rows*(cols-1) + (rows-1)*cols` links |
| Grid.ForwardOfNeighbors | TheDSAGame.py:162-163 | of the neighbours `neighbors` yields, the `(r, c) < (nr, nc)` test keeps the one to the right and the one below |
| Grid.AddCellEdges | TheDSAGame.py:161-166 | one pass of the inner loop adds the edges of one cell, with the next weights and both flags false |
| Grid.AddForward | TheDSAGame.py:162-166 | the loop over the neighbours of a cell adds, in their order, one edge for each neighbour that comes after the cell, with the next weight |
| Grid.BuildGrid | TheDSAGame.py:158-167 | `build_grid` makes one edge per adjacent pair, keyed smaller node first, no self-loops and no edge between non-adjacent cells; each edge takes the next weight and starts inactive and not critical |
| Grid.GridConnected | TheDSAGame.py:158-167 | over all its edges the full grid is connected |
| Connectivity.UnionDescribes | TheDSAGame.py:181-183 | a union over a new link keeps the representatives describing exactly who is connected |
| Connectivity.NoLinksDescribed | TheDSAGame.py:180 | the fresh DSU describes connection with no links |
| Connectivity.ActiveStep | TheDSAGame.py:181-183 | one round of the loop unions an active edge and skips an inactive one, keeping the description |
| Connectivity.ActiveConnectivity | TheDSAGame.py:179-184 | the DSU returned gives two nodes one representative exactly when a walk over active edges joins them |
| Connectivity.Connected | TheDSAGame.py:299-300 | `find(player) == find(exit_pos)` exactly when the two are joined over active edges |
| Kruskal.SortByWeightCorrect | TheDSAGame.py:170-171 | the stable sort by weight lists every edge once, lighter first and ties in insertion order |
| Kruskal.SortedKeysAreAllLinks | TheDSAGame.py:170-171 | the scan order lists exactly the keys of the edges |
| Kruskal.SortedKeysSame | TheDSAGame.py:170-171 | the scan order depends only on the keys and the weights, never on the `active` or `critical` flags |
| Kruskal.ScanStep | TheDSAGame.py:174-176 | `union` of the next edge's ends succeeds exactly when the greedy selection keeps the edge |
| Kruskal.GreedyScan | TheDSAGame.py:172-176 | the scan keeps exactly the greedy selection, with the DSU describing its connection |
| Kruskal.Kruskal | TheDSAGame.py:169-177 | `kruskal` returns the greedy selection over the edges sorted by weight; it is a subset of the links that connects exactly what all the links connect, with `n - 1` links when the grid is connected |
| Kruskal.KruskalSpans | TheDSAGame.py:169-177 | at the end of the scan the kept links span every class of the full graph, and form a tree when the graph is connected |
| Kruskal.GreedySubset | TheDSAGame.py:174-176 | only scanned edges are kept |
| Kruskal.DistinctCard | TheDSAGame.py:177 | the kept keys are distinct, so the set has as many elements as the list |
| Pursuit.WithinCostStep | TheDSAGame.py:198-201 | extending a walk by one edge adds that edge's cost |
| Pursuit.BuildAdj | TheDSAGame.py:191-194 | the adjacency lists hold one arc per direction of every edge: cost 1 if active, 5 otherwise |
| Pursuit.AdjInRange | TheDSAGame.py:191-194 | every arc leads to a node on the board and costs at least 1 |
| Pursuit.PopMin | TheDSAGame.py:196 | `heappop` takes a least `(distance, node)` pair and leaves the rest of the frontier |
| Pursuit.Relax | TheDSAGame.py:198-202 | relaxing the arcs of `u` keeps every distance the cost of some walk, keeps each node pending or relaxed, and lowers the distances |
| Pursuit.PopSettled | TheDSAGame.py:196-197 | a stale pair is skipped, and a current one leaves its node to be relaxed |
| Pursuit.AllRelaxed | TheDSAGame.py:195-202 | with the frontier empty, every edge is relaxed in both directions |
| Pursuit.Optimal | TheDSAGame.py:186-203 | with every edge relaxed and the source at 0, no walk is cheaper than the distance where it ends |
| Pursuit.Dijkstra | TheDSAGame.py:186-203 | `dist[source] == 0`; every edge is relaxed (`dist[v] <= dist[u] + w`); every finite distance is the cost of a walk, and no walk is cheaper, so it is the least cost |
| Pursuit.BestNeighbour | TheDSAGame.py:270-278 | the neighbour loop picks the first neighbour of least distance among those strictly closer than the guard, or none when no neighbour is closer |
| Pursuit.GuardsMove | TheDSAGame.py:265-280 | every guard stays where it is, because its own distance is 0 and every arc costs at least 1 |
| Game.ToggleDir | TheDSAGame.py:319-333 | the toggle answer `r`/`e` means right, `d`/`s` means down (the down branch catches `d`), and any other answer is no direction |
| Game.MoveDir | TheDSAGame.py:342-353 | exactly the eight move words are moves, and `d`/`right` means right |
| Game.ToggleEdge | TheDSAGame.py:258-263 | `toggle_edge` answers True exactly when the key exists, and flips only that edge's `active` flag |
| Game.ToggleTwice | TheDSAGame.py:258-263 | toggling the same key twice restores every edge and gives the same answer |
| Game.CanCross | TheDSAGame.py:358-359 | with a dictionary's unique keys, the player may cross exactly when some edge joins the two cells and is active; on any edge list, exactly when the first edge joining them is active |
| Game.AimHasEdge | TheDSAGame.py:322-337 | a direction aimed at a cell on the board always hits an edge of the grid |
| Game.CommandEnergy | TheDSAGame.py:317-341 | a command costs 2 energy exactly when it toggles an edge |
| Game.CommandEffects | TheDSAGame.py:312-364 | a command keeps the board valid and the guards; it changes only `active` flags, and only for `t`; the player moves only along an active edge to an adjacent node |
| Game.NextAccounting | TheDSAGame.py:312-366 | a turn adds 1 to the turn counter; `q` changes nothing else; otherwise it costs 1 energy plus 2 for a toggle, and never adds energy |
| Game.NextMove | TheDSAGame.py:342-366 | a move across an active edge to a cell on the board moves the player there at the cost of one unit |
| Game.Act | TheDSAGame.py:312-366 | one command step quits exactly on `q` and otherwise performs the turn |
| Game.CheckEnd | TheDSAGame.py:299-311 | the end checks in order: won exactly when the player is on the exit (the connectivity conjunct always holds there); else captured on a guard; else out of energy at 0; else running |
| Game.GridUniqueKeys | TheDSAGame.py:166 | the grid's edges have pairwise different keys, as a dictionary does |
| Game.FindOwnKey | TheDSAGame.py:287-288 | looking up an edge's own key finds that edge |
| Game.MarkCritical | TheDSAGame.py:287-288 | exactly the edges whose keys are in the tree become critical, and nothing else changes |
| Game.Activate | TheDSAGame.py:289-290 | each edge becomes active when the first draw succeeds, or it is critical and the second draw succeeds |
| Game.SpanningTree | TheDSAGame.py:169-177 | on the full grid, the tree is the greedy selection in stable weight order, a subset of the links with `rows*cols - 1` links that joins every pair of nodes |
| Game.Board | TheDSAGame.py:283-290 | the board set up is the full grid with the drawn weights (each 1 to 9) and flags; its critical edges are exactly the greedy tree in the weight order of the board, a spanning tree |
| Game.Setup | TheDSAGame.py:283-295 | the game starts valid, with the player on node 0, the guards drawn, 40 energy and turn 0, on the drawn board whose critical edges are the greedy tree in weight order |
| Game.LoopStep | TheDSAGame.py:296-316 | from a state that has not ended, with a command left, the loop reads that command, advances the turn and applies it with `Next`; it stops with `Quit` on `q` and otherwise goes on from the new state |
| Game.LoopOutcome | TheDSAGame.py:296-366 | wherever the loop stops: won exactly when it stops, without a quit, with the player on the exit; otherwise captured on a guard; otherwise out of energy at 0; quit only right after a `q`; still running only off the guards with energy left, once the commands run out. Only `active` flags change and the guards stay put. Energy falls by 1 to 3 a command, so the game ends once the commands read reach the starting energy |
| Game.Run | TheDSAGame.py:296-366 | the loop ends in exactly the state and status of `Loop`: the commands are applied in order with `Next`, stopping at the first end state in the source's order of tests, right after a `q`, or when the commands run out; that end meets `Outcome` |
| Game.TwoByTwoLoop | TheDSAGame.py:296-366 | fed `d` then `s` on a 2 x 2 grid of active edges, the loop takes two turns and stops won on the exit with 3 energy left |
| Game.Play | TheDSAGame.py:282-366 | `main` starts from the set-up state (the drawn board with the greedy tree marked critical, the player on node 0, the drawn guards, 40 energy, turn 0) and ends in the state and status `Loop` gives from it, which meet `Outcome`; the board keeps the drawn weights and its critical edges stay the greedy tree in weight order |
| Game.CriticalKept | TheDSAGame.py:287-288 | toggles change only `active` flags, so the weights stay and the critical edges remain the greedy tree of the board |
| Game.TwoByTwoWin | TheDSAGame.py:342-366 | on a 2 x 2 grid of active edges, `d` then `s` reaches the exit in two turns with 3 energy left |
| NQueens.PeacefulSnoc | backtracking.py:6-17 | adding a queen keeps the placement peaceful exactly when the new queen is safe |
| NQueens.IsSafe | backtracking.py:6-17 | `is_safe(r, c)` holds exactly when no queen above shares the column or a diagonal |
| NQueens.PlaceQueen | backtracking.py:25-27 | writing the queen gives the board of the longer placement, and erasing it gives the board back |
| NQueens.Backtrack | backtracking.py:19-27 | `backtrack(r)` restores the board and appends the boards the search records |
| NQueens.BoardsSound | backtracking.py:19-27 | every board recorded is the board of a peaceful placement of n queens |
| NQueens.BoardsComplete | backtracking.py:19-27 | the board of every peaceful placement of n queens is recorded |
| NQueens.RenderedPeaceful | backtracking.py:21 | the board of a peaceful placement has one queen per row and no two attacking |
| NQueens.SolveNQueens | backtracking.py:2-30 | every board returned has one queen per row and no two attacking, and every such placement is returned |
| RatMaze.CloseShrinks | backtracking.py:44 | closing an open cell leaves fewer open cells |
| RatMaze.CloseReopen | backtracking.py:44-49 | closing a cell of a 0/1 maze and writing 1 back restores the maze |
| RatMaze.MoveSteps | backtracking.py:45 | the four moves are `D`, `L`, `R`, `U`, with their row and column steps |
| RatMaze.Solve | backtracking.py:38-49 | `solve(x, y)` restores the maze and the path, and appends the paths the search records |
| RatMaze.RoutesSound | backtracking.py:38-49 | every path recorded is the path so far followed by a way out from (x, y) |
| RatMaze.TriesContain | backtracking.py:45-48 | the paths of a later move are among those of the loop from an earlier move |
| RatMaze.RoutesComplete | backtracking.py:38-49 | every way out from (x, y) is recorded |
| RatMaze.RouteCells | backtracking.py:38-49 | a way out ends at (n-1, n-1); every cell it leaves is open and in the maze; and it visits no cell twice |
| RatMaze.RatInMaze | backtracking.py:35-52 | the maze is restored, and the paths returned are exactly the ways out from (0, 0) |
| Subsets.Backtrack | backtracking.py:61-68 | `backtrack(i)` restores `subset` and appends the lists the search records |
| Subsets.RecordedCount | backtracking.py:61-68 | `2^(len(nums) - i)` lists are recorded |
| Subsets.RecordedSound | backtracking.py:61-68 | every list recorded is the prefix followed by an order-preserving sub-list of `nums[i:]` |
| Subsets.RecordedComplete | backtracking.py:61-68 | every order-preserving sub-list is recorded |
| Subsets.Subsets | backtracking.py:58-71 | `2^len(nums)` lists are returned, and they are exactly the order-preserving sub-lists of `nums` |
| Permutations.SwapRearranges | backtracking.py:84-86 | a swap rearranges the list, and swapping back restores it |
| Permutations.Backtrack | backtracking.py:79-86 | `backtrack(start)` restores `nums` and appends the lists the search records |
| Permutations.PermsCount | backtracking.py:79-86 | `(len(nums) - start)!` lists are recorded |
| Permutations.PermsSound | backtracking.py:79-86 | every list recorded rearranges `nums` and keeps `nums[:start]` |
| Permutations.PermsComplete | backtracking.py:79-86 | every rearrangement of `nums[start:]` behind `nums[:start]` is recorded |
| Permutations.Permute | backtracking.py:76-89 | `len(nums)!` lists are returned, and they are exactly the rearrangements of `nums` |
| CombinationSum.SumAppend | backtracking.py:105 | the total of two lists together is the sum of their totals |
| CombinationSum.CombosTotal | backtracking.py:97-105 | `total` is the sum of `comb`, so every list recorded adds up to the target |
| CombinationSum.Backtrack | backtracking.py:97-106 | `backtrack(start, total)` restores `comb` and appends the lists the search records |
| CombinationSum.CombosSound | backtracking.py:97-106 | every list recorded is `comb` followed by candidates at non-decreasing positions from `start` that make up the target |
| CombinationSum.BranchesContain | backtracking.py:103-106 | the lists of a later position are among those of the loop from an earlier one |
| CombinationSum.CombosComplete | backtracking.py:97-106 | every choice of non-decreasing positions from `start` that makes up the target is recorded |
| CombinationSum.CombinationSum | backtracking.py:94-109 | the lists returned sum to the target and use non-decreasing positions, and every such list is returned |
| WordSearch.Dfs | backtracking.py:118-127 | `dfs(r, c, i)` restores `path` and answers as the search down, up, right, left |
| WordSearch.SearchSound | backtracking.py:118-127 | a successful search yields a trail of distinct neighbouring cells, avoiding `path`, that spells the rest of the word from (r, c) |
| WordSearch.SearchComplete | backtracking.py:118-127 | such a trail from (r, c) makes the search succeed |
| WordSearch.Exist | backtracking.py:114-132 | `exist` answers True exactly when the search succeeds from some cell, and exactly when some trail spells the word |
| PalindromePartition.PalindromeMirror | backtracking.py:141-142 | `sub == sub[::-1]` exactly when each letter equals its mirror letter |
| PalindromePartition.Backtrack | backtracking.py:144-152 | `backtrack(start)` restores `part` and appends the lists the search records |
| PalindromePartition.PartsSound | backtracking.py:144-152 | every list recorded is `part` followed by non-empty palindromes that spell `s[start:]` |
| PalindromePartition.EndsContain | backtracking.py:148-152 | the lists of a later cut are among those of the loop from an earlier cut |
| PalindromePartition.PartsComplete | backtracking.py:144-152 | every cut of `s[start:]` into non-empty palindromes is recorded |
| PalindromePartition.Partition | backtracking.py:138-155 | the lists returned are exactly the cuts of `s` into non-empty palindromes |
| Sudoku.Place | backtracking.py:178 | writing a cell keeps a 9 x 9 board |
| Sudoku.Unplace | backtracking.py:178-181 | writing a digit and then `.` into a blank gives the board back |
| Sudoku.FillShrinks | backtracking.py:178 | filling a blank leaves one blank fewer |
| Sudoku.FirstBlank | backtracking.py:173-175 | the scan row by row finds a blank cell from the given position on |
| Sudoku.NoBlankFrom | backtracking.py:173-183 | the scan finds nothing exactly when no cell from there on is blank |
| Sudoku.IsValid | backtracking.py:161-170 | `is_valid(r, c, ch)` holds exactly when `ch` is in neither row r, column c nor the box of (r, c) |
| Sudoku.Backtrack | backtracking.py:172-183 | `backtrack()` succeeds exactly when the search finds a filling, leaves that filling on the board, and restores the board on failure |
| Sudoku.PlaceConsistent | backtracking.py:177-178 | writing a digit that `is_valid` allows keeps a consistent board consistent |
| Sudoku.PlaceFits | backtracking.py:177-181 | a digit `is_valid` allows, followed by later writes each checked against the board holding it, differs from all its peers in the board found |
| Sudoku.SolveSound | backtracking.py:172-183 | the board the search finds fills every blank with a digit, keeps the given cells, writes only digits that differ from every peer (whatever the start), and is consistent when the start was |
| Sudoku.SolutionValid | backtracking.py:176-177 | the digit a solution puts in a blank cell is one that `is_valid` allows |
| Sudoku.SolveComplete | backtracking.py:172-183 | a board with any solution makes the search succeed |
| Sudoku.SolvableConsistent | backtracking.py:161-170 | a board with a solution is consistent |
| Sudoku.SolveSudoku | backtracking.py:160-186 | the board returned is 9 x 9 and is either the input or a filling of it; on any input, every digit it writes into a blank differs from each of its row, column and box peers; a consistent input stays consistent; and it is a solution whenever one exists |
| PhoneLetters.Backtrack | backtracking.py:194-200 | `backtrack(i, cur)` fails exactly when a remaining digit has no key, and otherwise appends the words the search records |
| PhoneLetters.WordsCount | backtracking.py:194-200 | the product of the key sizes of the remaining digits is the number of words recorded |
| PhoneLetters.WordsSound | backtracking.py:194-200 | every word recorded is `cur` followed by a spelling of the remaining digits |
| PhoneLetters.LettersContain | backtracking.py:198-199 | the words of a later letter are among those of the loop from an earlier letter |
| PhoneLetters.WordsComplete | backtracking.py:194-200 | every spelling of the remaining digits is recorded after `cur` |
| PhoneLetters.LetterCombinations | backtracking.py:189-202 | no digits give no words; a digit without a key fails; otherwise the words returned, as many as the product of the key sizes, are exactly the spellings of the digits |
| Parentheses.Backtrack | backtracking.py:210-217 | `backtrack(openN, closeN, cur)` appends the strings the search records |
| Parentheses.OpenCompletes | backtracking.py:214-215 | an opening parenthesis completes a string when the rest completes it with one more open |
| Parentheses.CloseCompletes | backtracking.py:216-217 | a closing parenthesis completes a string when fewer are closed than opened and the rest completes it with one more closed |
| Parentheses.GenSound | backtracking.py:210-217 | every string recorded is `cur` followed by a completion into a balanced string of n pairs |
| Parentheses.TailCompletes | backtracking.py:214-217 | a completion starts with `(` only while fewer than n are open, and with `)` only while fewer are closed than opened |
| Parentheses.GenComplete | backtracking.py:210-217 | every completion of `cur` is recorded |
| Parentheses.ParensLength | backtracking.py:211 | a string of parentheses is as long as its opening and closing ones together |
| Parentheses.GenerateParenthesis | backtracking.py:207-220 | the strings returned are exactly the balanced strings of length 2n, and there are none for a negative n |
| PixelBattle.SpeedTermCases | Pixel_Battle_Arena.py:2-9 | a positive even speed counts 3 times, a positive odd one twice, a negative one twice its magnitude, zero nothing; so the term is never negative, is 0 only for speed 0, and lies between 2 and 3 times the magnitude |
| PixelBattle.SpeedTermOddSign | Pixel_Battle_Arena.py:4-7 | an odd speed counts the same whatever its sign |
| PixelBattle.StrengthTermCases | Pixel_Battle_Arena.py:10-13 | an even strength counts 4 times and an odd one 3 times, negatives included; the term keeps the strength's sign and parity |
| PixelBattle.ScoreBounds | Pixel_Battle_Arena.py:15 | the score is the strength term plus a speed term between 0 and 3 times the speed's magnitude |
| PixelBattle.Winner | Pixel_Battle_Arena.py:22-27 | "GAMER 1 WINS" exactly when the first score is greater, "GAMER 2 WINS" exactly when the second is, "DRAW" exactly when they are equal |
| PixelBattle.WinnerSwap | Pixel_Battle_Arena.py:22-27 | swapping the gamers swaps the winner and keeps a draw |
| PixelBattle.WinnerSelf | Pixel_Battle_Arena.py:22-27 | a gamer against an identical gamer draws |
| Cookie.SkipSpace | Cookie_num.py:2 | the scan over leading whitespace passes only whitespace and stops at the first other character or at the end |
| Cookie.SkipSpaceBack | Cookie_num.py:2 | the scan back over trailing whitespace passes only whitespace and stops just after the last other character, or at the front |
| Cookie.StripTrims | Cookie_num.py:2 | `strip()` gives the middle of the line, with only whitespace cut off on either side and no whitespace at either end |
| Cookie.StripIdempotent | Cookie_num.py:2 | stripping a stripped line changes nothing |
| Cookie.IsCookie | Cookie_num.py:5-9 | the answer is yes exactly when no character equals the next; length 0 or 1 gives yes; on a no, the scan stops at the first equal pair |
| Cookie.Answer | Cookie_num.py:2-11 | the program prints "Yes" exactly when the stripped line has no two equal neighbouring characters, and "No" otherwise |

## Left out

- **Terminal output.** Screen clearing, `render`, the legend and every message printed in `TheDSAGame.py` are output only, so they are not part of this model. The same goes for the `print` calls of the other programs; a printed answer is modelled as the value returned.
- **Console input.** `input()` calls, with their `strip().lower()` and the bare `try`/`except` around the toggle prompt, are not modelled; a command and a toggle answer are string parameters. The `map(int, input().split())` of Pixel Battle is not modelled; the two gamers are parameters. In Cookie numbers the raw line is a parameter, and the model applies `strip()` to it.
- **Randomness.** `random.seed`, `random.randint` and `random.random` are replaced by given weights, activation outcomes and guard positions.
- **The heap layout.** `heapq` is modelled as a frontier sequence from which a least `(distance, node)` pair is taken; Python's heap order among equal pairs is not modelled.
- **Python's sort algorithm.** It is modelled by a stable insertion sort, which lists the edges in the same order.
- Kruskal.Kruskal: does not state that the tree has least total weight. The model proves the greedy selection, spanning and the `n - 1` size, but not minimality.
- **Mutation in place.** The dictionary of `Edge` objects, the shared lists of the backtracking searches, the maze and the Sudoku board are modelled as values: sequences and maps passed in and returned. Aliasing between them does not arise in the source, and it is not modelled.
- **The endless loop of `main`.** The `while True` loop is modelled as a run over a finite list of commands; a game that is still running when the list ends has status `Running`.
- RatMaze.RatInMaze: requires a maze of 0s and 1s. The source restores a visited cell by writing 1, so for another nonzero value it would not give back the maze it was given.
- PhoneLetters.LetterCombinations: a digit outside 2-9 makes the source raise `KeyError`; the model returns `None` instead of an exception.
- CombinationSum.CombinationSum: requires positive candidates. With a zero or negative candidate the source can recurse forever, which the model does not capture.
- WordSearch.Exist: requires at least one row, all as long as the first. The source reads `board[0]` and fails on an empty board.
- Sudoku.SolveSudoku: requires a 9 x 9 board of single characters.
- **The other files** of the repository are not part of this model: the chatbot script, the dice roller, the digital clock and the Q-learning example.
