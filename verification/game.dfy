/**
 * The turn loop of the game (`main`): the board is set up from the random
 * draws, then every turn tests for the end of the game (won, captured, out of
 * energy, in that order), reads one command (quit, toggle, move or unknown),
 * lets the guards move and charges one unit of energy.
 *
 * The draws of the source's random generator (edge weights, activation coin
 * flips, guard positions) and the command lines read from the console are
 * parameters.
 */
module Game {
  import opened Wrappers
  import opened Walks
  import opened Grid
  import opened Connectivity
  import opened Kruskal
  import opened Pursuit

  const Rows := 6
  const Cols := 6
  const Nodes := 36
  /** The exit is the last node, `n - 1`. */
  const Exit := 35
  const StartEnergy := 40
  const GuardCount := 3

  datatype Status = Running | Won | Captured | OutOfEnergy | Quit

  /** The loop variables of `main`: the edge dictionary, the player, the guards, the energy and the turn counter. */
  datatype State = State(edges: seq<Edge>, player: int, guards: seq<int>, energy: int, turn: int)

  datatype Dir = Up | Down | Left | Right

  // ---------------------------------------------------------------- commands

  /**
   * The answer to the toggle prompt: `u`/`w` up, `d`/`s` down, `l`/`a` left,
   * `r`/`e` right. The right-hand branch also lists `d`, but the down branch
   * catches it first.
   */
  function ToggleDir(rc: string): (d: Option<Dir>)
    ensures d == Some(Right) <==> rc == "r" || rc == "e"
    ensures d == Some(Down) <==> rc == "d" || rc == "s"
    ensures d.None? <==> rc !in {"u", "w", "d", "s", "l", "a", "r", "e"}
  {
    if rc == "u" || rc == "w" then Some(Up)
    else if rc == "d" || rc == "s" then Some(Down)
    else if rc == "l" || rc == "a" then Some(Left)
    else if rc == "r" || rc == "d" || rc == "e" then Some(Right)
    else None
  }

  /** A move command: `w`/`up`, `s`/`down`, `a`/`left`, `d`/`right`; anything else is not a move. */
  function MoveDir(cmd: string): (d: Option<Dir>)
    ensures d.Some? <==> cmd in {"w", "a", "s", "d", "up", "left", "down", "right"}
    ensures d == Some(Right) <==> cmd == "d" || cmd == "right"
  {
    if cmd == "w" || cmd == "up" then Some(Up)
    else if cmd == "s" || cmd == "down" then Some(Down)
    else if cmd == "a" || cmd == "left" then Some(Left)
    else if cmd == "d" || cmd == "right" then Some(Right)
    else None
  }

  /** The cell next to (r, c) in direction d. */
  function Target(r: int, c: int, d: Dir): (int, int)
  {
    match d
    case Up => (r - 1, c)
    case Down => (r + 1, c)
    case Left => (r, c - 1)
    case Right => (r, c + 1)
  }

  // ---------------------------------------------------------------- toggle_edge

  /**
   * `toggle_edge(edges, a, b)`: flips the `active` flag of the edge keyed by
   * the unordered pair {a, b} and answers True, or answers False when there is
   * no such edge. Nothing else changes.
   */
  function ToggleEdge(edges: seq<Edge>, a: int, b: int): (r: (seq<Edge>, bool))
    ensures r.1 <==> exists i :: 0 <= i < |edges| && Joins(edges[i], a, b)
    ensures |r.0| == |edges|
    ensures forall j :: 0 <= j < |edges| ==> r.0[j].(active := edges[j].active) == edges[j]
    ensures forall j :: 0 <= j < |edges| ==> (r.0[j].active != edges[j].active <==> FindEdge(edges, a, b) == Some(j))
  {
    match FindEdge(edges, a, b)
    case None => (edges, false)
    case Some(i) => (edges[i := edges[i].(active := !edges[i].active)], true)
  }

  /** The key lookup only looks at the keys. */
  lemma {:induction false} FindEdgeOfKeys(xs: seq<Edge>, ys: seq<Edge>, a: int, b: int)
    requires Keys(xs) == Keys(ys)
    ensures FindEdge(xs, a, b) == FindEdge(ys, a, b)
  {
    if xs != [] {
      assert Key(xs[0]) == Keys(xs)[0] == Keys(ys)[0] == Key(ys[0]);
      assert Keys(xs[1..]) == Keys(xs)[1..];
      assert Keys(ys[1..]) == Keys(ys)[1..];
      FindEdgeOfKeys(xs[1..], ys[1..], a, b);
    }
  }

  /** Toggling the same key twice restores every edge. */
  lemma ToggleTwice(edges: seq<Edge>, a: int, b: int)
    ensures ToggleEdge(ToggleEdge(edges, a, b).0, a, b).0 == edges
    ensures ToggleEdge(ToggleEdge(edges, a, b).0, a, b).1 == ToggleEdge(edges, a, b).1
  {
    var once := ToggleEdge(edges, a, b).0;
    assert Keys(once) == Keys(edges);
    FindEdgeOfKeys(once, edges, a, b);
  }

  /** Some edge joining `a` and `b` is active. */
  ghost predicate ActiveJoin(edges: seq<Edge>, a: int, b: int)
  {
    exists i :: 0 <= i < |edges| && Joins(edges[i], a, b) && edges[i].active
  }

  /** The first edge of the list that joins `a` and `b` is active. */
  ghost predicate FirstJoinActive(edges: seq<Edge>, a: int, b: int)
  {
    exists i :: 0 <= i < |edges| && Joins(edges[i], a, b) && edges[i].active && forall j :: 0 <= j < i ==> !Joins(edges[j], a, b)
  }

  /**
   * `key in edges and edges[key].active`: the player may cross from `a` to `b`
   * when the edge between them is active. With a dictionary's unique keys
   * there is at most one such edge; on any list the first one decides.
   */
  function CanCross(edges: seq<Edge>, a: int, b: int): (r: bool)
    ensures r <==> FirstJoinActive(edges, a, b)
    ensures UniqueKeys(edges) ==> (r <==> ActiveJoin(edges, a, b))
  {
    match FindEdge(edges, a, b)
    case None => false
    case Some(i) => edges[i].active
  }

  // ---------------------------------------------------------------- one turn

  /** The two boards differ at most in their `active` flags. */
  ghost predicate SameButActive(xs: seq<Edge>, ys: seq<Edge>)
  {
    |xs| == |ys| && forall i :: 0 <= i < |xs| ==> xs[i].(active := ys[i].active) == ys[i]
  }

  lemma SameButActiveTrans(xs: seq<Edge>, ys: seq<Edge>, zs: seq<Edge>)
    requires SameButActive(xs, ys) && SameButActive(ys, zs)
    ensures SameButActive(xs, zs)
  {
    forall i | 0 <= i < |xs| ensures xs[i].(active := zs[i].active) == zs[i] {
      assert xs[i].(active := ys[i].active) == ys[i];
    }
  }

  /** Boards that differ only in `active` flags keep keys, weights and `critical` flags. */
  lemma SameButActiveKeysAndWeights(xs: seq<Edge>, ys: seq<Edge>)
    requires SameButActive(xs, ys)
    ensures SameKeysAndWeights(xs, ys)
    ensures forall i :: 0 <= i < |xs| ==> xs[i].critical == ys[i].critical
  {
    forall i | 0 <= i < |xs| ensures Key(xs[i]) == Key(ys[i]) && xs[i].w == ys[i].w && xs[i].critical == ys[i].critical {
      assert xs[i].(active := ys[i].active) == ys[i];
    }
  }

  /** The board is a full rows x cols grid, and the player, the exit and the guards are on it. */
  ghost predicate Valid(s: State, rows: nat, cols: nat, exit: int)
  {
    && rows > 0 && cols > 0
    && IsGrid(s.edges, rows, cols)
    && 0 <= s.player < rows * cols
    && 0 <= exit < rows * cols
    && forall i :: 0 <= i < |s.guards| ==> 0 <= s.guards[i] < rows * cols
  }

  /** The cell in direction `d` from the player's cell, if there is one and it is on the board. */
  function Aim(s: State, rows: int, cols: int, d: Option<Dir>): Option<int>
    requires cols > 0
  {
    match d
    case None => None
    case Some(dir) =>
      var t := Target(s.player / cols, s.player % cols, dir);
      if InGrid(t.0, t.1, rows, cols) then Some(Idx(t.0, t.1, cols)) else None
  }

  /**
   * The command branches of the loop body: `t` toggles the edge between the
   * player and the cell in the direction read, charging 2 when there is such
   * an edge; a move command moves the player across an active edge; anything
   * else, and a direction off the board, changes nothing.
   */
  function Command(s: State, rows: int, cols: int, cmd: string, rc: string): State
    requires cols > 0
  {
    if cmd == "t" then
      match Aim(s, rows, cols, ToggleDir(rc))
      case None => s
      case Some(b) =>
        var (edges', found) := ToggleEdge(s.edges, s.player, b);
        if found then s.(edges := edges', energy := s.energy - 2) else s
    else
      match Aim(s, rows, cols, MoveDir(cmd))
      case None => s
      case Some(b) => if CanCross(s.edges, s.player, b) then s.(player := b) else s
  }

  /**
   * The state after one command has been read: `turn` counts it; unless it is
   * `q`, the command acts, the guards stay where they are, and one unit of
   * energy is charged.
   */
  function Next(s: State, rows: int, cols: int, cmd: string, rc: string): State
    requires cols > 0
  {
    if cmd == "q" then s.(turn := s.turn + 1)
    else
      var s1 := Command(s, rows, cols, cmd, rc);
      s1.(turn := s.turn + 1, energy := s1.energy - 1)
  }

  /** A cell next to a node on the board is joined to it by an edge of the grid. */
  lemma AimHasEdge(s: State, rows: nat, cols: nat, exit: int, d: Option<Dir>)
    requires Valid(s, rows, cols, exit) && Aim(s, rows, cols, d).Some?
    ensures 0 <= Aim(s, rows, cols, d).value < rows * cols
    ensures Adjacent(rows, cols, s.player, Aim(s, rows, cols, d).value)
    ensures FindEdge(s.edges, s.player, Aim(s, rows, cols, d).value).Some?
  {
    var x := s.player;
    var t := Target(x / cols, x % cols, d.value);
    var y := Idx(t.0, t.1, cols);
    DivModRoundTrip(x, rows, cols);
    IdxRoundTrip(t.0, t.1, rows, cols);
    assert Adjacent(rows, cols, x, y) && Adjacent(rows, cols, y, x);
    var a, b := if x < y then x else y, if x < y then y else x;
    AdjacentIsLink(rows, cols, a, b);
    GridLinksProperties(rows, cols);
    assert (a, b) in Keys(s.edges);
    var i :| 0 <= i < |s.edges| && Keys(s.edges)[i] == (a, b);
    assert Joins(s.edges[i], x, y);
  }

  /** The toggle command hits an edge: it is `t` and the direction read points at a cell on the board. */
  predicate ToggleHits(s: State, rows: int, cols: int, cmd: string, rc: string)
    requires cols > 0
  {
    cmd == "t" && Aim(s, rows, cols, ToggleDir(rc)).Some?
  }

  /**
   * Energy bookkeeping of a command: on a full grid every direction that stays
   * on the board has an edge, so a toggle then costs 2; an unknown or
   * off-board direction, a move and an unknown command cost nothing.
   */
  lemma CommandEnergy(s: State, rows: nat, cols: nat, exit: int, cmd: string, rc: string)
    requires Valid(s, rows, cols, exit)
    ensures Command(s, rows, cols, cmd, rc).energy == s.energy - (if ToggleHits(s, rows, cols, cmd, rc) then 2 else 0)
  {
    if ToggleHits(s, rows, cols, cmd, rc) {
      AimHasEdge(s, rows, cols, exit, ToggleDir(rc));
    }
  }

  /**
   * A command keeps the board a full grid with the same keys, changes at most
   * the `active` flags, keeps the player on the board, and moves the player
   * only to an adjacent cell across an active edge.
   */
  lemma CommandEffects(s: State, rows: nat, cols: nat, exit: int, cmd: string, rc: string)
    requires Valid(s, rows, cols, exit)
    ensures var s' := Command(s, rows, cols, cmd, rc);
      && Valid(s', rows, cols, exit)
      && s'.guards == s.guards && s'.turn == s.turn
      && |s'.edges| == |s.edges|
      && (forall i :: 0 <= i < |s.edges| ==> s'.edges[i].(active := s.edges[i].active) == s.edges[i])
      && (s'.player != s.player ==>
            cmd != "t" && MoveDir(cmd).Some? && Adjacent(rows, cols, s.player, s'.player) &&
            exists i :: 0 <= i < |s.edges| && s.edges[i].active && Joins(s.edges[i], s.player, s'.player))
      && (s'.edges != s.edges ==> cmd == "t" && s'.player == s.player)
  {
    var s' := Command(s, rows, cols, cmd, rc);
    assert Keys(s'.edges) == Keys(s.edges);
    if s'.player != s.player {
      AimHasEdge(s, rows, cols, exit, MoveDir(cmd));
    }
  }

  /**
   * A turn that reads a command adds one to `turn`; `q` changes nothing else;
   * any other command is charged 1, plus 2 for a toggle that hits an edge.
   * Energy never goes up.
   */
  lemma NextAccounting(s: State, rows: nat, cols: nat, exit: int, cmd: string, rc: string)
    requires Valid(s, rows, cols, exit)
    ensures var s' := Next(s, rows, cols, cmd, rc);
      && Valid(s', rows, cols, exit)
      && s'.turn == s.turn + 1
      && s'.guards == s.guards
      && SameButActive(s'.edges, s.edges)
      && (cmd == "q" ==> s' == s.(turn := s.turn + 1))
      && (cmd != "q" ==> s'.energy == s.energy - 1 - (if ToggleHits(s, rows, cols, cmd, rc) then 2 else 0))
      && s'.energy <= s.energy
  {
    CommandEnergy(s, rows, cols, exit, cmd, rc);
    CommandEffects(s, rows, cols, exit, cmd, rc);
  }

  /**
   * The loop body after the end test: the command is read and counted; `q`
   * stops; otherwise the command acts, `guards_move` runs and one unit of
   * energy is charged.
   */
  method Act(s: State, rows: nat, cols: nat, exit: int, cmd: string, rc: string) returns (s': State, quit: bool)
    requires Valid(s, rows, cols, exit)
    ensures quit <==> cmd == "q"
    ensures s' == Next(s, rows, cols, cmd, rc)
  {
    s' := s.(turn := s.turn + 1);
    if cmd == "q" {
      return s', true;
    }
    quit := false;
    s' := Command(s', rows, cols, cmd, rc);
    CommandEffects(s.(turn := s.turn + 1), rows, cols, exit, cmd, rc);
    GridWithin(s'.edges, rows, cols);
    var guards := GuardsMove(s'.edges, rows, cols, s'.guards, s'.player);
    s' := s'.(guards := guards);
    s' := s'.(energy := s'.energy - 1);
  }

  /** The links of a full grid join nodes of the board. */
  lemma GridWithin(edges: seq<Edge>, rows: nat, cols: nat)
    requires IsGrid(edges, rows, cols)
    ensures LinksWithin(AllLinks(edges), rows * cols)
  {
    GridLinksProperties(rows, cols);
    forall l | l in AllLinks(edges) ensures 0 <= l.0 < rows * cols && 0 <= l.1 < rows * cols {
      var i :| 0 <= i < |edges| && Key(edges[i]) == l;
      assert Keys(edges)[i] == l;
    }
  }

  /**
   * The test at the top of the loop, in the source's order: won when the
   * player is on the exit and connected to it over active edges, then
   * captured when a guard is on the player's node, then out of energy. On the
   * exit the two finds of the connectivity test are the same call, so being
   * on the exit alone decides the win.
   */
  method CheckEnd(s: State, rows: nat, cols: nat, exit: int) returns (status: Status)
    requires Valid(s, rows, cols, exit)
    ensures status == EndStatus(s, exit)
    ensures status == Won <==> s.player == exit
    ensures status == Won <==> s.player == exit && Reachable(ActiveLinks(s.edges), s.player, exit)
    ensures status == Captured <==> !(s.player == exit && Reachable(ActiveLinks(s.edges), s.player, exit)) && s.player in s.guards
    ensures status == OutOfEnergy <==>
      !(s.player == exit && Reachable(ActiveLinks(s.edges), s.player, exit)) && s.player !in s.guards && s.energy <= 0
    ensures status == Running <==>
      !(s.player == exit && Reachable(ActiveLinks(s.edges), s.player, exit)) && s.player !in s.guards && s.energy > 0
  {
    GridWithin(s.edges, rows, cols);
    ReachableIsEquivalence(ActiveLinks(s.edges));
    var connected := Connected(s.edges, rows * cols, s.player, exit);
    if s.player == exit && connected {
      status := Won;
    } else if s.player in s.guards {
      status := Captured;
    } else if s.energy <= 0 {
      status := OutOfEnergy;
    } else {
      status := Running;
    }
  }

  // ---------------------------------------------------------------- set-up

  /** No two edges share an unordered key, as in a dictionary. */
  ghost predicate UniqueKeys(edges: seq<Edge>)
  {
    forall i, j :: 0 <= i < |edges| && 0 <= j < |edges| && Joins(edges[j], edges[i].a, edges[i].b) ==> i == j
  }

  lemma GridUniqueKeys(edges: seq<Edge>, rows: nat, cols: nat)
    requires forall i :: 0 <= i < |edges| ==> IsLink(rows, cols, edges[i].a, edges[i].b)
    requires forall i, j :: 0 <= i < j < |edges| ==> LexLess(Key(edges[i]), Key(edges[j]))
    ensures UniqueKeys(edges)
  {
    forall i, j | 0 <= i < |edges| && 0 <= j < |edges| && Joins(edges[j], edges[i].a, edges[i].b) ensures i == j {
      assert edges[i].a < edges[i].b && edges[j].a < edges[j].b;
    }
  }

  /** With unique keys, looking up the key of edge i finds edge i. */
  lemma FindOwnKey(edges: seq<Edge>, i: int)
    requires UniqueKeys(edges) && 0 <= i < |edges|
    ensures FindEdge(edges, edges[i].a, edges[i].b) == Some(i)
  {
    assert Joins(edges[i], edges[i].a, edges[i].b);
  }

  /** Every edge whose key is in `mst` but not in `todo` has been marked critical, and nothing else has changed. */
  ghost predicate MarkedBut(edges: seq<Edge>, cur: seq<Edge>, mst: set<Link>, todo: set<Link>)
  {
    && |cur| == |edges|
    && forall i :: 0 <= i < |edges| ==> cur[i] == edges[i].(critical := edges[i].critical || Key(edges[i]) in mst - todo)
  }

  /** Marking edges critical keeps their keys. */
  lemma MarkedKeys(edges: seq<Edge>, cur: seq<Edge>, mst: set<Link>, todo: set<Link>)
    requires MarkedBut(edges, cur, mst, todo)
    ensures Keys(cur) == Keys(edges)
  {
  }

  /** Marking the edge found under a key still to do finds that key's own edge and leaves one key fewer to do. */
  lemma MarkStep(edges: seq<Edge>, cur: seq<Edge>, mst: set<Link>, todo: set<Link>, k: Link, i: int)
    requires UniqueKeys(edges) && MarkedBut(edges, cur, mst, todo) && k in todo && todo <= mst
    requires 0 <= i < |edges| && Key(edges[i]) == k
    ensures FindEdge(cur, k.0, k.1) == Some(i)
    ensures MarkedBut(edges, cur[i := cur[i].(critical := true)], mst, todo - {k})
  {
    MarkedKeys(edges, cur, mst, todo);
    FindEdgeOfKeys(cur, edges, k.0, k.1);
    FindOwnKey(edges, i);
  }

  /** `for k in mst: edges[k].critical = True`, visiting the keys in any order. */
  method MarkCritical(edges: seq<Edge>, mst: set<Link>) returns (edges': seq<Edge>)
    requires UniqueKeys(edges) && mst <= AllLinks(edges)
    ensures |edges'| == |edges|
    ensures forall i :: 0 <= i < |edges| ==> edges'[i] == edges[i].(critical := edges[i].critical || Key(edges[i]) in mst)
  {
    edges' := edges;
    var todo := mst;
    while todo != {}
      invariant todo <= mst && MarkedBut(edges, edges', mst, todo)
      decreases |todo|
    {
      var k :| k in todo;
      ghost var i :| 0 <= i < |edges| && Key(edges[i]) == k;
      MarkStep(edges, edges', mst, todo, k, i);
      var found := FindEdge(edges', k.0, k.1);
      if found.Some? {
        edges' := edges'[found.value := edges'[found.value].(critical := true)];
      }
      todo := todo - {k};
    }
  }

  /** `e.active = random() < 0.25 or e.critical and random() < 0.5`, with the two draws' outcomes given. */
  method Activate(edges: seq<Edge>, base: seq<bool>, bonus: seq<bool>) returns (edges': seq<Edge>)
    requires |base| == |edges| && |bonus| == |edges|
    ensures |edges'| == |edges|
    ensures forall i :: 0 <= i < |edges| ==> edges'[i] == edges[i].(active := base[i] || (edges[i].critical && bonus[i]))
  {
    edges' := edges;
    var i := 0;
    while i < |edges'|
      invariant 0 <= i <= |edges| && |edges'| == |edges|
      invariant forall j :: 0 <= j < i ==> edges'[j] == edges[j].(active := base[j] || (edges[j].critical && bonus[j]))
      invariant forall j :: i <= j < |edges| ==> edges'[j] == edges[j]
    {
      var e := edges'[i];
      edges' := edges'[i := e.(active := base[i] || (e.critical && bonus[i]))];
      i := i + 1;
    }
  }

  lemma AllLinksOfKeys(xs: seq<Edge>, ys: seq<Edge>)
    requires Keys(xs) == Keys(ys)
    ensures AllLinks(xs) == AllLinks(ys)
  {
    forall l | l in AllLinks(xs) ensures l in AllLinks(ys) {
      var i :| 0 <= i < |xs| && Key(xs[i]) == l;
      assert Keys(ys)[i] == l;
    }
    forall l | l in AllLinks(ys) ensures l in AllLinks(xs) {
      var i :| 0 <= i < |ys| && Key(ys[i]) == l;
      assert Keys(xs)[i] == l;
    }
  }

  /** Every pair of the nodes 0..n-1 is joined by a walk over `links`. */
  ghost predicate Spans(links: set<Link>, n: int)
  {
    forall x, y :: 0 <= x < n && 0 <= y < n ==> Reachable(links, x, y)
  }

  /**
   * `kruskal(edges, n)` on a full grid: the greedy selection in weight order;
   * the grid is connected, so the links chosen are n - 1 links of the grid
   * that join every pair of nodes.
   */
  method SpanningTree(edges: seq<Edge>, rows: nat, cols: nat) returns (mst: set<Link>)
    requires IsGrid(edges, rows, cols) && rows * cols > 0
    ensures mst == Elems(Greedy(SortedKeys(edges)))
    ensures mst <= AllLinks(edges) && |mst| == rows * cols - 1 && Spans(mst, rows * cols)
  {
    var n := rows * cols;
    GridWithin(edges, rows, cols);
    forall x | 0 <= x < n ensures Reachable(AllLinks(edges), 0, x) {
      GridConnected(edges, rows, cols, x);
    }
    mst := Kruskal.Kruskal(edges, n);
    forall x, y | 0 <= x < n && 0 <= y < n ensures Reachable(mst, x, y) {
      var all := AllLinks(edges);
      ReachableSym(all, 0, x);
      ReachableTrans(all, x, 0, y);
    }
  }

  /**
   * The board drawn by the set-up: the grid's edges in order with the drawn
   * weights, the tree's links critical, and each edge active when its first
   * coin flip came up or, for a critical edge, its second one did.
   */
  ghost predicate Drawn(edges: seq<Edge>, weights: seq<int>, base: seq<bool>, bonus: seq<bool>, mst: set<Link>)
  {
    && |edges| == |weights| == |base| == |bonus|
    && forall i :: 0 <= i < |edges| ==>
         && edges[i].w == weights[i]
         && (edges[i].critical <==> Key(edges[i]) in mst)
         && (edges[i].active <==> base[i] || (edges[i].critical && bonus[i]))
  }

  /** Every weight is one `random.randint(1, 9)` can draw. */
  ghost predicate WeightsInDie(edges: seq<Edge>)
  {
    forall i :: 0 <= i < |edges| ==> 1 <= edges[i].w <= 9
  }

  /** Marking and activating change only flags: the board is still the same full grid. */
  lemma FlagsKeepGrid(edges: seq<Edge>, edges': seq<Edge>, rows: nat, cols: nat)
    requires IsGrid(edges, rows, cols) && |edges'| == |edges|
    requires forall i :: 0 <= i < |edges| ==> Key(edges'[i]) == Key(edges[i])
    ensures IsGrid(edges', rows, cols) && AllLinks(edges') == AllLinks(edges)
  {
    assert Keys(edges') == Keys(edges);
    AllLinksOfKeys(edges', edges);
  }

  /**
   * The board of the set-up on any grid: `build_grid` with the drawn weights,
   * `kruskal` on it, the tree's links marked critical and every edge activated
   * by its coin flips. The tree is the greedy selection in the weight order of
   * the board (the flags play no part in that order), and has n - 1 links of
   * the grid that join every pair of nodes.
   */
  method Board(rows: nat, cols: nat, weights: seq<int>, base: seq<bool>, bonus: seq<bool>) returns (edges: seq<Edge>, mst: set<Link>)
    requires rows * cols > 0
    requires |weights| == LinkCount(rows, cols) && |base| == |weights| && |bonus| == |weights|
    requires forall i :: 0 <= i < |weights| ==> 1 <= weights[i] <= 9
    ensures IsGrid(edges, rows, cols) && Drawn(edges, weights, base, bonus, mst)
    ensures WeightsInDie(edges)
    ensures mst == Elems(Greedy(SortedKeys(edges)))
    ensures mst <= AllLinks(edges) && |mst| == rows * cols - 1 && Spans(mst, rows * cols)
  {
    var grid := BuildGrid(rows, cols, weights);
    mst := SpanningTree(grid, rows, cols);
    GridUniqueKeys(grid, rows, cols);
    var marked := MarkCritical(grid, mst);
    edges := Activate(marked, base, bonus);
    FlagsKeepGrid(grid, edges, rows, cols);
    SortedKeysSame(edges, grid);
  }

  /**
   * The set-up of `main`: the 6 x 6 board with weights drawn from 1 to 9, the
   * player on node 0, the drawn guards, 40 units of energy, turn 0.
   */
  method Setup(weights: seq<int>, base: seq<bool>, bonus: seq<bool>, draws: seq<int>) returns (s: State, mst: set<Link>)
    requires |weights| == LinkCount(Rows, Cols) && |base| == |weights| && |bonus| == |weights|
    requires forall i :: 0 <= i < |weights| ==> 1 <= weights[i] <= 9
    requires |draws| == GuardCount && forall i :: 0 <= i < |draws| ==> 0 <= draws[i] < Nodes
    ensures Valid(s, Rows, Cols, Exit)
    ensures s.player == 0 && s.guards == draws && s.energy == StartEnergy && s.turn == 0
    ensures Drawn(s.edges, weights, base, bonus, mst)
    ensures WeightsInDie(s.edges)
    ensures mst == Elems(Greedy(SortedKeys(s.edges)))
    ensures mst <= AllLinks(s.edges) && |mst| == Nodes - 1 && Spans(mst, Nodes)
  {
    var edges;
    edges, mst := Board(Rows, Cols, weights, base, bonus);
    s := State(edges, 0, draws, StartEnergy, 0);
  }

  // ---------------------------------------------------------------- the loop

  /**
   * The end test at the top of the loop, in the source's order. The win test
   * also asks for the exit to be connected to the player, which always holds
   * on the exit; `CheckEnd`, which computes that connectivity, answers as
   * this function does.
   */
  ghost function EndStatus(s: State, exit: int): Status
  {
    if s.player == exit then Won
    else if s.player in s.guards then Captured
    else if s.energy <= 0 then OutOfEnergy
    else Running
  }

  /**
   * What the loop of `main` does from state `s`, reading `commands[s.turn]`
   * next: it stops at the first end state, or when no command is left;
   * otherwise it takes a turn.
   */
  ghost function Loop(s: State, rows: int, cols: int, exit: int, commands: seq<(string, string)>): (State, Status)
    requires cols > 0
    decreases |commands| - s.turn, 1
  {
    var status := EndStatus(s, exit);
    if status != Running || !(0 <= s.turn < |commands|) then (s, status)
    else Turn(s, rows, cols, exit, commands)
  }

  /**
   * One turn of the loop: the command `commands[s.turn]` is read and `Next`
   * takes it; the loop stops with `Quit` after a `q` and goes on otherwise.
   */
  ghost function Turn(s: State, rows: int, cols: int, exit: int, commands: seq<(string, string)>): (State, Status)
    requires cols > 0 && 0 <= s.turn < |commands|
    decreases |commands| - s.turn, 0
  {
    var (cmd, rc) := commands[s.turn];
    var s' := Next(s, rows, cols, cmd, rc);
    if cmd == "q" then (s', Quit) else Loop(s', rows, cols, exit, commands)
  }

  /**
   * From a state that has not ended, with a command left, the loop takes that
   * command with `Next` and either quits on `q` or goes on from the new state.
   */
  lemma LoopStep(s: State, rows: int, cols: int, exit: int, commands: seq<(string, string)>)
    requires cols > 0 && 0 <= s.turn < |commands| && EndStatus(s, exit) == Running
    ensures var s' := Next(s, rows, cols, commands[s.turn].0, commands[s.turn].1);
      && s'.turn == s.turn + 1
      && Loop(s, rows, cols, exit, commands) == if commands[s.turn].0 == "q" then (s', Quit) else Loop(s', rows, cols, exit, commands)
  {
    assert Loop(s, rows, cols, exit, commands) == Turn(s, rows, cols, exit, commands);
  }


  /**
   * What the loop guarantees about the state `s` and the status it stops
   * with, from `s0`: the board stays a full grid whose flags other than
   * `active` are kept, the guards never move, and every end is justified, in
   * the source's order. Each command read costs 1 to 3 units of energy (a
   * closing `q` costs nothing), so the game ends before more commands are
   * read than there was energy.
   */
  ghost predicate Outcome(s0: State, s: State, status: Status, rows: nat, cols: nat, exit: int, commands: seq<(string, string)>)
  {
    && Valid(s, rows, cols, exit) && s.guards == s0.guards
    && 0 <= s0.turn <= s.turn <= |commands| && (status == Running ==> s.turn == |commands|)
    && (status == Won <==> status != Quit && s.player == exit)
    && (status == Won <==> status != Quit && s.player == exit && Reachable(ActiveLinks(s.edges), s.player, exit))
    && (status == Captured ==> s.player in s.guards)
    && (status == OutOfEnergy ==> s.player !in s.guards && s.energy <= 0)
    && (status == Running ==> s.player !in s.guards && s.energy > 0)
    && (status == Quit ==> s.turn > s0.turn && commands[s.turn - 1].0 == "q")
    && SameButActive(s.edges, s0.edges)
    && s0.energy - 3 * (s.turn - s0.turn) <= s.energy
    && s.energy <= s0.energy - (s.turn - s0.turn) + (if status == Quit then 1 else 0)
    && (|commands| - s0.turn >= s0.energy ==> status != Running)
  }

  /**
   * Whatever state the loop reaches from `s0`, each later stop meets
   * `Outcome`: the turn and energy counts kept so far carry on through `Next`,
   * and each way out of `Loop` justifies its status.
   */
  lemma {:induction false} LoopOutcome(s0: State, s: State, rows: nat, cols: nat, exit: int, commands: seq<(string, string)>)
    requires Valid(s, rows, cols, exit) && s.guards == s0.guards
    requires 0 <= s0.turn <= s.turn <= |commands| && SameButActive(s.edges, s0.edges)
    requires s0.energy - 3 * (s.turn - s0.turn) <= s.energy <= s0.energy - (s.turn - s0.turn)
    ensures var r := Loop(s, rows, cols, exit, commands); Outcome(s0, r.0, r.1, rows, cols, exit, commands)
    decreases |commands| - s.turn
  {
    var status := EndStatus(s, exit);
    if status != Running || s.turn == |commands| {
      ReachableRefl(ActiveLinks(s.edges), exit);
    } else {
      var (cmd, rc) := commands[s.turn];
      NextAccounting(s, rows, cols, exit, cmd, rc);
      LoopStep(s, rows, cols, exit, commands);
      var s' := Next(s, rows, cols, cmd, rc);
      SameButActiveTrans(s'.edges, s.edges, s0.edges);
      if cmd != "q" {
        LoopOutcome(s0, s', rows, cols, exit, commands);
      }
    }
  }

  /**
   * The `while True` loop of `main`, fed the command lines in order (each
   * with the line read at the toggle prompt), `turn` indexing the next one:
   * the loop runs until the game ends or the commands run out, and ends in
   * the state and status `Loop` gives, which meet `Outcome`.
   */
  method Run(s0: State, rows: nat, cols: nat, exit: int, commands: seq<(string, string)>) returns (s: State, status: Status)
    requires Valid(s0, rows, cols, exit) && 0 <= s0.turn <= |commands|
    ensures (s, status) == Loop(s0, rows, cols, exit, commands)
    ensures Outcome(s0, s, status, rows, cols, exit, commands)
  {
    s := s0;
    status := CheckEnd(s, rows, cols, exit);
    while status == Running && s.turn < |commands|
      invariant Valid(s, rows, cols, exit) && s.guards == s0.guards
      invariant s0.turn <= s.turn <= |commands|
      invariant status != Quit ==> status == EndStatus(s, exit)
      invariant Loop(s0, rows, cols, exit, commands) == if status == Quit then (s, Quit) else Loop(s, rows, cols, exit, commands)
      decreases |commands| - s.turn
    {
      var (cmd, rc) := commands[s.turn];
      NextAccounting(s, rows, cols, exit, cmd, rc);
      LoopStep(s, rows, cols, exit, commands);
      var quit;
      s, quit := Act(s, rows, cols, exit, cmd, rc);
      if quit {
        status := Quit;
      } else {
        status := CheckEnd(s, rows, cols, exit);
      }
    }
    LoopOutcome(s0, s0, rows, cols, exit, commands);
  }

  /**
   * The state the loop of `main` starts from: the full grid with the drawn
   * weights and flags, its critical edges the greedy tree, the player on node
   * 0, the drawn guards, 40 units of energy and turn 0.
   */
  ghost predicate Initial(s: State, weights: seq<int>, base: seq<bool>, bonus: seq<bool>, draws: seq<int>)
  {
    && IsGrid(s.edges, Rows, Cols)
    && Drawn(s.edges, weights, base, bonus, Elems(Greedy(SortedKeys(s.edges))))
    && s.player == 0 && s.guards == draws && s.energy == StartEnergy && s.turn == 0
  }

  /**
   * `main`: the set-up, which gives the start state on the drawn board, then
   * the loop over the commands read from it. At most 40
   * commands are read before the game ends. The board keeps the drawn weights,
   * and its critical edges stay those of the greedy tree in weight order: the
   * toggles change only the `active` flags.
   */
  method Play(weights: seq<int>, base: seq<bool>, bonus: seq<bool>, draws: seq<int>, commands: seq<(string, string)>)
    returns (start: State, s: State, status: Status)
    requires |weights| == LinkCount(Rows, Cols) && |base| == |weights| && |bonus| == |weights|
    requires forall i :: 0 <= i < |weights| ==> 1 <= weights[i] <= 9
    requires |draws| == GuardCount && forall i :: 0 <= i < |draws| ==> 0 <= draws[i] < Nodes
    ensures (s, status) == Loop(start, Rows, Cols, Exit, commands)
    ensures Initial(start, weights, base, bonus, draws)
    ensures Outcome(start, s, status, Rows, Cols, Exit, commands)
    ensures DrawnKept(s.edges, weights)
  {
    var mst;
    start, mst := Setup(weights, base, bonus, draws);
    s, status := Run(start, Rows, Cols, Exit, commands);
    CriticalKept(start.edges, s.edges, weights, base, bonus, mst);
  }

  /** The board keeps the drawn weights, and its critical edges are the greedy tree in weight order. */
  ghost predicate DrawnKept(edges: seq<Edge>, weights: seq<int>)
  {
    && |edges| == |weights|
    && (forall i :: 0 <= i < |edges| ==> edges[i].w == weights[i])
    && (forall i :: 0 <= i < |edges| ==> (edges[i].critical <==> Key(edges[i]) in Elems(Greedy(SortedKeys(edges)))))
  }

  /** Toggling flips only `active` flags, so the board keeps its weights and its critical edges stay the greedy tree. */
  lemma CriticalKept(edges0: seq<Edge>, edges: seq<Edge>, weights: seq<int>, base: seq<bool>, bonus: seq<bool>, mst: set<Link>)
    requires Drawn(edges0, weights, base, bonus, mst) && mst == Elems(Greedy(SortedKeys(edges0)))
    requires SameButActive(edges, edges0)
    ensures |edges| == |weights| && forall i :: 0 <= i < |edges| ==> edges[i].w == weights[i]
    ensures forall i :: 0 <= i < |edges| ==> (edges[i].critical <==> Key(edges[i]) in Elems(Greedy(SortedKeys(edges))))
  {
    SameButActiveKeysAndWeights(edges, edges0);
    SortedKeysSame(edges, edges0);
  }

  /** A move command aimed at an on-board cell across an active edge moves the player there, at the cost of one unit. */
  lemma NextMove(s: State, rows: int, cols: int, cmd: string, b: int)
    requires cols > 0 && cmd != "q" && cmd != "t"
    requires Aim(s, rows, cols, MoveDir(cmd)) == Some(b) && CanCross(s.edges, s.player, b)
    ensures Next(s, rows, cols, cmd, "") == s.(player := b, turn := s.turn + 1, energy := s.energy - 1)
  {
  }

  /** The active 2 x 2 board of the example below. */
  const Square: seq<Edge> :=
    [Edge(0, 1, 1, true, false), Edge(0, 2, 1, true, false), Edge(1, 3, 1, true, false), Edge(2, 3, 1, true, false)]

  lemma RightFromStart()
    ensures Next(State(Square, 0, [], 5, 0), 2, 2, "d", "") == State(Square, 1, [], 4, 1)
  {
    var s := State(Square, 0, [], 5, 0);
    assert MoveDir("d") == Some(Right);
    assert Aim(s, 2, 2, Some(Right)) == Some(1);
    assert FindEdge(Square, 0, 1) == Some(0);
    NextMove(s, 2, 2, "d", 1);
  }

  lemma DownFromOne(s: State)
    requires s.player == 1
    ensures MoveDir("s") == Some(Down) && Aim(s, 2, 2, Some(Down)) == Some(3)
  {
    assert Target(0, 1, Down) == (1, 1);
  }

  lemma CrossOneThree()
    ensures CanCross(Square, 1, 3)
  {
    assert !Joins(Square[0], 1, 3) && !Joins(Square[1], 1, 3) && Joins(Square[2], 1, 3);
    assert FindEdge(Square, 1, 3) == Some(2);
  }

  lemma DownToExit()
    ensures Next(State(Square, 1, [], 4, 1), 2, 2, "s", "") == State(Square, 3, [], 3, 2)
  {
    var s := State(Square, 1, [], 4, 1);
    DownFromOne(s);
    CrossOneThree();
    NextMove(s, 2, 2, "s", 3);
  }

  /**
   * On a 2 x 2 board with every edge active, no guards and 5 units of energy,
   * the moves right (`d`) and down (`s`) take the player from node 0 to the
   * exit, node 3, which is reachable over active edges: the game is won after
   * two turns with 3 units left.
   */
  lemma TwoByTwoWin()
    ensures var s1 := Next(State(Square, 0, [], 5, 0), 2, 2, "d", "");
      var s2 := Next(s1, 2, 2, "s", "");
      && s1.player == 1 && s1.energy == 4
      && s2 == State(Square, 3, [], 3, 2)
      && Reachable(ActiveLinks(s2.edges), s2.player, 3)
  {
    RightFromStart();
    DownToExit();
    ReachableRefl(ActiveLinks(Square), 3);
  }

  /**
   * Fed the commands `d` and then `s` on that board, the loop of `main` takes
   * two turns and stops with the game won, the player on the exit.
   */
  lemma TwoByTwoLoop()
    ensures Loop(State(Square, 0, [], 5, 0), 2, 2, 3, [("d", ""), ("s", "")]) == (State(Square, 3, [], 3, 2), Won)
  {
    var commands := [("d", ""), ("s", "")];
    var s0 := State(Square, 0, [], 5, 0);
    var s1 := State(Square, 1, [], 4, 1);
    var s2 := State(Square, 3, [], 3, 2);
    RightFromStart();
    DownToExit();
    ReachableRefl(ActiveLinks(Square), 3);
    assert EndStatus(s2, 3) == Won;
    assert Loop(s1, 2, 2, 3, commands) == Loop(s2, 2, 2, 3, commands);
    assert Loop(s0, 2, 2, 3, commands) == Loop(s1, 2, 2, 3, commands);
  }
}
