/** The node of the A* solver: a board reduced to the player, the boxes, the goals and a wall
    bitmap, and the operations the search asks of it. */
module SearchNode {
  import opened Tiles
  import opened Wrappers
  import opened Positions

  /** The four moves tried by the successor generator, in order: `delta`. */
  const Deltas: seq<(int, int)> := [(0, 1), (1, 0), (0, -1), (-1, 0)]

  datatype NodeError =
    | WorldTooSmall(size: nat, dim: nat)
    | UnbalancedGoals(boxes: nat, goals: nat)
    | BoxOutOfRange(index: nat)

  /** A search node. `total` and `unmatched` are the counters the code keeps next to `boxes`;
      `parent` is the node this one was generated from. */
  datatype Node = Node(
    dim: nat,
    player: Pos,
    total: nat,
    unmatched: int,
    boxes: seq<Pos>,
    goals: seq<Pos>,
    walls: seq<bool>,
    parent: Option<Node>)

  /** The wall bitmap covers the board. */
  predicate Shaped(n: Node) {
    |n.walls| == n.dim * n.dim
  }

  // ---------------------------------------------------------------------------
  // The grid constructor

  /** Which cells a scan collects. */
  datatype Kind = BoxCells | GoalCells

  predicate Keeps(kind: Kind, t: Tile) {
    match kind
    case BoxCells => t.IsBoxLike()
    case GoalCells => t.IsTargetLike()
  }

  /** How many cells of a grid a scan collects. */
  function KindCount(g: Grid, kind: Kind): nat {
    match kind
    case BoxCells => CountBoxLike(g)
    case GoalCells => CountTargetLike(g)
  }

  /** The indices below n, in increasing order, whose tile the scan collects. */
  function ScanIndices(world: Grid, n: nat, kind: Kind): (ks: seq<nat>)
    requires n <= |world|
    ensures forall i :: 0 <= i < |ks| ==> ks[i] < n && Keeps(kind, world[ks[i]])
    ensures forall i, j :: 0 <= i < j < |ks| ==> ks[i] < ks[j]
    decreases n
  {
    if n == 0 then []
    else
      var prev := ScanIndices(world, n - 1, kind);
      if Keeps(kind, world[n - 1]) then prev + [n - 1] else prev
  }

  /** A scan misses no index of its kind. */
  lemma {:induction false} ScanComplete(world: Grid, n: nat, kind: Kind, k: nat)
    requires k < n <= |world| && Keeps(kind, world[k])
    ensures k in ScanIndices(world, n, kind)
  {
    if k < n - 1 {
      ScanComplete(world, n - 1, kind, k);
    }
  }

  /** A scan collects as many indices as the grid has cells of its kind. */
  lemma {:induction false} ScanCount(world: Grid, n: nat, kind: Kind)
    requires n <= |world|
    ensures |ScanIndices(world, n, kind)| == KindCount(world[..n], kind)
  {
    if n > 0 {
      ScanCount(world, n - 1, kind);
      ScanCountStep(world, n, kind);
    }
  }

  lemma ScanCountStep(world: Grid, n: nat, kind: Kind)
    requires 0 < n <= |world|
    requires |ScanIndices(world, n - 1, kind)| == KindCount(world[..n - 1], kind)
    ensures |ScanIndices(world, n, kind)| == KindCount(world[..n], kind)
  {
    assert |ScanIndices(world, n, kind)| == |ScanIndices(world, n - 1, kind)| + B(Keeps(kind, world[n - 1]));
    assert KindCount(world[..n], kind) == KindCount(world[..n - 1], kind) + B(Keeps(kind, world[n - 1])) by {
      assert world[..n] == world[..n - 1] + [world[n - 1]];
      KindCountAppend(world[..n - 1], world[n - 1], kind);
    }
  }

  lemma KindCountAppend(g: Grid, t: Tile, kind: Kind)
    ensures KindCount(g + [t], kind) == KindCount(g, kind) + B(Keeps(kind, t))
  {
    assert multiset(g + [t]) == multiset(g) + multiset{t};
  }

  /** The coordinates of row-major indices. */
  function Coordinates(dim: nat, ks: seq<nat>): (ps: seq<Pos>)
    requires dim > 0 || |ks| == 0
    ensures |ps| == |ks| && forall i :: 0 <= i < |ks| ==> ps[i] == PosOf(dim, ks[i])
  {
    seq(|ks|, i requires 0 <= i < |ks| => PosOf(dim, ks[i]))
  }

  /** The index of the last player cell below n, if any. */
  function LastPlayer(world: Grid, n: nat): (r: Option<nat>)
    requires n <= |world|
    ensures r.Some? ==> r.value < n && world[r.value].IsPlayerLike()
    ensures r.Some? ==> forall k :: r.value < k < n ==> !world[k].IsPlayerLike()
    ensures r.None? ==> forall k :: 0 <= k < n ==> !world[k].IsPlayerLike()
  {
    if n == 0 then None
    else if world[n - 1].IsPlayerLike() then Some(n - 1)
    else LastPlayer(world, n - 1)
  }

  /** The node the grid constructor builds from a world at least dim * dim long, before its
      balance check. */
  function GridNode(dim: nat, world: Grid): (n: Node)
    requires dim * dim <= |world|
    ensures Shaped(n) && n.dim == dim && n.parent.None?
    ensures forall k :: 0 <= k < dim * dim ==> (n.walls[k] <==> world[k] == Wall)
    ensures n.total == |n.boxes| == CountBoxLike(world[..dim * dim])
    ensures |n.goals| == CountTargetLike(world[..dim * dim])
    ensures n.unmatched == Count(world[..dim * dim], Box)
  {
    var size := dim * dim;
    var boxes := ScanIndices(world, size, BoxCells);
    var goals := ScanIndices(world, size, GoalCells);
    ScanCount(world, size, BoxCells);
    ScanCount(world, size, GoalCells);
    var player := match LastPlayer(world, size)
      case None => Pos(0, 0)
      case Some(k) => PosOf(dim, k);
    Node(dim, player, |boxes|, Count(world[..size], Box), Coordinates(dim, boxes), Coordinates(dim, goals),
         seq(size, k requires 0 <= k < size => world[k] == Wall), None)
  }

  /** The grid constructor: reads every cell of the dim x dim board and checks that there are as
      many goals as boxes. */
  function FromGrid(dim: nat, world: Grid): (r: Result<Node, NodeError>)
    ensures r == Err(WorldTooSmall(|world|, dim)) <==> |world| < dim * dim
    ensures r.Err? && r.error.UnbalancedGoals? <==>
              dim * dim <= |world| && CountBoxLike(world[..dim * dim]) != CountTargetLike(world[..dim * dim])
    ensures r.Ok? ==> r.value == GridNode(dim, world) && |r.value.boxes| == |r.value.goals|
  {
    if |world| < dim * dim then Err(WorldTooSmall(|world|, dim))
    else
      var n := GridNode(dim, world);
      if |n.boxes| != |n.goals| then Err(UnbalancedGoals(|n.boxes|, |n.goals|)) else Ok(n)
  }

  /** A coordinate is in the list of a scan's coordinates exactly when its index was collected. */
  lemma CoordinatesMember(dim: nat, ks: seq<nat>, k: nat)
    requires dim > 0
    ensures PosOf(dim, k) in Coordinates(dim, ks) <==> k in ks
  {
    var ps := Coordinates(dim, ks);
    if PosOf(dim, k) in ps {
      var i :| 0 <= i < |ps| && ps[i] == PosOf(dim, k);
      PosOfInjective(dim, ks[i], k);
    }
    if k in ks {
      var i :| 0 <= i < |ks| && ks[i] == k;
      assert ps[i] == PosOf(dim, k);
    }
  }

  /** A scan's coordinates are exactly the board cells whose tile it collects. */
  lemma ScanMember(dim: nat, world: Grid, kind: Kind, p: Pos)
    requires dim * dim <= |world|
    ensures var ps := Coordinates(dim, ScanIndices(world, dim * dim, kind));
            p in ps <==> OnBoard(dim, p) && Keeps(kind, world[Index(dim, p)])
  {
    var ks := ScanIndices(world, dim * dim, kind);
    var ps := Coordinates(dim, ks);
    if p in ps {
      var i :| 0 <= i < |ps| && ps[i] == p;
      IndexOfPos(dim, ks[i]);
    }
    if OnBoard(dim, p) && Keeps(kind, world[Index(dim, p)]) {
      PosOfIndex(dim, p);
      ScanComplete(world, dim * dim, kind, Index(dim, p));
      CoordinatesMember(dim, ks, Index(dim, p));
    }
  }

  /** `boxes` holds the cells with a box (on a target or not); `goals` the cells with a target
      (empty, under a box or under the player). */
  lemma GridBoxesAndGoals(dim: nat, world: Grid, p: Pos)
    requires dim * dim <= |world|
    ensures p in GridNode(dim, world).boxes <==> OnBoard(dim, p) && world[Index(dim, p)].IsBoxLike()
    ensures p in GridNode(dim, world).goals <==> OnBoard(dim, p) && world[Index(dim, p)].IsTargetLike()
  {
    ScanMember(dim, world, BoxCells, p);
    ScanMember(dim, world, GoalCells, p);
  }

  /** No box cell is listed twice. */
  lemma GridBoxesDistinct(dim: nat, world: Grid)
    requires dim * dim <= |world|
    ensures Distinct(GridNode(dim, world).boxes)
  {
    var ks := ScanIndices(world, dim * dim, BoxCells);
    var ps := GridNode(dim, world).boxes;
    forall i, j | 0 <= i < j < |ps|
      ensures ps[i] != ps[j]
    {
      if ps[i] == ps[j] {
        PosOfInjective(dim, ks[i], ks[j]);
      }
    }
  }

  /** Boxes and goals are listed in the order of the y-outer, x-inner scan: by increasing
      row-major index. With `GridBoxesAndGoals`, this fixes both lists completely. */
  lemma GridScanOrder(dim: nat, world: Grid)
    requires dim * dim <= |world|
    ensures var n := GridNode(dim, world);
            && (forall i, j :: 0 <= i < j < |n.boxes| ==> Index(dim, n.boxes[i]) < Index(dim, n.boxes[j]))
            && (forall i, j :: 0 <= i < j < |n.goals| ==> Index(dim, n.goals[i]) < Index(dim, n.goals[j]))
  {
    var n := GridNode(dim, world);
    var bs := ScanIndices(world, dim * dim, BoxCells);
    var gs := ScanIndices(world, dim * dim, GoalCells);
    forall i | 0 <= i < |bs| {
      IndexOfPos(dim, bs[i]);
    }
    forall i | 0 <= i < |gs| {
      IndexOfPos(dim, gs[i]);
    }
  }

  /** The player is on the last player cell of the scan, or at (0, 0) when there is none. */
  lemma GridPlayer(dim: nat, world: Grid)
    requires dim * dim <= |world|
    ensures var n := GridNode(dim, world);
            && ((exists k :: 0 <= k < dim * dim && world[k].IsPlayerLike()) ==>
                  && OnBoard(dim, n.player) && world[Index(dim, n.player)].IsPlayerLike()
                  && forall k :: Index(dim, n.player) < k < dim * dim ==> !world[k].IsPlayerLike())
            && ((forall k :: 0 <= k < dim * dim ==> !world[k].IsPlayerLike()) ==> n.player == Pos(0, 0))
  {
    var last := LastPlayer(world, dim * dim);
    if last.Some? {
      IndexOfPos(dim, last.value);
    }
  }

  /** Pairwise distinct. */
  predicate Distinct(s: seq<Pos>) {
    forall i, j :: 0 <= i < j < |s| ==> s[i] != s[j]
  }

  // ---------------------------------------------------------------------------
  // Counting, walls and goal nodes

  /** The number of boxes that stand on some goal: the inner loop of `compute_unmatched_boxes`. */
  function Matched(boxes: seq<Pos>, goals: seq<Pos>): (m: nat)
    ensures m <= |boxes|
    ensures m == |boxes| <==> forall i :: 0 <= i < |boxes| ==> boxes[i] in goals
  {
    if |boxes| == 0 then 0
    else Matched(boxes[..|boxes| - 1], goals) + (if boxes[|boxes| - 1] in goals then 1 else 0)
  }

  /** `compute_unmatched_boxes`: the box counter less the boxes that stand on a goal. */
  function ComputeUnmatched(n: Node): (u: int)
    ensures n.total == |n.boxes| ==> 0 <= u <= n.total
    ensures n.total == |n.boxes| ==> (u == 0 <==> forall i :: 0 <= i < |n.boxes| ==> n.boxes[i] in n.goals)
  {
    n.total - Matched(n.boxes, n.goals)
  }

  /** The coordinate constructor: the counters are derived from the boxes and goals. */
  function MakeNode(dim: nat, player: Pos, boxes: seq<Pos>, goals: seq<Pos>, walls: seq<bool>, parent: Option<Node>): (n: Node)
    ensures n.dim == dim && n.player == player && n.boxes == boxes && n.goals == goals
    ensures n.walls == walls && n.parent == parent
    ensures n.total == |boxes| && Counted(n)
  {
    var n := Node(dim, player, |boxes|, 0, boxes, goals, walls, parent);
    n.(unmatched := ComputeUnmatched(n))
  }

  /** The counters agree with the boxes and goals. */
  predicate Counted(n: Node) {
    n.total == |n.boxes| && n.unmatched == ComputeUnmatched(n)
  }

  /** `check_wall`: everything off the board counts as wall; on the board, the wall bit of the cell. */
  function CheckWall(n: Node, p: Pos): (b: bool)
    requires Shaped(n)
    ensures !OnBoard(n.dim, p) ==> b
    ensures OnBoard(n.dim, p) ==> 0 <= Index(n.dim, p) < |n.walls| && (b <==> n.walls[Index(n.dim, p)])
  {
    if !OnBoard(n.dim, p) then true
    else
      IndexBounds(n.dim, p.x, p.y);
      n.walls[Index(n.dim, p)]
  }

  /** On a grid-built node, `check_wall` is true exactly off the board and on wall tiles. */
  lemma GridCheckWall(dim: nat, world: Grid, p: Pos)
    requires dim * dim <= |world|
    ensures CheckWall(GridNode(dim, world), p) <==> !OnBoard(dim, p) || world[Index(dim, p)] == Wall
  {
    if OnBoard(dim, p) {
      IndexBounds(dim, p.x, p.y);
    }
  }

  /** `IsGoal`: the stored unmatched counter is zero, which for a node whose counters agree with
      its lists means every box stands on a goal. */
  function IsGoal(n: Node): (b: bool)
    ensures Counted(n) ==> (b <==> forall i :: 0 <= i < |n.boxes| ==> n.boxes[i] in n.goals)
  {
    n.unmatched == 0
  }

  /** The grid constructor's unmatched counter (the number of plain box tiles) agrees with
      `compute_unmatched_boxes` on the node it builds. */
  lemma GridNodeCounted(dim: nat, world: Grid)
    requires dim * dim <= |world|
    ensures Counted(GridNode(dim, world))
  {
    var size := dim * dim;
    var goals := Coordinates(dim, ScanIndices(world, size, GoalCells));
    UnmatchedPrefix(dim, world, goals, size);
  }

  lemma {:induction false} UnmatchedPrefix(dim: nat, world: Grid, goals: seq<Pos>, n: nat)
    requires n <= dim * dim <= |world|
    requires goals == Coordinates(dim, ScanIndices(world, dim * dim, GoalCells))
    ensures var ks := ScanIndices(world, n, BoxCells);
            (dim > 0 || |ks| == 0) &&
            |ks| - Matched(Coordinates(dim, ks), goals) == Count(world[..n], Box)
  {
    if n > 0 {
      UnmatchedPrefix(dim, world, goals, n - 1);
      SideOfNonEmptyBoard(dim, n);
      UnmatchedStep(dim, world, goals, n);
    }
  }

  lemma SideOfNonEmptyBoard(dim: nat, n: nat)
    requires 0 < n <= dim * dim
    ensures dim > 0
  {
  }

  lemma UnmatchedStep(dim: nat, world: Grid, goals: seq<Pos>, n: nat)
    requires 0 < dim && 0 < n <= dim * dim <= |world|
    requires goals == Coordinates(dim, ScanIndices(world, dim * dim, GoalCells))
    requires var ks := ScanIndices(world, n - 1, BoxCells);
             |ks| - Matched(Coordinates(dim, ks), goals) == Count(world[..n - 1], Box)
    ensures var ks := ScanIndices(world, n, BoxCells);
            |ks| - Matched(Coordinates(dim, ks), goals) == Count(world[..n], Box)
  {
    var t := world[n - 1];
    var before := ScanIndices(world, n - 1, BoxCells);
    var after := ScanIndices(world, n, BoxCells);
    var mBefore := Matched(Coordinates(dim, before), goals);
    var mAfter := Matched(Coordinates(dim, after), goals);
    assert Count(world[..n], Box) == Count(world[..n - 1], Box) + B(t == Box) by {
      PrefixCount(world, n, Box);
    }
    if t.IsBoxLike() {
      BoxCellStep(dim, world, goals, n);
      assert |after| == |before| + 1 && mAfter == mBefore + B(t.IsTargetLike());
      assert B(t == Box) == 1 - B(t.IsTargetLike());
    } else {
      assert after == before;
    }
  }

  /** A box cell extends the scan by one coordinate, matched exactly when the cell has a target. */
  lemma BoxCellStep(dim: nat, world: Grid, goals: seq<Pos>, n: nat)
    requires 0 < dim && 0 < n <= dim * dim <= |world| && world[n - 1].IsBoxLike()
    requires goals == Coordinates(dim, ScanIndices(world, dim * dim, GoalCells))
    ensures |ScanIndices(world, n, BoxCells)| == |ScanIndices(world, n - 1, BoxCells)| + 1
    ensures Matched(Coordinates(dim, ScanIndices(world, n, BoxCells)), goals)
         == Matched(Coordinates(dim, ScanIndices(world, n - 1, BoxCells)), goals) + B(world[n - 1].IsTargetLike())
  {
    var ks := ScanIndices(world, n - 1, BoxCells);
    var p := PosOf(dim, n - 1);
    assert ScanIndices(world, n, BoxCells) == ks + [n - 1];
    var cs := Coordinates(dim, ks);
    assert Coordinates(dim, ks + [n - 1]) == cs + [p] by {
      CoordinatesAppend(dim, ks, n - 1);
    }
    assert B(p in goals) == B(world[n - 1].IsTargetLike()) by {
      GoalAtCell(dim, world, goals, n - 1);
    }
    MatchedAppend(cs, p, goals);
  }

  /** A cell's coordinate is a goal exactly when the cell has a target under it. */
  lemma GoalAtCell(dim: nat, world: Grid, goals: seq<Pos>, k: nat)
    requires 0 < dim && k < dim * dim <= |world|
    requires goals == Coordinates(dim, ScanIndices(world, dim * dim, GoalCells))
    ensures PosOf(dim, k) in goals <==> world[k].IsTargetLike()
  {
    CoordinatesMember(dim, ScanIndices(world, dim * dim, GoalCells), k);
    if world[k].IsTargetLike() {
      ScanComplete(world, dim * dim, GoalCells, k);
    }
  }

  lemma CoordinatesAppend(dim: nat, ks: seq<nat>, k: nat)
    requires dim > 0
    ensures Coordinates(dim, ks + [k]) == Coordinates(dim, ks) + [PosOf(dim, k)]
  {
  }

  lemma MatchedAppend(ps: seq<Pos>, p: Pos, goals: seq<Pos>)
    ensures Matched(ps + [p], goals) == Matched(ps, goals) + B(p in goals)
  {
    assert (ps + [p])[..|ps|] == ps;
  }

  /** `get_goal_node`: the boxes placed on the goals, player and walls kept. */
  function GetGoalNode(n: Node): (g: Node)
    ensures g.boxes == n.goals && g.goals == n.goals
    ensures g.player == n.player && g.walls == n.walls && g.dim == n.dim
    ensures IsGoal(g)
  {
    MakeNode(n.dim, n.player, n.goals, n.goals, n.walls, None)
  }

  // ---------------------------------------------------------------------------
  // Successors

  /** The index of the first box at p, if any. */
  function FirstAt(boxes: seq<Pos>, p: Pos): (r: Option<nat>)
    ensures r.None? <==> p !in boxes
    ensures r.Some? ==> r.value < |boxes| && boxes[r.value] == p
    ensures r.Some? ==> forall j :: 0 <= j < r.value ==> boxes[j] != p
  {
    if |boxes| == 0 then None
    else if boxes[0] == p then Some(0)
    else match FirstAt(boxes[1..], p)
      case None => None
      case Some(i) => Some(i + 1)
  }

  /** A move by (dx, dy) is refused: the player would step off the board or into a wall, or onto a
      box whose next cell is off the board, a wall or another box. */
  predicate Blocked(n: Node, dx: int, dy: int)
    requires Shaped(n)
  {
    var np := n.player.Plus(dx, dy);
    var nb := np.Plus(dx, dy);
    CheckWall(n, np) || (np in n.boxes && (CheckWall(n, nb) || nb in n.boxes))
  }

  /** `get_child_node`: the node after the player tries to move by (dx, dy), pushing the first box
      on the destination; the node itself when the move is refused. */
  function GetChild(n: Node, dx: int, dy: int): (c: Node)
    requires Shaped(n)
    ensures Shaped(c) && c.dim == n.dim && c.goals == n.goals && c.walls == n.walls
    ensures Blocked(n, dx, dy) ==> c == n
    ensures !Blocked(n, dx, dy) ==>
              && c.player == n.player.Plus(dx, dy) && c.parent == Some(n) && Counted(c)
              && |c.boxes| == |n.boxes|
    ensures !Blocked(n, dx, dy) && n.player.Plus(dx, dy) !in n.boxes ==> c.boxes == n.boxes
    ensures !Blocked(n, dx, dy) && n.player.Plus(dx, dy) in n.boxes ==>
              var i := FirstAt(n.boxes, n.player.Plus(dx, dy)).value;
              c.boxes == n.boxes[i := n.boxes[i].Plus(dx, dy)]
  {
    var np := n.player.Plus(dx, dy);
    if CheckWall(n, np) then n
    else match FirstAt(n.boxes, np)
      case None => MakeNode(n.dim, np, n.boxes, n.goals, n.walls, Some(n))
      case Some(i) =>
        var nb := n.boxes[i].Plus(dx, dy);
        if CheckWall(n, nb) || nb in n.boxes then n
        else MakeNode(n.dim, np, n.boxes[i := nb], n.goals, n.walls, Some(n))
  }

  /** At most one box moves, by exactly (dx, dy), and only the one the player walks into. */
  lemma ChildMovesOneBox(n: Node, dx: int, dy: int)
    requires Shaped(n)
    ensures var c := GetChild(n, dx, dy);
            && |c.boxes| == |n.boxes|
            && (forall j :: 0 <= j < |n.boxes| ==>
                  c.boxes[j] == n.boxes[j] || (n.boxes[j] == c.player && c.boxes[j] == n.boxes[j].Plus(dx, dy)))
            && (forall j, j' :: 0 <= j < j' < |n.boxes| ==> c.boxes[j] == n.boxes[j] || c.boxes[j'] == n.boxes[j'])
  {
  }

  /** The search's picture of a sound state: the wall bitmap covers the board, no two boxes share
      a cell, no box is on a wall or off the board, and the player is not on a box. */
  predicate Sound(n: Node) {
    && Shaped(n)
    && Distinct(n.boxes)
    && (forall i :: 0 <= i < |n.boxes| ==> !CheckWall(n, n.boxes[i]))
    && n.player !in n.boxes
  }

  /** A sound node has sound children. */
  lemma ChildStaysSound(n: Node, dx: int, dy: int)
    requires Sound(n)
    ensures Sound(GetChild(n, dx, dy))
  {
    var c := GetChild(n, dx, dy);
    if !Blocked(n, dx, dy) {
      var np := n.player.Plus(dx, dy);
      assert forall p :: CheckWall(c, p) == CheckWall(n, p);
      if np in n.boxes {
        var i := FirstAt(n.boxes, np).value;
        var nb := np.Plus(dx, dy);
        assert nb != np;
        assert forall j :: 0 <= j < |n.boxes| && j != i ==> n.boxes[j] != np;
      }
    }
  }

  /** A grid-built node with a player cell is sound. */
  lemma GridNodeSound(dim: nat, world: Grid)
    requires dim * dim <= |world|
    requires exists k :: 0 <= k < dim * dim && world[k].IsPlayerLike()
    ensures Sound(GridNode(dim, world))
  {
    var n := GridNode(dim, world);
    GridBoxesDistinct(dim, world);
    GridPlayer(dim, world);
    forall i | 0 <= i < |n.boxes|
      ensures !CheckWall(n, n.boxes[i])
    {
      GridBoxesAndGoals(dim, world, n.boxes[i]);
      GridCheckWall(dim, world, n.boxes[i]);
    }
    GridBoxesAndGoals(dim, world, n.player);
  }

  /** The node reached by a sequence of child steps. */
  function Walk(n: Node, moves: seq<(int, int)>): Node
    requires Shaped(n)
    decreases |moves|
  {
    if |moves| == 0 then n
    else Walk(GetChild(n, moves[0].0, moves[0].1), moves[1..])
  }

  /** Every node reached from a sound node by child steps is sound. */
  lemma {:induction false} WalkStaysSound(n: Node, moves: seq<(int, int)>)
    requires Sound(n)
    ensures Sound(Walk(n, moves))
    decreases |moves|
  {
    if |moves| > 0 {
      ChildStaysSound(n, moves[0].0, moves[0].1);
      WalkStaysSound(GetChild(n, moves[0].0, moves[0].1), moves[1..]);
    }
  }

  /** The nodes reached from a grid-built node with a player cell by any moves are sound. */
  lemma ReachedNodesSound(dim: nat, world: Grid, moves: seq<(int, int)>)
    requires dim * dim <= |world|
    requires exists k :: 0 <= k < dim * dim && world[k].IsPlayerLike()
    ensures Shaped(GridNode(dim, world)) && Sound(Walk(GridNode(dim, world), moves))
  {
    GridNodeSound(dim, world);
    WalkStaysSound(GridNode(dim, world), moves);
  }

  /** The comparison the successor generator makes: same player cell, same box list. */
  predicate SameState(a: Node, b: Node) {
    a.player == b.player && a.boxes == b.boxes
  }

  /** The child for the k-th move. */
  function Child(n: Node, k: nat): Node
    requires Shaped(n) && k < |Deltas|
  {
    GetChild(n, Deltas[k].0, Deltas[k].1)
  }

  /** A child the successor generator keeps: it differs from this node and from `from`. */
  predicate Novel(c: Node, n: Node, from: Option<Node>) {
    !SameState(c, n) && (from.Some? ==> !SameState(c, from.value))
  }

  /** The elements of `cs` that `keep` accepts, in order. */
  function Keep<T>(cs: seq<T>, keep: T -> bool): (r: seq<T>)
    ensures |r| <= |cs|
    ensures forall c :: c in r ==> keep(c) && c in cs
    ensures forall c :: c in cs && keep(c) ==> c in r
  {
    if |cs| == 0 then []
    else
      var rest := Keep(cs[1..], keep);
      if keep(cs[0]) then [cs[0]] + rest else rest
  }

  /** `ks` lists, in increasing order, exactly the positions of `cs` whose element `keep`
      accepts, and `r` holds the elements at those positions. */
  ghost predicate Picks<T>(r: seq<T>, cs: seq<T>, ks: seq<nat>, keep: T -> bool) {
    |ks| == |r| && At(r, cs, ks) && Ascending(ks) && Covers(cs, ks, keep)
  }

  /** `r[i]` is the element of `cs` at position `ks[i]`. */
  ghost predicate At<T>(r: seq<T>, cs: seq<T>, ks: seq<nat>)
    requires |ks| == |r|
  {
    forall i :: 0 <= i < |ks| ==> ks[i] < |cs| && r[i] == cs[ks[i]]
  }

  ghost predicate Ascending(ks: seq<nat>) {
    forall i, j :: 0 <= i < j < |ks| ==> ks[i] < ks[j]
  }

  /** Every position of `cs` whose element `keep` accepts is listed in `ks`. */
  ghost predicate Covers<T>(cs: seq<T>, ks: seq<nat>, keep: T -> bool) {
    forall m :: 0 <= m < |cs| && keep(cs[m]) ==> m in ks
  }

  /** The positions `ks` moved one place to the right. */
  function Shift(ks: seq<nat>): (r: seq<nat>)
    ensures |r| == |ks| && forall i :: 0 <= i < |ks| ==> r[i] == ks[i] + 1
  {
    seq(|ks|, i requires 0 <= i < |ks| => ks[i] + 1)
  }

  /** `Keep` keeps the accepted elements of `cs` in their order and nothing else. */
  lemma {:induction false} KeepPicks<T>(cs: seq<T>, keep: T -> bool)
    ensures exists ks :: Picks(Keep(cs, keep), cs, ks, keep)
  {
    if |cs| == 0 {
      assert Keep(cs, keep) == [];
      assert Picks([], cs, [], keep);
    } else {
      KeepPicks(cs[1..], keep);
      var ks' :| Picks(Keep(cs[1..], keep), cs[1..], ks', keep);
      var rest := Keep(cs[1..], keep);
      ShiftAt(rest, cs, ks');
      ShiftCovers(cs, ks', keep);
      if keep(cs[0]) {
        assert Keep(cs, keep) == [cs[0]] + rest;
        FrontAt(rest, cs, Shift(ks'));
        FrontAscending(Shift(ks'));
        FrontCovers(cs, Shift(ks'), keep);
        assert Picks(Keep(cs, keep), cs, [0] + Shift(ks'), keep);
      } else {
        assert Keep(cs, keep) == rest;
        ShiftCoversAll(cs, Shift(ks'), keep);
        assert Picks(Keep(cs, keep), cs, Shift(ks'), keep);
      }
    }
  }

  lemma ShiftAt<T>(rest: seq<T>, cs: seq<T>, ks': seq<nat>)
    requires |cs| > 0 && |ks'| == |rest| && At(rest, cs[1..], ks')
    ensures At(rest, cs, Shift(ks')) && Ascending(Shift(ks')) == Ascending(ks')
    ensures forall i :: 0 <= i < |ks'| ==> 0 < Shift(ks')[i]
  {
    var tail := cs[1..];
    forall i | 0 <= i < |ks'|
      ensures rest[i] == cs[Shift(ks')[i]]
    {
      assert rest[i] == tail[ks'[i]];
    }
  }

  lemma ShiftCovers<T>(cs: seq<T>, ks': seq<nat>, keep: T -> bool)
    requires |cs| > 0 && Covers(cs[1..], ks', keep)
    ensures forall m :: 0 < m < |cs| && keep(cs[m]) ==> m in Shift(ks')
  {
    var tail := cs[1..];
    forall m | 0 < m < |cs| && keep(cs[m])
      ensures m in Shift(ks')
    {
      assert tail[m - 1] == cs[m];
      var i :| 0 <= i < |ks'| && ks'[i] == m - 1;
      assert Shift(ks')[i] == m;
    }
  }

  lemma ShiftCoversAll<T>(cs: seq<T>, ks: seq<nat>, keep: T -> bool)
    requires |cs| > 0 && !keep(cs[0])
    requires forall m :: 0 < m < |cs| && keep(cs[m]) ==> m in ks
    ensures Covers(cs, ks, keep)
  {
    forall m | 0 <= m < |cs| && keep(cs[m])
      ensures m in ks
    {
      assert m != 0;
    }
  }

  lemma FrontAt<T>(rest: seq<T>, cs: seq<T>, shifted: seq<nat>)
    requires |cs| > 0 && |shifted| == |rest| && At(rest, cs, shifted)
    ensures At([cs[0]] + rest, cs, [0] + shifted)
  {
    var r := [cs[0]] + rest;
    var ks := [0] + shifted;
    forall i | 0 <= i < |ks|
      ensures ks[i] < |cs| && r[i] == cs[ks[i]]
    {
      if i > 0 {
        assert ks[i] == shifted[i - 1] && r[i] == rest[i - 1];
      }
    }
  }

  lemma FrontAscending(shifted: seq<nat>)
    requires Ascending(shifted) && forall i :: 0 <= i < |shifted| ==> 0 < shifted[i]
    ensures Ascending([0] + shifted)
  {
    var ks := [0] + shifted;
    forall i, j | 0 <= i < j < |ks|
      ensures ks[i] < ks[j]
    {
      assert ks[j] == shifted[j - 1];
      if i > 0 {
        assert ks[i] == shifted[i - 1];
      }
    }
  }

  lemma FrontCovers<T>(cs: seq<T>, shifted: seq<nat>, keep: T -> bool)
    requires |cs| > 0 && forall m :: 0 < m < |cs| && keep(cs[m]) ==> m in shifted
    ensures Covers(cs, [0] + shifted, keep)
  {
  }

  /** The children of the four moves, in `Deltas` order. */
  function Children(n: Node): (cs: seq<Node>)
    requires Shaped(n)
    ensures |cs| == |Deltas| && forall k :: 0 <= k < |Deltas| ==> cs[k] == Child(n, k)
  {
    seq(|Deltas|, k requires 0 <= k < |Deltas| => Child(n, k))
  }

  /** The test the successor generator applies to each child. */
  function NovelTo(n: Node, from: Option<Node>): (keep: Node -> bool)
    ensures forall c :: keep(c) == Novel(c, n, from)
  {
    c => Novel(c, n, from)
  }

  /** `GetSuccessors`: the children of the four moves, in order, leaving out any that repeat this
      node or the node it was reached from; every move with a novel child is offered. */
  function GetSuccessors(n: Node, from: Option<Node>): (r: seq<Node>)
    requires Shaped(n)
    ensures |r| <= 4
    ensures forall c :: c in r ==> Novel(c, n, from) && c.parent == Some(n) && c.player != n.player
    ensures forall k :: 0 <= k < |Deltas| && Novel(Child(n, k), n, from) ==> Child(n, k) in r
    ensures exists ks: seq<nat> ::
      && |ks| == |r|
      && (forall i :: 0 <= i < |ks| ==> ks[i] < |Deltas| && r[i] == Child(n, ks[i]))
      && (forall i, j :: 0 <= i < j < |ks| ==> ks[i] < ks[j])
      && (forall k :: 0 <= k < |Deltas| && Novel(Child(n, k), n, from) ==> k in ks)
  {
    MovedChildren(n, from);
    ChildrenInOrder(n, from);
    Keep(Children(n), NovelTo(n, from))
  }

  /** A kept child is a real move: this node is its parent and the player has moved. */
  lemma MovedChildren(n: Node, from: Option<Node>)
    requires Shaped(n)
    ensures forall c :: c in Keep(Children(n), NovelTo(n, from)) ==>
      c.parent == Some(n) && c.player != n.player
  {
    var cs := Children(n);
    forall c | c in Keep(cs, NovelTo(n, from))
      ensures c.parent == Some(n) && c.player != n.player
    {
      var k :| 0 <= k < |Deltas| && c == cs[k];
      assert !Blocked(n, Deltas[k].0, Deltas[k].1);
    }
  }

  /** The kept children are exactly the novel ones, in the order of their moves. */
  lemma ChildrenInOrder(n: Node, from: Option<Node>)
    requires Shaped(n)
    ensures exists ks: seq<nat> ::
      && |ks| == |Keep(Children(n), NovelTo(n, from))|
      && (forall i :: 0 <= i < |ks| ==> ks[i] < |Deltas| && Keep(Children(n), NovelTo(n, from))[i] == Child(n, ks[i]))
      && (forall i, j :: 0 <= i < j < |ks| ==> ks[i] < ks[j])
      && (forall k :: 0 <= k < |Deltas| && Novel(Child(n, k), n, from) ==> k in ks)
  {
    var cs := Children(n);
    var keep := NovelTo(n, from);
    var r := Keep(cs, keep);
    KeepPicks(cs, keep);
    var ks :| Picks(r, cs, ks, keep);
    ChildrenAt(n, r, ks);
    ChildrenCovered(n, from, ks);
    assert Ascending(ks);
  }

  lemma ChildrenAt(n: Node, r: seq<Node>, ks: seq<nat>)
    requires Shaped(n) && |ks| == |r| && At(r, Children(n), ks)
    ensures forall i :: 0 <= i < |ks| ==> ks[i] < |Deltas| && r[i] == Child(n, ks[i])
  {
  }

  lemma ChildrenCovered(n: Node, from: Option<Node>, ks: seq<nat>)
    requires Shaped(n) && Covers(Children(n), ks, NovelTo(n, from))
    ensures forall k :: 0 <= k < |Deltas| && Novel(Child(n, k), n, from) ==> k in ks
  {
    forall k | 0 <= k < |Deltas| && Novel(Child(n, k), n, from)
      ensures k in ks
    {
      assert NovelTo(n, from)(Children(n)[k]);
    }
  }

  // ---------------------------------------------------------------------------
  // State identity

  /** The box-by-box comparison from index i, reading the other list with a checked access. */
  function CompareFrom(xs: seq<Pos>, ys: seq<Pos>, i: nat): (r: Result<bool, NodeError>)
    requires i <= |xs| && i <= |ys|
    ensures r == Ok(true) <==> |xs| <= |ys| && forall k :: i <= k < |xs| ==> xs[k] == ys[k]
    ensures r.Err? <==> |ys| < |xs| && forall k :: i <= k < |ys| ==> xs[k] == ys[k]
    ensures r.Err? ==> r.error == BoxOutOfRange(|ys|)
    decreases |xs| - i
  {
    if i == |xs| then Ok(true)
    else if i >= |ys| then Err(BoxOutOfRange(i))
    else if xs[i] != ys[i] then Ok(false)
    else CompareFrom(xs, ys, i + 1)
  }

  /** `IsSameState`: same player, and this node's boxes are, in order, the first boxes of the
      other; reading past the end of the other's list fails. */
  function IsSameState(a: Node, b: Node): (r: Result<bool, NodeError>)
    ensures r == Ok(true) <==> a.player == b.player && |a.boxes| <= |b.boxes| && a.boxes == b.boxes[..|a.boxes|]
    ensures r.Err? <==> a.player == b.player && |b.boxes| < |a.boxes| && a.boxes[..|b.boxes|] == b.boxes
  {
    if a.player != b.player then Ok(false) else CompareFrom(a.boxes, b.boxes, 0)
  }

  /** `Hash`: a mixing function of the player and the sorted box list; whichever sorted listing
      of the boxes is taken, the hash is the same. */
  function Hash(mix: (Pos, seq<Pos>) -> int, n: Node): (h: int)
    ensures forall s :: Sorted(s) && multiset(s) == multiset(n.boxes) ==> h == mix(n.player, s)
  {
    SortIsTheSortedArrangement(n.boxes);
    mix(n.player, Sort(n.boxes))
  }

  /** The hash does not see the order of the boxes. */
  lemma HashIgnoresBoxOrder(mix: (Pos, seq<Pos>) -> int, a: Node, b: Node)
    requires a.player == b.player && multiset(a.boxes) == multiset(b.boxes)
    ensures Hash(mix, a) == Hash(mix, b)
  {
    SortIgnoresOrder(a.boxes, b.boxes);
  }

  /** Nodes that `IsSameState` equates and that hold as many boxes hash alike. */
  lemma SameStateHashesAlike(mix: (Pos, seq<Pos>) -> int, a: Node, b: Node)
    requires IsSameState(a, b) == Ok(true) && |a.boxes| == |b.boxes|
    ensures Hash(mix, a) == Hash(mix, b)
  {
    assert a.boxes == b.boxes[..|b.boxes|] == b.boxes;
  }

  /** `IsSameState` sees the order of the boxes while the hash does not: two listings of the same
      two boxes. */
  lemma IsSameStateSeesBoxOrder(mix: (Pos, seq<Pos>) -> int)
    ensures var a := MakeNode(3, Pos(1, 1), [Pos(0, 0), Pos(2, 2)], [], [], None);
            var b := MakeNode(3, Pos(1, 1), [Pos(2, 2), Pos(0, 0)], [], [], None);
            IsSameState(a, b) == Ok(false) && Hash(mix, a) == Hash(mix, b)
  {
    var a := MakeNode(3, Pos(1, 1), [Pos(0, 0), Pos(2, 2)], [], [], None);
    var b := MakeNode(3, Pos(1, 1), [Pos(2, 2), Pos(0, 0)], [], [], None);
    assert a.boxes[0] != b.boxes[0];
    assert multiset(a.boxes) == multiset(b.boxes);
    HashIgnoresBoxOrder(mix, a, b);
  }

  // ---------------------------------------------------------------------------
  // Heuristic and cost

  /** The distance from p to the nearest goal. */
  function NearestGoal(p: Pos, goals: seq<Pos>): (d: nat)
    requires |goals| > 0
    ensures exists j :: 0 <= j < |goals| && d == Manhattan(p, goals[j])
    ensures forall j :: 0 <= j < |goals| ==> d <= Manhattan(p, goals[j])
  {
    if |goals| == 1 then Manhattan(p, goals[0])
    else
      var rest := NearestGoal(p, goals[..|goals| - 1]);
      var last := Manhattan(p, goals[|goals| - 1]);
      if last < rest then last else rest
  }

  /** A box is at distance zero from the goals exactly when it stands on one. */
  lemma NearestGoalZero(p: Pos, goals: seq<Pos>)
    requires |goals| > 0
    ensures NearestGoal(p, goals) == 0 <==> p in goals
  {
    if p in goals {
      var j :| 0 <= j < |goals| && goals[j] == p;
      assert Manhattan(p, goals[j]) == 0;
    }
  }

  /** The sum over boxes of their distances to the nearest goal. */
  function DistanceSum(boxes: seq<Pos>, goals: seq<Pos>): (h: nat)
    requires |goals| > 0
    ensures h == 0 <==> forall i :: 0 <= i < |boxes| ==> boxes[i] in goals
  {
    if |boxes| == 0 then 0
    else
      NearestGoalZero(boxes[|boxes| - 1], goals);
      DistanceSum(boxes[..|boxes| - 1], goals) + NearestGoal(boxes[|boxes| - 1], goals)
  }

  /** `GoalDistanceEstimate`: the least total distance over all ways of sending each box to some
      goal (several boxes may share one), which is zero exactly on states whose boxes all stand
      on goals. */
  function GoalDistanceEstimate(n: Node): (h: int)
    requires |n.goals| > 0
    ensures h >= 0
    ensures h == 0 <==> forall i :: 0 <= i < |n.boxes| ==> n.boxes[i] in n.goals
    ensures exists assign :: Assignment(assign, n.boxes, n.goals) && h == AssignedDistance(n.boxes, n.goals, assign)
    ensures forall assign :: Assignment(assign, n.boxes, n.goals) ==> h <= AssignedDistance(n.boxes, n.goals, assign)
  {
    SumAttained(n.boxes, n.goals);
    assert forall assign :: Assignment(assign, n.boxes, n.goals) ==>
        DistanceSum(n.boxes, n.goals) <= AssignedDistance(n.boxes, n.goals, assign) by {
      forall assign | Assignment(assign, n.boxes, n.goals) {
        AssignedBound(n.boxes, n.goals, assign);
      }
    }
    DistanceSum(n.boxes, n.goals)
  }

  /** `assign` sends box i to goal `assign[i]`. */
  predicate Assignment(assign: seq<nat>, boxes: seq<Pos>, goals: seq<Pos>) {
    |assign| == |boxes| && forall i :: 0 <= i < |assign| ==> assign[i] < |goals|
  }

  /** The total distance when box i is sent to goal assign[i]. */
  function AssignedDistance(boxes: seq<Pos>, goals: seq<Pos>, assign: seq<nat>): nat
    requires Assignment(assign, boxes, goals)
  {
    if |boxes| == 0 then 0
    else AssignedDistance(boxes[..|boxes| - 1], goals, assign[..|assign| - 1])
         + Manhattan(boxes[|boxes| - 1], goals[assign[|assign| - 1]])
  }

  lemma {:induction false} AssignedBound(boxes: seq<Pos>, goals: seq<Pos>, assign: seq<nat>)
    requires |goals| > 0 && Assignment(assign, boxes, goals)
    ensures DistanceSum(boxes, goals) <= AssignedDistance(boxes, goals, assign)
  {
    if |boxes| > 0 {
      AssignedBound(boxes[..|boxes| - 1], goals, assign[..|assign| - 1]);
    }
  }

  /** Sending every box to its nearest goal attains the sum of nearest-goal distances. */
  lemma {:induction false} SumAttained(boxes: seq<Pos>, goals: seq<Pos>)
    requires |goals| > 0
    ensures exists assign :: Assignment(assign, boxes, goals) && DistanceSum(boxes, goals) == AssignedDistance(boxes, goals, assign)
  {
    if |boxes| == 0 {
      assert Assignment([], boxes, goals) && AssignedDistance(boxes, goals, []) == 0;
    } else {
      var front := boxes[..|boxes| - 1];
      var last := boxes[|boxes| - 1];
      SumAttained(front, goals);
      var rest: seq<nat> :| Assignment(rest, front, goals) && DistanceSum(front, goals) == AssignedDistance(front, goals, rest);
      var j :| 0 <= j < |goals| && NearestGoal(last, goals) == Manhattan(last, goals[j]);
      var assign := rest + [j];
      assert assign[..|assign| - 1] == rest;
      assert Assignment(assign, boxes, goals);
      assert DistanceSum(boxes, goals) == AssignedDistance(boxes, goals, assign);
    }
  }

  /** `GetCost`: every move costs one, whichever the nodes. */
  function GetCost(n: Node, successor: Node): (c: int)
    ensures c == 1
  {
    1
  }
}
