/** The grid physics engine of a live episode: cell access, the reset scan,
    the single-action step and the channel-major observation. */
module Physics {
  import opened Tiles
  import opened Wrappers

  const ActNoop := 0
  const ActPushRight := 4

  /** Unit moves in the order of the direction table: up, down, left, right. */
  const ChangeCoordinates: seq<(int, int)> := [(0, -1), (0, 1), (-1, 0), (1, 0)]

  /** Episode state: the room, the player's coordinates and the count of boxes off target. */
  datatype Env = Env(dim: nat, world: Grid, px: int, py: int, unmatched: int)

  datatype EnvError =
    | LevelNotSquare(size: nat, dim: nat)
    | ObsSizeMismatch(obsSize: int, levelSize: nat)

  /** The world vector has one cell per coordinate pair; `Reset` refuses any other level. */
  predicate WellSized(e: Env) {
    |e.world| == e.dim * e.dim
  }

  /** `WorldAt`: the tile at (x, y), with everything outside the room reading as wall. */
  function WorldAt(world: Grid, dim: nat, x: int, y: int): (t: Tile)
    requires |world| == dim * dim
    ensures !InRange(dim, x, y) ==> t == Wall
    ensures InRange(dim, x, y) ==> 0 <= x + y * dim < |world| && t == world[x + y * dim]
  {
    if InRange(dim, x, y) then IndexBounds(dim, x, y); world[x + y * dim] else Wall
  }

  /** `WorldAssignAt`: writes `v` at (x, y); a write outside the room is dropped. */
  function WorldAssignAt(world: Grid, dim: nat, x: int, y: int, v: Tile): (w: Grid)
    requires |world| == dim * dim
    ensures |w| == |world|
    ensures !InRange(dim, x, y) ==> w == world
    ensures InRange(dim, x, y) ==> 0 <= x + y * dim < |world| && w == world[x + y * dim := v]
  {
    if InRange(dim, x, y) then IndexBounds(dim, x, y); world[x + y * dim := v] else world
  }

  /** Reading back a cell after a write sees the written tile there and the old tile elsewhere. */
  lemma ReadAfterWrite(world: Grid, dim: nat, x: int, y: int, v: Tile, x': int, y': int)
    requires |world| == dim * dim
    ensures WorldAt(WorldAssignAt(world, dim, x, y, v), dim, x', y')
         == if InRange(dim, x, y) && x == x' && y == y' then v else WorldAt(world, dim, x', y')
  {
    if InRange(dim, x, y) && InRange(dim, x', y') && (x != x' || y != y') {
      if x + y * dim == x' + y' * dim {
        IndexInjective(dim, x, y, x', y');
      }
    }
  }

  // ---------------------------------------------------------------------------
  // Reset

  /** (x', y') comes after (x, y) in the reset scan, which walks columns x and, inside one, rows y. */
  predicate AfterInScan(x': int, y': int, x: int, y: int) {
    x' > x || (x' == x && y' > y)
  }

  /** Cell `k` is reached by the reset scan before the scan reaches (x, y). */
  predicate ScannedBefore(dim: nat, k: int, x: int, y: int)
    requires dim > 0
  {
    k % dim < x || (k % dim == x && k / dim < y)
  }

  /** The cell indices the reset scan has visited before reaching (x, y). */
  ghost function Visited(dim: nat, x: int, y: int): set<int> {
    if dim == 0 then {} else set k | 0 <= k < dim * dim && ScannedBefore(dim, k, x, y)
  }

  /** Indices of cells holding exactly `t`. */
  ghost function CellsHolding(world: Grid, t: Tile): set<int> {
    set k | 0 <= k < |world| && world[k] == t
  }

  lemma {:induction false} CountIsCardinality(world: Grid, t: Tile)
    ensures Count(world, t) == |CellsHolding(world, t)|
  {
    if |world| > 0 {
      var n := |world| - 1;
      var p := world[..n];
      CountIsCardinality(p, t);
      assert world == p + [world[n]];
      assert Count(world, t) == Count(p, t) + B(world[n] == t);
      if world[n] == t {
        assert CellsHolding(world, t) == CellsHolding(p, t) + {n};
      } else {
        assert CellsHolding(world, t) == CellsHolding(p, t);
      }
    }
  }

  lemma VisitedStep(dim: nat, x: int, y: int)
    requires InRange(dim, x, y)
    ensures Visited(dim, x, y + 1) == Visited(dim, x, y) + {x + y * dim}
    ensures x + y * dim !in Visited(dim, x, y)
  {
    IndexDivMod(dim, x, y);
    IndexBounds(dim, x, y);
    forall k | 0 <= k < dim * dim && k % dim == x && k / dim == y
      ensures k == x + y * dim
    {
      assert k == (k / dim) * dim + k % dim;
    }
  }

  lemma VisitedNextColumn(dim: nat, x: int)
    requires 0 <= x < dim
    ensures Visited(dim, x, dim) == Visited(dim, x + 1, 0)
  {
    forall k | 0 <= k < dim * dim
      ensures ScannedBefore(dim, k, x, dim) <==> ScannedBefore(dim, k, x + 1, 0)
    {
      IndexSurjective(dim, k);
    }
  }

  lemma VisitedAll(dim: nat)
    ensures Visited(dim, dim, 0) == set k | 0 <= k < dim * dim && k in Visited(dim, dim, 0)
    ensures forall k :: 0 <= k < dim * dim ==> k in Visited(dim, dim, 0)
  {
    forall k | 0 <= k < dim * dim
      ensures k in Visited(dim, dim, 0)
    {
      IndexSurjective(dim, k);
    }
  }

  /** No PLAYER tile among the cells scanned before (x, y). */
  ghost predicate NoPlayerBefore(world: Grid, dim: nat, x: int, y: int)
    requires |world| == dim * dim
  {
    forall x', y' :: (InRange(dim, x', y') && (x' < x || (x' == x && y' < y))) ==> WorldAt(world, dim, x', y') != Player
  }

  /** (px, py) holds PLAYER and no PLAYER tile lies between it and (x, y) in scan order. */
  ghost predicate LastPlayerBefore(world: Grid, dim: nat, px: int, py: int, x: int, y: int)
    requires |world| == dim * dim
  {
    && InRange(dim, px, py)
    && WorldAt(world, dim, px, py) == Player
    && (px < x || (px == x && py < y))
    && forall x', y' :: (InRange(dim, x', y') && (x' < x || (x' == x && y' < y)) && AfterInScan(x', y', px, py))
                          ==> WorldAt(world, dim, x', y') != Player
  }

  lemma BoxCountStep(world: Grid, dim: nat, x: int, y: int)
    requires |world| == dim * dim && InRange(dim, x, y)
    ensures |CellsHolding(world, Box) * Visited(dim, x, y + 1)|
         == |CellsHolding(world, Box) * Visited(dim, x, y)| + (if WorldAt(world, dim, x, y) == Box then 1 else 0)
  {
    VisitedStep(dim, x, y);
    if WorldAt(world, dim, x, y) == Box {
      assert CellsHolding(world, Box) * Visited(dim, x, y + 1)
          == CellsHolding(world, Box) * Visited(dim, x, y) + {x + y * dim};
    } else {
      assert CellsHolding(world, Box) * Visited(dim, x, y + 1)
          == CellsHolding(world, Box) * Visited(dim, x, y);
    }
  }

  lemma PlayerScanStep(world: Grid, dim: nat, x: int, y: int, found: bool, px: int, py: int)
    requires |world| == dim * dim && InRange(dim, x, y)
    requires found ==> LastPlayerBefore(world, dim, px, py, x, y)
    requires !found ==> NoPlayerBefore(world, dim, x, y)
    ensures WorldAt(world, dim, x, y) == Player ==> LastPlayerBefore(world, dim, x, y, x, y + 1)
    ensures WorldAt(world, dim, x, y) != Player && found ==> LastPlayerBefore(world, dim, px, py, x, y + 1)
    ensures WorldAt(world, dim, x, y) != Player && !found ==> NoPlayerBefore(world, dim, x, y + 1)
  {
  }

  /** What the reset scan knows once it reaches (x, y): the boxes counted so far
      and the last PLAYER cell seen, or the previous coordinates if none. */
  ghost predicate ScanInvariant(world: Grid, dim: nat, x: int, y: int,
                                unmatched: nat, found: bool, px: int, py: int, prevX: int, prevY: int)
    requires |world| == dim * dim
  {
    && unmatched == |CellsHolding(world, Box) * Visited(dim, x, y)|
    && (found ==> LastPlayerBefore(world, dim, px, py, x, y))
    && (!found ==> NoPlayerBefore(world, dim, x, y) && px == prevX && py == prevY)
  }

  lemma ScanCell(world: Grid, dim: nat, x: int, y: int,
                 unmatched: nat, found: bool, px: int, py: int, prevX: int, prevY: int)
    requires |world| == dim * dim && InRange(dim, x, y)
    requires ScanInvariant(world, dim, x, y, unmatched, found, px, py, prevX, prevY)
    ensures var t := WorldAt(world, dim, x, y);
            if t == Box then ScanInvariant(world, dim, x, y + 1, unmatched + 1, found, px, py, prevX, prevY)
            else if t == Player then ScanInvariant(world, dim, x, y + 1, unmatched, true, x, y, prevX, prevY)
            else ScanInvariant(world, dim, x, y + 1, unmatched, found, px, py, prevX, prevY)
  {
    BoxCountStep(world, dim, x, y);
    PlayerScanStep(world, dim, x, y, found, px, py);
  }

  lemma ScanNextColumn(world: Grid, dim: nat, x: int,
                       unmatched: nat, found: bool, px: int, py: int, prevX: int, prevY: int)
    requires |world| == dim * dim && 0 <= x < dim
    requires ScanInvariant(world, dim, x, dim, unmatched, found, px, py, prevX, prevY)
    ensures ScanInvariant(world, dim, x + 1, 0, unmatched, found, px, py, prevX, prevY)
  {
    VisitedNextColumn(dim, x);
  }

  lemma ScanStart(world: Grid, dim: nat, prevX: int, prevY: int)
    requires |world| == dim * dim
    ensures ScanInvariant(world, dim, 0, 0, 0, false, prevX, prevY, prevX, prevY)
  {
    assert CellsHolding(world, Box) * Visited(dim, 0, 0) == {};
  }

  lemma ScanComplete(world: Grid, dim: nat, unmatched: nat, found: bool, px: int, py: int, prevX: int, prevY: int)
    requires |world| == dim * dim
    requires ScanInvariant(world, dim, dim, 0, unmatched, found, px, py, prevX, prevY)
    ensures unmatched == Count(world, Box)
    ensures found ==> InRange(dim, px, py) && WorldAt(world, dim, px, py) == Player
    ensures !found ==> px == prevX && py == prevY
    ensures found ==> forall x, y :: (InRange(dim, x, y) && AfterInScan(x, y, px, py)) ==> WorldAt(world, dim, x, y) != Player
    ensures !found ==> Player !in world
  {
    VisitedAll(dim);
    assert CellsHolding(world, Box) * Visited(dim, dim, 0) == CellsHolding(world, Box);
    CountIsCardinality(world, Box);
    if !found && Player in world {
      var k :| 0 <= k < |world| && world[k] == Player;
      IndexSurjective(dim, k);
      assert false;
    }
  }

  /** The reset scan's running result: boxes counted and the last PLAYER cell seen. */
  datatype ScanAcc = ScanAcc(unmatched: nat, found: bool, px: int, py: int)

  /** The scan's result once it reaches (x, y), cell by cell in the scan's own order. */
  ghost function ScanTo(world: Grid, dim: nat, x: nat, y: nat, prevX: int, prevY: int): ScanAcc
    requires |world| == dim * dim && x <= dim && y <= dim
    decreases x, y
  {
    if y == 0 then
      if x == 0 then ScanAcc(0, false, prevX, prevY) else ScanTo(world, dim, x - 1, dim, prevX, prevY)
    else
      var acc := ScanTo(world, dim, x, y - 1, prevX, prevY);
      var t := WorldAt(world, dim, x, y - 1);
      if t == Box then acc.(unmatched := acc.unmatched + 1)
      else if t == Player then ScanAcc(acc.unmatched, true, x, y - 1)
      else acc
  }

  lemma ScanToNextColumn(world: Grid, dim: nat, x: nat, prevX: int, prevY: int)
    requires |world| == dim * dim && 0 < x <= dim
    requires var acc := ScanTo(world, dim, x - 1, dim, prevX, prevY);
             ScanInvariant(world, dim, x - 1, dim, acc.unmatched, acc.found, acc.px, acc.py, prevX, prevY)
    ensures var acc := ScanTo(world, dim, x, 0, prevX, prevY);
            ScanInvariant(world, dim, x, 0, acc.unmatched, acc.found, acc.px, acc.py, prevX, prevY)
  {
    var acc := ScanTo(world, dim, x - 1, dim, prevX, prevY);
    assert ScanTo(world, dim, x, 0, prevX, prevY) == acc;
    ScanNextColumn(world, dim, x - 1, acc.unmatched, acc.found, acc.px, acc.py, prevX, prevY);
  }

  lemma ScanToNextCell(world: Grid, dim: nat, x: nat, y: nat, prevX: int, prevY: int)
    requires |world| == dim * dim && x < dim && 0 < y <= dim
    requires var acc := ScanTo(world, dim, x, y - 1, prevX, prevY);
             ScanInvariant(world, dim, x, y - 1, acc.unmatched, acc.found, acc.px, acc.py, prevX, prevY)
    ensures var acc := ScanTo(world, dim, x, y, prevX, prevY);
            ScanInvariant(world, dim, x, y, acc.unmatched, acc.found, acc.px, acc.py, prevX, prevY)
  {
    var acc := ScanTo(world, dim, x, y - 1, prevX, prevY);
    ScanCell(world, dim, x, y - 1, acc.unmatched, acc.found, acc.px, acc.py, prevX, prevY);
  }

  lemma {:induction false} ScanToMeetsInvariant(world: Grid, dim: nat, x: nat, y: nat, prevX: int, prevY: int)
    requires |world| == dim * dim && x <= dim && y <= dim && (x == dim ==> y == 0)
    ensures var acc := ScanTo(world, dim, x, y, prevX, prevY);
            ScanInvariant(world, dim, x, y, acc.unmatched, acc.found, acc.px, acc.py, prevX, prevY)
    decreases x, y
  {
    if y == 0 {
      if x == 0 {
        ScanStart(world, dim, prevX, prevY);
      } else {
        ScanToMeetsInvariant(world, dim, x - 1, dim, prevX, prevY);
        ScanToNextColumn(world, dim, x, prevX, prevY);
      }
    } else {
      ScanToMeetsInvariant(world, dim, x, y - 1, prevX, prevY);
      ScanToNextCell(world, dim, x, y, prevX, prevY);
    }
  }

  /** `Reset`'s scan of a freshly loaded level. The player keeps its previous
      coordinates when the level has no plain PLAYER tile. */
  method Reset(world: Grid, dim: nat, prevX: int, prevY: int) returns (r: Result<Env, EnvError>)
    ensures r.Err? <==> |world| != dim * dim
    ensures r.Ok? ==> r.value.world == world && r.value.dim == dim && WellSized(r.value)
    ensures r.Ok? ==> r.value.unmatched == Count(world, Box)
    ensures r.Ok? && Player in world ==>
              && InRange(dim, r.value.px, r.value.py)
              && WorldAt(world, dim, r.value.px, r.value.py) == Player
              && forall x, y :: (InRange(dim, x, y) && AfterInScan(x, y, r.value.px, r.value.py))
                                  ==> WorldAt(world, dim, x, y) != Player
    ensures r.Ok? && Player !in world ==> r.value.px == prevX && r.value.py == prevY
  {
    if |world| != dim * dim {
      return Err(LevelNotSquare(|world|, dim));
    }
    var unmatched: nat := 0;
    var px, py := prevX, prevY;
    var found := false;
    var x := 0;
    while x < dim
      invariant 0 <= x <= dim
      invariant ScanAcc(unmatched, found, px, py) == ScanTo(world, dim, x, 0, prevX, prevY)
    {
      var y := 0;
      while y < dim
        invariant 0 <= y <= dim
        invariant ScanAcc(unmatched, found, px, py) == ScanTo(world, dim, x, y, prevX, prevY)
      {
        var t := WorldAt(world, dim, x, y);
        if t == Box {
          unmatched := unmatched + 1;
        } else if t == Player {
          px, py := x, y;
          found := true;
        }
        y := y + 1;
      }
      x := x + 1;
    }
    ScanToMeetsInvariant(world, dim, dim, 0, prevX, prevY);
    ScanComplete(world, dim, unmatched, found, px, py, prevX, prevY);
    r := Ok(Env(dim, world, px, py, unmatched));
  }

  // ---------------------------------------------------------------------------
  // Step

  /** The direction table entry an action uses; actions a and a + 4 share one. */
  function Direction(action: int): (d: (int, int))
    ensures d in ChangeCoordinates
    ensures d.0 != 0 || d.1 != 0
  {
    ChangeCoordinates[(action - 1) % 4]
  }

  /** Which box-move condition a step applies: the one the code evaluates, or the
      one its comment and the game's rules describe (see README, Findings). */
  datatype PushRule = AsWritten | Intended

  /** Whether the box in front of the player moves; `pushing` says the action is a push action. */
  predicate BoxMoves(rule: PushRule, pushing: bool, a1: Tile, a2: Tile) {
    && pushing
    && (a1 == Box || a1 == BoxOnTarget)
    && match rule
       case AsWritten => a1 == Empty || a2 == Target
       case Intended => a2 == Empty || a2 == Target
  }

  /** The three arena writes of a move, cell 0 (the player's), 1 and 2 ahead; writes outside the room are dropped. */
  function ArenaWrites(e: Env, dx: int, dy: int, n0: Tile, n1: Tile, n2: Tile): (w: Grid)
    requires WellSized(e)
    ensures |w| == |e.world|
  {
    var w0 := WorldAssignAt(e.world, e.dim, e.px, e.py, n0);
    var w1 := WorldAssignAt(w0, e.dim, e.px + dx, e.py + dy, n1);
    WorldAssignAt(w1, e.dim, e.px + 2 * dx, e.py + 2 * dy, n2)
  }

  /** The arena after a move: the floor left behind, the player on the next cell, and either the box
      pushed onto the cell after or that cell as it was. */
  function Rewrite(boxMoves: bool, a0: Tile, a1: Tile, a2: Tile): (n: (Tile, Tile, Tile))
    ensures !n.0.IsPlayerLike() && !n.0.IsBoxLike() && n.0.IsTargetLike() == a0.IsTargetLike()
    ensures n.1.IsPlayerLike() && n.1.IsTargetLike() == a1.IsTargetLike()
    ensures boxMoves ==> n.2.IsBoxLike() && n.2.IsTargetLike() == a2.IsTargetLike()
    ensures !boxMoves ==> n.2 == a2
  {
    (if a0.IsTargetLike() then Target else Empty,
     if a1.IsTargetLike() then PlayerOnTarget else Player,
     if boxMoves then (if a2.IsTargetLike() then BoxOnTarget else Box) else a2)
  }

  /** The player tries to go one cell along (dx, dy), pushing the box ahead when the box may move. */
  function Move(rule: PushRule, e: Env, pushing: bool, dx: int, dy: int): (r: Env)
    requires WellSized(e)
    ensures WellSized(r) && r.dim == e.dim
  {
    var a0 := WorldAt(e.world, e.dim, e.px, e.py);
    var a1 := WorldAt(e.world, e.dim, e.px + dx, e.py + dy);
    var a2 := WorldAt(e.world, e.dim, e.px + 2 * dx, e.py + 2 * dy);
    var boxMoves := BoxMoves(rule, pushing, a1, a2);
    var agentMoves := a1 == Empty || a1 == Target || boxMoves;
    if !agentMoves then e
    else
      var n := Rewrite(boxMoves, a0, a1, a2);
      var unmatched := if boxMoves then e.unmatched + B(a1.IsTargetLike()) - B(a2.IsTargetLike()) else e.unmatched;
      Env(e.dim, ArenaWrites(e, dx, dy, n.0, n.1, n.2), e.px + dx, e.py + dy, unmatched)
  }

  /** `Step` under a given box-move rule. The no-op action leaves the state as it is. */
  function StepUnder(rule: PushRule, e: Env, action: int): (r: Env)
    requires WellSized(e)
    ensures WellSized(r) && r.dim == e.dim
    ensures action == ActNoop ==> r == e
  {
    if action == ActNoop then e
    else Move(rule, e, action <= ActPushRight, Direction(action).0, Direction(action).1)
  }

  /** `Step` as the code is written: the no-op leaves the state alone; any other action either
      changes nothing or moves the player one cell in the action's direction; and a live episode
      stays live, with walls, boxes and targets conserved. */
  function Step(e: Env, action: int): (r: Env)
    requires WellSized(e)
    ensures WellSized(r) && r.dim == e.dim
    ensures action == ActNoop ==> r == e
    ensures r == e || (r.px == e.px + Direction(action).0 && r.py == e.py + Direction(action).1)
    ensures Inv(e) ==> Inv(r) && Conserved(e, r)
  {
    StepKeepsInvariant(AsWritten, e, action);
    StepUnder(AsWritten, e, action)
  }

  lemma StepKeepsInvariant(rule: PushRule, e: Env, action: int)
    requires WellSized(e)
    ensures Inv(e) ==> var r := StepUnder(rule, e, action); Inv(r) && Conserved(e, r)
  {
    if Inv(e) {
      StepPreservesInvariant(rule, e, action);
    }
  }

  /** Actions 1 to 4 (pushes) and 5 to 8 (moves) go up, down, left, right, and a and a + 4 agree. */
  lemma DirectionTable(action: int)
    ensures Direction(action) == Direction(action + 4)
    ensures action == 1 ==> Direction(action) == (0, -1)
    ensures action == 2 ==> Direction(action) == (0, 1)
    ensures action == 3 ==> Direction(action) == (-1, 0)
    ensures action == 4 ==> Direction(action) == (1, 0)
  {
    assert (action + 4 - 1) % 4 == (action - 1) % 4;
  }

  /** As written, the disjunct about an empty cell can never hold (the cell holds a box), so a box
      moves exactly when the action is a push, a box is ahead and a target lies behind it. */
  lemma AsWrittenPushesOnlyOntoTargets(pushing: bool, a1: Tile, a2: Tile)
    ensures BoxMoves(AsWritten, pushing, a1, a2) <==> pushing && a1.IsBoxLike() && a2 == Target
  {
  }

  /** Under either rule a moving box goes onto an empty or target cell, never a wall, a box or off the room. */
  lemma BoxLandsOnFloor(rule: PushRule, e: Env, pushing: bool, dx: int, dy: int)
    requires WellSized(e)
    ensures var a1 := WorldAt(e.world, e.dim, e.px + dx, e.py + dy);
            var a2 := WorldAt(e.world, e.dim, e.px + 2 * dx, e.py + 2 * dy);
            BoxMoves(rule, pushing, a1, a2) ==>
              && InRange(e.dim, e.px + 2 * dx, e.py + 2 * dy) && (a2 == Empty || a2 == Target)
  {
  }

  /** The player moves by exactly the direction iff the cell ahead is empty or a target, or its box moves;
      otherwise nothing at all changes. */
  lemma PlayerMoveRule(rule: PushRule, e: Env, action: int)
    requires WellSized(e) && action != ActNoop
    ensures var (dx, dy) := Direction(action);
            var a1 := WorldAt(e.world, e.dim, e.px + dx, e.py + dy);
            var a2 := WorldAt(e.world, e.dim, e.px + 2 * dx, e.py + 2 * dy);
            var r := StepUnder(rule, e, action);
            if a1 == Empty || a1 == Target || BoxMoves(rule, action <= ActPushRight, a1, a2)
            then r.px == e.px + dx && r.py == e.py + dy && InRange(e.dim, r.px, r.py)
            else r == e
  {
  }

  /** The invariant a live episode keeps between steps. */
  ghost predicate Inv(e: Env) {
    && WellSized(e)
    && InRange(e.dim, e.px, e.py)
    && WorldAt(e.world, e.dim, e.px, e.py).IsPlayerLike()
    && e.unmatched == Count(e.world, Box)
  }

  /** What a step never changes: the walls and the numbers of box-like and target-like tiles. */
  ghost predicate Conserved(e: Env, r: Env)
    requires WellSized(e) && WellSized(r) && r.dim == e.dim
  {
    && CountBoxLike(r.world) == CountBoxLike(e.world)
    && CountTargetLike(r.world) == CountTargetLike(e.world)
    && forall x, y :: InRange(e.dim, x, y) ==>
         (WorldAt(r.world, r.dim, x, y) == Wall <==> WorldAt(e.world, e.dim, x, y) == Wall)
  }

  /** Only the three arena cells ahead of the player (its own, the next, the one after) may change. */
  ghost predicate OnlyArenaChanges(e: Env, r: Env, dx: int, dy: int)
    requires WellSized(e) && WellSized(r) && r.dim == e.dim
  {
    forall x, y :: InRange(e.dim, x, y) && !ArenaCell(e, dx, dy, x, y) ==>
      WorldAt(r.world, r.dim, x, y) == WorldAt(e.world, e.dim, x, y)
  }

  predicate ArenaCell(e: Env, dx: int, dy: int, x: int, y: int) {
    (x == e.px && y == e.py) || (x == e.px + dx && y == e.py + dy) || (x == e.px + 2 * dx && y == e.py + 2 * dy)
  }

  lemma DistinctCells(dim: nat, x: int, y: int, x': int, y': int)
    requires InRange(dim, x, y) && InRange(dim, x', y') && (x != x' || y != y')
    ensures x + y * dim != x' + y' * dim
  {
    if x + y * dim == x' + y' * dim {
      IndexInjective(dim, x, y, x', y');
    }
  }

  /** Reading any cell after the arena writes: the last write to it, or its old tile. */
  lemma ReadArena(e: Env, dx: int, dy: int, n0: Tile, n1: Tile, n2: Tile, x: int, y: int)
    requires WellSized(e) && InRange(e.dim, e.px, e.py) && (dx != 0 || dy != 0)
    ensures var t := WorldAt(ArenaWrites(e, dx, dy, n0, n1, n2), e.dim, x, y);
            && (x == e.px && y == e.py ==> t == n0)
            && (x == e.px + dx && y == e.py + dy && InRange(e.dim, x, y) ==> t == n1)
            && (x == e.px + 2 * dx && y == e.py + 2 * dy && InRange(e.dim, x, y) ==> t == n2)
            && (!ArenaCell(e, dx, dy, x, y) ==> t == WorldAt(e.world, e.dim, x, y))
  {
    var w0 := WorldAssignAt(e.world, e.dim, e.px, e.py, n0);
    var w1 := WorldAssignAt(w0, e.dim, e.px + dx, e.py + dy, n1);
    ReadAfterWrite(e.world, e.dim, e.px, e.py, n0, x, y);
    ReadAfterWrite(w0, e.dim, e.px + dx, e.py + dy, n1, x, y);
    ReadAfterWrite(w1, e.dim, e.px + 2 * dx, e.py + 2 * dy, n2, x, y);
  }

  /** The arena writes at coordinates are writes at distinct indices of the world vector;
      the third is dropped when the cell two ahead lies outside the room. */
  lemma ArenaAsIndexWrites(e: Env, dx: int, dy: int, n0: Tile, n1: Tile, n2: Tile, i0: int, i1: int, i2: int)
    requires WellSized(e) && (dx != 0 || dy != 0)
    requires InRange(e.dim, e.px, e.py) && InRange(e.dim, e.px + dx, e.py + dy)
    requires i0 == e.px + e.py * e.dim && i1 == (e.px + dx) + (e.py + dy) * e.dim
    requires i2 == (e.px + 2 * dx) + (e.py + 2 * dy) * e.dim
    ensures 0 <= i0 < |e.world| && 0 <= i1 < |e.world| && i0 != i1
    ensures e.world[i0] == WorldAt(e.world, e.dim, e.px, e.py)
    ensures e.world[i1] == WorldAt(e.world, e.dim, e.px + dx, e.py + dy)
    ensures InRange(e.dim, e.px + 2 * dx, e.py + 2 * dy) ==>
              && 0 <= i2 < |e.world| && i2 != i0 && i2 != i1
              && e.world[i2] == WorldAt(e.world, e.dim, e.px + 2 * dx, e.py + 2 * dy)
              && ArenaWrites(e, dx, dy, n0, n1, n2) == e.world[i0 := n0][i1 := n1][i2 := n2]
    ensures !InRange(e.dim, e.px + 2 * dx, e.py + 2 * dy) ==>
              ArenaWrites(e, dx, dy, n0, n1, n2) == e.world[i0 := n0][i1 := n1]
  {
    DistinctCells(e.dim, e.px, e.py, e.px + dx, e.py + dy);
    var w0 := WorldAssignAt(e.world, e.dim, e.px, e.py, n0);
    var w1 := WorldAssignAt(w0, e.dim, e.px + dx, e.py + dy, n1);
    var w2 := WorldAssignAt(w1, e.dim, e.px + 2 * dx, e.py + 2 * dy, n2);
    assert w2 == ArenaWrites(e, dx, dy, n0, n1, n2);
    assert w0 == e.world[i0 := n0];
    assert w1 == e.world[i0 := n0][i1 := n1];
    if InRange(e.dim, e.px + 2 * dx, e.py + 2 * dy) {
      DistinctCells(e.dim, e.px, e.py, e.px + 2 * dx, e.py + 2 * dy);
      DistinctCells(e.dim, e.px + dx, e.py + dy, e.px + 2 * dx, e.py + 2 * dy);
      assert w2 == w1[i2 := n2];
    } else {
      assert w2 == w1;
    }
  }

  lemma ThreeWrites(g: Grid, i0: nat, i1: nat, i2: nat, v0: Tile, v1: Tile, v2: Tile)
    requires i0 < |g| && i1 < |g| && i2 < |g| && i0 != i1 && i1 != i2 && i0 != i2
    ensures var g' := g[i0 := v0][i1 := v1][i2 := v2];
            && Count(g', Box) == Count(g, Box) - B(g[i0] == Box) - B(g[i1] == Box) - B(g[i2] == Box)
                                 + B(v0 == Box) + B(v1 == Box) + B(v2 == Box)
            && CountBoxLike(g') == CountBoxLike(g) - B(g[i0].IsBoxLike()) - B(g[i1].IsBoxLike()) - B(g[i2].IsBoxLike())
                                   + B(v0.IsBoxLike()) + B(v1.IsBoxLike()) + B(v2.IsBoxLike())
            && CountTargetLike(g') == CountTargetLike(g) - B(g[i0].IsTargetLike()) - B(g[i1].IsTargetLike())
                                      - B(g[i2].IsTargetLike()) + B(v0.IsTargetLike()) + B(v1.IsTargetLike())
                                      + B(v2.IsTargetLike())
  {
    var ga := g[i0 := v0];
    UpdateCounts(g, i0, v0);
    UpdateCounts(ga, i1, v1);
    UpdateCounts(ga[i1 := v1], i2, v2);
  }

  lemma TwoWrites(g: Grid, i0: nat, i1: nat, v0: Tile, v1: Tile)
    requires i0 < |g| && i1 < |g| && i0 != i1
    ensures var g' := g[i0 := v0][i1 := v1];
            && Count(g', Box) == Count(g, Box) - B(g[i0] == Box) - B(g[i1] == Box) + B(v0 == Box) + B(v1 == Box)
            && CountBoxLike(g') == CountBoxLike(g) - B(g[i0].IsBoxLike()) - B(g[i1].IsBoxLike())
                                   + B(v0.IsBoxLike()) + B(v1.IsBoxLike())
            && CountTargetLike(g') == CountTargetLike(g) - B(g[i0].IsTargetLike()) - B(g[i1].IsTargetLike())
                                      + B(v0.IsTargetLike()) + B(v1.IsTargetLike())
  {
    UpdateCounts(g, i0, v0);
    UpdateCounts(g[i0 := v0], i1, v1);
  }

  /** The tile counts after the arena writes, from the tiles the arena held before. */
  lemma ArenaCounts(e: Env, dx: int, dy: int, n0: Tile, n1: Tile, n2: Tile)
    requires WellSized(e) && (dx != 0 || dy != 0)
    requires InRange(e.dim, e.px, e.py) && InRange(e.dim, e.px + dx, e.py + dy)
    ensures var w := ArenaWrites(e, dx, dy, n0, n1, n2);
            var a0 := WorldAt(e.world, e.dim, e.px, e.py);
            var a1 := WorldAt(e.world, e.dim, e.px + dx, e.py + dy);
            var a2 := WorldAt(e.world, e.dim, e.px + 2 * dx, e.py + 2 * dy);
            var in2 := InRange(e.dim, e.px + 2 * dx, e.py + 2 * dy);
            && Count(w, Box) == Count(e.world, Box) - B(a0 == Box) + B(n0 == Box)
                 - B(a1 == Box) + B(n1 == Box) - B(in2 && a2 == Box) + B(in2 && n2 == Box)
            && CountBoxLike(w) == CountBoxLike(e.world) - B(a0.IsBoxLike()) + B(n0.IsBoxLike())
                 - B(a1.IsBoxLike()) + B(n1.IsBoxLike()) - B(in2 && a2.IsBoxLike()) + B(in2 && n2.IsBoxLike())
            && CountTargetLike(w) == CountTargetLike(e.world) - B(a0.IsTargetLike()) + B(n0.IsTargetLike())
                 - B(a1.IsTargetLike()) + B(n1.IsTargetLike())
                 - B(in2 && a2.IsTargetLike()) + B(in2 && n2.IsTargetLike())
  {
    var i0 := e.px + e.py * e.dim;
    var i1 := (e.px + dx) + (e.py + dy) * e.dim;
    var i2 := (e.px + 2 * dx) + (e.py + 2 * dy) * e.dim;
    ArenaAsIndexWrites(e, dx, dy, n0, n1, n2, i0, i1, i2);
    if InRange(e.dim, e.px + 2 * dx, e.py + 2 * dy) {
      ThreeWrites(e.world, i0, i1, i2, n0, n1, n2);
    } else {
      TwoWrites(e.world, i0, i1, n0, n1);
    }
  }

  /** The tile arithmetic of one move: what leaves and what enters the three arena cells. */
  lemma MoveTally(a0: Tile, a1: Tile, a2: Tile, in2: bool, boxMoves: bool)
    requires a0.IsPlayerLike()
    requires a1 == Empty || a1 == Target || boxMoves
    requires boxMoves ==> a1.IsBoxLike() && in2 && (a2 == Empty || a2 == Target)
    ensures var (n0, n1, n2) := Rewrite(boxMoves, a0, a1, a2);
            - B(a0 == Box) + B(n0 == Box) - B(a1 == Box) + B(n1 == Box) - B(in2 && a2 == Box) + B(in2 && n2 == Box)
            == if boxMoves then B(a1.IsTargetLike()) - B(a2.IsTargetLike()) else 0
    ensures var (n0, n1, n2) := Rewrite(boxMoves, a0, a1, a2);
            - B(a0.IsBoxLike()) + B(n0.IsBoxLike()) - B(a1.IsBoxLike()) + B(n1.IsBoxLike())
            - B(in2 && a2.IsBoxLike()) + B(in2 && n2.IsBoxLike()) == 0
    ensures var (n0, n1, n2) := Rewrite(boxMoves, a0, a1, a2);
            - B(a0.IsTargetLike()) + B(n0.IsTargetLike()) - B(a1.IsTargetLike()) + B(n1.IsTargetLike())
            - B(in2 && a2.IsTargetLike()) + B(in2 && n2.IsTargetLike()) == 0
  {
  }

  /** The facts shared by the proofs about a move that goes ahead. */
  ghost predicate Advances(rule: PushRule, e: Env, pushing: bool, dx: int, dy: int) {
    && Inv(e) && (dx != 0 || dy != 0)
    && var a1 := WorldAt(e.world, e.dim, e.px + dx, e.py + dy);
       var a2 := WorldAt(e.world, e.dim, e.px + 2 * dx, e.py + 2 * dy);
       a1 == Empty || a1 == Target || BoxMoves(rule, pushing, a1, a2)
  }

  /** The state after a move that goes ahead, spelled out. */
  lemma AdvanceShape(rule: PushRule, e: Env, pushing: bool, dx: int, dy: int)
    requires Advances(rule, e, pushing, dx, dy)
    ensures var a0 := WorldAt(e.world, e.dim, e.px, e.py);
            var a1 := WorldAt(e.world, e.dim, e.px + dx, e.py + dy);
            var a2 := WorldAt(e.world, e.dim, e.px + 2 * dx, e.py + 2 * dy);
            var boxMoves := BoxMoves(rule, pushing, a1, a2);
            var n := Rewrite(boxMoves, a0, a1, a2);
            && InRange(e.dim, e.px + dx, e.py + dy)
            && (boxMoves ==> InRange(e.dim, e.px + 2 * dx, e.py + 2 * dy) && a1.IsBoxLike() && (a2 == Empty || a2 == Target))
            && Move(rule, e, pushing, dx, dy)
               == Env(e.dim, ArenaWrites(e, dx, dy, n.0, n.1, n.2), e.px + dx, e.py + dy,
                      if boxMoves then e.unmatched + B(a1.IsTargetLike()) - B(a2.IsTargetLike()) else e.unmatched)
  {
    BoxLandsOnFloor(rule, e, pushing, dx, dy);
  }

  /** A move that goes ahead keeps `unmatched` equal to the number of plain boxes and conserves
      the box-like and target-like tiles. */
  lemma AdvanceCounts(rule: PushRule, e: Env, pushing: bool, dx: int, dy: int)
    requires Advances(rule, e, pushing, dx, dy)
    ensures var r := Move(rule, e, pushing, dx, dy);
            && r.unmatched == Count(r.world, Box)
            && CountBoxLike(r.world) == CountBoxLike(e.world)
            && CountTargetLike(r.world) == CountTargetLike(e.world)
  {
    var a0 := WorldAt(e.world, e.dim, e.px, e.py);
    var a1 := WorldAt(e.world, e.dim, e.px + dx, e.py + dy);
    var a2 := WorldAt(e.world, e.dim, e.px + 2 * dx, e.py + 2 * dy);
    var boxMoves := BoxMoves(rule, pushing, a1, a2);
    var n := Rewrite(boxMoves, a0, a1, a2);
    AdvanceShape(rule, e, pushing, dx, dy);
    ArenaCounts(e, dx, dy, n.0, n.1, n.2);
    MoveTally(a0, a1, a2, InRange(e.dim, e.px + 2 * dx, e.py + 2 * dy), boxMoves);
  }

  /** A move that goes ahead puts the player on the cell ahead, keeps the walls and writes only the arena. */
  lemma AdvanceFrame(rule: PushRule, e: Env, pushing: bool, dx: int, dy: int)
    requires Advances(rule, e, pushing, dx, dy)
    ensures var r := Move(rule, e, pushing, dx, dy);
            && InRange(r.dim, r.px, r.py)
            && WorldAt(r.world, r.dim, r.px, r.py).IsPlayerLike()
            && OnlyArenaChanges(e, r, dx, dy)
            && forall x, y :: InRange(e.dim, x, y) ==>
                 (WorldAt(r.world, r.dim, x, y) == Wall <==> WorldAt(e.world, e.dim, x, y) == Wall)
  {
    var a0 := WorldAt(e.world, e.dim, e.px, e.py);
    var a1 := WorldAt(e.world, e.dim, e.px + dx, e.py + dy);
    var a2 := WorldAt(e.world, e.dim, e.px + 2 * dx, e.py + 2 * dy);
    var boxMoves := BoxMoves(rule, pushing, a1, a2);
    var n := Rewrite(boxMoves, a0, a1, a2);
    var w := ArenaWrites(e, dx, dy, n.0, n.1, n.2);
    AdvanceShape(rule, e, pushing, dx, dy);
    ReadArena(e, dx, dy, n.0, n.1, n.2, e.px + dx, e.py + dy);
    forall x, y | InRange(e.dim, x, y)
      ensures WorldAt(w, e.dim, x, y) == Wall <==> WorldAt(e.world, e.dim, x, y) == Wall
      ensures !ArenaCell(e, dx, dy, x, y) ==> WorldAt(w, e.dim, x, y) == WorldAt(e.world, e.dim, x, y)
    {
      ReadArena(e, dx, dy, n.0, n.1, n.2, x, y);
    }
  }

  /** A move that goes ahead keeps the invariant, conserves walls, boxes and targets and writes only the arena. */
  lemma AdvancePreserves(rule: PushRule, e: Env, pushing: bool, dx: int, dy: int)
    requires Advances(rule, e, pushing, dx, dy)
    ensures var r := Move(rule, e, pushing, dx, dy);
            Inv(r) && Conserved(e, r) && OnlyArenaChanges(e, r, dx, dy)
  {
    AdvanceCounts(rule, e, pushing, dx, dy);
    AdvanceFrame(rule, e, pushing, dx, dy);
  }

  /** `Step` keeps the episode invariant, conserves walls, boxes and targets,
      and writes nothing outside the arena, under either box-move rule. */
  lemma StepPreservesInvariant(rule: PushRule, e: Env, action: int)
    requires Inv(e)
    ensures var r := StepUnder(rule, e, action);
            Inv(r) && Conserved(e, r) && OnlyArenaChanges(e, r, Direction(action).0, Direction(action).1)
  {
    if action != ActNoop {
      var (dx, dy) := Direction(action);
      if Advances(rule, e, action <= ActPushRight, dx, dy) {
        AdvancePreserves(rule, e, action <= ActPushRight, dx, dy);
      }
    }
  }

  /** As written, the count of boxes off target never grows: a box can only be pushed onto a target. */
  lemma UnmatchedNeverIncreases(e: Env, action: int)
    requires Inv(e)
    ensures Step(e, action).unmatched <= e.unmatched
  {
    if action != ActNoop {
      var (dx, dy) := Direction(action);
      var a1 := WorldAt(e.world, e.dim, e.px + dx, e.py + dy);
      var a2 := WorldAt(e.world, e.dim, e.px + 2 * dx, e.py + 2 * dy);
      AsWrittenPushesOnlyOntoTargets(action <= ActPushRight, a1, a2);
    }
  }

  /** Under the intended rule a box ahead of the player with an empty or target cell behind it is pushed:
      the player steps into the box's cell and a box occupies the cell behind. */
  lemma IntendedPushMovesBox(e: Env, dx: int, dy: int)
    requires Inv(e) && (dx != 0 || dy != 0)
    requires WorldAt(e.world, e.dim, e.px + dx, e.py + dy).IsBoxLike()
    requires WorldAt(e.world, e.dim, e.px + 2 * dx, e.py + 2 * dy) == Empty
          || WorldAt(e.world, e.dim, e.px + 2 * dx, e.py + 2 * dy) == Target
    ensures var r := Move(Intended, e, true, dx, dy);
            && r.px == e.px + dx && r.py == e.py + dy
            && WorldAt(r.world, r.dim, e.px + 2 * dx, e.py + 2 * dy).IsBoxLike()
  {
    var a0 := WorldAt(e.world, e.dim, e.px, e.py);
    var a1 := WorldAt(e.world, e.dim, e.px + dx, e.py + dy);
    var a2 := WorldAt(e.world, e.dim, e.px + 2 * dx, e.py + 2 * dy);
    var n := Rewrite(true, a0, a1, a2);
    assert BoxMoves(Intended, true, a1, a2);
    AdvanceShape(Intended, e, true, dx, dy);
    ReadArena(e, dx, dy, n.0, n.1, n.2, e.px + 2 * dx, e.py + 2 * dy);
  }

  /** The room the code mishandles: the player at (0, 0), a box at (1, 0) and an empty cell at (2, 0). */
  function PushWitness(): (e: Env)
    ensures Inv(e)
  {
    Env(3, [Player, Box, Empty, Wall, Wall, Wall, Wall, Wall, Wall], 0, 0, 1)
  }

  /** As written, pushing right into that room changes nothing. */
  lemma PushOntoEmptyIsBlocked()
    ensures Step(PushWitness(), ActPushRight) == PushWitness()
  {
    var e := PushWitness();
    assert Direction(ActPushRight) == (1, 0);
    assert WorldAt(e.world, 3, 1, 0) == Box;
    assert WorldAt(e.world, 3, 2, 0) == Empty;
    assert !BoxMoves(AsWritten, true, Box, Empty);
  }

  /** Under the intended rule the same push moves the player to (1, 0) and the box onto the empty cell (2, 0). */
  lemma PushOntoEmptyIntended()
    ensures var r := StepUnder(Intended, PushWitness(), ActPushRight);
            r.px == 1 && r.py == 0 && WorldAt(r.world, r.dim, 2, 0).IsBoxLike()
  {
    var e := PushWitness();
    assert Direction(ActPushRight) == (1, 0);
    assert WorldAt(e.world, 3, 1, 0) == Box;
    assert WorldAt(e.world, 3, 2, 0) == Empty;
    IntendedPushMovesBox(e, 1, 0);
  }

  // ---------------------------------------------------------------------------
  // WriteState

  /** A colour table: the byte of each tile on each of the three channels. */
  type Palette = (Tile, nat) -> int

  /** One colour channel of the observation: every cell's colour, in index order. */
  function Channel(world: Grid, palette: Palette, c: nat): (s: seq<int>)
    ensures |s| == |world|
  {
    seq(|world|, i requires 0 <= i < |world| => palette(world[i], c))
  }

  /** Channels 0 to c - 1, one after the other. */
  function Planes(world: Grid, palette: Palette, c: nat): seq<int> {
    if c == 0 then [] else Planes(world, palette, c - 1) + Channel(world, palette, c - 1)
  }

  lemma {:induction false} PlanesLength(world: Grid, palette: Palette, c: nat)
    ensures |Planes(world, palette, c)| == c * |world|
  {
    if c > 0 {
      PlanesLength(world, palette, c - 1);
      assert (c - 1) * |world| + |world| == c * |world|;
    }
  }

  /** The planes are laid out channel-major: channel c' of cell i sits at c' * |world| + i. */
  lemma {:induction false} PlaneAt(world: Grid, palette: Palette, c: nat, c': nat, i: nat)
    requires c' < c && i < |world|
    ensures c' * |world| + i < |Planes(world, palette, c)|
    ensures Planes(world, palette, c)[c' * |world| + i] == palette(world[i], c')
  {
    var n := |world|;
    PlanesLength(world, palette, c - 1);
    PlanesLength(world, palette, c);
    if c' == c - 1 {
      assert Planes(world, palette, c)[c' * n + i] == Channel(world, palette, c - 1)[i];
    } else {
      PlaneAt(world, palette, c - 1, c', i);
    }
  }

  /** `WriteState`: the observation is three colour planes of the room, channel-major; it is refused
      when the observation buffer does not hold three bytes per cell. */
  method WriteState(e: Env, obsSize: int, palette: Palette) returns (r: Result<seq<int>, EnvError>)
    requires WellSized(e)
    ensures r.Err? <==> obsSize != 3 * |e.world|
    ensures r.Err? ==> r.error == ObsSizeMismatch(obsSize, |e.world|)
    ensures r.Ok? ==> |r.value| == 3 * |e.world|
    ensures r.Ok? ==> forall c, i :: 0 <= c < 3 && 0 <= i < |e.world| ==>
                        r.value[c * (e.dim * e.dim) + i] == palette(e.world[i], c)
  {
    if obsSize != 3 * |e.world| {
      return Err(ObsSizeMismatch(obsSize, |e.world|));
    }
    var out: seq<int> := [];
    var rgb := 0;
    while rgb < 3
      invariant 0 <= rgb <= 3
      invariant out == Planes(e.world, palette, rgb)
    {
      var i := 0;
      while i < |e.world|
        invariant 0 <= i <= |e.world|
        invariant out == Planes(e.world, palette, rgb) + Channel(e.world, palette, rgb)[..i]
      {
        assert Channel(e.world, palette, rgb)[..i + 1] == Channel(e.world, palette, rgb)[..i] + [palette(e.world[i], rgb)];
        out := out + [palette(e.world[i], rgb)];
        i := i + 1;
      }
      assert Channel(e.world, palette, rgb)[..i] == Channel(e.world, palette, rgb);
      rgb := rgb + 1;
    }
    PlanesLength(e.world, palette, 3);
    forall c, i | 0 <= c < 3 && 0 <= i < |e.world|
      ensures out[c * (e.dim * e.dim) + i] == palette(e.world[i], c)
    {
      PlaneAt(e.world, palette, 3, c, i);
    }
    r := Ok(out);
  }
}
