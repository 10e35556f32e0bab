/** `ObstacleManager::get_obstacle` of `src/obstacles.rs`: the (distance,
    height) signal about the obstacle ahead, as written and as intended. The
    Euclidean distance is a parameter `dist` (a square root is outside the
    model). */
module ObstacleSignal {
  import opened Wrappers
  import opened Vectors
  import opened Constants
  import opened Components
  import Ecs
  import opened ObstaclePool
  import Obstacles

  type Dist = (Vec2, Vec2) -> real


  /** The signal about an obstacle at `p` seen from `dino`. */
  function Signal(dino: Vec2, p: Vec2, dist: Dist): (r: (real, real))
    ensures r.0 == dist(dino, p) && r.1 + GROUND_Y_COORD == p.y
  {
    (dist(dino, p), (GROUND_Y_COORD - p.y) * -1.0)
  }

  /** The slot's entity has a position to read. */
  predicate Positioned(pool: Pool, w: World, j: nat)
    requires Ecs.Valid(w) && j < |pool|
  {
    pool[j].id < w.entitiesCount && GetMovable(w, pool[j].id).Some?
  }

  function PosOf(pool: Pool, w: World, j: nat): Vec2
    requires Ecs.Valid(w) && j < |pool| && Positioned(pool, w, j)
  {
    GetMovable(w, pool[j].id).value.pos
  }

  /** Every active slot from `i` on has a position. */
  predicate ActivePositioned(pool: Pool, w: World, i: nat)
    requires Ecs.Valid(w)
  {
    forall j :: i <= j < |pool| && pool[j].active ==> Positioned(pool, w, j)
  }

  /** The loop as written: the running value `x` starts as the screen width
      and is compared with each obstacle's x coordinate, but what is stored
      into it is a distance. */
  function ScanAsWritten(pool: Pool, w: World, dino: Vec2, dist: Dist, i: nat, x: real, y: real)
    : (r: Result<(real, real)>)
    requires Ecs.Valid(w) && i <= |pool|
    ensures r.Ok? <==> ActivePositioned(pool, w, i)
    decreases |pool| - i
  {
    if i == |pool| then Ok((x, y))
    else if !pool[i].active then ScanAsWritten(pool, w, dino, dist, i + 1, x, y)
    else if pool[i].id >= w.entitiesCount then Panic(IndexOutOfBounds)
    else
      var p :- GetPos(w, pool[i].id);
      if x > p.x then
        var s := Signal(dino, p, dist);
        ScanAsWritten(pool, w, dino, dist, i + 1, s.0, s.1)
      else ScanAsWritten(pool, w, dino, dist, i + 1, x, y)
  }

  function GetObstacleAsWritten(m: Obstacles.ObstacleManager, w: World, e: nat, dist: Dist): (r: Result<(real, real)>)
    requires Live(w, e)
    ensures r.Ok? <==> GetMovable(w, e).Some? && ActivePositioned(m.pool, w, 0)
  {
    var dino :- GetPos(w, e);
    ScanAsWritten(m.pool, w, dino, dist, 0, SCREEN_W, 0.0)
  }

  /** The intended loop: the smallest obstacle x seen so far is kept apart
      from the signal of that obstacle. */
  function ScanNearest(pool: Pool, w: World, dino: Vec2, dist: Dist, i: nat, best: real, x: real, y: real)
    : (r: Result<(real, real)>)
    requires Ecs.Valid(w) && i <= |pool|
    ensures r.Ok? <==> ActivePositioned(pool, w, i)
    ensures r.Ok? ==>
      (r.value == (x, y) &&
        forall j :: i <= j < |pool| && pool[j].active ==> PosOf(pool, w, j).x >= best) ||
      (exists k :: i <= k < |pool| && pool[k].active && PosOf(pool, w, k).x < best &&
        r.value == Signal(dino, PosOf(pool, w, k), dist) &&
        forall j :: i <= j < |pool| && pool[j].active ==> PosOf(pool, w, k).x <= PosOf(pool, w, j).x)
    decreases |pool| - i
  {
    if i == |pool| then Ok((x, y))
    else if !pool[i].active then ScanNearest(pool, w, dino, dist, i + 1, best, x, y)
    else if pool[i].id >= w.entitiesCount then Panic(IndexOutOfBounds)
    else
      var p :- GetPos(w, pool[i].id);
      if best > p.x then
        var s := Signal(dino, p, dist);
        ScanNearest(pool, w, dino, dist, i + 1, p.x, s.0, s.1)
      else ScanNearest(pool, w, dino, dist, i + 1, best, x, y)
  }

  /** The corrected `get_obstacle`: the signal of an active obstacle with the
      smallest x, when one is left of x = screen width; otherwise the
      defaults (screen width, 0). */
  function GetObstacle(m: Obstacles.ObstacleManager, w: World, e: nat, dist: Dist): (r: Result<(real, real)>)
    requires Live(w, e)
    ensures r.Ok? <==> GetMovable(w, e).Some? && ActivePositioned(m.pool, w, 0)
    ensures r.Ok? ==>
      (r.value == (SCREEN_W, 0.0) &&
        forall j :: 0 <= j < |m.pool| && m.pool[j].active ==> PosOf(m.pool, w, j).x >= SCREEN_W) ||
      (exists k :: 0 <= k < |m.pool| && m.pool[k].active && PosOf(m.pool, w, k).x < SCREEN_W &&
        r.value == Signal(GetMovable(w, e).value.pos, PosOf(m.pool, w, k), dist) &&
        forall j :: 0 <= j < |m.pool| && m.pool[j].active ==> PosOf(m.pool, w, k).x <= PosOf(m.pool, w, j).x)
  {
    var dino :- GetPos(w, e);
    ScanNearest(m.pool, w, dino, dist, 0, SCREEN_W, SCREEN_W, 0.0)
  }

  /** A player at (-200, 0) with obstacles at x = 300 (slot 0) and x = 400
      (slot 1), all on the same line. */
  function ExampleWorld(): (w: World)
    ensures Ecs.Valid(w) && w.entitiesCount == 3
  {
    var at := (x: real) => MovableC(Movable(Vec2(x, 0.0), Zero, Zero, false, false));
    Ecs.Store(3, map[MovableKind := [Some(at(-200.0)), Some(at(300.0)), Some(at(400.0))]])
  }

  function ExampleManager(): Obstacles.ObstacleManager {
    Obstacles.ObstacleManager([ObstacleEntry(1, true, 0.0), ObstacleEntry(2, true, 0.0)], 1.0, 0.0, [], 0.0)
  }

  function LineDist(p: Vec2, q: Vec2): real {
    if q.x >= p.x then q.x - p.x else p.x - q.x
  }

  /** As written the signal reports the obstacle at x = 400, 600 away, even
      though the one at x = 300, 500 away, is nearer and further left: after
      the first hit the distance 500 is compared with the coordinate 400. The
      corrected scan reports the nearer one. */
  lemma AsWrittenReportsFartherObstacle()
    ensures GetObstacleAsWritten(ExampleManager(), ExampleWorld(), 0, LineDist) == Ok((600.0, 10.0))
    ensures GetObstacle(ExampleManager(), ExampleWorld(), 0, LineDist) == Ok((500.0, 10.0))
  {
    var w := ExampleWorld();
    var pool := ExampleManager().pool;
    assert GetPos(w, 0) == Ok(Vec2(-200.0, 0.0));
    assert GetPos(w, 1) == Ok(Vec2(300.0, 0.0));
    assert GetPos(w, 2) == Ok(Vec2(400.0, 0.0));
    var dino := Vec2(-200.0, 0.0);
    assert ScanAsWritten(pool, w, dino, LineDist, 2, 600.0, 10.0) == Ok((600.0, 10.0));
    assert ScanAsWritten(pool, w, dino, LineDist, 1, 500.0, 10.0) == Ok((600.0, 10.0));
    assert ScanNearest(pool, w, dino, LineDist, 2, 300.0, 500.0, 10.0) == Ok((500.0, 10.0));
    assert ScanNearest(pool, w, dino, LineDist, 1, 300.0, 500.0, 10.0) == Ok((500.0, 10.0));
  }
}
