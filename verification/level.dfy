/**
  The renderer's level: sectors are rooms whose walls are a run of
  consecutive entries in the wall table, each wall a corner point joined to
  the next one in the run and the last joined back to the first. The level
  shipped with the renderer is one sector of eight walls walked clockwise:
  an 8 by 5 room from (-4, -3) to (4, 2) with a 2 by 2 alcove from (-1, 2)
  to (1, 4) in the middle of its far side, so the room is not convex; the
  player starts at the origin.
 */
module Level {
  import opened Geometry

  datatype Sector = Sector(floorHeight: int, ceilingHeight: int, wallStart: int, wallCount: int)

  datatype Wall = Wall(pos: Vec2, nextSector: int, color: int)

  datatype Scene = Scene(sectors: seq<Sector>, walls: seq<Wall>)

  const COLOR_BLACK := 1
  const COLOR_WHITE := 2
  const COLOR_GRAY := 3
  const COLOR_RED := 4
  const COLOR_BLUE := 5
  const COLOR_GREEN := 6
  const COLOR_YELLOW := 7

  const SECTOR_COUNT := 1
  const WALL_COUNT := 8

  /** No wall of the shipped level leads into another sector. */
  const NO_SECTOR := -1

  const SECTORS: seq<Sector> := [Sector(0, 0, 0, WALL_COUNT)]

  const WALLS: seq<Wall> := [
    Wall(Vec2(-4.0, 2.0), NO_SECTOR, COLOR_RED),
    Wall(Vec2(-1.0, 2.0), NO_SECTOR, COLOR_GREEN),
    Wall(Vec2(-1.0, 4.0), NO_SECTOR, COLOR_BLUE),
    Wall(Vec2(1.0, 4.0), NO_SECTOR, COLOR_GREEN),
    Wall(Vec2(1.0, 2.0), NO_SECTOR, COLOR_RED),
    Wall(Vec2(4.0, 2.0), NO_SECTOR, COLOR_YELLOW),
    Wall(Vec2(4.0, -3.0), NO_SECTOR, COLOR_BLUE),
    Wall(Vec2(-4.0, -3.0), NO_SECTOR, COLOR_YELLOW)
  ]

  const StaticScene := Scene(SECTORS, WALLS)

  /** Sector `s` exists and its run of walls lies inside the wall table. */
  predicate ValidSector(scene: Scene, s: int) {
    && 0 <= s < |scene.sectors|
    && 0 < scene.sectors[s].wallCount
    && 0 <= scene.sectors[s].wallStart
    && scene.sectors[s].wallStart + scene.sectors[s].wallCount <= |scene.walls|
  }

  /** The two wall-table indices joined by one edge of a sector. */
  datatype Edge = Edge(first: int, second: int)

  /**
    Step `k` of the walk round a sector: wall `start + k` joined to its
    successor, which is the next wall of the run or, for the last wall, the
    first one again.
   */
  function RingEdge(sector: Sector, k: int): (e: Edge)
    requires 0 <= k < sector.wallCount
    ensures sector.wallStart <= e.first < sector.wallStart + sector.wallCount
    ensures sector.wallStart <= e.second < sector.wallStart + sector.wallCount
    ensures e.first - sector.wallStart == k
    ensures e.second - sector.wallStart == (k + 1) % sector.wallCount
  {
    Edge(sector.wallStart + k, if k + 1 < sector.wallCount then sector.wallStart + k + 1 else sector.wallStart)
  }

  /** The successor is the next wall of the run, or the first one after the last. */
  lemma RingSuccessor(sector: Sector, k: int)
    requires 0 <= k < sector.wallCount
    ensures RingEdge(sector, k).second == if k + 1 < sector.wallCount then RingEdge(sector, k).first + 1 else sector.wallStart
  {
  }

  /** Consecutive edges share a corner, the last edge included: the walk is a closed ring. */
  lemma RingCloses(sector: Sector, k: int)
    requires 0 <= k < sector.wallCount
    ensures RingEdge(sector, k).second == RingEdge(sector, (k + 1) % sector.wallCount).first
  {
  }

  /** Every wall of the run ends exactly one edge of the ring. */
  lemma RingEndsEachWallOnce(sector: Sector, w: int, k: int)
    requires sector.wallStart <= w < sector.wallStart + sector.wallCount
    requires 0 <= k < sector.wallCount
    ensures RingEdge(sector, k).second == w <==>
      k == (w - sector.wallStart + sector.wallCount - 1) % sector.wallCount
  {
  }

  /** The corner where step `k` of the walk round sector `s` starts. */
  function EdgeFrom(scene: Scene, s: int, k: int): Vec2
    requires ValidSector(scene, s) && 0 <= k < scene.sectors[s].wallCount
  {
    scene.walls[RingEdge(scene.sectors[s], k).first].pos
  }

  /** The corner where step `k` of the walk round sector `s` ends. */
  function EdgeTo(scene: Scene, s: int, k: int): Vec2
    requires ValidSector(scene, s) && 0 <= k < scene.sectors[s].wallCount
  {
    scene.walls[RingEdge(scene.sectors[s], k).second].pos
  }

  /**
    The point `origin` lies strictly on the inner side of the edge from `p1`
    to `p2`: to the right of the edge's direction, which is the inside of a
    clockwise ring.
   */
  predicate Inside(origin: Vec2, p1: Vec2, p2: Vec2) {
    PerpDot(Sub(origin, p1), Sub(p2, p1)) > 0.0
  }

  /** The shipped level is well formed and its one sector owns the whole wall table. */
  lemma StaticSceneValid()
    ensures |SECTORS| == SECTOR_COUNT && |WALLS| == WALL_COUNT
    ensures ValidSector(StaticScene, 0)
    ensures SECTORS[0].wallStart == 0 && SECTORS[0].wallCount == |WALLS|
    ensures forall i :: 0 <= i < |WALLS| ==> WALLS[i].nextSector == NO_SECTOR
  {
  }

  lemma EdgeInside(p1: Vec2, p2: Vec2, a: Vec2, b: Vec2)
    requires a == Sub(Zero, p1) && b == Sub(p2, p1)
    requires a.x * b.y - a.y * b.x > 0.0
    ensures Inside(Zero, p1, p2)
  {
  }

  /**
    The player's starting point, the origin, is inside every edge of the
    shipped sector: it lies within the room.
   */
  lemma OriginInsideStaticRing(k: int)
    requires 0 <= k < WALL_COUNT
    ensures var e := RingEdge(SECTORS[0], k);
      Inside(Zero, WALLS[e.first].pos, WALLS[e.second].pos)
  {
    var e := RingEdge(SECTORS[0], k);
    var p1, p2 := WALLS[e.first].pos, WALLS[e.second].pos;
    if k == 0 {
      assert p1 == Vec2(-4.0, 2.0) && p2 == Vec2(-1.0, 2.0);
      EdgeInside(p1, p2, Vec2(4.0, -2.0), Vec2(3.0, 0.0));
    } else if k == 1 {
      assert p1 == Vec2(-1.0, 2.0) && p2 == Vec2(-1.0, 4.0);
      EdgeInside(p1, p2, Vec2(1.0, -2.0), Vec2(0.0, 2.0));
    } else if k == 2 {
      assert p1 == Vec2(-1.0, 4.0) && p2 == Vec2(1.0, 4.0);
      EdgeInside(p1, p2, Vec2(1.0, -4.0), Vec2(2.0, 0.0));
    } else if k == 3 {
      assert p1 == Vec2(1.0, 4.0) && p2 == Vec2(1.0, 2.0);
      EdgeInside(p1, p2, Vec2(-1.0, -4.0), Vec2(0.0, -2.0));
    } else if k == 4 {
      assert p1 == Vec2(1.0, 2.0) && p2 == Vec2(4.0, 2.0);
      EdgeInside(p1, p2, Vec2(-1.0, -2.0), Vec2(3.0, 0.0));
    } else if k == 5 {
      assert p1 == Vec2(4.0, 2.0) && p2 == Vec2(4.0, -3.0);
      EdgeInside(p1, p2, Vec2(-4.0, -2.0), Vec2(0.0, -5.0));
    } else if k == 6 {
      assert p1 == Vec2(4.0, -3.0) && p2 == Vec2(-4.0, -3.0);
      EdgeInside(p1, p2, Vec2(-4.0, 3.0), Vec2(-8.0, 0.0));
    } else {
      assert p1 == Vec2(-4.0, -3.0) && p2 == Vec2(-4.0, 2.0);
      EdgeInside(p1, p2, Vec2(4.0, 3.0), Vec2(0.0, 5.0));
    }
  }
}
