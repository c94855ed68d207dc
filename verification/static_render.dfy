/**
  Facts about the shipped level seen from the starting camera: at the
  origin, facing +y.
 */
module StaticRender {
  import opened Results
  import opened Geometry
  import opened Intersect
  import opened Level
  import opened ViewSpace
  import opened Raycaster

  const Up := Vec2(0.0, 1.0)
  const Down := Vec2(0.0, -1.0)

  /** The corners of ring step `k` of the shipped sector are walls `k` and `k + 1`, wrapping to 0. */
  lemma StaticEdge(k: int)
    requires 0 <= k < WALL_COUNT
    ensures ValidSector(StaticScene, 0)
    ensures EdgeFrom(StaticScene, 0, k) == WALLS[k].pos
    ensures EdgeTo(StaticScene, 0, k) == WALLS[(k + 1) % WALL_COUNT].pos
  {
    StaticSceneValid();
  }

  /** The candidate of an edge the ray's origin is inside of, given the edge's intersection with the ray. */
  lemma CandidateFromHit(scene: Scene, s: int, k: int, rayDir: Vec2, playerDir: Vec2, p1: Vec2, p2: Vec2, hit: Intersection)
    requires ValidSector(scene, s) && 0 <= k < scene.sectors[s].wallCount
    requires EdgeFrom(scene, s, k) == p1 && EdgeTo(scene, s, k) == p2
    requires LineRayIntersect(Zero, rayDir, p1, p2) == hit
    requires Inside(Zero, p1, p2)
    ensures EdgeCandidate(scene, s, Zero, rayDir, playerDir, k) ==
      Some(if hit == NoHit then Candidate(-Dot(playerDir, rayDir), -1.0)
           else Candidate(hit.rayDist * Dot(playerDir, rayDir), hit.lineDist))
  {
    var c := EdgeCandidate(scene, s, Zero, rayDir, playerDir, k);
    if hit == NoHit {
      assert c.value == Candidate(-Dot(playerDir, rayDir), -1.0);
    } else {
      assert c.value == Candidate(hit.rayDist * Dot(playerDir, rayDir), hit.lineDist);
    }
  }

  /** The ray straight ahead crosses edge 2, the far wall of the alcove, four units out and halfway along. */
  lemma UpHitsFarWall()
    ensures Inside(Zero, Vec2(-1.0, 4.0), Vec2(1.0, 4.0))
    ensures LineRayIntersect(Zero, Up, Vec2(-1.0, 4.0), Vec2(1.0, 4.0)) == Intersection(4.0, 0.5)
  {
    assert Denominator(Up, Vec2(-1.0, 4.0), Vec2(1.0, 4.0)) == -2.0;
    assert -8.0 / -2.0 == 4.0;
    assert -1.0 / -2.0 == 0.5;
  }

  /** Edge 2 offers the ray straight ahead depth 4, halfway along. */
  lemma FarWallOffer()
    ensures ValidSector(StaticScene, 0)
    ensures EdgeCandidate(StaticScene, 0, Zero, Up, Up, 2) == Some(Candidate(4.0, 0.5))
  {
    UpHitsFarWall();
    StaticEdge(2);
    CandidateFromHit(StaticScene, 0, 2, Up, Up, Vec2(-1.0, 4.0), Vec2(1.0, 4.0), Intersection(4.0, 0.5));
  }

  /** A ray straight ahead runs parallel to a vertical edge, so it misses it. */
  lemma ParallelMiss(dir: Vec2, p1: Vec2, p2: Vec2)
    requires dir == Up && p1.x == p2.x
    ensures LineRayIntersect(Zero, dir, p1, p2) == NoHit
  {
    assert Denominator(dir, p1, p2) == 0.0;
  }

  /**
    A ray straight ahead from the origin meets the line of a horizontal
    edge at ray distance `p1.y`, a fraction `p1.x / (p1.x - p2.x)` of the
    way along the edge; it hits when both lie in range.
   */
  lemma HorizontalCrossing(dir: Vec2, p1: Vec2, p2: Vec2)
    requires dir == Up && p1.y == p2.y && p1.x != p2.x
    ensures var t2 := p1.x / (p1.x - p2.x);
      LineRayIntersect(Zero, dir, p1, p2) ==
        if p1.y >= 0.0 && 0.0 <= t2 <= 1.0 then Intersection(p1.y, t2) else NoHit
  {
    var den := p1.x - p2.x;
    assert Denominator(dir, p1, p2) == den;
    var t1 := PerpDot(Sub(p2, p1), Sub(Zero, p1)) / den;
    assert t1 * den == p1.y * den;
    CancelFactor(t1, p1.y, den);
  }

  /** The ray straight ahead from the start misses every edge of the shipped sector but the alcove's far wall. */
  lemma UpMissesOtherEdges(dir: Vec2, j: int, p1: Vec2, p2: Vec2)
    requires dir == Up && 0 <= j < WALL_COUNT && j != 2
    requires p1 == WALLS[j].pos && p2 == WALLS[(j + 1) % WALL_COUNT].pos
    ensures LineRayIntersect(Zero, dir, p1, p2) == NoHit
  {
    if j == 0 {
      assert p1 == Vec2(-4.0, 2.0) && p2 == Vec2(-1.0, 2.0);
      HorizontalCrossing(dir, p1, p2);
      assert p1.x / (p1.x - p2.x) > 1.0;
    } else if j == 4 {
      assert p1 == Vec2(1.0, 2.0) && p2 == Vec2(4.0, 2.0);
      HorizontalCrossing(dir, p1, p2);
      assert p1.x / (p1.x - p2.x) < 0.0;
    } else if j == 6 {
      assert p1 == Vec2(4.0, -3.0) && p2 == Vec2(-4.0, -3.0);
      HorizontalCrossing(dir, p1, p2);
    } else {
      assert p1.x == p2.x;
      ParallelMiss(dir, p1, p2);
    }
  }

  /** Straight ahead from the start, every edge but the alcove's far wall is missed, and so not eligible. */
  lemma OnlyFarWallEligible(scene: Scene, dir: Vec2, j: int)
    requires scene == StaticScene && ValidSector(scene, 0) && dir == Up
    requires 0 <= j < WALL_COUNT && j != 2
    ensures !Eligible(Candidates(scene, 0, Zero, dir, dir)[j])
  {
    StaticEdge(j);
    UpMissesOtherEdges(dir, j, WALLS[j].pos, WALLS[(j + 1) % WALL_COUNT].pos);
    MissNotEligible(scene, 0, Zero, dir, dir, j);
  }

  /** Straight ahead from the start, the alcove's far wall is the one eligible edge, at depth 4 and position 0.5. */
  lemma FarWallOnlyOffer(scene: Scene, dir: Vec2)
    requires scene == StaticScene && ValidSector(scene, 0) && dir == Up
    ensures OnlyEligible(Candidates(scene, 0, Zero, dir, dir), 2)
    ensures Candidates(scene, 0, Zero, dir, dir)[2] == Some(Candidate(4.0, 0.5))
  {
    StaticSceneValid();
    assert scene.sectors[0].wallCount == WALL_COUNT;
    forall j | 0 <= j < scene.sectors[0].wallCount && j != 2
      ensures !Eligible(Candidates(scene, 0, Zero, dir, dir)[j])
    {
      OnlyFarWallEligible(scene, dir, j);
    }
    FarWallOffer();
  }

  /** The ray straight ahead crosses edge 2 of the shipped sector four units out, halfway along. */
  lemma FarWallHit(scene: Scene, dir: Vec2)
    requires scene == StaticScene && ValidSector(scene, 0) && dir == Up
    ensures LineRayIntersect(Zero, dir, EdgeFrom(scene, 0, 2), EdgeTo(scene, 0, 2)) == Intersection(4.0, 0.5)
  {
    StaticEdge(2);
    UpHitsFarWall();
  }

  /**
    Looking straight ahead from the start, the raycast draws the alcove's
    far wall (edge 2), at depth 4, sampled halfway along.
   */
  lemma CenterRayDrawsFarWall(scene: Scene, dir: Vec2, x: int, height: int, col: Column)
    requires height >= 0
    requires scene == StaticScene && ValidSector(scene, 0) && dir == Up
    requires ColumnSpec(scene, 0, x, Zero, dir, dir, height, col)
    ensures col.closest == 2 && col.wallDist == 4.0 && col.lineDist == 0.5
    ensures LineRayIntersect(Zero, dir, EdgeFrom(scene, 0, col.closest), EdgeTo(scene, 0, col.closest)) == Intersection(4.0, 0.5)
  {
    FarWallOnlyOffer(scene, dir);
    OnlyEligibleDrawn(scene, 0, x, Zero, dir, dir, height, col, 2);
    FarWallHit(scene, dir);
  }

  /** The ray straight behind misses edge 0, which the origin is inside of. */
  lemma DownMissesEdge0()
    ensures Inside(Zero, Vec2(-4.0, 2.0), Vec2(-1.0, 2.0))
    ensures LineRayIntersect(Zero, Down, Vec2(-4.0, 2.0), Vec2(-1.0, 2.0)) == NoHit
  {
  }

  /** Edge 0 offers the ray straight behind depth 1 at position -1. */
  lemma BackwardOfferOfEdge0()
    ensures ValidSector(StaticScene, 0)
    ensures EdgeCandidate(StaticScene, 0, Zero, Down, Up, 0) == Some(Candidate(1.0, -1.0))
  {
    DownMissesEdge0();
    StaticEdge(0);
    CandidateFromHit(StaticScene, 0, 0, Down, Up, Vec2(-4.0, 2.0), Vec2(-1.0, 2.0), NoHit);
  }

  /**
    A ray cast straight behind a player facing +y selects edge 0, which it
    never crosses: the miss sentinel gives that edge depth 1.
   */
  lemma BackwardRaySelectsMissedEdge(scene: Scene, x: int, height: int, col: Column)
    requires height >= 0
    requires scene == StaticScene && ValidSector(scene, 0)
    requires ColumnSpec(scene, 0, x, Zero, Down, Up, height, col)
    ensures col.closest == 0 && col.wallDist == 1.0 && col.lineDist == -1.0
    ensures LineRayIntersect(Zero, Down, EdgeFrom(scene, 0, 0), EdgeTo(scene, 0, 0)) == NoHit
  {
    var cs := Candidates(scene, 0, Zero, Down, Up);
    assert Eligible(cs[0]) by {
      BackwardOfferOfEdge0();
    }
    assert Dot(Up, Down) == -1.0;
    assert col.closest != -1;
    BackwardColumnDrawsMissedEdge(scene, 0, x, Zero, Down, Up, height, col);
    BackwardEligibleAreMisses(scene, 0, Zero, Down, Up, 0);
  }

  /** On a canvas an even number of columns wide, the middle column's ray is the facing direction. */
  lemma MiddleColumnLooksAhead(dir: Vec2, m: int)
    requires m > 0
    ensures FrameRay(dir, m, 2 * m) == dir
  {
    var q := m as real / (2 * m) as real;
    assert q * (2 * m) as real == m as real;
    CancelFactor(q, 0.5, (2 * m) as real);
    assert CameraX(m, 2 * m) == 0.0;
  }

  /**
    In the first frame, the column whose ray is the facing direction (the
    middle one, by `MiddleColumnLooksAhead`), normalised by any positive
    factor, draws the alcove's far wall at depth 4, sampled halfway along.
   */
  lemma FirstFrameMiddleColumn(scene: Scene, x: int, height: int, k: real, playerDir: Vec2, rayDir: Vec2, col: Column)
    requires height >= 0 && k > 0.0
    requires scene == StaticScene && ValidSector(scene, 0) && playerDir == InitialCamera.dir
    requires rayDir == Mul(playerDir, k)
    requires ColumnSpec(scene, 0, x, Zero, rayDir, playerDir, height, col)
    ensures col.closest == 2 && col.wallDist == 4.0 && col.lineDist == 0.5
    ensures LineRayIntersect(Zero, rayDir, EdgeFrom(scene, 0, col.closest), EdgeTo(scene, 0, col.closest)) == Intersection(4.0 / k, 0.5)
  {
    assert playerDir == Up;
    ScaledColumnSpec(scene, 0, x, Zero, playerDir, playerDir, height, col, k);
    CenterRayDrawsFarWall(scene, playerDir, x, height, col);
    IntersectScaled(Zero, playerDir, EdgeFrom(scene, 0, 2), EdgeTo(scene, 0, 2), k);
  }
}
