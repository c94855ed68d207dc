/**
  The per-column raycast. For screen column `x` the renderer walks the
  edges of the starting sector in ring order; for every edge whose inner
  side holds the ray's origin it intersects the ray with the edge and
  measures the depth `dot(player_dir, ray_dir * ray_dist)` along the facing
  direction. The edge with the smallest depth in (0, 99999.9) wins, the
  first one on a tie, and a vertical strip whose height is inversely
  proportional to that depth is drawn centred on the canvas.

  A ray that misses an edge it is inside of still produces a depth: the
  miss sentinel's ray distance -1 gives `-dot(player_dir, ray_dir)`. For the
  forward rays the renderer casts this is negative and the edge is never
  chosen; for a backward ray it is positive and a missed edge can win.
 */
module Raycaster {
  import opened Results
  import opened Geometry
  import opened Intersect
  import opened Level
  import opened ViewSpace

  /** The initial "no wall" depth; only nearer walls are drawn. */
  const NO_WALL_DIST: real := 99999.9

  /** What one edge offers a ray: its depth and the hit position along the edge. */
  datatype Candidate = Candidate(depth: real, lineDist: real)

  /** One raycast's outcome: the winning ring step (-1 for none), its depth and position, and the canvas rows drawn. */
  datatype Column = Column(x: int, closest: int, wallDist: real, lineDist: real, rows: seq<int>)

  /**
    The candidate of ring step `k`: none when the ray starts outside the
    edge; otherwise the depth of the intersection, or of the miss sentinel.
   */
  function EdgeCandidate(scene: Scene, s: int, rayPos: Vec2, rayDir: Vec2, playerDir: Vec2, k: int): (c: Option<Candidate>)
    requires ValidSector(scene, s) && 0 <= k < scene.sectors[s].wallCount
    ensures c.Some? <==> Inside(rayPos, EdgeFrom(scene, s, k), EdgeTo(scene, s, k))
    ensures c.Some? ==>
      var hit := LineRayIntersect(rayPos, rayDir, EdgeFrom(scene, s, k), EdgeTo(scene, s, k));
      if hit == NoHit then c.value == Candidate(-Dot(playerDir, rayDir), -1.0)
      else c.value == Candidate(hit.rayDist * Dot(playerDir, rayDir), hit.lineDist)
  {
    var p1 := EdgeFrom(scene, s, k);
    var p2 := EdgeTo(scene, s, k);
    if Inside(rayPos, p1, p2) then
      var hit := LineRayIntersect(rayPos, rayDir, p1, p2);
      DotScale(playerDir, rayDir, hit.rayDist);
      Some(Candidate(Dot(playerDir, Mul(rayDir, hit.rayDist)), hit.lineDist))
    else
      None
  }

  /** The candidates of all ring steps of sector `s`, in walk order. */
  function Candidates(scene: Scene, s: int, rayPos: Vec2, rayDir: Vec2, playerDir: Vec2): (cs: seq<Option<Candidate>>)
    requires ValidSector(scene, s)
    ensures |cs| == scene.sectors[s].wallCount
    ensures forall k :: 0 <= k < |cs| ==> cs[k] == EdgeCandidate(scene, s, rayPos, rayDir, playerDir, k)
  {
    seq(scene.sectors[s].wallCount, k requires 0 <= k < scene.sectors[s].wallCount =>
      EdgeCandidate(scene, s, rayPos, rayDir, playerDir, k))
  }

  /** A candidate that can be drawn: in front of the player and nearer than the "no wall" depth. */
  predicate Eligible(c: Option<Candidate>) {
    c.Some? && 0.0 < c.value.depth < NO_WALL_DIST
  }

  predicate NoneEligible(cs: seq<Option<Candidate>>, n: int)
    requires 0 <= n <= |cs|
  {
    forall j :: 0 <= j < n ==> !Eligible(cs[j])
  }

  /**
    Among the first `n` candidates, `i` is the nearest eligible one and the
    first of the nearest: every eligible candidate before it is strictly
    deeper and every one after it is at least as deep.
   */
  predicate NearestAmong(cs: seq<Option<Candidate>>, n: int, i: int) {
    && 0 <= i < n <= |cs|
    && Eligible(cs[i])
    && (forall j :: 0 <= j < i && Eligible(cs[j]) ==> cs[j].value.depth > cs[i].value.depth)
    && (forall j :: i < j < n && Eligible(cs[j]) ==> cs[j].value.depth >= cs[i].value.depth)
  }

  predicate IsNearest(cs: seq<Option<Candidate>>, i: int) {
    NearestAmong(cs, |cs|, i)
  }

  /** At most one candidate is the nearest. */
  lemma NearestUnique(cs: seq<Option<Candidate>>, i: int, j: int)
    requires IsNearest(cs, i) && IsNearest(cs, j)
    ensures i == j
  {
  }

  /** The nearest candidate is the minimum depth among the eligible ones. */
  lemma NearestIsMinimum(cs: seq<Option<Candidate>>, i: int, j: int)
    requires IsNearest(cs, i) && 0 <= j < |cs| && Eligible(cs[j])
    ensures cs[i].value.depth <= cs[j].value.depth
  {
  }

  /** Height in rows of the strip for a wall at depth `dist` on a canvas `height` rows high, truncated to an integer. */
  function StripHeight(dist: real, height: int): (h: int)
    requires dist > 0.0 && height >= 0
    ensures h >= 0
    ensures h as real * dist <= 2.0 * height as real < (h + 1) as real * dist
  {
    var v := (1.0 / dist) * (height as real) * 2.0;
    assert 1.0 / dist > 0.0;
    assert v >= 0.0 by {
      if height > 0 {
        MulPositive(1.0 / dist, height as real);
      }
    }
    v.Floor
  }

  /** Nearer walls give strips at least as tall. */
  lemma NearerIsTaller(d1: real, d2: real, height: int)
    requires 0.0 < d1 <= d2 && height >= 0
    ensures StripHeight(d1, height) >= StripHeight(d2, height)
  {
    var i1, i2 := 1.0 / d1, 1.0 / d2;
    assert i1 * d1 == 1.0 && i2 * d2 == 1.0;
    assert i1 > 0.0 && i2 > 0.0;
    assert i1 - i2 == (d2 - d1) * i1 * i2;
    if d2 > d1 {
      MulPositive(d2 - d1, i1);
      MulPositive((d2 - d1) * i1, i2);
    }
    assert i1 * (height as real) >= i2 * (height as real) by {
      if height > 0 && i1 > i2 {
        MulPositive(i1 - i2, height as real);
      }
    }
  }

  /** First canvas row of a strip `h` rows tall: the strip is centred on the canvas, up to rounding. */
  function StripStart(h: int, height: int): (start: int)
    requires h >= 0 && height >= 0
    ensures height - 1 <= 2 * start + h <= height + 1
  {
    height / 2 - h / 2
  }

  function Max(a: int, b: int): int {
    if a >= b then a else b
  }

  function Min(a: int, b: int): int {
    if a <= b then a else b
  }

  /** The integers from `lo` up to but not including `hi`, in order; empty when `hi <= lo`. */
  function Interval(lo: int, hi: int): (r: seq<int>)
    ensures |r| == Max(hi - lo, 0)
    ensures forall i :: 0 <= i < |r| ==> r[i] == lo + i
  {
    seq(Max(hi - lo, 0), i => lo + i)
  }

  lemma IntervalMembers(lo: int, hi: int)
    ensures forall py :: py in Interval(lo, hi) <==> lo <= py < hi
  {
    var r := Interval(lo, hi);
    forall py | lo <= py < hi
      ensures py in r
    {
      assert r[py - lo] == py;
    }
  }

  lemma IntervalExtend(lo: int, hi: int)
    requires lo <= hi
    ensures Interval(lo, hi + 1) == Interval(lo, hi) + [hi]
  {
    assert |Interval(lo, hi + 1)| == |Interval(lo, hi) + [hi]|;
  }

  /**
    The rows a strip of `h` rows starting at `start` paints: row `start + y`
    for every `y` below `h`, skipping rows above the canvas and rows below
    `height`. Row `height` itself is not skipped: the source's test is
    `py > PUN_CANVAS_HEIGHT`, so a tall enough strip reaches one row past
    the last row of the canvas.
   */
  method StripRows(start: int, h: int, height: int) returns (rows: seq<int>)
    requires h >= 0 && height >= 0
    ensures rows == Interval(Max(start, 0), Min(start + h, height + 1))
    ensures forall py :: py in rows <==> start <= py < start + h && 0 <= py <= height
  {
    rows := [];
    var y := 0;
    while y < h
      invariant 0 <= y <= h
      invariant rows == Interval(Max(start, 0), Min(start + y, height + 1))
    {
      var py := start + y;
      if py < 0 || py > height {
        y := y + 1;
        continue;
      }
      IntervalExtend(Max(start, 0), py);
      rows := rows + [py];
      y := y + 1;
    }
    IntervalMembers(Max(start, 0), Min(start + h, height + 1));
  }

  /** A strip at least two rows taller than the canvas covers every row from 0 to `height` inclusive. */
  lemma TallStripCoversCanvas(h: int, height: int)
    requires height >= 0 && h >= height + 2
    ensures var start := StripStart(h, height);
      Interval(Max(start, 0), Min(start + h, height + 1)) == Interval(0, height + 1)
  {
  }

  /** The full outcome the raycast of column `x` promises. */
  ghost predicate ColumnSpec(scene: Scene, s: int, x: int, rayPos: Vec2, rayDir: Vec2, playerDir: Vec2, height: int, col: Column)
    requires ValidSector(scene, s) && height >= 0
  {
    var cs := Candidates(scene, s, rayPos, rayDir, playerDir);
    && col.x == x
    && (col.closest == -1 <==> NoneEligible(cs, |cs|))
    && (col.closest == -1 ==> col.wallDist == NO_WALL_DIST && col.lineDist == 0.0 && col.rows == [])
    && (col.closest != -1 ==>
          && IsNearest(cs, col.closest)
          && cs[col.closest].value == Candidate(col.wallDist, col.lineDist)
          && var h := StripHeight(col.wallDist, height);
             var start := StripStart(h, height);
             && col.rows == Interval(Max(start, 0), Min(start + h, height + 1))
             && forall py :: py in col.rows <==> start <= py < start + h && 0 <= py <= height)
  }

  /**
    `raycast`: walk the ring of sector `s`, keep the nearest eligible edge
    and compute the rows of its strip.
   */
  method Raycast(scene: Scene, s: int, x: int, rayPos: Vec2, rayDir: Vec2, playerDir: Vec2, height: int)
    returns (col: Column)
    requires ValidSector(scene, s) && height >= 0
    ensures ColumnSpec(scene, s, x, rayPos, rayDir, playerDir, height, col)
  {
    var sector := scene.sectors[s];
    ghost var cs := Candidates(scene, s, rayPos, rayDir, playerDir);
    var wallDist := NO_WALL_DIST;
    var interpolation := 0.0;
    var closest := -1;
    var wall := 0;
    while wall < sector.wallCount
      invariant 0 <= wall <= sector.wallCount
      invariant -1 <= closest < wall
      invariant forall j :: 0 <= j < wall && Eligible(cs[j]) ==> cs[j].value.depth >= wallDist
      invariant closest == -1 ==> NoneEligible(cs, wall) && wallDist == NO_WALL_DIST && interpolation == 0.0
      invariant closest >= 0 ==> NearestAmong(cs, wall, closest) && cs[closest].value == Candidate(wallDist, interpolation)
    {
      var e := RingEdge(sector, wall);
      var p1 := scene.walls[e.first].pos;
      var p2 := scene.walls[e.second].pos;
      assert cs[wall] == EdgeCandidate(scene, s, rayPos, rayDir, playerDir, wall);
      if PerpDot(Sub(rayPos, p1), Sub(p2, p1)) > 0.0 {
        var hit := LineRayIntersect(rayPos, rayDir, p1, p2);
        var dist := Dot(playerDir, Mul(rayDir, hit.rayDist));
        if dist > 0.0 && dist < wallDist {
          closest := wall;
          wallDist := dist;
          interpolation := hit.lineDist;
        }
      }
      wall := wall + 1;
    }
    var rows := [];
    if closest >= 0 {
      var h := StripHeight(wallDist, height);
      var start := StripStart(h, height);
      rows := StripRows(start, h, height);
    }
    col := Column(x, closest, wallDist, interpolation, rows);
  }

  /**
    For a ray pointing forwards, an eligible candidate is a real crossing
    of the ray and the edge, in front of the ray's origin.
   */
  lemma EligibleMeansHit(scene: Scene, s: int, rayPos: Vec2, rayDir: Vec2, playerDir: Vec2, k: int)
    requires ValidSector(scene, s) && 0 <= k < scene.sectors[s].wallCount
    requires Dot(playerDir, rayDir) > 0.0
    requires Eligible(Candidates(scene, s, rayPos, rayDir, playerDir)[k])
    ensures var hit := LineRayIntersect(rayPos, rayDir, EdgeFrom(scene, s, k), EdgeTo(scene, s, k));
      && hit != NoHit
      && hit.rayDist > 0.0
      && Meets(rayPos, rayDir, EdgeFrom(scene, s, k), EdgeTo(scene, s, k), hit.rayDist, hit.lineDist)
  {
    var p1, p2 := EdgeFrom(scene, s, k), EdgeTo(scene, s, k);
    var hit := LineRayIntersect(rayPos, rayDir, p1, p2);
    var c := EdgeCandidate(scene, s, rayPos, rayDir, playerDir, k);
    assert c.Some?;
    if hit == NoHit {
      assert false;
    }
    assert c.value.depth == hit.rayDist * Dot(playerDir, rayDir);
    HitMeets(rayPos, rayDir, p1, p2);
  }

  /**
    When some edge offers a forward ray an eligible depth within `bound`,
    the column draws a wall no deeper than `bound` that the ray crosses.
   */
  lemma ForwardColumnWithin(scene: Scene, s: int, x: int, rayPos: Vec2, rayDir: Vec2, playerDir: Vec2, height: int, col: Column, k: int, bound: real)
    requires ValidSector(scene, s) && height >= 0 && 0 <= k < scene.sectors[s].wallCount
    requires ColumnSpec(scene, s, x, rayPos, rayDir, playerDir, height, col)
    requires Dot(playerDir, rayDir) > 0.0
    requires Eligible(Candidates(scene, s, rayPos, rayDir, playerDir)[k])
    requires Candidates(scene, s, rayPos, rayDir, playerDir)[k].value.depth <= bound
    ensures col.closest != -1
    ensures 0.0 < col.wallDist <= bound
    ensures LineRayIntersect(rayPos, rayDir, EdgeFrom(scene, s, col.closest), EdgeTo(scene, s, col.closest)) != NoHit
  {
    var cs := Candidates(scene, s, rayPos, rayDir, playerDir);
    assert !NoneEligible(cs, |cs|);
    NearestIsMinimum(cs, col.closest, k);
    EligibleMeansHit(scene, s, rayPos, rayDir, playerDir, col.closest);
  }

  /** A forward ray's missed edge is never eligible: its sentinel depth is negative. */
  lemma MissNotEligible(scene: Scene, s: int, rayPos: Vec2, rayDir: Vec2, playerDir: Vec2, k: int)
    requires ValidSector(scene, s) && 0 <= k < scene.sectors[s].wallCount
    requires Dot(playerDir, rayDir) > 0.0
    requires LineRayIntersect(rayPos, rayDir, EdgeFrom(scene, s, k), EdgeTo(scene, s, k)) == NoHit
    ensures !Eligible(Candidates(scene, s, rayPos, rayDir, playerDir)[k])
  {
  }

  /** Candidate `i` is eligible and no other one is. */
  predicate OnlyEligible(cs: seq<Option<Candidate>>, i: int) {
    && 0 <= i < |cs|
    && Eligible(cs[i])
    && forall j :: 0 <= j < |cs| && j != i ==> !Eligible(cs[j])
  }

  /** When exactly one edge is eligible, the column draws that edge, at its depth and position. */
  lemma OnlyEligibleDrawn(scene: Scene, s: int, x: int, rayPos: Vec2, rayDir: Vec2, playerDir: Vec2, height: int, col: Column, i: int)
    requires ValidSector(scene, s) && height >= 0
    requires ColumnSpec(scene, s, x, rayPos, rayDir, playerDir, height, col)
    requires OnlyEligible(Candidates(scene, s, rayPos, rayDir, playerDir), i)
    ensures col.closest == i
    ensures Candidates(scene, s, rayPos, rayDir, playerDir)[i].value == Candidate(col.wallDist, col.lineDist)
  {
    var cs := Candidates(scene, s, rayPos, rayDir, playerDir);
    assert !NoneEligible(cs, |cs|);
  }

  /** Scaling the ray of a hit by a positive factor scales its ray distance inversely. */
  lemma HitScaled(rayPos: Vec2, rayDir: Vec2, p1: Vec2, p2: Vec2, k: real)
    requires k > 0.0 && LineRayIntersect(rayPos, rayDir, p1, p2) != NoHit
    ensures var hit := LineRayIntersect(rayPos, rayDir, p1, p2);
      LineRayIntersect(rayPos, Mul(rayDir, k), p1, p2) == Intersection(hit.rayDist / k, hit.lineDist)
  {
    var hit := LineRayIntersect(rayPos, rayDir, p1, p2);
    var t := hit.rayDist;
    HitMeets(rayPos, rayDir, p1, p2);
    assert Denominator(Mul(rayDir, k), p1, p2) == k * Denominator(rayDir, p1, p2);
    assert k * (t / k) == t;
    assert Mul(Mul(rayDir, k), t / k) == Mul(rayDir, t);
    MeetingHits(rayPos, Mul(rayDir, k), p1, p2, t / k, hit.lineDist);
  }

  /** Scaling the ray by a positive factor scales the ray distance of a hit inversely and keeps misses missing. */
  lemma IntersectScaled(rayPos: Vec2, rayDir: Vec2, p1: Vec2, p2: Vec2, k: real)
    requires k > 0.0
    ensures var hit := LineRayIntersect(rayPos, rayDir, p1, p2);
      var scaled := LineRayIntersect(rayPos, Mul(rayDir, k), p1, p2);
      if hit == NoHit then scaled == NoHit
      else scaled == Intersection(hit.rayDist / k, hit.lineDist)
  {
    var hit := LineRayIntersect(rayPos, rayDir, p1, p2);
    var scaled := LineRayIntersect(rayPos, Mul(rayDir, k), p1, p2);
    if hit != NoHit {
      HitScaled(rayPos, rayDir, p1, p2, k);
    } else if scaled != NoHit {
      assert Mul(Mul(rayDir, k), 1.0 / k) == rayDir;
      HitScaled(rayPos, Mul(rayDir, k), p1, p2, 1.0 / k);
      assert false;
    }
  }

  lemma ScaledHitCandidate(scene: Scene, s: int, rayPos: Vec2, rayDir: Vec2, playerDir: Vec2, k: real, j: int)
    requires ValidSector(scene, s) && 0 <= j < scene.sectors[s].wallCount
    requires k > 0.0
    requires Inside(rayPos, EdgeFrom(scene, s, j), EdgeTo(scene, s, j))
    requires LineRayIntersect(rayPos, rayDir, EdgeFrom(scene, s, j), EdgeTo(scene, s, j)) != NoHit
    ensures EdgeCandidate(scene, s, rayPos, Mul(rayDir, k), playerDir, j) == EdgeCandidate(scene, s, rayPos, rayDir, playerDir, j)
  {
    var p1, p2 := EdgeFrom(scene, s, j), EdgeTo(scene, s, j);
    var hit := LineRayIntersect(rayPos, rayDir, p1, p2);
    HitScaled(rayPos, rayDir, p1, p2, k);
    DotScale(playerDir, rayDir, k);
    var t := hit.rayDist;
    var scaled := LineRayIntersect(rayPos, Mul(rayDir, k), p1, p2);
    assert scaled == Intersection(t / k, hit.lineDist);
    assert t / k >= 0.0;
    assert scaled != NoHit;
    var c := EdgeCandidate(scene, s, rayPos, rayDir, playerDir, j);
    var c' := EdgeCandidate(scene, s, rayPos, Mul(rayDir, k), playerDir, j);
    var along, alongScaled := Dot(playerDir, rayDir), Dot(playerDir, Mul(rayDir, k));
    assert c.value == Candidate(t * along, hit.lineDist);
    assert c'.value == Candidate((t / k) * alongScaled, hit.lineDist);
    assert alongScaled == k * along;
    assert (t / k) * alongScaled == (t / k) * (k * along);
    assert (t / k) * (k * along) == t * along;
    assert c'.value == c.value;
  }

  lemma ScaledMissCandidate(scene: Scene, s: int, rayPos: Vec2, rayDir: Vec2, playerDir: Vec2, k: real, j: int)
    requires ValidSector(scene, s) && 0 <= j < scene.sectors[s].wallCount
    requires k > 0.0 && Dot(playerDir, rayDir) > 0.0
    requires Inside(rayPos, EdgeFrom(scene, s, j), EdgeTo(scene, s, j))
    requires LineRayIntersect(rayPos, rayDir, EdgeFrom(scene, s, j), EdgeTo(scene, s, j)) == NoHit
    ensures !Eligible(EdgeCandidate(scene, s, rayPos, rayDir, playerDir, j))
    ensures !Eligible(EdgeCandidate(scene, s, rayPos, Mul(rayDir, k), playerDir, j))
  {
    var p1, p2 := EdgeFrom(scene, s, j), EdgeTo(scene, s, j);
    IntersectScaled(rayPos, rayDir, p1, p2, k);
    DotScale(playerDir, rayDir, k);
    MulPositive(k, Dot(playerDir, rayDir));
  }

  /**
    For a forward ray, rescaling the ray by a positive factor (as
    normalising it does) changes neither which candidates are eligible nor
    their depths and positions.
   */
  lemma ScaledCandidate(scene: Scene, s: int, rayPos: Vec2, rayDir: Vec2, playerDir: Vec2, k: real, j: int)
    requires ValidSector(scene, s) && 0 <= j < scene.sectors[s].wallCount
    requires k > 0.0 && Dot(playerDir, rayDir) > 0.0
    ensures var c := EdgeCandidate(scene, s, rayPos, rayDir, playerDir, j);
      var c' := EdgeCandidate(scene, s, rayPos, Mul(rayDir, k), playerDir, j);
      && (Eligible(c) <==> Eligible(c'))
      && (Eligible(c) ==> c == c')
  {
    var p1, p2 := EdgeFrom(scene, s, j), EdgeTo(scene, s, j);
    if Inside(rayPos, p1, p2) {
      if LineRayIntersect(rayPos, rayDir, p1, p2) == NoHit {
        ScaledMissCandidate(scene, s, rayPos, rayDir, playerDir, k, j);
      } else {
        ScaledHitCandidate(scene, s, rayPos, rayDir, playerDir, k, j);
      }
    }
  }

  /** Rescaling a forward ray by a positive factor selects the same edge with the same depth and position. */
  lemma ScaledRaySameNearest(scene: Scene, s: int, rayPos: Vec2, rayDir: Vec2, playerDir: Vec2, k: real, i: int)
    requires ValidSector(scene, s)
    requires k > 0.0 && Dot(playerDir, rayDir) > 0.0
    ensures var cs := Candidates(scene, s, rayPos, rayDir, playerDir);
      var cs' := Candidates(scene, s, rayPos, Mul(rayDir, k), playerDir);
      && (NoneEligible(cs, |cs|) <==> NoneEligible(cs', |cs'|))
      && (IsNearest(cs, i) <==> IsNearest(cs', i))
      && (IsNearest(cs, i) ==> cs[i] == cs'[i])
  {
    var cs := Candidates(scene, s, rayPos, rayDir, playerDir);
    var cs' := Candidates(scene, s, rayPos, Mul(rayDir, k), playerDir);
    forall j | 0 <= j < |cs|
      ensures (Eligible(cs[j]) <==> Eligible(cs'[j])) && (Eligible(cs[j]) ==> cs[j] == cs'[j])
    {
      ScaledCandidate(scene, s, rayPos, rayDir, playerDir, k, j);
    }
  }

  /**
    Rescaling a forward ray by a positive factor keeps every column
    outcome: a column meets the raycast's promise for the ray exactly when
    it meets it for the rescaled ray.
   */
  lemma ScaledColumnSpec(scene: Scene, s: int, x: int, rayPos: Vec2, rayDir: Vec2, playerDir: Vec2, height: int, col: Column, k: real)
    requires ValidSector(scene, s) && height >= 0
    requires k > 0.0 && Dot(playerDir, rayDir) > 0.0
    ensures ColumnSpec(scene, s, x, rayPos, rayDir, playerDir, height, col) <==>
            ColumnSpec(scene, s, x, rayPos, Mul(rayDir, k), playerDir, height, col)
  {
    ScaledRaySameNearest(scene, s, rayPos, rayDir, playerDir, k, col.closest);
  }

  /** The ray `step` casts through column `x`, before normalisation. */
  function FrameRay(dir: Vec2, x: int, width: int): Vec2
    requires 0 <= x < width
  {
    ColumnRay(Camera(Zero, dir, CameraPlane(dir)), CameraX(x, width))
  }

  /**
    The column loop of `step`: one raycast per column from the player's
    position, through the camera plane recomputed from the facing
    direction, starting in sector 0. The rays are cast unnormalised; for a
    non-zero facing direction each column also meets the raycast's promise
    for its ray rescaled by any positive factor, so normalising changes no
    column's outcome.
   */
  method RenderFrame(scene: Scene, pos: Vec2, dir: Vec2, width: int, height: int) returns (cols: seq<Column>)
    requires ValidSector(scene, 0) && width >= 0 && height >= 0
    ensures |cols| == width
    ensures forall x :: 0 <= x < width ==> ColumnSpec(scene, 0, x, pos, FrameRay(dir, x, width), dir, height, cols[x])
    ensures Dot(dir, dir) > 0.0 ==>
      forall x, k :: 0 <= x < width && k > 0.0 ==> ColumnSpec(scene, 0, x, pos, Mul(FrameRay(dir, x, width), k), dir, height, cols[x])
  {
    cols := [];
    var x := 0;
    while x < width
      invariant 0 <= x <= width && |cols| == x
      invariant forall i :: 0 <= i < x ==> ColumnSpec(scene, 0, i, pos, FrameRay(dir, i, width), dir, height, cols[i])
    {
      var col := Raycast(scene, 0, x, pos, FrameRay(dir, x, width), dir, height);
      cols := cols + [col];
      x := x + 1;
    }
    if Dot(dir, dir) > 0.0 {
      forall x, k | 0 <= x < width && k > 0.0
        ensures ColumnSpec(scene, 0, x, pos, Mul(FrameRay(dir, x, width), k), dir, height, cols[x])
      {
        var ray := FrameRay(dir, x, width);
        ColumnRayForward(Zero, dir, x, width, 1.0);
        assert Mul(ray, 1.0) == ray;
        ScaledColumnSpec(scene, 0, x, pos, ray, dir, height, cols[x], k);
      }
    }
  }

  /**
    Every wall a frame draws is really crossed by its column's ray, in
    front of the player, at a position within the wall; this holds for the
    ray rescaled by any positive factor, the normalised one included.
   */
  lemma FrameDrawsOnlyHits(scene: Scene, pos: Vec2, dir: Vec2, x: int, width: int, height: int, k: real, col: Column)
    requires ValidSector(scene, 0) && height >= 0 && 0 <= x < width
    requires Dot(dir, dir) > 0.0 && k > 0.0
    requires ColumnSpec(scene, 0, x, pos, Mul(FrameRay(dir, x, width), k), dir, height, col)
    requires col.closest != -1
    ensures var hit := LineRayIntersect(pos, Mul(FrameRay(dir, x, width), k), EdgeFrom(scene, 0, col.closest), EdgeTo(scene, 0, col.closest));
      && hit != NoHit
      && hit.rayDist > 0.0
      && col.lineDist == hit.lineDist
      && 0.0 <= col.lineDist <= 1.0
  {
    var ray := Mul(FrameRay(dir, x, width), k);
    ColumnRayForward(Zero, dir, x, width, k);
    var cs := Candidates(scene, 0, pos, ray, dir);
    EligibleMeansHit(scene, 0, pos, ray, dir, col.closest);
  }

  /**
    For a ray pointing backwards, the only eligible candidates are edges
    the ray misses: each has the same depth `-dot(player_dir, ray_dir)` and
    the miss sentinel's position -1.
   */
  lemma BackwardEligibleAreMisses(scene: Scene, s: int, rayPos: Vec2, rayDir: Vec2, playerDir: Vec2, k: int)
    requires ValidSector(scene, s) && 0 <= k < scene.sectors[s].wallCount
    requires Dot(playerDir, rayDir) < 0.0
    requires Eligible(Candidates(scene, s, rayPos, rayDir, playerDir)[k])
    ensures LineRayIntersect(rayPos, rayDir, EdgeFrom(scene, s, k), EdgeTo(scene, s, k)) == NoHit
    ensures Candidates(scene, s, rayPos, rayDir, playerDir)[k].value == Candidate(-Dot(playerDir, rayDir), -1.0)
  {
    var hit := LineRayIntersect(rayPos, rayDir, EdgeFrom(scene, s, k), EdgeTo(scene, s, k));
    if hit != NoHit {
      if hit.rayDist > 0.0 {
        MulPositive(hit.rayDist, -Dot(playerDir, rayDir));
      }
      assert false;
    }
  }

  /**
    A column cast backwards that draws anything draws an edge its ray
    never crosses: the first eligible edge in ring order, at depth
    `-dot(player_dir, ray_dir)`, sampled at position -1.
   */
  lemma BackwardColumnDrawsMissedEdge(scene: Scene, s: int, x: int, rayPos: Vec2, rayDir: Vec2, playerDir: Vec2, height: int, col: Column)
    requires ValidSector(scene, s) && height >= 0
    requires Dot(playerDir, rayDir) < 0.0
    requires ColumnSpec(scene, s, x, rayPos, rayDir, playerDir, height, col)
    requires col.closest != -1
    ensures LineRayIntersect(rayPos, rayDir, EdgeFrom(scene, s, col.closest), EdgeTo(scene, s, col.closest)) == NoHit
    ensures col.wallDist == -Dot(playerDir, rayDir) && col.lineDist == -1.0
    ensures NoneEligible(Candidates(scene, s, rayPos, rayDir, playerDir), col.closest)
  {
    var cs := Candidates(scene, s, rayPos, rayDir, playerDir);
    BackwardEligibleAreMisses(scene, s, rayPos, rayDir, playerDir, col.closest);
    forall j | 0 <= j < col.closest
      ensures !Eligible(cs[j])
    {
      if Eligible(cs[j]) {
        BackwardEligibleAreMisses(scene, s, rayPos, rayDir, playerDir, j);
        assert false;
      }
    }
  }
}
