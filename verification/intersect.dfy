/**
  Ray/segment intersection (`line_ray_intersect`). With `v1 = O - P1`,
  `v2 = P2 - P1` and `v3 = perp(D)`, the ray distance is
  `t1 = perp_dot(v2, v1) / dot(v2, v3)` and the position along the segment is
  `t2 = dot(v1, v3) / dot(v2, v3)`; the ray hits when `t1 >= 0` and
  `0 <= t2 <= 1`, and the result is otherwise the sentinel (-1, -1).

  The C code divides without checking the denominator. In IEEE arithmetic a
  zero denominator turns `t2` into an infinity or a NaN: an infinity fails
  one of `t2 >= 0` and `t2 <= 1`, and a NaN fails both, so `0 <= t2 <= 1`
  cannot hold and such a ray never hits (whatever `t1` is); this model
  writes that outcome out as an explicit `NoHit` instead of dividing.
 */
module Intersect {
  import opened Geometry

  datatype Intersection = Intersection(rayDist: real, lineDist: real)

  const NoHit := Intersection(-1.0, -1.0)

  /** `dot(p2 - p1, perp(ray_dir))`; zero exactly when the ray runs parallel to the segment. */
  function Denominator(rayDir: Vec2, p1: Vec2, p2: Vec2): real {
    Dot(Sub(p2, p1), Perp(rayDir))
  }

  function LineRayIntersect(rayStart: Vec2, rayDir: Vec2, p1: Vec2, p2: Vec2): (r: Intersection)
    ensures r == NoHit || (r.rayDist >= 0.0 && 0.0 <= r.lineDist <= 1.0)
    ensures Denominator(rayDir, p1, p2) == 0.0 ==> r == NoHit
  {
    var v1 := Sub(rayStart, p1);
    var v2 := Sub(p2, p1);
    var v3 := Perp(rayDir);
    var dot := Dot(v2, v3);
    if dot == 0.0 then NoHit
    else
      var t1 := PerpDot(v2, v1) / dot;
      var t2 := Dot(v1, v3) / dot;
      if t1 >= 0.0 && t2 >= 0.0 && t2 <= 1.0 then Intersection(t1, t2) else NoHit
  }

  /**
    The ray, `t` lengths of `rayDir` from its start, reaches the point a
    fraction `s` of the way from `p1` to `p2`.
   */
  ghost predicate Meets(rayStart: Vec2, rayDir: Vec2, p1: Vec2, p2: Vec2, t: real, s: real) {
    && t >= 0.0
    && 0.0 <= s <= 1.0
    && Add(rayStart, Mul(rayDir, t)) == Add(p1, Mul(Sub(p2, p1), s))
  }

  /** Cramer's rule for `v2 * t2 - d * t1 == v1`, multiplied through by the determinant. */
  lemma CramerIdentity(v1: Vec2, v2: Vec2, d: Vec2)
    ensures v1.x * Dot(v2, Perp(d)) + d.x * PerpDot(v2, v1) == v2.x * Dot(v1, Perp(d))
    ensures v1.y * Dot(v2, Perp(d)) + d.y * PerpDot(v2, v1) == v2.y * Dot(v1, Perp(d))
  {
  }

  /** Every hit lies on both the ray and the segment. */
  lemma HitMeets(rayStart: Vec2, rayDir: Vec2, p1: Vec2, p2: Vec2)
    requires LineRayIntersect(rayStart, rayDir, p1, p2) != NoHit
    ensures var r := LineRayIntersect(rayStart, rayDir, p1, p2);
      Meets(rayStart, rayDir, p1, p2, r.rayDist, r.lineDist)
  {
    var r := LineRayIntersect(rayStart, rayDir, p1, p2);
    var v1 := Sub(rayStart, p1);
    var v2 := Sub(p2, p1);
    var den := Dot(v2, Perp(rayDir));
    var n1 := PerpDot(v2, v1);
    var n2 := Dot(v1, Perp(rayDir));
    assert den != 0.0;
    var t1, t2 := r.rayDist, r.lineDist;
    assert t1 == n1 / den && t2 == n2 / den;
    assert t1 * den == n1 && t2 * den == n2;
    CramerIdentity(v1, v2, rayDir);
    assert (v1.x + rayDir.x * t1) * den == (v2.x * t2) * den;
    assert (v1.y + rayDir.y * t1) * den == (v2.y * t2) * den;
    CancelFactor(v1.x + rayDir.x * t1, v2.x * t2, den);
    CancelFactor(v1.y + rayDir.y * t1, v2.y * t2, den);
  }

  /** With `v1 = v2 * s - d * t`, the two numerators are `t` and `s` times the determinant. */
  lemma NumeratorsOfMeeting(v2: Vec2, d: Vec2, t: real, s: real)
    ensures var v1 := Vec2(v2.x * s - d.x * t, v2.y * s - d.y * t);
      && PerpDot(v2, v1) == t * Dot(v2, Perp(d))
      && Dot(v1, Perp(d)) == s * Dot(v2, Perp(d))
  {
  }

  /** Every crossing of a non-parallel ray and segment is reported, with its parameters. */
  lemma MeetingHits(rayStart: Vec2, rayDir: Vec2, p1: Vec2, p2: Vec2, t: real, s: real)
    requires Denominator(rayDir, p1, p2) != 0.0
    requires Meets(rayStart, rayDir, p1, p2, t, s)
    ensures LineRayIntersect(rayStart, rayDir, p1, p2) == Intersection(t, s)
  {
    var v1 := Sub(rayStart, p1);
    var v2 := Sub(p2, p1);
    var den := Dot(v2, Perp(rayDir));
    assert v1 == Vec2(v2.x * s - rayDir.x * t, v2.y * s - rayDir.y * t);
    NumeratorsOfMeeting(v2, rayDir, t, s);
    assert PerpDot(v2, v1) / den == t;
    assert Dot(v1, Perp(rayDir)) / den == s;
  }
}
