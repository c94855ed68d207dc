/**
  The camera: a position, a facing direction and a camera plane whose
  half-width sets the field of view. Screen column `x` of a canvas `width`
  wide looks along `dir + plane * camera_x`, where `camera_x` runs from -1
  at the left edge towards 1 at the right edge.
 */
module ViewSpace {
  import opened Geometry

  datatype Camera = Camera(pos: Vec2, dir: Vec2, plane: Vec2)

  /** The camera the renderer starts with: at the origin, facing +y, plane (0.66, 0). */
  const InitialCamera := Camera(Zero, Vec2(0.0, 1.0), Vec2(0.66, 0.0))

  /** Half-width of the camera plane relative to the facing direction. */
  const PLANE_SCALE: real := 0.66

  /** The determinant of the matrix whose columns are the plane and the direction. */
  function Det(c: Camera): real {
    c.plane.x * c.dir.y - c.dir.x * c.plane.y
  }

  /**
    `to_view_space`: the coordinates of `p` relative to the camera, in the
    basis (plane, dir). The first coordinate is the sideways offset in
    plane widths and the second is the depth along the facing direction.
    The source divides by the determinant without a check; the model asks
    for a camera whose plane and direction are not parallel.
   */
  function ToViewSpace(c: Camera, p: Vec2): (r: Vec2)
    requires Det(c) != 0.0
    ensures Sub(p, c.pos) == Add(Mul(c.plane, r.x), Mul(c.dir, r.y))
  {
    var q := Sub(p, c.pos);
    var invDet := 1.0 / Det(c);
    var r := Vec2(invDet * (c.dir.y * q.x - c.dir.x * q.y), invDet * (-c.plane.y * q.x + c.plane.x * q.y));
    ViewSpaceSolves(c, q, invDet);
    r
  }

  lemma ViewSpaceSolves(c: Camera, q: Vec2, invDet: real)
    requires Det(c) != 0.0 && invDet * Det(c) == 1.0
    ensures var tx := invDet * (c.dir.y * q.x - c.dir.x * q.y);
      var ty := invDet * (-c.plane.y * q.x + c.plane.x * q.y);
      q == Add(Mul(c.plane, tx), Mul(c.dir, ty))
  {
    var tx := invDet * (c.dir.y * q.x - c.dir.x * q.y);
    var ty := invDet * (-c.plane.y * q.x + c.plane.x * q.y);
    assert c.plane.x * tx + c.dir.x * ty == invDet * (Det(c) * q.x);
    assert c.plane.y * tx + c.dir.y * ty == invDet * (Det(c) * q.y);
  }

  /** Placing the view-space coordinates back in the world gives the point again. */
  lemma ToViewSpaceInverse(c: Camera, p: Vec2)
    requires Det(c) != 0.0
    ensures var v := ToViewSpace(c, p);
      Add(c.pos, Add(Mul(c.plane, v.x), Mul(c.dir, v.y))) == p
  {
  }

  /** The view-space coordinates are the only ones that place the point. */
  lemma ToViewSpaceUnique(c: Camera, p: Vec2, v: Vec2)
    requires Det(c) != 0.0
    requires Add(c.pos, Add(Mul(c.plane, v.x), Mul(c.dir, v.y))) == p
    ensures ToViewSpace(c, p) == v
  {
    var w := ToViewSpace(c, p);
    var dx, dy := v.x - w.x, v.y - w.y;
    assert c.plane.x * dx + c.dir.x * dy == 0.0;
    assert c.plane.y * dx + c.dir.y * dy == 0.0;
    assert Det(c) * dx == c.dir.y * (c.plane.x * dx + c.dir.x * dy) - c.dir.x * (c.plane.y * dx + c.dir.y * dy);
    assert Det(c) * dy == c.plane.x * (c.plane.y * dx + c.dir.y * dy) - c.plane.y * (c.plane.x * dx + c.dir.x * dy);
    CancelFactor(dx, 0.0, Det(c));
    CancelFactor(dy, 0.0, Det(c));
  }

  /**
    The camera plane recomputed every frame, `perp(dir) * -0.66`: at right
    angles to the facing direction, 0.66 times as long, and pointing to the
    right of it, so the determinant is positive for any non-zero direction.
   */
  function CameraPlane(dir: Vec2): (plane: Vec2)
    ensures Dot(plane, dir) == 0.0
    ensures Dot(plane, plane) == PLANE_SCALE * PLANE_SCALE * Dot(dir, dir)
    ensures Det(Camera(Zero, dir, plane)) == PLANE_SCALE * Dot(dir, dir)
  {
    Mul(Perp(dir), -PLANE_SCALE)
  }

  /** The starting camera already has the plane the per-frame formula gives it. */
  lemma InitialPlaneMatchesFormula()
    ensures CameraPlane(InitialCamera.dir) == InitialCamera.plane
    ensures Det(InitialCamera) == PLANE_SCALE
  {
  }

  /** A camera whose plane comes from the formula has an invertible view transform. */
  lemma FramePlaneInvertible(pos: Vec2, dir: Vec2)
    requires Dot(dir, dir) > 0.0
    ensures Det(Camera(pos, dir, CameraPlane(dir))) > 0.0
  {
    MulPositive(PLANE_SCALE, Dot(dir, dir));
  }

  /** `camera_x` of column `x` on a canvas `width` columns wide. */
  function CameraX(x: int, width: int): (cx: real)
    requires 0 <= x < width
    ensures -1.0 <= cx < 1.0
    ensures x == 0 ==> cx == -1.0
  {
    var q := x as real / width as real;
    FractionBelowOne(x, width);
    2.0 * q - 1.0
  }

  lemma FractionBelowOne(x: int, width: int)
    requires 0 <= x < width
    ensures 0.0 <= x as real / width as real < 1.0
  {
    var q := x as real / width as real;
    assert q * width as real == x as real;
    if q < 0.0 {
      MulPositive(-q, width as real);
    }
    if q >= 1.0 {
      if q > 1.0 {
        MulPositive(q - 1.0, width as real);
      }
      assert false;
    }
  }

  /** Columns further right look further right: `camera_x` strictly increases with the column. */
  lemma CameraXIncreasing(x1: int, x2: int, width: int)
    requires 0 <= x1 < x2 < width
    ensures CameraX(x1, width) < CameraX(x2, width)
  {
    var w := width as real;
    var q1, q2 := x1 as real / w, x2 as real / w;
    assert q1 * w == x1 as real && q2 * w == x2 as real;
    assert (q2 - q1) * w == (x2 - x1) as real;
    if q2 - q1 <= 0.0 {
      if q2 - q1 < 0.0 {
        MulPositive(q1 - q2, w);
      }
      assert false;
    }
  }

  /**
    The unnormalised ray of a column, `dir + plane * camera_x`. The
    renderer normalises it before casting, which only rescales it by a
    positive factor.
   */
  function ColumnRay(c: Camera, cameraX: real): Vec2 {
    Add(c.dir, Mul(c.plane, cameraX))
  }

  /**
    With the per-frame plane, every column's ray, rescaled by any positive
    factor, points forwards: its dot product with the facing direction is
    positive.
   */
  lemma ColumnRayForward(pos: Vec2, dir: Vec2, x: int, width: int, k: real)
    requires Dot(dir, dir) > 0.0 && 0 <= x < width && k > 0.0
    ensures Dot(dir, Mul(ColumnRay(Camera(pos, dir, CameraPlane(dir)), CameraX(x, width)), k)) > 0.0
  {
    var c := Camera(pos, dir, CameraPlane(dir));
    var ray := ColumnRay(c, CameraX(x, width));
    assert Dot(dir, ray) == Dot(dir, dir) + CameraX(x, width) * Dot(c.plane, dir);
    assert Dot(dir, ray) == Dot(dir, dir);
    DotScale(dir, ray, k);
    MulPositive(k, Dot(dir, dir));
  }
}
