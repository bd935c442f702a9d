/**
 * Distance from a point to a link, as `Link::calcLinkDistanceFromPoint` computes it.
 * X is longitude and Y is latitude. The start node is s and the end node is e.
 *
 * The original projects the point p perpendicularly onto the straight line through
 * s and e. If the projection (the "foot") falls inside the box that s and e span, the
 * answer is the distance from p to the foot. Otherwise it is the nearer of the two
 * endpoint distances. A link whose nodes coincide is a single point.
 *
 * As in `MathFunc`, the model computes SQUARED distances. `SegmentSqDistanceIsMinimum`
 * is the independent reference: the result is the least squared distance from p to a
 * point of the closed segment, and some point of the segment reaches it.
 */
module SegmentDistance {
  import opened Folds
  import opened MathFunc

  /** The point of the segment from `a` to `b` at parameter `t`, one coordinate at a time.
      Parameters 0 and 1 give the endpoints, and [0, 1] covers the closed segment. */
  function Lerp(a: real, b: real, t: real): real
  {
    a + t * Delta(a, b)
  }

  /** `v` lies in the closed range spanned by `a` and `b`, in whichever order they come. */
  predicate Between(v: real, a: real, b: real)
  {
    Min(a, b) <= v <= Max(a, b)
  }

  /** A point of the plane: `x` is longitude and `y` is latitude. */
  datatype Point = Point(x: real, y: real)

  // ---------------------------------------------------------------------------
  // Arithmetic leaves: each is one step of real arithmetic on plain variables.
  // `z` is zero, written as `v - v`; see `MathFunc.Zero`. In the vector lemmas,
  // (dx, dy) is the direction e - s, (wx, wy) is p - s and c is |e - s|^2.
  // ---------------------------------------------------------------------------

  /** Dividing by a non-zero `c` and multiplying back gives the number again. */
  lemma DivideBack(a: real, c: real, z: real)
    requires z == c - c && c != z
    ensures (a / c) * c == a
  {
  }

  /** Anything times zero is zero. */
  lemma TimesZero(a: real, b: real, z: real)
    requires z == b - b && a == z
    ensures a * b == z && b * a == z
  {
  }

  /** Scaling the difference back from the other end: `(1 - t) * (-d) == t * d - d`. */
  lemma ScaleFromOtherEnd(t: real, d: real, d': real)
    requires d' == -d
    ensures (1.0 - t) * d' == t * d - d
  {
  }

  /** The slope formula of the original puts its foot (x, y) on the line through s with
      slope `m`, and makes p - foot perpendicular to that line. (ax, ay) is foot - s and
      (qx, qy) is p - foot. */
  lemma SlopeFootGeometry(m: real, k: real, x: real, y: real, px: real, py: real, sx: real, sy: real,
                          dx: real, dy: real, ax: real, ay: real, qx: real, qy: real, z: real)
    requires z == dx - dx && m * dx == dy
    requires k == m * m + 1.0 && x * k == m * (py - sy + m * sx) + px
    requires y == sy + m * (x - sx)
    requires ax == x - sx && ay == y - sy && qx == px - x && qy == py - y
    ensures ax * dy == ay * dx
    ensures qx * dx + qy * dy == z
  {
    assert (px - x) + m * (py - (sy + m * (x - sx))) == z;
  }

  /** A product is zero only when one factor is zero: here the other factor is positive. */
  lemma ProductZero(a: real, b: real, z: real)
    requires z == b - b && b > z && a * b == z
    ensures a == z
  {
  }

  /** A vector that is both parallel and perpendicular to a non-zero vector (dx, dy) is zero. */
  lemma ParallelAndPerpendicular(ux: real, uy: real, dx: real, dy: real, c: real, z: real)
    requires z == dx - dx && c == dx * dx + dy * dy && c > z
    requires ux * dy - uy * dx == z && ux * dx + uy * dy == z
    ensures ux == z && uy == z
  {
    assert ux * c == dx * (ux * dx + uy * dy) + dy * (ux * dy - uy * dx);
    ProductZero(ux, c, z);
    assert uy * c == dy * (ux * dx + uy * dy) - dx * (ux * dy - uy * dx);
    ProductZero(uy, c, z);
  }

  /** A foot (ax, ay) = foot - s on the line, with p - foot = (qx, qy) perpendicular to
      it, sits at the parameter `t0` with `t0 * c == (p - s) . d`. */
  lemma FootAtParameter(ax: real, ay: real, qx: real, qy: real, dx: real, dy: real,
                        wx: real, wy: real, c: real, t0: real, z: real)
    requires z == dx - dx && c == dx * dx + dy * dy && c > z
    requires ax * dy == ay * dx && qx * dx + qy * dy == z
    requires wx == ax + qx && wy == ay + qy
    requires t0 * c == wx * dx + wy * dy
    ensures ax == t0 * dx && ay == t0 * dy
  {
    ParallelAndPerpendicular(ax - t0 * dx, ay - t0 * dy, dx, dy, c, z);
  }

  /** Pythagoras along the line: moving from the foot (parameter `t0`) to parameter `t` adds
      `(t - t0)^2 * c` to the squared distance from p. */
  lemma AlongLine(dx: real, dy: real, wx: real, wy: real, c: real, t: real, t0: real)
    requires c == dx * dx + dy * dy
    requires t0 * c == wx * dx + wy * dy
    ensures (t * dx - wx) * (t * dx - wx) + (t * dy - wy) * (t * dy - wy)
         == (t0 * dx - wx) * (t0 * dx - wx) + (t0 * dy - wy) * (t0 * dy - wy) + (t - t0) * (t - t0) * c
  {
  }

  /** A square times a positive number is non-negative, and grows as the base moves away
      from zero on one side. */
  lemma ScaledSquareLE(a: real, b: real, c: real, z: real)
    requires z == c - c && c > z
    requires (z <= a && a <= b) || (b <= a && a <= z)
    ensures z <= a * a * c <= b * b * c
  {
    assert a * a <= b * b by {
      assert b * b - a * a == (b - a) * (b + a);
    }
  }

  /** Along the line, a point nearer to the foot (parameter `t0`) on the same side is
      nearer to p. (ux, uy) is the point at `u` minus p and `du` its squared length;
      (tx, ty) and `dt` are the same for `t`. */
  lemma NearerToFoot(dx: real, dy: real, wx: real, wy: real, c: real, t0: real,
                     u: real, ux: real, uy: real, du: real, t: real, tx: real, ty: real, dt: real)
    requires c == dx * dx + dy * dy && c > dx - dx
    requires t0 * c == wx * dx + wy * dy
    requires ux == u * dx - wx && uy == u * dy - wy && tx == t * dx - wx && ty == t * dy - wy
    requires du == ux * ux + uy * uy && dt == tx * tx + ty * ty
    requires t0 <= u <= t || t <= u <= t0
    ensures du <= dt
  {
    var z := dx - dx;
    AlongLine(dx, dy, wx, wy, c, u, t0);
    AlongLine(dx, dy, wx, wy, c, t, t0);
    ScaledSquareLE(u - t0, t - t0, c, z);
  }

  /** Scaling by a positive `c` maps [0, 1] onto [0, c], and no other parameter lands there. */
  lemma ScaledUnit(c: real, t: real, w: real, z: real)
    requires z == t - t && z < c && w == t * c
    ensures (z <= w && w <= c) <==> (z <= t && t <= 1.0)
  {
  }

  // ---------------------------------------------------------------------------
  // The model.
  // ---------------------------------------------------------------------------

  /** `(verX, verY)`: the perpendicular projection of p on the line through the two
      distinct points s and e. The original takes a vertical line (sx == ex) separately,
      where the projection is (sx, py). Otherwise it uses the slope `m`. */
  function Foot(sx: real, sy: real, ex: real, ey: real, px: real, py: real): (f: Point)
    requires sx != ex || sy != ey
    ensures Delta(sx, f.x) * Delta(sy, ey) == Delta(sy, f.y) * Delta(sx, ex)
    ensures Delta(f.x, px) * Delta(sx, ex) + Delta(f.y, py) * Delta(sy, ey) == 0.0
  {
    if ex == sx then
      TimesZero(Delta(sx, sx), Delta(sy, ey), Zero());
      TimesZero(Delta(sx, ex), Delta(sy, py), Zero());
      TimesZero(Delta(sx, ex), Delta(px, px), Zero());
      TimesZero(Delta(py, py), Delta(sy, ey), Zero());
      Point(sx, py)
    else
      SlopedFoot(sx, sy, ex, ey, px, py)
  }

  /** The foot on a line that is not vertical, through its slope `m`. */
  function SlopedFoot(sx: real, sy: real, ex: real, ey: real, px: real, py: real): (f: Point)
    requires sx != ex
    ensures Delta(sx, f.x) * Delta(sy, ey) == Delta(sy, f.y) * Delta(sx, ex)
    ensures Delta(f.x, px) * Delta(sx, ex) + Delta(f.y, py) * Delta(sy, ey) == 0.0
  {
    var m := (ey - sy) / (ex - sx);
    var x := (m * (py - sy + m * sx) + px) / (m * m + 1.0);
    DivideBack(ey - sy, ex - sx, Zero());
    assert m * m + 1.0 > Zero() by {
      SqSign(m);
    }
    DivideBack(m * (py - sy + m * sx) + px, m * m + 1.0, Zero());
    var y := sy + m * (x - sx);
    SlopeFootGeometry(m, m * m + 1.0, x, y, px, py, sx, sy, Delta(sx, ex), Delta(sy, ey),
                      Delta(sx, x), Delta(sy, y), Delta(x, px), Delta(y, py), Zero());
    Point(x, y)
  }

  /** `calcLinkDistanceFromPoint` on squared distances. */
  function SegmentSqDistance(sx: real, sy: real, ex: real, ey: real, px: real, py: real): (d: real)
    ensures d >= 0.0
  {
    if ex == sx && ey == sy then
      SqDistance(sx, sy, px, py)
    else
      var f := Foot(sx, sy, ex, ey, px, py);
      if Between(f.x, sx, ex) && Between(f.y, sy, ey) then
        SqDistance(f.x, f.y, px, py)
      else
        Min(SqDistance(px, py, sx, sy), SqDistance(px, py, ex, ey))
  }

  /** Squared distance from p to the point of the segment at parameter `t`. */
  function SqDistanceAt(sx: real, sy: real, ex: real, ey: real, px: real, py: real, t: real): (d: real)
    ensures d >= 0.0
  {
    SqDistance(px, py, Lerp(sx, ex, t), Lerp(sy, ey, t))
  }

  /** The endpoints are the points at parameters 0 and 1, and a coordinate that does not
      move stays put. */
  lemma LerpEnds(a: real, b: real, t: real)
    ensures Lerp(a, b, 0.0) == a && Lerp(a, b, 1.0) == b
    ensures a == b ==> Lerp(a, b, t) == a
  {
    TimesZero(0.0, Delta(a, b), Zero());
    if a == b {
      TimesZero(Delta(a, b), t, Zero());
    }
  }

  /** Along one coordinate that moves (a != b), the segment point lies inside the range of
      the endpoints exactly for the parameters in [0, 1]; along one that does not move, it
      always does. */
  lemma LerpBetween(a: real, b: real, t: real)
    ensures a != b ==> (Between(Lerp(a, b, t), a, b) <==> 0.0 <= t <= 1.0)
    ensures a == b ==> Between(Lerp(a, b, t), a, b)
  {
    LerpEnds(a, b, t);
    if a < b {
      ScaledUnit(Delta(a, b), t, Lerp(a, b, t) - a, Zero());
    } else if b < a {
      ScaleFromOtherEnd(t, Delta(a, b), Delta(b, a));
      ScaledUnit(Delta(b, a), 1.0 - t, Lerp(a, b, t) - b, Zero());
    }
  }

  /** The parameter of the foot on the line through the distinct points s and e:
      `t0 * |e - s|^2 == (p - s) . (e - s)`. */
  function FootParameter(sx: real, sy: real, ex: real, ey: real, px: real, py: real): (t0: real)
    requires sx != ex || sy != ey
    ensures t0 * SqDistance(sx, sy, ex, ey) == Delta(sx, px) * Delta(sx, ex) + Delta(sy, py) * Delta(sy, ey)
  {
    var n := Delta(sx, px) * Delta(sx, ex) + Delta(sy, py) * Delta(sy, ey);
    DivideBack(n, SqDistance(sx, sy, ex, ey), Zero());
    n / SqDistance(sx, sy, ex, ey)
  }

  /** The contract of `FootParameter`, as a fact at one call. */
  lemma FootParameterEquation(sx: real, sy: real, ex: real, ey: real, px: real, py: real)
    requires sx != ex || sy != ey
    ensures FootParameter(sx, sy, ex, ey, px, py) * SqDistance(sx, sy, ex, ey)
         == Delta(sx, px) * Delta(sx, ex) + Delta(sy, py) * Delta(sy, ey)
  {
  }

  /** The original's `(verX, verY)` is the point of the line at `FootParameter`. */
  lemma FootIsAtParameter(sx: real, sy: real, ex: real, ey: real, px: real, py: real)
    requires sx != ex || sy != ey
    ensures var t0 := FootParameter(sx, sy, ex, ey, px, py);
      Foot(sx, sy, ex, ey, px, py) == Point(Lerp(sx, ex, t0), Lerp(sy, ey, t0))
  {
    var f := Foot(sx, sy, ex, ey, px, py);
    var t0 := FootParameter(sx, sy, ex, ey, px, py);
    FootAtParameter(Delta(sx, f.x), Delta(sy, f.y), Delta(f.x, px), Delta(f.y, py),
                    Delta(sx, ex), Delta(sy, ey), Delta(sx, px), Delta(sy, py),
                    SqDistance(sx, sy, ex, ey), t0, Zero());
  }

  /** The segment point at `t`, seen from p, is `t * (e - s) - (p - s)` (one coordinate). */
  lemma OffsetFromPoint(a: real, b: real, p: real, t: real)
    ensures Delta(p, Lerp(a, b, t)) == t * Delta(a, b) - Delta(a, p)
  {
  }

  /** `SqDistanceAt` as a sum of two products of differences. */
  lemma SqDistanceAtSquares(sx: real, sy: real, ex: real, ey: real, px: real, py: real, t: real)
    ensures SqDistanceAt(sx, sy, ex, ey, px, py, t)
         == Delta(px, Lerp(sx, ex, t)) * Delta(px, Lerp(sx, ex, t)) + Delta(py, Lerp(sy, ey, t)) * Delta(py, Lerp(sy, ey, t))
  {
  }

  /** The squared length of the segment as a sum of two products of differences; it is
      positive when the endpoints differ. */
  lemma SqLengthSquares(sx: real, sy: real, ex: real, ey: real)
    ensures SqDistance(sx, sy, ex, ey) == Delta(sx, ex) * Delta(sx, ex) + Delta(sy, ey) * Delta(sy, ey)
    ensures sx != ex || sy != ey ==> SqDistance(sx, sy, ex, ey) > Delta(sx, ex) - Delta(sx, ex)
  {
  }

  /** On the line through s and e, squared distance from p grows as the point moves away
      from the foot at parameter `t0`: of two parameters on the same side of `t0`, the one
      nearer to `t0` gives the point nearer to p. */
  lemma NearerPointOfLine(sx: real, sy: real, ex: real, ey: real, px: real, py: real, t0: real, u: real, t: real)
    requires sx != ex || sy != ey
    requires t0 * SqDistance(sx, sy, ex, ey) == Delta(sx, px) * Delta(sx, ex) + Delta(sy, py) * Delta(sy, ey)
    requires t0 <= u <= t || t <= u <= t0
    ensures SqDistanceAt(sx, sy, ex, ey, px, py, u) <= SqDistanceAt(sx, sy, ex, ey, px, py, t)
  {
    OffsetFromPoint(sx, ex, px, u);
    OffsetFromPoint(sy, ey, py, u);
    OffsetFromPoint(sx, ex, px, t);
    OffsetFromPoint(sy, ey, py, t);
    SqLengthSquares(sx, sy, ex, ey);
    SqDistanceAtSquares(sx, sy, ex, ey, px, py, u);
    SqDistanceAtSquares(sx, sy, ex, ey, px, py, t);
    NearerToFoot(Delta(sx, ex), Delta(sy, ey), Delta(sx, px), Delta(sy, py), SqDistance(sx, sy, ex, ey), t0,
                 u, Delta(px, Lerp(sx, ex, u)), Delta(py, Lerp(sy, ey, u)), SqDistanceAt(sx, sy, ex, ey, px, py, u),
                 t, Delta(px, Lerp(sx, ex, t)), Delta(py, Lerp(sy, ey, t)), SqDistanceAt(sx, sy, ex, ey, px, py, t));
  }

  /** `calcLinkDistanceFromPoint` never exceeds the distance from p to any point of the
      closed segment. */
  lemma SegmentSqDistanceBelow(sx: real, sy: real, ex: real, ey: real, px: real, py: real, t: real)
    requires 0.0 <= t <= 1.0
    ensures SegmentSqDistance(sx, sy, ex, ey, px, py) <= SqDistanceAt(sx, sy, ex, ey, px, py, t)
  {
    LerpEnds(sx, ex, t);
    LerpEnds(sy, ey, t);
    if ex == sx && ey == sy {
      SqDistanceSymmetric(sx, sy, px, py);
    } else {
      var t0 := FootParameter(sx, sy, ex, ey, px, py);
      FootIsAtParameter(sx, sy, ex, ey, px, py);
      var f := Foot(sx, sy, ex, ey, px, py);
      SqDistanceSymmetric(f.x, f.y, px, py);
      FootParameterEquation(sx, sy, ex, ey, px, py);
      if Between(f.x, sx, ex) && Between(f.y, sy, ey) {
        NearerPointOfLine(sx, sy, ex, ey, px, py, t0, t0, t);
      } else {
        LerpBetween(sx, ex, t0);
        LerpBetween(sy, ey, t0);
        if t0 < 0.0 {
          NearerPointOfLine(sx, sy, ex, ey, px, py, t0, 0.0, t);
        } else {
          NearerPointOfLine(sx, sy, ex, ey, px, py, t0, 1.0, t);
        }
      }
    }
  }

  /** Some point of the closed segment is exactly at the distance the original returns. */
  lemma SegmentSqDistanceAttained(sx: real, sy: real, ex: real, ey: real, px: real, py: real) returns (t: real)
    ensures 0.0 <= t <= 1.0
    ensures SegmentSqDistance(sx, sy, ex, ey, px, py) == SqDistanceAt(sx, sy, ex, ey, px, py, t)
  {
    LerpEnds(sx, ex, 0.0);
    LerpEnds(sy, ey, 0.0);
    if ex == sx && ey == sy {
      t := 0.0;
      SqDistanceSymmetric(sx, sy, px, py);
    } else {
      var t0 := FootParameter(sx, sy, ex, ey, px, py);
      FootIsAtParameter(sx, sy, ex, ey, px, py);
      var f := Foot(sx, sy, ex, ey, px, py);
      if Between(f.x, sx, ex) && Between(f.y, sy, ey) {
        LerpBetween(sx, ex, t0);
        LerpBetween(sy, ey, t0);
        SqDistanceSymmetric(f.x, f.y, px, py);
        t := t0;
      } else if SqDistance(px, py, ex, ey) < SqDistance(px, py, sx, sy) {
        t := 1.0;
      } else {
        t := 0.0;
      }
    }
  }

  /** Reference characterisation: the original's distance is the least squared distance
      from p to a point of the closed segment from s to e, and that least value is reached. */
  lemma SegmentSqDistanceIsMinimum(sx: real, sy: real, ex: real, ey: real, px: real, py: real)
    ensures forall t | 0.0 <= t <= 1.0 ::
      SegmentSqDistance(sx, sy, ex, ey, px, py) <= SqDistanceAt(sx, sy, ex, ey, px, py, t)
    ensures exists t | 0.0 <= t <= 1.0 ::
      SegmentSqDistance(sx, sy, ex, ey, px, py) == SqDistanceAt(sx, sy, ex, ey, px, py, t)
  {
    forall t | 0.0 <= t <= 1.0
      ensures SegmentSqDistance(sx, sy, ex, ey, px, py) <= SqDistanceAt(sx, sy, ex, ey, px, py, t)
    {
      SegmentSqDistanceBelow(sx, sy, ex, ey, px, py, t);
    }
    var t := SegmentSqDistanceAttained(sx, sy, ex, ey, px, py);
  }
}
