/**
 * `Link::calcLinkDistanceFromPoint` at the level of true distances, with the square root
 * supplied by the caller, and what it means: the distance from the point to the nearest
 * point of the closed segment between the link's two nodes.
 */
module LinkGeometry {
  import opened Folds
  import opened MathFunc
  import opened SegmentDistance

  /** `calcLinkDistanceFromPoint(px, py)` for a link from (sx, sy) to (ex, ey), branch for
      branch: a link whose nodes coincide, then the foot of the perpendicular when it lies
      inside the box the nodes span, else the nearer node. */
  function LinkDistance(root: real -> real, sx: real, sy: real, ex: real, ey: real, px: real, py: real): real
  {
    if ex == sx && ey == sy then
      PointsDistance(root, sx, sy, px, py)
    else
      var f := Foot(sx, sy, ex, ey, px, py);
      if Between(f.x, sx, ex) && Between(f.y, sy, ey) then
        PointsDistance(root, f.x, f.y, px, py)
      else
        Min(PointsDistance(root, px, py, sx, sy), PointsDistance(root, px, py, ex, ey))
  }

  /** A square root is monotone, so it commutes with `std::min`. */
  lemma RootOfMin(root: real -> real, a: real, b: real)
    requires IsSquareRoot(root)
    requires 0.0 <= a && 0.0 <= b
    ensures root(Min(a, b)) == Min(root(a), root(b))
  {
    RootStrictlyIncreasing(root, a, b);
    RootStrictlyIncreasing(root, b, a);
  }

  /** The root of a square is the absolute value. */
  lemma RootOfSquare(root: real -> real, v: real)
    requires IsSquareRoot(root)
    ensures root(Sq(v)) == if v < 0.0 then -v else v
  {
    SqSign(v);
    var a := if v < 0.0 then -v else v;
    SquareOfOpposite(v, -v);
    assert Sq(a) == Sq(v);
    var r := root(Sq(v));
    assert r >= 0.0 && Sq(r) == Sq(v);
    if r < a {
      SqLess(r, a);
    } else if a < r {
      SqLess(a, r);
    }
  }

  /** Computing with true distances and taking the root of the squared computation agree. */
  lemma LinkDistanceIsRootOfSquared(root: real -> real, sx: real, sy: real, ex: real, ey: real, px: real, py: real)
    requires IsSquareRoot(root)
    ensures LinkDistance(root, sx, sy, ex, ey, px, py) == root(SegmentSqDistance(sx, sy, ex, ey, px, py))
  {
    if !(ex == sx && ey == sy) {
      var f := Foot(sx, sy, ex, ey, px, py);
      if !(Between(f.x, sx, ex) && Between(f.y, sy, ey)) {
        RootOfMin(root, SqDistance(px, py, sx, sy), SqDistance(px, py, ex, ey));
      }
    }
  }

  /** A square root preserves and reflects `<=` between non-negative reals. */
  lemma RootMonotone(root: real -> real, a: real, b: real)
    requires IsSquareRoot(root)
    requires 0.0 <= a && 0.0 <= b
    ensures a <= b <==> root(a) <= root(b)
  {
    RootStrictlyIncreasing(root, a, b);
    RootStrictlyIncreasing(root, b, a);
  }

  /** The squared distance to the segment is zero exactly for the points of the segment. */
  lemma SegmentSqDistanceZeroIffOnSegment(sx: real, sy: real, ex: real, ey: real, px: real, py: real)
    ensures SegmentSqDistance(sx, sy, ex, ey, px, py) == 0.0 <==>
      exists t | 0.0 <= t <= 1.0 :: px == Lerp(sx, ex, t) && py == Lerp(sy, ey, t)
  {
    if SegmentSqDistance(sx, sy, ex, ey, px, py) == 0.0 {
      var t := SegmentSqDistanceAttained(sx, sy, ex, ey, px, py);
      assert px == Lerp(sx, ex, t) && py == Lerp(sy, ey, t);
    }
    if exists t | 0.0 <= t <= 1.0 :: px == Lerp(sx, ex, t) && py == Lerp(sy, ey, t) {
      var t :| 0.0 <= t <= 1.0 && px == Lerp(sx, ex, t) && py == Lerp(sy, ey, t);
      SegmentSqDistanceBelow(sx, sy, ex, ey, px, py, t);
    }
  }

  /** The distance to the segment never exceeds the distance to either node. */
  lemma SegmentSqDistanceAtMostEnds(sx: real, sy: real, ex: real, ey: real, px: real, py: real)
    ensures SegmentSqDistance(sx, sy, ex, ey, px, py) <= SqDistance(px, py, sx, sy)
    ensures SegmentSqDistance(sx, sy, ex, ey, px, py) <= SqDistance(px, py, ex, ey)
  {
    LerpEnds(sx, ex, 0.0);
    LerpEnds(sy, ey, 0.0);
    SegmentSqDistanceBelow(sx, sy, ex, ey, px, py, 0.0);
    SegmentSqDistanceBelow(sx, sy, ex, ey, px, py, 1.0);
  }

  /** A vertical link (equal longitudes) with the point's latitude in its range: the
      perpendicular foot is (sx, py), so the squared distance is `(px - sx)^2`. */
  lemma VerticalInRange(sx: real, sy: real, ey: real, px: real, py: real)
    requires sy != ey && Between(py, sy, ey)
    ensures SegmentSqDistance(sx, sy, sx, ey, px, py) == Sq(Delta(sx, px))
  {
    var f := Foot(sx, sy, sx, ey, px, py);
    assert f == Point(sx, py);
    assert Between(sx, sx, sx);
    TimesZero(Delta(py, py), Delta(py, py), Zero());
    SqDistanceSymmetric(sx, py, px, py);
  }

  /** What `calcLinkDistanceFromPoint` promises, for any genuine square root `root`:
      it is the least distance from p to a point of the link and some point of the link
      is that far away; it is zero exactly on the link, at most the distance to either
      node, equal to the distance to the node of a one-point link, and `|px - sx|` for a
      vertical link whose latitude range holds `py`. */
  lemma LinkDistanceMeaning(root: real -> real, sx: real, sy: real, ex: real, ey: real, px: real, py: real)
    requires IsSquareRoot(root)
    ensures var d := LinkDistance(root, sx, sy, ex, ey, px, py);
      && d >= 0.0
      && (forall t | 0.0 <= t <= 1.0 :: d <= PointsDistance(root, px, py, Lerp(sx, ex, t), Lerp(sy, ey, t)))
      && (exists t | 0.0 <= t <= 1.0 :: d == PointsDistance(root, px, py, Lerp(sx, ex, t), Lerp(sy, ey, t)))
      && (d == 0.0 <==> exists t | 0.0 <= t <= 1.0 :: px == Lerp(sx, ex, t) && py == Lerp(sy, ey, t))
      && d <= PointsDistance(root, px, py, sx, sy)
      && d <= PointsDistance(root, px, py, ex, ey)
      && (ex == sx && ey == sy ==> d == PointsDistance(root, sx, sy, px, py))
      && (ex == sx && sy != ey && Between(py, sy, ey) ==> d == if px < sx then sx - px else px - sx)
  {
    var q := SegmentSqDistance(sx, sy, ex, ey, px, py);
    var d := LinkDistance(root, sx, sy, ex, ey, px, py);
    LinkDistanceIsRootOfSquared(root, sx, sy, ex, ey, px, py);
    assert root(q) >= 0.0 && Sq(root(q)) == q;
    forall t | 0.0 <= t <= 1.0
      ensures d <= PointsDistance(root, px, py, Lerp(sx, ex, t), Lerp(sy, ey, t))
    {
      SegmentSqDistanceBelow(sx, sy, ex, ey, px, py, t);
      RootMonotone(root, q, SqDistanceAt(sx, sy, ex, ey, px, py, t));
    }
    var t := SegmentSqDistanceAttained(sx, sy, ex, ey, px, py);
    assert d == PointsDistance(root, px, py, Lerp(sx, ex, t), Lerp(sy, ey, t));
    SegmentSqDistanceZeroIffOnSegment(sx, sy, ex, ey, px, py);
    RootStrictlyIncreasing(root, 0.0, q);
    assert root(0.0) == 0.0 by {
      assert Sq(root(0.0)) == 0.0;
      SqSign(root(0.0));
    }
    SegmentSqDistanceAtMostEnds(sx, sy, ex, ey, px, py);
    RootMonotone(root, q, SqDistance(px, py, sx, sy));
    RootMonotone(root, q, SqDistance(px, py, ex, ey));
    if ex == sx && sy != ey && Between(py, sy, ey) {
      VerticalInRange(sx, sy, ey, px, py);
      RootOfSquare(root, Delta(sx, px));
    }
  }
}
