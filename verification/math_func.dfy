/**
 * Planar distance between two (x, y) = (lon, lat) points.
 *
 * The original returns `sqrt((x2-x1)^2 + (y2-y1)^2)`. Reals have no square root with
 * a body here, so the model computes the SQUARE of that distance and keeps the root
 * abstract: `PointsDistance` takes the root function as a parameter, and
 * `IsSquareRoot` says what that parameter must satisfy. Because the root is strictly
 * increasing, comparing squares decides every comparison of distances the original
 * makes (`RootPreservesArgMin`).
 */
module MathFunc {
  import opened Folds

  /** Zero, kept behind a function call. The arithmetic leaf lemmas below state their
      conclusions relative to a zero parameter `z`; passing `Zero()` keeps a fact such as
      `x * x > Zero()` from being simplified away before it is used. */
  function Zero(): real
  {
    0.0
  }

  /** A non-zero square is positive (`z` is zero, written `p - p`). */
  lemma SquarePositive(p: real, z: real)
    requires z == p - p && p != z
    ensures p * p > z
  {
    if p > z {
      ProductPositive(p, p, z);
    } else {
      ProductPositive(-p, -p, z);
      assert (-p) * (-p) == p * p;
    }
  }

  /** The product of two positive reals is positive. */
  lemma ProductPositive(p: real, q: real, z: real)
    requires z == p - p && p > z && q > z
    ensures p * q > z
  {
  }

  /** Squaring is strictly increasing on the non-negative reals. */
  lemma SquareLess(a: real, b: real, z: real)
    requires z == a - a && z <= a && a < b
    ensures a * a < b * b
  {
    ProductPositive(b - a, b + a, z);
  }

  /** The square of a real. */
  function Sq(x: real): real
  {
    x * x
  }

  /** A square is non-negative, and positive away from zero. */
  lemma SqSign(x: real)
    ensures Sq(x) >= 0.0
    ensures x != 0.0 ==> Sq(x) > 0.0
  {
    if x != 0.0 {
      SquarePositive(x, Zero());
    }
  }

  /** Squaring is strictly increasing on the non-negative reals. */
  lemma SqLess(a: real, b: real)
    requires 0.0 <= a < b
    ensures Sq(a) < Sq(b)
  {
    SquareLess(a, b, Zero());
  }

  /** The difference `b - a`. Products in the model multiply such terms rather than the
      sums they stand for, which keeps the arithmetic in the proofs linear over them. */
  function Delta(a: real, b: real): real
  {
    b - a
  }

  /** Opposite numbers have the same square. */
  lemma SquareOfOpposite(a: real, b: real)
    requires b == -a
    ensures a * a == b * b
  {
  }

  /** Square of the planar distance between (x1, y1) and (x2, y2). */
  function SqDistance(x1: real, y1: real, x2: real, y2: real): (d: real)
    ensures d >= 0.0
    ensures d == 0.0 <==> x1 == x2 && y1 == y2
  {
    SqSign(Delta(x1, x2));
    SqSign(Delta(y1, y2));
    Sq(Delta(x1, x2)) + Sq(Delta(y1, y2))
  }

  /** `root` returns the non-negative square root of every non-negative real. */
  ghost predicate IsSquareRoot(root: real -> real)
  {
    forall x :: x >= 0.0 ==> root(x) >= 0.0 && Sq(root(x)) == x
  }

  /** `calcPointsDistance(x1, y1, x2, y2)`, with the square root supplied by the caller. */
  function PointsDistance(root: real -> real, x1: real, y1: real, x2: real, y2: real): real
  {
    root(SqDistance(x1, y1, x2, y2))
  }

  lemma SqDistanceSymmetric(x1: real, y1: real, x2: real, y2: real)
    ensures SqDistance(x1, y1, x2, y2) == SqDistance(x2, y2, x1, y1)
  {
    SquareOfOpposite(Delta(x1, x2), Delta(x2, x1));
    SquareOfOpposite(Delta(y1, y2), Delta(y2, y1));
  }

  /** The distance is symmetric, and invariant under translating both points. */
  lemma PointsDistanceSymmetric(root: real -> real, x1: real, y1: real, x2: real, y2: real, dx: real, dy: real)
    ensures PointsDistance(root, x1, y1, x2, y2) == PointsDistance(root, x2, y2, x1, y1)
    ensures PointsDistance(root, x1 + dx, y1 + dy, x2 + dx, y2 + dy) == PointsDistance(root, x1, y1, x2, y2)
  {
    assert SqDistance(x1, y1, x2, y2) == SqDistance(x2, y2, x1, y1);
    assert SqDistance(x1 + dx, y1 + dy, x2 + dx, y2 + dy) == SqDistance(x1, y1, x2, y2);
  }

  /** With a genuine square root, the distance is non-negative, squares to the sum of
      squared differences, and is zero exactly for equal points. */
  lemma PointsDistanceMeaning(root: real -> real, x1: real, y1: real, x2: real, y2: real)
    requires IsSquareRoot(root)
    ensures var d := PointsDistance(root, x1, y1, x2, y2);
      && d >= 0.0
      && Sq(d) == Sq(Delta(x1, x2)) + Sq(Delta(y1, y2))
      && (d == 0.0 <==> x1 == x2 && y1 == y2)
  {
    var q := SqDistance(x1, y1, x2, y2);
    assert root(q) >= 0.0 && Sq(root(q)) == q;
    SqSign(root(q));
  }

  /** A square root is strictly increasing on the non-negative reals. */
  lemma RootStrictlyIncreasing(root: real -> real, a: real, b: real)
    requires IsSquareRoot(root)
    requires 0.0 <= a && 0.0 <= b
    ensures a < b <==> root(a) < root(b)
  {
    var ra, rb := root(a), root(b);
    assert ra >= 0.0 && Sq(ra) == a;
    assert rb >= 0.0 && Sq(rb) == b;
    if ra < rb {
      SqLess(ra, rb);
    } else if rb < ra {
      SqLess(rb, ra);
    }
  }

  /** Taking square roots of non-negative values does not move the first strict minimum:
      ranking links by squared distance picks the link the original picks. */
  lemma {:induction false} RootPreservesArgMin(root: real -> real, sq: seq<real>, ds: seq<real>)
    requires IsSquareRoot(root)
    requires |sq| == |ds| > 0
    requires forall i | 0 <= i < |sq| :: sq[i] >= 0.0 && ds[i] == root(sq[i])
    ensures ArgMinFirst(sq) == ArgMinFirst(ds)
  {
    if |sq| > 1 {
      var n := |sq| - 1;
      RootPreservesArgMin(root, sq[..n], ds[..n]);
      var k := ArgMinFirst(sq[..n]);
      RootStrictlyIncreasing(root, sq[n], sq[k]);
    }
  }
}
