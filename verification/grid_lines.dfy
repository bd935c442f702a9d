/**
 * The crossing test `assignLinksToGrid` applies to a cell when a link runs between
 * cells of different rows and columns: the line through the link's end points,
 * `lat = la * lon + lb`, is evaluated on the cell's left and right sides, and solved on
 * its bottom and top sides, and the cell is taken when one of the four values falls on
 * the side. Longitude plays `x` and latitude `y`.
 */
module GridLines {
  import opened GeoPosition
  import opened Folds

  /** The line `y = la * x + lb` at `x`. */
  function Line(la: real, lb: real, x: real): real
  {
    la * x + lb
  }

  /** `LA`: the slope of the line through `s` and `e`. */
  function Slope(s: GeoPos, e: GeoPos): real
    requires s.lon != e.lon
  {
    (e.lat - s.lat) / (e.lon - s.lon)
  }

  /** `LB`: the latitude where that line meets longitude 0. */
  function Intercept(s: GeoPos, e: GeoPos): real
    requires s.lon != e.lon
  {
    s.lat - Slope(s, e) * s.lon
  }

  /** The line of `Slope` and `Intercept` passes through both positions, and it is not
      horizontal when their latitudes differ, so solving it for `x` divides by a
      non-zero slope. */
  lemma LineThrough(s: GeoPos, e: GeoPos)
    requires s.lon != e.lon
    ensures Line(Slope(s, e), Intercept(s, e), s.lon) == s.lat
    ensures Line(Slope(s, e), Intercept(s, e), e.lon) == e.lat
    ensures s.lat != e.lat ==> Slope(s, e) != 0.0
  {
    var la := Slope(s, e);
    assert la * (e.lon - s.lon) == e.lat - s.lat;
    assert Line(la, Intercept(s, e), e.lon) == s.lat + la * (e.lon - s.lon);
  }

  /** The side tests, in the original's order: left side `x = x0`, right side `x = x1`,
      bottom `y = y0`, top `y = y1`, each closed at both ends. */
  function Crosses(x0: real, x1: real, y0: real, y1: real, la: real, lb: real): bool
    requires la != 0.0
  {
    var ly := Line(la, lb, x0);
    if y0 <= ly <= y1 then true
    else
      var ly' := Line(la, lb, x1);
      if y0 <= ly' <= y1 then true
      else
        var lx := (y0 - lb) / la;
        if x0 <= lx <= x1 then true
        else
          var lx' := (y1 - lb) / la;
          x0 <= lx' <= x1
  }

  /** The line meets the closed rectangle `[x0, x1] x [y0, y1]`. */
  ghost predicate Meets(x0: real, x1: real, y0: real, y1: real, la: real, lb: real)
  {
    exists x :: x0 <= x <= x1 && y0 <= Line(la, lb, x) <= y1
  }

  /** The side tests decide exactly whether the line meets the closed rectangle. */
  lemma CrossesMeaning(x0: real, x1: real, y0: real, y1: real, la: real, lb: real)
    requires la != 0.0 && x0 <= x1 && y0 <= y1
    ensures Crosses(x0, x1, y0, y1, la, lb) <==> Meets(x0, x1, y0, y1, la, lb)
  {
    if Crosses(x0, x1, y0, y1, la, lb) {
      if y0 <= Line(la, lb, x0) <= y1 {
        assert x0 <= x0 <= x1;
      } else if y0 <= Line(la, lb, x1) <= y1 {
        assert x0 <= x1 <= x1;
      } else if x0 <= (y0 - lb) / la <= x1 {
        Solve(la, lb, y0);
      } else {
        Solve(la, lb, y1);
      }
    }
    if exists x :: x0 <= x <= x1 && y0 <= Line(la, lb, x) <= y1 {
      var x :| x0 <= x <= x1 && y0 <= Line(la, lb, x) <= y1;
      if !(y0 <= Line(la, lb, x0) <= y1) && !(y0 <= Line(la, lb, x1) <= y1) {
        LineOrder(la, lb, x0, x);
        LineOrder(la, lb, x, x1);
        Solve(la, lb, y0);
        Straddle(la, lb, x0, x1, (y0 - lb) / la);
      }
    }
  }

  /** Solving the line for `y` gives a point on it. */
  lemma Solve(la: real, lb: real, y: real)
    requires la != 0.0
    ensures Line(la, lb, (y - lb) / la) == y
  {
  }

  /** The line preserves the order of longitudes when it rises and reverses it when it
      falls. */
  lemma LineOrder(la: real, lb: real, a: real, b: real)
    requires la != 0.0 && a <= b
    ensures la > 0.0 ==> Line(la, lb, a) <= Line(la, lb, b)
    ensures la < 0.0 ==> Line(la, lb, b) <= Line(la, lb, a)
  {
    assert la * b - la * a == la * (b - a);
  }

  /** A point of the line whose latitude lies between the line's latitudes at `x0` and
      `x1` lies between `x0` and `x1`. */
  lemma Straddle(la: real, lb: real, x0: real, x1: real, x: real)
    requires la != 0.0 && x0 <= x1
    requires Min(Line(la, lb, x0), Line(la, lb, x1)) <= Line(la, lb, x) <= Max(Line(la, lb, x0), Line(la, lb, x1))
    ensures x0 <= x <= x1
  {
    if x < x0 {
      LineStrict(la, lb, x, x0);
      LineOrder(la, lb, x0, x1);
    } else if x1 < x {
      LineStrict(la, lb, x1, x);
      LineOrder(la, lb, x0, x1);
    }
  }

  /** A line that is not horizontal is one-to-one, in the direction of its slope. */
  lemma LineStrict(la: real, lb: real, a: real, b: real)
    requires la != 0.0 && a < b
    ensures la > 0.0 ==> Line(la, lb, a) < Line(la, lb, b)
    ensures la < 0.0 ==> Line(la, lb, b) < Line(la, lb, a)
  {
    assert la * b - la * a == la * (b - a);
  }
}
