/** A (latitude, longitude) pair in degrees, compared exactly, field by field. */
module GeoPosition {

  datatype GeoPos = GeoPos(lat: real, lon: real)

  /** The default constructor's placeholder position `(-1, -1)`. */
  function DefaultPos(): (p: GeoPos)
    ensures p.lat == -1.0 && p.lon == -1.0
  {
    GeoPos(-1.0, -1.0)
  }

  /** `operator==`: both coordinates equal, with no tolerance. */
  predicate Equal(a: GeoPos, b: GeoPos)
    ensures Equal(a, b) <==> a == b
  {
    a.lon == b.lon && a.lat == b.lat
  }

  /** `operator!=`. */
  predicate NotEqual(a: GeoPos, b: GeoPos)
    ensures NotEqual(a, b) <==> a != b
  {
    !Equal(a, b)
  }

  /** `operator+`: component-wise sum. */
  function Add(a: GeoPos, b: GeoPos): (r: GeoPos)
    ensures r.lat - a.lat == b.lat && r.lon - a.lon == b.lon
  {
    GeoPos(a.lat + b.lat, a.lon + b.lon)
  }

  /** Copy construction and copy assignment. */
  function Copy(p: GeoPos): (r: GeoPos)
    ensures Equal(r, p)
  {
    GeoPos(p.lat, p.lon)
  }

  /** `setLat`: only the latitude changes. */
  function SetLat(p: GeoPos, lat: real): (r: GeoPos)
    ensures r.lat == lat && r.lon == p.lon
  {
    p.(lat := lat)
  }

  /** `setLon`: only the longitude changes. */
  function SetLon(p: GeoPos, lon: real): (r: GeoPos)
    ensures r.lon == lon && r.lat == p.lat
  {
    p.(lon := lon)
  }

  /** Addition is commutative and associative, with `(0, 0)` as its unit. */
  lemma AddIsCommutativeMonoid(a: GeoPos, b: GeoPos, c: GeoPos)
    ensures Add(a, b) == Add(b, a)
    ensures Add(Add(a, b), c) == Add(a, Add(b, c))
    ensures Add(a, GeoPos(0.0, 0.0)) == a
  {
  }

  /** Setting one coordinate back to what it was restores the position. */
  lemma SettersRoundTrip(p: GeoPos, lat: real, lon: real)
    ensures SetLat(SetLat(p, lat), p.lat) == p
    ensures SetLon(SetLon(p, lon), p.lon) == p
    ensures SetLat(SetLon(p, lon), lat) == SetLon(SetLat(p, lat), lon) == GeoPos(lat, lon)
  {
  }
}
