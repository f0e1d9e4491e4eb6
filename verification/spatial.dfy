/** The `Point` value type of `src/spatial.py`: a geographic record whose
    longitude lies in [-180, 180] and whose latitude lies in [-90, 90].
    Coordinates are exact reals. */
module Spatial {
  import opened Wrappers

  /** The two ways construction can fail; longitude is checked first. */
  datatype PointError = LongitudeOutOfRange | LatitudeOutOfRange {
    /** The message the constructor raises its `ValueError` with. */
    function Message(): string {
      match this
      case LongitudeOutOfRange => "Longitude must be between -180 and 180"
      case LatitudeOutOfRange => "Latitude must be between -90 and 90"
    }
  }

  /** The five stored fields. `name` and `tag` are optional. */
  datatype Point = Point(id: string, lon: real, lat: real, name: Option<string>, tag: Option<string>)

  predicate LonInRange(lon: real) {
    -180.0 <= lon <= 180.0
  }

  predicate LatInRange(lat: real) {
    -90.0 <= lat <= 90.0
  }

  /** The coordinate-range invariant every constructed point satisfies. */
  predicate Valid(p: Point) {
    LonInRange(p.lon) && LatInRange(p.lat)
  }

  type ValidPoint = p: Point | Valid(p) witness Point("", 0.0, 0.0, None, None)

  /** `Point(id, lon, lat, name=None, tag=None)`: the range checks, longitude
      before latitude, then the fields stored as given. */
  function MakePoint(id: string, lon: real, lat: real,
                     name: Option<string> := None, tag: Option<string> := None): (r: Result<ValidPoint, PointError>)
    ensures r.Success? <==> -180.0 <= lon <= 180.0 && -90.0 <= lat <= 90.0
    ensures !(-180.0 <= lon <= 180.0) ==> r == Failure(LongitudeOutOfRange)
    ensures -180.0 <= lon <= 180.0 && !(-90.0 <= lat <= 90.0) ==> r == Failure(LatitudeOutOfRange)
    ensures r.Success? ==> r.value.id == id && r.value.lon == lon && r.value.lat == lat
                           && r.value.name == name && r.value.tag == tag
  {
    if !LonInRange(lon) then Failure(LongitudeOutOfRange)
    else if !LatInRange(lat) then Failure(LatitudeOutOfRange)
    else Success(Point(id, lon, lat, name, tag))
  }

  /** A failed construction reports the message of the check that tripped:
      the longitude message whenever the longitude is out of range, the
      latitude message otherwise. */
  lemma MakePointErrorMessage(id: string, lon: real, lat: real, name: Option<string>, tag: Option<string>)
    requires MakePoint(id, lon, lat, name, tag).Failure?
    ensures !LonInRange(lon) ==>
              MakePoint(id, lon, lat, name, tag).error.Message() == "Longitude must be between -180 and 180"
    ensures LonInRange(lon) ==>
              !LatInRange(lat) && MakePoint(id, lon, lat, name, tag).error.Message() == "Latitude must be between -90 and 90"
  {
  }

  /** `to_tuple`: the coordinate as a (lon, lat) pair. The pair lies in the
      valid range and, longitude first, rebuilds the point together with its
      other fields. */
  function ToTuple(p: ValidPoint): (r: (real, real))
    ensures LonInRange(r.0) && LatInRange(r.1)
    ensures MakePoint(p.id, r.0, r.1, p.name, p.tag) == Success(p)
  {
    (p.lon, p.lat)
  }

  /** The signature of `Point.haversine_m(lon1, lat1, lon2, lat2)`. Its body is
      floating-point trigonometry and is not modelled: every operation that
      uses it takes it as a parameter. */
  type Haversine = (real, real, real, real) -> real

  /** `distance_to`: delegates to the haversine function, passing the
      receiver's (lon, lat) pair, then the other point's, in `to_tuple` order. */
  function DistanceTo(p: ValidPoint, other: ValidPoint, haversine: Haversine): (r: real)
    ensures r == haversine(ToTuple(p).0, ToTuple(p).1, ToTuple(other).0, ToTuple(other).1)
  {
    haversine(p.lon, p.lat, other.lon, other.lat)
  }

  /** Construction succeeds exactly when the point it would build satisfies
      the range invariant, and then yields that very point. */
  lemma MakePointMatchesValid(id: string, lon: real, lat: real, name: Option<string>, tag: Option<string>)
    ensures MakePoint(id, lon, lat, name, tag).Success? <==> Valid(Point(id, lon, lat, name, tag))
    ensures MakePoint(id, lon, lat, name, tag).Success? ==>
              MakePoint(id, lon, lat, name, tag).value == Point(id, lon, lat, name, tag)
  {
  }

  /** Every valid point can be rebuilt from its own fields, so the range
      invariant is exactly the set of constructible points. */
  lemma RebuildValidPoint(p: ValidPoint)
    ensures MakePoint(p.id, p.lon, p.lat, p.name, p.tag) == Success(p)
  {
  }

  /** Omitted `name` and `tag` default to absent. */
  lemma MakePointDefaults(id: string, lon: real, lat: real)
    ensures MakePoint(id, lon, lat) == MakePoint(id, lon, lat, None, None)
    ensures MakePoint(id, lon, lat).Success? ==>
              MakePoint(id, lon, lat).value.name == None && MakePoint(id, lon, lat).value.tag == None
  {
  }

  /** The bounds are inclusive; one step outside fails with the check that
      trips first. */
  lemma MakePointBoundaries()
    ensures MakePoint("A", 180.0, 90.0).Success?
    ensures MakePoint("A", -180.0, -90.0).Success?
    ensures MakePoint("A", 181.0, 0.0) == Failure(LongitudeOutOfRange)
    ensures MakePoint("X", 999.0, 14.0) == Failure(LongitudeOutOfRange)
    ensures MakePoint("A", 0.0, 90.5) == Failure(LatitudeOutOfRange)
    ensures MakePoint("A", 200.0, 95.0) == Failure(LongitudeOutOfRange)
  {
  }

  /** The distance depends on the coordinates only: id, name and tag play
      no part. */
  lemma DistanceDependsOnCoordinates(p: ValidPoint, p': ValidPoint, q: ValidPoint, q': ValidPoint, haversine: Haversine)
    requires ToTuple(p) == ToTuple(p') && ToTuple(q) == ToTuple(q')
    ensures DistanceTo(p, q, haversine) == DistanceTo(p', q', haversine)
  {
  }

  /** If the haversine function is symmetric in its two coordinate pairs,
      so is `distance_to`. The proof uses that `DistanceTo` passes each
      point's coordinates as a pair, one pair in positions 1-2 and the other
      in 3-4, with both pairs in the same internal order, (lon, lat). */
  lemma DistanceSymmetricWhenHaversineIs(p: ValidPoint, q: ValidPoint, haversine: Haversine)
    requires forall a, b, c, d :: haversine(a, b, c, d) == haversine(c, d, a, b)
    ensures DistanceTo(p, q, haversine) == DistanceTo(q, p, haversine)
  {
  }

  /** If the haversine function is zero on equal pairs, a point is at
      distance zero from any point with the same coordinates. Like the
      symmetry lemma, it uses that both pairs are passed in the same
      internal order, (lon, lat). */
  lemma DistanceZeroWhenHaversineIs(p: ValidPoint, q: ValidPoint, haversine: Haversine)
    requires forall a, b :: haversine(a, b, a, b) == 0.0
    requires ToTuple(p) == ToTuple(q)
    ensures DistanceTo(p, q, haversine) == 0.0
  {
  }
}
