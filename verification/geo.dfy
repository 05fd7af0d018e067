/** Geographic points as the store holds them, their normalisation, and the
    distance used for ranking. The geodesic formula itself belongs to an
    external library and is a parameter here. */
module Geo {
  import opened Maybe

  /** `Number.MAX_SAFE_INTEGER`, the distance given to a missing point. */
  const MaxSafeInteger: nat := 9007199254740991

  /** A point as stored: either `{latitude, longitude}` or `{lat, lng}`,
      any field possibly missing. */
  datatype RawPoint = RawPoint(latitude: Option<real>, longitude: Option<real>,
                               lat: Option<real>, lng: Option<real>)

  /** The normalised point. */
  datatype Point = Point(latitude: real, longitude: real)

  /** A geodesic distance in metres; every distance on Earth is far below
      the sentinel. */
  type Meters = d: nat | d < MaxSafeInteger

  /** The distance library: any function from two points to metres. */
  type DistanceFn = (Point, Point) -> Meters

  /** The `{latitude, longitude}` shape of a point. */
  function AsLatitudeLongitude(p: Point): RawPoint {
    RawPoint(Some(p.latitude), Some(p.longitude), None, None)
  }

  /** The `{lat, lng}` shape of a point. */
  function AsLatLng(p: Point): RawPoint {
    RawPoint(None, None, Some(p.latitude), Some(p.longitude))
  }

  /** Normalises a stored point. `latitude` wins over `lat` and `longitude`
      over `lng` (the `??` operator); the result is absent exactly when the
      point is absent or a coordinate is missing under both names. */
  function ConvertGeoPoint(point: Option<RawPoint>): (r: Option<Point>)
    ensures r.None? <==>
              || point.None?
              || (point.value.latitude.None? && point.value.lat.None?)
              || (point.value.longitude.None? && point.value.lng.None?)
    ensures r.Some? && point.value.latitude.Some? ==> r.value.latitude == point.value.latitude.value
    ensures r.Some? && point.value.longitude.Some? ==> r.value.longitude == point.value.longitude.value
    ensures r.Some? && point.value.latitude.None? ==> r.value.latitude == point.value.lat.value
    ensures r.Some? && point.value.longitude.None? ==> r.value.longitude == point.value.lng.value
  {
    match point
    case None => None
    case Some(raw) =>
      var lat := if raw.latitude.Some? then raw.latitude else raw.lat;
      var lng := if raw.longitude.Some? then raw.longitude else raw.lng;
      if lat.None? || lng.None? then None
      else Some(Point(lat.value, lng.value))
  }

  /** Both accepted shapes normalise back to the point they encode. */
  lemma ShapesRoundTrip(p: Point)
    ensures ConvertGeoPoint(Some(AsLatitudeLongitude(p))) == Some(p)
    ensures ConvertGeoPoint(Some(AsLatLng(p))) == Some(p)
  {
  }

  /** Normalising an already normalised point changes nothing. */
  lemma ConvertIdempotent(point: Option<RawPoint>)
    ensures var once := ConvertGeoPoint(point);
            once.Some? ==> ConvertGeoPoint(Some(AsLatitudeLongitude(once.value))) == once
  {
  }

  /** The `lat`/`lng` fields are consulted only where `latitude`/`longitude`
      are missing: a point carrying both shapes normalises like its
      `{latitude, longitude}` part. */
  lemma LatitudeLongitudePriority(raw: RawPoint)
    requires raw.latitude.Some? && raw.longitude.Some?
    ensures ConvertGeoPoint(Some(raw)) == Some(Point(raw.latitude.value, raw.longitude.value))
  {
  }

  /** Distance between two optional points; a missing side yields the
      sentinel, so that the other item sorts after every located one. */
  function CalculateDistance(dist: DistanceFn, a: Option<Point>, b: Option<Point>): (r: nat)
    ensures r == MaxSafeInteger <==> a.None? || b.None?
    ensures a.Some? && b.Some? ==> r == dist(a.value, b.value)
  {
    if a.None? || b.None? then MaxSafeInteger else dist(a.value, b.value)
  }
}
