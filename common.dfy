/** Shared vocabulary of the backend: optional values, identifiers, GeoJSON points,
    the outcome of a route handler and the shape of a store scan. */
module Common {

  datatype Option<+T> = None | Some(value: T)

  /** Mongo ObjectIds of user and request documents, and Date values. */
  type UserId = nat
  type RequestId = nat
  type Time = int

  /** A GeoJSON value `{ type, coordinates }`; a point stores `[lng, lat]`. */
  datatype GeoPoint = GeoPoint(kind: string, coordinates: seq<real>)

  /** A body or query location `{ lat, lng }`. */
  datatype LatLng = LatLng(lat: real, lng: real)

  /** The coordinate ranges of a GeoJSON position on the sphere. */
  predicate InBounds(lat: real, lng: real)
  {
    -90.0 <= lat <= 90.0 && -180.0 <= lng <= 180.0
  }

  function Lng(p: GeoPoint): (lng: real)
    requires |p.coordinates| == 2
  {
    p.coordinates[0]
  }

  function Lat(p: GeoPoint): (lat: real)
    requires |p.coordinates| == 2
  {
    p.coordinates[1]
  }

  /** What a 2dsphere index accepts as a point: type 'Point', two coordinates, a
      longitude in [-180, 180] and a latitude in [-90, 90]. Any other value makes the
      write that carries it fail with "Can't extract geo keys", and makes a `$geoNear`
      that is given it as `near` fail. */
  predicate IsPoint(p: GeoPoint)
  {
    p.kind == "Point" && |p.coordinates| == 2 && InBounds(Lat(p), Lng(p))
  }

  /** The point `{ type: 'Point', coordinates: [lng, lat] }` every handler builds; the
      index accepts it exactly when the two values are in range. */
  function PointAt(lat: real, lng: real): (p: GeoPoint)
    ensures p.kind == "Point" && |p.coordinates| == 2
    ensures Lat(p) == lat && Lng(p) == lng
    ensures IsPoint(p) <==> InBounds(lat, lng)
  {
    GeoPoint("Point", [lng, lat])
  }

  /** The spherical distance in metres that `$geoNear` computes between two points. */
  type GeoMetric = (GeoPoint, GeoPoint) -> real

  /** `calculateDistance(lat1, lng1, lat2, lng2)`, in kilometres. */
  type KmDistance = (real, real, real, real) -> real

  /** Why a handler ended in `next(err)`. */
  datatype Cause =
    | ValidationFailed   // a Mongoose schema validator rejected the document
    | NullReference      // a property read on a document the store did not find
    | DuplicateKey       // an insert reused an existing `_id`
    | GeoKeys            // the 2dsphere index refused the location a write carries
    | BadGeoQuery        // `$geoNear` refused its `near` point or a negative `maxDistance`

  datatype Failure =
    | Handled(code: int, message: string)  // `res.status(code).json({ message })`
    | Thrown(cause: Cause)                 // passed to the generic error handler

  datatype Response<+T> = Ok(data: T) | Fail(failure: Failure)

  /** The `{ count, data }` envelope of the listing routes. */
  datatype Listing<T> = Listing(count: nat, data: seq<T>)

  ghost predicate Distinct<K>(s: seq<K>)
  {
    forall i, j :: 0 <= i < j < |s| ==> s[i] != s[j]
  }

  /** `scan` lists every key of a collection exactly once: the documents a query reads. */
  ghost predicate Enumerates<K>(scan: seq<K>, keys: set<K>)
  {
    && (forall i :: 0 <= i < |scan| ==> scan[i] in keys)
    && (forall k :: k in keys ==> k in scan)
    && Distinct(scan)
  }

  /** A scan of a collection has as many entries as the collection has documents. */
  lemma {:induction false} EnumerationSize<K>(scan: seq<K>, keys: set<K>)
    requires Enumerates(scan, keys)
    ensures |scan| == |keys|
  {
    if scan == [] {
      assert forall k :: k in keys ==> false;
      assert keys == {};
    } else {
      var rest, head := keys - {scan[0]}, scan[0];
      forall k | k in rest
        ensures k in scan[1..]
      {
        var i :| 0 <= i < |scan| && scan[i] == k;
        assert i != 0;
      }
      forall i | 0 <= i < |scan[1..]|
        ensures scan[1..][i] in rest
      {
        assert scan[1..][i] == scan[i + 1];
        assert scan[i + 1] != scan[0];
      }
      assert forall i, j :: 0 <= i < j < |scan[1..]| ==> scan[1..][i] == scan[i + 1] && scan[1..][j] == scan[j + 1];
      EnumerationSize(scan[1..], rest);
      assert keys == rest + {head};
    }
  }
}
