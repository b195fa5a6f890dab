/** The proximity matcher: the `$geoNear` / `$lookup` / `$unwind` / `$match` pipelines
    of the request controller and the user routes, as filters over the documents a
    scan of a collection returns. The spherical distance is an abstract metric and
    the distance ordering of `$geoNear` is not modelled. */
module Proximity {
  import opened Common
  import opened RequestSchema
  import opened MechanicSchema
  import opened Store

  /** The radius, in metres, used when a query gives none, and by `createRequest`. */
  const DefaultMaxDistance: int := 5000

  /** `parseInt` of a decimal numeral: the integer part, truncated toward zero. */
  function Truncate(x: real): (n: int)
    ensures 0.0 <= x ==> n as real <= x < n as real + 1.0
    ensures x < 0.0 ==> n as real - 1.0 < x <= n as real
  {
    if 0.0 <= x then x.Floor else -((-x).Floor)
  }

  /** `parseInt(maxDistance)` with `maxDistance = 5000` when the query omits it. */
  function Radius(maxDistance: Option<real>): (r: int)
    ensures maxDistance.None? ==> r == DefaultMaxDistance
    ensures maxDistance.Some? && 0.0 <= maxDistance.value ==> r as real <= maxDistance.value < r as real + 1.0
    ensures maxDistance.Some? && maxDistance.value < 0.0 ==> r as real - 1.0 < maxDistance.value <= r as real
  {
    if maxDistance.None? then DefaultMaxDistance else Truncate(maxDistance.value)
  }

  /** The documents of `scan` that `keep` admits, in scan order. */
  function Filter<K>(scan: seq<K>, keep: K -> bool): (r: seq<K>)
    ensures |r| <= |scan|
    ensures forall k :: 0 <= k < |r| ==> r[k] in scan && keep(r[k])
    decreases |scan|
  {
    if scan == [] then []
    else
      var rest := Filter(scan[1..], keep);
      if keep(scan[0]) then [scan[0]] + rest else rest
  }

  /** Nothing the filter admits is dropped. */
  lemma {:induction false} FilterComplete<K>(scan: seq<K>, keep: K -> bool)
    ensures forall i :: 0 <= i < |scan| && keep(scan[i]) ==> scan[i] in Filter(scan, keep)
  {
    if scan != [] {
      FilterComplete(scan[1..], keep);
      forall i | 0 < i < |scan|
        ensures scan[i] == scan[1..][i - 1]
      {
      }
    }
  }

  /** A scan without repeats gives a result without repeats. */
  lemma {:induction false} FilterDistinct<K>(scan: seq<K>, keep: K -> bool)
    requires Distinct(scan)
    ensures Distinct(Filter(scan, keep))
  {
    if scan != [] {
      assert Distinct(scan[1..]) by {
        forall i, j | 0 <= i < j < |scan[1..]|
          ensures scan[1..][i] != scan[1..][j]
        {
          assert scan[1..][i] == scan[i + 1] && scan[1..][j] == scan[j + 1];
        }
      }
      FilterDistinct(scan[1..], keep);
      var rest := Filter(scan[1..], keep);
      if keep(scan[0]) {
        forall k | 0 <= k < |rest|
          ensures rest[k] != scan[0]
        {
          var i :| 0 <= i < |scan[1..]| && scan[1..][i] == rest[k];
          assert scan[1..][i] == scan[i + 1];
        }
        var r := [scan[0]] + rest;
        forall i, j | 0 <= i < j < |r|
          ensures r[i] != r[j]
        {
          assert r[j] == rest[j - 1];
          if i > 0 {
            assert r[i] == rest[i - 1];
          }
        }
      }
    }
  }

  /** Over a full scan of a collection the filter returns each admitted document
      exactly once, so its length is the number of admitted documents. */
  lemma FilterEnumerates<K>(scan: seq<K>, keys: set<K>, keep: K -> bool, admitted: set<K>)
    requires Enumerates(scan, keys)
    requires forall k :: k in admitted <==> k in keys && keep(k)
    ensures Enumerates(Filter(scan, keep), admitted)
    ensures |Filter(scan, keep)| == |admitted|
  {
    var r := Filter(scan, keep);
    FilterComplete(scan, keep);
    FilterDistinct(scan, keep);
    forall k | k in admitted
      ensures k in r
    {
      var i :| 0 <= i < |scan| && scan[i] == k;
    }
    EnumerationSize(r, admitted);
  }

  /** One user read by the mechanics pipeline: `role: 'mechanic'` within the radius,
      joined with a profile, and that profile has `availability: true`. */
  predicate IsAvailableMechanic(t: Tables, near: GeoPoint, radius: int, geo: GeoMetric, id: UserId)
  {
    && id in t.users
    && t.users[id].role == Mechanic
    && id in t.mechanics
    && t.mechanics[id].availability
    && geo(near, t.users[id].location) <= radius as real
  }

  function AvailableMechanicTest(t: Tables, near: GeoPoint, radius: int, geo: GeoMetric): (keep: UserId -> bool)
  {
    (id: UserId) => IsAvailableMechanic(t, near, radius, geo, id)
  }

  /** The users the mechanics pipeline returns for a scan of the users collection. */
  function AvailableMechanics(t: Tables, scan: seq<UserId>, near: GeoPoint, radius: int, geo: GeoMetric): (ids: seq<UserId>)
    ensures |ids| <= |scan|
    ensures forall k :: 0 <= k < |ids| ==> ids[k] in scan && IsAvailableMechanic(t, near, radius, geo, ids[k])
  {
    Filter(scan, AvailableMechanicTest(t, near, radius, geo))
  }

  /** Over a full scan, AvailableMechanics is exactly the set of available mechanics in
      the radius, each once. */
  lemma AvailableMechanicsExact(t: Tables, scan: seq<UserId>, near: GeoPoint, radius: int, geo: GeoMetric)
    requires Enumerates(scan, t.users.Keys)
    ensures forall id :: id in AvailableMechanics(t, scan, near, radius, geo) <==> IsAvailableMechanic(t, near, radius, geo, id)
    ensures Distinct(AvailableMechanics(t, scan, near, radius, geo))
    ensures |AvailableMechanics(t, scan, near, radius, geo)| == |set id: UserId | id in t.users && IsAvailableMechanic(t, near, radius, geo, id)|
  {
    var keep := AvailableMechanicTest(t, near, radius, geo);
    FilterEnumerates(scan, t.users.Keys, keep, set id: UserId | id in t.users && IsAvailableMechanic(t, near, radius, geo, id));
  }

  /** One request read by the requests pipeline: `status: 'pending'` within the radius,
      and its owner joins (the `$unwind` drops a request whose user is gone). */
  predicate IsNearbyPending(t: Tables, near: GeoPoint, radius: int, geo: GeoMetric, id: RequestId)
  {
    && id in t.requests
    && t.requests[id].status == Pending
    && geo(near, t.requests[id].location) <= radius as real
    && t.requests[id].user in t.users
  }

  function NearbyPendingTest(t: Tables, near: GeoPoint, radius: int, geo: GeoMetric): (keep: RequestId -> bool)
  {
    (id: RequestId) => IsNearbyPending(t, near, radius, geo, id)
  }

  /** The requests the requests pipeline returns for a scan of the requests collection. */
  function NearbyPending(t: Tables, scan: seq<RequestId>, near: GeoPoint, radius: int, geo: GeoMetric): (ids: seq<RequestId>)
    ensures |ids| <= |scan|
    ensures forall k :: 0 <= k < |ids| ==> ids[k] in scan && IsNearbyPending(t, near, radius, geo, ids[k])
  {
    Filter(scan, NearbyPendingTest(t, near, radius, geo))
  }

  lemma NearbyPendingExact(t: Tables, scan: seq<RequestId>, near: GeoPoint, radius: int, geo: GeoMetric)
    requires Enumerates(scan, t.requests.Keys)
    ensures forall id :: id in NearbyPending(t, scan, near, radius, geo) <==> IsNearbyPending(t, near, radius, geo, id)
    ensures Distinct(NearbyPending(t, scan, near, radius, geo))
  {
    var admitted := set id: RequestId | id in t.requests && IsNearbyPending(t, near, radius, geo, id);
    FilterEnumerates(scan, t.requests.Keys, NearbyPendingTest(t, near, radius, geo), admitted);
  }
}
