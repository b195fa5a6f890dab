/** backend/controllers/requestController.js: creating a request (and notifying the
    available mechanics nearby), listing nearby pending requests, and accepting a
    request with the price and ETA fallback. */
module RequestController {
  import opened Common
  import opened RequestSchema
  import opened MechanicSchema
  import opened Store
  import opened Proximity

  // ---------------------------------------------------------------- pricing

  const PricePerKm: real := 1.5
  const BasePrice: real := 20.0
  const MinutesPerKm: real := 2.0

  /** JavaScript truthiness of an optional number: absent and 0 are falsy. */
  predicate Truthy(v: Option<real>)
  {
    v.Some? && v.value != 0.0
  }

  /** `Math.round`: the nearest integer, halves rounded up. */
  function Round(x: real): (n: int)
    ensures n as real - 0.5 <= x < n as real + 0.5
  {
    (x + 0.5).Floor
  }

  /** The price when the body gives none: 1.5 per kilometre on top of 20. */
  function FallbackPrice(distance: real): (p: real)
  {
    distance * PricePerKm + BasePrice
  }

  /** The ETA when the body gives none: two minutes per kilometre, rounded. */
  function FallbackEta(distance: real): (minutes: int)
    ensures distance * 2.0 - 0.5 < minutes as real <= distance * 2.0 + 0.5
  {
    Round(distance * MinutesPerKm)
  }

  /** `price || (distance * 1.5 + 20)` */
  function FinalPrice(price: Option<real>, distance: real): (p: real)
    ensures price.Some? && price.value != 0.0 ==> p == price.value
    ensures price.None? || price.value == 0.0 ==> p == distance * 1.5 + 20.0
  {
    if Truthy(price) then price.value else FallbackPrice(distance)
  }

  /** `estimatedTime || Math.round(distance * 2)` */
  function FinalEta(estimatedTime: Option<real>, distance: real): (minutes: real)
    ensures estimatedTime.Some? && estimatedTime.value != 0.0 ==> minutes == estimatedTime.value
    ensures estimatedTime.None? || estimatedTime.value == 0.0 ==> minutes == Round(distance * 2.0) as real
  {
    if Truthy(estimatedTime) then estimatedTime.value else FallbackEta(distance) as real
  }

  /** An absent price and a price of 0 are the same to accept, and a truthy price is
      charged whatever the distance. */
  lemma PriceChoice(price: Option<real>, d1: real, d2: real)
    ensures FinalPrice(None, d1) == FinalPrice(Some(0.0), d1) == FallbackPrice(d1)
    ensures Truthy(price) ==> FinalPrice(price, d1) == FinalPrice(price, d2)
  {
  }

  /** The same for the ETA. */
  lemma EtaChoice(estimatedTime: Option<real>, d1: real, d2: real)
    ensures FinalEta(None, d1) == FinalEta(Some(0.0), d1) == FallbackEta(d1) as real
    ensures Truthy(estimatedTime) ==> FinalEta(estimatedTime, d1) == FinalEta(estimatedTime, d2)
  {
  }

  lemma FallbackExamples()
    ensures FallbackPrice(0.0) == 20.0 && FallbackEta(0.0) == 0
    ensures FallbackPrice(10.0) == 35.0 && FallbackEta(10.0) == 20
    ensures FallbackEta(1.25) == 3 && FallbackEta(1.2) == 2
  {
  }

  /** The fallback price and ETA never decrease with distance, and the price never
      goes below the base price. */
  lemma FallbackMonotone(d1: real, d2: real)
    requires 0.0 <= d1 <= d2
    ensures BasePrice <= FallbackPrice(d1) <= FallbackPrice(d2)
    ensures 0 <= FallbackEta(d1) <= FallbackEta(d2)
  {
  }

  /** The constants hard-coded in accept are the profile schema's defaults; a profile's
      own `pricePerKm` and `basePrice` are never read. */
  lemma FallbackUsesProfileDefaults(user: UserId, distance: real)
    ensures FallbackPrice(distance) == NewProfile(user, None).basePrice + NewProfile(user, None).pricePerKm * distance
  {
  }

  // ---------------------------------------------------------------- createRequest

  /** The `{ data, availableMechanics }` of a created request, with its new `_id`. */
  datatype Created = Created(id: RequestId, request: Request, availableMechanics: nat)

  /** POST /api/requests. `newId` is the ObjectId the driver mints for the insert;
      `scan` is the order in which `$geoNear` reads the users collection. The insert
      fails, storing nothing, when validation refuses the document, when the 2dsphere
      index refuses its coordinates, or when `newId` is taken. */
  function CreateStep(t: Tables, newId: RequestId, userId: Option<UserId>, serviceType: Option<string>,
                      vehicleType: Option<string>, description: Option<string>, location: Option<LatLng>,
                      now: Time, scan: seq<UserId>, geo: GeoMetric): (s: Step<Created>)
    requires WellFormed(t)
    ensures WellFormed(s.tables)
    ensures s.tables.users == t.users && s.tables.mechanics == t.mechanics
    ensures s.response.Fail? ==> s.tables == t && s.notified == []
    ensures location.None? ==> s.response == Fail(Thrown(NullReference))
    ensures location.Some? ==>
      var body := NewRequest(userId, serviceType, vehicleType, description,
                             PointAt(location.value.lat, location.value.lng), now);
      && (body.None? ==> s.response == Fail(Thrown(ValidationFailed)))
      && (body.Some? && !InBounds(location.value.lat, location.value.lng) ==> s.response == Fail(Thrown(GeoKeys)))
      && (body.Some? && InBounds(location.value.lat, location.value.lng) && newId in t.requests ==>
            s.response == Fail(Thrown(DuplicateKey)))
      && (s.response.Ok? <==> body.Some? && InBounds(location.value.lat, location.value.lng) && newId !in t.requests)
      && (s.response.Ok? ==> s.response.data.request == body.value)
    ensures s.response.Ok? ==>
      var created := s.response.data;
      && created.id == newId
      && s.tables.requests == t.requests[newId := created.request]
      && created.request.status == Pending
      && created.request.location.coordinates == [location.value.lng, location.value.lat]
      && s.notified == AvailableMechanics(s.tables, scan, created.request.location, DefaultMaxDistance, geo)
      && created.availableMechanics == |s.notified|
  {
    if location.None? then Step(t, Fail(Thrown(NullReference)), [])
    else
      var point := PointAt(location.value.lat, location.value.lng);
      match NewRequest(userId, serviceType, vehicleType, description, point, now)
      case None => Step(t, Fail(Thrown(ValidationFailed)), [])
      case Some(request) =>
        if !IsPoint(point) then Step(t, Fail(Thrown(GeoKeys)), [])
        else if newId in t.requests then Step(t, Fail(Thrown(DuplicateKey)), [])
        else
          var t' := t.(requests := t.requests[newId := request]);
          var mechanics := AvailableMechanics(t', scan, point, DefaultMaxDistance, geo);
          Step(t', Ok(Created(newId, request, |mechanics|)), mechanics)
  }

  /** Over a full scan of the users, a created request notifies exactly the available
      mechanics within 5000 m of it, each once, and reports how many there are. */
  lemma CreateNotifiesAvailableMechanics(t: Tables, newId: RequestId, userId: Option<UserId>, serviceType: Option<string>,
                                         vehicleType: Option<string>, description: Option<string>, location: Option<LatLng>,
                                         now: Time, scan: seq<UserId>, geo: GeoMetric)
    requires WellFormed(t)
    requires Enumerates(scan, t.users.Keys)
    ensures var s := CreateStep(t, newId, userId, serviceType, vehicleType, description, location, now, scan, geo);
      s.response.Ok? ==>
        var point := s.response.data.request.location;
        && (forall u :: u in s.notified <==> IsAvailableMechanic(t, point, DefaultMaxDistance, geo, u))
        && Distinct(s.notified)
        && s.response.data.availableMechanics == |set u: UserId | u in t.users && IsAvailableMechanic(t, point, DefaultMaxDistance, geo, u)|
  {
    var s := CreateStep(t, newId, userId, serviceType, vehicleType, description, location, now, scan, geo);
    if s.response.Ok? {
      var point := s.response.data.request.location;
      AvailableMechanicsExact(s.tables, scan, point, DefaultMaxDistance, geo);
      assert forall u :: IsAvailableMechanic(s.tables, point, DefaultMaxDistance, geo, u) == IsAvailableMechanic(t, point, DefaultMaxDistance, geo, u);
      assert (set u: UserId | u in s.tables.users && IsAvailableMechanic(s.tables, point, DefaultMaxDistance, geo, u))
          == (set u: UserId | u in t.users && IsAvailableMechanic(t, point, DefaultMaxDistance, geo, u));
    }
  }

  /** The handler: insert, query the mechanics, then one `sendNotification` per match. */
  method CreateRequest(db: Db, newId: RequestId, userId: Option<UserId>, serviceType: Option<string>,
                       vehicleType: Option<string>, description: Option<string>, location: Option<LatLng>,
                       now: Time, scan: seq<UserId>, geo: GeoMetric)
    returns (response: Response<Created>, notified: seq<UserId>)
    requires db.Valid()
    modifies db
    ensures db.Valid()
    ensures Step(db.Snapshot(), response, notified)
         == CreateStep(old(db.Snapshot()), newId, userId, serviceType, vehicleType, description, location, now, scan, geo)
  {
    if location.None? {
      return Fail(Thrown(NullReference)), [];
    }
    var point := PointAt(location.value.lat, location.value.lng);
    var request := NewRequest(userId, serviceType, vehicleType, description, point, now);
    if request.None? {
      return Fail(Thrown(ValidationFailed)), [];
    }
    if !IsPoint(point) {
      return Fail(Thrown(GeoKeys)), [];
    }
    if newId in db.requests {
      return Fail(Thrown(DuplicateKey)), [];
    }
    db.requests := db.requests[newId := request.value];
    var mechanics := AvailableMechanics(db.Snapshot(), scan, point, DefaultMaxDistance, geo);
    notified := [];
    var i := 0;
    while i < |mechanics|
      invariant 0 <= i <= |mechanics|
      invariant notified == mechanics[..i]
    {
      notified := notified + [mechanics[i]];
      i := i + 1;
    }
    response := Ok(Created(newId, request.value, |mechanics|));
  }

  // ---------------------------------------------------------------- getNearbyRequests

  /** The owner document after `$project` drops its password, role and createdAt. */
  datatype Owner = Owner(id: UserId, name: string, email: string, phone: string, location: GeoPoint, updatedAt: Time)

  /** One result row: the request, the `distance` field `$geoNear` adds, and the owner. */
  datatype NearbyRequest = NearbyRequest(id: RequestId, request: Request, distance: real, owner: Owner)

  function OwnerView(id: UserId, u: User): (o: Owner)
    ensures o.id == id && o.name == u.name && o.email == u.email && o.phone == u.phone
    ensures o.location == u.location && o.updatedAt == u.updatedAt
  {
    Owner(id, u.name, u.email, u.phone, u.location, u.updatedAt)
  }

  function NearbyRow(t: Tables, id: RequestId, near: GeoPoint, geo: GeoMetric): (row: NearbyRequest)
    requires id in t.requests && t.requests[id].user in t.users
  {
    var r := t.requests[id];
    NearbyRequest(id, r, geo(near, r.location), OwnerView(r.user, t.users[r.user]))
  }

  /** GET /api/requests/nearby?lat&lng&maxDistance, over a full scan of the requests.
      `$geoNear` throws on a query point out of range or a negative radius. */
  function GetNearbyRequests(t: Tables, scan: seq<RequestId>, lat: real, lng: real, maxDistance: Option<real>,
                             geo: GeoMetric): (r: Response<Listing<NearbyRequest>>)
    requires Enumerates(scan, t.requests.Keys)
    ensures r.Fail? <==> !InBounds(lat, lng) || Radius(maxDistance) < 0
    ensures r.Fail? ==> r.failure == Thrown(BadGeoQuery)
    ensures r.Ok? ==> r.data.count == |r.data.data|
    ensures r.Ok? ==> forall k :: 0 <= k < |r.data.data| ==>
      && IsNearbyPending(t, PointAt(lat, lng), Radius(maxDistance), geo, r.data.data[k].id)
      && r.data.data[k] == NearbyRow(t, r.data.data[k].id, PointAt(lat, lng), geo)
    ensures r.Ok? ==> forall id :: IsNearbyPending(t, PointAt(lat, lng), Radius(maxDistance), geo, id) ==>
      exists k :: 0 <= k < |r.data.data| && r.data.data[k].id == id
    ensures r.Ok? ==> forall j, k :: 0 <= j < k < |r.data.data| ==> r.data.data[j].id != r.data.data[k].id
  {
    var near, radius := PointAt(lat, lng), Radius(maxDistance);
    if !IsPoint(near) || radius < 0 then Fail(Thrown(BadGeoQuery))
    else
      var ids := NearbyPending(t, scan, near, radius, geo);
      NearbyPendingExact(t, scan, near, radius, geo);
      var rows := seq(|ids|, k requires 0 <= k < |ids| => NearbyRow(t, ids[k], near, geo));
      assert forall k :: 0 <= k < |rows| ==> rows[k].id == ids[k];
      assert forall id :: IsNearbyPending(t, near, radius, geo, id) ==> exists k :: 0 <= k < |ids| && ids[k] == id;
      Ok(Listing(|rows|, rows))
  }

  // ---------------------------------------------------------------- acceptRequest

  /** `calculateDistance(request lat, request lng, mechanic lat, mechanic lng)`: the
      latitude is `coordinates[1]` and the longitude `coordinates[0]` of each point. */
  function AcceptDistance(t: Tables, id: RequestId, mechanicId: UserId, distanceKm: KmDistance): (d: real)
    requires WellFormed(t) && id in t.requests && mechanicId in t.users
    ensures var from, to := t.requests[id].location.coordinates, t.users[mechanicId].location.coordinates;
      d == distanceKm(from[1], from[0], to[1], to[0])
  {
    var from, to := t.requests[id].location, t.users[mechanicId].location;
    distanceKm(Lat(from), Lng(from), Lat(to), Lng(to))
  }

  /** PUT /api/requests/:id/accept with body `{ mechanicId, price, estimatedTime }`.
      A missing request or mechanic user is dereferenced and throws before any write;
      the prior status is never checked. */
  function AcceptStep(t: Tables, id: RequestId, mechanicId: UserId, price: Option<real>, estimatedTime: Option<real>,
                      now: Time, distanceKm: KmDistance): (s: Step<Request>)
    requires WellFormed(t)
    ensures WellFormed(s.tables)
    ensures s.tables.users == t.users
    ensures id !in t.requests || mechanicId !in t.users ==> s == Step(t, Fail(Thrown(NullReference)), [])
    ensures id in t.requests && mechanicId in t.users ==> s.response.Ok?
    ensures s.response.Ok? ==>
      var before, after, d := t.requests[id], s.response.data, AcceptDistance(t, id, mechanicId, distanceKm);
      && s.tables.requests == t.requests[id := after]
      && after.status == Accepted
      && after.mechanic == Some(mechanicId)
      && after.acceptedAt == Some(now)
      && after.price == Some(FinalPrice(price, d))
      && after.estimatedTime == Some(FinalEta(estimatedTime, d))
      && after.(mechanic := before.mechanic, status := before.status, price := before.price,
                estimatedTime := before.estimatedTime, acceptedAt := before.acceptedAt) == before
      && s.notified == [before.user]
    ensures id in t.requests && mechanicId in t.users && mechanicId in t.mechanics ==>
      s.tables.mechanics == t.mechanics[mechanicId := Bind(t.mechanics[mechanicId], id)]
    ensures mechanicId !in t.mechanics ==> s.tables.mechanics == t.mechanics
  {
    if id !in t.requests || mechanicId !in t.users then Step(t, Fail(Thrown(NullReference)), [])
    else
      var request := t.requests[id];
      var distance := AcceptDistance(t, id, mechanicId, distanceKm);
      var updated := request.(mechanic := Some(mechanicId), status := Accepted,
                              price := Some(FinalPrice(price, distance)),
                              estimatedTime := Some(FinalEta(estimatedTime, distance)),
                              acceptedAt := Some(now));
      var profiles := if mechanicId in t.mechanics then t.mechanics[mechanicId := Bind(t.mechanics[mechanicId], id)]
                      else t.mechanics;
      Step(Tables(t.users, t.requests[id := updated], profiles), Ok(updated), [request.user])
  }

  /** The handler: two reads, the request update, the profile update (a no-op when the
      mechanic has no profile), then the notification to the request's owner. */
  method AcceptRequest(db: Db, id: RequestId, mechanicId: UserId, price: Option<real>, estimatedTime: Option<real>,
                       now: Time, distanceKm: KmDistance)
    returns (response: Response<Request>, notified: seq<UserId>)
    requires db.Valid()
    modifies db
    ensures db.Valid()
    ensures Step(db.Snapshot(), response, notified)
         == AcceptStep(old(db.Snapshot()), id, mechanicId, price, estimatedTime, now, distanceKm)
  {
    if id !in db.requests || mechanicId !in db.users {
      return Fail(Thrown(NullReference)), [];
    }
    var request := db.requests[id];
    var distance := AcceptDistance(db.Snapshot(), id, mechanicId, distanceKm);
    var finalPrice := FinalPrice(price, distance);
    var updated := request.(mechanic := Some(mechanicId), status := Accepted, price := Some(finalPrice),
                            estimatedTime := Some(FinalEta(estimatedTime, distance)), acceptedAt := Some(now));
    db.requests := db.requests[id := updated];
    if mechanicId in db.mechanics {
      db.mechanics := db.mechanics[mechanicId := Bind(db.mechanics[mechanicId], id)];
    }
    response, notified := Ok(updated), [request.user];
  }
}
