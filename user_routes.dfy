/** backend/routes/userRoutes.js: listing and reading users without their password,
    moving the signed-in user (`me`), and the nearby available mechanics. */
module UserRoutes {
  import opened Common
  import opened MechanicSchema
  import opened Store
  import opened Proximity

  /** A user as `.select('-password')` returns it. */
  datatype PublicUser = PublicUser(id: UserId, name: string, email: string, phone: string, role: Role,
                                   location: GeoPoint, createdAt: Time, updatedAt: Time)

  function PublicView(id: UserId, u: User): (v: PublicUser)
    ensures v.id == id && v.name == u.name && v.email == u.email && v.phone == u.phone
    ensures v.role == u.role && v.location == u.location
    ensures v.createdAt == u.createdAt && v.updatedAt == u.updatedAt
  {
    PublicUser(id, u.name, u.email, u.phone, u.role, u.location, u.createdAt, u.updatedAt)
  }

  const UserNotFound: Failure := Handled(404, "User not found")

  /** GET /api/users over a full scan of the users collection. */
  function ListUsers(t: Tables, scan: seq<UserId>): (r: Listing<PublicUser>)
    requires Enumerates(scan, t.users.Keys)
    ensures r.count == |r.data| == |t.users|
    ensures forall k :: 0 <= k < |r.data| ==> r.data[k].id in t.users && r.data[k] == PublicView(r.data[k].id, t.users[r.data[k].id])
    ensures forall id :: id in t.users ==> PublicView(id, t.users[id]) in r.data
  {
    EnumerationSize(scan, t.users.Keys);
    var rows := seq(|scan|, k requires 0 <= k < |scan| => PublicView(scan[k], t.users[scan[k]]));
    assert forall id :: id in t.users ==> exists k :: 0 <= k < |scan| && scan[k] == id && rows[k] == PublicView(id, t.users[id]);
    Listing(|rows|, rows)
  }

  /** GET /api/users/:id */
  function GetUser(t: Tables, id: UserId): (r: Response<PublicUser>)
    ensures r.Ok? <==> id in t.users
    ensures r.Ok? ==> r.data == PublicView(id, t.users[id])
    ensures r.Fail? ==> r.failure == UserNotFound
  {
    if id in t.users then Ok(PublicView(id, t.users[id])) else Fail(UserNotFound)
  }

  /** PUT /api/users/location with body `{ lat, lng }`: `findByIdAndUpdate` of the
      signed-in user; null when that user is gone. The users' 2dsphere index (which
      their `$geoNear` relies on) refuses a position out of range, and nothing changes. */
  function LocationStep(t: Tables, me: UserId, lat: real, lng: real): (s: Step<Option<PublicUser>>)
    requires WellFormed(t)
    ensures WellFormed(s.tables)
    ensures s.tables.requests == t.requests && s.tables.mechanics == t.mechanics && s.notified == []
    ensures me !in t.users ==> s == Step(t, Ok(None), [])
    ensures me in t.users && !InBounds(lat, lng) ==> s == Step(t, Fail(Thrown(GeoKeys)), [])
    ensures me in t.users && InBounds(lat, lng) ==>
      && s.tables.users.Keys == t.users.Keys
      && (forall u :: u in t.users && u != me ==> s.tables.users[u] == t.users[u])
      && s.tables.users[me].(location := t.users[me].location) == t.users[me]
      && s.tables.users[me].location == GeoPoint("Point", [lng, lat])
      && s.response == Ok(Some(PublicView(me, s.tables.users[me])))
  {
    if me !in t.users then Step(t, Ok(None), [])
    else
      var point := PointAt(lat, lng);
      if !IsPoint(point) then Step(t, Fail(Thrown(GeoKeys)), [])
      else
        var moved := t.users[me].(location := point);
        Step(t.(users := t.users[me := moved]), Ok(Some(PublicView(me, moved))), [])
  }

  method UpdateLocation(db: Db, me: UserId, lat: real, lng: real) returns (response: Response<Option<PublicUser>>)
    requires db.Valid()
    modifies db
    ensures db.Valid()
    ensures Step(db.Snapshot(), response, []) == LocationStep(old(db.Snapshot()), me, lat, lng)
  {
    if me !in db.users {
      return Ok(None);
    }
    var point := PointAt(lat, lng);
    if !IsPoint(point) {
      return Fail(Thrown(GeoKeys));
    }
    var moved := db.users[me].(location := point);
    db.users := db.users[me := moved];
    response := Ok(Some(PublicView(me, moved)));
  }

  /** One result row: the user without password, createdAt and updatedAt, with the
      `distance` field of `$geoNear` and the joined profile. */
  datatype MechanicMatch = MechanicMatch(id: UserId, name: string, email: string, phone: string, role: Role,
                                         location: GeoPoint, distance: real, mechanicProfile: Profile)

  function MatchRow(t: Tables, id: UserId, near: GeoPoint, geo: GeoMetric): (row: MechanicMatch)
    requires id in t.users && id in t.mechanics
  {
    var u := t.users[id];
    MechanicMatch(id, u.name, u.email, u.phone, u.role, u.location, geo(near, u.location), t.mechanics[id])
  }

  /** GET /api/users/mechanics/nearby?lat&lng&maxDistance over a full scan of the users.
      `$geoNear` throws on a query point out of range or a negative radius. */
  function NearbyMechanics(t: Tables, scan: seq<UserId>, lat: real, lng: real, maxDistance: Option<real>,
                           geo: GeoMetric): (r: Response<Listing<MechanicMatch>>)
    requires Enumerates(scan, t.users.Keys)
    ensures r.Fail? <==> !InBounds(lat, lng) || Radius(maxDistance) < 0
    ensures r.Fail? ==> r.failure == Thrown(BadGeoQuery)
    ensures r.Ok? ==> r.data.count == |r.data.data|
    ensures r.Ok? ==> forall k :: 0 <= k < |r.data.data| ==>
      && IsAvailableMechanic(t, PointAt(lat, lng), Radius(maxDistance), geo, r.data.data[k].id)
      && r.data.data[k] == MatchRow(t, r.data.data[k].id, PointAt(lat, lng), geo)
    ensures r.Ok? ==> forall id :: IsAvailableMechanic(t, PointAt(lat, lng), Radius(maxDistance), geo, id) ==>
      exists k :: 0 <= k < |r.data.data| && r.data.data[k].id == id
    ensures r.Ok? ==> forall j, k :: 0 <= j < k < |r.data.data| ==> r.data.data[j].id != r.data.data[k].id
  {
    var near, radius := PointAt(lat, lng), Radius(maxDistance);
    if !IsPoint(near) || radius < 0 then Fail(Thrown(BadGeoQuery))
    else
      var ids := AvailableMechanics(t, scan, near, radius, geo);
      AvailableMechanicsExact(t, scan, near, radius, geo);
      var rows := seq(|ids|, k requires 0 <= k < |ids| => MatchRow(t, ids[k], near, geo));
      assert forall k :: 0 <= k < |rows| ==> rows[k].id == ids[k];
      assert forall id :: IsAvailableMechanic(t, near, radius, geo, id) ==> exists k :: 0 <= k < |ids| && ids[k] == id;
      Ok(Listing(|rows|, rows))
  }
}
