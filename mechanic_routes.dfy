/** backend/routes/mechanicRoutes.js: the profile of the signed-in mechanic (`me`),
    its availability, its current request and completing that request. */
module MechanicRoutes {
  import opened Common
  import opened RequestSchema
  import opened MechanicSchema
  import opened Store

  const ProfileNotFound: Failure := Handled(404, "Mechanic profile not found")
  const NoActiveRequest: Failure := Handled(400, "No active request found")

  /** GET /api/mechanics/profile */
  function GetProfile(t: Tables, me: UserId): (r: Response<Profile>)
    ensures r.Ok? <==> me in t.mechanics
    ensures r.Ok? ==> r.data == t.mechanics[me]
    ensures r.Fail? ==> r.failure == ProfileNotFound
  {
    if me in t.mechanics then Ok(t.mechanics[me]) else Fail(ProfileNotFound)
  }

  /** POST /api/mechanics/profile with body `{ availability }`: update the profile when
      there is one, else create it with the schema defaults. The body's specialties,
      experience, hourlyRate and currentLocation are not schema paths and are dropped. */
  function UpsertStep(t: Tables, me: UserId, availability: Option<bool>): (s: Step<Profile>)
    requires WellFormed(t)
    ensures WellFormed(s.tables)
    ensures s.tables.users == t.users && s.tables.requests == t.requests && s.notified == []
    ensures s.response.Ok? && s.tables.mechanics == t.mechanics[me := s.response.data]
    ensures me in t.mechanics ==> s.response.data == WithAvailability(t.mechanics[me], availability)
    ensures me !in t.mechanics ==> s.response.data == NewProfile(me, availability)
  {
    var profile := if me in t.mechanics then WithAvailability(t.mechanics[me], availability)
                   else NewProfile(me, availability);
    Step(t.(mechanics := t.mechanics[me := profile]), Ok(profile), [])
  }

  method UpsertProfile(db: Db, me: UserId, availability: Option<bool>) returns (response: Response<Profile>)
    requires db.Valid()
    modifies db
    ensures db.Valid()
    ensures Step(db.Snapshot(), response, []) == UpsertStep(old(db.Snapshot()), me, availability)
  {
    var existing := GetProfile(db.Snapshot(), me);
    var profile: Profile;
    if existing.Ok? {
      profile := WithAvailability(existing.data, availability);
    } else {
      profile := NewProfile(me, availability);
      assert profile.user == me;
    }
    db.mechanics := db.mechanics[me := profile];
    response := Ok(profile);
  }

  /** PUT /api/mechanics/availability with body `{ availability }`: only that field is
      written; `currentRequest` is left as it was. */
  function AvailabilityStep(t: Tables, me: UserId, availability: Option<bool>): (s: Step<Profile>)
    requires WellFormed(t)
    ensures WellFormed(s.tables)
    ensures s.tables.users == t.users && s.tables.requests == t.requests && s.notified == []
    ensures me !in t.mechanics ==> s == Step(t, Fail(ProfileNotFound), [])
    ensures me in t.mechanics ==>
      && s.response.Ok?
      && s.tables.mechanics == t.mechanics[me := s.response.data]
      && s.response.data.availability == (if availability.Some? then availability.value else t.mechanics[me].availability)
      && s.response.data.currentRequest == t.mechanics[me].currentRequest
      && s.response.data.(availability := t.mechanics[me].availability) == t.mechanics[me]
  {
    if me !in t.mechanics then Step(t, Fail(ProfileNotFound), [])
    else
      var profile := WithAvailability(t.mechanics[me], availability);
      Step(t.(mechanics := t.mechanics[me := profile]), Ok(profile), [])
  }

  method UpdateAvailability(db: Db, me: UserId, availability: Option<bool>) returns (response: Response<Profile>)
    requires db.Valid()
    modifies db
    ensures db.Valid()
    ensures Step(db.Snapshot(), response, []) == AvailabilityStep(old(db.Snapshot()), me, availability)
  {
    if me !in db.mechanics {
      return Fail(ProfileNotFound);
    }
    var profile := WithAvailability(db.mechanics[me], availability);
    db.mechanics := db.mechanics[me := profile];
    response := Ok(profile);
  }

  /** GET /api/mechanics/current-request: null without a profile or without a bound
      request, otherwise `findById` of the bound request (null if it is gone). */
  function CurrentRequest(t: Tables, me: UserId): (r: Option<Request>)
    ensures r.Some? <==> me in t.mechanics && t.mechanics[me].currentRequest.Some?
                         && t.mechanics[me].currentRequest.value in t.requests
    ensures r.Some? ==> r.value == t.requests[t.mechanics[me].currentRequest.value]
  {
    if me !in t.mechanics || t.mechanics[me].currentRequest.None? then None
    else
      var id := t.mechanics[me].currentRequest.value;
      if id in t.requests then Some(t.requests[id]) else None
  }

  /** PUT /api/mechanics/complete-request: whatever the bound request's status, it
      becomes completed; the profile is released even when that request is gone. */
  function CompleteStep(t: Tables, me: UserId, now: Time): (s: Step<Option<Request>>)
    requires WellFormed(t)
    ensures WellFormed(s.tables)
    ensures s.tables.users == t.users && s.notified == []
    ensures me !in t.mechanics || t.mechanics[me].currentRequest.None? ==> s == Step(t, Fail(NoActiveRequest), [])
    ensures me in t.mechanics && t.mechanics[me].currentRequest.Some? ==>
      var id := t.mechanics[me].currentRequest.value;
      && s.tables.mechanics == t.mechanics[me := Release(t.mechanics[me])]
      && (id !in t.requests ==> s.tables.requests == t.requests && s.response == Ok(None))
      && (id in t.requests ==>
            && s.tables.requests == t.requests[id := t.requests[id].(status := Completed, completedAt := Some(now))]
            && s.response == Ok(Some(s.tables.requests[id])))
  {
    if me !in t.mechanics || t.mechanics[me].currentRequest.None? then Step(t, Fail(NoActiveRequest), [])
    else
      var id := t.mechanics[me].currentRequest.value;
      var requests := if id in t.requests then t.requests[id := t.requests[id].(status := Completed, completedAt := Some(now))]
                      else t.requests;
      var updated := if id in requests then Some(requests[id]) else None;
      Step(Tables(t.users, requests, t.mechanics[me := Release(t.mechanics[me])]), Ok(updated), [])
  }

  /** The handler: look up the profile, update the request, then release the profile. */
  method CompleteRequest(db: Db, me: UserId, now: Time) returns (response: Response<Option<Request>>)
    requires db.Valid()
    modifies db
    ensures db.Valid()
    ensures Step(db.Snapshot(), response, []) == CompleteStep(old(db.Snapshot()), me, now)
  {
    if me !in db.mechanics || db.mechanics[me].currentRequest.None? {
      return Fail(NoActiveRequest);
    }
    var profile := db.mechanics[me];
    var id := profile.currentRequest.value;
    var updated: Option<Request> := None;
    if id in db.requests {
      var request := db.requests[id].(status := Completed, completedAt := Some(now));
      db.requests := db.requests[id := request];
      updated := Some(request);
    }
    db.mechanics := db.mechanics[me := Release(profile)];
    response := Ok(updated);
  }
}
