/** The request/mechanic lifecycle across handlers: which handlers keep the invariant
    "a profile is unavailable exactly when it is bound to a request", what accept
    followed by complete leaves behind, and what the missing status guards allow. */
module Lifecycle {
  import opened Common
  import opened RequestSchema
  import opened MechanicSchema
  import opened Store
  import opened Proximity
  import opened RequestController
  import opened MechanicRoutes

  lemma AcceptKeepsConsistency(t: Tables, id: RequestId, mechanicId: UserId, price: Option<real>,
                               estimatedTime: Option<real>, now: Time, distanceKm: KmDistance)
    requires WellFormed(t) && Consistent(t)
    ensures Consistent(AcceptStep(t, id, mechanicId, price, estimatedTime, now, distanceKm).tables)
  {
  }

  lemma CompleteKeepsConsistency(t: Tables, me: UserId, now: Time)
    requires WellFormed(t) && Consistent(t)
    ensures Consistent(CompleteStep(t, me, now).tables)
  {
  }

  /** PUT /availability keeps the touched profile consistent only when the value written
      agrees with its binding: it can free a bound mechanic or block an unbound one. */
  lemma AvailabilityConsistency(t: Tables, me: UserId, availability: bool)
    requires WellFormed(t) && me in t.mechanics
    ensures var s := AvailabilityStep(t, me, Some(availability));
      ProfileConsistent(s.tables.mechanics[me]) <==> (availability <==> t.mechanics[me].currentRequest.None?)
  {
  }

  /** POST /profile likewise: an update writes availability without looking at the
      binding; a created profile is consistent unless it is created unavailable. */
  lemma UpsertConsistency(t: Tables, me: UserId, availability: Option<bool>)
    requires WellFormed(t)
    ensures var s := UpsertStep(t, me, availability);
      && (me in t.mechanics && availability.Some? ==>
            (ProfileConsistent(s.tables.mechanics[me]) <==> (availability.value <==> t.mechanics[me].currentRequest.None?)))
      && (me in t.mechanics && availability.None? ==>
            (ProfileConsistent(s.tables.mechanics[me]) <==> ProfileConsistent(t.mechanics[me])))
      && (me !in t.mechanics ==>
            (ProfileConsistent(s.tables.mechanics[me]) <==> availability != Some(false)))
  {
  }

  /** Accept binds the mechanic to the request, and GET /current-request then returns
      the accepted request. */
  lemma AcceptBindsCurrentRequest(t: Tables, id: RequestId, mechanicId: UserId, price: Option<real>,
                                  estimatedTime: Option<real>, now: Time, distanceKm: KmDistance)
    requires WellFormed(t) && id in t.requests && mechanicId in t.users && mechanicId in t.mechanics
    ensures var s := AcceptStep(t, id, mechanicId, price, estimatedTime, now, distanceKm);
      && CurrentRequest(s.tables, mechanicId) == Some(s.response.data)
      && s.response.data.status == Accepted
  {
  }

  /** After accept, neither the mechanic nor the request is offered by the nearby
      queries any more, whatever the point and radius. */
  lemma AcceptLeavesNearbyQueries(t: Tables, id: RequestId, mechanicId: UserId, price: Option<real>,
                                  estimatedTime: Option<real>, now: Time, distanceKm: KmDistance,
                                  near: GeoPoint, radius: int, geo: GeoMetric)
    requires WellFormed(t) && id in t.requests && mechanicId in t.users
    ensures var s := AcceptStep(t, id, mechanicId, price, estimatedTime, now, distanceKm);
      && !IsAvailableMechanic(s.tables, near, radius, geo, mechanicId)
      && !IsNearbyPending(s.tables, near, radius, geo, id)
  {
  }

  /** Accept followed by complete by the same available, unbound mechanic: the request
      ends completed by that mechanic, the profile is exactly as before, GET
      /current-request returns null again, and no other request has changed. */
  lemma AcceptThenComplete(t: Tables, id: RequestId, mechanicId: UserId, price: Option<real>,
                           estimatedTime: Option<real>, accepted: Time, completed: Time, distanceKm: KmDistance)
    requires WellFormed(t) && id in t.requests && mechanicId in t.users && mechanicId in t.mechanics
    requires t.mechanics[mechanicId].availability && t.mechanics[mechanicId].currentRequest.None?
    ensures var s1 := AcceptStep(t, id, mechanicId, price, estimatedTime, accepted, distanceKm);
      var s2 := CompleteStep(s1.tables, mechanicId, completed);
      && s2.response == Ok(Some(s2.tables.requests[id]))
      && s2.tables.requests[id].status == Completed
      && s2.tables.requests[id].mechanic == Some(mechanicId)
      && s2.tables.requests[id].acceptedAt == Some(accepted)
      && s2.tables.requests[id].completedAt == Some(completed)
      && s2.tables.mechanics == t.mechanics
      && s2.tables.users == t.users
      && s2.tables.requests.Keys == t.requests.Keys
      && (forall other :: other in t.requests && other != id ==> s2.tables.requests[other] == t.requests[other])
      && CurrentRequest(s2.tables, mechanicId).None?
  {
  }

  /** No status guard on accept: a completed request can be accepted again. It is then
      marked accepted while still carrying its completion time. */
  lemma AcceptReopensCompleted(t: Tables, id: RequestId, mechanicId: UserId, price: Option<real>,
                               estimatedTime: Option<real>, now: Time, distanceKm: KmDistance)
    requires WellFormed(t) && id in t.requests && mechanicId in t.users
    requires t.requests[id].status == Completed && t.requests[id].completedAt.Some?
    ensures var s := AcceptStep(t, id, mechanicId, price, estimatedTime, now, distanceKm);
      && s.response.Ok?
      && s.tables.requests[id].status == Accepted
      && s.tables.requests[id].completedAt == t.requests[id].completedAt
      && s.tables.requests[id].mechanic == Some(mechanicId)
  {
  }

  /** No status guard on accept: when two mechanics accept the same request in turn,
      both end up bound to it while it names only the second. */
  lemma AcceptTwiceBindsBoth(t: Tables, id: RequestId, first: UserId, second: UserId,
                             price: Option<real>, estimatedTime: Option<real>, now1: Time, now2: Time,
                             distanceKm: KmDistance)
    requires WellFormed(t) && id in t.requests
    requires first in t.users && first in t.mechanics && second in t.users && second in t.mechanics
    requires first != second
    ensures var s1 := AcceptStep(t, id, first, price, estimatedTime, now1, distanceKm);
      var s2 := AcceptStep(s1.tables, id, second, price, estimatedTime, now2, distanceKm);
      && s2.response.Ok?
      && s2.tables.requests[id].mechanic == Some(second)
      && CurrentRequest(s2.tables, first) == Some(s2.tables.requests[id])
      && CurrentRequest(s2.tables, second) == Some(s2.tables.requests[id])
  {
  }

  /** Accepting while bound to another request silently drops that binding: the other
      request keeps its record (and its status) but no longer belongs to the profile. */
  lemma AcceptWhileBoundDropsBinding(t: Tables, id: RequestId, mechanicId: UserId, price: Option<real>,
                                     estimatedTime: Option<real>, now: Time, distanceKm: KmDistance)
    requires WellFormed(t) && id in t.requests && mechanicId in t.users && mechanicId in t.mechanics
    requires t.mechanics[mechanicId].currentRequest.Some? && t.mechanics[mechanicId].currentRequest.value != id
    ensures var s := AcceptStep(t, id, mechanicId, price, estimatedTime, now, distanceKm);
      var previous := t.mechanics[mechanicId].currentRequest.value;
      && s.tables.mechanics[mechanicId].currentRequest == Some(id)
      && (previous in t.requests ==> previous in s.tables.requests && s.tables.requests[previous] == t.requests[previous])
  {
  }

  /** No status guard on complete: a bound request that was cancelled, or still
      pending, is marked completed. */
  lemma CompleteIgnoresStatus(t: Tables, me: UserId, now: Time)
    requires WellFormed(t) && me in t.mechanics && t.mechanics[me].currentRequest.Some?
    requires t.mechanics[me].currentRequest.value in t.requests
    ensures var s := CompleteStep(t, me, now);
      var id := t.mechanics[me].currentRequest.value;
      && s.tables.requests[id].status == Completed
      && s.tables.requests[id].completedAt == Some(now)
      && s.tables.mechanics[me].availability
  {
  }
}
