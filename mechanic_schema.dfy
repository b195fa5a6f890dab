/** The Mechanic profile document (backend/models/Mechanic.js) and its defaults. */
module MechanicSchema {
  import opened Common
  import opened RequestSchema

  const DefaultRating: real := 0.0
  const DefaultReviewsCount: int := 0
  const DefaultPricePerKm: real := 1.5
  const DefaultBasePrice: real := 20.0

  /** A stored profile. `services` draws on the same enum as a request's service type. */
  datatype Profile = Profile(
    user: UserId,
    services: seq<ServiceType>,
    certification: Option<string>,
    rating: real,
    reviewsCount: int,
    availability: bool,
    currentRequest: Option<RequestId>,
    pricePerKm: real,
    basePrice: real)

  /** `new Mechanic({ user, availability })`: every field the caller leaves undefined
      takes the schema default. */
  function NewProfile(user: UserId, availability: Option<bool>): (p: Profile)
    ensures p.user == user
    ensures p.availability == (availability.None? || availability.value)
    ensures p.currentRequest.None?
    ensures p.services == [] && p.certification.None?
    ensures p.rating == 0.0 && p.reviewsCount == 0
    ensures p.pricePerKm == 1.5 && p.basePrice == 20.0
  {
    Profile(user, [], None, DefaultRating, DefaultReviewsCount,
            if availability.Some? then availability.value else true,
            None, DefaultPricePerKm, DefaultBasePrice)
  }

  /** An update `{ availability }`: an undefined value leaves the field as it was. */
  function WithAvailability(p: Profile, availability: Option<bool>): (q: Profile)
    ensures q.availability == if availability.Some? then availability.value else p.availability
    ensures q.(availability := p.availability) == p
  {
    if availability.Some? then p.(availability := availability.value) else p
  }

  /** `{ availability: false, currentRequest: id }`, written when a request is accepted. */
  function Bind(p: Profile, request: RequestId): (q: Profile)
    ensures !q.availability && q.currentRequest == Some(request)
    ensures q.(availability := p.availability, currentRequest := p.currentRequest) == p
  {
    p.(availability := false, currentRequest := Some(request))
  }

  /** `{ availability: true, currentRequest: null }`, written when a request is completed. */
  function Release(p: Profile): (q: Profile)
    ensures q.availability && q.currentRequest.None?
    ensures q.(availability := p.availability, currentRequest := p.currentRequest) == p
  {
    p.(availability := true, currentRequest := None)
  }

  /** The availability invariant: a mechanic is unavailable exactly when bound to a request. */
  predicate ProfileConsistent(p: Profile)
  {
    !p.availability <==> p.currentRequest.Some?
  }

  /** Binding and releasing both leave a profile consistent, and releasing a bound
      profile gives back an available, unbound one. */
  lemma BindReleaseConsistency(p: Profile, request: RequestId)
    ensures ProfileConsistent(Bind(p, request)) && ProfileConsistent(Release(p))
    ensures ProfileConsistent(p) && p.availability ==> Release(Bind(p, request)) == p
  {
  }

  /** A freshly created profile is consistent unless the caller sets availability false. */
  lemma NewProfileConsistency(user: UserId, availability: Option<bool>)
    ensures ProfileConsistent(NewProfile(user, availability)) <==> availability != Some(false)
  {
  }
}
