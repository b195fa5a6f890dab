/** The Request document (backend/models/Request.js): its enums, its required and
    optional fields, and what `Request.create` makes of a new document. */
module RequestSchema {
  import opened Common

  datatype ServiceType = Towing | Battery | Fuel | Tire | Lockout | Other

  datatype Status = Pending | Accepted | InProgress | Completed | Cancelled

  /** The string stored for each service type. */
  function ServiceTypeName(t: ServiceType): (name: string)
  {
    match t
    case Towing => "towing"
    case Battery => "battery"
    case Fuel => "fuel"
    case Tire => "tire"
    case Lockout => "lockout"
    case Other => "other"
  }

  /** The enum validator: a string is accepted exactly when it names a service type. */
  function ParseServiceType(s: string): (r: Option<ServiceType>)
    ensures r.Some? ==> ServiceTypeName(r.value) == s
    ensures r.None? ==> forall t :: ServiceTypeName(t) != s
  {
    if s == "towing" then Some(Towing)
    else if s == "battery" then Some(Battery)
    else if s == "fuel" then Some(Fuel)
    else if s == "tire" then Some(Tire)
    else if s == "lockout" then Some(Lockout)
    else if s == "other" then Some(Other)
    else None
  }

  lemma ParseServiceTypeName(t: ServiceType)
    ensures ParseServiceType(ServiceTypeName(t)) == Some(t)
  {
  }

  /** A stored request. `user`, `serviceType`, `vehicleType`, `location` and `status`
      are always present; the rest may be absent. */
  datatype Request = Request(
    user: UserId,
    mechanic: Option<UserId>,
    serviceType: ServiceType,
    vehicleType: string,
    description: Option<string>,
    location: GeoPoint,
    status: Status,
    price: Option<real>,
    estimatedTime: Option<real>,
    acceptedAt: Option<Time>,
    completedAt: Option<Time>,
    createdAt: Time)

  /** What the schema validators and the 2dsphere index demand of a stored request:
      a non-empty vehicle type (Mongoose's `required` on a String) and a valid point. */
  predicate Valid(r: Request)
  {
    r.vehicleType != "" && IsPoint(r.location)
  }

  /** The document `Request.create` builds from the fields of a request body and
      validates before the insert: None when a schema validator refuses it (a missing
      user, an unknown service type, an empty vehicle type, a location type other than
      'Point'), otherwise the new document with the schema defaults filled in. Whether
      the 2dsphere index accepts its coordinates is decided by the insert. */
  function NewRequest(user: Option<UserId>, serviceType: Option<string>, vehicleType: Option<string>,
                      description: Option<string>, location: GeoPoint, createdAt: Time): (r: Option<Request>)
    ensures r.Some? <==>
      && user.Some?
      && serviceType.Some? && ParseServiceType(serviceType.value).Some?
      && vehicleType.Some? && vehicleType.value != ""
      && location.kind == "Point"
    ensures r.Some? ==>
      && (Valid(r.value) <==> IsPoint(location))
      && r.value.status == Pending
      && r.value.user == user.value
      && ServiceTypeName(r.value.serviceType) == serviceType.value
      && r.value.vehicleType == vehicleType.value
      && r.value.description == description
      && r.value.location == location
      && r.value.mechanic.None? && r.value.price.None? && r.value.estimatedTime.None?
      && r.value.acceptedAt.None? && r.value.completedAt.None?
      && r.value.createdAt == createdAt
  {
    if user.None? || serviceType.None? || vehicleType.None? || vehicleType.value == "" || location.kind != "Point" then None
    else match ParseServiceType(serviceType.value)
      case None => None
      case Some(t) =>
        Some(Request(user.value, None, t, vehicleType.value, description, location,
                     Pending, None, None, None, None, createdAt))
  }
}
