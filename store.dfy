/** The three collections the handlers read and write: users, requests and mechanic
    profiles. `Db` holds them as maps that handlers reassign; `Tables` is their value. */
module Store {
  import opened Common
  import opened RequestSchema
  import opened MechanicSchema

  datatype Role = Customer | Mechanic | Admin

  /** A user document: the fields the handlers read or hide. */
  datatype User = User(
    name: string,
    email: string,
    phone: string,
    password: string,
    role: Role,
    location: GeoPoint,
    createdAt: Time,
    updatedAt: Time)

  /** The three collections at one moment. Profiles are keyed by their `user` field,
      which is how every handler looks them up. */
  datatype Tables = Tables(
    users: map<UserId, User>,
    requests: map<RequestId, Request>,
    mechanics: map<UserId, Profile>)

  /** What the schemas and indexes guarantee of every stored document. */
  ghost predicate WellFormed(t: Tables)
  {
    && (forall u :: u in t.users ==> IsPoint(t.users[u].location))
    && (forall r :: r in t.requests ==> RequestSchema.Valid(t.requests[r]))
    && (forall u :: u in t.mechanics ==> t.mechanics[u].user == u)
  }

  /** The availability invariant over every profile. */
  ghost predicate Consistent(t: Tables)
  {
    forall u :: u in t.mechanics ==> ProfileConsistent(t.mechanics[u])
  }

  /** A handler's effect: the collections afterwards, the response, and the users
      `sendNotification` was called for, in call order. */
  datatype Step<+T> = Step(tables: Tables, response: Response<T>, notified: seq<UserId>)

  class Db {
    var users: map<UserId, User>
    var requests: map<RequestId, Request>
    var mechanics: map<UserId, Profile>

    function Snapshot(): (t: Tables)
      reads this
    {
      Tables(users, requests, mechanics)
    }

    ghost predicate Valid()
      reads this
    {
      WellFormed(Snapshot())
    }

    constructor (initial: Tables)
      requires WellFormed(initial)
      ensures Valid()
      ensures Snapshot() == initial
    {
      users := initial.users;
      requests := initial.requests;
      mechanics := initial.mechanics;
    }
  }
}
