# Road-assist request lifecycle, modelled in Dafny

The backend matches roadside-assistance requests with nearby mechanics. A user creates a
request, which starts out `pending`. The available mechanics within 5 km are notified. A
mechanic accepts the request, which fixes a price and an ETA, and later completes it. A
mechanic profile carries an `availability` flag and a `currentRequest` reference, and the
two are meant to agree: a mechanic is unavailable exactly when bound to a request
(`MechanicSchema.ProfileConsistent`, over every profile `Store.Consistent`).

This project models those handlers over three collections: users, requests and mechanic
profiles.

- `Store.Db` is a class holding the three collections as maps. `Store.Tables` is their value.
- Each handler that writes is a method on a `Db`. Its step-by-step body is proved equal to a
  pure step function over `Tables` (`CreateStep`, `AcceptStep`, `UpsertStep`,
  `AvailabilityStep`, `CompleteStep`, `LocationStep`).
- The properties are proved about those step functions. The ones that span several handlers
  are in `Lifecycle`.
- Read-only handlers are functions over `Tables`.
- The `$geoNear` pipelines are filters (`Proximity`) over a scan of a collection.
- Distances are abstract function parameters.

Modules and files:

| file | module | models |
|---|---|---|
| common.dfy | Common | options, ids, GeoJSON points `[lng, lat]`, handler outcomes, collection scans |
| request_schema.dfy | RequestSchema | backend/models/Request.js |
| mechanic_schema.dfy | MechanicSchema | backend/models/Mechanic.js and the two profile updates of the lifecycle |
| store.dfy | Store | the three collections, their well-formedness, the invariant |
| proximity.dfy | Proximity | the `$geoNear`/`$lookup`/`$unwind`/`$match` pipelines |
| request_controller.dfy | RequestController | backend/controllers/requestController.js |
| mechanic_routes.dfy | MechanicRoutes | backend/routes/mechanicRoutes.js |
| user_routes.dfy | UserRoutes | backend/routes/userRoutes.js |
| lifecycle.dfy | Lifecycle | properties relating accept, complete, the availability toggle and the upsert |

The handlers do not guard the lifecycle, and the model keeps them unguarded. Each of these
gaps is stated as a lemma in `Lifecycle`:

- Accept does not check the request's status (`AcceptReopensCompleted`, `AcceptTwiceBindsBoth`).
- Accept does not check whether the mechanic is already bound (`AcceptWhileBoundDropsBinding`).
- Complete does not check the request's status (`CompleteIgnoresStatus`).
- The availability toggle and the profile upsert write `availability` without looking at
  `currentRequest`, so both can break the invariant (`AvailabilityConsistency`, `UpsertConsistency`).

The handlers do not check coordinates or the radius either. The store does: the 2dsphere
indexes refuse a location outside longitude [-180, 180] or latitude [-90, 90], and `$geoNear`
refuses such a query point and a negative `maxDistance`. Those failures are part of the
contracts of `CreateStep`, `LocationStep`, `GetNearbyRequests` and `NearbyMechanics`.

## Model

| member | source | states |
|---|---|---|
| Common.PointAt | backend/controllers/requestController.js:20-23 | a built point has type `Point` and two coordinates; its latitude (`coordinates[1]`) and longitude (`coordinates[0]`) are the ones given; the index accepts it iff the latitude is in [-90, 90] and the longitude in [-180, 180] |
| Common.IsPoint | backend/models/Request.js:23-50 | a location the 2dsphere index accepts: type `Point`, two coordinates `[lng, lat]`, both within range |
| Store.Consistent | backend/models/Mechanic.js:22-29 | the availability invariant holds of every stored profile |
| Store.WellFormed | backend/models/Request.js:3-50 | what the schemas and the 2dsphere indexes guarantee of every stored document: users and requests have a location the index accepts, requests pass their validators, each profile is keyed by its `user` |
| Store.Db.constructor | backend/models/Mechanic.js:40 | the store (the Mechanic model here, with the Request model of backend/models/Request.js and the users) holds exactly the collections it starts from, and they are well-formed |
| Common.EnumerationSize | backend/routes/userRoutes.js:12-15 | a full scan of a collection, each document once, has as many entries as the collection |
| RequestSchema.ServiceTypeName | backend/models/Request.js:15 | the string stored for each of the six service types |
| RequestSchema.ParseServiceType | backend/models/Request.js:13-17 | the enum validator accepts exactly the six names `towing`, `battery`, `fuel`, `tire`, `lockout`, `other` |
| RequestSchema.ParseServiceTypeName | backend/models/Request.js:13-17 | every service type's stored name parses back to it |
| RequestSchema.Valid | backend/models/Request.js:18-50 | a stored request has a non-empty vehicle type and a location the 2dsphere index accepts |
| RequestSchema.NewRequest | backend/models/Request.js:3-47 | validation passes iff `user` is given, `serviceType` is in the enum, `vehicleType` is a non-empty string and the location's type is `Point`; the document is then valid iff its coordinates are in range; the new request is `pending`, with no mechanic, price, ETA, acceptedAt or completedAt, and keeps every given field |
| MechanicSchema.NewProfile | backend/models/Mechanic.js:3-37 | a new profile is available unless created with `availability: false`, unbound, has no services, rating 0, reviewsCount 0, pricePerKm 1.5 and basePrice 20 |
| MechanicSchema.WithAvailability | backend/routes/mechanicRoutes.js:94-97 | an `{ availability }` update changes that one field, and leaves it as it was when the value is undefined |
| MechanicSchema.Bind | backend/controllers/requestController.js:153-156 | accept's profile update makes the profile unavailable and bound to the request; nothing else changes |
| MechanicSchema.Release | backend/routes/mechanicRoutes.js:162-168 | complete's profile update makes the profile available and unbound; nothing else changes |
| MechanicSchema.ProfileConsistent | backend/models/Mechanic.js:22-29 | the availability invariant of one profile: `availability` is false exactly when `currentRequest` is set |
| MechanicSchema.BindReleaseConsistency | backend/routes/mechanicRoutes.js:162-168 | both updates leave a profile consistent; releasing a bound, previously available and consistent profile gives back exactly the old profile |
| MechanicSchema.NewProfileConsistency | backend/models/Mechanic.js:22-29 | a created profile satisfies the invariant iff it is not created with `availability: false` |
| Proximity.Truncate | backend/controllers/requestController.js:86 | `parseInt` of a plain decimal numeral keeps the integer part, truncating toward zero, for either sign |
| Proximity.Radius | backend/routes/userRoutes.js:75 | the radius is 5000 when the query omits `maxDistance`, else the given value truncated toward zero |
| Proximity.IsAvailableMechanic | backend/routes/userRoutes.js:77-99 | a user the mechanics pipeline admits: role `mechanic`, within the radius of the query point, joined with a profile whose `availability` is true |
| Proximity.AvailableMechanics | backend/controllers/requestController.js:27-50 | the mechanics pipeline over a scan returns only scanned users it admits, no more than were scanned |
| Proximity.IsNearbyPending | backend/controllers/requestController.js:78-99 | a request the requests pipeline admits: `pending`, within the radius, and its owner joins (the `$unwind` drops the others) |
| Proximity.NearbyPending | backend/controllers/requestController.js:78-99 | the requests pipeline over a scan returns only scanned requests it admits, no more than were scanned |
| Proximity.Filter | backend/controllers/requestController.js:27-50 | a pipeline returns only documents from the scan that it admits, and no more of them than were scanned |
| Proximity.FilterComplete | backend/controllers/requestController.js:27-50 | every scanned document the pipeline admits is returned |
| Proximity.FilterDistinct | backend/routes/userRoutes.js:77-99 | a scan without repeats gives a result without repeats |
| Proximity.FilterEnumerates | backend/routes/userRoutes.js:77-111 | over a full scan, the result lists each admitted document exactly once, so its length is the number of admitted documents |
| Proximity.AvailableMechanicsExact | backend/routes/userRoutes.js:77-99 | over a full scan, a user is returned iff their role is `mechanic`, they are within the radius, and they have a profile with `availability: true`; each once; the count equals the number of such users |
| Proximity.NearbyPendingExact | backend/controllers/requestController.js:78-99 | over a full scan, a request is returned iff it is `pending`, within the radius, and its owner exists (the `$unwind` drops the others); each once |
| RequestController.Round | backend/controllers/requestController.js:146 | `Math.round(x)` is the integer n with n - 0.5 <= x < n + 0.5 |
| RequestController.Truthy | backend/controllers/requestController.js:138-146 | the truthiness `||` tests: an absent number and 0 are falsy, any other number truthy |
| RequestController.FallbackEta | backend/controllers/requestController.js:146 | the fallback ETA is within half a minute of two minutes per km |
| RequestController.FallbackPrice | backend/controllers/requestController.js:138 | the price when none is given: `distance * 1.5 + 20` |
| RequestController.FinalPrice | backend/controllers/requestController.js:138 | a price other than 0 is used as given; an absent price and a price of 0 both give `distance * 1.5 + 20` |
| RequestController.FinalEta | backend/controllers/requestController.js:146 | an estimatedTime other than 0 is used as given; absent and 0 both give `Math.round(distance * 2)` |
| RequestController.PriceChoice | backend/controllers/requestController.js:138 | an absent price and a price of 0 give the same fallback price; a truthy price is charged whatever the distance |
| RequestController.EtaChoice | backend/controllers/requestController.js:146 | an absent estimatedTime and 0 give the same fallback ETA; a truthy one is used whatever the distance |
| RequestController.FallbackExamples | backend/controllers/requestController.js:138-146 | at 0 km the fallback is price 20 and ETA 0; at 10 km it is price 35 and ETA 20; rounding takes 2.5 up to 3 and 2.4 down to 2 |
| RequestController.FallbackMonotone | backend/controllers/requestController.js:138-146 | for non-negative distances the fallback price is at least 20, and the price and ETA never decrease as the distance grows |
| RequestController.FallbackUsesProfileDefaults | backend/models/Mechanic.js:30-37 | the constants hard-coded in accept equal a new profile's `basePrice` and `pricePerKm` defaults |
| RequestController.CreateStep | backend/controllers/requestController.js:10-69 | a missing location throws before any write; a validation failure, coordinates out of range for the 2dsphere index, or a reused id each throw (`ValidationFailed`, `GeoKeys`, `DuplicateKey`), write nothing and notify no one; otherwise only the new request is added, and it is exactly the document `NewRequest` builds from the body (status `pending`, coordinates `[lng, lat]`, no mechanic, price, ETA or timestamps but createdAt); the notified users are the 5 km mechanics pipeline's result, and `availableMechanics` is its length |
| RequestController.CreateNotifiesAvailableMechanics | backend/controllers/requestController.js:27-64 | over a full scan of the users, create notifies exactly the available mechanics within 5000 m, each once, and `availableMechanics` is their number |
| RequestController.CreateRequest | backend/controllers/requestController.js:10-69 | the handler (insert, query, one notification per match in a loop) has exactly the effect CreateStep describes and keeps the collections well-formed |
| RequestController.OwnerView | backend/controllers/requestController.js:91-106 | the joined owner keeps id, name, email, phone, location and updatedAt; its password, role and createdAt are dropped |
| RequestController.NearbyRow | backend/controllers/requestController.js:85-106 | one result row: the request, the `distance` field `$geoNear` adds, and the owner as `OwnerView` projects it |
| RequestController.GetNearbyRequests | backend/controllers/requestController.js:74-117 | the query throws iff the query point is out of range or the radius is negative; otherwise every row is a pending request within `maxDistance` (default 5000) whose owner exists, with its distance and owner view; every such request is returned, once; `count` is the number of rows |
| RequestController.AcceptDistance | backend/controllers/requestController.js:131-136 | the distance is `calculateDistance` of the request's `coordinates[1]`, `coordinates[0]` and the mechanic's `coordinates[1]`, `coordinates[0]`, in that order |
| RequestController.AcceptStep | backend/controllers/requestController.js:122-172 | a missing request or mechanic user throws and changes nothing; otherwise, whatever its prior status, only the request's mechanic, status (`accepted`), price, ETA (from the fallback rule on the distance between the request and the mechanic) and acceptedAt change; the mechanic's profile, if any, is bound; no other profile or user changes; the owner is notified |
| RequestController.AcceptRequest | backend/controllers/requestController.js:122-172 | the handler (two reads, request update, profile update, notification) has exactly the effect AcceptStep describes |
| MechanicRoutes.GetProfile | backend/routes/mechanicRoutes.js:11-28 | the caller's profile is returned iff it exists, else 404 `Mechanic profile not found` |
| MechanicRoutes.UpsertStep | backend/routes/mechanicRoutes.js:33-85 | an existing profile gets only its availability updated; a missing one is created with the schema defaults; nothing else in the store changes |
| MechanicRoutes.UpsertProfile | backend/routes/mechanicRoutes.js:33-85 | the handler has exactly the effect UpsertStep describes |
| MechanicRoutes.AvailabilityStep | backend/routes/mechanicRoutes.js:90-111 | without a profile: 404 `Mechanic profile not found` and no change; otherwise only `availability` changes, and `currentRequest` is untouched |
| MechanicRoutes.UpdateAvailability | backend/routes/mechanicRoutes.js:90-111 | the handler has exactly the effect AvailabilityStep describes |
| MechanicRoutes.CurrentRequest | backend/routes/mechanicRoutes.js:116-138 | non-null iff the caller has a profile bound to a request that exists, and then it is that request |
| MechanicRoutes.CompleteStep | backend/routes/mechanicRoutes.js:143-177 | without a profile or a binding: 400 `No active request found` and no change; otherwise the bound request, whatever its status, becomes `completed` with completedAt set (if it still exists), and the profile is released |
| MechanicRoutes.CompleteRequest | backend/routes/mechanicRoutes.js:143-177 | the handler has exactly the effect CompleteStep describes |
| UserRoutes.PublicView | backend/routes/userRoutes.js:12 | the public view keeps every user field except the password |
| UserRoutes.ListUsers | backend/routes/userRoutes.js:10-21 | every user is listed without their password; nothing else is listed; `count` equals the list length and the number of users |
| UserRoutes.GetUser | backend/routes/userRoutes.js:26-41 | a user is returned without their password iff the id exists, else 404 `User not found` |
| UserRoutes.LocationStep | backend/routes/userRoutes.js:46-68 | null and no change when the caller is gone; a position out of range throws and changes nothing; otherwise only the caller's location changes, to `Point` `[lng, lat]`, and no other user, request or profile changes |
| UserRoutes.UpdateLocation | backend/routes/userRoutes.js:46-68 | the handler has exactly the effect LocationStep describes |
| UserRoutes.MatchRow | backend/routes/userRoutes.js:84-106 | one result row: the mechanic user without password, createdAt and updatedAt, with its `distance` and the joined profile |
| UserRoutes.NearbyMechanics | backend/routes/userRoutes.js:73-117 | the query throws iff the query point is out of range or the radius is negative; otherwise every row is an available mechanic within `maxDistance` (default 5000), with no password, createdAt or updatedAt, its distance and profile; every such mechanic is returned once; `count` is the number of rows |
| Lifecycle.AcceptKeepsConsistency | backend/controllers/requestController.js:153-156 | accept preserves "unavailable exactly when bound" for every profile |
| Lifecycle.CompleteKeepsConsistency | backend/routes/mechanicRoutes.js:162-168 | complete preserves the invariant for every profile |
| Lifecycle.AvailabilityConsistency | backend/routes/mechanicRoutes.js:94-97 | after PUT /availability the profile is consistent iff the written value matches its binding, so the toggle can break the invariant |
| Lifecycle.UpsertConsistency | backend/routes/mechanicRoutes.js:43-76 | POST /profile keeps the profile consistent only when the written availability matches the binding; a created profile is consistent iff not created unavailable |
| Lifecycle.AcceptBindsCurrentRequest | backend/controllers/requestController.js:140-156 | after accept, GET /current-request returns the accepted request |
| Lifecycle.AcceptLeavesNearbyQueries | backend/controllers/requestController.js:140-156 | after accept, the mechanic is not an available mechanic and the request is not a nearby pending request, for any point and radius |
| Lifecycle.AcceptThenComplete | backend/routes/mechanicRoutes.js:152-168 | accept then complete by an available, unbound mechanic leaves the request completed by them with both timestamps; the profiles and users are as before; no other request changes; the current request is null again |
| Lifecycle.AcceptReopensCompleted | backend/controllers/requestController.js:140-150 | with no status guard, a completed request can be accepted again; it then reads `accepted` while keeping its completedAt |
| Lifecycle.AcceptTwiceBindsBoth | backend/controllers/requestController.js:140-156 | two mechanics accepting the same request in turn both end bound to it, while it names only the second |
| Lifecycle.AcceptWhileBoundDropsBinding | backend/controllers/requestController.js:153-156 | accepting while bound to another request drops that binding and leaves the other request's record as it was |
| Lifecycle.CompleteIgnoresStatus | backend/routes/mechanicRoutes.js:152-159 | complete marks the bound request completed whatever its prior status, and frees the mechanic |

## Left out

- Authentication and authorisation: the `auth`/`authorize` middleware is not part of this model. The caller's id is a parameter, and route roles are not checked.
- Distances: `calculateDistance` (kilometres) and the spherical distance of `$geoNear` (metres) are abstract function parameters. The haversine formula and distance ordering are not modelled.
- Result order: a query's result follows the order of the scan it is given. The scan lists every document of the collection once.
- Notifications: `sendNotification` is a fire-and-forget call. Only the sequence of recipients is recorded, not the payloads or delivery.
- Mongoose and Express details: `populate`, `runValidators`, the success envelope and success status codes are not modelled. Neither is the cast of request-body values of the wrong type, nor the CastError on malformed ObjectIds (ids are natural numbers).
- Query and body parsing: `lat`, `lng` and `maxDistance` arrive as numbers, and `maxDistance` is taken to be a plain decimal numeral. `parseInt` stopping at the first non-digit (`1e4` gives 1), reading a `0x` prefix as hexadecimal, and a NaN from `parseFloat`/`parseInt` of a bad string are not modelled.
- Geometry errors: the failures of the 2dsphere indexes and of `$geoNear` are modelled only for coordinates out of range and a negative `maxDistance`. The index on the users' `location` is assumed, since backend/models/User.js is not part of this model and their `$geoNear` needs one.
- Undefined values: an undefined `availability` in an update leaves the field unchanged. This follows Mongoose 6 and later, which strip undefined keys from updates. On creation an undefined value takes the schema default.
- Undeclared profile fields: POST /profile also writes `specialties`, `experience`, `hourlyRate` and `currentLocation`. These paths are not declared in backend/models/Mechanic.js, so strict mode discards them, and the model stores only `availability`. The `[lng, lat]` choice for `currentLocation` is therefore not modelled.
- User documents: backend/models/User.js is not part of this model. A user has the fields the handlers read (name, email, phone, password, role, location, createdAt, updatedAt), and every stored user has a location the 2dsphere index accepts. The schema's automatic `updatedAt` refresh on PUT /location is not modelled.
- Profiles per user: profiles are keyed by their `user`, one per user. The `$unwind` duplication that several profiles of one user would cause is not modelled.
- Request ids: a new request's `_id` is a parameter standing for the driver's ObjectId. A reused id makes the insert throw.
- Time: `new Date()` and `Date.now` are an opaque timestamp parameter.
- Numbers: prices, ETAs and distances are Dafny `real`s, and `Math.round(x)` is `floor(x + 0.5)`. IEEE rounding and NaN truthiness are not modelled.
- Concurrency: accept writes the request and then the profile, without a transaction. Each handler is modelled as one atomic step, so an interleaving of two handlers between those writes is not modelled.
- Statuses `in_progress` and `cancelled`: they are part of the enum, but no modelled handler writes them.
- backend/models/Review.js, the server bootstrap, the database connection and the seed/debug scripts are not part of this model.
