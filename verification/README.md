# Valentine proposal backend, modelled in Dafny

The backend stores "proposals" (a Valentine-proposal record with a name, a
message, a character and an accept/reject decision) and "status checks" (a
heartbeat record) in two document collections and serves them over six JSON
endpoints. This project models the handlers in `backend/server.py` and the
schema rules they rely on:

- `models.dfy` (module `Models`): the request bodies as the schema layer sees
  them (each field absent, `null` or given), the field constraints of
  `ProposalCreate`, the defaults (`"Will you be my Valentine?"`, `"panda"`),
  the record stored at creation, and the accept/reject transition.
- `store.dfy` (module `Store`): each handler as a function from the two
  collections before the request to the collections afterwards and the
  response. `proposals` is a map from id to record; `status_checks` is a
  sequence in insertion order.
- `traces.dfy` (module `Traces`): any sequence of requests, handled one after
  another, and what holds after it: the record invariant, no record deleted
  or its identity changed, the status log only appended to, one record per
  successful creation, last-write-wins of decisions, and the smoke test's
  session.
- `server.dfy` (module `Server`): class `Backend` whose two fields are the
  collections and whose methods do what the handlers do step by step (insert,
  look up, set the two decision fields, the capped listing loop, the in-place
  timestamp rewrite of the status listing); each method is proved to agree
  with its `Store` function, except `ListProposals`, which is proved to return
  a listing in the sense of the predicate `Store.IsProposalListing`.

The store invariant (`Store.Valid`) says every proposal is stored under its
own id, has a name of 1 to 100 characters and a non-empty message of at most
500, and has `accepted_at` set exactly when `accepted` is true.

Three behaviours of the schema layer that the model follows:

- An explicit `null` custom message is accepted (the field is `Optional`) and
  replaced by the default literal, like an absent or empty one.
- An explicit `null` character choice is refused with a validation error: the
  field is a plain `str` with a default, not optional.
- The PATCH body is validated before the handler runs, so a missing or `null`
  `accepted` is a validation error even for an unknown id.

String lengths are counted in characters, as Python's `len` and the schema's
`min_length`/`max_length` count them.

## Model

| member | source | states |
|---|---|---|
| Models.InvalidFields | backend/server.py:28-31 | each of the three proposal fields is named exactly when it violates its constraint: name given with 1-100 characters, message at most 500 when given, character not null |
| Models.ValidateProposal | backend/server.py:28-31 | validation succeeds iff the name is given with length 1..100, a given message has length at most 500 and the character is not null; a failure is a ValidationError naming every bad field; on success the absent message becomes the default literal, null stays None, the absent character becomes "panda", given values pass through unchanged with no enumeration of characters |
| Models.StoredMessage | backend/server.py:66 | the stored message is never empty; it is the sent message when that is a non-empty string, and the default literal when the message is None or "" |
| Models.NewProposal | backend/server.py:63-71 | the inserted document carries the fresh id, the creation time, the name and character as validated, the defaulted message, `accepted` and `accepted_at` both None, and satisfies the record invariant |
| Models.AcceptedAt | backend/server.py:101 | `accepted_at` is present iff the decision is an acceptance, and is then the current time |
| Models.Decide | backend/server.py:101-109 | a decision changes only `accepted` and `accepted_at`: id, name, message, character and creation time are kept, `accepted` becomes the sent bool, `accepted_at` is consistent with it, the record invariant is preserved |
| Models.DecideLastWriteWins | backend/server.py:101-109 | deciding twice is the same as making only the second decision |
| Models.DecideIdempotent | backend/server.py:101-109 | repeating the same decision with the same clock reading changes nothing |
| Models.CreateAppliesDefaults | backend/server.py:30-67 | from body to stored record: the message is the one sent when non-empty and the default literal when absent, null or empty; the character is the one sent or "panda" |
| Models.StoredForm | backend/server.py:125-131 | the inserted status document keeps id and client name and holds the timestamp as ISO text |
| Models.Normalise | backend/server.py:138-140 | the read-side rewrite keeps id and client name, leaves every timestamp as an instant, and leaves a document already holding one unchanged |
| Models.NormaliseStoredForm | backend/server.py:128-140 | a stored status check reads back as the record the create call returned |
| Store.CreateProposal | backend/server.py:58-83 | creation succeeds iff the body has no invalid field; a refused body leaves the store unchanged and reports the bad fields; a successful one stores exactly one new undecided record under the fresh id, with the message sent when non-empty and the default literal otherwise and the character sent or "panda", leaves every other record as it was, returns the stored record and preserves the store invariant |
| Store.GetProposal | backend/server.py:85-92 | a lookup succeeds iff the id is stored and then returns the stored record unchanged; otherwise it is NotFound |
| Store.UpdateProposal | backend/server.py:94-111 | a missing or null `accepted` is a validation error and an unknown id is NotFound, both leaving the store unchanged; otherwise only that record changes, its identity fields are kept, `accepted` is the sent bool, `accepted_at` is now on acceptance and None on rejection, the returned record is the stored one, and the invariant is preserved |
| Store.CreateStatusCheck | backend/server.py:123-132 | a missing or null client name is a validation error with the store unchanged; otherwise exactly one document with the supplied id, name and time is appended, proposals untouched |
| Store.NormaliseAll | backend/server.py:138-140 | the rewrite loop maps every fetched document, in order, to its normalised form |
| Store.ListStatusChecks | backend/server.py:134-142 | the status listing holds min(stored, 1000) documents, the i-th being the i-th stored document with its timestamp parsed back into an instant (insertion order assumed, see Left out) |
| Store.GetAfterCreate | backend/server.py:58-92 | a GET after a successful create returns exactly the created record; after a refused create the id is NotFound |
| Store.GetAfterUpdate | backend/server.py:94-111 | a GET after a successful update returns exactly the updated record, and every other id answers as before |
| Store.ListStatusAfterCreate | backend/server.py:123-142 | below the cap, a created status check appears at the end of the listing as the record create returned, with the earlier entries unchanged |
| Store.ListingIsComplete | backend/server.py:113-116 | while at most 1000 proposals are stored, any listing contains every stored record |
| Traces.StepKeepsValid | backend/server.py:58-111 | every single request preserves the store invariant |
| Traces.RunKeepsValid | backend/server.py:58-111 | every sequence of requests preserves the store invariant, so `accepted_at` is set iff `accepted` is true in every reachable state |
| Traces.RunKeepsRecords | backend/server.py:94-109 | no sequence of requests deletes a proposal or changes its id, name, message, character or creation time |
| Traces.RunAppendsStatusChecks | backend/server.py:123-131 | the status-check collection is only ever extended at its end |
| Traces.RunCountsProposals | backend/server.py:73 | the number of stored proposals grows by exactly the number of creations that pass validation |
| Traces.ListingAfterCreates | backend/server.py:113-116 | from an empty store, after N <= 1000 successful creations, a listing has exactly N records and contains every stored record |
| Traces.UpdateLastWriteWins | backend/server.py:101-109 | two PATCH requests on one id leave the same store as the second alone |
| Traces.UpdateIdempotent | backend/server.py:101-109 | the same PATCH twice with the same clock reading leaves the same store as once |
| Traces.AliceScenario | backend_test.py:72-132 | the smoke test's session: create "Alice" undecided, accept sets `accepted_at`, reject clears it, and GET returns the final record |
| Traces.EmptyNameRefused | backend_test.py:94-100 | an empty name is refused with a validation error on that field and nothing is stored |
| Server.Backend.CreateProposal | backend/server.py:58-83 | the new collections and the response are those of Store.CreateProposal on the old ones; the invariant is kept |
| Server.Backend.GetProposal | backend/server.py:85-92 | the response is that of Store.GetProposal and nothing changes |
| Server.Backend.UpdateProposal | backend/server.py:94-111 | the new collections and the response are those of Store.UpdateProposal on the old ones; the invariant is kept |
| Server.Backend.ListProposals | backend/server.py:113-116 | the loop returns a listing in the sense of Store.IsProposalListing: min(stored, 1000) distinct stored records |
| Server.Backend.CreateStatusCheck | backend/server.py:123-132 | the new collections and the response are those of Store.CreateStatusCheck on the old ones |
| Server.Backend.GetStatusChecks | backend/server.py:134-142 | the in-place rewrite loop over the fetched documents yields exactly Store.ListStatusChecks |

## Left out

- HTTP routing, the `/api` prefix, CORS, logging, environment loading and the shutdown hook: transport and bootstrap.
- The root endpoint `GET /`, which returns a constant message and touches no state.
- The MongoDB driver and `async`/`await`: the collections are an in-memory map and sequence, and the `{"_id": 0}` projection only hides a store-internal key that the model never has.
- Store failures (an unreachable database): no error of that kind is modelled.
- Concurrency: requests are handled one after another, so the lost-update race of the read-then-write in the update handler is not modelled.
- `uuid.uuid4()` and `datetime.now(...)`: the fresh id and the clock reading are parameters; a uuid collision is excluded by requiring the id to be fresh.
- ISO 8601 formatting and parsing: an `Instant` is identified by its ISO text, so parsing never fails; malformed stored text is not modelled.
- "`accepted_at` is not earlier than `created_at`": it depends on the wall clock, which the model does not have.
- Pydantic's lax coercions (for example the string "true" accepted as a bool) and non-string JSON values for string fields: a field is modelled as absent, null or a value of the declared type.
- Server.Backend.ListProposals: when more than 1000 proposals are stored, which 1000 come back is the store's natural order; the model only promises 1000 distinct stored records.
- Store.ListStatusChecks: the model assumes the store returns status documents in insertion order, so the listing is the first 1000 inserted and Store.ListStatusAfterCreate places a new check at the end; the source does not sort, and the store's natural order is not modelled.
- The frontend (pages, components, animation, styling) and the smoke-test client itself; its session is restated in Traces.AliceScenario and Traces.EmptyNameRefused.
