# Short-link store: a Dafny model

This project models the short-link service of `links.py`: a store of
`Redirect` records keyed by short id. Each key is in one of three states:

- free: no record;
- reserved: a record with `reserved = true` and an empty destination;
- bound: a record with `reserved = false` that redirects to its destination.

The model covers the store operations of the `Redirect` class (`reserve`,
`assign_reserved`, `get`, `get_non_reserved`, `all`), the random id
generation over `ID_CHARS`, and the store-changing decisions of the request
handlers: binding a reserved key, editing a bound key, deleting a key.

Modules, one per part of the program:

- `KeyGen` (`keygen.dfy`): the 33-character alphabet and id generation. The
  random draw is an input: a `Sample` is the five distinct positions that
  `random.sample(ID_CHARS, 5)` picks. `Optional` (`optional.dfy`) holds the
  shared `Option` type.
- `Redirects` (`redirects.dfy`): the `Redirect` record and the store as
  `map<string, Redirect>`. Each writing operation is one atomic step that
  returns a `Reply`: the new store plus either a value or a typed `Error`. An
  error leaves the store exactly as it was. Time is a logical clock `now`.
  `created_at` is set by a record's first write and `modified_at` by every write.
- `Listing` (`listing.dfy`): `all` as a method that builds a newest-first list
  of the bound records by insertion.
- `Handlers` (`handlers.dfy`): the store-changing logic of `NewLinkHandler.post`,
  `EditLinkHandler.post` and `DeleteLinkHandler.get`. This includes how a
  destination is prepared before URL parsing. The URL library round trip
  `urlunparse(urlparse(d, 'http'))` is a function parameter `canon`. It
  returns either the reassembled URL or `None`, which stands for `urlparse`
  raising `ValueError` on a malformed network location such as `//[x`. Neither
  handler catches that exception, so the request fails with the store
  unchanged. The model reports this as `UnparsableDestination`.
- `Lifecycle` (`lifecycle.dfy`): the key state machine. It covers the allowed
  transitions, the record invariant every request preserves, and the request
  sequences a client goes through.

Facts of the code that the model keeps:

- `ID_CHARS` has 33 characters: the upper-case letters without `I`, and the
  digits `2` to `9`. `O` is included.
- `assign_reserved` raises the same "already exists" error for a bound key
  that `reserve` raises. It raises "had not been reserved" for a missing key.
- The code has no retry loop of its own around `reserve` or `assign_reserved`.
  Only the `@ndb.transactional` decorator re-runs contended transactions, and
  that is not modelled (see below).
- A generated id that hits another request's unbound reservation is handed
  out again as a successful reservation (`Lifecycle.GeneratedIdCanShareReservation`).
  A generated id that hits a bound key fails with "already exists".
  Neither case draws a new id.
- The docstring of `all` speaks of ordering by modified date, but the query
  orders by `created_at`, newest first. The model follows the query.

## Model

| member | source | states |
|---|---|---|
| KeyGen.AlphabetPosInverts | links.py:14 | the alphabet has 33 characters and no character occurs in it twice (each character's position can be read back) |
| KeyGen.GenerateId | links.py:31-33 | a generated id has exactly 5 characters, all from the alphabet, none repeated |
| KeyGen.PositionsOfGenerated | links.py:33 | the sampled positions can be recovered from the generated id, so distinct draws give distinct ids |
| KeyGen.GeneratedShapeIsReachable | links.py:33 | every 5-character alphabet string with no repeated character is the id of some draw: the generator's range is exactly that set |
| Redirects.ChosenId | links.py:31-33 | reserve works on the supplied id, or on a generated id when the id is missing or empty |
| Redirects.Reserve | links.py:28-47 | reserve fails with "already exists" exactly when the key is bound, and then the store is unchanged. Otherwise the key holds a reserved record and the chosen id is returned. A new record has an empty destination and was created now. A re-reserved record keeps its destination and creation time. No other key changes |
| Redirects.AssignReserved | links.py:49-64 | binding fails with "not reserved" when there is no record and with "already exists" when the record is bound. Both failures leave the store unchanged. It succeeds exactly when the record is reserved. On success the record holds the destination, is not reserved, keeps its creation time and was modified now. No other key changes |
| Redirects.Get | links.py:66-68 | a lookup finds a record exactly when the key has one, whatever its state |
| Redirects.GetNonReserved | links.py:77-84 | resolution succeeds exactly for bound keys and returns their stored record. A missing or reserved key is not found |
| Listing.Insert | links.py:74-75 | inserting into a newest-first list keeps it newest first and is a permutation of the old list plus the new entry |
| Listing.All | links.py:70-75 | the listing holds exactly the bound records under their keys, each key once, ordered by creation time with the newest first |
| Listing.ListingIsDetermined | links.py:74-75 | when no two bound records share a creation time, only one list meets the listing's promise |
| Listing.NewestFirstIsUnique | links.py:75 | two newest-first lists of the same entries with distinct creation times are equal |
| Handlers.PrepareForParse | links.py:170-172 | the parser always receives a string containing `/`. It is the destination itself exactly when the destination already contains `/`, and otherwise the destination with `//` in front |
| Handlers.PrepareForParseIdempotent | links.py:171-172 | preparing an already prepared destination changes nothing |
| Handlers.BindLink | links.py:155-183 | the bind request fails, in this order, for an empty key, for an empty destination, for a destination the URL library rejects (before the store is read), and then with the binding errors. Each failure leaves the store unchanged. It succeeds exactly when the key and destination are non-empty, the destination parses and the key is reserved. On success the reserved key becomes bound to the parsed form of the prepared destination and keeps its creation time, with no other key changed |
| Handlers.EditLink | links.py:226-249 | the edit request finds nothing for a missing or reserved key, then refuses an empty destination, then fails for a destination the URL library rejects. No failure changes the store. It succeeds exactly when the key is bound and the destination is non-empty and parses. On success only the bound record's destination (the parsed form of the prepared destination) and modification time change |
| Handlers.DeleteLink | links.py:263-273 | deletion reports not-found exactly when the key has no record. Either way the key has no record afterwards and no other key changes |
| Lifecycle.StepTouchesOnlyTarget | links.py:118-273 | every store-changing request affects only its target key. That key either stays in its state, goes free to reserved, goes reserved to bound, or is deleted. A bound key never becomes reserved, and a free key is never bound directly |
| Lifecycle.StepPreservesValid | links.py:23-64 | every request keeps every record consistent: a reserved record has an empty destination, and no record was modified before it was created. This holds as long as the clock does not run backwards |
| Lifecycle.ReserveFreshThenGet | links.py:41-47 | reserving a free key and reading it back gives a reserved record with an empty destination, created and modified now |
| Lifecycle.ReserveIsIdempotent | links.py:39-47 | repeating a successful reservation succeeds with the same id and changes only the modification time |
| Lifecycle.ReserveBoundFails | links.py:37-40 | reserving a bound key fails with "already exists" and leaves the store unchanged |
| Lifecycle.GeneratedIdCanShareReservation | links.py:31-47 | a generated id that lands on an unbound reservation succeeds, returning that existing key |
| Lifecycle.ReserveBindResolve | links.py:155-177 | reserve then bind then resolve yields a bound record with the parsed destination, the reservation's creation time and the bind's modification time, when the URL library accepts the destination. When the library rejects it, the bind fails and the key stays reserved |
| Lifecycle.BindTwiceFails | links.py:55-59 | a second bind of the same key always fails and changes nothing. Its error is "invalid destination" for an empty destination, and "already exists" whenever the new destination is non-empty and parses |
| Lifecycle.DeleteFreesKey | links.py:263-273 | after a successful delete the key is free: `get` finds nothing, resolution is not found, and the key can be reserved again |
| Lifecycle.DeleteTwiceNotFound | links.py:265-269 | deleting a key a second time reports not found and changes nothing |
| Lifecycle.EditKeepsBound | links.py:226-249 | editing never changes a key's state. A successful edit leaves the key resolvable with its creation time |
| Lifecycle.ListingAfterReserve | links.py:41-47 | a reservation changes nothing in the listing |
| Lifecycle.ListingAfterBind | links.py:61-64 | after a bind the listing holds the old bound records plus the newly bound key |
| Lifecycle.ListingAfterEdit | links.py:247-249 | after an edit the listing is unchanged except for the edited key's row |
| Lifecycle.ListingAfterDelete | links.py:271 | after a delete the listing is the old one without the deleted key |

## Left out

- HTTP routing, HTML and JSON rendering, status codes and `uri_for`/`urljoin`
  are left out. `LinkHandler.get`, `ListHandler.get` and `EditLinkHandler.get`
  only read the store. `NewLinkHandler.get`'s reservation is the `NewLink`
  request of `Lifecycle.Step`.
- `EditLinkHandler`'s `is None` branches are left out: they are unreachable,
  because `get_non_reserved` raises instead of returning None. The model's
  edit request fails with `NotFound` for a missing or reserved key.
- Datastore transactions, the ancestor key and concurrent contention are left
  out. Each operation is one atomic step on the map, so the rule that only one
  of two concurrent reservations wins is not modelled.
- The retries of `@ndb.transactional` are left out (links.py:29, links.py:50).
  The decorator re-runs a contended transaction a few times and then raises
  `TransactionFailedError`. That is not a `ValueError`, so no handler catches
  it. With atomic steps there is no contention, so there is nothing to retry.
- The internals of `urlparse`/`urlunparse` (a foreign library) are left out.
  They are an arbitrary partial function `canon`. Which destinations it
  rejects, and what URL it builds, are not modelled, so the model does not
  prove that a bound destination is a non-empty absolute URL.
- `random.sample` itself is left out. Its result is the `Sample` input: five
  distinct positions into the alphabet.
- Redirects.Reserve: the datastore's limit on key-name length is not
  modelled. `ndb.Key` refuses an overlong id with `ValueError`, so `reserve`
  fails there, while the model accepts an id of any length. Modelling it
  would need the UTF-8 byte length of the id, which the model does not track.
- Redirects.AssignReserved: the datastore's limit on the length of an indexed
  string property (`destination`, about 1500 bytes) is not modelled. The
  datastore refuses such a value when it is assigned, with an error no handler
  catches. The model stores a destination of any length.
- Handlers.BindLink: the same destination-length limit is not modelled. An
  overlong parsed destination makes the request fail with the store unchanged,
  while the model binds it.
- Handlers.EditLink: the same destination-length limit is not modelled. An
  overlong parsed destination makes the request fail with the store unchanged,
  while the model writes it.
- Wall-clock timestamps are left out. The clock is a `nat` passed to each
  write. `modified_at` is modelled as "the time of the last write".
- The handlers' `destination is None` test is left out: the form lookup
  yields a string (empty when the field is missing), so the model's
  destination is a string and only the empty-string test remains.
- A record whose `reserved` property is unset (None, which Python treats as
  false) is left out. The model's flag is a plain boolean.
- The order of records with the same `created_at` is left out. It is chosen by
  the datastore; the model only requires that creation times do not increase
  along the listing.
- The other files are left out: the traffic-delay plotting script, the build
  configuration, the publication fetcher, the HMAC and notebook-export scripts,
  and the map pages. They are not part of the link store.
