/**
  The `Redirect` entity and the store operations of the `Redirect` class:
  `reserve`, `assign_reserved`, `get` and `get_non_reserved`.

  The datastore is a map from short id to record, and every operation is one
  atomic step on it. A writing operation returns a `Reply`: the store after
  the step and what the call returned. When the call fails (the Python method
  raises), nothing is written and the store in the reply is the input store.

  Timestamps come from a logical clock `now`: `created_at` is set by the first
  `put` of a record, `modified_at` by every `put`.
 */
module Redirects {
  import opened Optional
  import opened KeyGen

  datatype Redirect = Redirect(
    destination: string,
    reserved: bool,
    createdAt: nat,
    modifiedAt: nat)

  /** All records, keyed by their short id. */
  type Store = map<string, Redirect>

  /** Every way an operation on the store, or a request deciding on one, fails. */
  datatype Error =
    | AlreadyExists          // reserving or binding a key that is already bound
    | NotReserved            // binding a key that has no record
    | NotFound               // resolving, editing or deleting a key with no (bound) record
    | MissingKey             // the bind request names no key
    | InvalidDestination     // the submitted destination is empty
    | UnparsableDestination  // the URL library raises on the prepared destination

  datatype Result<+T> = Ok(value: T) | Err(error: Error)

  /** The store after one atomic step, and the step's outcome. */
  datatype Reply<+T> = Reply(store: Store, result: Result<T>)

  /** The records of `s` other than `k` are exactly those of `s'` other than `k`. */
  predicate OnlyKeyChanged(s: Store, s': Store, k: string) {
    s - {k} == s' - {k}
  }

  /** The id `reserve` works on: the one supplied, or a generated one when
      none (or the empty string) is supplied. */
  function ChosenId(id: Option<string>, sample: Sample): (k: string)
    ensures id.Some? && id.value != "" ==> k == id.value
    ensures id.None? || id.value == "" ==> IsGeneratedShape(k)
  {
    if id.None? || id.value == "" then GenerateId(sample) else id.value
  }

  /** `Redirect.reserve`: claim a key so that it can be bound later. A bound
      key cannot be reserved; a reserved one is written again unchanged apart
      from its modification time. */
  function Reserve(s: Store, id: Option<string>, sample: Sample, now: nat): (r: Reply<string>)
    ensures var k := ChosenId(id, sample);
      && (r.result.Err? <==> k in s && !s[k].reserved)
      && (r.result.Err? ==> r.result.error == AlreadyExists && r.store == s)
      && (r.result.Ok? ==>
            && r.result.value == k
            && k in r.store
            && r.store[k].reserved
            && r.store[k].modifiedAt == now
            && OnlyKeyChanged(s, r.store, k))
      && (r.result.Ok? && k !in s ==>
            r.store[k].destination == "" && r.store[k].createdAt == now)
      && (r.result.Ok? && k in s ==>
            r.store[k].destination == s[k].destination && r.store[k].createdAt == s[k].createdAt)
  {
    var k := ChosenId(id, sample);
    if k in s && !s[k].reserved then
      Reply(s, Err(AlreadyExists))
    else
      var record := if k in s then s[k] else Redirect("", true, now, now);
      Reply(s[k := record.(modifiedAt := now)], Ok(k))
  }

  /** `Redirect.assign_reserved`: bind a reserved key to a destination. */
  function AssignReserved(s: Store, id: string, destination: string, now: nat): (r: Reply<string>)
    ensures r.result == Err(NotReserved) <==> id !in s
    ensures r.result == Err(AlreadyExists) <==> id in s && !s[id].reserved
    ensures r.result.Ok? <==> id in s && s[id].reserved
    ensures r.result.Err? ==> r.store == s
    ensures r.result.Ok? ==>
      && id in s && s[id].reserved
      && r.result.value == id
      && id in r.store
      && r.store[id].destination == destination
      && !r.store[id].reserved
      && r.store[id].createdAt == s[id].createdAt
      && r.store[id].modifiedAt == now
      && OnlyKeyChanged(s, r.store, id)
  {
    if id !in s then
      Reply(s, Err(NotReserved))
    else if !s[id].reserved then
      Reply(s, Err(AlreadyExists))
    else
      Reply(s[id := s[id].(destination := destination, reserved := false, modifiedAt := now)], Ok(id))
  }

  /** `Redirect.get`: the record of a key whatever its state. */
  function Get(s: Store, id: string): (r: Option<Redirect>)
    ensures r.Some? <==> id in s
    ensures r.Some? ==> r.value == s[id]
  {
    if id in s then Some(s[id]) else None
  }

  /** `Redirect.get_non_reserved`: the record of a key only when it is bound;
      a missing or merely reserved key is not found. */
  function GetNonReserved(s: Store, id: string): (r: Result<Redirect>)
    ensures r.Ok? <==> id in s && !s[id].reserved
    ensures r.Ok? ==> r.value == s[id]
    ensures r.Err? ==> r.error == NotFound
  {
    match Get(s, id)
    case None => Err(NotFound)
    case Some(record) => if record.reserved then Err(NotFound) else Ok(record)
  }
}
