/**
  The life of one short key across the requests that change the store:
  free, reserved (claimed, no destination yet) and bound (resolvable).

  `Step` dispatches one store-changing request; the lemmas below state which
  transitions a key can take, the record invariant every step keeps, and the
  request sequences a client goes through.
 */
module Lifecycle {
  import opened Optional
  import opened KeyGen
  import opened Redirects
  import opened Listing
  import opened Handlers

  datatype Status = Free | Reserved | Bound

  function StatusOf(s: Store, k: string): Status {
    if k !in s then Free else if s[k].reserved then Reserved else Bound
  }

  /** The changes of status one step may make to a key: none at all, a
      reservation of a free key, a binding of a reserved key, or a deletion.
      A bound key never goes back to reserved and a free key is never bound
      directly. */
  predicate Allowed(before: Status, after: Status) {
    || before == after
    || (before == Free && after == Reserved)
    || (before == Reserved && after == Bound)
    || after == Free
  }

  /** The requests that write to the store. */
  datatype Request =
    | NewLink(key: string)                       // `NewLinkHandler.get`: reserve
    | Bind(key: string, destination: string)     // `NewLinkHandler.post`
    | Edit(key: string, destination: string)     // `EditLinkHandler.post`
    | Delete(key: string)                        // `DeleteLinkHandler.get`

  /** The key a request works on; a new link with an empty key works on the
      generated one. */
  function Target(req: Request, sample: Sample): string {
    match req
    case NewLink(key) => ChosenId(Some(key), sample)
    case Bind(key, _) => key
    case Edit(key, _) => key
    case Delete(key) => key
  }

  /** One request as an atomic step on the store. */
  function Step(s: Store, req: Request, sample: Sample,
                canon: string -> Option<string>, now: nat): Reply<string> {
    match req
    case NewLink(key) => Reserve(s, Some(key), sample, now)
    case Bind(key, d) => BindLink(s, key, d, canon, now)
    case Edit(key, d) => EditLink(s, key, d, canon, now)
    case Delete(key) => DeleteLink(s, key)
  }

  /** Every step touches only its target key, and moves it along an
      allowed transition. */
  lemma StepTouchesOnlyTarget(s: Store, req: Request, sample: Sample,
                              canon: string -> Option<string>, now: nat)
    ensures var r := Step(s, req, sample, canon, now);
      var k := Target(req, sample);
      && OnlyKeyChanged(s, r.store, k)
      && Allowed(StatusOf(s, k), StatusOf(r.store, k))
  {
  }

  /** A record is consistent: a reserved record has no destination yet, and
      it was not modified before it was created. */
  predicate Consistent(rec: Redirect) {
    && (rec.reserved ==> rec.destination == "")
    && rec.createdAt <= rec.modifiedAt
  }

  predicate Valid(s: Store) {
    forall k :: k in s ==> Consistent(s[k])
  }

  /** The clock reads no earlier than any write already in the store. */
  predicate ClockNotBehind(s: Store, now: nat) {
    forall k :: k in s ==> s[k].modifiedAt <= now
  }

  /** Every step keeps every record consistent, provided the clock does not
      run backwards. */
  lemma StepPreservesValid(s: Store, req: Request, sample: Sample,
                           canon: string -> Option<string>, now: nat)
    requires Valid(s) && ClockNotBehind(s, now)
    ensures var r := Step(s, req, sample, canon, now);
      Valid(r.store) && ClockNotBehind(r.store, now)
  {
    var r := Step(s, req, sample, canon, now);
    var k := Target(req, sample);
    StepTouchesOnlyTarget(s, req, sample, canon, now);
    forall k' | k' in r.store
      ensures Consistent(r.store[k']) && r.store[k'].modifiedAt <= now
    {
      if k' != k {
        assert k' in r.store - {k};
        assert r.store[k'] == (s - {k})[k'];
      }
    }
  }

  /** Reserving a free key and reading it back gives a reserved record with
      no destination, created and modified now. */
  lemma ReserveFreshThenGet(s: Store, k: string, sample: Sample, now: nat)
    requires k != "" && k !in s
    ensures var r := Reserve(s, Some(k), sample, now);
      && r.result == Ok(k)
      && Get(r.store, k) == Some(Redirect("", true, now, now))
  {
  }

  /** Reserving an already reserved key again succeeds and keeps the record
      apart from its modification time: retries are safe. */
  lemma ReserveIsIdempotent(s: Store, id: Option<string>, sample: Sample, t1: nat, t2: nat)
    requires Reserve(s, id, sample, t1).result.Ok?
    ensures var r1 := Reserve(s, id, sample, t1);
      var r2 := Reserve(r1.store, id, sample, t2);
      var k := r1.result.value;
      && r2.result == r1.result
      && r2.store == r1.store[k := r1.store[k].(modifiedAt := t2)]
  {
  }

  /** A reservation never lets anyone reserve a bound key. */
  lemma ReserveBoundFails(s: Store, k: string, sample: Sample, now: nat)
    requires k != "" && StatusOf(s, k) == Bound
    ensures Reserve(s, Some(k), sample, now) == Reply(s, Err(AlreadyExists))
  {
  }

  /** A generated id is not checked against reservations: when it hits a key
      another request has reserved and not yet bound, the reservation is
      handed out again as if it were new. */
  lemma GeneratedIdCanShareReservation(s: Store, sample: Sample, now: nat)
    requires StatusOf(s, GenerateId(sample)) == Reserved
    ensures Reserve(s, None, sample, now).result == Ok(GenerateId(sample))
    ensures Reserve(s, Some(""), sample, now).result == Ok(GenerateId(sample))
  {
  }

  /** Reserve a free key, bind it, resolve it. When the URL library accepts
      the destination, the redirect leads to the normalised destination and
      keeps the reservation's creation time. When the library rejects it, the
      bind fails and the key stays reserved. */
  lemma ReserveBindResolve(s: Store, k: string, d: string, sample: Sample,
                           canon: string -> Option<string>, t1: nat, t2: nat)
    requires k != "" && k !in s && d != ""
    ensures var s1 := Reserve(s, Some(k), sample, t1).store;
      var r2 := BindLink(s1, k, d, canon, t2);
      && (Normalise(d, canon).Some? ==>
            && r2.result == Ok(k)
            && GetNonReserved(r2.store, k) == Ok(Redirect(Normalise(d, canon).value, false, t1, t2)))
      && (Normalise(d, canon).None? ==>
            && r2 == Reply(s1, Err(UnparsableDestination))
            && StatusOf(r2.store, k) == Reserved)
  {
  }

  /** A key cannot be bound twice: the second attempt fails and changes
      nothing, with "already exists" whenever the new destination is
      non-empty and parses. */
  lemma BindTwiceFails(s: Store, k: string, d1: string, d2: string,
                       canon: string -> Option<string>, t1: nat, t2: nat)
    requires BindLink(s, k, d1, canon, t1).result.Ok?
    ensures var s1 := BindLink(s, k, d1, canon, t1).store;
      var r2 := BindLink(s1, k, d2, canon, t2);
      && r2.result.Err? && r2.store == s1
      && (d2 == "" ==> r2.result == Err(InvalidDestination))
      && (d2 != "" && Normalise(d2, canon).Some? ==> r2.result == Err(AlreadyExists))
  {
  }

  /** After a successful delete the key is free again: nothing resolves,
      nothing is found, and it can be reserved anew. */
  lemma DeleteFreesKey(s: Store, k: string, sample: Sample, now: nat)
    requires k != ""
    requires DeleteLink(s, k).result.Ok?
    ensures var s1 := DeleteLink(s, k).store;
      && StatusOf(s1, k) == Free
      && Get(s1, k) == None
      && GetNonReserved(s1, k) == Err(NotFound)
      && Reserve(s1, Some(k), sample, now).result == Ok(k)
  {
  }

  /** Deleting a key twice: the second time it is not found. */
  lemma DeleteTwiceNotFound(s: Store, k: string)
    ensures var s1 := DeleteLink(s, k).store;
      DeleteLink(s1, k) == Reply(s1, Err(NotFound))
  {
  }

  /** Editing never makes a key resolvable that was not, and never reserves
      a bound key again: a bound key stays bound with its creation time. */
  lemma EditKeepsBound(s: Store, k: string, d: string, canon: string -> Option<string>, now: nat)
    ensures var r := EditLink(s, k, d, canon, now);
      && StatusOf(r.store, k) == StatusOf(s, k)
      && (r.result.Ok? ==>
            && GetNonReserved(r.store, k).Ok?
            && GetNonReserved(r.store, k).value.createdAt == s[k].createdAt)
  {
  }

  /** What the listing shows after each kind of request: a reservation shows
      nothing new, a binding adds exactly the bound key, an edit replaces the
      key's row, a deletion drops it. */
  lemma ListingAfterReserve(s: Store, id: Option<string>, sample: Sample, now: nat)
    ensures var r := Reserve(s, id, sample, now);
      forall e :: IsListed(r.store, e) <==> IsListed(s, e)
  {
    var r := Reserve(s, id, sample, now);
    var k := ChosenId(id, sample);
    forall e
      ensures IsListed(r.store, e) <==> IsListed(s, e)
    {
      if r.result.Ok? && e.id != k {
        assert e.id in r.store <==> e.id in r.store - {k};
        assert e.id in s <==> e.id in s - {k};
        if e.id in s {
          assert s[e.id] == (s - {k})[e.id];
          assert r.store[e.id] == (r.store - {k})[e.id];
        }
      }
    }
  }

  lemma ListingAfterBind(s: Store, k: string, d: string, canon: string -> Option<string>, now: nat)
    ensures var r := BindLink(s, k, d, canon, now);
      r.result.Ok? ==>
        forall e :: IsListed(r.store, e) <==>
          (e.id != k && IsListed(s, e)) || e == Entry(k, r.store[k])
  {
    var r := BindLink(s, k, d, canon, now);
    if r.result.Ok? {
      forall e
        ensures IsListed(r.store, e) <==> (e.id != k && IsListed(s, e)) || e == Entry(k, r.store[k])
      {
        if e.id != k {
          OtherKeysAgree(s, r.store, k, e.id);
        }
      }
    }
  }

  lemma ListingAfterEdit(s: Store, k: string, d: string, canon: string -> Option<string>, now: nat)
    ensures var r := EditLink(s, k, d, canon, now);
      r.result.Ok? ==>
        forall e :: IsListed(r.store, e) <==>
          (e.id != k && IsListed(s, e)) || e == Entry(k, r.store[k])
  {
    var r := EditLink(s, k, d, canon, now);
    if r.result.Ok? {
      forall e
        ensures IsListed(r.store, e) <==> (e.id != k && IsListed(s, e)) || e == Entry(k, r.store[k])
      {
        if e.id != k {
          OtherKeysAgree(s, r.store, k, e.id);
        }
      }
    }
  }

  lemma ListingAfterDelete(s: Store, k: string)
    ensures var r := DeleteLink(s, k);
      forall e :: IsListed(r.store, e) <==> e.id != k && IsListed(s, e)
  {
    var r := DeleteLink(s, k);
    forall e
      ensures IsListed(r.store, e) <==> e.id != k && IsListed(s, e)
    {
      if e.id != k {
        OtherKeysAgree(s, r.store, k, e.id);
      }
    }
  }

  /** Stores that agree away from `k` agree on every other key. */
  lemma OtherKeysAgree(s: Store, s': Store, k: string, k': string)
    requires OnlyKeyChanged(s, s', k)
    requires k' != k
    ensures k' in s <==> k' in s'
    ensures k' in s ==> s[k'] == s'[k']
  {
    assert k' in s <==> k' in s - {k};
    assert k' in s' <==> k' in s' - {k};
    if k' in s {
      assert s[k'] == (s - {k})[k'];
      assert s'[k'] == (s' - {k})[k'];
    }
  }
}
