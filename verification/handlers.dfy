/**
  The store-affecting decisions of the request handlers: binding a reserved
  key (`NewLinkHandler.post`), changing a bound key's destination
  (`EditLinkHandler.post`) and deleting a key (`DeleteLinkHandler.get`).

  Rendering, status codes and URL building are not modelled. The URL library
  call `urlunparse(urlparse(d, 'http'))` is the parameter `canon`. It either
  yields the reassembled URL or fails (`None`), as `urlparse` does by raising
  `ValueError` on a malformed network location. Nothing else is assumed
  about it. That exception is not caught by either handler, so the request
  ends there and the store is not written.
 */
module Handlers {
  import opened Optional
  import opened Redirects

  /** The string handed to the URL parser: a destination without any `/` is
      read as a bare host, so `//` is put in front of it. */
  function PrepareForParse(d: string): (p: string)
    ensures '/' in p
    ensures p == d <==> '/' in d
    ensures p != d ==> p == "//" + d
  {
    if '/' in d then d else "//" + d
  }

  /** Preparing twice changes nothing more than preparing once. */
  lemma PrepareForParseIdempotent(d: string)
    ensures PrepareForParse(PrepareForParse(d)) == PrepareForParse(d)
  {
  }

  /** The destination as stored: the prepared string after the URL library's
      parse-and-reassemble, or `None` when the library raises. */
  function Normalise(d: string, canon: string -> Option<string>): Option<string> {
    canon(PrepareForParse(d))
  }

  /** `NewLinkHandler.post`: bind the reserved key `key` to `destination`.
      An empty key or destination is refused, and a destination the URL
      library rejects fails, all before the store is read. */
  function BindLink(s: Store, key: string, destination: string,
                    canon: string -> Option<string>, now: nat): (r: Reply<string>)
    ensures r.result == Err(MissingKey) <==> key == ""
    ensures r.result == Err(InvalidDestination) <==> key != "" && destination == ""
    ensures r.result == Err(UnparsableDestination) <==>
      key != "" && destination != "" && Normalise(destination, canon).None?
    ensures r.result == Err(NotReserved) <==>
      key != "" && destination != "" && Normalise(destination, canon).Some? && key !in s
    ensures r.result == Err(AlreadyExists) <==>
      key != "" && destination != "" && Normalise(destination, canon).Some?
      && key in s && !s[key].reserved
    ensures r.result.Ok? <==>
      key != "" && destination != "" && Normalise(destination, canon).Some?
      && key in s && s[key].reserved
    ensures r.result.Err? ==> r.store == s
    ensures r.result.Ok? ==>
      && key in s && s[key].reserved
      && r.result.value == key
      && key in r.store
      && Normalise(destination, canon) == Some(r.store[key].destination)
      && !r.store[key].reserved
      && r.store[key].createdAt == s[key].createdAt
      && OnlyKeyChanged(s, r.store, key)
  {
    if key == "" then
      Reply(s, Err(MissingKey))
    else if destination == "" then
      Reply(s, Err(InvalidDestination))
    else
      match Normalise(destination, canon)
      case None => Reply(s, Err(UnparsableDestination))
      case Some(url) => AssignReserved(s, key, url, now)
  }

  /** `EditLinkHandler.post`: give a bound key a new destination. A key that
      is missing or only reserved is not found; an empty destination is
      refused; a destination the URL library rejects fails. Only the
      destination (and the modification time) change. */
  function EditLink(s: Store, key: string, destination: string,
                    canon: string -> Option<string>, now: nat): (r: Reply<string>)
    ensures r.result == Err(NotFound) <==> key !in s || s[key].reserved
    ensures r.result == Err(InvalidDestination) <==>
      key in s && !s[key].reserved && destination == ""
    ensures r.result == Err(UnparsableDestination) <==>
      key in s && !s[key].reserved && destination != "" && Normalise(destination, canon).None?
    ensures r.result.Ok? <==>
      key in s && !s[key].reserved && destination != "" && Normalise(destination, canon).Some?
    ensures r.result.Err? ==> r.store == s
    ensures r.result.Ok? ==>
      && key in s && !s[key].reserved
      && r.result.value == key
      && key in r.store
      && Normalise(destination, canon) == Some(r.store[key].destination)
      && r.store[key] == s[key].(destination := r.store[key].destination, modifiedAt := now)
      && OnlyKeyChanged(s, r.store, key)
  {
    match GetNonReserved(s, key)
    case Err(e) => Reply(s, Err(e))
    case Ok(record) =>
      if destination == "" then
        Reply(s, Err(InvalidDestination))
      else
        match Normalise(destination, canon)
        case None => Reply(s, Err(UnparsableDestination))
        case Some(url) => Reply(s[key := record.(destination := url, modifiedAt := now)], Ok(key))
  }

  /** `DeleteLinkHandler.get`: remove the record of `key`, reserved or bound;
      a key with no record is not found. */
  function DeleteLink(s: Store, key: string): (r: Reply<string>)
    ensures r.result.Err? <==> key !in s
    ensures r.result.Err? ==> r.result.error == NotFound && r.store == s
    ensures r.result.Ok? ==> r.result.value == key
    ensures key !in r.store
    ensures OnlyKeyChanged(s, r.store, key)
  {
    match Get(s, key)
    case None => Reply(s, Err(NotFound))
    case Some(_) => Reply(s - {key}, Ok(key))
  }
}
