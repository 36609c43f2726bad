/** The tag-resolution protocol the adapters share: the properties handed
    to every backend, the two-flag tag state read from a lookup, the
    outcome of a create, and a reference remote whose answers follow its tag
    store. */
module Protocol {
  import opened Text
  import opened Http

  /** The repository properties the commands fill in for every backend. */
  datatype RepoProperties = RepoProperties(
    username: string,
    password: string,
    repo: string,
    tag: string,
    hash: string,
    host: string,
    body: string)

  /** `ValidTagState`: the tag is absent, or it exists at the provided hash. */
  datatype ValidTagState = ValidTagState(tagDoesntExist: bool, tagExistsWithProvidedHash: bool)

  /** The two flags are never both set. */
  predicate Consistent(s: ValidTagState) {
    !(s.tagDoesntExist && s.tagExistsWithProvidedHash)
  }

  /** Validation passes: the tag can be created, or is already in place. */
  predicate Passes(s: ValidTagState) {
    s.tagDoesntExist || s.tagExistsWithProvidedHash
  }

  /** The state read from a tag lookup whose found-tag body holds the target
      commit at `path`: 404 means absent, 200 means present and compared with
      the hash, and every other status, a request that could not be built and
      a missing response mean neither. */
  function Resolve(get: Reply, hash: string, path: string): (s: ValidTagState)
    ensures Consistent(s)
    ensures s.tagDoesntExist <==> HasStatus(get, StatusNotFound)
    ensures s.tagExistsWithProvidedHash <==> HasStatus(get, StatusOK) && Field(get, path) == hash
  {
    if HasStatus(get, StatusNotFound) then ValidTagState(true, false)
    else if HasStatus(get, StatusOK) then ValidTagState(false, Field(get, path) == hash)
    else ValidTagState(false, false)
  }

  /** What a create did: its boolean result and the requests that changed
      the remote, in the order they were sent. */
  datatype Outcome = Outcome(success: bool, writes: seq<Request>)

  /** The create discipline of the current adapters: nothing is written and
      the call succeeds when the tag is already in place, nothing is written
      and the call fails when the lookup was inconclusive, and when the tag is
      absent the only first write is the create request. */
  predicate IdempotentCreate(s: ValidTagState, o: Outcome, create: Request) {
    && (s.tagExistsWithProvidedHash ==> o.success && o.writes == [])
    && (!s.tagDoesntExist && !s.tagExistsWithProvidedHash ==> !o.success && o.writes == [])
    && (s.tagDoesntExist ==> o.writes == [] || o.writes[0] == create)
  }

  /** The legacy discipline: validation is one boolean and the create request
      goes out whenever it holds, whether or not the tag is already there. */
  predicate PostWhenValid(valid: bool, o: Outcome, create: Request) {
    && (!valid ==> !o.success && o.writes == [])
    && (valid ==> o.writes == [] || o.writes[0] == create)
  }

  /** The legacy discipline where the create request can always be built:
      whenever validation passes the create request is sent, and it is the
      first write. */
  predicate PostsWhenValid(valid: bool, o: Outcome, create: Request) {
    && PostWhenValid(valid, o, create)
    && (valid ==> o.writes != [] && o.writes[0] == create)
  }

  /** A reference remote: its lookup answers 200 with the tag's target at
      `path` when the tag is stored, and 404 otherwise. */
  function Remote(tags: map<string, string>, tag: string, path: string): (r: Reply)
    ensures r.Response?
    ensures tag in tags <==> HasStatus(r, StatusOK)
    ensures tag in tags ==> Field(r, path) == tags[tag]
  {
    if tag in tags then Response(StatusOK, map[path := tags[tag]])
    else Response(StatusNotFound, map[])
  }

  /** Against the reference remote, the state says exactly whether the tag is
      missing from the store or stored at the hash; validation passes exactly
      when storing the tag at the hash would change nothing already there. */
  lemma ResolveRemote(tags: map<string, string>, tag: string, hash: string, path: string)
    ensures Resolve(Remote(tags, tag, path), hash, path)
         == ValidTagState(tag !in tags, tag in tags && tags[tag] == hash)
    ensures Passes(Resolve(Remote(tags, tag, path), hash, path))
        <==> (tag !in tags || tags[tag] == hash)
  {
  }

  /** A create that follows the current discipline, run against the reference
      remote: with the tag already at the hash (for instance on a second run
      after a successful first one) it succeeds and writes nothing; with the
      tag at another commit it fails and writes nothing; with the tag missing
      the create request is the first write. */
  lemma IdempotentAgainstRemote(tags: map<string, string>, tag: string, hash: string, path: string,
                                o: Outcome, create: Request)
    requires IdempotentCreate(Resolve(Remote(tags, tag, path), hash, path), o, create)
    ensures tag in tags && tags[tag] == hash ==> o == Outcome(true, [])
    ensures tag in tags && tags[tag] != hash ==> o == Outcome(false, [])
    ensures tag !in tags && o.writes != [] ==> o.writes[0] == create
  {
    ResolveRemote(tags, tag, hash, path);
  }

  /** A legacy create against the reference remote sends the create request
      again when the tag is already at the hash, and writes nothing when it
      points elsewhere. */
  lemma PostWhenValidAgainstRemote(tags: map<string, string>, tag: string, hash: string, path: string,
                                   o: Outcome, create: Request)
    requires PostsWhenValid(Passes(Resolve(Remote(tags, tag, path), hash, path)), o, create)
    ensures tag in tags && tags[tag] == hash ==> o.writes != [] && o.writes[0] == create
    ensures tag in tags && tags[tag] != hash ==> o == Outcome(false, [])
  {
    ResolveRemote(tags, tag, hash, path);
  }
}
