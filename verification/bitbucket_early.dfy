/** The earlier Bitbucket adapter: Bitbucket Cloud's API shape under the
    default or a given base. */
module BitbucketEarly {
  import opened Text
  import opened Http
  import opened Protocol

  const DefaultBase := "https://api.bitbucket.org"
  const CommitPath := "target.hash"

  /** The tag collection; a given host replaces the default base verbatim. */
  function TagsUrl(p: RepoProperties): (u: Url)
    ensures |u| == 4
    ensures u[0] == Raw(if p.host == "" then DefaultBase else p.host)
    ensures u[1..] == [Raw("/2.0/repositories/"), Raw(p.repo), Raw("/refs/tags")]
  {
    Base(p.host, DefaultBase) + [Raw("/2.0/repositories/"), Raw(p.repo), Raw("/refs/tags")]
  }

  function TagUrl(p: RepoProperties): (u: Url)
    ensures |u| == |TagsUrl(p)| + 1
    ensures u[..|TagsUrl(p)|] == TagsUrl(p)
    ensures u[|TagsUrl(p)|] == Raw("/" + p.tag)
  {
    TagsUrl(p) + [Raw("/" + p.tag)]
  }

  /** The tag name and its target hash. */
  function CreateBody(p: RepoProperties): (j: Json)
    ensures Member(j, "name") == Some(Str(p.tag))
    ensures Member(j, "target") == Some(Obj([("hash", Str(p.hash))]))
  {
    var ms := [("name", Str(p.tag)), ("target", Obj([("hash", Str(p.hash))]))];
    FindAt(ms, "target", 1);
    Obj(ms)
  }

  function CreateRequest(p: RepoProperties): Request {
    Request(Post, TagsUrl(p), [], Some(CreateBody(p)))
  }

  /** `ValidateTag`: 404 means absent, 200 compares `target.hash` with the
      hash, anything else leaves both flags unset. */
  function ValidateTag(p: RepoProperties, get: Reply): (s: ValidTagState)
    ensures Consistent(s)
    ensures s.tagDoesntExist <==> HasStatus(get, StatusNotFound)
    ensures s.tagExistsWithProvidedHash <==> HasStatus(get, StatusOK) && Field(get, CommitPath) == p.hash
  {
    Resolve(get, p.hash, CommitPath)
  }

  /** `CreateTag`: succeeds without writing when the tag is in place; when it
      is absent, creates it and succeeds only on 201; fails without writing
      otherwise. The create request and its response are used unguarded. */
  function CreateTag(p: RepoProperties, get: Reply, post: Reply): (o: Outcome)
    requires ValidateTag(p, get).tagDoesntExist ==> post.Response?
    ensures IdempotentCreate(ValidateTag(p, get), o, CreateRequest(p))
    ensures o.success <==>
      ValidateTag(p, get).tagExistsWithProvidedHash
      || (HasStatus(get, StatusNotFound) && HasStatus(post, StatusCreated))
    ensures o.writes == if HasStatus(get, StatusNotFound) then [CreateRequest(p)] else []
  {
    var s := ValidateTag(p, get);
    if s.tagExistsWithProvidedHash then Outcome(true, [])
    else if s.tagDoesntExist then Outcome(post.status == StatusCreated, [CreateRequest(p)])
    else Outcome(false, [])
  }
}
