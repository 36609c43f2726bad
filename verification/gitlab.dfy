/** The current GitLab adapter: tag lookup through the project tags API,
    tag creation with query parameters, then a release holding the change
    notes. */
module GitLab {
  import opened Text
  import opened Http
  import opened Protocol

  const DefaultBase := "https://gitlab.com"

  /** Where a found tag's body holds its commit. */
  const CommitPath := "commit.id"

  /** The project's tag collection; the repository path is query-escaped. */
  function TagsUrl(p: RepoProperties): (u: Url)
    ensures |u| == 4
    ensures u[0] == Raw(if p.host == "" then DefaultBase else p.host)
    ensures forall i :: 0 <= i < |u| && u[i].Escaped? ==> u[i] == Escaped(p.repo)
    ensures exists i :: 0 <= i < |u| && u[i] == Escaped(p.repo)
  {
    var u := Base(p.host, DefaultBase) + [Raw("/api/v4/projects/"), Escaped(p.repo), Raw("/repository/tags")];
    assert u[2] == Escaped(p.repo);
    u
  }

  /** One tag: the collection followed by the tag name. */
  function TagUrl(p: RepoProperties): (u: Url)
    ensures |u| == |TagsUrl(p)| + 2
    ensures u[..|TagsUrl(p)|] == TagsUrl(p)
    ensures u[|TagsUrl(p)|..] == [Raw("/"), Raw(p.tag)]
  {
    TagsUrl(p) + [Raw("/"), Raw(p.tag)]
  }

  /** The tag's release: the tag URL followed by `/release`. */
  function ReleaseUrl(p: RepoProperties): (u: Url)
    ensures |u| == |TagUrl(p)| + 1
    ensures u[..|TagUrl(p)|] == TagUrl(p)
    ensures u[|TagUrl(p)|..] == [Raw("/release")]
  {
    TagUrl(p) + [Raw("/release")]
  }

  /** The create request: `tag_name` and `ref` as query parameters, no body. */
  function CreateRequest(p: RepoProperties): Request {
    Request(Post, TagsUrl(p), [("tag_name", p.tag), ("ref", p.hash)], None)
  }

  /** The release request, with the change notes as its description. */
  function ReleaseRequest(p: RepoProperties): Request {
    Request(Post, ReleaseUrl(p), [], Some(Obj([("description", Str(p.body))])))
  }

  /** `ValidateTag`: 404 means absent, 200 compares `commit.id` with the hash,
      anything else (401 included, and a request or response that is
      missing) leaves both flags unset. */
  function ValidateTag(p: RepoProperties, get: Reply): (s: ValidTagState)
    ensures Consistent(s)
    ensures s.tagDoesntExist <==> HasStatus(get, StatusNotFound)
    ensures s.tagExistsWithProvidedHash <==> HasStatus(get, StatusOK) && Field(get, CommitPath) == p.hash
  {
    Resolve(get, p.hash, CommitPath)
  }

  /** `createRelease`: only 201 succeeds; a 409, whatever its message, does
      not. A request that cannot be built is not sent. */
  function CreateRelease(p: RepoProperties, release: Reply): (o: Outcome)
    requires release != NoResponse
    ensures o.success <==> HasStatus(release, StatusCreated)
    ensures o.writes == if release.NoRequest? then [] else [ReleaseRequest(p)]
  {
    if release.NoRequest? then Outcome(false, [])
    else Outcome(release.status == StatusCreated, [ReleaseRequest(p)])
  }

  /** The code reads the status of every response it asked for. */
  predicate CreateDefined(p: RepoProperties, get: Reply, post: Reply, release: Reply) {
    ValidateTag(p, get).tagDoesntExist ==>
      post != NoResponse && (HasStatus(post, StatusCreated) ==> release != NoResponse)
  }

  /** `CreateTag`: succeeds without writing when the tag is in place; when the
      tag is absent, creates it and then its release, succeeding only when
      both answer 201; fails without writing otherwise. */
  function CreateTag(p: RepoProperties, get: Reply, post: Reply, release: Reply): (o: Outcome)
    requires CreateDefined(p, get, post, release)
    ensures IdempotentCreate(ValidateTag(p, get), o, CreateRequest(p))
    ensures o.success <==>
      ValidateTag(p, get).tagExistsWithProvidedHash
      || (HasStatus(get, StatusNotFound) && HasStatus(post, StatusCreated) && HasStatus(release, StatusCreated))
    ensures |o.writes| <= 2
    ensures |o.writes| == 2 <==>
      HasStatus(get, StatusNotFound) && HasStatus(post, StatusCreated) && release.Response?
    ensures |o.writes| == 2 ==> o.writes[1] == ReleaseRequest(p)
  {
    var s := ValidateTag(p, get);
    if s.tagExistsWithProvidedHash then Outcome(true, [])
    else if s.tagDoesntExist then
      if post.NoRequest? then Outcome(false, [])
      else if post.status == StatusCreated then
        var r := CreateRelease(p, release);
        Outcome(r.success, [CreateRequest(p)] + r.writes)
      else Outcome(false, [CreateRequest(p)])
    else Outcome(false, [])
  }
}
