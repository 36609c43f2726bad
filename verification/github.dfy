/** The current GitHub adapter: tag lookup through the git refs API and
    creation of a release, which creates the tag at the target commit. */
module GitHub {
  import opened Text
  import opened Http
  import opened Protocol

  const DefaultBase := "https://api.github.com"

  /** Where a found ref's body holds its object. */
  const ShaPath := "object.sha"

  /** Where a 422 body holds its first error, and that error's code. */
  const FirstErrorPath := "errors.0"
  const FirstErrorCodePath := "errors.0.code"

  /** A 422 body lists at least one error. The code reads the first error
      without a length check; an error without a `code` reads as "". */
  predicate ErrorsReadable(post: Reply) {
    HasStatus(post, StatusUnprocessableEntity) ==> FirstErrorPath in post.fields
  }

  /** The tag's ref; the repository path is inserted unescaped. */
  function RefUrl(p: RepoProperties): (u: Url)
    ensures |u| == 5
    ensures u[0] == Raw(if p.host == "" then DefaultBase else p.host)
    ensures u[2] == Raw(p.repo) && u[4] == Raw(p.tag)
    ensures forall i :: 0 <= i < |u| ==> u[i].Raw?
  {
    Base(p.host, DefaultBase) + [Raw("/repos/"), Raw(p.repo), Raw("/git/refs/tags/"), Raw(p.tag)]
  }

  /** The repository's release collection, on the same base as the ref. */
  function ReleasesUrl(p: RepoProperties): (u: Url)
    ensures |u| == 4
    ensures u[..3] == RefUrl(p)[..3]
    ensures forall i :: 0 <= i < |u| ==> u[i].Raw?
  {
    Base(p.host, DefaultBase) + [Raw("/repos/"), Raw(p.repo), Raw("/releases")]
  }

  /** The release body: named after the tag, created at the hash, holding the
      change notes, neither a draft nor a pre-release. */
  function ReleaseBody(p: RepoProperties): (j: Json)
    ensures Member(j, "tag_name") == Some(Str(p.tag)) && Member(j, "name") == Some(Str(p.tag))
    ensures Member(j, "target_commitish") == Some(Str(p.hash))
    ensures Member(j, "body") == Some(Str(p.body))
    ensures Member(j, "draft") == Some(Bool(false)) && Member(j, "prerelease") == Some(Bool(false))
  {
    var ms := [("tag_name", Str(p.tag)), ("target_commitish", Str(p.hash)), ("name", Str(p.tag)),
               ("body", Str(p.body)), ("draft", Bool(false)), ("prerelease", Bool(false))];
    FindAt(ms, "tag_name", 0);
    FindAt(ms, "target_commitish", 1);
    FindAt(ms, "name", 2);
    FindAt(ms, "body", 3);
    FindAt(ms, "draft", 4);
    FindAt(ms, "prerelease", 5);
    Obj(ms)
  }

  function CreateRequest(p: RepoProperties): Request {
    Request(Post, ReleasesUrl(p), [], Some(ReleaseBody(p)))
  }

  /** `ValidateTag`: 404 means absent, 200 compares `object.sha` with the
      hash, anything else leaves both flags unset. */
  function ValidateTag(p: RepoProperties, get: Reply): (s: ValidTagState)
    ensures Consistent(s)
    ensures s.tagDoesntExist <==> HasStatus(get, StatusNotFound)
    ensures s.tagExistsWithProvidedHash <==> HasStatus(get, StatusOK) && Field(get, ShaPath) == p.hash
  {
    Resolve(get, p.hash, ShaPath)
  }

  /** The code has no guard on the release request and its response, and on
      a 422 it reads the first error of the list. */
  predicate CreateDefined(p: RepoProperties, get: Reply, post: Reply) {
    ValidateTag(p, get).tagDoesntExist ==>
      post.Response? && ErrorsReadable(post)
  }

  /** `CreateTag`: succeeds without writing when the tag is in place; when it
      is absent, creates the release and succeeds only on 201, so a 422
      `already_exists` is a failure; fails without writing otherwise. */
  function CreateTag(p: RepoProperties, get: Reply, post: Reply): (o: Outcome)
    requires CreateDefined(p, get, post)
    ensures IdempotentCreate(ValidateTag(p, get), o, CreateRequest(p))
    ensures o.success <==>
      ValidateTag(p, get).tagExistsWithProvidedHash
      || (HasStatus(get, StatusNotFound) && HasStatus(post, StatusCreated))
    ensures o.writes == if HasStatus(get, StatusNotFound) then [CreateRequest(p)] else []
  {
    var s := ValidateTag(p, get);
    if s.tagExistsWithProvidedHash then Outcome(true, [])
    else if s.tagDoesntExist then Outcome(post.status == StatusCreated, [CreateRequest(p)])
    else Outcome(false, [])
  }
}
