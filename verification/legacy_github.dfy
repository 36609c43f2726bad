/** The first GitHub adapter: validation is one boolean, the release is
    created whenever it passes, and a 422 whose first error is
    `already_exists` counts as success. It uses every request and response
    without checking that they exist. */
module LegacyGitHub {
  import opened Text
  import opened Http
  import opened Protocol
  import GitHub

  const AlreadyExistsCode := "already_exists"

  /** The release step went through: created, or reported as already there. */
  predicate ReleaseStepOk(post: Reply) {
    HasStatus(post, StatusCreated)
    || (HasStatus(post, StatusUnprocessableEntity) && Field(post, GitHub.FirstErrorCodePath) == AlreadyExistsCode)
  }

  /** `ValidateTag`: true exactly on 404, or on 200 with `object.sha` equal to
      the hash. */
  function ValidateTag(p: RepoProperties, get: Reply): (valid: bool)
    requires get.Response?
    ensures valid <==>
      HasStatus(get, StatusNotFound)
      || (HasStatus(get, StatusOK) && Field(get, GitHub.ShaPath) == p.hash)
  {
    Passes(GitHub.ValidateTag(p, get))
  }

  /** `CreateTag`: when validation passes, creates the release, succeeding on
      201 and on a 422 `already_exists`; otherwise false with nothing sent. */
  function CreateTag(p: RepoProperties, get: Reply, post: Reply): (o: Outcome)
    requires get.Response?
    requires ValidateTag(p, get) ==> post.Response? && GitHub.ErrorsReadable(post)
    ensures PostsWhenValid(ValidateTag(p, get), o, GitHub.CreateRequest(p))
    ensures o.success <==> ValidateTag(p, get) && ReleaseStepOk(post)
    ensures ValidateTag(p, get) ==> o.writes == [GitHub.CreateRequest(p)]
  {
    if ValidateTag(p, get) then Outcome(ReleaseStepOk(post), [GitHub.CreateRequest(p)])
    else Outcome(false, [])
  }

  /** Run again against a remote that already holds the tag at the hash, the
      release is requested again and GitHub's `already_exists` makes the call
      succeed. */
  lemma RerunFoldsAlreadyExists(p: RepoProperties, tags: map<string, string>)
    requires p.tag in tags && tags[p.tag] == p.hash
    ensures
      var o := CreateTag(p, Remote(tags, p.tag, GitHub.ShaPath),
                         Response(StatusUnprocessableEntity,
                                  map[GitHub.FirstErrorPath := "", GitHub.FirstErrorCodePath := AlreadyExistsCode]));
      o.success && o.writes == [GitHub.CreateRequest(p)]
  {
    ResolveRemote(tags, p.tag, p.hash, GitHub.ShaPath);
  }

  /** A 422 whose first error carries no `code` is read as the empty code:
      the release request was sent and the call fails. */
  lemma CodelessRejectionFails(p: RepoProperties, get: Reply, post: Reply)
    requires get.Response? && ValidateTag(p, get)
    requires HasStatus(post, StatusUnprocessableEntity)
    requires GitHub.FirstErrorPath in post.fields && GitHub.FirstErrorCodePath !in post.fields
    ensures GitHub.ErrorsReadable(post)
    ensures CreateTag(p, get, post) == Outcome(false, [GitHub.CreateRequest(p)])
  {
  }
}
