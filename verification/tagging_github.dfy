/** The second legacy GitHub adapter: the first one with checks on the
    lookup request and response. */
module TaggingGitHub {
  import opened Text
  import opened Http
  import opened Protocol
  import GitHub
  import LegacyGitHub

  /** `ValidateTag`: true exactly on 404, or on 200 with `object.sha` equal to
      the hash; false when the request or the response is missing. */
  function ValidateTag(p: RepoProperties, get: Reply): (valid: bool)
    ensures valid <==>
      HasStatus(get, StatusNotFound)
      || (HasStatus(get, StatusOK) && Field(get, GitHub.ShaPath) == p.hash)
    ensures get.NoRequest? || get.NoResponse? ==> !valid
  {
    Passes(GitHub.ValidateTag(p, get))
  }

  /** `CreateTag`: when validation passes, creates the release, succeeding on
      201 and on a 422 `already_exists`; otherwise false with nothing sent.
      The release request and its response are used unguarded. */
  function CreateTag(p: RepoProperties, get: Reply, post: Reply): (o: Outcome)
    requires ValidateTag(p, get) ==> post.Response? && GitHub.ErrorsReadable(post)
    ensures PostsWhenValid(ValidateTag(p, get), o, GitHub.CreateRequest(p))
    ensures o.success <==> ValidateTag(p, get) && LegacyGitHub.ReleaseStepOk(post)
    ensures ValidateTag(p, get) ==> o.writes == [GitHub.CreateRequest(p)]
  {
    if ValidateTag(p, get) then Outcome(LegacyGitHub.ReleaseStepOk(post), [GitHub.CreateRequest(p)])
    else Outcome(false, [])
  }

  /** The added checks change nothing where the first adapter is defined. */
  lemma AgreesWithFirstAdapter(p: RepoProperties, get: Reply, post: Reply)
    requires get.Response?
    requires LegacyGitHub.ValidateTag(p, get) ==> post.Response? && GitHub.ErrorsReadable(post)
    ensures CreateTag(p, get, post) == LegacyGitHub.CreateTag(p, get, post)
  {
  }
}
