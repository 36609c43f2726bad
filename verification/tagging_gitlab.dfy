/** The second legacy GitLab adapter: the first one with checks on the
    lookup request and response and on building the create and release
    requests. Its "already exists" test compares with a message that names
    the type `GitlabTag` instead of GitLab's wording; `CreateTagAsWritten`
    keeps that comparison and `CreateTag` uses GitLab's message. */
module TaggingGitLab {
  import opened Text
  import opened Http
  import opened Protocol
  import GitLab
  import LegacyGitLab

  /** The message the code compares with. */
  function AsWrittenTagExistsMessage(tag: string): string {
    "GitlabTag " + tag + " already exists"
  }

  /** `ValidateTag`: true exactly on 404, or on 200 with `commit.id` equal to
      the hash; false when the request or the response is missing. */
  function ValidateTag(p: RepoProperties, get: Reply): (valid: bool)
    ensures valid <==>
      HasStatus(get, StatusNotFound)
      || (HasStatus(get, StatusOK) && Field(get, GitLab.CommitPath) == p.hash)
    ensures get.NoRequest? || get.NoResponse? ==> !valid
  {
    Passes(GitLab.ValidateTag(p, get))
  }

  /** `createRelease`: true on 201 and on a 409 saying the release already
      exists; false, with nothing sent, when the request cannot be built. */
  function CreateRelease(p: RepoProperties, release: Reply): (o: Outcome)
    requires release != NoResponse
    ensures o.success <==> LegacyGitLab.ReleaseStepOk(release)
    ensures o.writes == if release.NoRequest? then [] else [GitLab.ReleaseRequest(p)]
  {
    if release.NoRequest? then Outcome(false, [])
    else Outcome(LegacyGitLab.ReleaseStepOk(release), [GitLab.ReleaseRequest(p)])
  }

  /** The code reads the status of every response it asked for. */
  predicate CreateDefined(p: RepoProperties, get: Reply, post: Reply, release: Reply, message: string) {
    ValidateTag(p, get) ==>
      post != NoResponse && (LegacyGitLab.TagStepOk(post, message) ==> release != NoResponse)
  }

  /** The create decision, for the "already exists" message it accepts. */
  function CreateTagWith(p: RepoProperties, get: Reply, post: Reply, release: Reply, message: string): (o: Outcome)
    requires CreateDefined(p, get, post, release, message)
    ensures PostWhenValid(ValidateTag(p, get), o, GitLab.CreateRequest(p))
    ensures post.Response? ==> PostsWhenValid(ValidateTag(p, get), o, GitLab.CreateRequest(p))
    ensures o.success <==>
      ValidateTag(p, get) && LegacyGitLab.TagStepOk(post, message) && LegacyGitLab.ReleaseStepOk(release)
    ensures ValidateTag(p, get) && post.Response? ==>
      o.writes == [GitLab.CreateRequest(p)]
                  + (if LegacyGitLab.TagStepOk(post, message) && release.Response? then [GitLab.ReleaseRequest(p)] else [])
    ensures post.NoRequest? ==> o.writes == []
  {
    if ValidateTag(p, get) then
      if post.NoRequest? then Outcome(false, [])
      else if LegacyGitLab.TagStepOk(post, message) then
        var r := CreateRelease(p, release);
        Outcome(r.success, [GitLab.CreateRequest(p)] + r.writes)
      else Outcome(false, [GitLab.CreateRequest(p)])
    else Outcome(false, [])
  }

  /** `CreateTag` as the code has it: a 400 counts as "already exists" only
      when its message names `GitlabTag`. */
  function CreateTagAsWritten(p: RepoProperties, get: Reply, post: Reply, release: Reply): (o: Outcome)
    requires CreateDefined(p, get, post, release, AsWrittenTagExistsMessage(p.tag))
    ensures PostWhenValid(ValidateTag(p, get), o, GitLab.CreateRequest(p))
    ensures post.Response? ==> PostsWhenValid(ValidateTag(p, get), o, GitLab.CreateRequest(p))
    ensures o.success <==>
      ValidateTag(p, get)
      && LegacyGitLab.TagStepOk(post, AsWrittenTagExistsMessage(p.tag))
      && LegacyGitLab.ReleaseStepOk(release)
  {
    CreateTagWith(p, get, post, release, AsWrittenTagExistsMessage(p.tag))
  }

  /** The reply GitLab gives for an existing tag is not recognised: the call
      fails and no release is requested, although the tag is in place. */
  lemma AsWrittenMissesGitLabReply(p: RepoProperties, release: Reply)
    ensures
      var post := Response(StatusBadRequest, map["message" := LegacyGitLab.TagExistsMessage(p.tag)]);
      var o := CreateTagAsWritten(p, Response(StatusNotFound, map[]), post, release);
      !o.success && o.writes == [GitLab.CreateRequest(p)]
  {
    var post := Response(StatusBadRequest, map["message" := LegacyGitLab.TagExistsMessage(p.tag)]);
    assert |LegacyGitLab.TagExistsMessage(p.tag)| != |AsWrittenTagExistsMessage(p.tag)|;
    assert !LegacyGitLab.TagStepOk(post, AsWrittenTagExistsMessage(p.tag));
  }

  /** `CreateTag` with GitLab's message: a 400 saying the tag already exists
      goes on to the release, as in the first GitLab adapter. */
  function CreateTag(p: RepoProperties, get: Reply, post: Reply, release: Reply): (o: Outcome)
    requires CreateDefined(p, get, post, release, LegacyGitLab.TagExistsMessage(p.tag))
    ensures PostWhenValid(ValidateTag(p, get), o, GitLab.CreateRequest(p))
    ensures post.Response? ==> PostsWhenValid(ValidateTag(p, get), o, GitLab.CreateRequest(p))
    ensures o.success <==>
      ValidateTag(p, get)
      && LegacyGitLab.TagStepOk(post, LegacyGitLab.TagExistsMessage(p.tag))
      && LegacyGitLab.ReleaseStepOk(release)
  {
    CreateTagWith(p, get, post, release, LegacyGitLab.TagExistsMessage(p.tag))
  }

  /** Where the first adapter is defined (every request built and answered),
      the corrected adapter behaves exactly like it. */
  lemma CorrectedAgreesWithFirstAdapter(p: RepoProperties, get: Reply, post: Reply, release: Reply)
    requires get.Response? && post.Response? && release.Response?
    ensures CreateTag(p, get, post, release) == LegacyGitLab.CreateTag(p, get, post, release)
  {
  }

  /** With the corrected message, a rerun against a remote that already holds
      the tag at the hash succeeds through the two "already exists" replies. */
  lemma CorrectedRerunSucceeds(p: RepoProperties, tags: map<string, string>)
    requires p.tag in tags && tags[p.tag] == p.hash
    ensures
      CreateTag(p, Remote(tags, p.tag, GitLab.CommitPath),
                Response(StatusBadRequest, map["message" := LegacyGitLab.TagExistsMessage(p.tag)]),
                Response(StatusConflict, map["message" := LegacyGitLab.ReleaseExistsMessage])).success
  {
    ResolveRemote(tags, p.tag, p.hash, GitLab.CommitPath);
  }
}
