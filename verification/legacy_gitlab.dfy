/** The first GitLab adapter: validation is one boolean, the tag is created
    whenever it passes, and GitLab's "already exists" replies count as
    success. It uses every request and response without checking that they
    exist. */
module LegacyGitLab {
  import opened Text
  import opened Http
  import opened Protocol
  import GitLab

  /** GitLab's reply when the tag is already there. */
  function TagExistsMessage(tag: string): string {
    "Tag " + tag + " already exists"
  }

  const ReleaseExistsMessage := "Release already exists"

  /** The tag step went through: created, or reported as already there with
      exactly `message`. */
  predicate TagStepOk(post: Reply, message: string) {
    HasStatus(post, StatusCreated)
    || (HasStatus(post, StatusBadRequest) && Field(post, "message") == message)
  }

  /** The release step went through: created, or reported as already there. */
  predicate ReleaseStepOk(release: Reply) {
    HasStatus(release, StatusCreated)
    || (HasStatus(release, StatusConflict) && Field(release, "message") == ReleaseExistsMessage)
  }

  /** `ValidateTag`: true exactly on 404, or on 200 with `commit.id` equal to
      the hash. */
  function ValidateTag(p: RepoProperties, get: Reply): (valid: bool)
    requires get.Response?
    ensures valid <==>
      HasStatus(get, StatusNotFound)
      || (HasStatus(get, StatusOK) && Field(get, GitLab.CommitPath) == p.hash)
  {
    Passes(GitLab.ValidateTag(p, get))
  }

  /** `createRelease`: true on 201 and on a 409 saying the release already
      exists. */
  function CreateRelease(p: RepoProperties, release: Reply): (o: Outcome)
    requires release.Response?
    ensures o.success <==> ReleaseStepOk(release)
    ensures o.writes == [GitLab.ReleaseRequest(p)]
  {
    Outcome(ReleaseStepOk(release), [GitLab.ReleaseRequest(p)])
  }

  predicate CreateDefined(p: RepoProperties, get: Reply, post: Reply, release: Reply) {
    && get.Response?
    && (ValidateTag(p, get) ==>
          post.Response? && (TagStepOk(post, TagExistsMessage(p.tag)) ==> release.Response?))
  }

  /** `CreateTag`: when validation passes, creates the tag, and when that
      went through (or the tag was already there) creates the release; the
      result is true only when both steps went through. */
  function CreateTag(p: RepoProperties, get: Reply, post: Reply, release: Reply): (o: Outcome)
    requires CreateDefined(p, get, post, release)
    ensures PostsWhenValid(ValidateTag(p, get), o, GitLab.CreateRequest(p))
    ensures o.success <==>
      ValidateTag(p, get) && TagStepOk(post, TagExistsMessage(p.tag)) && ReleaseStepOk(release)
    ensures ValidateTag(p, get) ==>
      o.writes == [GitLab.CreateRequest(p)]
                  + (if TagStepOk(post, TagExistsMessage(p.tag)) then [GitLab.ReleaseRequest(p)] else [])
  {
    if ValidateTag(p, get) then
      if TagStepOk(post, TagExistsMessage(p.tag)) then
        var r := CreateRelease(p, release);
        Outcome(r.success, [GitLab.CreateRequest(p)] + r.writes)
      else Outcome(false, [GitLab.CreateRequest(p)])
    else Outcome(false, [])
  }

  /** Run again after a successful first run, against a remote that already
      holds the tag at the hash: the tag is posted again and the two
      "already exists" replies still make the call succeed. */
  lemma RerunFoldsAlreadyExists(p: RepoProperties, tags: map<string, string>)
    requires p.tag in tags && tags[p.tag] == p.hash
    ensures
      var o := CreateTag(p, Remote(tags, p.tag, GitLab.CommitPath),
                         Response(StatusBadRequest, map["message" := TagExistsMessage(p.tag)]),
                         Response(StatusConflict, map["message" := ReleaseExistsMessage]));
      o.success && o.writes == [GitLab.CreateRequest(p), GitLab.ReleaseRequest(p)]
  {
    ResolveRemote(tags, p.tag, p.hash, GitLab.CommitPath);
  }
}
