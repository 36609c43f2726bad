/** The first Bitbucket adapter: validation is one boolean, the tag is
    created whenever it passes, and Bitbucket's "already exists" reply counts
    as success. It uses every request and response without checking that
    they exist. */
module LegacyBitbucket {
  import opened Text
  import opened Http
  import opened Protocol
  import BitbucketEarly

  const DefaultHost := "api.bitbucket.org"

  /** Bitbucket's reply when the tag is already there. */
  function TagExistsMessage(tag: string): string {
    "tag \"" + tag + "\" already exists"
  }

  /** The tag collection: a given host is put after `https://`, in place of
      the default API host. */
  function TagsUrl(p: RepoProperties): (u: Url)
    ensures |u| == 4
    ensures u[0] == Raw("https://" + (if p.host == "" then DefaultHost else p.host))
    ensures u[1..] == [Raw("/2.0/repositories/"), Raw(p.repo), Raw("/refs/tags")]
  {
    [Raw("https://" + (if p.host == "" then DefaultHost else p.host)), Raw("/2.0/repositories/"), Raw(p.repo), Raw("/refs/tags")]
  }

  function TagUrl(p: RepoProperties): (u: Url)
    ensures |u| == |TagsUrl(p)| + 1
    ensures u[..|TagsUrl(p)|] == TagsUrl(p)
    ensures u[|TagsUrl(p)|] == Raw("/" + p.tag)
  {
    TagsUrl(p) + [Raw("/" + p.tag)]
  }

  function CreateRequest(p: RepoProperties): Request {
    Request(Post, TagsUrl(p), [], Some(BitbucketEarly.CreateBody(p)))
  }

  /** The tag step went through: created, or reported as already there. */
  predicate TagStepOk(p: RepoProperties, post: Reply) {
    HasStatus(post, StatusCreated)
    || (HasStatus(post, StatusBadRequest) && Field(post, "error.message") == TagExistsMessage(p.tag))
  }

  /** `ValidateTag`: true exactly on 404, or on 200 with `target.hash` equal
      to the hash. */
  function ValidateTag(p: RepoProperties, get: Reply): (valid: bool)
    requires get.Response?
    ensures valid <==>
      HasStatus(get, StatusNotFound)
      || (HasStatus(get, StatusOK) && Field(get, BitbucketEarly.CommitPath) == p.hash)
  {
    Passes(BitbucketEarly.ValidateTag(p, get))
  }

  /** `CreateTag`: when validation passes, creates the tag, succeeding on 201
      and on a 400 saying the tag already exists; otherwise false with
      nothing sent. */
  function CreateTag(p: RepoProperties, get: Reply, post: Reply): (o: Outcome)
    requires get.Response?
    requires ValidateTag(p, get) ==> post.Response?
    ensures PostsWhenValid(ValidateTag(p, get), o, CreateRequest(p))
    ensures o.success <==> ValidateTag(p, get) && TagStepOk(p, post)
    ensures ValidateTag(p, get) ==> o.writes == [CreateRequest(p)]
  {
    if ValidateTag(p, get) then Outcome(TagStepOk(p, post), [CreateRequest(p)])
    else Outcome(false, [])
  }

  /** Run again against a remote that already holds the tag at the hash, the
      tag is posted again and Bitbucket's "already exists" reply makes the
      call succeed. */
  lemma RerunFoldsAlreadyExists(p: RepoProperties, tags: map<string, string>)
    requires p.tag in tags && tags[p.tag] == p.hash
    ensures
      var o := CreateTag(p, Remote(tags, p.tag, BitbucketEarly.CommitPath),
                         Response(StatusBadRequest, map["error.message" := TagExistsMessage(p.tag)]));
      o.success && o.writes == [CreateRequest(p)]
  {
    ResolveRemote(tags, p.tag, p.hash, BitbucketEarly.CommitPath);
  }
}
