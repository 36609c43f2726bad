/** The current Bitbucket adapter, for Bitbucket Cloud when no host is given
    and for a self-hosted Bitbucket Server otherwise. */
module Bitbucket {
  import opened Text
  import opened Http
  import opened Protocol
  import Versions

  const CloudBase := "https://api.bitbucket.org/2.0/repositories/"

  /** Cloud mode exactly when no host is given. */
  predicate IsCloud(p: RepoProperties) {
    p.host == ""
  }

  /** The repository path split at slashes; server mode needs a project and a
      slug, so at least two pieces. */
  predicate Addressable(p: RepoProperties) {
    IsCloud(p) || |Versions.Split(p.repo, '/')| >= 2
  }

  /** The tag collection: the cloud repositories API, or the server's
      project/repository API naming the first two pieces of the path. */
  function TagsUrl(p: RepoProperties): (u: Url)
    requires Addressable(p)
    ensures IsCloud(p) ==> u == [Raw(CloudBase), Raw(p.repo), Raw("/refs/tags")]
    ensures !IsCloud(p) ==>
      var parts := Versions.Split(p.repo, '/');
      u == [Raw(p.host), Raw("/rest/api/1.0/projects/"), Raw(parts[0]), Raw("/repos/"), Raw(parts[1]), Raw("/tags")]
  {
    if IsCloud(p) then [Raw(CloudBase), Raw(p.repo), Raw("/refs/tags")]
    else
      var parts := Versions.Split(p.repo, '/');
      [Raw(p.host), Raw("/rest/api/1.0/projects/"), Raw(parts[0]), Raw("/repos/"), Raw(parts[1]), Raw("/tags")]
  }

  /** One tag: the collection followed by the tag name. */
  function TagUrl(p: RepoProperties): (u: Url)
    requires Addressable(p)
    ensures |u| == |TagsUrl(p)| + 1
    ensures u[..|TagsUrl(p)|] == TagsUrl(p)
    ensures u[|TagsUrl(p)|] == Raw("/" + p.tag)
  {
    TagsUrl(p) + [Raw("/" + p.tag)]
  }

  /** A server path `project/slug` puts the project and the slug in the URL. */
  lemma ServerUrlNamesProjectAndSlug(p: RepoProperties, project: string, slug: string)
    requires !IsCloud(p)
    requires Free(project, '/') && Free(slug, '/')
    requires p.repo == project + "/" + slug
    ensures Addressable(p)
    ensures TagsUrl(p) == [Raw(p.host), Raw("/rest/api/1.0/projects/"), Raw(project), Raw("/repos/"), Raw(slug), Raw("/tags")]
  {
    Versions.SplitPrefix(project, slug, '/');
    Versions.SplitFree(slug, '/');
  }

  /** Where a found tag's body holds its commit: `target.hash` on Cloud,
      `latestCommit` on Server. */
  function CommitPath(p: RepoProperties): (path: string)
    ensures IsCloud(p) ==> path == "target.hash"
    ensures !IsCloud(p) ==> path == "latestCommit"
  {
    if IsCloud(p) then "target.hash" else "latestCommit"
  }

  /** `createBody`: the tag name and target hash on Cloud; the tag name, start
      point and the change notes as message on Server. */
  function CreateBody(p: RepoProperties): (j: Json)
    ensures Member(j, "name") == Some(Str(p.tag))
    ensures IsCloud(p) ==> Member(j, "target") == Some(Obj([("hash", Str(p.hash))]))
    ensures IsCloud(p) ==> Member(j, "startPoint").None? && Member(j, "message").None?
    ensures !IsCloud(p) ==> Member(j, "startPoint") == Some(Str(p.hash)) && Member(j, "message") == Some(Str(p.body))
    ensures !IsCloud(p) ==> Member(j, "target").None?
  {
    if IsCloud(p) then
      var ms := [("name", Str(p.tag)), ("target", Obj([("hash", Str(p.hash))]))];
      FindAt(ms, "target", 1);
      Obj(ms)
    else
      var ms := [("name", Str(p.tag)), ("startPoint", Str(p.hash)), ("message", Str(p.body))];
      FindAt(ms, "startPoint", 1);
      FindAt(ms, "message", 2);
      Obj(ms)
  }

  function CreateRequest(p: RepoProperties): Request
    requires Addressable(p)
  {
    Request(Post, TagsUrl(p), [], Some(CreateBody(p)))
  }

  /** `ValidateTag` with `checkResponse`: 404 means absent, 200 compares the
      mode's commit field with the hash, anything else leaves both flags
      unset. */
  function ValidateTag(p: RepoProperties, get: Reply): (s: ValidTagState)
    requires Addressable(p)
    ensures Consistent(s)
    ensures s.tagDoesntExist <==> HasStatus(get, StatusNotFound)
    ensures IsCloud(p) ==>
      (s.tagExistsWithProvidedHash <==> HasStatus(get, StatusOK) && Field(get, "target.hash") == p.hash)
    ensures !IsCloud(p) ==>
      (s.tagExistsWithProvidedHash <==> HasStatus(get, StatusOK) && Field(get, "latestCommit") == p.hash)
  {
    Resolve(get, p.hash, CommitPath(p))
  }

  /** The code has no guard on the create request and its response. */
  predicate CreateDefined(p: RepoProperties, get: Reply, post: Reply)
    requires Addressable(p)
  {
    ValidateTag(p, get).tagDoesntExist ==> post.Response?
  }

  /** `CreateTag`: succeeds without writing when the tag is in place; when it
      is absent, creates it and succeeds on 200 or 201, so a 400 `already
      exists` is a failure; fails without writing otherwise. */
  function CreateTag(p: RepoProperties, get: Reply, post: Reply): (o: Outcome)
    requires Addressable(p)
    requires CreateDefined(p, get, post)
    ensures IdempotentCreate(ValidateTag(p, get), o, CreateRequest(p))
    ensures o.success <==>
      ValidateTag(p, get).tagExistsWithProvidedHash
      || (HasStatus(get, StatusNotFound) && (HasStatus(post, StatusOK) || HasStatus(post, StatusCreated)))
    ensures o.writes == if HasStatus(get, StatusNotFound) then [CreateRequest(p)] else []
  {
    var s := ValidateTag(p, get);
    if s.tagExistsWithProvidedHash then Outcome(true, [])
    else if s.tagDoesntExist then
      Outcome(post.status == StatusOK || post.status == StatusCreated, [CreateRequest(p)])
    else Outcome(false, [])
  }
}
