/** The `validate` and `create` subcommands of the current generation
    (internal/commands): check the flags, read the changelog, refuse a
    desired version that does not exceed the previous one, and only then
    hand the trimmed tag to the backend the provider selects. */
module Commands {
  import opened Text
  import opened Http
  import opened Protocol
  import opened CommandFlags
  import Changelog
  import Providers
  import GitHub
  import GitLab
  import Bitbucket
  import Git

  /** The exit statuses of `subcommands`. */
  datatype ExitStatus = ExitSuccess | ExitFailure | ExitUsageError

  /** The backend a provider selects; anything that is not a supported
      provider, the empty one included, selects the local git backend. */
  datatype Backend = GitHubApi | GitLabApi | BitbucketApi | LocalGit

  function BackendFor(provider: string): (b: Backend)
    ensures b == GitHubApi <==> ToLower(provider) == Providers.GitHubName
    ensures b == GitLabApi <==> ToLower(provider) == Providers.GitLabName
    ensures b == BitbucketApi <==> ToLower(provider) == Providers.BitbucketName
    ensures b == LocalGit <==> !Providers.ValidProvider(provider)
  {
    var l := ToLower(provider);
    if l == Providers.GitHubName then GitHubApi
    else if l == Providers.GitLabName then GitLabApi
    else if l == Providers.BitbucketName then BitbucketApi
    else LocalGit
  }

  /** Everything outside the program a run depends on: the replies to the
      tag lookup, the create request and the release request, and for the
      local git backend whether the repository initialises and fetches,
      what it then holds, and how tag creation, key loading and the push
      turn out. */
  datatype World = World(
    get: Reply,
    post: Reply,
    release: Reply,
    opens: bool,
    repository: Git.Repository,
    createOk: bool,
    keyLoads: bool,
    pushOk: bool)

  /** The properties the selected backend receives: the password, tag and
      hash always; the username except for GitLab; the repository and host
      for the HTTP backends; the change notes for all but Bitbucket. */
  function PropertiesFor(f: Flags, tag: string, changes: string): (p: RepoProperties)
    ensures p.tag == tag && p.password == f.password && p.hash == f.hash
    ensures p.username == (if BackendFor(f.provider) == GitLabApi then "" else f.username)
    ensures p.body == (if BackendFor(f.provider) == BitbucketApi then "" else changes)
    ensures BackendFor(f.provider) != LocalGit ==> p.repo == f.repo && p.host == f.host
  {
    match BackendFor(f.provider)
    case GitHubApi => RepoProperties(f.username, f.password, f.repo, tag, f.hash, f.host, changes)
    case GitLabApi => RepoProperties("", f.password, f.repo, tag, f.hash, f.host, changes)
    case BitbucketApi => RepoProperties(f.username, f.password, f.repo, tag, f.hash, f.host, "")
    case LocalGit => RepoProperties(f.username, f.password, "", tag, f.hash, "", changes)
  }

  /** The local git backend's properties; no SSH key is ever set. */
  function GitPropertiesFor(f: Flags, tag: string, changes: string): Git.GitProperties {
    Git.GitProperties(PropertiesFor(f, tag, changes), f.email, f.origin, "")
  }

  /** The lookup field holding the tag's commit for the selected backend. */
  function CommitPathFor(f: Flags, p: RepoProperties): string
    requires BackendFor(f.provider) == BitbucketApi ==> Bitbucket.Addressable(p)
  {
    match BackendFor(f.provider)
    case GitHubApi => GitHub.ShaPath
    case GitLabApi => GitLab.CommitPath
    case BitbucketApi => Bitbucket.CommitPath(p)
    case LocalGit => ""
  }

  /** The tag state the selected backend reads. */
  function StateFor(f: Flags, p: RepoProperties, w: World): (s: ValidTagState)
    requires BackendFor(f.provider) == BitbucketApi ==> Bitbucket.Addressable(p)
    ensures Consistent(s)
    ensures BackendFor(f.provider) != LocalGit ==> s == Resolve(w.get, p.hash, CommitPathFor(f, p))
  {
    match BackendFor(f.provider)
    case GitHubApi => GitHub.ValidateTag(p, w.get)
    case GitLabApi => GitLab.ValidateTag(p, w.get)
    case BitbucketApi => Bitbucket.ValidateTag(p, w.get)
    case LocalGit => Git.ValidateTag(Git.GitProperties(p, f.email, f.origin, ""), w.repository)
  }

  /** `validateProviderTag`: `None` is the error of a repository that would
      not initialise; otherwise the tag may be created exactly when it is
      absent or already at the hash. For the HTTP backends that means a 404,
      or a 200 whose commit field holds the hash. */
  function ValidateProviderTag(f: Flags, desiredTag: string, changes: string, w: World): (r: Option<bool>)
    requires BackendFor(f.provider) == BitbucketApi ==>
      Bitbucket.Addressable(PropertiesFor(f, TrimSpace(desiredTag), changes))
    ensures r.None? <==> BackendFor(f.provider) == LocalGit && !w.opens
    ensures var p := PropertiesFor(f, TrimSpace(desiredTag), changes);
      BackendFor(f.provider) != LocalGit ==>
        r == Some(HasStatus(w.get, StatusNotFound)
                  || (HasStatus(w.get, StatusOK) && Field(w.get, CommitPathFor(f, p)) == f.hash))
    ensures BackendFor(f.provider) == LocalGit && w.opens ==>
      r == Some(Passes(Git.ValidateTag(GitPropertiesFor(f, TrimSpace(desiredTag), changes), w.repository)))
  {
    var p := PropertiesFor(f, TrimSpace(desiredTag), changes);
    if BackendFor(f.provider) == LocalGit && !w.opens then None
    else Some(Passes(StateFor(f, p, w)))
  }

  /** What a create did to the outside world. */
  datatype Effect = Effect(success: bool, writes: seq<Request>, pushed: seq<string>)

  /** The request that creates the tag on the selected HTTP backend. */
  function CreateRequestFor(f: Flags, p: RepoProperties): Request
    requires BackendFor(f.provider) == BitbucketApi ==> Bitbucket.Addressable(p)
  {
    match BackendFor(f.provider)
    case GitHubApi => GitHub.CreateRequest(p)
    case GitLabApi => GitLab.CreateRequest(p)
    case BitbucketApi => Bitbucket.CreateRequest(p)
    case LocalGit => Request(Post, [], [], None)
  }

  /** The selected adapter reads only replies that exist. */
  predicate CreateDefined(f: Flags, p: RepoProperties, w: World) {
    match BackendFor(f.provider)
    case GitHubApi => GitHub.CreateDefined(p, w.get, w.post)
    case GitLabApi => GitLab.CreateDefined(p, w.get, w.post, w.release)
    case BitbucketApi => Bitbucket.Addressable(p) && Bitbucket.CreateDefined(p, w.get, w.post)
    case LocalGit => true
  }

  /** `createProviderTag`: the HTTP backends follow the create discipline
      (nothing written when the tag is in place or the lookup failed, the
      create request first otherwise); the local git backend does nothing
      when the repository will not initialise, and otherwise creates and
      pushes only an absent tag. */
  function CreateProviderTag(f: Flags, desiredTag: string, changes: string, w: World): (e: Effect)
    requires CreateDefined(f, PropertiesFor(f, TrimSpace(desiredTag), changes), w)
    ensures var p := PropertiesFor(f, TrimSpace(desiredTag), changes);
      BackendFor(f.provider) != LocalGit ==>
        && e.pushed == []
        && IdempotentCreate(StateFor(f, p, w), Outcome(e.success, e.writes), CreateRequestFor(f, p))
    ensures BackendFor(f.provider) == LocalGit ==> e.writes == []
    ensures BackendFor(f.provider) == LocalGit && !w.opens ==> e == Effect(false, [], [])
    ensures var p := PropertiesFor(f, TrimSpace(desiredTag), changes);
      BackendFor(f.provider) == LocalGit && w.opens ==>
        && (StateFor(f, p, w).tagExistsWithProvidedHash ==> e == Effect(true, [], []))
        && (e.pushed != [] ==> StateFor(f, p, w).tagDoesntExist && e.pushed == [Git.Refspec(TrimSpace(desiredTag))])
  {
    var p := PropertiesFor(f, TrimSpace(desiredTag), changes);
    match BackendFor(f.provider)
    case GitHubApi =>
      var o := GitHub.CreateTag(p, w.get, w.post);
      Effect(o.success, o.writes, [])
    case GitLabApi =>
      var o := GitLab.CreateTag(p, w.get, w.post, w.release);
      Effect(o.success, o.writes, [])
    case BitbucketApi =>
      var o := Bitbucket.CreateTag(p, w.get, w.post);
      Effect(o.success, o.writes, [])
    case LocalGit =>
      if !w.opens then Effect(false, [], [])
      else
        var o := Git.CreateTag(GitPropertiesFor(f, TrimSpace(desiredTag), changes), w.repository, w.createOk, w.keyLoads, w.pushOk);
        Effect(o.success, [], o.pushed)
  }

  /** On a repository that fetched cleanly, the local git backend lets the
      tag be created exactly when the repository does not hold it or holds
      it at the hash. */
  lemma ValidateLocalGit(f: Flags, desiredTag: string, changes: string, w: World)
    requires BackendFor(f.provider) == LocalGit && w.opens && w.repository.fault.None?
    ensures ValidateProviderTag(f, desiredTag, changes, w)
         == Some(TrimSpace(desiredTag) !in w.repository.tags || w.repository.tags[TrimSpace(desiredTag)] == f.hash)
  {
    Git.ValidateHealthyRepository(GitPropertiesFor(f, TrimSpace(desiredTag), changes), w.repository);
  }

  /** The headings of a changelog as the commands read them. */
  function VersionsOf(text: string): Changelog.Properties {
    Changelog.GetVersions(Changelog.Empty, text)
  }

  /** The tag a changelog asks for: its first heading without the markdown
      marker, trimmed. */
  function TagOf(text: string): string {
    TrimSpace(Changelog.ConvertToDesiredTag(VersionsOf(text).desired))
  }

  /** The change notes `create` sends: the lines under the desired heading. */
  function NotesOf(text: string): string {
    Changelog.Changes(VersionsOf(text), text).changes
  }

  /** The version ordering check can be evaluated: every heading it compares
      parses as a version. */
  predicate OrderingDefined(text: string) {
    Changelog.OrderingDefined(VersionsOf(text))
  }

  predicate OrderingValid(text: string)
    requires OrderingDefined(text)
  {
    Changelog.ValidateVersionSemantics(VersionsOf(text))
  }

  /** The backend the command calls and the properties it hands over. */
  datatype Call = Call(backend: Backend, props: RepoProperties)

  /** One run of a command: exit status, what the command itself prints to
      standard output (the adapters' diagnostics and go-git's push progress,
      which also go there, are not carried), the backend call made, and every
      write to a remote (HTTP requests and pushed refspecs). */
  datatype Run = Run(exit: ExitStatus, printed: string, call: Option<Call>, effect: Effect)

  /** A run gets past the flags and the changelog read, and the changelog can
      be compared. */
  predicate Admitted(errors: seq<Problem>, file: Option<string>) {
    errors == [] && file.Some?
  }

  /** The inputs on which `validate` completes without a panic. */
  predicate ValidateDefined(f: Flags, file: Option<string>, w: World) {
    Admitted(CheckValidateFlags(f), file) ==>
      && OrderingDefined(file.value)
      && (OrderingValid(file.value) && BackendFor(f.provider) == BitbucketApi ==>
            Bitbucket.Addressable(PropertiesFor(f, TagOf(file.value), "")))
  }

  /** `Validate.Execute`. Usage errors (bad flags, unreadable changelog) come
      first; a desired version that does not exceed the previous one fails
      before any backend is contacted; otherwise the backend is asked about
      the trimmed tag, with empty change notes, and the tag is printed when
      it may be created. Nothing is ever written. */
  function ValidateCommand(f: Flags, file: Option<string>, w: World): (r: Run)
    requires ValidateDefined(f, file, w)
    ensures r.exit == ExitUsageError <==> !Admitted(CheckValidateFlags(f), file)
    ensures r.call.Some? <==> Admitted(CheckValidateFlags(f), file) && OrderingValid(file.value)
    ensures r.call.Some? ==>
      && r.call.value.backend == BackendFor(f.provider)
      && r.call.value.props == PropertiesFor(f, TagOf(file.value), "")
    ensures r.exit == ExitSuccess <==>
      r.call.Some? && ValidateProviderTag(f, Changelog.ConvertToDesiredTag(VersionsOf(file.value).desired), "", w) == Some(true)
    ensures r.printed == if r.exit == ExitSuccess then TagOf(file.value) + "\n" else ""
    ensures r.effect.writes == [] && r.effect.pushed == []
  {
    if !Admitted(CheckValidateFlags(f), file) then Run(ExitUsageError, "", None, Effect(false, [], []))
    else
      var text := file.value;
      if !OrderingValid(text) then Run(ExitFailure, "", None, Effect(false, [], []))
      else
        var desiredTag := Changelog.ConvertToDesiredTag(VersionsOf(text).desired);
        var call := Call(BackendFor(f.provider), PropertiesFor(f, TrimSpace(desiredTag), ""));
        match ValidateProviderTag(f, desiredTag, "", w)
        case None => Run(ExitFailure, "", Some(call), Effect(false, [], []))
        case Some(ok) =>
          if ok then Run(ExitSuccess, TrimSpace(desiredTag) + "\n", Some(call), Effect(true, [], []))
          else Run(ExitFailure, "", Some(call), Effect(false, [], []))
  }

  /** The inputs on which `create` completes without a panic. */
  predicate CreateCommandDefined(f: Flags, file: Option<string>, w: World) {
    Admitted(CheckCreateFlags(f), file) ==>
      && OrderingDefined(file.value)
      && (OrderingValid(file.value) ==>
            CreateDefined(f, PropertiesFor(f, TagOf(file.value), NotesOf(file.value)), w))
  }

  /** `Create.Execute`: as `validate`, except that after the ordering check the
      change notes under the desired heading are collected and the backend
      creates the tag with them. No remote is written unless the flags pass,
      the changelog reads and its versions are in order. */
  function CreateCommand(f: Flags, file: Option<string>, w: World): (r: Run)
    requires CreateCommandDefined(f, file, w)
    ensures r.exit == ExitUsageError <==> !Admitted(CheckCreateFlags(f), file)
    ensures r.call.Some? <==> Admitted(CheckCreateFlags(f), file) && OrderingValid(file.value)
    ensures r.call.None? ==> r.effect == Effect(false, [], [])
    ensures r.call.Some? ==>
      && r.call.value.backend == BackendFor(f.provider)
      && r.call.value.props == PropertiesFor(f, TagOf(file.value), NotesOf(file.value))
      && r.effect == CreateProviderTag(f, Changelog.ConvertToDesiredTag(VersionsOf(file.value).desired), NotesOf(file.value), w)
    ensures r.exit == ExitSuccess <==> r.call.Some? && r.effect.success
    ensures r.printed == if r.exit == ExitSuccess then TagOf(file.value) + "\n" else ""
  {
    if !Admitted(CheckCreateFlags(f), file) then Run(ExitUsageError, "", None, Effect(false, [], []))
    else
      var text := file.value;
      if !OrderingValid(text) then Run(ExitFailure, "", None, Effect(false, [], []))
      else
        var changes := Changelog.Changes(VersionsOf(text), text).changes;
        var desiredTag := Changelog.ConvertToDesiredTag(VersionsOf(text).desired);
        var call := Call(BackendFor(f.provider), PropertiesFor(f, TrimSpace(desiredTag), changes));
        var e := CreateProviderTag(f, desiredTag, changes, w);
        Run(if e.success then ExitSuccess else ExitFailure,
            if e.success then TrimSpace(desiredTag) + "\n" else "",
            Some(call), e)
  }

  /** A changelog with at most one heading always passes the ordering check,
      so `validate` asks the backend about its (possibly empty) tag. */
  lemma FirstReleaseReachesBackend(f: Flags, text: string, w: World)
    requires CheckValidateFlags(f) == []
    requires |Changelog.FindHeadings(text)| <= 1
    requires ValidateDefined(f, Some(text), w)
    ensures ValidateCommand(f, Some(text), w).call.Some?
  {
    Changelog.FirstReleaseValid(text);
  }

  /** Against a remote that answers lookups from its tag store, a run of
      `create` on an HTTP backend whose tag is already stored at the hash
      succeeds and writes nothing, so running the command twice is the same
      as running it once. */
  lemma CreateRerunWritesNothing(f: Flags, text: string, w: World, tags: map<string, string>)
    requires Admitted(CheckCreateFlags(f), Some(text))
    requires BackendFor(f.provider) != LocalGit
    requires CreateCommandDefined(f, Some(text), w)
    requires OrderingValid(text)
    requires var p := PropertiesFor(f, TagOf(text), NotesOf(text));
      w.get == Remote(tags, TagOf(text), CommitPathFor(f, p))
    requires TagOf(text) in tags && tags[TagOf(text)] == f.hash
    ensures CreateCommand(f, Some(text), w).exit == ExitSuccess
    ensures CreateCommand(f, Some(text), w).effect.writes == []
    ensures CreateCommand(f, Some(text), w).printed == TagOf(text) + "\n"
  {
    var p := PropertiesFor(f, TagOf(text), NotesOf(text));
    ResolveRemote(tags, TagOf(text), f.hash, CommitPathFor(f, p));
  }

  /** `validate` and `create` on an HTTP backend agree: with the same flags,
      changelog and replies, `create` contacts the backend exactly when
      `validate` does, and when the tag is already in place both succeed. */
  lemma ValidateAgreesWithCreate(f: Flags, text: string, w: World)
    requires Admitted(CheckCreateFlags(f), Some(text))
    requires BackendFor(f.provider) != LocalGit
    requires ValidateDefined(f, Some(text), w) && CreateCommandDefined(f, Some(text), w)
    ensures ValidateCommand(f, Some(text), w).call.Some? <==> CreateCommand(f, Some(text), w).call.Some?
    ensures OrderingValid(text) && HasStatus(w.get, StatusOK) && Field(w.get, CommitPathFor(f, PropertiesFor(f, TagOf(text), ""))) == f.hash ==>
      ValidateCommand(f, Some(text), w).exit == ExitSuccess && CreateCommand(f, Some(text), w).exit == ExitSuccess
  {
    CreateAcceptsValidatePlusRepo(f);
  }
}
