/** The `validate` and `create` subcommands of the first generation (cmd):
    the same pipeline as the current commands, but every flag is required,
    only the three HTTP providers exist, validation is a single boolean, and
    the tag goes to standard output without a newline. */
module Cli {
  import opened Text
  import opened Http
  import opened Protocol
  import opened CommandFlags
  import Commands
  import Changelog
  import Providers
  import GitHub
  import GitLab
  import BitbucketEarly
  import LegacyGitHub
  import LegacyGitLab
  import LegacyBitbucket

  /** The lookup field holding the tag's commit for each first-generation
      adapter. */
  function CommitPathFor(f: Flags): string {
    match Commands.BackendFor(f.provider)
    case GitHubApi => GitHub.ShaPath
    case GitLabApi => GitLab.CommitPath
    case BitbucketApi => BitbucketEarly.CommitPath
    case LocalGit => ""
  }

  /** `validateProviderTag`: an unknown provider is never valid; for the
      three providers the tag may be created exactly on a 404, or on a 200
      whose commit field holds the hash. The adapters read the lookup
      response without checking that there is one. */
  function ValidateProviderTag(f: Flags, desiredTag: string, changes: string, w: Commands.World): (ok: bool)
    requires Commands.BackendFor(f.provider) != Commands.LocalGit ==> w.get.Response?
    ensures Commands.BackendFor(f.provider) == Commands.LocalGit ==> !ok
    ensures Commands.BackendFor(f.provider) != Commands.LocalGit ==>
      (ok <==> HasStatus(w.get, StatusNotFound)
               || (HasStatus(w.get, StatusOK) && Field(w.get, CommitPathFor(f)) == f.hash))
  {
    var p := Commands.PropertiesFor(f, TrimSpace(desiredTag), changes);
    match Commands.BackendFor(f.provider)
    case GitHubApi => LegacyGitHub.ValidateTag(p, w.get)
    case GitLabApi => LegacyGitLab.ValidateTag(p, w.get)
    case BitbucketApi => LegacyBitbucket.ValidateTag(p, w.get)
    case LocalGit => false
  }

  /** The request that creates the tag (GitHub: the release) on each
      first-generation adapter. */
  function CreateRequestFor(f: Flags, p: RepoProperties): Request {
    match Commands.BackendFor(f.provider)
    case GitHubApi => GitHub.CreateRequest(p)
    case GitLabApi => GitLab.CreateRequest(p)
    case BitbucketApi => LegacyBitbucket.CreateRequest(p)
    case LocalGit => Request(Post, [], [], None)
  }

  /** The selected adapter reads only replies that exist. */
  predicate CreateDefined(f: Flags, p: RepoProperties, w: Commands.World) {
    match Commands.BackendFor(f.provider)
    case GitHubApi =>
      w.get.Response? && (LegacyGitHub.ValidateTag(p, w.get) ==> w.post.Response? && GitHub.ErrorsReadable(w.post))
    case GitLabApi => LegacyGitLab.CreateDefined(p, w.get, w.post, w.release)
    case BitbucketApi => w.get.Response? && (LegacyBitbucket.ValidateTag(p, w.get) ==> w.post.Response?)
    case LocalGit => true
  }

  /** `createProviderTag`: an unknown provider does nothing and fails; for the
      three providers the create request goes out whenever validation
      passes, the tag already being in place or not. */
  function CreateProviderTag(f: Flags, desiredTag: string, changes: string, w: Commands.World): (o: Outcome)
    requires CreateDefined(f, Commands.PropertiesFor(f, TrimSpace(desiredTag), changes), w)
    ensures Commands.BackendFor(f.provider) == Commands.LocalGit ==> o == Outcome(false, [])
    ensures Commands.BackendFor(f.provider) != Commands.LocalGit ==>
      PostsWhenValid(ValidateProviderTag(f, desiredTag, changes, w), o,
                    CreateRequestFor(f, Commands.PropertiesFor(f, TrimSpace(desiredTag), changes)))
  {
    var p := Commands.PropertiesFor(f, TrimSpace(desiredTag), changes);
    match Commands.BackendFor(f.provider)
    case GitHubApi => LegacyGitHub.CreateTag(p, w.get, w.post)
    case GitLabApi => LegacyGitLab.CreateTag(p, w.get, w.post, w.release)
    case BitbucketApi => LegacyBitbucket.CreateTag(p, w.get, w.post)
    case LocalGit => Outcome(false, [])
  }

  /** The inputs on which `validate` completes without a panic. */
  predicate ValidateDefined(f: Flags, file: Option<string>, w: Commands.World) {
    Commands.Admitted(CheckLegacyFlags(f), file) ==>
      Commands.OrderingDefined(file.value) && (Commands.OrderingValid(file.value) ==> w.get.Response?)
  }

  /** `Validate.Execute` of the first generation: usage errors first, then the
      ordering check, which fails before the adapter is contacted; the tag
      is printed, without a newline, when it may be created. */
  function ValidateCommand(f: Flags, file: Option<string>, w: Commands.World): (r: Commands.Run)
    requires ValidateDefined(f, file, w)
    ensures r.exit == Commands.ExitUsageError <==> !Commands.Admitted(CheckLegacyFlags(f), file)
    ensures r.call.Some? <==> Commands.Admitted(CheckLegacyFlags(f), file) && Commands.OrderingValid(file.value)
    ensures r.call.Some? ==>
      && r.call.value.backend == Commands.BackendFor(f.provider)
      && r.call.value.props == Commands.PropertiesFor(f, Commands.TagOf(file.value), "")
    ensures r.exit == Commands.ExitSuccess <==>
      r.call.Some? && ValidateProviderTag(f, Changelog.ConvertToDesiredTag(Commands.VersionsOf(file.value).desired), "", w)
    ensures r.printed == if r.exit == Commands.ExitSuccess then Commands.TagOf(file.value) else ""
    ensures r.effect.writes == [] && r.effect.pushed == []
  {
    if !Commands.Admitted(CheckLegacyFlags(f), file) then
      Commands.Run(Commands.ExitUsageError, "", None, Commands.Effect(false, [], []))
    else
      var text := file.value;
      if !Commands.OrderingValid(text) then
        Commands.Run(Commands.ExitFailure, "", None, Commands.Effect(false, [], []))
      else
        var desiredTag := Changelog.ConvertToDesiredTag(Commands.VersionsOf(text).desired);
        var call := Commands.Call(Commands.BackendFor(f.provider), Commands.PropertiesFor(f, TrimSpace(desiredTag), ""));
        if ValidateProviderTag(f, desiredTag, "", w) then
          Commands.Run(Commands.ExitSuccess, TrimSpace(desiredTag), Some(call), Commands.Effect(true, [], []))
        else
          Commands.Run(Commands.ExitFailure, "", Some(call), Commands.Effect(false, [], []))
  }

  /** The inputs on which `create` completes without a panic. */
  predicate CreateCommandDefined(f: Flags, file: Option<string>, w: Commands.World) {
    Commands.Admitted(CheckLegacyFlags(f), file) ==>
      && Commands.OrderingDefined(file.value)
      && (Commands.OrderingValid(file.value) ==>
            CreateDefined(f, Commands.PropertiesFor(f, Commands.TagOf(file.value), Commands.NotesOf(file.value)), w))
  }

  /** `Create.Execute` of the first generation: as `validate`, with the change
      notes collected after the ordering check and handed to the adapter,
      which posts whenever its validation passes. */
  function CreateCommand(f: Flags, file: Option<string>, w: Commands.World): (r: Commands.Run)
    requires CreateCommandDefined(f, file, w)
    ensures r.exit == Commands.ExitUsageError <==> !Commands.Admitted(CheckLegacyFlags(f), file)
    ensures r.call.Some? <==> Commands.Admitted(CheckLegacyFlags(f), file) && Commands.OrderingValid(file.value)
    ensures r.call.None? ==> r.effect == Commands.Effect(false, [], [])
    ensures r.call.Some? ==>
      && r.call.value.backend == Commands.BackendFor(f.provider)
      && r.call.value.props == Commands.PropertiesFor(f, Commands.TagOf(file.value), Commands.NotesOf(file.value))
      && r.effect.pushed == []
      && var o := CreateProviderTag(f, Changelog.ConvertToDesiredTag(Commands.VersionsOf(file.value).desired),
                                    Commands.NotesOf(file.value), w);
         r.effect.success == o.success && r.effect.writes == o.writes
    ensures r.exit == Commands.ExitSuccess <==> r.call.Some? && r.effect.success
    ensures r.printed == if r.exit == Commands.ExitSuccess then Commands.TagOf(file.value) else ""
  {
    if !Commands.Admitted(CheckLegacyFlags(f), file) then
      Commands.Run(Commands.ExitUsageError, "", None, Commands.Effect(false, [], []))
    else
      var text := file.value;
      if !Commands.OrderingValid(text) then
        Commands.Run(Commands.ExitFailure, "", None, Commands.Effect(false, [], []))
      else
        var changes := Changelog.Changes(Commands.VersionsOf(text), text).changes;
        var desiredTag := Changelog.ConvertToDesiredTag(Commands.VersionsOf(text).desired);
        var call := Commands.Call(Commands.BackendFor(f.provider), Commands.PropertiesFor(f, TrimSpace(desiredTag), changes));
        var o := CreateProviderTag(f, desiredTag, changes, w);
        Commands.Run(if o.success then Commands.ExitSuccess else Commands.ExitFailure,
                     if o.success then TrimSpace(desiredTag) else "",
                     Some(call), Commands.Effect(o.success, o.writes, []))
  }

  /** Flags that pass the first generation's checks always select one of the
      three HTTP providers: its fallback branch is unreachable. */
  lemma AdmittedFlagsSelectProvider(f: Flags)
    requires CheckLegacyFlags(f) == []
    ensures Commands.BackendFor(f.provider) != Commands.LocalGit
  {
    LegacyAccepts(f);
  }

  /** Against a remote that answers lookups from its tag store, running the
      first generation's `create` when the tag is already stored at the hash
      sends the create request again: the run is idempotent only through
      the "already exists" replies the adapters accept. */
  lemma RerunPostsAgain(f: Flags, text: string, w: Commands.World, tags: map<string, string>)
    requires Commands.Admitted(CheckLegacyFlags(f), Some(text))
    requires CreateCommandDefined(f, Some(text), w)
    requires Commands.OrderingValid(text)
    requires w.get == Remote(tags, Commands.TagOf(text), CommitPathFor(f))
    requires Commands.TagOf(text) in tags && tags[Commands.TagOf(text)] == f.hash
    ensures var r := CreateCommand(f, Some(text), w);
      r.effect.writes != [] &&
      r.effect.writes[0] == CreateRequestFor(f, Commands.PropertiesFor(f, Commands.TagOf(text), Commands.NotesOf(text)))
  {
    AdmittedFlagsSelectProvider(f);
    ResolveRemote(tags, Commands.TagOf(text), f.hash, CommitPathFor(f));
    var p := Commands.PropertiesFor(f, Commands.TagOf(text), Commands.NotesOf(text));
    assert ValidateProviderTag(f, Changelog.ConvertToDesiredTag(Commands.VersionsOf(text).desired), Commands.NotesOf(text), w);
  }
}
