/** Command-line flags of the `validate` and `create` subcommands: how
    `flag.Parse` fills the command's fields from name/value pairs, and the
    ordered lists of usage errors the commands report before doing any work. */
module CommandFlags {
  import opened Text
  import Providers

  /** Every flag field either command generation declares; a generation that
      lacks a flag leaves its field empty. */
  datatype Flags = Flags(
    username: string,
    password: string,
    email: string,
    changelog: string,
    repo: string,
    hash: string,
    host: string,
    origin: string,
    provider: string)

  /** All flags at their default, the empty string. */
  const NoFlags := Flags("", "", "", "", "", "", "", "", "")

  /** The fields a flag can be bound to. */
  datatype FlagField = Username | Password | Email | ChangelogPath | Repo | Hash | Host | Origin | Provider

  function Get(f: Flags, x: FlagField): string {
    match x
    case Username => f.username
    case Password => f.password
    case Email => f.email
    case ChangelogPath => f.changelog
    case Repo => f.repo
    case Hash => f.hash
    case Host => f.host
    case Origin => f.origin
    case Provider => f.provider
  }

  /** Store `v` in field `x`, leaving every other field as it was. */
  function Set(f: Flags, x: FlagField, v: string): (g: Flags)
    ensures Get(g, x) == v
    ensures forall y: FlagField :: y != x ==> Get(g, y) == Get(f, y)
  {
    match x
    case Username => f.(username := v)
    case Password => f.(password := v)
    case Email => f.(email := v)
    case ChangelogPath => f.(changelog := v)
    case Repo => f.(repo := v)
    case Hash => f.(hash := v)
    case Host => f.(host := v)
    case Origin => f.(origin := v)
    case Provider => f.(provider := v)
  }

  /** The names `StringVar` declares across both command generations; any
      other name on a command line is `Undeclared`. */
  datatype FlagName =
    | UsernameFlag | PasswordFlag | EmailFlag | ChangelogFlag | RepoFlag
    | HashFlag | HostFlag | OriginFlag | ProviderFlag
    | Undeclared(name: string)

  /** A binding: the field `StringVar` ties each declared name to. */
  type Binding = FlagName -> Option<FlagField>

  /** `flag.Parse` over name/value pairs in command-line order: a later pair
      overrides an earlier one for the same field, and a name the command
      did not declare is a parse error. A field no pair reaches keeps its
      default, and every other field holds the value of some pair bound to
      it. */
  function Parse(args: seq<(FlagName, string)>, bind: Binding): (r: Option<Flags>)
    ensures r.Some? <==> forall i :: 0 <= i < |args| ==> bind(args[i].0).Some?
    ensures r.Some? ==> forall x: FlagField ::
      (forall i :: 0 <= i < |args| ==> bind(args[i].0) != Some(x)) ==> Get(r.value, x) == ""
    ensures r.Some? ==> forall x: FlagField :: Get(r.value, x) != "" ==>
      exists i :: 0 <= i < |args| && bind(args[i].0) == Some(x) && args[i].1 == Get(r.value, x)
  {
    if args == [] then Some(NoFlags)
    else
      var init := args[..|args| - 1];
      var last := args[|args| - 1];
      assert forall i :: 0 <= i < |init| ==> init[i] == args[i];
      match Parse(init, bind)
      case None => None
      case Some(f) =>
        match bind(last.0)
        case None => None
        case Some(x) => Some(Set(f, x, last.1))
  }

  /** The last pair for a field decides its value and changes nothing else. */
  lemma LastWins(args: seq<(FlagName, string)>, bind: Binding, name: FlagName, v: string)
    requires Parse(args, bind).Some? && bind(name).Some?
    ensures Parse(args + [(name, v)], bind) == Some(Set(Parse(args, bind).value, bind(name).value, v))
  {
    assert (args + [(name, v)])[..|args|] == args;
  }

  /** The flags `validate` declares, each bound to the field of its name. */
  function ValidateBinding(name: FlagName): (x: Option<FlagField>)
    ensures x.Some? <==> !name.Undeclared?
  {
    match name
    case UsernameFlag => Some(Username)
    case PasswordFlag => Some(Password)
    case EmailFlag => Some(Email)
    case ChangelogFlag => Some(ChangelogPath)
    case RepoFlag => Some(Repo)
    case HashFlag => Some(Hash)
    case HostFlag => Some(Host)
    case OriginFlag => Some(Origin)
    case ProviderFlag => Some(Provider)
    case Undeclared(_) => None
  }

  /** The flags `create` declares, as written: `-email` is bound to the
      password field and `-origin` to the host field, so nothing reaches the
      email or origin fields. */
  function CreateBindingAsWritten(name: FlagName): (x: Option<FlagField>)
    ensures x != Some(Email) && x != Some(Origin)
    ensures name != EmailFlag && name != OriginFlag ==> x == ValidateBinding(name)
  {
    match name
    case EmailFlag => Some(Password)
    case OriginFlag => Some(Host)
    case _ => ValidateBinding(name)
  }

  /** `create`'s flags parsed as written: whatever the command line says, the
      email and origin fields stay empty. */
  function ParseCreateAsWritten(args: seq<(FlagName, string)>): (r: Option<Flags>)
    ensures r.Some? ==> r.value.email == "" && r.value.origin == ""
  {
    Parse(args, CreateBindingAsWritten)
  }

  /** As written, an `-email` given after `-password` replaces the password. */
  lemma EmailOverwritesPassword(args: seq<(FlagName, string)>, e: string)
    requires ParseCreateAsWritten(args).Some?
    ensures ParseCreateAsWritten(args + [(EmailFlag, e)]).Some?
    ensures ParseCreateAsWritten(args + [(EmailFlag, e)]).value.password == e
  {
    LastWins(args, CreateBindingAsWritten, EmailFlag, e);
  }

  /** `create`'s flags with `-email` and `-origin` bound to their own fields,
      as `validate` binds them. */
  function ParseCreate(args: seq<(FlagName, string)>): (r: Option<Flags>)
    ensures r.Some? <==> forall i :: 0 <= i < |args| ==> !args[i].0.Undeclared?
    ensures r.Some? ==> forall x: FlagField :: Get(r.value, x) != "" ==>
      exists i :: 0 <= i < |args| && ValidateBinding(args[i].0) == Some(x) && args[i].1 == Get(r.value, x)
  {
    Parse(args, ValidateBinding)
  }

  /** With the corrected binding, a trailing `-email` and `-origin` reach
      their own fields and change nothing else. */
  lemma CreateEmailAndOriginReachFields(args: seq<(FlagName, string)>, e: string, o: string)
    requires ParseCreate(args).Some?
    ensures ParseCreate(args + [(EmailFlag, e)] + [(OriginFlag, o)])
         == Some(ParseCreate(args).value.(email := e, origin := o))
  {
    LastWins(args, ValidateBinding, EmailFlag, e);
    LastWins(args + [(EmailFlag, e)], ValidateBinding, OriginFlag, o);
  }

  /** The flags of the first command generation: the seven it declares, with
      no `-email` or `-origin`. */
  function LegacyBinding(name: FlagName): (x: Option<FlagField>)
    ensures x != Some(Email) && x != Some(Origin)
    ensures x.Some? <==> !name.Undeclared? && name != EmailFlag && name != OriginFlag
  {
    if name == EmailFlag || name == OriginFlag then None else ValidateBinding(name)
  }

  /** The usage problems the flag checks report. */
  datatype Problem =
    | MissingUsername | MissingPassword | MissingRepo | MissingChangelog | MissingHash
    | BadProvider | MissingEmail | MissingOrigin

  /** The line a problem prints. */
  function Message(p: Problem): string {
    match p
    case MissingUsername => "-username required"
    case MissingPassword => "-password required"
    case MissingRepo => "-repo required"
    case MissingChangelog => "-changelog required"
    case MissingHash => "-hash required"
    case BadProvider => Providers.ProviderError
    case MissingEmail => "-email required"
    case MissingOrigin => "-origin required"
  }

  /** The problems of `checks`, in order. */
  function Heads(checks: seq<(Problem, bool)>): (hs: seq<Problem>)
    ensures |hs| == |checks|
    ensures forall i :: 0 <= i < |checks| ==> hs[i] == checks[i].0
  {
    seq(|checks|, i requires 0 <= i < |checks| => checks[i].0)
  }

  /** `xs` is `ys` with some elements left out. */
  predicate Subsequence(xs: seq<Problem>, ys: seq<Problem>)
    decreases |ys|
  {
    if xs == [] then true
    else if ys == [] then false
    else (xs[0] == ys[0] && Subsequence(xs[1..], ys[1..])) || Subsequence(xs, ys[1..])
  }

  /** The append-if pattern of the flag checks: the problems of the failing
      checks, kept in the order the checks are made. */
  function Keep(checks: seq<(Problem, bool)>): (ps: seq<Problem>)
    ensures Subsequence(ps, Heads(checks))
    ensures forall p :: p in ps ==> exists i :: 0 <= i < |checks| && checks[i] == (p, true)
    ensures forall i :: 0 <= i < |checks| && checks[i].1 ==> checks[i].0 in ps
  {
    if checks == [] then []
    else
      var rest := Keep(checks[1..]);
      assert Heads(checks)[1..] == Heads(checks[1..]);
      assert forall i :: 1 <= i < |checks| ==> checks[i] == checks[1..][i - 1];
      if checks[0].1 then
        assert ([checks[0].0] + rest)[1..] == rest;
        [checks[0].0] + rest
      else rest
  }

  /** No problem is checked twice. */
  predicate Distinct(hs: seq<Problem>) {
    forall i, j :: 0 <= i < j < |hs| ==> hs[i] != hs[j]
  }

  /** With each problem checked once, a problem is reported exactly when its
      check fails. */
  lemma KeepDistinct(checks: seq<(Problem, bool)>, i: nat)
    requires Distinct(Heads(checks))
    requires i < |checks|
    ensures checks[i].0 in Keep(checks) <==> checks[i].1
  {
    assert forall j :: 0 <= j < |checks| && j != i ==> Heads(checks)[j] != Heads(checks)[i];
  }

  /** Every check of a list of distinct problems decides its own report. */
  lemma KeepEach(checks: seq<(Problem, bool)>)
    requires Distinct(Heads(checks))
    ensures forall i :: 0 <= i < |checks| ==> (checks[i].0 in Keep(checks) <==> checks[i].1)
  {
    forall i | 0 <= i < |checks| ensures checks[i].0 in Keep(checks) <==> checks[i].1 {
      KeepDistinct(checks, i);
    }
  }

  /** The order every usage error list follows. */
  const CheckOrder: seq<Problem> :=
    [MissingUsername, MissingPassword, MissingRepo, MissingChangelog, MissingHash,
     BadProvider, MissingEmail, MissingOrigin]

  /** The checks of `validate`, in the order it makes them. */
  function ValidateChecks(f: Flags): seq<(Problem, bool)> {
    [ (MissingUsername, f.username == "" && f.provider != Providers.GitLabName),
      (MissingPassword, f.password == ""),
      (MissingRepo, f.provider != "" && f.repo == ""),
      (MissingChangelog, f.changelog == ""),
      (MissingHash, f.hash == ""),
      (BadProvider, f.provider != "" && !Providers.ValidProvider(f.provider)),
      (MissingEmail, f.provider == "" && f.email == ""),
      (MissingOrigin, f.provider == "" && f.origin == "") ]
  }

  /** `checkValidateFlags`: the repository is required only with a
      provider, the username for every provider but the exact spelling
      "gitlab", and the email and origin only without a provider (the local
      git backend); an unknown provider is reported, an empty one is not. */
  function CheckValidateFlags(f: Flags): (errors: seq<Problem>)
    ensures Subsequence(errors, CheckOrder)
    ensures MissingUsername in errors <==> f.username == "" && f.provider != "gitlab"
    ensures MissingPassword in errors <==> f.password == ""
    ensures MissingRepo in errors <==> f.provider != "" && f.repo == ""
    ensures MissingChangelog in errors <==> f.changelog == ""
    ensures MissingHash in errors <==> f.hash == ""
    ensures BadProvider in errors <==> f.provider != "" && !Providers.ValidProvider(f.provider)
    ensures MissingEmail in errors <==> f.provider == "" && f.email == ""
    ensures MissingOrigin in errors <==> f.provider == "" && f.origin == ""
  {
    var checks := ValidateChecks(f);
    assert Heads(checks) == CheckOrder;
    KeepEach(checks);
    assert checks[0].0 == MissingUsername && checks[1].0 == MissingPassword;
    assert checks[2].0 == MissingRepo && checks[3].0 == MissingChangelog;
    assert checks[4].0 == MissingHash && checks[5].0 == BadProvider;
    assert checks[6].0 == MissingEmail && checks[7].0 == MissingOrigin;
    Keep(checks)
  }

  /** `checkCreateFlags`: as for `validate`, except that the repository is
      required with or without a provider. */
  function CreateChecks(f: Flags): seq<(Problem, bool)> {
    ValidateChecks(f)[2 := (MissingRepo, f.repo == "")]
  }

  function CheckCreateFlags(f: Flags): (errors: seq<Problem>)
    ensures Subsequence(errors, CheckOrder)
    ensures MissingUsername in errors <==> f.username == "" && f.provider != "gitlab"
    ensures MissingPassword in errors <==> f.password == ""
    ensures MissingRepo in errors <==> f.repo == ""
    ensures MissingChangelog in errors <==> f.changelog == ""
    ensures MissingHash in errors <==> f.hash == ""
    ensures BadProvider in errors <==> f.provider != "" && !Providers.ValidProvider(f.provider)
    ensures MissingEmail in errors <==> f.provider == "" && f.email == ""
    ensures MissingOrigin in errors <==> f.provider == "" && f.origin == ""
  {
    var checks := CreateChecks(f);
    assert Heads(checks) == CheckOrder;
    KeepEach(checks);
    assert checks[0].0 == MissingUsername && checks[1].0 == MissingPassword;
    assert checks[2].0 == MissingRepo && checks[3].0 == MissingChangelog;
    assert checks[4].0 == MissingHash && checks[5].0 == BadProvider;
    assert checks[6].0 == MissingEmail && checks[7].0 == MissingOrigin;
    Keep(checks)
  }

  /** Every reported problem is one of the eight, so an empty list means
      every check passed. */
  lemma NoErrorsMeansAllPass(errors: seq<Problem>)
    requires Subsequence(errors, CheckOrder)
    ensures errors == [] <==>
      && MissingUsername !in errors && MissingPassword !in errors && MissingRepo !in errors
      && MissingChangelog !in errors && MissingHash !in errors && BadProvider !in errors
      && MissingEmail !in errors && MissingOrigin !in errors
  {
    if errors != [] {
      assert errors[0] in errors;
    }
  }

  /** `validate` runs exactly when the flags name a password, a changelog and
      a hash, a username unless the provider is "gitlab", and either a
      supported provider with a repository or, without a provider, an email
      and an origin. */
  lemma ValidateAccepts(f: Flags)
    ensures CheckValidateFlags(f) == [] <==>
      && (f.username != "" || f.provider == "gitlab")
      && f.password != "" && f.changelog != "" && f.hash != ""
      && (f.provider != "" ==> f.repo != "" && Providers.ValidProvider(f.provider))
      && (f.provider == "" ==> f.email != "" && f.origin != "")
  {
    NoErrorsMeansAllPass(CheckValidateFlags(f));
  }

  /** `create` accepts exactly the flag sets `validate` accepts that also
      name a repository. */
  lemma CreateAcceptsValidatePlusRepo(f: Flags)
    ensures CheckCreateFlags(f) == [] <==> CheckValidateFlags(f) == [] && f.repo != ""
  {
    NoErrorsMeansAllPass(CheckValidateFlags(f));
    NoErrorsMeansAllPass(CheckCreateFlags(f));
  }

  /** As written, `create` can never run without a provider: the email and
      origin fields are always empty, so the local git backend is out of
      reach. */
  lemma AsWrittenCreateRejectsGitBackend(args: seq<(FlagName, string)>)
    requires ParseCreateAsWritten(args).Some?
    requires ParseCreateAsWritten(args).value.provider == ""
    ensures MissingEmail in CheckCreateFlags(ParseCreateAsWritten(args).value)
    ensures MissingOrigin in CheckCreateFlags(ParseCreateAsWritten(args).value)
  {
  }

  /** With `-email` and `-origin` bound to their own fields, `create` accepts
      a command line for the local git backend: one that sets the other
      required flags and no provider, followed by an email and an origin. */
  lemma CorrectedCreateReachesGitBackend(args: seq<(FlagName, string)>, e: string, o: string)
    requires ParseCreate(args).Some?
    requires var f := ParseCreate(args).value;
      f.provider == "" && f.username != "" && f.password != "" && f.repo != "" && f.changelog != "" && f.hash != ""
    requires e != "" && o != ""
    ensures ParseCreate(args + [(EmailFlag, e)] + [(OriginFlag, o)]).Some?
    ensures CheckCreateFlags(ParseCreate(args + [(EmailFlag, e)] + [(OriginFlag, o)]).value) == []
  {
    CreateEmailAndOriginReachFields(args, e, o);
    GitBackendFlagsAccepted(ParseCreate(args).value.(email := e, origin := o));
  }

  /** A full set of flags without a provider passes `create`'s checks. */
  lemma GitBackendFlagsAccepted(f: Flags)
    requires f.provider == "" && f.username != "" && f.password != "" && f.email != ""
    requires f.repo != "" && f.changelog != "" && f.hash != "" && f.origin != ""
    ensures CheckCreateFlags(f) == []
  {
    NoErrorsMeansAllPass(CheckCreateFlags(f));
  }

  /** The checks of the first generation's `validate` and `create`: every one
      of the five fields is required, and the provider must be a supported
      one. */
  function LegacyChecks(f: Flags): seq<(Problem, bool)> {
    [ (MissingUsername, f.username == ""),
      (MissingPassword, f.password == ""),
      (MissingRepo, f.repo == ""),
      (MissingChangelog, f.changelog == ""),
      (MissingHash, f.hash == ""),
      (BadProvider, !Providers.ValidProvider(f.provider)) ]
  }

  function CheckLegacyFlags(f: Flags): (errors: seq<Problem>)
    ensures Subsequence(errors, CheckOrder[..6])
    ensures MissingUsername in errors <==> f.username == ""
    ensures MissingPassword in errors <==> f.password == ""
    ensures MissingRepo in errors <==> f.repo == ""
    ensures MissingChangelog in errors <==> f.changelog == ""
    ensures MissingHash in errors <==> f.hash == ""
    ensures BadProvider in errors <==> !Providers.ValidProvider(f.provider)
    ensures MissingEmail !in errors && MissingOrigin !in errors
  {
    var checks := LegacyChecks(f);
    assert Heads(checks) == CheckOrder[..6];
    KeepEach(checks);
    assert checks[0].0 == MissingUsername && checks[1].0 == MissingPassword;
    assert checks[2].0 == MissingRepo && checks[3].0 == MissingChangelog;
    assert checks[4].0 == MissingHash && checks[5].0 == BadProvider;
    Keep(checks)
  }

  /** The first generation runs exactly when all five fields are set and the
      provider is supported. */
  lemma LegacyAccepts(f: Flags)
    ensures CheckLegacyFlags(f) == [] <==>
      && f.username != "" && f.password != "" && f.repo != "" && f.changelog != "" && f.hash != ""
      && Providers.ValidProvider(f.provider)
  {
    var errors := CheckLegacyFlags(f);
    if errors != [] {
      assert errors[0] in errors;
    }
  }
}
