# release — a Dafny model of the changelog-driven tagger

`release` is a command-line tool. It reads a markdown changelog and takes
the first `## <version>` heading as the release to tag and the second as the
one before it. It checks that the versions increase, collects the change
notes between the two headings, and then creates a tag (and, on GitHub and
GitLab, a release) at a given commit. The tag goes to GitHub, GitLab or
Bitbucket over their HTTP APIs, or straight to a git remote.

This project models the decision logic of that tool as pure Dafny functions
and proves what it promises. The network, git and the file system are
inputs, in three forms:

- every HTTP exchange is an already decoded `Http.Reply`: no request, no
  response, or a status with the JSON body's string leaves;
- the git repository is a tag store `map<string, string>` plus boolean
  outcomes for tag creation, key loading and push;
- the changelog file is an `Option<string>`.

Modules follow the program's layout:

- **Text, Versions, Http, Protocol.** Shared pieces:
  - Go's `strings`, the RE2 `\s`/`\d` classes and `unicode.IsSpace`;
  - dotted numeric versions as compared by hashicorp go-version;
  - decoded HTTP replies and structured URLs;
  - the `ValidTagState` record and the two create disciplines.
- **Changelog** (`internal/changelog`):
  - the heading scan, with `##\s*\d.+` modelled as a leftmost, non-overlapping scan;
  - tag and version extraction;
  - the ordering check;
  - change-note slicing over `bufio.ScanLines` lines.
- **Current adapters.** These look the tag up, short-circuit when it is
  already at the hash, create it only when it is absent, and treat a vendor
  "already exists" reply as failure.
  - GitLab, GitHub, Bitbucket and Git: `internal/tag/providers/*`.
  - BitbucketEarly: `internal/tag/providers/bitbucket/tag.go`.
  - `github/github.go` is the same adapter as
    `internal/tag/providers/github/github.go`, one line earlier throughout
    (`ValidateTag` 52-111, `CreateTag` 114-176, release body 127), so
    `GitHub` models both.
- **Legacy adapters.** These validate to a single boolean, always post when
  that boolean holds, and fold the vendor's exact "already exists" reply
  into success.
  - LegacyGitLab: `gitlab/tags.go`.
  - LegacyGitHub: `github/tags.go`.
  - LegacyBitbucket: `bitbucket/tags.go`.
  - TaggingGitLab and TaggingGitHub: `tagging/*.go`.
- **Providers, CommandFlags, Commands** (`internal/commands`):
  - provider membership;
  - flag parsing and the ordered usage errors;
  - `validate` and `create` as functions from flags, changelog and world to
    a `Run`: exit status, the command's own standard output, the backend call made, and every
    remote write.
- **Cli** (`cmd`): the first generation of the two subcommands. It reuses
  the current changelog model, because `cmd/*.go` call the zero-argument
  `ValidateVersionSemantics()` and `ConvertToDesiredTag()` that only
  `internal/changelog` defines.

## Model

| member | source | states |
|---|---|---|
| Text.TrimSpace | internal/commands/validate.go:146 | The tag is the heading text with leading and trailing Unicode white space removed: the result is a contiguous slice, starts and ends with non-space, and only spaces were cut from either end |
| Text.TrimSpaceKeepsTrimmed | internal/commands/create.go:140 | Trimming a tag that is already trimmed leaves it unchanged |
| Text.ToLower | internal/commands/common.go:12 | Lowercasing keeps the length and maps every character by itself through the Unicode simple lowercase that can yield an ASCII letter |
| Text.LowerOfUpper | internal/commands/common.go:12 | Lowercasing forgets any ASCII uppercasing done before it |
| Versions.Parse | internal/changelog/changelog.go:46-47 | A version string parses exactly when it is dot-separated decimal numbers each below 2^63, the range of go-version's 64-bit segment parse, giving one segment per dot-separated part, each below 2^63 |
| Versions.ParseFormat | internal/changelog/changelog.go:46-47 | Printing a nonempty list of segments below 2^63 and parsing it back gives the same segments |
| Versions.OversizedSegmentRejected | internal/changelog/changelog.go:46-47 | A segment of 2^63 or more makes the version fail to parse |
| Versions.GreaterThanIsLex | internal/changelog/changelog.go:49 | go-version's greater-than is the lexicographic order on segments after padding the shorter version with zeros |
| Versions.CompareAntisymmetric | internal/changelog/changelog.go:49 | Swapping the operands negates the comparison |
| Versions.CompareReflexive | internal/changelog/changelog.go:49 | Every version compares equal to itself |
| Versions.GreaterThanTransitive | internal/changelog/changelog.go:49 | Greater-than is transitive |
| Versions.TrailingZeroIgnored | internal/changelog/changelog.go:49 | A trailing zero segment does not change any comparison, so `1.0` and `1.0.0` are the same version |
| Versions.SplitJoin | internal/tag/providers/bitbucket/bitbucket.go:71-72 | Splitting on a separator undoes joining parts that do not contain it |
| Versions.JoinSplit | internal/tag/providers/bitbucket/bitbucket.go:71-72 | Joining the parts of a split with the separator gives back the original string |
| Changelog.MatchAtIsMatch | internal/changelog/changelog.go:28-29 | The scanner finds a match at a position, ending at `e`, exactly when `##`, zero or more `\s`, a digit and one or more non-newline characters span that text, with `.+` taken greedily to the line end |
| Changelog.SpansCoverCandidates | internal/changelog/changelog.go:28-29 | The leftmost non-overlapping scan misses no heading: every position where a match could start lies inside some reported match |
| Changelog.FindHeadings | internal/changelog/changelog.go:28-29 | The matches are the texts of the scan's spans, in document order, and each one is a heading |
| Changelog.GetVersions | internal/changelog/changelog.go:27-36 | With two or more headings the first is the desired release and the second the previous one; with one only the desired release is set; with none nothing changes |
| Changelog.ConvertLeavesNoMarker | internal/changelog/changelog.go:74-77 | The converted tag contains no `##` |
| Changelog.ConvertWithoutMarker | internal/changelog/changelog.go:74-77 | Text without `##` is left as it is |
| Changelog.ConvertIdempotent | internal/changelog/changelog.go:74-77 | Converting a converted tag changes nothing |
| Changelog.ConvertHeading | internal/changelog/changelog.go:74-77 | `##`, then white space, then a marker-free version yields exactly that version: the white space after `##` is removed and the rest, trailing space included, is kept |
| Changelog.GetVersion | internal/changelog/changelog.go:86-91 | The comparable version contains no `\s` character and is no longer than the heading, and apart from `#` marks it keeps exactly the heading's characters that are neither `#` nor white space, in order |
| Changelog.SpacedHashesSurvive | internal/changelog/changelog.go:86-91 | The pattern is applied once, left to right: `# #` becomes `##`, because the two marks only meet after the space between them is removed |
| Changelog.GetVersionOfPlain | internal/changelog/changelog.go:86-91 | Text without `#` or white space is its own version |
| Changelog.GetVersionOfHeading | internal/changelog/changelog.go:86-91 | `##`, white space, a version, then white space gives exactly the version |
| Changelog.ValidateVersionSemantics | internal/changelog/changelog.go:39-51 | With no previous release the order is valid whatever the desired one is; otherwise it is valid exactly when the desired version is strictly greater than the previous one |
| Changelog.SameVersionInvalid | internal/changelog/changelog.go:43-49 | Re-releasing the previous version is rejected |
| Changelog.SwappedInvalid | internal/changelog/changelog.go:43-49 | If an order is valid, the same two headings the other way round are not |
| Changelog.FirstReleaseValid | internal/changelog/changelog.go:27-42 | A changelog with at most one heading always passes the ordering check |
| Changelog.LinesOfJoin | internal/changelog/changelog.go:55-57 | Splitting into scanner lines undoes a newline join of nonempty lines that contain no newline and do not end in a carriage return |
| Changelog.RetrieveChanges | internal/changelog/changelog.go:54-71 | The loop leaves the headings as they were and sets the notes to the newline join of the kept lines: the nonempty lines after the desired heading, up to the first line equal to the previous heading |
| Changelog.ChangeLinesAreBody | internal/changelog/changelog.go:59-68 | No kept line is empty or is the desired heading |
| Changelog.KeptAreLines | internal/changelog/changelog.go:66-68 | Every kept line is a line of the changelog |
| Changelog.StopBeforeDesiredRecordsNothing | internal/changelog/changelog.go:63-65 | When the previous heading comes before the desired one, the scan stops before recording and the notes are empty |
| Changelog.NoPreviousScansToEnd | internal/changelog/changelog.go:63 | With no previous release the scan never stops early |
| Changelog.ChangesSplitBack | internal/changelog/changelog.go:70 | The joined notes split back into exactly the kept lines |
| Protocol.Resolve | internal/tag/tag.go:12-15 | The lookup state is consistent: absent exactly on 404, present at the hash exactly on 200 whose commit field equals the hash |
| Protocol.ResolveRemote | internal/tag/tag.go:12-15 | Against a remote that answers from a tag store, the state is "absent" when the tag is not stored and "at the hash" when it is stored at that hash, and the lookup passes exactly in those cases |
| Protocol.IdempotentAgainstRemote | internal/tag/providers/github/github.go:115-120 | A current-generation create against such a remote writes nothing and succeeds when the tag is at the hash, writes nothing and fails when it is elsewhere, and otherwise starts with the create request |
| Protocol.PostWhenValidAgainstRemote | gitlab/tags.go:97-111 | A legacy create against such a remote sends the create request first whenever the tag is already at the hash, and writes nothing when the tag is elsewhere |
| GitLab.TagsUrl | internal/tag/providers/gitlab/gitlab.go:45-49 | The base is the host verbatim, else `https://gitlab.com`, and the repository appears only query-escaped |
| GitLab.TagUrl | internal/tag/providers/gitlab/gitlab.go:45-49 | The tag URL is the tags URL followed by `/` and the tag |
| GitLab.ReleaseUrl | internal/tag/providers/gitlab/gitlab.go:173-178 | The release URL is the tag URL followed by `/release` |
| GitLab.ValidateTag | internal/tag/providers/gitlab/gitlab.go:41-99 | 404 means absent; 200 means present, at the hash exactly when `commit.id` equals it; anything else, or no reply, sets neither flag |
| GitLab.CreateRelease | internal/tag/providers/gitlab/gitlab.go:171-230 | The release succeeds exactly on 201, so a 409 "Release already exists" fails, and one release request is sent unless the request could not be built |
| GitLab.CreateTag | internal/tag/providers/gitlab/gitlab.go:102-169 | Nothing is written when the tag is in place (success) or the lookup was inconclusive (failure). On absence the create request goes out, and the call succeeds exactly when both the tag and the release return 201. The release request is sent only after a 201 tag reply |
| GitHub.RefUrl | internal/tag/providers/github/github.go:57-61 | The base is the host verbatim, else `https://api.github.com`, followed by the repository and the tag unescaped |
| GitHub.ReleaseBody | internal/tag/providers/github/github.go:128 | The release is named after the tag, targets the hash, carries the change notes, and is neither draft nor pre-release |
| GitHub.ValidateTag | internal/tag/providers/github/github.go:53-112 | 404 means absent; 200 means present, at the hash exactly when `object.sha` equals it; anything else sets neither flag |
| GitHub.CreateTag | internal/tag/providers/github/github.go:115-177 | One release request goes out only when the tag is absent, and the call succeeds exactly when the tag is already in place or that request returns 201, so 422 `already_exists` fails; a 422 needs only a first error, whose code may be missing |
| Bitbucket.TagsUrl | internal/tag/providers/bitbucket/bitbucket.go:63-73 | With no host the cloud repositories API is used; with a host, the server projects API with the project and slug taken from the repository path |
| Bitbucket.ServerUrlNamesProjectAndSlug | internal/tag/providers/bitbucket/bitbucket.go:71-73 | For `project/slug` the server URL names exactly that project and slug |
| Bitbucket.CommitPath | internal/tag/providers/bitbucket/bitbucket.go:192-218 | Cloud mode reads `target.hash`, server mode reads `latestCommit` |
| Bitbucket.CreateBody | internal/tag/providers/bitbucket/bitbucket.go:171-190 | Cloud mode sends the name and `target.hash`; server mode sends the name, `startPoint` and the notes as `message` |
| Bitbucket.ValidateTag | internal/tag/providers/bitbucket/bitbucket.go:62-110 | 404 means absent; 200 means at the hash when the mode's commit field equals it; anything else sets neither flag |
| Bitbucket.CreateTag | internal/tag/providers/bitbucket/bitbucket.go:113-169 | The create request goes out only when the tag is absent, and the call succeeds exactly when the tag is already in place or the reply is 200 or 201, so 400 "already exists" fails |
| BitbucketEarly.TagsUrl | internal/tag/providers/bitbucket/tag.go:46-50 | A given host replaces the default base verbatim in front of `/2.0/repositories/<repo>/refs/tags` |
| BitbucketEarly.CreateBody | internal/tag/providers/bitbucket/tag.go:115-116 | The body names the tag and targets the hash |
| BitbucketEarly.ValidateTag | internal/tag/providers/bitbucket/tag.go:42-99 | 404 means absent; 200 means at the hash when `target.hash` equals it; anything else sets neither flag |
| BitbucketEarly.CreateTag | internal/tag/providers/bitbucket/tag.go:102-164 | The create request goes out only when the tag is absent, and the call succeeds exactly when the tag is in place or the reply is 201 |
| Git.LookupTag | internal/tag/providers/git/git.go:63 | A storage fault fails every lookup; otherwise a tag is found exactly when stored, with its stored target |
| Git.ValidateTag | internal/tag/providers/git/git.go:62-79 | Absent exactly when the lookup fails with "tag not found"; at the hash exactly when the tag is found with that target |
| Git.ValidateHealthyRepository | internal/tag/providers/git/git.go:62-79 | Without storage faults, absent means not stored and at the hash means stored with that target |
| Git.GetAuth | internal/tag/providers/git/git.go:120-139 | Without a key file the credentials are basic auth with the given user and password; with one they are public keys from that file, user `git` when none is given, and the password as passphrase |
| Git.Refspec | internal/tag/providers/git/git.go:107 | The push refspec maps `refs/tags/<tag>` to itself |
| Git.CreateTag | internal/tag/providers/git/git.go:82-118 | A tag already in place succeeds untouched and an inconclusive lookup fails untouched. On absence the annotated tag (name, hash as go-git stores it, tagger, notes) is created, then credentials are built, then the push is made. The call succeeds exactly when all three steps succeed, and the first failure stops it |
| Git.CreateThenRerun | internal/tag/providers/git/git.go:62-118 | After a create that stored the tag, a second create on that same repository value (not a fresh fetch of the origin) succeeds with no new tag and no push exactly when the hash was given as 40 lowercase hex digits; otherwise the stored target no longer equals the given hash and the rerun fails untouched |
| Git.HexPairs | internal/tag/providers/git/git.go:88 | The decoded prefix is an even run of lowercase hex digits, each the lowercase of the input character at its place |
| Git.NewHashString | internal/tag/providers/git/git.go:88 | The stored target is always 40 lowercase hex digits: the decoded prefix cut to 40, or padded with `0` when shorter |
| Git.HexPairsOfLowerHex | internal/tag/providers/git/git.go:88 | An even run of lowercase hex digits decodes to itself |
| Git.NewHashKeepsExactlyCanonical | internal/tag/providers/git/git.go:74-88 | A hash is stored as given exactly when it is 40 lowercase hex digits |
| Git.HexPairsOfHex | internal/tag/providers/git/git.go:88 | An even run of hex digits in any case decodes in full |
| Git.NewHashOfFullHash | internal/tag/providers/git/git.go:88 | A 40-digit hex hash in any case is stored as its lowercase |
| LegacyGitLab.ValidateTag | gitlab/tags.go:50-94 | Valid exactly on 404, or on 200 whose `commit.id` is the hash |
| LegacyGitLab.CreateRelease | gitlab/tags.go:155-206 | The release step succeeds on 201 or on 409 with exactly "Release already exists" |
| LegacyGitLab.CreateTag | gitlab/tags.go:97-153 | The tag request goes out whenever validation passes, and the call succeeds exactly when validation passes, the tag step returns 201 or 400 "Tag <tag> already exists", and the release step succeeds |
| LegacyGitLab.RerunFoldsAlreadyExists | gitlab/tags.go:97-206 | Re-running against a GitLab that already holds the tag and release posts both again and succeeds through the two "already exists" replies |
| LegacyGitHub.ValidateTag | github/tags.go:61-105 | Valid exactly on 404, or on 200 whose `object.sha` is the hash |
| LegacyGitHub.CreateTag | github/tags.go:108-165 | The release request goes out whenever validation passes, and the call succeeds exactly on 201, or on 422 whose first error code is `already_exists` |
| LegacyGitHub.CodelessRejectionFails | github/tags.go:152-161 | A 422 whose first error has no code reads the code as empty and is a plain failure after the one create request |
| LegacyGitHub.RerunFoldsAlreadyExists | github/tags.go:108-165 | Re-running against a GitHub that already holds the release posts again and succeeds |
| LegacyBitbucket.TagsUrl | bitbucket/tags.go:54-59 | The URL is `https://` plus the host, else `api.bitbucket.org`, then `/2.0/repositories/<repo>/refs/tags` |
| LegacyBitbucket.ValidateTag | bitbucket/tags.go:51-95 | Valid exactly on 404, or on 200 whose `target.hash` is the hash |
| LegacyBitbucket.CreateTag | bitbucket/tags.go:98-161 | The create request goes out whenever validation passes, and the call succeeds exactly on 201, or on 400 with exactly `tag "<tag>" already exists` |
| LegacyBitbucket.RerunFoldsAlreadyExists | bitbucket/tags.go:98-161 | Re-running against a Bitbucket that already holds the tag posts again and succeeds |
| TaggingGitLab.ValidateTag | tagging/gitlab.go:34-92 | Valid exactly on 404, or on 200 whose `commit.id` is the hash; a missing request or response is invalid |
| TaggingGitLab.CreateRelease | tagging/gitlab.go:160-218 | The release step succeeds on 201 or on 409 with exactly "Release already exists" |
| TaggingGitLab.CreateTagWith | tagging/gitlab.go:95-158 | Posts whenever validation passes; succeeds exactly when validation passes, the tag step returns 201 or 400 with the given "already exists" message, and the release step succeeds |
| TaggingGitLab.CreateTagAsWritten | tagging/gitlab.go:95-158 | The adapter as written: the tag step's 400 is folded only for the message "GitlabTag <tag> already exists" |
| TaggingGitLab.AsWrittenMissesGitLabReply | tagging/gitlab.go:152 | GitLab's real reply "Tag <tag> already exists" makes the as-written adapter fail after posting |
| TaggingGitLab.CreateTag | tagging/gitlab.go:95-158 | The corrected adapter folds GitLab's "Tag <tag> already exists" reply |
| TaggingGitLab.CorrectedAgreesWithFirstAdapter | tagging/gitlab.go:95-218 | The corrected adapter behaves exactly as `gitlab/tags.go` on every reply |
| TaggingGitLab.CorrectedRerunSucceeds | tagging/gitlab.go:95-218 | Re-running the corrected adapter against a GitLab that already holds tag and release succeeds |
| TaggingGitHub.ValidateTag | tagging/github.go:44-103 | Valid exactly on 404, or on 200 whose `object.sha` is the hash; a missing request or response is invalid |
| TaggingGitHub.CreateTag | tagging/github.go:106-163 | Posts whenever validation passes; succeeds exactly on 201 or on 422 `already_exists` |
| TaggingGitHub.AgreesWithFirstAdapter | tagging/github.go:44-163 | Wherever `github/tags.go` is defined, this adapter gives the same outcome and writes |
| Providers.AnyIs | internal/commands/common.go:11-16 | The search finds the lowered name exactly when it is in the list |
| Providers.ValidProvider | internal/commands/common.go:10-17 | A provider is valid exactly when its lowercase form is `github`, `gitlab` or `bitbucket` |
| Providers.ProviderErrorListsNames | internal/commands/validate.go:127-128 | The provider error lists exactly the supported names, comma separated |
| Providers.EmptyIsInvalid | internal/commands/common.go:7-17 | The empty provider is invalid |
| Providers.CaseInsensitive | internal/commands/common.go:12 | Uppercasing any letters does not change validity |
| Providers.AcceptsEveryCasing | cmd/common.go:9-16 | Every mix of upper- and lowercase letters in a supported name is accepted |
| Providers.LowerOfCasing | cmd/common.go:9-16 | Lowercasing any casing of a lowercase ASCII name gives the name back |
| Providers.KelvinSignSpelling | cmd/common.go:11 | Because lowercasing is Unicode's, a Kelvin sign in place of `K` still names Bitbucket |
| Providers.OtherNamesRejected | cmd/common.go:9-16 | `git`, `svn` and a name with a leading space are rejected |
| CommandFlags.Set | internal/commands/validate.go:42-52 | Setting a field changes that field and no other |
| CommandFlags.Parse | internal/commands/validate.go:42-52 | Parsing fails exactly on an undeclared flag; an unset field stays empty, and a nonempty field holds the value of some flag bound to it |
| CommandFlags.LastWins | internal/commands/validate.go:42-52 | A flag given again overrides the earlier value and nothing else |
| CommandFlags.ValidateBinding | internal/commands/validate.go:42-52 | Every declared flag is bound |
| CommandFlags.CreateBindingAsWritten | internal/commands/create.go:42-52 | As written, `create` binds `-email` to the password and `-origin` to the host, so no flag reaches the email or origin field |
| CommandFlags.ParseCreateAsWritten | internal/commands/create.go:42-52 | As written, a parsed `create` always has empty email and origin |
| CommandFlags.EmailOverwritesPassword | internal/commands/create.go:45 | As written, an `-email` given last replaces the password |
| CommandFlags.ParseCreate | internal/commands/create.go:42-52 | The corrected parse fails only on undeclared flags, and every nonempty field comes from its own flag |
| CommandFlags.CreateEmailAndOriginReachFields | internal/commands/create.go:42-52 | With the corrected bindings, `-email` and `-origin` set exactly the email and origin |
| CommandFlags.LegacyBinding | cmd/validate.go:40-48 | The first generation declares no email or origin flag |
| CommandFlags.Keep | internal/commands/validate.go:110-139 | The errors are the failing checks, in check order |
| CommandFlags.KeepDistinct | internal/commands/validate.go:110-139 | With distinct problems, a problem is reported exactly when its check fails |
| CommandFlags.CheckValidateFlags | internal/commands/validate.go:110-139 | The errors come in the order username, password, repo, changelog, hash, provider, email, origin. Each is reported exactly when its condition holds: username unless the provider is exactly `gitlab`; repo only with a provider; provider when given but invalid; email and origin only without a provider |
| CommandFlags.CheckCreateFlags | internal/commands/create.go:105-134 | As for `validate`, except that the repository is required whatever the provider |
| CommandFlags.NoErrorsMeansAllPass | internal/commands/validate.go:110-139 | An error list in check order is empty exactly when it holds none of the problems |
| CommandFlags.ValidateAccepts | internal/commands/validate.go:110-139 | `validate` accepts its flags exactly when every required field is present for the chosen backend and a given provider is valid |
| CommandFlags.CreateAcceptsValidatePlusRepo | internal/commands/create.go:105-134 | `create` accepts exactly the flags `validate` accepts that also name a repository |
| CommandFlags.AsWrittenCreateRejectsGitBackend | internal/commands/create.go:45-50 | As written, `create` without a provider always reports missing email and origin, so the git backend cannot be reached |
| CommandFlags.CorrectedCreateReachesGitBackend | internal/commands/create.go:42-52 | With the corrected bindings, giving email and origin on top of the other required flags makes `create` accept a run without a provider |
| CommandFlags.GitBackendFlagsAccepted | internal/commands/create.go:105-134 | All required fields present and no provider is an accepted `create` |
| CommandFlags.CheckLegacyFlags | cmd/validate.go:99-121 | First generation: username, password, repo, changelog and hash are each reported exactly when empty, and the provider error exactly when invalid (empty included), in that order |
| CommandFlags.LegacyAccepts | cmd/create.go:100-122 | The first generation accepts exactly when all five fields are present and the provider is valid |
| Commands.BackendFor | internal/commands/create.go:142-163 | Dispatch is on the lowercased provider, and anything that is not a valid provider, empty included, goes to the local git backend |
| Commands.PropertiesFor | internal/commands/create.go:136-163 | Every backend gets the password, the trimmed tag and the hash. GitLab gets no username, and Bitbucket gets no change notes. The HTTP backends get the repository and host |
| Commands.StateFor | internal/commands/validate.go:148-165 | The selected adapter's lookup state is consistent, and for HTTP backends it is the status mapping on that backend's commit field |
| Commands.ValidateProviderTag | internal/commands/validate.go:141-168 | A git backend whose repository does not open gives no verdict. Otherwise the tag may be created exactly when it is absent or already at the hash |
| Commands.ValidateLocalGit | internal/commands/validate.go:159-166 | For the git backend with a healthy repository, the verdict is "not stored or stored at the hash" |
| Commands.CreateProviderTag | internal/commands/create.go:136-165 | HTTP backends follow the current create discipline and push nothing. The git backend makes no HTTP writes, does nothing and fails when the repository does not open, does nothing and succeeds when the tag is in place, and pushes only the tag's refspec and only when the tag was absent |
| Commands.ValidateCommand | internal/commands/validate.go:55-108 | Flag errors or an unreadable changelog give a usage error. The backend is called exactly when the ordering check passes, with the trimmed tag and empty notes. Success means the tag may be created, and then the command's own output is the tag and a newline; on failure it prints nothing itself. Nothing is written |
| Commands.CreateCommand | internal/commands/create.go:55-103 | As `validate`, but the change notes go to the backend and the remote writes are those of `createProviderTag`. A failed ordering check writes nothing |
| Commands.FirstReleaseReachesBackend | internal/commands/validate.go:74-85 | With at most one heading and accepted flags, `validate` always reaches the backend |
| Commands.CreateRerunWritesNothing | internal/commands/create.go:74-100 | Re-running `create` after the tag reached an HTTP remote succeeds, prints the tag and writes nothing |
| Commands.ValidateAgreesWithCreate | internal/commands/validate.go:74-108 | For accepted flags on an HTTP backend, `validate` and `create` reach the backend in the same cases, and both succeed when the tag is already at the hash |
| Cli.ValidateProviderTag | cmd/validate.go:123-155 | An unknown provider is never valid. For the three providers the tag may be created exactly on 404, or on 200 at the hash |
| Cli.CreateProviderTag | cmd/create.go:124-157 | An unknown provider writes nothing and fails. For the three providers the create request goes out, first, whenever validation passes, and nothing is written when it fails |
| Cli.ValidateCommand | cmd/validate.go:51-97 | First-generation `validate` has the same gating as the current one. The command's own output is the tag without a newline on success and nothing otherwise |
| Cli.CreateCommand | cmd/create.go:51-98 | First-generation `create`: the notes reach GitHub and GitLab but not Bitbucket, and the writes are the adapter's |
| Cli.AdmittedFlagsSelectProvider | cmd/create.go:100-157 | Flags that pass the first generation's checks always select one of the three providers, so the fallback branch is unreachable |
| Cli.RerunPostsAgain | cmd/create.go:124-157 | Re-running first-generation `create` when the tag is already at the hash sends the create request again |

## Left out

- HTTP transport, headers, basic auth, `PRIVATE-TOKEN` and JSON
  encoding/decoding are outside the model: each reply is a decoded input.
  `url.QueryEscape` is an `Escaped` URL piece whose encoding is not modelled.
- A nil request or response in a create path, reading `Errors[0]` from an empty
  list, and a Bitbucket server repository without `/` all crash in the
  program. They are preconditions (`CreateDefined`, `ErrorsReadable`,
  `Addressable`) and are not modelled as outcomes.
- go-version parse failures are ignored before `GreaterThan`, which then
  dereferences nil. Here they are the precondition
  `Changelog.OrderingDefined`.
- Versions with pre-release or build-metadata parts are not modelled.
  Only dot-separated natural numbers are, with missing segments read as
  zero.
- go-git plumbing (in-memory clone, remote setup, fetch, tag-object
  decoding, SSH key loading, push transport) is not modelled.
  `InitializeRepository` is one boolean, `opens`. The repository is a tag
  store whose entries are annotated tags. Lightweight tags, on which
  `TagObject` fails, are not modelled.
- The package-level repository handle of the git adapter is the explicit
  `repository` field of `Commands.World`.
- Reading the changelog file is an `Option<string>` input.
- bufio.Scanner's 64 KiB line limit is not modelled.
- Everything written to standard error is left out: the messages, the
  joined usage text and the panics on a failed write. Of standard output
  only the command's own final write of the tag is modelled, as
  `Commands.Run.printed`, together with the exit status.
- Commands.ValidateCommand: `printed` is only the command's own write. The
  adapters' `fmt.Println` diagnostics also reach standard output (for
  example `Error validate tag request` when the GitHub lookup gets no
  response, or `Error Fetching repository` from the git adapter) and are
  not modelled.
- Commands.CreateCommand: `printed` is only the command's own write. The
  adapters' `fmt.Println` diagnostics and go-git's push progress
  (`Progress: os.Stdout`) also reach standard output and are not modelled.
- Cli.ValidateCommand: `printed` is only the command's own write. The
  first-generation adapters' `fmt.Println` diagnostics (for example on a
  200 lookup whose body is not JSON) also reach standard output and are
  not modelled. The member also requires a lookup reply for every provider
  once the ordering check passes, because the first-generation adapters
  read it without a nil check.
- Cli.CreateCommand: `printed` is only the command's own write. The
  first-generation adapters' `fmt.Println` diagnostics also reach
  standard output and are not modelled.
- `Name`, `Synopsis`, `Usage`, subcommand registration, `release.go` and
  `internal/commands/version.go` are CLI boilerplate.
- `changelog/changelog.go` sits at the import path that `cmd/*.go` use,
  but the file at that path declares neither the `Properties` record nor
  `GetVersions`, `ValidateVersionSemantics` or `ConvertToDesiredTag`,
  which `cmd/*.go` call; it compares versions as floats. The first
  generation is therefore modelled with the `internal/changelog`
  behaviour, and `changelog/changelog.go` is not part of this model.
- `create/create.go` and `validate/validate.go` are stubs that always
  succeed, and are not part of this model.
- `interfaces/tag.go`, `internal/tag/tag.go` and `tagging/common.go` only
  declare record types. Their shapes are `Protocol.RepoProperties` and
  `Protocol.ValidTagState`.
- The git adapter's `SSH` key path has no flag in either command, so
  `Commands.GitPropertiesFor` always passes the empty path.
  `Git.GetAuth` models both paths.
- Text.ToLower: lowercases ASCII letters, U+0130 and the Kelvin sign
  U+212A, and leaves every other character unchanged. These are the only
  characters whose Unicode lowercase is an ASCII letter, so equality with
  a provider name is decided exactly. Lowercasing of other scripts is not
  modelled.
- Text.Join: the contract only pins the empty and one-element cases. The
  general case is stated through `Versions.JoinSplit` and
  `Changelog.LinesOfJoin`.
- Commands.CreateProviderTag: for the git backend, the exact success
  condition is stated by `Git.CreateTag`, not restated here.

## Findings

| source | as written | input that shows it | evidently intended | confidence | as-written member | corrected member |
|---|---|---|---|---|---|---|
| tagging/gitlab.go:152 | The tag step's 400 is treated as "already exists" only when the message is `GitlabTag <tag> already exists` | Tag `1.0.0` already on GitLab: GitLab replies 400 `Tag 1.0.0 already exists` (the text `gitlab/tags.go:147` expects), and the adapter fails after posting | Fold GitLab's actual `Tag <tag> already exists` reply into success, as `gitlab/tags.go` does | medium, not executed | TaggingGitLab.AsWrittenMissesGitLabReply | TaggingGitLab.CorrectedAgreesWithFirstAdapter |
| internal/commands/create.go:45-50 | `-email` is bound to the password field and `-origin` to the host field, so email and origin are never set | `release create -username u -password p -repo r -changelog c -hash h -email e -origin o` with no provider: the usage check reports `-email required` and `-origin required` | Bind `-email` to the email and `-origin` to the origin, as `internal/commands/validate.go` does, so the git backend is reachable | high, not executed | CommandFlags.AsWrittenCreateRejectsGitBackend | CommandFlags.CorrectedCreateReachesGitBackend |
