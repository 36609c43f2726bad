/** The direct git adapter: tags looked up in a fetched copy of the
    repository, created locally as annotated tags and pushed to the origin.
    The repository handle is an explicit value; the go-git operations that
    can fail are boolean inputs. */
module Git {
  import opened Text
  import opened Protocol

  /** The git backend's properties beyond the shared ones. */
  datatype GitProperties = GitProperties(common: RepoProperties, email: string, origin: string, sshKey: string)

  /** The fetched repository: annotated tags by name with their target
      commit, and a storage fault that makes every lookup fail, if any. */
  datatype Repository = Repository(tags: map<string, string>, fault: Option<string>)

  /** An annotated tag as created: name, target, tagger and message. */
  datatype AnnotatedTag = AnnotatedTag(name: string, target: string, taggerName: string, taggerEmail: string, message: string)

  /** The credentials used for the push. */
  datatype Auth =
    | PublicKeys(user: string, keyFile: string, passphrase: string)
    | BasicAuth(user: string, password: string)

  /** Result of a tag lookup. */
  datatype Lookup = Found(target: string) | LookupError(message: string)

  const TagNotFound := "tag not found"

  /** The library's tag lookup: a storage fault wins, a stored tag is found,
      anything else is the "tag not found" error. */
  function LookupTag(r: Repository, name: string): (l: Lookup)
    ensures r.fault.Some? ==> l == LookupError(r.fault.value)
    ensures r.fault.None? ==> (l.Found? <==> name in r.tags)
    ensures l.Found? ==> name in r.tags && l.target == r.tags[name]
  {
    if r.fault.Some? then LookupError(r.fault.value)
    else if name in r.tags then Found(r.tags[name])
    else LookupError(TagNotFound)
  }

  /** `ValidateTag`: the "tag not found" error means absent, any other error
      means neither flag, a found tag is compared with the hash. */
  function ValidateTag(g: GitProperties, r: Repository): (s: ValidTagState)
    ensures Consistent(s)
    ensures s.tagDoesntExist <==> LookupTag(r, g.common.tag) == LookupError(TagNotFound)
    ensures s.tagExistsWithProvidedHash <==> LookupTag(r, g.common.tag) == Found(g.common.hash)
  {
    match LookupTag(r, g.common.tag)
    case LookupError(m) => ValidTagState(m == TagNotFound, false)
    case Found(t) => ValidTagState(false, t == g.common.hash)
  }

  /** Without a storage fault the state is read straight off the tag map. */
  lemma ValidateHealthyRepository(g: GitProperties, r: Repository)
    requires r.fault.None?
    ensures ValidateTag(g, r).tagDoesntExist <==> g.common.tag !in r.tags
    ensures ValidateTag(g, r).tagExistsWithProvidedHash <==>
      g.common.tag in r.tags && r.tags[g.common.tag] == g.common.hash
  {
  }

  /** `getAuth`: a key file selects SSH public keys, under the user name `git`
      when none is given and with the password as passphrase, and fails when
      the key does not load; without a key file, basic auth with the user
      name and password unchanged. */
  function GetAuth(keyFile: string, username: string, password: string, keyLoads: bool): (a: Option<Auth>)
    ensures keyFile == "" ==> a == Some(BasicAuth(username, password))
    ensures keyFile != "" ==> (a.Some? <==> keyLoads)
    ensures keyFile != "" && a.Some? ==>
      a.value.PublicKeys? && a.value.keyFile == keyFile && a.value.passphrase == password
      && (username != "" ==> a.value.user == username)
      && (username == "" ==> a.value.user == "git")
  {
    if |keyFile| > 0 then
      var user := if username == "" then "git" else username;
      if keyLoads then Some(PublicKeys(user, keyFile, password)) else None
    else Some(BasicAuth(username, password))
  }

  predicate IsHexDigit(c: char) {
    '0' <= c <= '9' || 'a' <= c <= 'f' || 'A' <= c <= 'F'
  }

  predicate IsLowerHexDigit(c: char) {
    '0' <= c <= '9' || 'a' <= c <= 'f'
  }

  /** Number of hex digits in a commit hash as go-git prints it. */
  const HashLength := 40

  /** A hash as `Hash.String` renders it: 40 lowercase hex digits. */
  predicate IsCanonicalHash(h: string) {
    |h| == HashLength && forall i :: 0 <= i < |h| ==> IsLowerHexDigit(h[i])
  }

  /** What `hex.DecodeString` decodes before its first bad pair (an invalid
      digit, or a lone trailing digit), rendered back as lowercase hex. */
  function HexPairs(s: string): (p: string)
    ensures |p| % 2 == 0 && |p| <= |s|
    ensures forall i :: 0 <= i < |p| ==> IsLowerHexDigit(p[i]) && LowerChar(s[i]) == p[i]
    decreases |s|
  {
    if |s| >= 2 && IsHexDigit(s[0]) && IsHexDigit(s[1]) then
      var rest := HexPairs(s[2..]);
      [LowerChar(s[0]), LowerChar(s[1])] + rest
    else []
  }

  /** `plumbing.NewHash(s).String()`: the decoded bytes are copied into a
      20-byte hash, cut when longer and zero-filled when shorter, and the
      hash prints as lowercase hex. */
  function NewHashString(s: string): (h: string)
    ensures IsCanonicalHash(h)
    ensures var p := HexPairs(s);
      && (|p| >= HashLength ==> h == p[..HashLength])
      && (|p| < HashLength ==> h[..|p|] == p && forall i :: |p| <= i < HashLength ==> h[i] == '0')
  {
    var p := HexPairs(s);
    if |p| >= HashLength then p[..HashLength] else p + seq(HashLength - |p|, _ => '0')
  }

  /** Hex digits already in lowercase decode and print back unchanged. */
  lemma {:induction false} HexPairsOfLowerHex(s: string)
    requires |s| % 2 == 0
    requires forall i :: 0 <= i < |s| ==> IsLowerHexDigit(s[i])
    ensures HexPairs(s) == s
    decreases |s|
  {
    if s != [] {
      HexPairsOfLowerHex(s[2..]);
      assert s == [s[0], s[1]] + s[2..];
    }
  }

  /** A hash stores and prints back as given exactly when it is canonical. */
  lemma NewHashKeepsExactlyCanonical(s: string)
    ensures NewHashString(s) == s <==> IsCanonicalHash(s)
  {
    if IsCanonicalHash(s) {
      HexPairsOfLowerHex(s);
    }
  }

  /** The full reference name of a tag. */
  function TagRef(tag: string): string {
    "refs/tags/" + tag
  }

  /** The push refspec: the tag's reference onto the same reference. */
  function Refspec(tag: string): (spec: string)
    ensures spec == TagRef(tag) + ":" + TagRef(tag)
    ensures |spec| == 2 * |tag| + 21
  {
    "refs/tags/" + tag + ":refs/tags/" + tag
  }

  /** What a git create did: its result, the local repository afterwards,
      the annotated tag it made and the refspecs it pushed. */
  datatype GitOutcome = GitOutcome(success: bool, local: Repository, created: Option<AnnotatedTag>, pushed: seq<string>)

  /** `CreateTag`, with the outcomes of the local tag creation, of loading the
      SSH key and of the push as inputs: succeeds untouched when the tag is
      in place; when it is absent, creates the annotated tag at the hash as
      `plumbing.NewHash` reads it, builds the credentials and pushes, and the
      first failing step ends the call with false; fails untouched
      otherwise. */
  function CreateTag(g: GitProperties, r: Repository, createOk: bool, keyLoads: bool, pushOk: bool): (o: GitOutcome)
    ensures var s := ValidateTag(g, r);
      && (s.tagExistsWithProvidedHash ==> o == GitOutcome(true, r, None, []))
      && (!s.tagDoesntExist && !s.tagExistsWithProvidedHash ==> o == GitOutcome(false, r, None, []))
    ensures ValidateTag(g, r).tagDoesntExist ==>
      var auth := GetAuth(g.sshKey, g.common.username, g.common.password, keyLoads);
      && (o.success <==> createOk && auth.Some? && pushOk)
      && (o.pushed == if createOk && auth.Some? then [Refspec(g.common.tag)] else [])
      && (createOk ==> o.created == Some(AnnotatedTag(g.common.tag, NewHashString(g.common.hash), g.common.username, g.email, g.common.body)))
      && (createOk ==> o.local == r.(tags := r.tags[g.common.tag := NewHashString(g.common.hash)]))
      && (!createOk ==> o.local == r && o.created.None?)
  {
    var s := ValidateTag(g, r);
    if s.tagExistsWithProvidedHash then GitOutcome(true, r, None, [])
    else if s.tagDoesntExist then
      if !createOk then GitOutcome(false, r, None, [])
      else
        var target := NewHashString(g.common.hash);
        var t := AnnotatedTag(g.common.tag, target, g.common.username, g.email, g.common.body);
        var local := r.(tags := r.tags[g.common.tag := target]);
        match GetAuth(g.sshKey, g.common.username, g.common.password, keyLoads)
        case None => GitOutcome(false, local, Some(t), [])
        case Some(_) => GitOutcome(pushOk, local, Some(t), [Refspec(g.common.tag)])
    else GitOutcome(false, r, None, [])
  }

  /** Once the tag has been created locally in a healthy repository, running
      the create again on that same repository value (not on a fresh fetch
      of the origin, which after a failed key load or push would not hold
      the tag) succeeds without creating or pushing anything when the hash
      was given canonically; any other
      spelling (uppercase digits, a short hash) is stored in canonical form,
      no longer compares equal, and the rerun fails untouched. */
  lemma CreateThenRerun(g: GitProperties, r: Repository, createOk: bool, keyLoads: bool, pushOk: bool,
                        createOk': bool, keyLoads': bool, pushOk': bool)
    requires r.fault.None?
    requires ValidateTag(g, r).tagDoesntExist && createOk
    ensures var o := CreateTag(g, r, createOk, keyLoads, pushOk);
      IsCanonicalHash(g.common.hash) ==>
        CreateTag(g, o.local, createOk', keyLoads', pushOk') == GitOutcome(true, o.local, None, [])
    ensures var o := CreateTag(g, r, createOk, keyLoads, pushOk);
      !IsCanonicalHash(g.common.hash) ==>
        CreateTag(g, o.local, createOk', keyLoads', pushOk') == GitOutcome(false, o.local, None, [])
  {
    var o := CreateTag(g, r, createOk, keyLoads, pushOk);
    NewHashKeepsExactlyCanonical(g.common.hash);
    assert LookupTag(o.local, g.common.tag) == Found(NewHashString(g.common.hash));
  }

  /** A full-length hash in any mix of cases is stored as its lowercase. */
  lemma NewHashOfFullHash(s: string)
    requires |s| == HashLength
    requires forall i :: 0 <= i < |s| ==> IsHexDigit(s[i])
    ensures NewHashString(s) == ToLower(s)
  {
    HexPairsOfHex(s);
  }

  /** An even run of hex digits decodes in full. */
  lemma {:induction false} HexPairsOfHex(s: string)
    requires |s| % 2 == 0
    requires forall i :: 0 <= i < |s| ==> IsHexDigit(s[i])
    ensures |HexPairs(s)| == |s|
    decreases |s|
  {
    if s != [] {
      HexPairsOfHex(s[2..]);
    }
  }

}
