/** The command line scope sent as HTTP headers, and parsed back by the daemon. */
module ScopeHeaders {
  import opened Options
  import opened Text
  import opened Utf8
  import opened Base64Url

  /** The ten distinct header names. */
  datatype Header =
    | RepoId | RepoName | RepoProvider | RepoOrganisation | RepoIdentity
    | RepoRoot | Branch | ProjectPath | GitDirRelativePath | ConfigFingerprint

  type Headers = map<Header, string>

  datatype Scope = Scope(
    repoId: string, name: string, provider: string, organization: string, identity: string,
    repoRoot: string, branch: string, projectPath: Option<string>, gitDir: string, fingerprint: string)

  datatype HeaderError = Unsendable | NotText(name: Header) | NotBase64(name: Header) | NotUtf8(name: Header) | Missing(name: Header)

  // ---- Sending ----

  function EncodeValue(v: string): string {
    EncodeBytes(Encode(v))
  }

  /** A header value may hold anything but control characters, tabs excepted. */
  predicate SendableChar(c: char) {
    c == '\t' || (c >= ' ' && c != '\U{7F}')
  }

  predicate Sendable(v: string) {
    forall i :: 0 <= i < |v| ==> SendableChar(v[i])
  }

  function AttachScope(s: Scope): Result<Headers, HeaderError> {
    if !Sendable(s.repoId) || !Sendable(s.provider) || !Sendable(s.fingerprint) then Err(Unsendable)
    else
      var headers := map[
        RepoId := s.repoId,
        RepoName := EncodeValue(s.name),
        RepoProvider := s.provider,
        RepoOrganisation := EncodeValue(s.organization),
        RepoIdentity := EncodeValue(s.identity),
        RepoRoot := EncodeValue(s.repoRoot),
        Branch := EncodeValue(s.branch),
        ConfigFingerprint := s.fingerprint,
        GitDirRelativePath := EncodeValue(s.gitDir)];
      match s.projectPath
      case None => Ok(headers)
      case Some(path) => Ok(headers[ProjectPath := EncodeValue(path)])
  }

  // ---- Parsing ----

  /** Only visible ASCII, spaces and tabs can be read as text. */
  predicate Readable(v: string) {
    forall i :: 0 <= i < |v| ==> v[i] == '\t' || ' ' <= v[i] < '\U{7F}'
  }

  function HeaderValue(h: Headers, name: Header): Result<Option<string>, HeaderError> {
    if name !in h then Ok(None)
    else if !Readable(h[name]) then Err(NotText(name))
    else if Trim(h[name]) == [] then Ok(None)
    else Ok(Some(Trim(h[name])))
  }

  function DecodedHeaderValue(h: Headers, name: Header): Result<Option<string>, HeaderError> {
    var value :- HeaderValue(h, name);
    match value
    case None => Ok(None)
    case Some(text) =>
      match DecodeBytes(text)
      case None => Err(NotBase64(name))
      case Some(bytes) =>
        match Decode(bytes)
        case None => Err(NotUtf8(name))
        case Some(decoded) => Ok(if decoded == [] then None else Some(decoded))
  }

  type Reading = Result<Option<string>, HeaderError>

  function Required(name: Header, reading: Reading): Result<string, HeaderError> {
    var value :- reading;
    if value.None? then Err(Missing(name)) else Ok(value.value)
  }

  datatype Repo = Repo(repoId: string, name: string, provider: string, organization: string, identity: string)

  function AssembleRepo(repoId: Reading, name: Reading, provider: Reading, organization: Reading, identity: Reading)
    : Result<Repo, HeaderError>
  {
    var repoId' :- Required(RepoId, repoId);
    var name' :- Required(RepoName, name);
    var provider' :- Required(RepoProvider, provider);
    var organization' :- Required(RepoOrganisation, organization);
    var identity' :- Required(RepoIdentity, identity);
    Ok(Repo(repoId', name', provider', organization', identity'))
  }

  function AssembleRest(repo: Repo, repoRoot: string, branch: Reading, projectPath: Reading, gitDir: Reading, fingerprint: Reading)
    : Result<Option<Scope>, HeaderError>
  {
    var branch' :- Required(Branch, branch);
    var projectPath' :- projectPath;
    var gitDir' :- Required(GitDirRelativePath, gitDir);
    var fingerprint' :- Required(ConfigFingerprint, fingerprint);
    Ok(Some(Scope(repo.repoId, repo.name, repo.provider, repo.organization, repo.identity,
                  repoRoot, branch', projectPath', gitDir', fingerprint')))
  }

  /** The parsed scope when every header has been read; the order of the checks is the program's. */
  function Assemble(root: Reading, repoId: Reading, name: Reading, provider: Reading, organization: Reading,
                    identity: Reading, branch: Reading, projectPath: Reading, gitDir: Reading, fingerprint: Reading)
    : Result<Option<Scope>, HeaderError>
  {
    var root' :- root;
    match root'
    case None => Ok(None)
    case Some(repoRoot) =>
      var repo :- AssembleRepo(repoId, name, provider, organization, identity);
      AssembleRest(repo, repoRoot, branch, projectPath, gitDir, fingerprint)
  }

  /** No scope when there is no repository root. */
  function ParseScope(h: Headers): Result<Option<Scope>, HeaderError> {
    Assemble(DecodedHeaderValue(h, RepoRoot), HeaderValue(h, RepoId), DecodedHeaderValue(h, RepoName),
             HeaderValue(h, RepoProvider), DecodedHeaderValue(h, RepoOrganisation),
             DecodedHeaderValue(h, RepoIdentity), DecodedHeaderValue(h, Branch), DecodedHeaderValue(h, ProjectPath),
             DecodedHeaderValue(h, GitDirRelativePath), HeaderValue(h, ConfigFingerprint))
  }

  // ---- What any headers are read as ----

  /** Visible ASCII, spaces and tabs. */
  predicate Visible(v: string) {
    forall c :: c in v ==> c == '\t' || ' ' <= c <= '~'
  }

  lemma ReadableIff(v: string)
    ensures Readable(v) <==> Visible(v)
  {
    if !Readable(v) {
      var i :| 0 <= i < |v| && !(v[i] == '\t' || ' ' <= v[i] < '\U{7F}');
      assert v[i] in v;
    }
  }

  /** A raw field is an error exactly when it is there and not visible, absent exactly when it is not
      there or blank, and otherwise read as what stands between the whitespace at its ends. */
  lemma RawReads(h: Headers, name: Header)
    ensures HeaderValue(h, name) ==
            if name !in h then Ok(None)
            else if !Visible(h[name]) then Err(NotText(name))
            else if AllWhitespace(h[name]) then Ok(None)
            else Ok(Some(Trim(h[name])))
    ensures HeaderValue(h, name).Ok? && HeaderValue(h, name).value.Some? ==>
              var text := HeaderValue(h, name).value.value;
              text != [] && IsTrimmed(text)
              && exists before, after :: AllWhitespace(before) && AllWhitespace(after) && h[name] == before + text + after
  {
    if name in h {
      var v := h[name];
      ReadableIff(v);
      var before, after := TrimDrops(v);
      TrimIsTrimmed(v);
      TrimIsEmptyIff(v);
      assert v == before + Trim(v) + after;
    }
  }

  /** An encoded field is read as `text` exactly when its raw reading is the encoding of `text`, which is
      not empty; it is absent exactly when the raw one is; and it is an error when the raw one is, when
      it encodes no bytes, or when they are not UTF-8. */
  lemma EncodedReads(h: Headers, name: Header, text: string, bytes: seq<Byte>)
    ensures DecodedHeaderValue(h, name) == Ok(Some(text)) <==>
            text != [] && HeaderValue(h, name) == Ok(Some(EncodeValue(text)))
    ensures DecodedHeaderValue(h, name) == Ok(None) <==> HeaderValue(h, name) == Ok(None)
    ensures HeaderValue(h, name).Err? ==> DecodedHeaderValue(h, name) == Err(HeaderValue(h, name).error)
    ensures HeaderValue(h, name) == Ok(Some(EncodeBytes(bytes))) && Decode(bytes).None? ==>
              DecodedHeaderValue(h, name) == Err(NotUtf8(name))
    ensures HeaderValue(h, name).Ok? && HeaderValue(h, name).value.Some? ==>
              (DecodedHeaderValue(h, name) == Err(NotBase64(name)) <==> DecodeBytes(HeaderValue(h, name).value.value).None?)
  {
    RawReads(h, name);
    DecodeEncodedBytes(bytes);
    DecodeEncodedBytes(Encode(text));
    DecodeEncoded(text);
    if HeaderValue(h, name).Ok? && HeaderValue(h, name).value.Some? {
      var raw := HeaderValue(h, name).value.value;
      EncodeDecodedBytes(raw);
      if DecodeBytes(raw).Some? {
        var read := DecodeBytes(raw).value;
        EncodedIsVisible(read);
        EncodeDecoded(read);
      }
    }
  }

  /** What is wrong with a reading, if anything; a required field may not be absent. */
  function Problem(name: Header, reading: Reading): Option<HeaderError> {
    match reading
    case Err(error) => Some(error)
    case Ok(None) => if name == ProjectPath then None else Some(Missing(name))
    case Ok(Some(_)) => None
  }

  function Or(first: Option<HeaderError>, second: Option<HeaderError>): Option<HeaderError> {
    if first.Some? then first else second
  }

  /** The readings make a scope exactly when there is a repository root and every field is read as its own. */
  lemma AssembledFrom(root: Reading, repoId: Reading, name: Reading, provider: Reading, organization: Reading,
                      identity: Reading, branch: Reading, projectPath: Reading, gitDir: Reading, fingerprint: Reading, s: Scope)
    ensures var scope := Assemble(root, repoId, name, provider, organization, identity, branch, projectPath, gitDir, fingerprint);
            scope == Ok(Some(s)) <==>
            && root == Ok(Some(s.repoRoot)) && repoId == Ok(Some(s.repoId)) && name == Ok(Some(s.name))
            && provider == Ok(Some(s.provider)) && organization == Ok(Some(s.organization))
            && identity == Ok(Some(s.identity)) && branch == Ok(Some(s.branch)) && projectPath == Ok(s.projectPath)
            && gitDir == Ok(Some(s.gitDir)) && fingerprint == Ok(Some(s.fingerprint))
  {
  }

  lemma FirstRepoProblem(repoId: Reading, name: Reading, provider: Reading, organization: Reading, identity: Reading)
    ensures var problem := Or(Problem(RepoId, repoId), Or(Problem(RepoName, name), Or(Problem(RepoProvider, provider),
              Or(Problem(RepoOrganisation, organization), Problem(RepoIdentity, identity)))));
            var repo := AssembleRepo(repoId, name, provider, organization, identity);
            if problem.Some? then repo == Err(problem.value) else repo.Ok?
  {
  }

  lemma FirstRestProblem(repo: Repo, repoRoot: string, branch: Reading, projectPath: Reading, gitDir: Reading, fingerprint: Reading)
    ensures var problem := Or(Problem(Branch, branch), Or(Problem(ProjectPath, projectPath),
              Or(Problem(GitDirRelativePath, gitDir), Problem(ConfigFingerprint, fingerprint))));
            var scope := AssembleRest(repo, repoRoot, branch, projectPath, gitDir, fingerprint);
            if problem.Some? then scope == Err(problem.value) else scope.Ok? && scope.value.Some?
  {
  }

  /** Without a repository root there is no scope, and otherwise the first problem in the order of
      reading is the error, if there is one. */
  lemma FirstProblemDecides(root: Reading, repoId: Reading, name: Reading, provider: Reading, organization: Reading,
                            identity: Reading, branch: Reading, projectPath: Reading, gitDir: Reading, fingerprint: Reading)
    ensures var scope := Assemble(root, repoId, name, provider, organization, identity, branch, projectPath, gitDir, fingerprint);
            var inRepo := Or(Problem(RepoId, repoId), Or(Problem(RepoName, name), Or(Problem(RepoProvider, provider),
              Or(Problem(RepoOrganisation, organization), Problem(RepoIdentity, identity)))));
            var inRest := Or(Problem(Branch, branch), Or(Problem(ProjectPath, projectPath),
              Or(Problem(GitDirRelativePath, gitDir), Problem(ConfigFingerprint, fingerprint))));
            if root.Err? then scope == Err(root.error)
            else if root.value.None? then scope == Ok(None)
            else if inRepo.Some? then scope == Err(inRepo.value)
            else if inRest.Some? then scope == Err(inRest.value)
            else scope.Ok? && scope.value.Some?
  {
    if root.Ok? && root.value.Some? {
      FirstRepoProblem(repoId, name, provider, organization, identity);
      var repo := AssembleRepo(repoId, name, provider, organization, identity);
      if repo.Ok? {
        FirstRestProblem(repo.value, root.value.value, branch, projectPath, gitDir, fingerprint);
      }
    }
  }

  /** The headers are read as a scope exactly when every field is read as its own. */
  lemma ScopeReadIff(h: Headers, s: Scope)
    ensures ParseScope(h) == Ok(Some(s)) <==>
            && DecodedHeaderValue(h, RepoRoot) == Ok(Some(s.repoRoot)) && HeaderValue(h, RepoId) == Ok(Some(s.repoId))
            && DecodedHeaderValue(h, RepoName) == Ok(Some(s.name)) && HeaderValue(h, RepoProvider) == Ok(Some(s.provider))
            && DecodedHeaderValue(h, RepoOrganisation) == Ok(Some(s.organization))
            && DecodedHeaderValue(h, RepoIdentity) == Ok(Some(s.identity)) && DecodedHeaderValue(h, Branch) == Ok(Some(s.branch))
            && DecodedHeaderValue(h, ProjectPath) == Ok(s.projectPath)
            && DecodedHeaderValue(h, GitDirRelativePath) == Ok(Some(s.gitDir))
            && HeaderValue(h, ConfigFingerprint) == Ok(Some(s.fingerprint))
  {
    AssembledFrom(DecodedHeaderValue(h, RepoRoot), HeaderValue(h, RepoId), DecodedHeaderValue(h, RepoName),
                  HeaderValue(h, RepoProvider), DecodedHeaderValue(h, RepoOrganisation), DecodedHeaderValue(h, RepoIdentity),
                  DecodedHeaderValue(h, Branch), DecodedHeaderValue(h, ProjectPath),
                  DecodedHeaderValue(h, GitDirRelativePath), HeaderValue(h, ConfigFingerprint), s);
  }

  // ---- The round trip ----

  /** A value sent as it is arrives unchanged only if it is trimmed, visible text. */
  predicate ValidRaw(v: string) {
    v != [] && IsTrimmed(v) && Visible(v)
  }

  predicate ValidScope(s: Scope) {
    && ValidRaw(s.repoId) && ValidRaw(s.provider) && ValidRaw(s.fingerprint)
    && s.name != [] && s.organization != [] && s.identity != []
    && s.repoRoot != [] && s.branch != [] && s.gitDir != []
    && s.projectPath != Some([])
  }

  lemma RawArrives(h: Headers, name: Header)
    requires name in h
    ensures HeaderValue(h, name) == Ok(Some(h[name])) <==> ValidRaw(h[name])
  {
    TrimIsTrimmed(h[name]);
    ReadableIff(h[name]);
  }

  /** An encoded value arrives unchanged, whatever it holds; an empty one arrives as absent. */
  lemma EncodedArrives(h: Headers, name: Header, v: string)
    requires name in h && h[name] == EncodeValue(v)
    ensures DecodedHeaderValue(h, name) == Ok(if v == [] then None else Some(v))
  {
    var text := EncodeValue(v);
    EncodedIsVisible(Encode(v));
    TrimIsTrimmed(text);
    DecodeEncodedBytes(Encode(v));
    DecodeEncoded(v);
    if v != [] {
      assert |EncodeChar(v[0])| > 0;
    }
  }

  /** A control character other than a tab. */
  ghost predicate HasControl(v: string) {
    exists c :: c in v && (c < '\U{20}' || c == '\U{7F}') && c != '\t'
  }

  lemma SendableIff(v: string)
    ensures Sendable(v) <==> !HasControl(v)
  {
    if !Sendable(v) {
      var i :| 0 <= i < |v| && !SendableChar(v[i]);
      assert v[i] in v;
    }
  }

  /** Sending fails exactly when a value sent as it is holds such a character. */
  lemma UnsendableIff(s: Scope)
    ensures AttachScope(s).Err? <==> HasControl(s.repoId) || HasControl(s.provider) || HasControl(s.fingerprint)
  {
    SendableIff(s.repoId);
    SendableIff(s.provider);
    SendableIff(s.fingerprint);
  }

  /** What is sent, header by header. */
  lemma HeadersSent(s: Scope)
    requires AttachScope(s).Ok?
    ensures var h := AttachScope(s).value;
            && h.Keys >= {RepoId, RepoName, RepoProvider, RepoOrganisation, RepoIdentity, RepoRoot, Branch,
                          ConfigFingerprint, GitDirRelativePath}
            && h[RepoId] == s.repoId && h[RepoProvider] == s.provider && h[ConfigFingerprint] == s.fingerprint
            && h[RepoName] == EncodeValue(s.name) && h[RepoOrganisation] == EncodeValue(s.organization)
            && h[RepoIdentity] == EncodeValue(s.identity) && h[RepoRoot] == EncodeValue(s.repoRoot)
            && h[Branch] == EncodeValue(s.branch) && h[GitDirRelativePath] == EncodeValue(s.gitDir)
            && (ProjectPath in h <==> s.projectPath.Some?)
            && (ProjectPath in h ==> h[ProjectPath] == EncodeValue(s.projectPath.value))
  {
  }

  function Present(v: string): Reading {
    Ok(if v == [] then None else Some(v))
  }

  /** Encoded fields arrive as they are, so only empty ones and unclean raw ones are lost. */
  lemma AssembledIff(s: Scope, repoId: Reading, provider: Reading, fingerprint: Reading)
    ensures Assemble(Present(s.repoRoot), repoId, Present(s.name), provider, Present(s.organization),
                     Present(s.identity), Present(s.branch), Ok(if s.projectPath == Some([]) then None else s.projectPath),
                     Present(s.gitDir), fingerprint) == Ok(Some(s))
            <==>
            && repoId == Ok(Some(s.repoId)) && provider == Ok(Some(s.provider)) && fingerprint == Ok(Some(s.fingerprint))
            && s.name != [] && s.organization != [] && s.identity != []
            && s.repoRoot != [] && s.branch != [] && s.gitDir != [] && s.projectPath != Some([])
  {
  }

  lemma FieldsArrive(s: Scope, h: Headers)
    requires AttachScope(s) == Ok(h)
    ensures ParseScope(h) ==
            Assemble(Present(s.repoRoot), HeaderValue(h, RepoId), Present(s.name), HeaderValue(h, RepoProvider),
                     Present(s.organization), Present(s.identity), Present(s.branch),
                     Ok(if s.projectPath == Some([]) then None else s.projectPath),
                     Present(s.gitDir), HeaderValue(h, ConfigFingerprint))
  {
    HeadersSent(s);
    EncodedArrives(h, RepoRoot, s.repoRoot);
    EncodedArrives(h, RepoName, s.name);
    EncodedArrives(h, RepoOrganisation, s.organization);
    EncodedArrives(h, RepoIdentity, s.identity);
    EncodedArrives(h, Branch, s.branch);
    EncodedArrives(h, GitDirRelativePath, s.gitDir);
    if s.projectPath.Some? {
      EncodedArrives(h, ProjectPath, s.projectPath.value);
    }
  }

  /** A scope survives being sent as headers and parsed back exactly when it is valid. In particular
      an absent project path stays absent. */
  lemma RoundTripIff(s: Scope)
    ensures AttachScope(s).Ok? && ParseScope(AttachScope(s).value) == Ok(Some(s)) <==> ValidScope(s)
  {
    UnsendableIff(s);
    if AttachScope(s).Ok? {
      var h := AttachScope(s).value;
      HeadersSent(s);
      FieldsArrive(s, h);
      RawArrives(h, RepoId);
      RawArrives(h, RepoProvider);
      RawArrives(h, ConfigFingerprint);
      AssembledIff(s, HeaderValue(h, RepoId), HeaderValue(h, RepoProvider), HeaderValue(h, ConfigFingerprint));
    }
  }
}
