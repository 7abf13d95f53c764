/** Which dashboard bundle a CLI version may use, which one is installed, and what the update check
    reports. Parsing and printing versions and joining URLs belong to libraries and are parameters. */
module BundleVersions {
  import opened Options
  import opened Text
  import opened Sorting
  import opened Versions
  import opened Utf8
  import opened Words
  import Lines

  datatype Entry = Entry(version: string, minCli: string, maxCli: string, downloadUrl: string, checksumUrl: string)

  datatype ResolvedBundle = ResolvedBundle(version: string, downloadUrl: string, checksumUrl: string)

  datatype BundleError =
    | ManifestFetchFailed | ManifestParseFailed | NoCompatibleVersion | BundleDownloadNotFound
    | BundleDownloadFailed | ChecksumMismatch | BundleInstallFailed | Internal

  datatype Library = Library(parse: string -> Option<Version>, render: Version -> string,
                             url: string -> Result<string, BundleError>)

  type Candidate = (Version, ResolvedBundle)

  // ---- Compatibility ----

  predicate EndsWith(s: string, suffix: string) {
    |suffix| <= |s| && s[|s| - |suffix|..] == suffix
  }

  /** `latest`, `major.minor.x`, or an exact version. */
  function MatchesMax(max: string, cli: Version, lib: Library): Result<bool, BundleError> {
    if Lower(max) == "latest" then Ok(true)
    else if EndsWith(max, ".x") then
      var parts := Split(max[..|max| - 2], '.');
      if |parts| != 2 then Err(ManifestParseFailed)
      else match (ParseUnsigned(parts[0], U64_MAX), ParseUnsigned(parts[1], U64_MAX))
        case (Some(major), Some(minor)) =>
          Ok(cli.major < major || (cli.major == major && cli.minor <= minor))
        case _ => Err(ManifestParseFailed)
    else match lib.parse(max)
      case None => Err(ManifestParseFailed)
      case Some(limit) => Ok(CompareVersion(cli, limit) <= 0)
  }

  function IsEntryCompatible(e: Entry, cli: Version, lib: Library): Result<bool, BundleError> {
    match lib.parse(Trim(e.minCli))
    case None => Err(ManifestParseFailed)
    case Some(min) =>
      if CompareVersion(cli, min) < 0 then Ok(false) else MatchesMax(Trim(e.maxCli), cli, lib)
  }

  lemma MinorLineText(left: string, right: string)
    requires AllDigits(left) && left != [] && '.' !in left && '.' !in right
    ensures var max := left + ['.'] + right + ".x";
            EndsWith(max, ".x") && Split(max[..|max| - 2], '.') == [left, right] && Lower(max) != "latest"
  {
    var max := left + ['.'] + right + ".x";
    assert max[|max| - 2..] == ".x" && max[..|max| - 2] == left + ['.'] + right;
    SplitAtSeparator(left, '.', right);
    SplitNoSeparator(right, '.');
    assert max[0] == left[0] && IsDigit(left[0]);
    assert Lower(max)[0] == LowerChar(max[0]) != 'l';
  }

  lemma MinorLine(max: string, left: string, right: string, major: nat, minor: nat, cli: Version, lib: Library)
    requires EndsWith(max, ".x") && Split(max[..|max| - 2], '.') == [left, right] && Lower(max) != "latest"
    requires ParseUnsigned(left, U64_MAX) == Some(major) && ParseUnsigned(right, U64_MAX) == Some(minor)
    ensures MatchesMax(max, cli, lib) == Ok(cli.major < major || (cli.major == major && cli.minor <= minor))
  {
  }

  /** A maximum `major.minor.x` admits every CLI up to that minor line, whatever its patch level,
      pre-release or metadata. */
  lemma MinorLineMaximum(major: nat, minor: nat, cli: Version, lib: Library)
    requires major <= U64_MAX && minor <= U64_MAX
    ensures MatchesMax(PrintNat(major) + ['.'] + PrintNat(minor) + ".x", cli, lib)
            == Ok(cli.major < major || (cli.major == major && cli.minor <= minor))
  {
    var left, right := PrintNat(major), PrintNat(minor);
    assert '.' !in left && '.' !in right;
    ParsePrintedNat(major, U64_MAX);
    ParsePrintedNat(minor, U64_MAX);
    MinorLineText(left, right);
    MinorLine(left + ['.'] + right + ".x", left, right, major, minor, cli, lib);
  }

  /** A maximum `latest`, in any case and with any whitespace around, admits every CLI from the minimum
      on. */
  lemma LatestMaximum(e: Entry, cli: Version, min: Version, lib: Library)
    requires Lower(Trim(e.maxCli)) == "latest" && lib.parse(Trim(e.minCli)) == Some(min)
    ensures IsEntryCompatible(e, cli, lib) == Ok(CompareVersion(cli, min) >= 0)
  {
  }

  /** `major.minor` in two decimal numbers that fit 64 bits. */
  ghost predicate IsMinorLine(s: string) {
    exists left: string, right: string ::
      && s == left + ['.'] + right && '.' !in left && '.' !in right
      && ParseUnsigned(left, U64_MAX).Some? && ParseUnsigned(right, U64_MAX).Some?
  }

  lemma MinorLineIff(s: string)
    ensures IsMinorLine(s) <==>
            |Split(s, '.')| == 2 && ParseUnsigned(Split(s, '.')[0], U64_MAX).Some? && ParseUnsigned(Split(s, '.')[1], U64_MAX).Some?
  {
    if IsMinorLine(s) {
      var left: string, right: string :|
        && s == left + ['.'] + right && '.' !in left && '.' !in right
        && ParseUnsigned(left, U64_MAX).Some? && ParseUnsigned(right, U64_MAX).Some?;
      SplitAtSeparator(left, '.', right);
      SplitNoSeparator(right, '.');
    }
    SplitShape(s, '.');
    var parts := Split(s, '.');
    if |parts| == 2 {
      assert parts[1..] == [parts[1]];
      assert s == parts[0] + ['.'] + parts[1];
    }
  }

  /** A maximum is an error exactly when it is neither `latest`, nor a minor line with `.x` behind it,
      nor a version; the CLI does not matter. */
  lemma MaximumFailsIff(max: string, cli: Version, lib: Library)
    ensures MatchesMax(max, cli, lib).Err? <==>
            && Lower(max) != "latest"
            && (if EndsWith(max, ".x") then !IsMinorLine(max[..|max| - 2]) else lib.parse(max).None?)
    ensures MatchesMax(max, cli, lib).Err? ==> MatchesMax(max, cli, lib).error == ManifestParseFailed
  {
    if EndsWith(max, ".x") {
      MinorLineIff(max[..|max| - 2]);
    }
  }

  /** An entry whose minimum cannot be read is an error; one with a greater minimum refuses the CLI, and
      its maximum is not read; for any other the maximum decides. */
  lemma MinimumComesFirst(e: Entry, cli: Version, lib: Library)
    ensures var min := lib.parse(Trim(e.minCli));
            && (min.None? ==> IsEntryCompatible(e, cli, lib) == Err(ManifestParseFailed))
            && (min.Some? && CompareVersion(cli, min.value) < 0 ==> IsEntryCompatible(e, cli, lib) == Ok(false))
            && (min.Some? && CompareVersion(cli, min.value) >= 0 ==>
                 IsEntryCompatible(e, cli, lib) == MatchesMax(Trim(e.maxCli), cli, lib))
  {
  }

  lemma MaxIsDownwardClosed(max: string, a: Version, b: Version, lib: Library)
    requires CompareVersion(a, b) <= 0 && MatchesMax(max, b, lib) == Ok(true)
    ensures MatchesMax(max, a, lib) == Ok(true)
  {
    if lib.parse(max).Some? {
      VersionsLawful(a, b, lib.parse(max).value);
    }
  }

  /** The CLI versions an entry accepts form an interval, whatever form its maximum has. */
  lemma AcceptedVersionsAreConvex(e: Entry, a: Version, b: Version, c: Version, lib: Library)
    requires CompareVersion(a, b) <= 0 && CompareVersion(b, c) <= 0
    requires IsEntryCompatible(e, a, lib) == Ok(true) && IsEntryCompatible(e, c, lib) == Ok(true)
    ensures IsEntryCompatible(e, b, lib) == Ok(true)
  {
    var min := lib.parse(Trim(e.minCli)).value;
    VersionsLawful(a, min, min);
    VersionsLawful(min, a, b);
    VersionsLawful(min, b, b);
    MaxIsDownwardClosed(Trim(e.maxCli), b, c, lib);
  }

  /** The lower bound is the one item 11 of Semantic Versioning asks for, except exactly when the CLI
      ranks equal to the minimum and has the smaller build metadata. */
  lemma MinimumByPrecedence(e: Entry, cli: Version, min: Version, lib: Library)
    requires lib.parse(Trim(e.minCli)) == Some(min) && MatchesMax(Trim(e.maxCli), cli, lib) == Ok(true)
    ensures (IsEntryCompatible(e, cli, lib) == Ok(true) <==> Precedence(cli, min) >= 0)
            <==> !(Precedence(cli, min) == 0 && CompareBuild(cli, min) < 0)
  {
    AtLeastByPrecedence(cli, min);
  }

  /** The upper bound is, except exactly when the CLI ranks equal to the maximum and has the greater
      build metadata. */
  lemma MaximumByPrecedence(max: string, cli: Version, limit: Version, lib: Library)
    requires Lower(max) != "latest" && !EndsWith(max, ".x") && lib.parse(max) == Some(limit)
    ensures (MatchesMax(max, cli, lib) == Ok(true) <==> Precedence(cli, limit) <= 0)
            <==> !(Precedence(cli, limit) == 0 && CompareBuild(cli, limit) > 0)
  {
  }

  /** An entry from 1.2.3+1 to the latest refuses CLI 1.2.3, and one up to 1.2.3 refuses CLI 1.2.3+1,
      though item 11 ranks the two equal. */
  lemma MetadataExcludes(lower: Entry, upper: Entry, lib: Library)
    requires var plain, built := Version(1, 2, 3, [], []), Version(1, 2, 3, [], [Digits(1, 1)]);
             && lib.parse(Trim(lower.minCli)) == Some(built) && lower.maxCli == "latest"
             && lib.parse(Trim(upper.minCli)) == Some(plain) && lib.parse("1.2.3") == Some(plain) && upper.maxCli == "1.2.3"
    ensures var plain, built := Version(1, 2, 3, [], []), Version(1, 2, 3, [], [Digits(1, 1)]);
            && IsEntryCompatible(lower, plain, lib) == Ok(false)
            && IsEntryCompatible(upper, built, lib) == Ok(false)
            && Precedence(plain, built) == 0
  {
    MetadataCounts();
    var plain, built := Version(1, 2, 3, [], []), Version(1, 2, 3, [], [Digits(1, 1)]);
    VersionsLawful(plain, built, built);
    TrimIsTrimmed("1.2.3");
    assert Lower("1.2.3")[0] == '1';
  }

  // ---- Resolution ----

  /** What one entry contributes: an error, nothing, or a candidate. */
  function ResolveEntry(e: Entry, cli: Version, lib: Library): Result<Option<Candidate>, BundleError> {
    match IsEntryCompatible(e, cli, lib)
    case Err(error) => Err(error)
    case Ok(false) => Ok(None)
    case Ok(true) =>
      match lib.parse(Trim(e.version))
      case None => Err(ManifestParseFailed)
      case Some(v) =>
        match lib.url(e.downloadUrl)
        case Err(error) => Err(error)
        case Ok(download) =>
          match lib.url(e.checksumUrl)
          case Err(error) => Err(error)
          case Ok(checksum) => Ok(Some((v, ResolvedBundle(lib.render(v), download, checksum))))
  }

  /** An entry contributes a candidate exactly when it accepts the CLI and its version and both URLs
      resolve, to these; nothing exactly when it refuses the CLI; and otherwise the first error. */
  lemma EntryContributes(e: Entry, c: Candidate, cli: Version, lib: Library)
    ensures ResolveEntry(e, cli, lib) == Ok(Some(c)) <==>
            && IsEntryCompatible(e, cli, lib) == Ok(true) && lib.parse(Trim(e.version)) == Some(c.0)
            && c.1.version == lib.render(c.0)
            && lib.url(e.downloadUrl) == Ok(c.1.downloadUrl) && lib.url(e.checksumUrl) == Ok(c.1.checksumUrl)
    ensures ResolveEntry(e, cli, lib) == Ok(None) <==> IsEntryCompatible(e, cli, lib) == Ok(false)
    ensures ResolveEntry(e, cli, lib).Err? ==>
            Err(ResolveEntry(e, cli, lib).error) ==
            if IsEntryCompatible(e, cli, lib).Err? then Err(IsEntryCompatible(e, cli, lib).error)
            else if lib.parse(Trim(e.version)).None? then Err(ManifestParseFailed)
            else if lib.url(e.downloadUrl).Err? then Err(lib.url(e.downloadUrl).error)
            else lib.url(e.checksumUrl)
  {
  }

  type Contribution = Result<Option<Candidate>, BundleError>

  /** The candidates among the contributions in their order, or the first error. */
  function Gather(parts: seq<Contribution>): Result<seq<Candidate>, BundleError> {
    if parts == [] then Ok([])
    else match Gather(parts[..|parts| - 1])
      case Err(error) => Err(error)
      case Ok(front) =>
        match parts[|parts| - 1]
        case Err(error) => Err(error)
        case Ok(None) => Ok(front)
        case Ok(Some(candidate)) => Ok(front + [candidate])
  }

  function Contributions(entries: seq<Entry>, cli: Version, lib: Library): (parts: seq<Contribution>)
    ensures |parts| == |entries| && forall i :: 0 <= i < |entries| ==> parts[i] == ResolveEntry(entries[i], cli, lib)
  {
    seq(|entries|, i requires 0 <= i < |entries| => ResolveEntry(entries[i], cli, lib))
  }

  /** The candidates of the manifest in its order, or the error of the first entry that has one. */
  function Candidates(entries: seq<Entry>, cli: Version, lib: Library): Result<seq<Candidate>, BundleError> {
    Gather(Contributions(entries, cli, lib))
  }

  predicate NotOlder(a: Candidate, b: Candidate) {
    CompareVersion(a.0, b.0) >= 0
  }

  function BundleOf(c: Candidate): ResolvedBundle {
    c.1
  }

  function Resolve(entries: seq<Entry>, cli: Version, lib: Library): Result<seq<ResolvedBundle>, BundleError> {
    match Candidates(entries, cli, lib)
    case Err(error) => Err(error)
    case Ok(found) => Ok(Lines.Map(Sort(found, NotOlder), BundleOf))
  }

  method ResolveApplicableVersions(entries: seq<Entry>, cli: Version, lib: Library)
    returns (r: Result<seq<ResolvedBundle>, BundleError>)
    ensures r == Resolve(entries, cli, lib)
  {
    var compatible: seq<Candidate> := [];
    ghost var parts := Contributions(entries, cli, lib);
    for i := 0 to |entries|
      invariant Gather(parts[..i]) == Ok(compatible)
    {
      assert parts[..i + 1][..i] == parts[..i];
      match ResolveEntry(entries[i], cli, lib) {
        case Err(error) =>
          ErrorStays(parts, i + 1);
          return Err(error);
        case Ok(None) =>
        case Ok(Some(candidate)) => compatible := compatible + [candidate];
      }
    }
    assert parts[..|entries|] == parts;
    compatible := Sort(compatible, NotOlder);
    return Ok(Lines.Map(compatible, BundleOf));
  }

  lemma {:induction false} ErrorStays(parts: seq<Contribution>, k: nat)
    requires k <= |parts| && Gather(parts[..k]).Err?
    ensures Gather(parts) == Gather(parts[..k])
  {
    if k < |parts| {
      var front := parts[..|parts| - 1];
      assert front[..k] == parts[..k];
      ErrorStays(front, k);
    } else {
      assert parts[..k] == parts;
    }
  }

  lemma NotOlderIsAPreorder()
    ensures TotalPreorder(NotOlder)
  {
    forall a: Candidate, b: Candidate ensures NotOlder(a, b) || NotOlder(b, a) {
      VersionsLawful(a.0, b.0, b.0);
    }
    forall a: Candidate, b: Candidate, c: Candidate | NotOlder(a, b) && NotOlder(b, c) ensures NotOlder(a, c) {
      VersionsLawful(c.0, b.0, a.0);
      VersionsLawful(a.0, b.0, c.0);
      VersionsLawful(b.0, c.0, a.0);
      VersionsLawful(a.0, c.0, b.0);
    }
  }

  lemma {:induction false} GatherMembers(parts: seq<Contribution>, c: Candidate)
    ensures Gather(parts).Err? <==> exists i :: 0 <= i < |parts| && parts[i].Err?
    ensures Gather(parts).Ok? ==> (c in Gather(parts).value <==> Ok(Some(c)) in parts)
  {
    if parts != [] {
      var front, last := parts[..|parts| - 1], parts[|parts| - 1];
      GatherMembers(front, c);
      assert parts == front + [last];
      if i :| 0 <= i < |front| && front[i].Err? {
        assert parts[i].Err?;
      }
    }
  }

  /** The part at `i` is the first error among the contributions. */
  predicate IsFirstError(parts: seq<Contribution>, i: int, e: BundleError) {
    0 <= i < |parts| && parts[i] == Err(e) && forall j :: 0 <= j < i ==> parts[j].Ok?
  }

  lemma {:induction false} NoErrorNoFailure(parts: seq<Contribution>)
    requires forall j :: 0 <= j < |parts| ==> parts[j].Ok?
    ensures Gather(parts).Ok?
  {
    if parts != [] {
      NoErrorNoFailure(parts[..|parts| - 1]);
    }
  }

  lemma {:induction false} GatherFirstError(parts: seq<Contribution>, e: BundleError)
    ensures Gather(parts) == Err(e) <==> exists i :: IsFirstError(parts, i, e)
    ensures Gather(parts).Ok? ==> forall j :: 0 <= j < |parts| ==> parts[j].Ok?
  {
    if parts != [] {
      var n := |parts| - 1;
      var front := parts[..n];
      GatherFirstError(front, e);
      if i :| IsFirstError(front, i, e) {
        assert IsFirstError(parts, i, e);
      }
      if i :| IsFirstError(parts, i, e) {
        if i < n {
          assert IsFirstError(front, i, e);
        } else {
          assert forall j :: 0 <= j < n ==> front[j].Ok?;
          NoErrorNoFailure(front);
        }
      }
      if Gather(front).Ok? && parts[n] == Err(e) {
        assert IsFirstError(parts, n, e);
      }
    }
  }

  /** Resolution fails with the error of the first entry that has one. */
  lemma FirstErrorDecides(entries: seq<Entry>, e: BundleError, cli: Version, lib: Library)
    ensures Resolve(entries, cli, lib) == Err(e) <==>
            exists i :: 0 <= i < |entries| && ResolveEntry(entries[i], cli, lib) == Err(e)
                        && forall j :: 0 <= j < i ==> ResolveEntry(entries[j], cli, lib).Ok?
  {
    var parts := Contributions(entries, cli, lib);
    GatherFirstError(parts, e);
    if i :| 0 <= i < |entries| && ResolveEntry(entries[i], cli, lib) == Err(e)
            && forall j :: 0 <= j < i ==> ResolveEntry(entries[j], cli, lib).Ok? {
      assert IsFirstError(parts, i, e);
    }
    if i :| IsFirstError(parts, i, e) {
      assert parts[i] == ResolveEntry(entries[i], cli, lib);
      assert forall j :: 0 <= j < i ==> parts[j] == ResolveEntry(entries[j], cli, lib);
    }
  }

  /** Resolution fails exactly when some entry does, and otherwise a candidate is one exactly when an
      entry that accepts the CLI resolves to it. */
  lemma CandidatesAreTheCompatible(entries: seq<Entry>, c: Candidate, cli: Version, lib: Library)
    ensures Candidates(entries, cli, lib).Err? <==>
            exists i :: 0 <= i < |entries| && ResolveEntry(entries[i], cli, lib).Err?
    ensures Candidates(entries, cli, lib).Ok? ==>
            (c in Candidates(entries, cli, lib).value <==>
             exists i :: 0 <= i < |entries| && IsEntryCompatible(entries[i], cli, lib) == Ok(true)
                         && ResolveEntry(entries[i], cli, lib) == Ok(Some(c)))
  {
    var parts := Contributions(entries, cli, lib);
    GatherMembers(parts, c);
    if i :| 0 <= i < |parts| && parts[i].Err? {
      assert ResolveEntry(entries[i], cli, lib).Err?;
    }
    if Ok(Some(c)) in parts {
      var i :| 0 <= i < |parts| && parts[i] == Ok(Some(c));
      assert IsEntryCompatible(entries[i], cli, lib) == Ok(true);
    }
  }

  /** The resolved bundles are the candidates, each as often as the manifest lists it, in descending
      order of the program's comparison and so of item 11; versions that tie keep their order. */
  lemma ResolvedInDescendingOrder(entries: seq<Entry>, cli: Version, lib: Library)
    requires Candidates(entries, cli, lib).Ok?
    ensures var found := Candidates(entries, cli, lib).value;
            var ranked := Sort(found, NotOlder);
            && Resolve(entries, cli, lib) == Ok(Lines.Map(ranked, BundleOf))
            && multiset(ranked) == multiset(found)
            && (forall i, j :: 0 <= i < j < |ranked| ==>
                 CompareVersion(ranked[i].0, ranked[j].0) >= 0 && Precedence(ranked[i].0, ranked[j].0) >= 0)
            && (forall pivot: Candidate :: Filter(ranked, Ties(pivot, NotOlder)) == Filter(found, Ties(pivot, NotOlder)))
  {
    var found := Candidates(entries, cli, lib).value;
    var ranked := Sort(found, NotOlder);
    NotOlderIsAPreorder();
    SortSorts(found, NotOlder);
    forall pivot: Candidate ensures Filter(ranked, Ties(pivot, NotOlder)) == Filter(found, Ties(pivot, NotOlder)) {
      SortStable(found, NotOlder, pivot);
    }
    forall i, j | 0 <= i < j < |ranked| ensures Precedence(ranked[i].0, ranked[j].0) >= 0 {
      assert NotOlder(ranked[i], ranked[j]);
    }
  }

  // ---- Fetching and checking ----

  /** How the installation of a bundle ends; `None` is success. */
  type Attempt = Option<BundleError>

  /** What a request brings: a body, a status that is not a success, or no readable answer; reading a
      local file brings the first or the last. */
  datatype Response<+T> = Body(content: T) | Refused(status: nat) | Unreadable

  const NOT_FOUND := 404

  /** What one attempt meets: the archives and checksum files behind URLs, the digest of an archive,
      and whether the archive installs. */
  datatype Surroundings = Surroundings(archiveAt: string -> Response<seq<Byte>>, checksumAt: string -> Response<string>,
                                       digest: seq<Byte> -> string, installs: bool)

  /** `download_bytes`; `download_text` differs in not telling a missing file apart. */
  function Download<T>(r: Response<T>, tellsMissing: bool): Result<T, BundleError> {
    match r
    case Body(content) => Ok(content)
    case Refused(status) =>
      if tellsMissing && status == NOT_FOUND then Err(BundleDownloadNotFound) else Err(BundleDownloadFailed)
    case Unreadable => Err(BundleDownloadFailed)
  }

  predicate IsHexDigit(c: char) {
    IsDigit(c) || 'a' <= c <= 'f' || 'A' <= c <= 'F'
  }

  /** The first word of a checksum file, if it is 64 hexadecimal digits; it may be followed by more. */
  function ParseChecksum(payload: string): Option<string> {
    var tokens := Runs(payload, IsSolid());
    if tokens == [] || |Encode(tokens[0])| != 64 || exists i :: 0 <= i < |tokens[0]| && !IsHexDigit(tokens[0][i]) then None
    else Some(Lower(tokens[0]))
  }

  predicate IsHexDigest(w: string) {
    |w| == 64 && forall i :: 0 <= i < |w| ==> w[i] in "0123456789abcdefABCDEF"
  }

  lemma HexDigest(w: string)
    ensures IsHexDigest(w) <==> |Encode(w)| == 64 && forall i :: 0 <= i < |w| ==> IsHexDigit(w[i])
  {
    HexDigits();
    if forall i :: 0 <= i < |w| ==> IsHexDigit(w[i]) {
      EncodeHex(w);
    }
  }

  lemma HexDigits()
    ensures forall c: char :: IsHexDigit(c) <==> c in "0123456789abcdefABCDEF"
  {
    forall c: char ensures IsHexDigit(c) <==> c in "0123456789abcdefABCDEF" {
      var digits := "0123456789abcdefABCDEF";
      if IsDigit(c) {
        assert digits[c as int - '0' as int] == c;
      } else if 'a' <= c <= 'f' {
        assert digits[c as int - 'a' as int + 10] == c;
      } else if 'A' <= c <= 'F' {
        assert digits[c as int - 'A' as int + 16] == c;
      }
    }
  }

  lemma {:induction false} EncodeHex(w: string)
    requires forall i :: 0 <= i < |w| ==> IsHexDigit(w[i])
    ensures |Encode(w)| == |w|
  {
    if w != [] {
      EncodeHex(w[1..]);
    }
  }

  /** A checksum file means its first word, in lower case, if that is a digest of 64 hexadecimal digits,
      whatever whitespace stands before it and whatever comes behind; a blank file means nothing. */
  lemma ChecksumIsFirstWord(before: string, w: string, rest: string)
    requires AllWhitespace(before) && AllSolid(w)
    requires rest == [] || IsWhitespace(rest[0])
    ensures ParseChecksum(before + w + rest) ==
            if w == [] then (if AllWhitespace(rest) then None else ParseChecksum(rest))
            else if IsHexDigest(w) then Some(Lower(w)) else None
  {
    assert before + w + rest == before + (w + rest);
    RunsSkip(before, w + rest, IsSolid());
    if w == [] {
      assert w + rest == rest;
      if AllWhitespace(rest) {
        assert rest + [] == rest;
        RunsSkip(rest, [], IsSolid());
      }
    } else {
      if rest == [] {
        assert w + rest == w;
        RunAlone(w, IsSolid());
      } else {
        assert w + rest == w + [rest[0]] + rest[1..];
        RunThenSeparator(w, rest[0], rest[1..], IsSolid());
      }
      HexDigest(w);
    }
  }

  predicate AllSolid(w: string) {
    forall i :: 0 <= i < |w| ==> !IsWhitespace(w[i])
  }

  /** `install_resolved_bundle`: archive, checksum, verification, installation. */
  function InstallResolvedBundle(b: ResolvedBundle, s: Surroundings): Attempt {
    match Download(s.archiveAt(b.downloadUrl), true)
    case Err(error) => Some(error)
    case Ok(archive) =>
      match Download(s.checksumAt(b.checksumUrl), false)
      case Err(error) => Some(error)
      case Ok(payload) =>
        if ParseChecksum(payload) != Some(s.digest(archive)) then Some(ChecksumMismatch)
        else if s.installs then None
        else Some(BundleInstallFailed)
  }

  /** Archive and checksum file have arrived. */
  predicate BothArrive(b: ResolvedBundle, s: Surroundings) {
    s.archiveAt(b.downloadUrl).Body? && s.checksumAt(b.checksumUrl).Body?
  }

  predicate Agree(b: ResolvedBundle, s: Surroundings)
    requires BothArrive(b, s)
  {
    ParseChecksum(s.checksumAt(b.checksumUrl).content) == Some(s.digest(s.archiveAt(b.downloadUrl).content))
  }

  /** Only status 404 on the archive itself counts as a missing archive; success means that the archive
      arrived, that its digest is the one in the checksum file, and that it was installed. */
  lemma AttemptsEndAsTheyShould(b: ResolvedBundle, s: Surroundings)
    ensures var end := InstallResolvedBundle(b, s);
            && (end == Some(BundleDownloadNotFound) <==> s.archiveAt(b.downloadUrl) == Refused(404))
            && (end == Some(BundleDownloadFailed) <==> s.archiveAt(b.downloadUrl) != Refused(404) && !BothArrive(b, s))
            && (end == Some(ChecksumMismatch) <==> BothArrive(b, s) && !Agree(b, s))
            && (end == Some(BundleInstallFailed) <==> BothArrive(b, s) && Agree(b, s) && !s.installs)
            && (end == None <==> BothArrive(b, s) && Agree(b, s) && s.installs)
  {
  }

  /** The archive of the first candidate is answered with 404, and there is a second one. */
  predicate FallsBack(candidates: seq<ResolvedBundle>, first: Surroundings) {
    |candidates| >= 2 && first.archiveAt(candidates[0].downloadUrl) == Refused(404)
  }

  /** `fetch_bundle` after the manifest has arrived: the highest candidate is tried, and the second
      only when the archive of the first is answered with 404. `surroundings` says what each attempt
      would meet; `tried` lists those that were made. */
  method FetchBundle(manifest: Result<seq<Entry>, BundleError>, cli: Version, lib: Library,
                     surroundings: seq<Surroundings>)
    returns (r: Result<string, BundleError>, tried: seq<ResolvedBundle>)
    requires |surroundings| == 2
    ensures r == Fetch(manifest, cli, lib, surroundings)
    ensures manifest.Ok? && Resolve(manifest.value, cli, lib).Ok? ==>
              var candidates := Resolve(manifest.value, cli, lib).value;
              tried == candidates[..if candidates == [] then 0
                                    else if |candidates| == 1 || surroundings[0].archiveAt(candidates[0].downloadUrl) != Refused(404)
                                         then 1 else 2]
  {
    tried := [];
    if manifest.Err? {
      return Err(manifest.error), tried;
    }
    var resolved := ResolveApplicableVersions(manifest.value, cli, lib);
    if resolved.Err? {
      return Err(resolved.error), tried;
    }
    var candidates := resolved.value;
    if candidates == [] {
      return Err(NoCompatibleVersion), tried;
    }
    AttemptsEndAsTheyShould(candidates[0], surroundings[0]);
    var latestNotFound: Option<BundleError> := None;
    for attempt := 0 to if |candidates| < 2 then |candidates| else 2
      invariant tried == candidates[..attempt]
      invariant latestNotFound == if attempt == 0 then None else Some(BundleDownloadNotFound)
      invariant attempt > 0 ==> attempt == 1 && InstallResolvedBundle(candidates[0], surroundings[0]) == latestNotFound
    {
      var outcome := InstallResolvedBundle(candidates[attempt], surroundings[attempt]);
      tried := tried + [candidates[attempt]];
      if outcome == None {
        return Ok(candidates[attempt].version), tried;
      } else if outcome.value.BundleDownloadNotFound? && attempt == 0 {
        latestNotFound := outcome;
      } else {
        return Err(outcome.value), tried;
      }
    }
    return Err(if latestNotFound.Some? then latestNotFound.value else NoCompatibleVersion), tried;
  }

  /** The highest candidate decides, unless its archive is not found and there is a second one. */
  function Fetch(manifest: Result<seq<Entry>, BundleError>, cli: Version, lib: Library, surroundings: seq<Surroundings>)
    : Result<string, BundleError>
    requires |surroundings| == 2
  {
    match manifest
    case Err(error) => Err(error)
    case Ok(entries) =>
      match Resolve(entries, cli, lib)
      case Err(error) => Err(error)
      case Ok(candidates) =>
        if candidates == [] then Err(NoCompatibleVersion)
        else
          var k := if FallsBack(candidates, surroundings[0]) then 1 else 0;
          match InstallResolvedBundle(candidates[k], surroundings[k])
          case Some(error) => Err(error)
          case None => Ok(candidates[k].version)
  }

  /** How the attempts decide, by their ends alone: a first one that does not miss its archive is the
      last, and so is the only one. */
  lemma FetchByAttempts(entries: seq<Entry>, cli: Version, lib: Library, surroundings: seq<Surroundings>, candidates: seq<ResolvedBundle>)
    requires |surroundings| == 2 && Resolve(entries, cli, lib) == Ok(candidates) && candidates != []
    ensures var first := InstallResolvedBundle(candidates[0], surroundings[0]);
            Fetch(Ok(entries), cli, lib, surroundings) ==
            if first == None then Ok(candidates[0].version)
            else if first != Some(BundleDownloadNotFound) || |candidates| == 1 then Err(first.value)
            else match InstallResolvedBundle(candidates[1], surroundings[1])
                 case None => Ok(candidates[1].version)
                 case Some(error) => Err(error)
  {
    AttemptsEndAsTheyShould(candidates[0], surroundings[0]);
  }

  // ---- When nothing is compatible ----

  lemma {:induction false} GatherNothing(parts: seq<Contribution>)
    ensures Gather(parts) == Ok([]) <==> forall i :: 0 <= i < |parts| ==> parts[i] == Ok(None)
  {
    if parts != [] {
      var n := |parts| - 1;
      GatherNothing(parts[..n]);
      assert forall i :: 0 <= i < n ==> parts[..n][i] == parts[i];
    }
  }

  lemma {:induction false} SortIsEmpty(found: seq<Candidate>)
    ensures Sort(found, NotOlder) == [] <==> found == []
  {
  }

  /** Fetching fails for want of a compatible version exactly when every entry refuses the CLI. */
  lemma NothingCompatibleIff(entries: seq<Entry>, cli: Version, lib: Library, surroundings: seq<Surroundings>)
    requires |surroundings| == 2 && forall raw :: lib.url(raw) != Err(NoCompatibleVersion)
    ensures Fetch(Ok(entries), cli, lib, surroundings) == Err(NoCompatibleVersion) <==>
            forall i :: 0 <= i < |entries| ==> IsEntryCompatible(entries[i], cli, lib) == Ok(false)
  {
    var parts := Contributions(entries, cli, lib);
    GatherNothing(parts);
    forall i | 0 <= i < |entries| ensures parts[i] == Ok(None) <==> IsEntryCompatible(entries[i], cli, lib) == Ok(false) {
      EntryContributes(entries[i], (Version(0, 0, 0, [], []), ResolvedBundle([], [], [])), cli, lib);
    }
    NoSuchError(entries, cli, lib);
    if Candidates(entries, cli, lib).Ok? {
      SortIsEmpty(Candidates(entries, cli, lib).value);
    }
    FetchReasons(entries, cli, lib, surroundings);
  }

  lemma FetchReasons(entries: seq<Entry>, cli: Version, lib: Library, surroundings: seq<Surroundings>)
    requires |surroundings| == 2 && Candidates(entries, cli, lib) != Err(NoCompatibleVersion)
    ensures Fetch(Ok(entries), cli, lib, surroundings) == Err(NoCompatibleVersion) <==> Resolve(entries, cli, lib) == Ok([])
  {
    match Resolve(entries, cli, lib)
    case Err(_) =>
    case Ok(candidates) =>
      if candidates != [] {
        var k := if FallsBack(candidates, surroundings[0]) then 1 else 0;
        AttemptsEndAsTheyShould(candidates[k], surroundings[k]);
      }
  }

  /** A manifest of one entry up to `latest` whose version and URLs resolve is fetched by every CLI from
      its minimum on: the archive comes from the download URL, its digest from the checksum URL, and
      what is installed is reported under the version as the library prints it. */
  lemma LatestIsFetched(e: Entry, cli: Version, min: Version, v: Version, download: string, checksum: string,
                        lib: Library, surroundings: seq<Surroundings>)
    requires |surroundings| == 2
    requires Lower(Trim(e.maxCli)) == "latest" && lib.parse(Trim(e.minCli)) == Some(min) && CompareVersion(cli, min) >= 0
    requires lib.parse(Trim(e.version)) == Some(v) && lib.url(e.downloadUrl) == Ok(download) && lib.url(e.checksumUrl) == Ok(checksum)
    ensures Resolve([e], cli, lib) == Ok([ResolvedBundle(lib.render(v), download, checksum)])
    ensures var s := surroundings[0];
            Fetch(Ok([e]), cli, lib, surroundings) == Ok(lib.render(v)) <==>
            && s.archiveAt(download).Body? && s.checksumAt(checksum).Body? && s.installs
            && ParseChecksum(s.checksumAt(checksum).content) == Some(s.digest(s.archiveAt(download).content))
  {
    var bundle := ResolvedBundle(lib.render(v), download, checksum);
    LatestMaximum(e, cli, min, lib);
    OneEntry(e, (v, bundle), cli, lib);
    AttemptsEndAsTheyShould(bundle, surroundings[0]);
  }

  lemma GatherOne(parts: seq<Contribution>, c: Candidate)
    requires parts == [Ok(Some(c))]
    ensures Gather(parts) == Ok([c])
  {
    var front := parts[..|parts| - 1];
    assert front == [] && Gather(front) == Ok([]);
    var none: seq<Candidate> := [];
    assert Gather(parts) == Ok(none + [c]) && none + [c] == [c];
  }

  lemma SortOne(c: Candidate)
    ensures Lines.Map(Sort([c], NotOlder), BundleOf) == [c.1]
  {
    assert [c][1..] == [];
  }

  lemma OneEntry(e: Entry, c: Candidate, cli: Version, lib: Library)
    requires ResolveEntry(e, cli, lib) == Ok(Some(c))
    ensures Resolve([e], cli, lib) == Ok([c.1])
  {
    var parts := Contributions([e], cli, lib);
    assert parts == [Ok(Some(c))];
    GatherOne(parts, c);
    SortOne(c);
  }

  datatype Reason = NotInstalled | UpdateAvailable | UpToDate | NoCompatible

  datatype CheckResult = CheckResult(current: Option<string>, latest: Option<string>, available: bool, reason: Reason)

  /** `check_bundle_version`; `local` is the version read from the installed bundle. */
  function Check(local: Result<Option<string>, BundleError>, manifest: Result<seq<Entry>, BundleError>,
                 cli: Version, lib: Library): Result<CheckResult, BundleError>
  {
    match local
    case Err(error) => Err(error)
    case Ok(current) =>
      match manifest
      case Err(error) => Err(error)
      case Ok(entries) =>
        match Resolve(entries, cli, lib)
        case Err(error) => Err(error)
        case Ok(candidates) =>
          if candidates == [] then Ok(CheckResult(current, None, false, NoCompatible))
          else
            var latest := candidates[0].version;
            match current
            case None => Ok(CheckResult(None, Some(latest), true, NotInstalled))
            case Some(version) =>
              if version == latest then Ok(CheckResult(current, Some(latest), false, UpToDate))
              else Ok(CheckResult(current, Some(latest), true, UpdateAvailable))
  }

  /** The check reports that nothing is compatible exactly when fetching fails for that reason and the
      installed version could be read; otherwise it announces the version that fetching installs unless
      it falls back. A check that could read the installed version fails as fetching does. */
  lemma CheckAgreesWithFetch(local: Result<Option<string>, BundleError>, manifest: Result<seq<Entry>, BundleError>,
                             cli: Version, lib: Library, surroundings: seq<Surroundings>)
    requires |surroundings| == 2 && manifest != Err(NoCompatibleVersion)
    requires forall raw :: lib.url(raw) != Err(NoCompatibleVersion)
    ensures var check := Check(local, manifest, cli, lib);
            var fetch := Fetch(manifest, cli, lib, surroundings);
            && ((check.Ok? && check.value.reason == NoCompatible) <==> (local.Ok? && fetch == Err(NoCompatibleVersion)))
            && (local.Err? ==> check == Err(local.error))
            && (local.Ok? && check.Err? ==> fetch == Err(check.error))
            && (check.Ok? && fetch.Ok? && !FallsBack(Resolve(manifest.value, cli, lib).value, surroundings[0]) ==>
                 check.value.latest == Some(fetch.value))
            && (check.Ok? ==> check.value.current == local.value)
            && (check.Ok? ==> (check.value.available <==> check.value.latest.Some? && check.value.latest != local.value))
  {
    if manifest.Ok? {
      NoSuchError(manifest.value, cli, lib);
      FetchReasons(manifest.value, cli, lib, surroundings);
    }
  }

  /** Once the highest candidate has been fetched the check reports that the installed bundle is up to
      date; before anything is installed it reports that, and for any other version an update. */
  lemma CheckAfterFetch(manifest: Result<seq<Entry>, BundleError>, cli: Version, lib: Library,
                        surroundings: seq<Surroundings>, other: string)
    requires |surroundings| == 2 && Fetch(manifest, cli, lib, surroundings).Ok?
    requires manifest.Ok? && Resolve(manifest.value, cli, lib).Ok?
    requires !FallsBack(Resolve(manifest.value, cli, lib).value, surroundings[0])
    ensures var fetched := Fetch(manifest, cli, lib, surroundings).value;
            && Check(Ok(Some(fetched)), manifest, cli, lib) == Ok(CheckResult(Some(fetched), Some(fetched), false, UpToDate))
            && Check(Ok(None), manifest, cli, lib) == Ok(CheckResult(None, Some(fetched), true, NotInstalled))
            && (other != fetched ==>
                 Check(Ok(Some(other)), manifest, cli, lib) == Ok(CheckResult(Some(other), Some(fetched), true, UpdateAvailable)))
  {
  }

  lemma NoSuchError(entries: seq<Entry>, cli: Version, lib: Library)
    requires forall raw :: lib.url(raw) != Err(NoCompatibleVersion)
    ensures Candidates(entries, cli, lib) != Err(NoCompatibleVersion)
  {
    ErrorIsAContribution(Contributions(entries, cli, lib));
  }

  lemma {:induction false} ErrorIsAContribution(parts: seq<Contribution>)
    ensures Gather(parts).Err? ==> Err(Gather(parts).error) in parts
  {
    if parts != [] {
      ErrorIsAContribution(parts[..|parts| - 1]);
    }
  }
}
