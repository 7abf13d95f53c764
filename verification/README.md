# Verified models of bitloops components

A Dafny model of eight components of bitloops, each proved against an independent description of
what it is for. Verify the project with `dafny verify dfyconfig.toml`.

| modules | component |
|---|---|
| `Calendar`, `Timestamps`, `TimeGrammar` | the day count and RFC 3339 parser of `bitloops doctor` |
| `SessionRepair` | the discard protocol of `bitloops doctor --force` |
| `Lines`, `LogTail`, `LogFollow` | the tail, filtered tail and follower of `bitloops daemon logs` |
| `BundleInstall`, `Versions`, `BundleVersions` | installing, resolving, fetching and checking dashboard bundles |
| `HookCommand` | the managed hook command and its recogniser |
| `CodeLens` | the versioned refresh protocol of the editor extension |
| `Cosine`, `VectorSearch` | exact re-ranking over an approximate index |
| `Base64Url`, `ScopeHeaders`, `Registry` | the scope headers of the command line, and the repository registry |
| `Words`, `CommitLog`, `AgentKey` | git log parsing and agent keys |
| `Options`, `Text`, `Utf8`, `Ordering`, `Sorting` | the parts of the standard library that these rest on |

Code that changes state is a class or a loop whose `ensures` equates the new state with a
specification function; lemmas then prove what the component promises about that function. Runs of a
protocol are sequences of steps in which every failure is a parameter, so a statement about all runs
is a statement about all parameters. Functions that follow one function of the source keep its
branches and constants; text is a sequence of Unicode scalar values, and bytes are used where the
source counts bytes.

Parameters stand for what the source gets from elsewhere: SHA-256 (`tag`, `digest`), the reading of
JSON (`levelOf`), version parsing and printing and URL joining (`Library`), the square root (of which
only its defining property is used), the approximate index (`search`), the state that condensing a
session leaves behind (`condensed`), git, disk, network and clock.

## Results that differ from what one might expect

- Two kinds of interaction time stop the program, and `Timestamps.StopsExactlyWhen` says exactly which.
  The offset parser slices bytes, so an offset of six bytes with a character across byte 3 or 4 stops
  it; `SplitCharacterFaults` gives a family of inputs and `AsciiNeverFaults` says that ASCII offsets are
  safe. A plain number of seconds is added to the epoch, which fails from 2^63 to 2^64 - 1;
  `FirstHugeNumberStops` gives 9223372036854775808.
- A single stored session can stop every forced run before it has touched anything, for three causes:
  its branch name takes the first seven bytes of a commit and they end inside a character
  (`SessionRepair.CutNameStops`), its interaction time is such a number (`HugeTimeStops`), or such a
  timestamp (`CutOffsetStops`). `SessionRepair.Doctor.RunForced` says that there is no other.
- The follower of a healthy log ends with an error when it reads a character of which only some bytes have
  been written (`LogFollow.HalfWrittenLetterFails`), or when it starts inside one.
  `LogFollow.ReadFailsIff` says exactly when a read fails, and `Follow` that there is no other cause.
- Versions are compared with the library's total order, which goes on to build metadata. Item 11 of
  Semantic Versioning 2.0.0 ignores metadata, so an entry from 1.2.3+1 refuses CLI 1.2.3 and one up to
  1.2.3 refuses CLI 1.2.3+1 (`BundleVersions.MetadataExcludes`). `MinimumByPrecedence` and
  `MaximumByPrecedence` say exactly when each bound is the one of item 11.
- A pending request need not be in `inFlight`: an older request of the document that ends takes it out
  (`CodeLens.InFlightMayMissPending`). `CodeLens.InFlightExactly` says for every run what `inFlight`
  names, and `PendingIsMissedIff` when a pending request is missed.
- The approximate search differs from the exact one not only when the index misses a result but also
  when it answers with a result twice (`VectorSearch.ApproximateEqualsExactIff`).
- An ended session with 2^31 or more pending steps is not seen as stuck, because the count is cast to
  a signed integer (`SessionRepair.StuckExactlyWhen`).
- A scope with an empty project path arrives with none, and one with an empty required field does not
  arrive at all; `ScopeHeaders.RoundTripIff` has the exact condition.

## Model

| member | source | states |
|---|---|---|
| Calendar.DaysSinceUnixEpoch | bitloops/src/cli/doctor.rs:305-326 | the year and month loops compute the closed Gregorian formula, before and after 1970, and nothing for an invalid date |
| Calendar.YearStep | bitloops/src/cli/doctor.rs:311-319 | the formula's flooring leap corrections agree with the leap year rule for every year, negative ones included |
| Calendar.OrderPreserved | bitloops/src/cli/doctor.rs:305-345 | valid dates are before one another exactly when their counts are smaller, and equal exactly when these are |
| Calendar.NextAddsOne | bitloops/src/cli/doctor.rs:305-345 | the day after a valid date is valid and counts one more |
| Calendar.PreviousTakesOne | bitloops/src/cli/doctor.rs:305-345 | the day before a valid date is valid and counts one less |
| Calendar.DateOf | bitloops/src/cli/doctor.rs:305-345 | every integer is the count of a valid date |
| Calendar.DatesAreIntegers | bitloops/src/cli/doctor.rs:305-345 | counting is a bijection between valid dates and integers |
| Calendar.CountFitsInI64 | bitloops/src/cli/doctor.rs:305-326 | no 32-bit year makes the 64-bit count overflow, at any turn of the loops |
| Timestamps.PrintedParses | bitloops/src/cli/doctor.rs:246-303 | every timestamp of section 5.6 of RFC 3339 with upper-case letters, any fraction and any offset, parses to its whole seconds since the epoch, or to nothing before it |
| Timestamps.SameInstantParsesEqual | bitloops/src/cli/doctor.rs:246-303 | two such strings parse equal exactly when they name the same second, whatever their offsets, or both name one before the epoch |
| Timestamps.PaddedTimestampParses | bitloops/src/cli/doctor.rs:235-244 | the same through the trimming entry point |
| Timestamps.PaddedSecondsParse | bitloops/src/cli/doctor.rs:235-242 | a decimal number of seconds is taken as it is below 2^63, stops the program up to 2^64 - 1, and is no time beyond |
| Timestamps.FaultsExactlyWhen | bitloops/src/cli/doctor.rs:246-303 | the timestamp parser stops the program exactly for a readable date followed by an offset that cuts a character |
| Timestamps.StopsExactlyWhen | bitloops/src/cli/doctor.rs:235-303 | reading a time stops the program exactly for such a timestamp or for a number from 2^63 to 2^64 - 1 |
| Timestamps.FirstHugeNumberStops | bitloops/src/cli/doctor.rs:240-242 | 9223372036854775808 stops the program |
| Timestamps.AsciiNeverFaults | bitloops/src/cli/doctor.rs:288-303 | it never does on ASCII text |
| Timestamps.SplitCharacterFaults | bitloops/src/cli/doctor.rs:288-303 | it does on a two-byte character in the middle of an offset |
| TimeGrammar.TimeReads | bitloops/src/cli/doctor.rs:246-303 | every text made of a date, a `T`, a time of day and a zone in the forms the parser knows, RFC 3339 or not, reads as the second they name, or as nothing before the epoch |
| TimeGrammar.TimeTextIff | bitloops/src/cli/doctor.rs:246-303 | nothing else is read as a time, and whatever is not and does not stop the program is rejected |
| TimeGrammar.TimeStringIff | bitloops/src/cli/doctor.rs:235-244 | behind trimming, a text is read as a second exactly when it is that number, below 2^63, or such a time |
| SessionRepair.Doctor.CanDeleteShadowBranch | bitloops/src/cli/doctor.rs:461-480 | deletion is allowed exactly when no other session with pending steps names the branch |
| SessionRepair.Doctor.DiscardSession | bitloops/src/cli/doctor.rs:427-459 | one discard with any failure has exactly the effect of the specification; success means the session is gone |
| SessionRepair.DiscardEffect | bitloops/src/cli/doctor.rs:427-459 | what a discard removes, failure by failure: the session unless its deletion fails without effect, and the branch exactly when nothing fails before git removes it and no remaining session with pending steps names it |
| SessionRepair.SharedBranchIff | bitloops/src/cli/doctor.rs:51-66 | two sessions share a branch exactly when their commits agree in the first seven bytes and their worktrees in the tag |
| SessionRepair.PlainBranchName | bitloops/src/cli/doctor.rs:51-66 | the branch of a commit in plain letters is `bitloops/`, its first seven, a dash and the tag |
| Utf8.CutsInside | bitloops/src/cli/doctor.rs:55 | a slice of text up to a byte stops the program exactly when that byte is a continuation byte of its encoding |
| Utf8.TakesBytes | bitloops/src/cli/doctor.rs:55 | unless a character lies across the limit, the sliced text is exactly the first bytes |
| Utf8.CharBits | bitloops/src/cli/doctor.rs:55 | the bits of a character fill the forms of section 3 of RFC 3629 |
| SessionRepair.Doctor.ClassifyAll | bitloops/src/cli/doctor.rs:139-145 | the first loop finds the stuck sessions in the order of the listing, or stops, exactly when some session has a branch name or an interaction time that stops the program |
| SessionRepair.Doctor.RepairAll | bitloops/src/cli/doctor.rs:154-178 | the second loop condenses or discards every stuck session as the specification says, going on after failures |
| SessionRepair.CondensedExactlyWhen | bitloops/src/cli/doctor.rs:154-178 | in a forced run a stuck session is condensed exactly when the strategy can, fewer than 2^31 but some steps are pending and its branch exists; every other one is discarded |
| SessionRepair.StuckInListedOrder | bitloops/src/cli/doctor.rs:139-145 | the stuck sessions are queued in the order in which the store lists them |
| SessionRepair.RepairConcat | bitloops/src/cli/doctor.rs:154-178 | the queue is worked through from its front |
| SessionRepair.Doctor.RunForced | bitloops/src/cli/doctor.rs:117-178 | a forced run stops with nothing touched exactly when some session has a commit cut inside a character at byte 7, a time from 2^63 seconds on, or a time whose offset cuts a character after a readable date; otherwise it repairs every stuck session |
| SessionRepair.CutNameStops | bitloops/src/cli/doctor.rs:51-55 | a session with commit `abcdefé` stops the run |
| SessionRepair.HugeTimeStops | bitloops/src/cli/doctor.rs:226-242 | a session with time 9223372036854775808 stops the run although its branch can be named |
| SessionRepair.CutOffsetStops | bitloops/src/cli/doctor.rs:226-303 | a session with time `2024-01-01T00:00:00+1é00` stops the run although its branch can be named |
| SessionRepair.SurvivorsKeepTheirBranches | bitloops/src/cli/doctor.rs:427-480 | in every run of discards, with any failures, the store only shrinks and no branch on which a surviving session with pending steps stands is deleted |
| SessionRepair.RepairProtects | bitloops/src/cli/doctor.rs:154-178 | with condensing in between, no branch needed afterwards is deleted and none comes to be needed, provided that condensing keeps to this too |
| SessionRepair.FailureFreeRun | bitloops/src/cli/doctor.rs:427-480 | a failure-free run removes exactly the queued sessions and those of their branches that no survivor needs |
| SessionRepair.OrderIsIrrelevant | bitloops/src/cli/doctor.rs:154-178 | the outcome of a failure-free run does not depend on its order |
| SessionRepair.DiscardedBranchSurvivesIffNeeded | bitloops/src/cli/doctor.rs:437-455 | a discarded session's branch survives exactly when a surviving session with pending steps names it |
| SessionRepair.StuckExactlyWhen | bitloops/src/cli/doctor.rs:68-115 | which sessions are stuck, in terms of phase, stored time, steps and branch; an active one is when its time cannot be read |
| SessionRepair.TimestampedSessionStuckIff | bitloops/src/cli/doctor.rs:68-95 | an active session with an RFC 3339 timestamp of any offset is stuck exactly when the second it names is before the epoch or more than an hour back |
| SessionRepair.ForcedRunOutcome | bitloops/src/cli/doctor.rs:117-178 | a forced run over the whole store that condenses nothing and meets no failure keeps exactly the sessions that are not stuck |
| LogTail.FindTailStartOffset | bitloops/src/cli/daemon.rs:629-683 | for every file, block size and line count from 1 the block scan finds where the last lines start; the counter stays positive |
| LogTail.TailLogFile | bitloops/src/cli/daemon.rs:579-596 | the plain view decodes exactly the last pieces of any file |
| LogTail.PrintedLinesRead | bitloops/src/cli/daemon.rs:579-596 | lines printed with either line ending are read back as they were, an unfinished last one included |
| LogTail.PushTailLine | bitloops/src/cli/daemon.rs:622-627 | the queue holds the last lines pushed |
| LogTail.TailLogFileAfterFilter | bitloops/src/cli/daemon.rs:598-620 | the filtered view is the last lines that pass, or an error if any line does not decode |
| LogTail.LevelIsRecognised | bitloops/src/cli/daemon.rs:569-577 | a level is recognised by exactly its names, in any case and with whitespace around |
| LogTail.EmittedIffWanted | bitloops/src/cli/daemon.rs:551-567 | a line passes exactly when no level is asked for or the string under "level" names one that is |
| LogTail.FilterShowsWanted | bitloops/src/cli/daemon.rs:598-627 | the last lines that pass stand at exactly the places of the wanted lines with fewer than the asked number of wanted lines behind them |
| LogTail.ReadLogView | bitloops/src/cli/daemon.rs:530-567 | for every valid UTF-8 log the view is its last lines, or for a level list exactly the wanted lines that have fewer than the asked number of wanted lines behind them |
| LogTail.ValidTail | bitloops/src/cli/daemon.rs:579-596 | the tail of a valid log always decodes, to its last lines |
| LogTail.ValidFilteredTail | bitloops/src/cli/daemon.rs:598-620 | the queue over a valid log holds the last lines of the filtered log |
| LogTail.ValidLogView | bitloops/src/cli/daemon.rs:530-620 | both paths refine one specification and agree when nothing is filtered |
| LogTail.ViewsFailIff | bitloops/src/cli/daemon.rs:579-620 | the filtered view fails exactly when the whole file is not valid UTF-8, the plain view when its last lines are not |
| LogTail.DecodableFileIsALog | bitloops/src/cli/daemon.rs:592-593 | the logs above are all the files that decode |
| LogFollow.ReadLineAdvances | bitloops/src/cli/daemon.rs:772-781 | a read returns the next bytes up to a newline, or to the end |
| LogFollow.ReadsConserve | bitloops/src/cli/daemon.rs:772-781 | the chunks of successive reads, joined, are the bytes between the first and the last |
| LogFollow.ReadFailsIff | bitloops/src/cli/daemon.rs:772-777 | in a valid log a read fails exactly when it starts inside a character, or reaches an end of the log inside one |
| LogFollow.HalfWrittenLetterFails | bitloops/src/cli/daemon.rs:772-777 | a valid log of one letter of two bytes cannot be read while only the first is there |
| LogFollow.Follower.Poll | bitloops/src/cli/daemon.rs:758-785 | one turn delivers exactly the bytes from its position, or from the front of a log that became shorter, to its reader; it reads line after line until a read finds nothing or does not decode, and is cut short only when no read is left; on a valid log it fails only if it starts, or finds the log ending, inside a character |
| LogFollow.Follower.Follow | bitloops/src/cli/daemon.rs:740-789 | while the log only grows, the chunks joined are exactly the bytes from the start to the reader, at every moment and across turns, with newlines only at chunk ends; it catches up with every turn, and stops early only at a read that fails or a turn that is cut short; on a valid log it fails only if it starts, or a read finds the log ending, inside a character |
| BundleInstall.LocateBundleRoot | bitloops/src/api/bundle.rs:571-601 | the root found has the index, and none is missed |
| BundleInstall.BundleRootIsUnique | bitloops/src/api/bundle.rs:571-601 | an archive has at most one root |
| BundleInstall.Installer.Install | bitloops/src/api/bundle.rs:474-528 | in every state of the disk on the way the complete old bundle is at the target, or in the backup with the target empty, until the complete new one is at the target; success means the latter, with its index; failure leaves the old one at the target unless restoring fails too; it succeeds exactly when every step up to the last rename does, the archive has a bundle and the target was set aside, absent or an empty directory |
| Versions.PrecedenceLaws | bitloops/src/api/bundle.rs:353 | precedence is a total preorder that ties exactly versions differing in build metadata |
| Versions.PrecedenceIsItemEleven | bitloops/src/api/bundle.rs:353 | precedence is the order of item 11: major, minor, patch, a pre-release before its release, identifiers one by one with numbers before words |
| Versions.MetadataOrder | bitloops/src/api/bundle.rs:353 | build metadata compares identifier by identifier, a shorter list being smaller |
| Versions.VersionsLawful | bitloops/src/api/bundle.rs:353 | the comparison used for sorting and bounds is a total order |
| Versions.AtLeastByPrecedence | bitloops/src/api/bundle.rs:403 | when comparing with the library agrees with item 11 |
| BundleVersions.MinorLineMaximum | bitloops/src/api/bundle.rs:415-441 | `major.minor.x` admits every CLI up to that minor line |
| BundleVersions.LatestMaximum | bitloops/src/api/bundle.rs:392-412 | `latest`, in any case and with whitespace around, admits every CLI from the minimum on |
| BundleVersions.MaximumFailsIff | bitloops/src/api/bundle.rs:407-447 | a maximum is an error exactly when it is neither `latest`, nor two 64-bit numbers with `.x` behind, nor a version |
| BundleVersions.MinimumComesFirst | bitloops/src/api/bundle.rs:392-405 | an unreadable minimum is an error, a greater one refuses the CLI, and otherwise the maximum decides |
| BundleVersions.AcceptedVersionsAreConvex | bitloops/src/api/bundle.rs:392-447 | the CLI versions an entry accepts form an interval for every form of maximum |
| BundleVersions.MinimumByPrecedence | bitloops/src/api/bundle.rs:396-405 | the lower bound is the one of item 11 except exactly when the CLI ties with the minimum and has the smaller metadata |
| BundleVersions.MaximumByPrecedence | bitloops/src/api/bundle.rs:443-446 | the upper bound is except exactly when the CLI ties with the maximum and has the greater metadata |
| BundleVersions.MetadataExcludes | bitloops/src/api/bundle.rs:392-447 | two entries that refuse a CLI item 11 ranks equal to their bound |
| BundleVersions.ResolveApplicableVersions | bitloops/src/api/bundle.rs:322-358 | the loop gathers the candidates, or the first error, and ranks them |
| BundleVersions.CandidatesAreTheCompatible | bitloops/src/api/bundle.rs:329-351 | resolution fails exactly when some entry does; candidates are exactly what compatible entries resolve to |
| BundleVersions.FirstErrorDecides | bitloops/src/api/bundle.rs:329-351 | resolution fails with the error of the first entry that has one |
| BundleVersions.EntryContributes | bitloops/src/api/bundle.rs:329-351 | an entry becomes a candidate exactly when it accepts the CLI and version and both URLs resolve, to these; nothing exactly when it refuses the CLI; and otherwise the first error |
| BundleVersions.ResolvedInDescendingOrder | bitloops/src/api/bundle.rs:353-357 | the result is a rearrangement of the candidates, descending also by item 11, with ties in manifest order |
| BundleVersions.AttemptsEndAsTheyShould | bitloops/src/api/bundle.rs:99-108 | how an attempt ends, in all five cases: a missing archive exactly for status 404 on the archive, success exactly when archive and checksum arrive, agree and install |
| BundleVersions.FetchBundle | bitloops/src/api/bundle.rs:67-97 | the highest candidate is tried, and the second only when the archive of the first is answered with 404; the error is that of the last attempt |
| BundleVersions.FetchByAttempts | bitloops/src/api/bundle.rs:78-96 | how the ends of the attempts decide: a first one that does not miss its archive, or the only one, is final |
| BundleVersions.NothingCompatibleIff | bitloops/src/api/bundle.rs:67-76 | fetching reports that nothing is compatible exactly when every entry refuses the CLI |
| BundleVersions.LatestIsFetched | bitloops/src/api/bundle.rs:67-108 | an entry up to `latest` whose version and URLs resolve is fetched exactly when the archive behind its download URL has the digest behind its checksum URL and installs |
| BundleVersions.ChecksumIsFirstWord | bitloops/src/api/bundle.rs:463-472 | a checksum file means its first word in lower case if that is 64 hexadecimal digits, and nothing otherwise |
| BundleVersions.CheckAgreesWithFetch | bitloops/src/api/bundle.rs:26-97 | the check reports nothing compatible exactly when fetching fails for that reason and the installed version could be read; otherwise it announces the version that fetching tries first |
| BundleVersions.CheckAfterFetch | bitloops/src/api/bundle.rs:26-97 | the check calls the version just fetched up to date, any other one an update, and none at all not installed |
| HookCommand.FirstUnquotedWhitespace | bitloops/src/adapters/agents.rs:86-106 | the scanner returns the first whitespace that no quote or backslash covers |
| HookCommand.BackslashCovers | bitloops/src/adapters/agents.rs:91-100 | a backslash outside single quotes covers the next character and leaves the quoting as it was |
| HookCommand.DoubleQuotesCover | bitloops/src/adapters/agents.rs:91-103 | an assignment in double quotes is one token, whatever whitespace it holds |
| HookCommand.StripLeadingShellEnvAssignments | bitloops/src/adapters/agents.rs:72-84 | the loop strips the leading assignments |
| HookCommand.AssignmentIff | bitloops/src/adapters/agents.rs:108-118 | a token is an assignment exactly when it is a name, `=` and anything |
| HookCommand.StripFirstToken | bitloops/src/adapters/agents.rs:72-84 | the first token is dropped exactly when it is an assignment, and otherwise only whitespace in front is |
| HookCommand.IsManagedHookCommand | bitloops/src/adapters/agents.rs:63-66 | a command is recognised by the prefix of what is left |
| HookCommand.PlainCommandIsKept | bitloops/src/adapters/agents.rs:63-84 | a command whose first word is plain and no assignment is recognised by its own beginning |
| HookCommand.StripUndoesAssignment | bitloops/src/adapters/agents.rs:68-118 | an assignment of any quoted value to any name is stripped whole |
| HookCommand.StripUndoesWrapping | bitloops/src/adapters/agents.rs:37-84 | for every config path and command, stripping the wrapped command gives what stripping the bare one gives |
| HookCommand.WrappedIsManagedIffBareIs | bitloops/src/adapters/agents.rs:37-66 | the wrapped command is recognised exactly when the bare one is |
| HookCommand.StripIsIdempotent | bitloops/src/adapters/agents.rs:72-84 | stripping leaves nothing to strip |
| HookCommand.ShellReadsTheQuotedValue | bitloops/src/adapters/agents.rs:68-70 | a POSIX shell reads the quoted path back as the path |
| HookCommand.WrappedSetsTheVariable | bitloops/src/adapters/agents.rs:37-50 | a shell runs the wrapped command with `BITLOOPS_DAEMON_CONFIG_PATH_OVERRIDE` set to exactly the path |
| CodeLens.Provider.ClearAll | vscode-extension/src/codeLensProvider.ts:36-40 | the provider moves by the clear step |
| CodeLens.Provider.BeginRefresh | vscode-extension/src/codeLensProvider.ts:51-72 | a refresh up to its await takes a new version, or only empties the cache outside a workspace |
| CodeLens.Provider.ResumeLoaded | vscode-extension/src/codeLensProvider.ts:82-87 | an answer is cached only if its version is the latest |
| CodeLens.Provider.ResumeFailed | vscode-extension/src/codeLensProvider.ts:88-104 | a failure empties the cache only if its version is the latest, and then waits for the user when interactive |
| CodeLens.Provider.ResumeDismissed | vscode-extension/src/codeLensProvider.ts:95-104 | the failed request ends when its message is closed |
| CodeLens.RunConsistent | vscode-extension/src/codeLensProvider.ts:51-105 | in every run `inFlight` names only documents with a pending request |
| CodeLens.InFlightExactly | vscode-extension/src/codeLensProvider.ts:36-105 | in every run `inFlight` names a document exactly when a refresh of it began and no request of it ended since, and nothing was cleared |
| CodeLens.PendingIsMissedIff | vscode-extension/src/codeLensProvider.ts:70-105 | a pending request is missing exactly when a request of its document ended, or everything was cleared, after the last refresh began |
| CodeLens.InFlightMayMissPending | vscode-extension/src/codeLensProvider.ts:102-104 | a run after which a pending request is not in `inFlight` |
| CodeLens.TouchedIncreases | vscode-extension/src/codeLensProvider.ts:70-94 | in every run the versions that fill or empty a document's cache strictly increase |
| CodeLens.OthersLeaveTheCache | vscode-extension/src/codeLensProvider.ts:36-105 | nothing but such an answer, a clear or a refresh outside the workspace changes a document's cache |
| CodeLens.ClearsTheCache | vscode-extension/src/codeLensProvider.ts:36-67 | a clear empties the cache of every document, a refresh outside the workspace that of its own only, and neither ends a request |
| CodeLens.PendingSteps | vscode-extension/src/codeLensProvider.ts:70-105 | a request is pending from its begin to its answer, and behind an error shown until that is closed |
| CodeLens.EndsAreEnabled | vscode-extension/src/codeLensProvider.ts:70-105 | a refresh that has begun may be answered or fail, and a failure that is shown may be closed |
| CodeLens.VersionsCountBegins | vscode-extension/src/codeLensProvider.ts:70-71 | versions count the refreshes begun |
| CodeLens.LastBegunHasTheLastWord | vscode-extension/src/codeLensProvider.ts:51-105 | after the answer to the last refresh begun the cache holds its data, or nothing if it failed, until something is cleared, whatever older answers follow |
| Cosine.CosineSimilarity | bitloops/src/vector_search.rs:132-151 | the loop computes the dot product over the norms, minus infinity for unequal, empty or tiny vectors |
| Cosine.CauchySchwarz | bitloops/src/vector_search.rs:137-144 | the dot product squared never exceeds the product of the norm sums |
| Cosine.SimilarityIsBounded | bitloops/src/vector_search.rs:132-151 | a finite similarity lies between -1 and 1 |
| Cosine.SelfSimilarity | bitloops/src/vector_search.rs:146-150 | a vector whose norm sum is above 2^-23 scores 1 against itself, any other minus infinity against everything |
| Cosine.SimilarityIsTheCosine | bitloops/src/vector_search.rs:132-151 | a similarity is finite exactly for equally long vectors above that threshold, and times the norms it is the dot product |
| Cosine.OppositesScoreMinusOne | bitloops/src/vector_search.rs:132-151 | a vector scores -1 against its opposite |
| Cosine.SimilarityIsSymmetric | bitloops/src/vector_search.rs:132-151 | the similarity is symmetric |
| Cosine.ClampIsIdle | bitloops/src/vector_search.rs:153-158 | the clamp never changes an exact value |
| VectorSearch.RankedIsTop | bitloops/src/vector_search.rs:98-129 | re-ranking distinct candidates lists the best of those that exist, best first |
| VectorSearch.TopIsUnique | bitloops/src/vector_search.rs:117-128 | similarity descending and index ascending admit one such list only |
| VectorSearch.ExactModeIsTop | bitloops/src/vector_search.rs:59-79 | exact mode returns that list for all vectors |
| VectorSearch.ApproximateEqualsExactIff | bitloops/src/vector_search.rs:80-93 | whatever the index answers, the approximate result equals the exact one exactly when the answer holds all of it and repeats none of it, save the last of a full list |
| VectorSearch.ResultIsComplete | bitloops/src/vector_search.rs:80-93 | if the index returns as many candidates as asked the result has as many entries as limit and vectors allow, despite saturation and clamping |
| VectorSearch.AsksForFourTimes | bitloops/src/vector_search.rs:81-85 | four times the limit is asked for, at least eight, and no more than machine word and vectors allow |
| VectorSearch.AutomaticMode | bitloops/src/vector_search.rs:75-95 | automatic mode is exact for up to 128 vectors and approximate for more |
| VectorSearch.NothingFoundIff | bitloops/src/vector_search.rs:65-93 | nothing is found exactly for limit 0, no vectors, a query of no or another dimension, or an index that answers with no existing vector |
| VectorSearch.StoredVectorIsFoundFirst | bitloops/src/vector_search.rs:42-47 | a stored vector finds itself, or an earlier one scoring 1, in front: always among up to 128 vectors, and among more whenever it is a candidate |
| Base64Url.DecodeEncodedBytes | bitloops/src/devql_transport.rs:228-230 | decoding undoes encoding for all bytes |
| Base64Url.EncodeDecodedBytes | bitloops/src/devql_transport.rs:371-377 | strict decoding accepts one text per byte string |
| Base64Url.EncodedIsVisible | bitloops/src/devql_transport.rs:228-230 | encoded text is visible ASCII without whitespace, so trimming a header leaves it alone |
| Base64Url.AlphabetOfTheStandard | bitloops/src/devql_transport.rs:228-230 | the letters are those of table 2 in section 5 of RFC 4648 |
| Base64Url.GroupIsTheNumber | bitloops/src/devql_transport.rs:228-230 | the letters of a group are the digits to base 64 of its bytes, the first one highest |
| Base64Url.EncodeGroups | bitloops/src/devql_transport.rs:228-230 | groups of three bytes are encoded one behind the other |
| ScopeHeaders.EncodedArrives | bitloops/src/devql_transport.rs:356-384 | an encoded field arrives as it was, an empty one as absent |
| ScopeHeaders.UnsendableIff | bitloops/src/devql_transport.rs:115-158 | sending fails exactly when a raw field holds a control character other than a tab |
| ScopeHeaders.RawReads | bitloops/src/devql_transport.rs:356-369 | whatever a raw field holds: it is an error exactly when it is not visible text, absent exactly when missing or blank, and otherwise the text between the whitespace at its ends |
| ScopeHeaders.EncodedReads | bitloops/src/devql_transport.rs:371-384 | an encoded field is read as a text exactly when its raw reading is the encoding of that text and the text is not empty; it is an error when that is no base64url or no UTF-8 |
| ScopeHeaders.FirstProblemDecides | bitloops/src/devql_transport.rs:200-226 | without a repository root there is no scope; otherwise the first problem in the order of reading is the error, a required field missing included |
| ScopeHeaders.ScopeReadIff | bitloops/src/devql_transport.rs:200-226 | any headers are read as a scope exactly when every field is read as its own |
| ScopeHeaders.RoundTripIff | bitloops/src/devql_transport.rs:115-158 | a scope survives sending and parsing exactly when its raw fields are trimmed visible text and no encoded field is empty; an absent project path stays absent |
| ScopeHeaders.AssembledIff | bitloops/src/devql_transport.rs:200-226 | the parsed scope is the one sent exactly when every required field arrived |
| Registry.RepoPathRegistry.Upsert | bitloops/src/devql_transport.rs:264-292 | the entry of the repository is replaced or added, and the entries are sorted |
| Registry.RepoPathRegistry.IndexEntries | bitloops/src/devql_transport.rs:294-303 | the index maps each id to its entry |
| Registry.UpsertedScopeIsFound | bitloops/src/devql_transport.rs:264-303 | what is stored of a scope is read back under its repository, field by field |
| Registry.SortedByName | bitloops/src/devql_transport.rs:288-290 | entries are sorted exactly when no later name is smaller at the first differing character |
| Registry.TiesKeepTheirOrder | bitloops/src/devql_transport.rs:280-290 | among entries of one name a replaced one keeps its place and a new one comes last |
| Registry.NamesCompareAsBytes | bitloops/src/devql_transport.rs:288-290 | comparing names by characters is comparing the bytes of their encodings |
| Registry.UpsertWritesOneKey | bitloops/src/devql_transport.rs:264-303 | read through the index an upsert writes one key; ids stay unique and entries sorted by name |
| Registry.RegistryReplaysUpserts | bitloops/src/devql_transport.rs:264-303 | after any upserts from an empty registry the index is the replay of the upserts |
| Registry.LastWriteWins | bitloops/src/devql_transport.rs:294-303 | in the replay exactly the last write to each repository remains |
| CommitLog.ParseBranchCommitLog | bitloops/src/api/dashboard_git.rs:117-168 | the loop parses record by record, and returns the commits of any text the format prints |
| CommitLog.DeclaredFormat | bitloops/src/api/dashboard_git.rs:93-102 | the printed format separates fields by 0x1F and ends records by 0x1E |
| CommitLog.FieldsOfRecord | bitloops/src/api/dashboard_git.rs:125-166 | a record counts exactly with six fields or more and a name; an unreadable timestamp counts as 0 |
| CommitLog.PaddedFieldsParse | bitloops/src/api/dashboard_git.rs:125-166 | fields with whitespace around them are read without it |
| CommitLog.PrintedLogParses | bitloops/src/api/dashboard_git.rs:93-168 | printing any commits with the declared format and parsing the text returns them in order, with empty messages, any number of parents and whitespace between records |
| AgentKey.CanonicalAgentKey | bitloops/src/api/dashboard_git.rs:34-58 | the automaton computes the lowered alphanumeric runs joined by single dashes |
| AgentKey.RunsOfKey | bitloops/src/api/dashboard_git.rs:43-51 | the runs of a key are the lowered runs of the name |
| AgentKey.SameKeyIff | bitloops/src/api/dashboard_git.rs:34-58 | two names share a key exactly when their lowered runs are equal |
| AgentKey.KeyIsIdempotent | bitloops/src/api/dashboard_git.rs:34-58 | a key is its own key |

## Left out

- SessionRepair.Doctor.RunForced: what condensing does to the store and the branches is a parameter, taken to leave no commit that is cut inside a character; the prompts of the interactive loop are not modelled.
- SessionRepair.ForcedRunOutcome: covers forced runs in which nothing is condensed, because the state that condensing leaves is a parameter; `SessionRepair.RepairProtects` is what holds with condensing in between.
- SessionRepair.Doctor.CanDeleteShadowBranch: sees every stored session; the database backend skips rows it cannot read, and a session in such a row protects no branch.
- LogFollow.Follower.Follow: states conservation for the unfiltered follower; a level filter judges a partial line by itself, and the channel to the printer is not modelled.
- Cosine.CosineSimilarity: works over the reals, without rounding, overflow or NaN.
- BundleInstall.LocateBundleRoot: knows no symbolic links, which the file tests follow.
- BundleInstall.Installer.Install: knows no symbolic links either; a rename moves only the link, so an archive whose single directory is a link would not leave the complete bundle at the target. It follows POSIX renames, which replace nothing but an empty directory; the staging and backup names are taken to be fresh, and one installation runs at a time.
- The whole of an answer to `git branch --list` and of the JSON, tar, zstd, HTTP and URL formats: libraries or other programs.
- A branch that gains a new session between the listing and the deletion: the store changes only by the steps of the run itself.
- Paths that are not valid Unicode, and errors while printing.
- The file and the version number of the registry, and registries edited by hand, whose ids may repeat.
- `relative_path`, `parse_numstat_output`, `paginate`, user keys and filters: each does one plain thing to its input, and no other modelled behaviour depends on it.
- Daemon lifecycle, GraphQL, telemetry, transport and certificate handling and the user interface of the extension.
