# OpenShell: verified models

This project models the algorithms and protocols inside OpenShell's bootstrap, CLI, core and policy
crates, and proves what they promise over all inputs, all runs and all interleavings.

| file | models |
|---|---|
| `Text.dfy`, `Decimal.dfy` | the parts of Rust's string API and of decimal printing and parsing that the rest uses |
| `TextFacts.dfy` | what those string functions mean, in terms of positions and characters |
| `Glob.dfy` | the wildcard matcher: a scan that remembers one `*` |
| `BuildContext.dfy` | the `**/` layer, last-match-wins ignore rules, the pruning walk of the build context |
| `ContextNames.dfy`, `ContextMeaning.dfy` | the names of archive members, and what ignore rules mean for a tree |
| `CertStore.dfy` | the crash-safe swap of the CLI's certificate directory |
| `ShellQuote.dfy` | quoting of command arguments, and the shell that reads them back |
| `SshConfig.dfy`, `SshInclude.dfy` | the managed SSH configuration and the line that includes it |
| `SshLookup.dfy` | a client that reads the managed configuration back |
| `Pki.dfy` | the gateway's TLS secrets and their reconciliation |
| `Deploy.dfy` | the deploy lifecycle over an abstract Docker daemon |
| `Logs.dfy` | log line reassembly from chunks, and the window of recent lines |
| `Policy.dfy`, `PolicyPaths.dfy` | sandbox policies: the two conversions, validation, path normalization |
| `ForwardSpec.dfy`, `ForwardDir.dfy` | forward specifications and the directory of forward PID files |
| `Callback.dfy` | concurrent browser-callback handlers that share a sender |
| `NamespaceWait.dfy` | the bounded wait for the gateway's namespace |

`dafny verify dfyconfig.toml` checks everything.

## How the outside world enters

Files, the Docker daemon, Kubernetes, processes and the network are parameters. Each operation that can
fail takes its outcome from an environment that the statement quantifies over: `CertStore.Env` gives the
fate of every directory operation (including a removal or a write cut short), `Deploy.Daemon` the answer
to every request (a failing request may still have taken effect), `Pki.Attempt` how many applies succeed
and whether reads tell the truth, `NamespaceWait.World` what every attempt sees, `ForwardDir.Processes`
which processes are alive and which PID files can be removed, and `Callback.Run` takes any schedule of
handler steps. Directory listings and the entries of a tree come in any order. Base64 is an inverse pair and does not appear. Strings are
sequences of Unicode characters.

## What turned out to be false

Each of these is kept as the code has it, with a proof of exactly when the promise holds.

- The wildcard matcher tests for a literal match before it tests for a `*`, so a `*` of the pattern that
  first meets a `*` of the text is used up by it. It agrees with the meaning of every pattern on a text if
  and only if the text has no `*` (`Glob.MatcherExactIffNoStarInText`); what it accepts always matches.
- TLS secrets can be mixed after a read that failed although the secrets were there. In any run, what loads
  is one attempt's bundle if and only if the last attempt that wrote anything wrote all three secrets
  (`Pki.MixedExactlyAfterPartialWrite`), and a mixed set then stays (`Pki.MixedForGood`). With truthful
  reads secrets are never mixed (`Pki.NeverMixed`).
- A parsed policy survives save and reload if and only if no endpoint's only port is zero
  (`Policy.SaveAndReload`).
- The check against an overly broad read-write path misses a path such as `/.`, which names nothing;
  of the paths that name nothing, exactly those with a dot component are misjudged
  (`PolicyPaths.BreadthCheckExact`, `PolicyPaths.RootInDisguise`). On normalized paths it is exact.
- The code does not recognise its own include line if the managed path has whitespace, so every run adds
  another copy (`SshInclude.CopiesPileUp`). After one or more runs there is exactly one copy, ahead of every
  section, if and only if the path has no whitespace, or it has no newline and this was the first run, on a
  file without a copy (`SshInclude.IncludedOnceAhead`).
- The user's other lines are kept if and only if none of them ends in a carriage return once its line ending
  is off (`SshInclude.OthersKeptExactly`); `a` followed by two carriage returns and a newline loses one
  (`SshInclude.CarriageReturnLost`). For the same reason `upsert_host_block` is idempotent on a text if and
  only if no line outside the replaced block is like that (`SshConfig.UpsertTextIdempotent`).
- A member's name gives back its file's path if and only if no name on the path has a backslash
  (`ContextNames.NameGivesPath`). The members of an archive have different names if and only if no two
  archived files differ only in which separators are backslashes (`ContextNames.ArchiveNamesDistinct`); a
  tree with the file `a\b` and a file `b` under `a` fails (`ContextNames.BackslashNamesCollide`).
- A rule with a slash also prunes directories whose path merely begins with its text: `a/b` prunes `a/bc`
  (`ContextMeaning.PrefixPrunesSibling`). On paths without a `*` a pattern means what it should if and only
  if it does not overshoot in this way (`ContextMeaning.PlainExact`).
- A fresh deploy that stops before the guarded part is not cleaned up: a stop at volume set-up leaves the
  network, one at the port check the volume as well, and, if failing requests have no effect, the earlier
  stops leave nothing (`Deploy.Docker.Deploy`). If every request up to the container's start succeeds, a
  deploy ends like that if and only if the port is taken (`Deploy.PortConflictLeavesResources`).

Where comments and code disagree the code is followed: a pattern without a slash is tried on the first and
last component of a path, not on every one (crates/openshell-bootstrap/src/build.rs:278-294), though the walk
makes up for it (`ContextMeaning.SlashFreeRuleReachesEveryName`); existing
certificates are reused by their PEM markers alone, without a look at their expiry
(crates/openshell-bootstrap/src/lib.rs:1173-1186 against 613-615).

## Model

| member | source | states |
|---|---|---|
| Glob.SimpleGlobMatch | crates/openshell-bootstrap/src/build.rs:301-332 | The loop with one remembered star, which terminates by the lexicographic measure of star, absorbed text and position, decides exactly what unlimited backtracking decides |
| Glob.LaterStartsReachStar | crates/openshell-bootstrap/src/build.rs:314-321 | Why the older star may be forgotten: any acceptance from a later start is also found by letting the star just reached absorb |
| Glob.MatchesIffExpansion | crates/openshell-bootstrap/src/build.rs:300-301 | The reference relation is "each `*` stands for any run, each `?` for any one character, every other character for itself" |
| Glob.AcceptedMatches | crates/openshell-bootstrap/src/build.rs:301-332 | Soundness for every pattern and text: what is accepted matches |
| Glob.MatcherExactIffNoStarInText | crates/openshell-bootstrap/src/build.rs:310-317 | The matcher is right about every pattern on a text if and only if the text has no `*` |
| Glob.MisjudgedFails | crates/openshell-bootstrap/src/build.rs:311-314 | For every text with a `*`, a pattern that matches it and is refused |
| BuildContext.GlobMatch | crates/openshell-bootstrap/src/build.rs:263-298 | With leading any-directories parts the rest must match the path or what follows one of its slashes; without, the path itself |
| BuildContext.RepeatedAnyDirsCollapse | crates/openshell-bootstrap/src/build.rs:265-276 | Any number of repeated leading `**/` means the same as one |
| BuildContext.IsIgnored | crates/openshell-bootstrap/src/build.rs:240-255 | Ignored exactly if the last rule that matches is not a negation |
| ContextMeaning.LeadingSlashIgnored | crates/openshell-bootstrap/src/build.rs:240-255 | A rule with a slash in front applies where the same rule without it does |
| BuildContext.WalkAndAdd | crates/openshell-bootstrap/src/build.rs:155-196 | The walk appends exactly the contribution of the directory's entries, in order |
| BuildContext.ContextExact | crates/openshell-bootstrap/src/build.rs:155-196 | The archive has each member once, and a file is a member if and only if neither it nor any directory above it is ignored |
| ContextNames.NameGivesPath | crates/openshell-bootstrap/src/build.rs:169-176 | A member's name split at slashes is its file's path if and only if no name on it has a backslash |
| ContextNames.NamesIdentifyFiles | crates/openshell-bootstrap/src/build.rs:169-176 | Two files get one name if and only if they differ at most in which separators are backslashes |
| ContextNames.ArchiveNamesDistinct | crates/openshell-bootstrap/src/build.rs:155-196 | An archive's members have different names if and only if no two archived files are alike in that way |
| ContextNames.BackslashNamesCollide | crates/openshell-bootstrap/src/build.rs:176 | A well-formed tree whose archive has two members of one name |
| ContextMeaning.PlainExact | crates/openshell-bootstrap/src/build.rs:278-297 | On a path without `*` a pattern applies exactly if it means the path or overshoots to a directory whose name goes on; code and meaning agree if and only if it does not overshoot |
| ContextMeaning.PrefixPrunesSibling | crates/openshell-bootstrap/src/build.rs:297 | The rule `a/b` applies to the directory `a/bc`, which it does not mean |
| ContextMeaning.SiblingFileLeftOut | crates/openshell-bootstrap/src/build.rs:155-196 | Under that rule a file below `a/bc` is in no archive |
| ContextMeaning.ContextMeansRules | crates/openshell-bootstrap/src/build.rs:155-298 | For every tree without `*` in its names, a file is archived if and only if neither it nor a directory above it is excluded by what the rules cover |
| ContextMeaning.SlashFreeRuleReachesEveryName | crates/openshell-bootstrap/src/build.rs:280-294 | A single rule without a slash leaves out exactly the files with an accepted name anywhere on their path |
| CertStore.CertDirs.StorePkiBundle | crates/openshell-bootstrap/src/mtls.rs:14-77 | Whatever operation fails or crashes: the target when present is complete, nothing recoverable is lost, the old target stays as target or backup until the new one is in; a normal return happens exactly if every operation made succeeds and no document is empty, and leaves `ca.crt`, `tls.crt` and `tls.key` with the authority's certificate and the client's certificate and key, and nothing else |
| CertStore.CertDirs.PrepareTemp | crates/openshell-bootstrap/src/mtls.rs:19-42 | The temporary directory holds exactly those three documents before anything else is touched, exactly if every operation succeeds and none is empty |
| CertStore.CertDirs.ValidateBundleDir | crates/openshell-bootstrap/src/mtls.rs:95-107 | Accepts exactly directories with all three files present and not empty |
| CertStore.RunAttempts | crates/openshell-bootstrap/src/mtls.rs:14-77 | Over any run of calls: the target is absent or one of the bundles offered, and after one success a complete bundle is always recoverable |
| ShellQuote.QuotingRoundTrip | crates/openshell-cli/src/ssh.rs:410-414 | For every argument vector, token recognition and quote removal give it back from the joined command line, with no special character left unquoted |
| ShellQuote.LexEscaped | crates/openshell-core/src/forward.rs:474-488 | One escaped argument reads back as one word, whatever it contains and whatever follows |
| SshConfig.UpsertHostBlock | crates/openshell-cli/src/ssh.rs:960-996 | The text is that of the line list with the alias's section replaced or a new one added |
| SshConfig.UpsertHostIdempotent | crates/openshell-cli/src/ssh.rs:960-996 | On every list of lines, upserting a block of the alias twice is upserting it once |
| SshConfig.UpsertTextIdempotent | crates/openshell-cli/src/ssh.rs:960-996 | On texts, the same if and only if no line outside the replaced block ends in a carriage return |
| SshConfig.UpsertTextDrifts | crates/openshell-cli/src/ssh.rs:960-996 | A text on which a second upsert changes something |
| SshConfig.UpsertIsPut | crates/openshell-cli/src/ssh.rs:960-996 | On a laid-out table, upserting a block is putting its entry into the table |
| SshConfig.ManagedFileIsTable | crates/openshell-cli/src/ssh.rs:998-1015 | From an empty file, after any installs the text is one block per table entry, separated by one blank line; what the blocks say is `SshLookup.LookUpFindsLastInstall` |
| SshConfig.TableIsMap | crates/openshell-cli/src/ssh.rs:998-1015 | The table has one entry per distinct name, in first-install order, with the gateway installed last |
| SshConfig.HostLineNamesIt | crates/openshell-cli/src/ssh.rs:950-958 | A block's host line is matched by its own alias and by no other |
| SshLookup.HostLinesAre | crates/openshell-cli/src/ssh.rs:950-958 | A host line, however indented, names exactly the words after `Host` |
| SshLookup.LookUpFindsLastInstall | crates/openshell-cli/src/ssh.rs:866-1015 | After any installs, a client that looks up a sandbox's host in the managed text finds exactly the settings of its last install, and nothing for a name never installed |
| SshLookup.ProxyWords | crates/openshell-cli/src/ssh.rs:866-875 | The shell reads the proxy command as the executable, whatever its path, and its arguments, for safely named gateways and sandboxes |
| SshLookup.GatewayReadBack | crates/openshell-cli/src/ssh.rs:866-1015 | From the managed text alone, the gateway a sandbox is reached through is the one installed last, and the sandbox is itself |
| SshInclude.IncludedOnceAhead | crates/openshell-cli/src/ssh.rs:894-948 | After one or more runs on any configuration there is exactly one copy of the include line, and no section line before it, if and only if the path has no whitespace or the run was the first; without whitespace no other line includes the path either |
| SshInclude.CopiesPileUp | crates/openshell-cli/src/ssh.rs:894-917 | With whitespace in the path, n runs add n copies |
| SshInclude.OthersKeptExactly | crates/openshell-cli/src/ssh.rs:917-948 | Through any number of runs the other non-blank lines keep content and order, if and only if none ends in a carriage return |
| SshInclude.CarriageReturnLost | crates/openshell-cli/src/ssh.rs:917-948 | A line that is changed by every number of runs, whatever is included |
| SshInclude.InsertKeeps | crates/openshell-cli/src/ssh.rs:918-940 | On lines, one insertion keeps every other non-blank line as it is, in order |
| SshInclude.ScopeLinesAre | crates/openshell-cli/src/ssh.rs:919-926 | `Host` and `Match` lines, however indented, are section lines |
| SshInclude.IncludesItsWords | crates/openshell-cli/src/ssh.rs:894-906 | An include line includes exactly its words, plain or in double quotes |
| SshInclude.IncludeLineIs | crates/openshell-cli/src/ssh.rs:890-892 | The line that is written: the path in double quotes |
| SshInclude.ConfigFiles.EnsureOpenshellInclude | crates/openshell-cli/src/ssh.rs:908-948 | The user's file becomes the rendering of the inserted line list |
| SshInclude.ConfigFiles.InstallSshConfig | crates/openshell-cli/src/ssh.rs:998-1015 | An install is one include run on the user's file and one step of the managed file whose lookups `SshLookup.LookUpFindsLastInstall` states |
| Pki.NeverMixed | crates/openshell-bootstrap/src/lib.rs:1012-1056 | From no secrets, after any attempts that each stop after any of the applies, whatever loads is one attempt's bundle in every field, and so is every field of the three secrets |
| Pki.LoadableIsFinal | crates/openshell-bootstrap/src/lib.rs:1034-1045 | Once they can be loaded the secrets are never changed again |
| Pki.LoadableExactly | crates/openshell-bootstrap/src/lib.rs:1161-1186 | The secrets load exactly if all six documents are there and are PEM |
| Pki.PemHasOpening | crates/openshell-bootstrap/src/lib.rs:1174-1186 | A text counts as PEM exactly if the opening of a PEM document occurs in it |
| Pki.MixedExactlyAfterPartialWrite | crates/openshell-bootstrap/src/lib.rs:1012-1056 | For any run with any reads, what loads is one attempt's bundle if and only if the last attempt that wrote anything wrote all three secrets |
| Pki.MixedForGood | crates/openshell-bootstrap/src/lib.rs:1154-1171 | A failed read and a stopped apply leave a mixed set, which every later truthful attempt keeps |
| Pki.MixedExactlyAfterFailedRead | crates/openshell-bootstrap/src/lib.rs:1154-1171 | On a complete set, an attempt leaves the secrets of one bundle if and only if it could read them or applied none or all of its own |
| Pki.Cluster.CreateTlsSecrets | crates/openshell-bootstrap/src/lib.rs:951-1004 | The three secrets are applied in order as far as the applies succeed, with the server's pair, the authority and the client's pair each in its place |
| Pki.Cluster.ReconcilePki | crates/openshell-bootstrap/src/lib.rs:1012-1056 | Reuses what loads, else applies a new bundle; what it returns is what the secrets now hold |
| Pki.DeployPki | crates/openshell-bootstrap/src/lib.rs:624-635 | When reconcile, restart and store all succeed the three files of the CLI's directory are exactly the client's documents in the cluster's secrets; a failed restart leaves the CLI's copy alone |
| Deploy.Docker.Deploy | crates/openshell-bootstrap/src/lib.rs:453-749 | Without `recreate` an existing volume is kept whatever fails; a deploy succeeds only if each of the eight requests after the start does, and exactly then if all before were good and the port is free, else it is rolled back; a cleaned-up failure leaves nothing of a fresh deploy and only the volume of a resumed one; what every earlier stop leaves; a success runs on a network made by this deploy |
| Deploy.Docker.SetUp | crates/openshell-bootstrap/src/lib.rs:513-577 | An existing volume is kept, the network is new, and a taken port always stops it, with both in place |
| Deploy.Docker.Prepare | crates/openshell-bootstrap/src/lib.rs:453-512 | Whether to resume, what a `recreate` clears away, and when an image is needed |
| Deploy.Docker.BringUp | crates/openshell-bootstrap/src/lib.rs:585-711 | Succeeds only if each of the eight requests after the start does, and exactly then if all before were good |
| Deploy.Docker.BringUpOrCleanUp | crates/openshell-bootstrap/src/lib.rs:585-749 | A failure is cleaned up exactly if the cleanup's own requests succeed, and then leaves nothing, or the volume alone when resuming |
| Deploy.PortConflictLeavesResources | crates/openshell-bootstrap/src/lib.rs:556-577 | On an empty daemon with every request answered well, a taken port leaves a volume and a network behind |
| Deploy.UnreadyGatewayRolledBack | crates/openshell-bootstrap/src/lib.rs:685-749 | A fresh deploy whose gateway does not become ready leaves nothing |
| Deploy.RunDeploys | crates/openshell-bootstrap/src/lib.rs:453-749 | Over any run of deploys without `recreate`, a volume that exists before one is there after every later one, by identity |
| Deploy.Docker.EnsureNetwork | crates/openshell-bootstrap/src/docker.rs:364-405 | Success leaves a network that did not exist before; with removals working it is exactly that one of five tries is good and those before it met a conflict |
| Deploy.Docker.EnsureVolume | crates/openshell-bootstrap/src/docker.rs:407-423 | An existing volume is kept; otherwise a new identity is made |
| Deploy.Docker.EnsureContainer | crates/openshell-bootstrap/src/docker.rs:473-800 | Exactly when a container is reused as it is and when it is made anew, and which requests must succeed; either way it is on the present network |
| Deploy.Docker.ReconcileNetwork | crates/openshell-bootstrap/src/docker.rs:1107-1158 | Success leaves the container on the present network, and besides it only on networks it could not be taken off |
| Deploy.Docker.StartContainer | crates/openshell-bootstrap/src/docker.rs:870-899 | Success exactly if one of five tries works or finds it running, with a busy port before it; a failed start may have taken effect |
| Deploy.Docker.DestroyResources | crates/openshell-bootstrap/src/docker.rs:911-1017 | Success leaves neither container nor volume nor network |
| Deploy.Docker.CleanupContainer | crates/openshell-bootstrap/src/docker.rs:1024-1059 | Removes container and network and cannot touch the volume; a container that stays has been stopped or detached at most |
| Deploy.Docker.ForceRemoveNetwork | crates/openshell-bootstrap/src/docker.rs:1064-1097 | Success leaves no network |
| Deploy.Docker.RemoveGatewayContainer | crates/openshell-bootstrap/src/docker.rs:923-955 | Success leaves no container; a failed removal may have stopped it and detached it, no more |
| Logs.LogReader.StreamContainerLogs | crates/openshell-bootstrap/src/runtime.rs:228-268 | For every cutting into chunks and every interleaving, the lines sent from a stream are its pieces between newlines, each without the carriage returns at its end and otherwise as it is, and its trimmed tail; an error sends a notice and leaves the tails unsent |
| Logs.LogReader.AppendLogChunk | crates/openshell-bootstrap/src/runtime.rs:270-279 | Sends the lines that the chunk ends and keeps what follows the last newline |
| Logs.LogReader.FlushPartial | crates/openshell-bootstrap/src/runtime.rs:281-287 | Sends the trimmed tail unless it is empty |
| Logs.EndedLinesAppend | crates/openshell-bootstrap/src/runtime.rs:270-279 | The lines of a text are those of its first part and those of the held tail with the rest: cutting anywhere changes nothing |
| Logs.LinesArePieces | crates/openshell-bootstrap/src/runtime.rs:272-277 | The ended lines come from the pieces between newlines, in order, and the tail is the last piece |
| Logs.EndedLinesMean | crates/openshell-bootstrap/src/runtime.rs:272-277 | Each line is a prefix of its piece that does not end in a carriage return, what is cut off is carriage returns only, and pieces of nothing else give none |
| Logs.PlainLines | crates/openshell-bootstrap/src/runtime.rs:272-277 | Without carriage returns the ended lines are exactly the non-empty pieces but the last |
| Logs.LogWindow.DrainLogs | crates/openshell-bootstrap/src/runtime.rs:289-303 | Hands on all waiting lines in order, and the window is exactly the last 15 received |
| Policy.NormalizationIsProjection | crates/openshell-policy/src/lib.rs:255-356 | Saving and reading back twice is doing it once, for every wire policy |
| Policy.PortsOf | crates/openshell-policy/src/lib.rs:266-276 | What becomes of an endpoint's ports: `ports` before `port`, clamped, a lone zero dropped, `port` the first |
| Policy.ParsingKeeps | crates/openshell-policy/src/lib.rs:156-249 | Parsing keeps every field in order: names default to keys, ports are the list or else the single port |
| Policy.WritingKeeps | crates/openshell-policy/src/lib.rs:255-356 | Writing keeps every field in order: ports clamped and compact, alternatives before a glob, an empty identity left out |
| Policy.NormalizedKeeps | crates/openshell-policy/src/lib.rs:156-356 | A saved and reloaded policy is the policy, except for an empty identity, empty names, ports, missing `allow`s, globs beside alternatives and harness marks, each of which becomes what is stated |
| Policy.SaveAndReload | crates/openshell-policy/src/lib.rs:156-249 | A parsed policy with its identity filled in survives save and reload if and only if no endpoint's only port is zero |
| Policy.EnsureSandboxProcessIdentity | crates/openshell-policy/src/lib.rs:459-469 | Missing or empty identity fields become `sandbox`, those present are kept, nothing else changes, and it is idempotent |
| PolicyPaths.ValidateSandboxPolicy | crates/openshell-policy/src/lib.rs:542-616 | Lists exactly the violations there are, one for every path at fault, in the order of the checks |
| PolicyPaths.NoViolationIffSafe | crates/openshell-policy/src/lib.rs:527-541 | There is nothing to list if and only if the policy is safe |
| PolicyPaths.SafeMeans | crates/openshell-policy/src/lib.rs:527-541 | Safe means: identity `sandbox`, at most 256 paths, each of at most 4096 bytes, absolute and without a piece of two dots, and the writable ones more than slashes |
| PolicyPaths.FaultsExactly | crates/openshell-policy/src/lib.rs:566-594 | The faults of one path, and that of a path that is too long nothing else is said |
| PolicyPaths.ByteLengthOf | crates/openshell-policy/src/lib.rs:567 | Lengths are in bytes of UTF-8 |
| PolicyPaths.ReloadKeepsVerdict | crates/openshell-policy/src/lib.rs:375-380 | A saved and reloaded policy has the violations it had |
| PolicyPaths.NormalizePath | crates/openshell-policy/src/lib.rs:632-651 | Pushing the components gives the root, if any, and the names joined by single slashes |
| PolicyPaths.NormalizationKeepsComponents | crates/openshell-policy/src/lib.rs:632-651 | Normalization keeps the root and the ordered components other than a dot |
| PolicyPaths.NormalizationIdempotent | crates/openshell-policy/src/lib.rs:632-651 | A normalized path is its own normal form |
| PolicyPaths.NormalizationShortens | crates/openshell-policy/src/lib.rs:632-651 | Normalization never lengthens |
| PolicyPaths.VerdictsUnchanged | crates/openshell-policy/src/lib.rs:578-594 | The relative and traversal verdicts are those of the normal form |
| PolicyPaths.AcceptedReadWritePath | crates/openshell-policy/src/lib.rs:566-609 | A normalized read-write path that passes is rooted, has no `..` and names something |
| PolicyPaths.BreadthCheckExact | crates/openshell-policy/src/lib.rs:599-608 | On a path as given the breadth check finds exactly those that name nothing and have no dot component |
| PolicyPaths.RootInDisguise | crates/openshell-policy/src/lib.rs:599-608 | A path that passes validation and yet is the root |
| Decimal.ParseOfPrint | crates/openshell-core/src/forward.rs:286-311 | Every number that fits is read back from its printed form |
| Decimal.ParseEdges | crates/openshell-core/src/forward.rs:286-311 | One plus sign is passed over, nothing is not a number, larger numbers are refused |
| Decimal.PrintIsDecimal | crates/openshell-core/src/forward.rs:329-337 | The notation is the usual decimal one |
| ForwardSpec.ParseOfDisplay | crates/openshell-core/src/forward.rs:329-337 | Parsing the printed spec gives it back: any address, colons included, and any port from 1 to 65535 |
| ForwardSpec.DisplayIs | crates/openshell-core/src/forward.rs:267-337 | A port alone stands for 127.0.0.1; any other address is set off by a colon |
| ForwardSpec.DisplayIsNormalForm | crates/openshell-core/src/forward.rs:286-337 | What parses has a port in range, and printing after parsing is a stable normal form |
| ForwardSpec.ColonNeedsPort | crates/openshell-core/src/forward.rs:286-306 | A text with a colon is accepted exactly if a port from 1 on follows the last one |
| ForwardDir.DecodeFileName | crates/openshell-core/src/forward.rs:226-229 | The lister reads every written name back, dashes included |
| ForwardDir.OwnerOfFileName | crates/openshell-core/src/forward.rs:142-151 | The search by port agrees with the lister on every name |
| ForwardDir.PortForFileName | crates/openshell-core/src/forward.rs:187-199 | The stop by name picks exactly the files of that name, even among names that extend it |
| ForwardDir.FileNameIs | crates/openshell-core/src/forward.rs:25-27 | The name of a pair's file |
| ForwardDir.ForeignFiles | crates/openshell-core/src/forward.rs:142-229 | A file without a name belongs to nobody, and one with another extension is no PID file to any of the three readings |
| ForwardDir.ReadOfContents | crates/openshell-core/src/forward.rs:80-92 | A written record is read back field by field |
| ForwardDir.ContentsAre | crates/openshell-core/src/forward.rs:32-47 | The text of a record: its fields, set off by tabs |
| ForwardDir.PidDirectory.WriteForwardPid | crates/openshell-core/src/forward.rs:32-47 | The directory then represents the table with this pair put in |
| ForwardDir.PidDirectory.FindForwardByPort | crates/openshell-core/src/forward.rs:136-154 | Answers exactly if some pair has the port, and then with the name of one |
| ForwardDir.PidDirectory.StopForward | crates/openshell-core/src/forward.rs:157-180 | Removes exactly this pair, or nothing if its file cannot be removed, and reports a stop exactly if its process was gone or was the expected one |
| ForwardDir.PidDirectory.StopForwardsForSandbox | crates/openshell-core/src/forward.rs:183-206 | Exactly the pairs of that name go whose files can be removed, and each stopped port is reported once |
| ForwardDir.PidDirectory.ListForwards | crates/openshell-core/src/forward.rs:219-252 | Every pair is listed exactly once, nothing else is, and the list is sorted by sandbox and port |
| ForwardDir.LexMeans | crates/openshell-core/src/forward.rs:250 | The order of the listing is that of the texts |
| ForwardDir.RunActions | crates/openshell-core/src/forward.rs:25-206 | After any writes and stops the directory represents exactly the map they leave |
| Callback.DeliveredOnceAndValid | crates/openshell-cli/src/auth.rs:284-378 | Over every interleaving at most one token is delivered, and exactly if the first handler to take the sender had a valid request; harmless requests never take it; every answer depends on its own request alone |
| Callback.StepKeepsInv | crates/openshell-cli/src/auth.rs:223-230 | Every step of every handler keeps the sender's invariant |
| Callback.PlanIsValidity | crates/openshell-cli/src/auth.rs:292-371 | The checks in their order deliver exactly for valid requests and leave the sender alone exactly for harmless ones |
| Callback.AnswersExactly | crates/openshell-cli/src/auth.rs:292-377 | Each status with exactly the requests that get it |
| Callback.HarmlessRequestsKeepSender | crates/openshell-cli/src/auth.rs:292-329 | If every request is harmless the sender survives any run |
| NamespaceWait.WaitForNamespace | crates/openshell-bootstrap/src/lib.rs:1237-1339 | Ends within 60 attempts with the verdict that the outcomes call for, never runs past the loop, and sleeps the backoffs before it, at most 113,000 ms |
| NamespaceWait.VerdictsMean | crates/openshell-bootstrap/src/lib.rs:1290-1336 | What each verdict says about the attempt it is reached at and those before |
| NamespaceWait.ProbedEveryThird | crates/openshell-bootstrap/src/lib.rs:1253-1264 | Probes are made at attempts 3, 6, 9 and so on |
| NamespaceWait.DnsErrorExactly | crates/openshell-bootstrap/src/lib.rs:1263-1289 | The DNS error exactly if two failed probes with no successful one between them come before any other end |
| NamespaceWait.EndIsUnique | crates/openshell-bootstrap/src/lib.rs:1261-1336 | The outcomes admit one verdict at one attempt only |
| NamespaceWait.SleepBound | crates/openshell-bootstrap/src/lib.rs:1245-1247 | The sleeps before the last attempt add up to exactly 113,000 ms |

## Left out

- Docker, kubectl, helm, kind and ssh calls: only their effect on an abstract state, with success or failure chosen freely; the kind path of a deploy and the SSH handshake secret would repeat what is here, and the removal of images after a destroy is not modelled.
- YAML and JSON text, TLS, certificate generation and base64: foreign libraries; the policy model starts at the parsed records and a generated bundle is any with PEM markers.
- Reading `.dockerignore`, symlinks, and read errors during the walk: the walk is over a symlink-free tree and a given pattern list.
- Directory and file permissions: the swap models contents and presence only.
- Process probing with `pgrep`, `ps`, `kill` and `lsof`: an oracle says which processes are alive and which match.
- Files in the forwards directory that no write made, and reads of it that fail: outside the represented map.
- UTF-8 decoding of log chunks: the model starts from characters, so a cut inside a character is not covered.
- ShellQuote.QuotingRoundTrip: covers token recognition and quote removal, not reserved words, aliases or assignments.
- SshLookup.ProxyWords: for gateways and sandboxes whose names the shell takes as they stand; the code writes them unquoted, so the shell reads other names as it reads any text.
- SshLookup.GatewayReadBack: for such names only, likewise; `SshLookup.LookUpFindsLastInstall` gives the text of the command for all names.
- SshInclude.OthersKeptExactly: leaves out a managed path with a newline in it, whose include line is two lines of the file.
- SshInclude.IncludedOnceAhead: section lines are those the code recognises, that is `Host` or `Match` followed by a space.
- The receiving end of the callback, response bodies and headers, and message wording: display or plumbing.
- Argument dispatch, completions, settings and error tables: easy branch-by-branch facts.
