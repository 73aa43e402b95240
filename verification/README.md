# Verified models of the ATM tooling

A Dafny 4.11 model of the Python tooling around the ATM daemon, with proofs of what that tooling
promises: the pipelined HTTP client and load generator of the admission benchmark, the idle
debounce shared by the lifecycle hooks, the sc-lint installer, the official benchmark run, the
statistics and verdicts of a campaign, and the redaction of public evidence.
`dafny verify dfyconfig.toml` checks the whole project.

| file | models |
|---|---|
| `HttpFraming.dfy`, `HttpFramingTheorems.dfy`, `HttpNumber.dfy`, `HttpReply.dfy` | `read_http_response` over an arbitrarily cut stream, the reference reader, what `int` reads, rendered replies |
| `Pipeline.dfy`, `Interval.dfy` | `submit_connection` and `run_interval` |
| `OriginId.dfy` | `benchmark_origin_metadata` |
| `IdleDebounce.dfy` | the hook processes around the pending-idle file, one system call per step |
| `SchemaMerge.dfy`, `Justfile.dfy`, `JustfileTheorems.dfy`, `JustfileConsumer.dfy`, `Installer.dfy`, `InstallerTheorems.dfy`, `InstallerAcceptance.dfy`, `InstallerRuns.dfy` | the sc-lint installer |
| `OrderStatistics.dfy`, `Metrics.dfy`, `Acceptance.dfy`, `Ratchet.dfy` | benchmark statistics, aggregation, verdicts and floors |
| `OfficialRun.dfy` | the official run and its use of git |
| `Redaction.dfy` | public redaction |
| `Search.dfy`, `PythonText.dfy` | first-occurrence search, concatenation and character classes shared by the others |

Code that updates things in place is modelled by classes and methods with loops; each such method
is tied to a function of the old state, or states the promised property outright, and the theorems
are proved about that function. Whatever the environment decides is a parameter that the theorems
quantify over: how the network cuts a stream and where it fails (`HttpFraming.Channel`, `Interval.Peer`), the
interleaving of processes (`IdleDebounce.Event`), the order in which workers finish, the way every
command of an official run ends (`OfficialRun.Script`), the digest function.

## Where the code and its promises part

Some promises do not hold for the code as it is. The model keeps the code's behaviour; one theorem
states the exact condition, and a second one exhibits inputs that meet it.

- A header block is safe from the 16,384-byte check under every chunking only up to 12,289 bytes,
  because the check also fires on bytes that arrived with the end of the header (`HeaderBoundIsExact`,
  `LongReplyTrips`).
- A negative Content-Length is accepted and the next read starts inside the old header block
  (`ExactFramingIffNonNegative`, `NegativeLengthOutcome`, `NegativeLengthAccepted`). An unparsable one raises a ValueError that
  `submit_connection` does not catch, so the answers already collected are lost
  (`Pipeline.Connection.Submit`, `PoisonedIff`, `BadLengthPoisons`).
- An older expiry can claim a newer Stop's token, before that Stop's delay is over
  (`ClaimsOwnTokenIff`, `StaleExpiryClaimsNewerToken`); an idle heartbeat can follow a cancel
  (`StrayHeartbeatIff`, `StrayHeartbeatHappens`). Of two overlapping Stops the slower writer's token
  stays in the file, not the later one's (`SlowerFillWins`).
- A Justfile whose closing marker precedes its opening one is accepted and never gets the block
  (`BlockInstalledIff`, `MisorderedIsAccepted`). A dry run announces installs that are then refused,
  because it does not look for edited files (`DryRunPredicts`, `EditSlipsPastDryRun`). A wanted empty
  file that is absent is not created (`InstallAchievesTargets`, `EmptyTargetIsNotCreated`).
- An install that is stopped can be run again only if it was stopped between two file operations, since
  a file is truncated and then written. Stopped inside an ordinary file, the next run is refused unless
  the file is complete or reads as before (`TornInstallResumesIff`, `TruncatedFileIsRefused`). Stopped
  inside the Justfile, what is left passes for the consumer's text; stopped right after truncation, the
  next run succeeds with nothing of the consumer's left (`TornJustfileRun`, `TruncatedJustfileRun`,
  `FirstInstallWritesJustfile`). Stopped inside the manifest, every run is refused until somebody
  removes it (`TornManifestRecovery`).
- `write_v4_evidence` retries after a failed validation so that the suite can go on, as its comment
  says; the retry can never publish (`RetryNeverHelps`, `FinishedLaneWithFailureRaises`). Its
  relabelled results do not satisfy their own validator (`RelabelledResultsDoNotValidate`,
  `OvercountedLaneIsRelabelled`).
- With a branch override the official run can reset HEAD's own commits away, although the docstring
  says never, and can end with exit 0 without having published its evidence commit
  (`OfficialRun.OfficialBenchmark.Execute`, `EvidencePublishedIff`, `OverrideRunLosesWork`).
- Dictionary keys are filtered but not rewritten, so a path in a key is published
  (`KeysAreNotRewritten`, `PathInKeyIsPublished`).

## Model

| member | source | states |
|---|---|---|
| HttpFraming.Recv | scripts/smoke/admission_capacity_transport.py:321-324 | a receive hands over the next bytes in order, at least one unless the peer closed, never more than asked |
| HttpFraming.HttpReader.Receive | scripts/smoke/admission_capacity_transport.py:321-324 | the in-place receive is that function of the connection's state |
| HttpFraming.HttpReader.FillHeader | scripts/smoke/admission_capacity_transport.py:320-326 | the header loop, with its closing, fault and bound errors, as a function of the old state |
| HttpFraming.HttpReader.ScanLength | scripts/smoke/admission_capacity_transport.py:332-337 | the first Content-Length line decides, none means zero, a bad number raises |
| HttpFraming.HttpReader.Interpret | scripts/smoke/admission_capacity_transport.py:328-337 | status line and declared length of a header block, the status error first |
| HttpFraming.HttpReader.FillBody | scripts/smoke/admission_capacity_transport.py:338-342 | the body loop as a function of the old state |
| HttpFraming.HttpReader.Consume | scripts/smoke/admission_capacity_transport.py:338-347 | completes the body, returns the frame and deletes it from the shared buffer |
| HttpFraming.HttpReader.ReadResponse | scripts/smoke/admission_capacity_transport.py:317-347 | one whole read refines `ReadStep`, state and result |
| HttpFramingTheorems.HeaderLoopOutcome | scripts/smoke/admission_capacity_transport.py:320-326 | for every chunking the header loop loses no byte and stops exactly where the stream has its blank line, or faults, or trips on a stream that does not fit |
| HttpFramingTheorems.BodyLoopOutcome | scripts/smoke/admission_capacity_transport.py:338-342 | the body loop never reads past the frame and fails only by fault or early close |
| HttpFramingTheorems.ReadMatchesReference | scripts/smoke/admission_capacity_transport.py:317-347 | for every chunking and fault and every length that is not negative, a read equals the reference reader on the whole stream unless a real fault or a header that does not fit; a frame leaves exactly the bytes after it |
| HttpFramingTheorems.FramesSurviveChunking | scripts/smoke/admission_capacity_transport.py:317-347 | k reads through one buffer return exactly the k frames in order and leave exactly the rest, however the stream is cut |
| HttpFramingTheorems.BufferStaysBounded | scripts/smoke/admission_capacity_transport.py:325-326 | between reads the shared buffer stays within the header bound, whatever length was declared |
| HttpFramingTheorems.HeaderBoundIsExact | scripts/smoke/admission_capacity_transport.py:320-326 | some chunking trips the check if and only if the stream exceeds 16,384 bytes and no blank line ends within 12,289 |
| HttpFramingTheorems.ExactFramingIffNonNegative | scripts/smoke/admission_capacity_transport.py:332-346 | every chunking frames exactly if and only if the declared length is not negative |
| HttpFramingTheorems.NegativeLengthOutcome | scripts/smoke/admission_capacity_transport.py:338-347 | a read with a negative length, to the byte: which bytes of the buffer stay, counted from its front or from its end, and which count as body |
| HttpNumber.ParseIntOf | scripts/smoke/admission_capacity_transport.py:336-336 | blanks, a sign or none, digits with single underscores between them and any leading zeros, blanks: read as that number |
| HttpNumber.ParseIntOnly | scripts/smoke/admission_capacity_transport.py:336-336 | whatever is read as a number is spelled so, and has that value |
| HttpReply.LengthFieldIff | scripts/smoke/admission_capacity_transport.py:334-335 | a line declares the length if and only if it is the fourteen letters of the name, each in either case, and a colon |
| HttpReply.LengthAfterOthers | scripts/smoke/admission_capacity_transport.py:332-337 | of several length fields the first decides |
| HttpReply.ParseBlock | scripts/smoke/admission_capacity_transport.py:328-337 | for any second field and any length: a status that is not all digits is refused first, then a length that is no number raises, and otherwise both are returned |
| HttpReply.TooFewFields | scripts/smoke/admission_capacity_transport.py:329-331 | a status line with fewer than two fields is refused, whatever follows |
| HttpReply.ParseRenderedHead | scripts/smoke/admission_capacity_transport.py:327-337 | a header block with a decimal status, a length field spelled in any mix of cases and any other lines before and after it parses to its status and that number, or to the ValueError |
| HttpReply.RenderedReplyIsFrame | scripts/smoke/admission_capacity_transport.py:327-347 | every well-formed reply with a safe header is one frame and parses back to its status, its body and, from status 400 on, the first 512 bytes of it |
| HttpReply.RepliesRoundTrip | scripts/smoke/admission_capacity_transport.py:317-347 | end to end: the replies written, each with its own spelling of the length field, blanks and other lines, are the responses read, under every chunking |
| HttpReply.NegativeLengthAccepted | scripts/smoke/admission_capacity_transport.py:332-346 | every reply that declares a negative length is accepted with it, and some chunking misframes the stream behind it |
| HttpReply.BadLengthRaises | scripts/smoke/admission_capacity_transport.py:332-337 | a length that is no number makes the very next read raise, under every chunking |
| HttpReply.MinimalHead | scripts/smoke/admission_capacity_transport.py:332-337 | the shortest reply takes 24 bytes beside its length, so both kinds of bad length fit into a safe header block |
| HttpReply.LongReplyTrips | scripts/smoke/admission_capacity_transport.py:320-326 | a header block of 13,031 bytes, within the 16,384 allowed, trips the check under some chunking |
| Pipeline.Connection.Submit | scripts/smoke/admission_capacity_transport.py:361-409 | never more than eight requests unanswered; the bytes handed to the socket are the frames in order, eight at a time, each batch after the answers to the one before; result i answers request i; at most one trailing transport failure, none only if all were answered; the exact result when opening, a send, a read or the close fails; on a working client every shortfall is where the stream broke off, and it raises if and only if some awaited response has an unparsable length |
| Pipeline.RepliesAreServed | scripts/smoke/admission_capacity_transport.py:393-404 | replies become results with their status, sizes and error text, a failure exactly when the status was not the expected one |
| Pipeline.BadLengthPoisons | scripts/smoke/admission_capacity_transport.py:332-404 | any number of good replies and then one with an unparsable length is a stream on which the submission raises |
| Pipeline.PoisonedIff | scripts/smoke/admission_capacity_transport.py:317-347 | without faults, on a stream whose headers fit, the ValueError comes after n answers if and only if the stream is n frames and then a header block whose first length field is no number |
| Interval.Deal | scripts/smoke/admission_capacity_transport.py:432-439 | the connections' numbers, in order, are exactly the interval's block; connection c starts c full connections into it and carries between one and a full connection; a non-positive request is refused |
| Interval.IntervalsTile | scripts/smoke/admission_capacity_transport.py:439-439 | the blocks of successive intervals tile the sequence numbers without gap or overlap |
| Interval.Merge | scripts/smoke/admission_capacity_transport.py:440-447 | all counters are independent of completion order; a raised connection raises the interval |
| Interval.FaithfulIsShaped | scripts/smoke/admission_capacity_transport.py:393-409 | what a connection returns for n requests: at most n results, or n and one status-0 failure |
| Interval.RunInterval | scripts/smoke/admission_capacity_transport.py:427-461 | deals, submits every share over its own connection, merges in any completion order; the accepted counter is the number of sequence numbers whose own connection answered them as expected, all of them on working clients; error free if and only if that is the whole block and nothing else came back; escapes on an unparsable length, always on working clients |
| Interval.SubmitOne | scripts/smoke/admission_capacity_transport.py:361-409 | one share over one connection: faithful results, or raised exactly on an unparsable length when the client works; the exact outcome otherwise |
| Interval.AcceptedNumbersSize | scripts/smoke/admission_capacity_transport.py:443-443 | counting accepted answers is counting accepted sequence numbers |
| Interval.NumbersAnswered | scripts/smoke/admission_capacity_transport.py:439-443 | a number is accepted only if its connection answered it so, and if on working clients |
| OriginId.DecodeEncode | scripts/smoke/admission_capacity_transport.py:177-178 | n digits keep exactly the low 5n bits |
| OriginId.RoundTrip | scripts/smoke/admission_capacity_transport.py:173-179 | the id decodes to its milliseconds and entropy if and only if the clock is below 2^50 |
| OriginId.OrderPreserved | scripts/smoke/admission_capacity_transport.py:178-178 | numerically smaller values encode to smaller strings |
| OriginId.IdsSortByTime | scripts/smoke/admission_capacity_transport.py:173-179 | string order is (milliseconds, entropy) order |
| OriginId.UlidShape | scripts/smoke/admission_capacity_transport.py:173-179 | the leading digit is in the ULID range exactly for clocks below 2^48 |
| OriginId.AlphabetMeans | scripts/smoke/admission_capacity_support.py:104-104 | the digits are exactly 0-9 and the capital letters other than I, L, O and U |
| OriginId.IdCharacters | scripts/smoke/admission_capacity_transport.py:173-179 | an id has 26 characters and holds none of I, L, O and U |
| IdleDebounce.HookState.CancelIdle | scripts/hooks/atm_queue_hook.py:148-152 | the cancel step on the shared state |
| IdleDebounce.HookState.OpenPending | scripts/hooks/atm_queue_hook.py:155-158 | Stop opens and truncates the pending file |
| IdleDebounce.HookState.FillPending | scripts/hooks/atm_queue_hook.py:158-170 | Stop fills the file it opened, linked or not, and spawns the expiry |
| IdleDebounce.HookState.ResumeExpiry | scripts/hooks/atm_queue_hook.py:183-196 | the read, unlink and send steps of an expiry with all their exits |
| IdleDebounce.HookState.Play | scripts/hooks/atm_queue_hook.py:148-214 | any list of steps taken through these methods is the run of the state machine, so its tally balances |
| IdleDebounce.Conservation | scripts/hooks/atm_queue_hook.py:148-196 | in every interleaving each opened file is overwritten, cancelled, claimed once or pending, each claim is one heartbeat sent or due; so idle heartbeats never exceed Stops |
| IdleDebounce.LastStopFires | scripts/hooks/atm_queue_hook.py:155-196 | in every interleaving, after the last Stop without a cancel and with all processes finished, the file is gone and exactly one claim and its heartbeat followed |
| IdleDebounce.CancelSilences | scripts/hooks/atm_queue_hook.py:148-196 | from a cancel to the next Stop nothing is claimed and only expiries already past their unlink send |
| IdleDebounce.SupersededIsSilent | scripts/hooks/atm_queue_hook.py:190-195 | an expiry that finds the file gone or with another token never claims and never sends, whatever happens afterwards |
| IdleDebounce.OnlyOwnTokenMatches | scripts/hooks/atm_queue_hook.py:190-196 | in every interleaving, whoever is past a matching read, has unlinked or has sent found its own token in the file when it read |
| IdleDebounce.SecondStopRestartsDelay | scripts/hooks/atm_queue_hook.py:155-196 | after two Stops in a row the first expiry gives up and only the second one sends |
| IdleDebounce.SlowerFillWins | scripts/hooks/atm_queue_hook.py:155-170 | two Stops that overlap: the file ends up with the token of the one that writes last, here the older one |
| IdleDebounce.CancelledFillIsLost | scripts/hooks/atm_queue_hook.py:148-170 | a Stop whose file was cancelled between open and write does not touch a file that a later Stop opened |
| IdleDebounce.StrayHeartbeatIff | scripts/hooks/atm_queue_hook.py:193-214 | an idle heartbeat can follow a cancel exactly when some expiry is between unlink and send |
| IdleDebounce.StrayHeartbeatHappens | scripts/hooks/atm_queue_hook.py:193-214 | one Stop, its expiry up to the unlink, a cancel, and the heartbeat still goes out |
| IdleDebounce.ClaimsOwnTokenIff | scripts/hooks/atm_queue_hook.py:190-193 | between a matching read and the unlink the file still holds the token read if and only if no step since was a Stop opening the file or filling the one still linked |
| IdleDebounce.StaleExpiryClaimsNewerToken | scripts/hooks/atm_queue_hook.py:190-196 | the race, from any state without a pending file: the older expiry claims the newer token while the newer delay runs |
| SchemaMerge.MergeSchema | plugins/sc-lint/install.py:41-51 | the recursive loop computes the merge, or a conflict exactly when there is none, in any key order |
| SchemaMerge.LoadSchema | plugins/sc-lint/install.py:54-60 | the fragment loop computes the fold and fails exactly when the fold does |
| SchemaMerge.MergeIsLeastUpperBound | plugins/sc-lint/install.py:41-51 | defined exactly when both sides have a common extension, and then the least one |
| SchemaMerge.MergeLaws | plugins/sc-lint/install.py:41-51 | idempotent and commutative, failures included |
| SchemaMerge.MergeAssociative | plugins/sc-lint/install.py:41-51 | associative, failures included |
| SchemaMerge.FoldIsLeastUpperBound | plugins/sc-lint/install.py:54-60 | folding is defined exactly when all fragments have one common extension, and gives the least |
| SchemaMerge.FragmentOrderIsIrrelevant | plugins/sc-lint/install.py:58-60 | the same set of fragments gives the same schema or fails, in any order |
| JustfileTheorems.PairShape | plugins/sc-lint/install.py:273-280 | one marker of each kind in order splits the text around its block, and substitution swaps exactly that |
| JustfileTheorems.SubAppend | plugins/sc-lint/install.py:235-236 | removal leaves marker-free text after a line break alone |
| JustfileTheorems.FoundTrimmed | plugins/sc-lint/install.py:272-280 | trimming and the appended blank line change none of the recipe and setting searches |
| JustfileTheorems.TestGuaranteed | plugins/sc-lint/install.py:272-272 | after the recipe step the consumer part defines `test`; what else it holds is said by `JustfileConsumer.ConsumerPart` |
| JustfileTheorems.MergeIsIdempotent | plugins/sc-lint/install.py:271-280 | for every Justfile it accepts, the step returns its own output unchanged |
| JustfileTheorems.TextOutsideMarkersKept | plugins/sc-lint/install.py:271-280 | with an ordered pair and a `test` recipe everything outside the markers stays as it was |
| JustfileTheorems.BlockInstalledIff | plugins/sc-lint/install.py:273-280 | the result holds the managed block, with exactly the lines its own consumer part calls for, if and only if the markers are not in the wrong order |
| JustfileTheorems.MisorderedIsAccepted | plugins/sc-lint/install.py:273-280 | closing marker above opening marker above any text with a `test` recipe is accepted, returned as it is, and has no block |
| JustfileTheorems.MergeOfEmpty | plugins/sc-lint/install.py:271-280 | an empty Justfile becomes a text made of the kit alone, with the recommended recipe as its consumer part |
| JustfileTheorems.ScLintKit | plugins/sc-lint/install.py:17-23 | the shipped markers, lines and recipe file meet what the theorems ask of a kit and hold no carriage return |
| JustfileConsumer.AcceptedIff | plugins/sc-lint/install.py:271-279 | a Justfile is accepted if and only if it has no marker, or one of each |
| JustfileConsumer.ConsumerPart | plugins/sc-lint/install.py:271-280 | the consumer part of the result, exactly, with or without markers and with or without a `test` recipe |
| JustfileConsumer.ConsumerTextKept | plugins/sc-lint/install.py:271-280 | for every accepted Justfile the old consumer part, up to white space at its ends, is where the new one begins |
| JustfileConsumer.FreeTextMerged | plugins/sc-lint/install.py:271-280 | a text without markers, exactly: the text, the recipe if it has none, a blank line, and the block it calls for |
| JustfileConsumer.BlankTextMerged | plugins/sc-lint/install.py:271-280 | a blank Justfile becomes the same as an empty one |
| JustfileConsumer.BlockSpelled | plugins/sc-lint/install.py:274-278 | the block line by line: shell setting and Python binding only where the consumer part has none, always the import |
| JustfileConsumer.FoundMeans | plugins/sc-lint/install.py:272-275 | a multi-line search finds a pattern exactly where a piece of text that it accepts starts a line |
| JustfileConsumer.TestRecipeMeans | plugins/sc-lint/install.py:272-272 | which text counts as the head of a `test` recipe |
| JustfileConsumer.ShellSettingMeans | plugins/sc-lint/install.py:274-274 | which text counts as a shell setting |
| JustfileConsumer.PythonBindingMeans | plugins/sc-lint/install.py:275-275 | which text counts as a Python binding, exported or not |
| JustfileConsumer.WordMeans | plugins/sc-lint/install.py:272-274 | the word characters within ASCII |
| Installer.Checkout.FindClashes | plugins/sc-lint/install.py:302-312 | exactly the pre-existing unmanaged files that differ |
| Installer.Checkout.PlanRetired | plugins/sc-lint/install.py:320-335 | conflict exactly on an unsafe name or an edited retired file, otherwise exactly the files to retire |
| Installer.Checkout.PlanChanges | plugins/sc-lint/install.py:336-340 | conflict exactly on an edited managed file in a real install, otherwise exactly the files that differ |
| Installer.Checkout.Apply | plugins/sc-lint/install.py:348-353 | unlinks, writes, then records the manifest; nothing else changes |
| Installer.Checkout.Install | plugins/sc-lint/install.py:296-354 | exit 2 exactly when refused, an unreadable manifest included; exit 2 and dry runs leave the checkout untouched; otherwise the installed state |
| InstallerTheorems.InstallRespectsEdits | plugins/sc-lint/install.py:301-353 | after any history of edits, damaged or removed manifests, stopped and finished installs, an ordinary file is touched only if it reads exactly as the last successful install left it, and one it did not install only if it is absent |
| InstallerTheorems.InstallAchievesTargets | plugins/sc-lint/install.py:336-353 | every target reads as wanted, retired files are gone, a target is missing exactly when it was absent and wanted empty |
| InstallerTheorems.EmptyTargetIsNotCreated | plugins/sc-lint/install.py:336-353 | an accepted install of one empty target into an empty checkout leaves it missing |
| InstallerTheorems.InstallIsFixedPoint | plugins/sc-lint/install.py:301-354 | running again finds nothing to change or retire and keeps the checkout; accepted again exactly when no target name is unsafe |
| InstallerTheorems.InterruptedInstallResumes | plugins/sc-lint/install.py:348-353 | an accepted install stopped between two file operations is accepted again and reaches the same state |
| InstallerTheorems.TornInstallRefusedIff | plugins/sc-lint/install.py:302-353 | stopped inside the write of a file, the next run with the same targets is refused if and only if the file is neither complete nor exempt nor of the recorded digest; otherwise it reaches the same state |
| InstallerTheorems.TornInstallResumesIff | plugins/sc-lint/install.py:302-353 | without digest collisions: it resumes if and only if the file is complete, exempt, or a managed file that reads as before |
| InstallerTheorems.TruncatedFileIsRefused | plugins/sc-lint/install.py:302-353 | in a fresh checkout a stop right after truncating an ordinary target is refused by the next run |
| InstallerTheorems.TornManifestRecovery | plugins/sc-lint/install.py:288-299 | with a manifest cut short every run with any targets is refused; once it is removed the same targets are accepted and reach the same state |
| InstallerTheorems.StoppedInstallTouchesLess | plugins/sc-lint/install.py:350-353 | a stopped install has touched only files that the whole install touches |
| InstallerTheorems.StrangersUntouched | plugins/sc-lint/install.py:322-353 | files neither wanted nor managed are never touched |
| InstallerTheorems.DryRunPredicts | plugins/sc-lint/install.py:336-353 | after an accepted dry run: nothing announced means the install is accepted and keeps every file; otherwise it is refused exactly when a file due to change was edited, and else touches exactly the announced files |
| InstallerTheorems.DryRunThenInstall | plugins/sc-lint/install.py:336-354 | the same by exit codes, for a dry run and then an install on one checkout |
| InstallerTheorems.EditSlipsPastDryRun | plugins/sc-lint/install.py:336-340 | an edited managed file that is due to change passes the dry run and is refused by the install |
| InstallerAcceptance.RefusedAfterHistory | plugins/sc-lint/install.py:301-340 | after any history and with a readable manifest an install is refused if and only if a name installed last is unsafe, an ordinary target that was not installed last is occupied by other bytes, or a file installed last was edited and is now unwanted or due to change; a dry run leaves the last out |
| InstallerAcceptance.UnreadableIff | plugins/sc-lint/install.py:288-301 | the manifest cannot be read if and only if it was damaged and not removed since |
| InstallerAcceptance.NewTargetsRefusedIff | plugins/sc-lint/install.py:301-340 | after a successful install and no edits any new targets are accepted, except for a target that a stranger occupies with other bytes and for unsafe names installed before |
| InstallerAcceptance.UnsafeMeans | plugins/sc-lint/install.py:323-325 | a name is unsafe if and only if it is absolute or has `..` among its components |
| InstallerRuns.MergePlain | plugins/sc-lint/install.py:270-280 | the merged Justfile has no carriage return if the text read had none |
| InstallerRuns.DesiredMeans | plugins/sc-lint/install.py:260-282 | the targets exist if and only if the Justfile is text with as many opening as closing markers and at most one; which files they are, with which bytes, and which of them are exempt |
| InstallerRuns.ConsumerTextSurvives | plugins/sc-lint/install.py:270-353 | after a successful install the Justfile reads as the merged text, and the consumer's part of it begins with what the consumer had |
| InstallerRuns.InstallConverges | plugins/sc-lint/install.py:259-282 | the targets computed from what an install left, finished or stopped between two file operations, are the targets it started with |
| InstallerRuns.InterruptedRunResumes | plugins/sc-lint/install.py:296-354 | stopped between two file operations, the next run recomputes the same targets, is accepted, and ends where the first would have |
| InstallerRuns.TornRunResumesIff | plugins/sc-lint/install.py:296-354 | stopped inside any file but the Justfile, the next run recomputes the same targets, and resumes exactly under the condition on that file |
| InstallerRuns.TornJustfileRun | plugins/sc-lint/install.py:270-354 | stopped inside the Justfile, the next run fails if what is left is no text or has a marker conflict; otherwise it is accepted and ends like the first but for a Justfile merged from what is left |
| InstallerRuns.TruncatedJustfileRun | plugins/sc-lint/install.py:270-354 | stopped right after truncating the Justfile, the next run is accepted and installs a Justfile made of the kit alone |
| InstallerRuns.FirstInstallWritesJustfile | plugins/sc-lint/install.py:270-353 | the first install into a repository whose Justfile has its own `test` recipe is accepted and writes that file |
| InstallerRuns.ScLintInputs | plugins/sc-lint/install.py:17-23 | the shipped kit, with one number per character as its encoding, meets all that these theorems ask of the inputs |
| InstallerRuns.RunInstaller | plugins/sc-lint/install.py:296-354 | exit 2 exactly when the targets cannot be computed or are refused; otherwise the installed state |
| InstallerRuns.InstallTwice | plugins/sc-lint/install.py:296-354 | a run right after a successful one recomputes everything, exits 0 and changes nothing |
| OrderStatistics.SortIsSorted | scripts/smoke/benchmark_schema.py:533-541 | sorting orders the values and loses none |
| OrderStatistics.SortDominated | scripts/smoke/benchmark_schema.py:533-541 | pointwise domination survives sorting |
| OrderStatistics.RankOf | scripts/smoke/benchmark_schema.py:536-536 | the rank is the floor of the scaled length, capped at the last index |
| OrderStatistics.RankIsSortedValue | scripts/smoke/benchmark_schema.py:531-536 | the sorted value at k is the only value with at most k below it and more than k up to it |
| OrderStatistics.PercentileHasRank | scripts/smoke/benchmark_schema.py:531-536 | the percentile is the one value whose rank is the scaled length rounded down, or else the last |
| OrderStatistics.MedianIsMiddle | scripts/smoke/benchmark_schema.py:544-545 | the median is the mean of the values of the two middle ranks |
| OrderStatistics.ExtremesBound | scripts/smoke/benchmark_schema.py:546-552 | minimum and maximum are measured values that bound the rest |
| OrderStatistics.DistributionOrdered | scripts/smoke/benchmark_schema.py:539-552 | every summary satisfies min <= p50 <= p95 <= p99 <= max |
| OrderStatistics.DistributionMeans | scripts/smoke/benchmark_schema.py:539-552 | the summary is the only one with the least value, half way between the middle ranks, rank 95n/100, rank 99n/100 and the greatest value |
| OrderStatistics.DistributionOfPermutation | scripts/smoke/benchmark_schema.py:539-552 | a summary does not depend on measurement order |
| Metrics.LatencyAggregateOrdered | scripts/smoke/benchmark_schema.py:596-648 | ordered per-interval latencies give an ordered mixed aggregate, fallbacks included |
| Metrics.LatencyAggregateMeans | scripts/smoke/benchmark_schema.py:596-648 | component by component: least minimum, median of medians, 95th of the 95ths, 99th of the 99ths with the 95th where one is missing, greatest maximum |
| Metrics.AggregateCounts | scripts/smoke/benchmark_schema.py:619-626 | the counters are the numbers of intervals and of passed ones, and the sums of the intervals' counters |
| Metrics.AggregateBytes | scripts/smoke/benchmark_schema.py:602-630 | request, response and total bytes are sums over the intervals |
| Metrics.AggregateRates | scripts/smoke/benchmark_schema.py:631-641 | each rate is the summary of its column, with a missing value taken from the first interval where the source does so |
| Metrics.ValidIff | scripts/smoke/benchmark_schema.py:576-652 | the metric models accept the aggregate if and only if no total and no rate is negative and the aggregated latencies are ordered from zero up |
| Metrics.SaneIntervalsValidate | scripts/smoke/benchmark_schema.py:576-652 | intervals without negative values and with ordered latencies always pass the metric models |
| Acceptance.PublishesExactly | scripts/smoke/admission_capacity_support.py:263-336 | a result is built exactly for sane metrics and frames without both a recorded failure and a finished lifecycle |
| Acceptance.RetryNeverHelps | scripts/smoke/admission_capacity_support.py:343-351 | whenever the first attempt fails validation the retry fails too |
| Acceptance.FinishedLaneWithFailureRaises | scripts/smoke/admission_capacity_support.py:263-336 | a finished lane with a recorded failure does fail its first attempt |
| Acceptance.Lane.WriteEvidence | scripts/smoke/admission_capacity_support.py:339-362 | publishes exactly under that condition, the relabelled draft, and mutates the evidence only when it raises |
| Acceptance.PublishedVerdict | scripts/smoke/admission_capacity_support.py:293-362 | PASS if and only if requested, accepted and mailbox counts agree, the median meets the floor and no failure is recorded; a recorded failure is always INCOMPLETE; FAIL exactly otherwise for a finished lane not overcounted |
| Acceptance.PublishedFields | scripts/smoke/admission_capacity_support.py:275-362 | the other fields of a published lane from the trace: counts, frames, reason, and metrics without their network part for direct storage |
| Acceptance.RelabelledResultsDoNotValidate | scripts/smoke/admission_capacity_support.py:352-359 | a published result satisfies its own validator exactly when it was not relabelled |
| Acceptance.OvercountedLaneIsRelabelled | scripts/smoke/admission_capacity_support.py:352-359 | one admission and a larger mailbox is published, relabelled and invalid |
| Acceptance.CampaignPassesIff | scripts/smoke/benchmark_schema.py:313-359 | a campaign validates as PASS if and only if the targets of its system, with `uds` except on Windows, are present once each and every lane is genuine |
| Acceptance.CampaignVerdict | scripts/smoke/benchmark_schema.py:313-359 | the only status under which a campaign validates: INCOMPLETE for an incomplete matrix or an unsettled lane, else FAIL for a lane that is not genuine, else PASS |
| Ratchet.RequireNonDecreasing | scripts/smoke/benchmark_schema.py:188-206 | accepts exactly a higher revision that keeps every key and every floor, or carries the reviewed exception |
| Ratchet.AcceptsIff | scripts/smoke/benchmark_schema.py:188-206 | key by key: a later revision is accepted if and only if every reviewed key is there with a floor that is not lower, or lowered by the named approver with a rationale |
| Ratchet.ChainRatchets | scripts/smoke/benchmark_schema.py:188-206 | along any accepted chain revisions rise, keys stay, and a floor ends lower only through an exception for that key |
| Ratchet.GroupsDecideMonotonic | scripts/smoke/benchmark_schema.py:445-452 | checking neighbours per group is checking every pair of points of one key |
| Ratchet.CheckRecord | scripts/smoke/benchmark_schema.py:440-453 | accepts exactly chronological campaigns and a ratchet monotonic per host and target |
| OfficialRun.SyncKeepsHeadIff | scripts/smoke/benchmark_official.py:126-128 | the synchronization that `Synchronize` and `Execute` perform keeps HEAD's commits if and only if the remote branch, or the local one that gets pushed, contains them |
| OfficialRun.SyncOfCurrentBranchKeepsHead | scripts/smoke/benchmark_official.py:109-130 | on the checked-out branch no commit is ever dropped |
| OfficialRun.EvidencePublishedIff | scripts/smoke/benchmark_official.py:126-220 | in the state a successful run leaves, the evidence commit is on the remote branch if and only if that branch is checked out or already had it |
| OfficialRun.CanPublishIff | scripts/smoke/benchmark_official.py:126-220 | the remote takes both pushes of a run if and only if the checked-out branch has not diverged, or another branch is there locally and not outrun |
| OfficialRun.OverrideRunLosesWork | scripts/smoke/benchmark_official.py:69-95 | a flawless override run that exits 0, has reset an unpushed commit away and has its evidence on no remote branch |
| OfficialRun.EverythingIff | scripts/smoke/benchmark_official.py:69-220 | all eight stages are reached and nothing fails afterwards if and only if every command on the way succeeded, the tree was clean each time, the branch name is allowed and the remote takes both pushes; saving stranded commits matters only if there are any |
| OfficialRun.LoggedStepsMean | scripts/smoke/benchmark_official.py:69-220 | no stage is logged unless its commands succeeded: account, synchronization, build, measurement, commit and push each imply how their own commands ended |
| OfficialRun.OfficialBenchmark.PushStranded | scripts/smoke/benchmark_official.py:226-238 | succeeds exactly when HEAD is not ahead or every command of the push does its part; pushes exactly when ahead, only forward, and otherwise changes nothing |
| OfficialRun.OfficialBenchmark.Preflight | scripts/smoke/benchmark_official.py:109-130 | succeeds exactly when the account is verified and reset, the tree is clean before and after, the branch is allowed and every command of the synchronization does its part; then the checkout is exactly the synchronized one; HEAD moves only for a verified and reset account and from a clean tree, and keeps its commits on every path if the branch covers them |
| OfficialRun.OfficialBenchmark.ChooseBranch | scripts/smoke/benchmark_official.py:119-124 | the override or the current branch exactly when there is one that is allowed, else an error |
| OfficialRun.OfficialBenchmark.Synchronize | scripts/smoke/benchmark_official.py:125-129 | succeeds exactly when fetch, stranded push, reset and the clean tree do; then the synchronized checkout, and otherwise HEAD stays covered |
| OfficialRun.OfficialBenchmark.RenderPublishPush | scripts/smoke/benchmark_official.py:199-224 | succeeds exactly when rendering, publishing, staging, commit and push all end as they should and the tree is clean; which steps are logged and the exact checkout in every case; no commit lost |
| OfficialRun.OfficialBenchmark.Stages | scripts/smoke/benchmark_official.py:73-83 | how many stages are reached, from how the commands end alone; the log is that prefix of the full trace, possibly ended by a failed reset; the exact checkout once synchronized |
| OfficialRun.OfficialBenchmark.Conclude | scripts/smoke/benchmark_official.py:84-107 | cleanup ends every verified run, a measured FAIL outranks every other error, exit 0 if and only if every stage and reset succeeded |
| OfficialRun.OfficialBenchmark.Execute | scripts/smoke/benchmark_official.py:69-107 | exit 0 if and only if everything went right as `EverythingIff` spells it out, 1 if and only if the matrix was measured and FAILED, else 2; the whole log and, once synchronized, the whole checkout from how the commands end; HEAD moves only for a verified and reset account and from a clean tree; evidence only after a successful reset; for every override: HEAD's commits are kept on every exit if the branch covers them and, once synchronized, only then; after exit 0 the evidence is on the remote exactly when the branch is checked out or had it |
| OfficialRun.OfficialBenchmark.ExecuteAll | scripts/smoke/benchmark_official.py:226-238 | over any number of failing runs without an override every evidence commit stays reachable from HEAD |
| Redaction.MatchIsLongestPath | scripts/public_redaction.py:11-13 | the matcher finds a root followed by non-separators exactly when one is there and takes the longest |
| Redaction.ScanCoversText | scripts/public_redaction.py:32-32 | only whole matched paths are replaced and every other character is kept in place |
| Redaction.RedactionIsComplete | scripts/public_redaction.py:32-32 | no match is left after substitution |
| Redaction.PathFreeMeans | scripts/public_redaction.py:11-13 | no match anywhere is the same as no path inside the text |
| Redaction.PublicStringIsClean | scripts/public_redaction.py:30-32 | no path is left and a second pass changes nothing, the cut included |
| Redaction.PublicStringFixedPoint | scripts/public_redaction.py:30-32 | a string is published unchanged exactly when it is short and free of paths |
| Redaction.RedactEquation | scripts/public_redaction.py:30-32 | the first path of a text, to its end or the next separator, becomes one replacement; the text before it stays and the text after it is redacted in turn |
| Redaction.PublicStringIsPrefix | scripts/public_redaction.py:30-32 | all of the redacted text is published, up to its first 2000 characters |
| Redaction.PublicValueIsPublic | scripts/public_redaction.py:35-49 | every string is clean and no sensitive key is left at any depth |
| Redaction.PublicValueFixedPoint | scripts/public_redaction.py:35-49 | a value is published unchanged exactly when it is already safe |
| Redaction.PublicValueIdempotent | scripts/public_redaction.py:35-49 | redacting twice is redacting once |
| Redaction.PublishedInPlace | scripts/public_redaction.py:35-49 | every value stays in its place, redacted, unless a sensitive key leads to it, and nothing is added |
| Redaction.PublishedLeaf | scripts/public_redaction.py:35-49 | text is redacted, scalars are unchanged, any other object becomes its redacted text |
| Redaction.KeysAreNotRewritten | scripts/public_redaction.py:43-48 | the published value has a path in a key exactly when a retained key of the input has one |
| Redaction.PathInKeyIsPublished | scripts/public_redaction.py:43-48 | whatever is filed under a `/tmp/...` key is published under that key |

## Left out

- The Rust daemon and CLI, and every script not named above.
- Connecting, TLS, sending and closing are a success or a failure each; the frames of the requests are given bytes, so their headers are not modelled.
- The interpreter's limit on the length of integer literals in `int()`, and the decoding of the retained error text.
- Elapsed times, rates and byte sums of an interval, and the limit on concurrent workers.
- Clock and entropy of a message id are parameters; the shift and the bitwise or are products and sums of parts that do not overlap.
- In the idle debounce, failing heartbeats count as sent, tokens are written in one call after the truncating open, and an unlinked open file can still be filled, as on POSIX systems.
- Schema values are taken up to Python's `==`, which identifies `True`, `1` and `1.0`.
- In the Justfile patterns every non-ASCII character that is not white space counts as a word character. Decoding and encoding are parameters; reading is taken to translate carriage returns away.
- The answers of an installation stay the same between its runs; whether a partly written answers file can be read again is not modelled.
- In the installer, directories in place of files, symbolic links, the schema checks of the input, template rendering, and the encoding of the manifest: cut short it is taken to be unreadable, and nobody forges one. The digest is any function, and one without collisions where contents are concluded from digests.
- The outcome of the `just` probe of a dry run is a parameter.
- Floats are reals: rounding in means and in scaled ranks is not modelled.
- Field formats, timestamps, identifiers and hashes of the benchmark schema; a campaign's results share its identity and host.
- In the official run, killing and finding daemons is one command that succeeds or fails, and log output and notification are not modelled.
- Dictionaries with keys other than strings in redaction.
