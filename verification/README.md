# delightd in Dafny

delightd is a control-plane daemon: it keeps a registry of live services, backs projects up when they change, watches
their git state, dispatches skill calls, publishes backup events and keeps exported binaries linked. This project models
the closed algorithms and protocols behind that, and proves what they keep over every input, run and interleaving.

| module | models | in the form of |
|---|---|---|
| `Registry`, `Bucket` | the lease registry over one sorted bucket, corrupt values included | a class whose transactions refine one map update each |
| `LeaseRuns` | whole runs of claims, heartbeats, sweeps, reboots, removals and bit rot | a step system over the map updates |
| `Register` | the registration broker: gates, replies, `NotRegistered` events, broker runs | a class, and a trace refinement into `LeaseRuns` |
| `Backoff`, `Machine` | the backup state machine and its backoff in wrapping 64-bit nanoseconds | a class refined by a step function; histories |
| `Pipeline` | one goroutine per project interleaved with HTTP requests, checks and acts apart | a step system |
| `Paths`, `CleanPaths` | path prefixes and bases, `filepath.Clean` and `Join` | functions on strings against component lists |
| `Selection` | the pruned backup walk | tree recursion against a flat filter |
| `Rotation` | archive names and rotation, hindered rotations and failed attempts included | a class over a directory listing; runs from any directory |
| `Unpushed` | the unpushed count over a commit graph, and the choice of remote | loops against graph reachability |
| `GitSweep` | the bounded concurrent sweep of all projects | a step system |
| `Dispatch` | placeholder substitution, path escaping, positional shell URLs | loops against token lists |
| `Publisher` | the message frame, lazy schema registration under concurrency | a codec and a step system |
| `Exports` | reconciliation of the exported links, failing file operations included | a class over files known by their cleaned paths |
| `Config`, `Roots` | project validation and merging, root resolution | classes against selections |

All operations run on their real error paths: a commit that fails, a value that does not decode, an unreadable directory,
a file that cannot be written, linked, moved or removed, a log that cannot be opened and a registry that refuses are
inputs, not preconditions. `Wrappers`, `Sequences` and `Ordering` hold what the modules share.

## Where the code and its promises differ

The model follows the code. Where a promise fails, a lemma names a failing input and another says exactly when it holds.

- **Backoff.** The wait is the intended min(2^n, 60) minutes for 1 to 27 consecutive failures. At 28 the 64-bit product is
  negative and slips past the one-hour cap, so the retry is immediate. One minute is 29296875 * 2^11 ns; up to 62 failures
  the wait is right exactly when n <= 27, or n <= 52 and bit 52 - n of 29296875 is clear (`Backoff.BackoffExactlyWhen`).
  From 53 to 62 it is zero.
- **A trigger while a backup runs** is a 409 in docs/api.md line 407; the code accepts it and does nothing, so the reply
  is 200. A request is a 409 exactly when it is a trigger to a machine in error before its retry time
  (`Pipeline.ReplyExactly`).
- **Command arguments.** `renderArgs` says a value lands as exactly one argument no matter what it contains. A value with a
  brace can be filled again or be reported as unfilled, depending on map order (`Dispatch.ArgsDependOnOrder`); the entry is
  the simultaneous substitution exactly when every placeholder has an argument and the values used are brace-free.
- **Argument names.** `renderURL` and `renderArgs` replace a placeholder by text, so an argument named "b}{c" matches across
  two placeholders (`Dispatch.BracedNameDependsOnOrder`). With brace-free values, as escaping makes them, every flat template
  is filled right in every order exactly when each argument whose placeholder reads as several has the value those have
  together (`Dispatch.NamesAreHarmlessWhen`); brace-free names always do.
- **Root resolution** is documented as idempotent. That holds exactly for a home that is unset, absolute, cleans to one
  whose first component is "..", or is literally "~" (`Roots.ResolutionIsIdempotentWhen`); "h" as HOME breaks it.
- **Unpushed count.** Every complete walk gives the number of commits HEAD reaches and the tracking commit does not exactly
  when no such commit is a merge, old pushed merges being harmless; with a tracking commit outside HEAD's history, exactly
  when it shares nothing with it (`Unpushed.CountIsExactWhen`). After an unpushed merge the count can be too small or too
  large (`Unpushed.MergesMiscount`), though one particular walk may be right (`Unpushed.SomeWalkCountsRight`).
- **The all clear.** A count of zero means HEAD is the tracking commit, or that the log could not be opened or broke off
  before HEAD; these are the only three cases (`Unpushed.ZeroExactlyWhen`). The last two are false all clears
  (`Unpushed.FailedLogReadsAsPushed`).
- **Rotation** sorts by name only. A foreign .tgz that sorts after the new archive can push the new one out
  (`Rotation.ForeignArchiveEvicts`); under an unhindered rotation the new archive survives exactly when the limit is not
  positive or fewer archives than the limit sort after it (`Rotation.JustWrittenSurvivesWhen`). A failed attempt removes
  its own file by name, and so an archive of the same second (`Rotation.FailureTakesNamesake`); a run keeps the newest
  archives all along exactly when that never hits one still due (`Rotation.RunKeepsNewestWhen`).
- **Shared binary names.** Exports that lead to one path, under one name or as "x" and "./x", make the link depend on map
  order (`Exports.SharedNameDependsOnOrder`); it does not exactly when those that are to be linked have the same target
  (`Exports.OrderIndependentWhen`).
- **Names that Join changes.** A link is made at the joined path, but orphans are told by the raw names. An export named
  "./x" with a managed target is linked as "x" and archived by the same Sync, every time
  (`Exports.DotNameIsArchivedAtOnce`). A Sync without failures leaves what it should, and a second one is idle, exactly when
  exports at one path agree and no link is made where it is a stray managed one (`Exports.SyncConvergesWhen`,
  `Exports.SecondSyncIsIdleWhen`); for names a directory can list only the first condition is left
  (`Exports.PlainNamesAreTidy`).
- **Unique project names.** A repeated project name would let two pipelines run on one machine; no run does exactly when
  the names are distinct (`Pipeline.OneOwnerWhen`), which validation ensures.

## Model

| member | source | states |
|---|---|---|
| `Registry.Registry.Upsert` | pkg/registry/registry.go:101-133 | told outright: a claim is refused, with the first holder in key order and no change, iff another project's decodable registration has its non-empty address; a project's own entry and corrupt ones never stand in the way, and any other claim writes exactly its own key, or fails whole |
| `Registry.ClaimedMeans` | pkg/registry/registry.go:101-133 | the map update of a claim, in the same plain terms |
| `Registry.Registry.Delete` | pkg/registry/registry.go:135-141 | removes exactly that project's entry, present or not, or nothing when the commit fails |
| `Registry.Registry.Get` | pkg/registry/registry.go:143-159 | the registration under the project, or nothing when absent or corrupt |
| `Registry.Registry.List` | pkg/registry/registry.go:161-177 | the decodable registrations, each once for every key that holds it, ordered by project, strictly so when values sit under their own keys |
| `Registry.Registry.RefreshLease` | pkg/registry/registry.go:184-234 | collect-then-apply is one map update: only the lease of exactly the entries of that service changes, and it reports true iff there is one; a value that does not marshal, a put or a commit that fails changes nothing, and then it reports whether a put had succeeded |
| `Registry.Registry.ExpireDue` | pkg/registry/registry.go:236-265 | returns exactly the registrations it removes, once each and in key order: those whose lease is absent or not after now |
| `Registry.Registry.ReconcileWarmStart` | pkg/registry/registry.go:267-301 | re-stamps every decodable entry to now plus grace and leaves corrupt values alone |
| `Registry.CollectBeats` | pkg/registry/registry.go:196-221 | the scan's list holds every entry the refreshed map differs at, with its new value, one pair for each entry of that service |
| `Registry.CollectDecodable` | pkg/registry/registry.go:272-291 | the scan's list holds every entry the re-stamped map differs at, with its new value |
| `Registry.ApplyUpdates` | pkg/registry/registry.go:222-230 | putting the collected pairs one by one gives exactly the intended map |
| `Registry.DeleteAll` | pkg/registry/registry.go:255-261 | deleting the collected keys one by one removes exactly those keys |
| `LeaseRuns.StepKeepsExclusive` | pkg/registry/registry.go:101-301 | every step keeps addresses held by at most one project and values under their own key |
| `LeaseRuns.RunKeepsExclusive` | pkg/registry/registry.go:105-133 | over every run from the empty store no two projects' decodable registrations hold one non-empty address |
| `LeaseRuns.RefusalNamesTheOneHolder` | pkg/registry/registry.go:110-127 | after any run a claim on another project's address changes nothing, and the holder reported is the only project there |
| `LeaseRuns.FreeAddressIsGranted` | pkg/registry/registry.go:110-131 | after any run a claim against which no other project's decodable registration stands takes effect |
| `LeaseRuns.ReclaimTakesEffect` | pkg/registry/registry.go:101-104 | re-claiming is idempotent: after any run a project registers again at its own address |
| `LeaseRuns.LostHolderFreesAddress` | pkg/registry/registry.go:119-122 | once a holder is removed or no longer decodes, the next claim on its address takes effect |
| `LeaseRuns.CorruptStays` | pkg/registry/registry.go:196-291 | over any run a corrupt value is touched only by a claim or a removal of its key, never by leases and sweeps |
| `LeaseRuns.RaceHasOneWinner` | pkg/registry/registry.go:105-133 | of two claims racing for a free address the earlier wins and the later changes nothing |
| `LeaseRuns.LeaseFate` | pkg/registry/registry.go:196-301 | whether an entry is still there, and with which lease, is exactly the deadline automaton over the steps: beats and reboots move the deadline, a sweep at or after it removes |
| `LeaseRuns.BeatingServiceStays` | pkg/registry/registry.go:184-265 | when every sweep comes less than a TTL after an earlier beat the service is never removed, foreign claims and rot of other keys included |
| `LeaseRuns.RegularBeatsKeep` | cmd/delightd/main.go:462-506 | beats at gaps shorter than the TTL cover every sweep, wherever the sweeps fall |
| `LeaseRuns.RegularServiceStays` | pkg/registry/registry.go:184-265 | a service beating at gaps shorter than the TTL is never removed under any sweep schedule |
| `LeaseRuns.RegularServiceSurvivesReboot` | cmd/delightd/main.go:384-389 | the same across a reboot when the first beat comes within the 30 s grace |
| `LeaseRuns.WarmStartedServiceStays` | cmd/delightd/main.go:384-389 | after a reboot no sweep removes the service while each comes within the grace or less than a TTL after a beat |
| `LeaseRuns.SilentServiceGoes` | pkg/registry/registry.go:236-265 | a silent registration lapsing by t is gone after the first sweep at or after t, and stays gone |
| `LeaseRuns.LeasesAreBounded` | pkg/registry/registry.go:184-301 | under the daemon's TTL and grace no lease ever reaches more than a TTL past the clock |
| `LeaseRuns.SilentSinceIsGone` | cmd/delightd/main.go:480-506 | over a whole run from the empty store, a service silent since t is gone after the first sweep at or after t plus the TTL |
| `LeaseRuns.SilentAfterWarmStartIsGone` | cmd/delightd/main.go:384-389 | after a reboot a silent service is gone at the first sweep past the grace, however long its stored lease |
| `Register.Server.NotRegisteredReply` | pkg/httpapi/register.go:164-194 | one refusal and, with a bus configured, exactly one event with its code |
| `Register.Server.Judge` | pkg/httpapi/register.go:82-115 | the verdict is that of the first failing gate in the documented order, or a pass when none fails |
| `Register.Server.HandleRegister` | pkg/httpapi/register.go:70-157 | the store is written only when all gates pass, by one claim whose endpoint is the one health-checked; an accepted caller is told, and stored with, its own identity, contracts and first endpoint, registered now and leased for 90 s; every refusal emits exactly one event and nothing else does; the write is the request's broker step |
| `Register.HasSubject` | pkg/httpapi/register.go:253-260 | true iff the subject is among the references |
| `Register.VerifyContracts` | pkg/httpapi/register.go:226-251 | the first failing contract gate decides: heartbeat emitted, each subject known, each served method well formed |
| `Register.AskAll` | pkg/httpapi/register.go:231-243 | the subject questions, asked in order, decide as their gates do |
| `Register.VerdictIsUnique` | pkg/httpapi/register.go:82-115 | a gate list has one verdict: a refusal is never ambiguous about its status and code |
| `Register.FirstFailureDecides` | pkg/httpapi/register.go:82-115 | each gate in order with its status and code, told outright: unmanaged project, foreign identity, no endpoint, no heartbeat subject, the first subject unknown or unverifiable, a malformed method, a failed health check |
| `Register.PassedRequest` | pkg/httpapi/register.go:82-115 | a request past all gates is rostered, consistent, reachable at its first endpoint, emits the heartbeat and has only known subjects and well-formed methods |
| `Register.EffectKeepsAdmitted` | pkg/httpapi/register.go:70-157 | every broker step keeps each stored registration traceable to a request that passed all gates |
| `Register.BrokerStoresOnlyAdmitted` | pkg/httpapi/register.go:70-157 | over every broker run each stored registration is, but for its lease, exactly what some request past all gates asked for: its project, identity, contracts, healthy first endpoint and time |
| `Register.TraceFollowsPolicy` | pkg/httpapi/register.go:119-131 | the broker's steps stamp the TTL and the grace the lease results assume |
| `Register.BrokerRunIsALeaseRun` | cmd/delightd/main.go:378-506 | broker runs are lease runs: exclusive addresses, own keys, bounded leases |
| `Register.AcceptedIsLive` | pkg/httpapi/register.go:117-135 | after any run a request past all gates at an address no other project holds is live as the service it named, for 90 s |
| `Register.AcceptedServiceStays` | cmd/delightd/main.go:462-506 | from then on, while heartbeats of that service come less than 90 s apart, it is live under that name, whatever else is requested and whenever the broker sweeps |
| `Register.ServiceSurvivesReboot` | cmd/delightd/main.go:384-389 | the same across a reboot when the first heartbeat comes less than 30 s after it |
| `Register.SilentServiceIsExpired` | cmd/delightd/main.go:480-506 | without a heartbeat or a request of its project since t it is gone after a sweep 90 s later, for good |
| `Backoff.BackoffIsIntended` | pkg/state/state.go:82-88 | for 1 to 27 failures the wrapped wait is exactly min(2^n, 60) minutes, never under two |
| `Backoff.FirstWaits` | pkg/state/state.go:82-85 | in nanoseconds: 2, 4, 8, 16, 32 and then 60 minutes |
| `Backoff.BackoffIsMonotone` | pkg/state/state.go:82-88 | in that range more failures never wait less |
| `Backoff.BackoffPast27` | pkg/state/state.go:82-88 | from 28 to 52 the wait is negative when bit 52 - n of 29296875 is set and the intended hour otherwise |
| `Backoff.BackoffVanishes` | pkg/state/state.go:82-88 | from 53 to 62 the wait is zero |
| `Backoff.BackoffExactlyWhen` | pkg/state/state.go:82-88 | up to 62 failures the wait is as intended iff n <= 27, or n <= 52 and that bit is clear |
| `Backoff.BackoffSaturated` | pkg/state/state.go:82-88 | from 63 on, with either usual out-of-range conversion, there is no positive wait |
| `Backoff.FirstWrongCount` | pkg/state/state.go:82-88 | corollary: at 28 the wait is negative, so 27 is the limit |
| `Machine.Machine.constructor` | pkg/state/state.go:42-48 | a new machine is fallow, without failures and without a retry time |
| `Machine.Machine.Transition` | pkg/state/state.go:50-116 | the whole new state for every event in every state; refused exactly when unknown or a trigger inside the backoff; an accepted trigger always leaves the machine backing up |
| `Machine.Machine.CanRetry` | pkg/state/state.go:137-145 | true outside error, and in error strictly after the retry time |
| `Machine.Machine.WatchesForChurn` | pkg/state/state.go:147-157 | true iff fallow or monitoring |
| `Machine.Machine.AdvanceOnChurn` | pkg/state/state.go:159-179 | undisturbed, churn moves fallow to monitoring, monitoring to backing up, nothing else, and is never refused |
| `Machine.ErrorCountIsStreak` | pkg/state/state.go:72-109 | over every event sequence the error count is the number of failures since the last success or clear, fallow and monitoring have none and no retry time, error has at least one |
| `Machine.ActivityIsLastChange` | pkg/state/state.go:105-113 | over every event sequence the reported activity is the instant of the last change of state |
| `Machine.RefusalLeavesNoTrace` | pkg/state/state.go:50-116 | a refused event can be struck from any history: everything after it comes out the same |
| `Machine.TriggerStartsBackup` | pkg/state/state.go:62-70 | helper, one step: from every state a trigger not refused leads to backing up, the manual poke of a fallow machine included |
| `Machine.ArrivalsAre` | pkg/state/state.go:57-103 | helper, one step: which state and event each new state can come from, and what it leaves in the books |
| `Machine.LeavingError` | pkg/state/state.go:60-70 | helper, one step: from error only a trigger at or after the retry time starts a backup and only a clear goes fallow |
| `Machine.BackingUpIgnoresRequests` | pkg/state/state.go:60-109 | helper, one step: while backing up every event but the outcome is inert |
| `Machine.CanRetryIsKept` | pkg/state/state.go:137-145 | helper, one step: once CanRetry said yes, in any state, a later trigger is accepted |
| `Machine.RetryBoundary` | pkg/state/state.go:64-66 | helper, one step: at the retry instant itself, and only there, the trigger is accepted though CanRetry says no |
| `Machine.BackoffHolds` | pkg/state/state.go:50-116 | no event sequence without a clear leaves error before its retry time |
| `Machine.FailureKeepsBackoff` | pkg/state/state.go:74-90 | after the n-th failure, n <= 27, no backup starts for min(2^n, 60) minutes unless cleared |
| `Machine.RetryAcceptedExactly` | pkg/state/state.go:64-90 | after the n-th failure, n <= 27, a trigger is accepted exactly from the intended wait plus the jitter on |
| `Machine.TwentyEighthFailureRetriesAtOnce` | pkg/state/state.go:82-88 | after the 28th the next trigger is accepted at once |
| `Pipeline.GoKeepsInv` | cmd/delightd/main.go:283-369 | every critical section of every goroutine keeps position and machine in agreement |
| `Pipeline.RequestKeepsInv` | pkg/httpapi/httpapi.go:703-729 | so does every backup and reset request at any moment |
| `Pipeline.RunKeepsInv` | cmd/delightd/main.go:283-369 | so does every interleaving |
| `Pipeline.PipelineOwnsItsMachine` | cmd/delightd/main.go:337-361 | from the check to the final event the machine stays in backing_up and no other goroutine runs that project's pipeline |
| `Pipeline.ReplyExactly` | pkg/httpapi/httpapi.go:703-729 | in every reachable world: 404 exactly for unknown projects, 409 exactly for a trigger to a machine in error before its retry time, 200 otherwise; a refused request, and any request to a machine backing up, changes nothing but the clock |
| `Pipeline.ResetClearsErrors` | pkg/httpapi/httpapi.go:703-729 | in every reachable world a reset makes a machine in error fallow with a clean record and changes no other |
| `Pipeline.AcceptedRequestIsRun` | pkg/httpapi/httpapi.go:703-729 | in every reachable world a backup request answered 200 leaves its machine backing up, and three evaluation steps of its goroutine later the pipeline has been entered, under every interleaving without a reset, unless a pipeline was just ending |
| `Pipeline.RequestsAreInertMidPipeline` | pkg/httpapi/httpapi.go:703-729 | in particular a trigger or reset while the pipeline runs answers 200 and changes no machine and no position |
| `Pipeline.FinalEventTakesEffect` | cmd/delightd/main.go:349-360 | the success or failure that ends a pipeline always takes effect, on its own machine only |
| `Pipeline.OutcomeIsDelivered` | cmd/delightd/main.go:340-361 | under every interleaving the goroutine's second step from the pipeline leaves the machine fallow with a clean record after a success and in error with one more failure otherwise |
| `Pipeline.GoroutineIsNeverRefused` | cmd/delightd/main.go:283-369 | no event a goroutine delivers is refused, although its check and act are separate critical sections |
| `Pipeline.MachinesStaySound` | pkg/state/state.go:50-116 | corollary: every reachable machine's error count fits its state |
| `Pipeline.DueRetryIsTaken` | cmd/delightd/main.go:337-366 | under every interleaving with other goroutines and requests short of a reset, an idle project in error past its retry time is in its pipeline within five evaluation steps of its own goroutine |
| `Pipeline.DueBackupRuns` | cmd/delightd/main.go:283-366 | the same from every position but a checkpoint about to report, also when a request triggered the backup while the goroutine was starting or polling git, with the number of steps left |
| `Pipeline.BackoffIsRespected` | cmd/delightd/main.go:363-366 | under every interleaving without a reset a project in error stays exactly as it is until its retry time and its pipeline is not entered |
| `Pipeline.StartupEvaluates` | cmd/delightd/main.go:283-297 | churn found at startup leads to the backup; without it the first step changes no machine |
| `Pipeline.ChurnAdvances` | cmd/delightd/main.go:314-335 | under every interleaving with other goroutines and with requests other than a trigger of the project, one poll that finds churn makes fallow monitoring and monitoring backing up |
| `Pipeline.QuietProjectRests` | cmd/delightd/main.go:313-335 | an unchanged project is left alone: under every interleaving without a trigger of the project, as long as no poll finds churn, a fallow or monitoring machine stays exactly as it is and its pipeline is not entered |
| `Pipeline.LoadedProjectsStartDistinct` | config/config.go:253-269 | the goroutines started for any loaded configuration have distinct names, which every result above needs |
| `Pipeline.DuplicateNamesShareAPipeline` | cmd/delightd/main.go:283-369 | with any repeated name a run takes two goroutines into the pipeline of one machine at once |
| `Pipeline.OneOwnerWhen` | cmd/delightd/main.go:283-369 | no run ever has two pipelines on one machine iff the project names are distinct |
| `Paths.PrefixAtSlash` | pkg/backup/backup.go:180-192 | a string prefix ending at "/" is exactly a proper ancestor in the component list |
| `Paths.BaseOfJoin` | pkg/backup/backup.go:181 | the base of a joined path is its last component |
| `Paths.TrimLeavesCore` | pkg/backup/backup.go:183 | whatever slashes surround an exclude, trimming leaves exactly the core without a slash at either end |
| `Paths.ExtIsSuffix` | pkg/backup/backup.go:166-172 | an extension without a further dot is exactly what the name ends in |
| `Selection.PrefixClauseAddsNothing` | pkg/backup/backup.go:180-192 | for an entry whose ancestors were not pruned the prefix clause never fires alone |
| `Selection.MatchesExcludeWhen` | pkg/backup/backup.go:180-192 | on any path: a trimmed, non-empty exclude is the path itself, one of its parents, or its bare name |
| `Selection.PrunedBelow` | pkg/backup/backup.go:98-103 | below a pruned directory the flat filter keeps nothing |
| `Selection.WalkNodeIsFilter` | pkg/backup/backup.go:88-111 | the walk of a subtree emits exactly the flat filter of its entries, in order, and fails iff an unpruned directory is unreadable |
| `Selection.WalkIsFilter` | pkg/backup/backup.go:88-111 | so does the whole walk: an entry is emitted iff neither it nor an ancestor has a skipped name or matches an exclude |
| `Selection.SkippedFileWhen` | pkg/backup/backup.go:166-172 | a file is skipped iff its name ends in ".o", ".so" or ".pyc" |
| `Rotation.DigitsOrder` | pkg/backup/backup.go:39-40 | zero-padded numbers of one width sort as strings exactly as numbers |
| `Rotation.NamesSortInTimeOrder` | pkg/backup/backup.go:39-40 | archive names of one project sort lexicographically exactly in time order |
| `Rotation.NameLayout` | pkg/backup/backup.go:39-40 | the project, a dash, eight digits of the date, a dash, six of the time, ".tgz" |
| `Rotation.ArchiveDir.SortedArchives` | pkg/backup/backup.go:209-216 | exactly the non-directories whose name is some stem followed by ".tgz", ascending; directories and other files are never picked |
| `Rotation.ArchiveDir.EnforceRotation` | pkg/backup/backup.go:198-226 | removes exactly the removable archives with at least the limit of newer ones; an unreadable directory or a non-positive limit removes nothing |
| `Rotation.ArchiveDir.Checkpoint` | pkg/backup/backup.go:30-70 | a success writes and then rotates, a failure touches its own file only, a directory that cannot be made and a dry run change nothing |
| `Rotation.NewestSize` | pkg/backup/backup.go:218-225 | of any set of names exactly min(size, limit) have fewer than the limit after them |
| `Rotation.NewestOfMore` | pkg/backup/backup.go:218-225 | dropping names that are not among the newest never changes what is newest once more names are added |
| `Rotation.NewestAreLast` | pkg/backup/backup.go:216-225 | the newest of an ascending list are its last ones |
| `Rotation.RunKeepsNewestWhen` | pkg/backup/backup.go:30-70 | over every run of attempts from any directory, clocks going back, failures and hindered rotations included: all along, the newest of all archives there ever were are there, or all of them without a limit, and nothing else, iff no failed attempt hits the name of an archive still due; after a success with an unhindered rotation exactly those newest are there |
| `Rotation.FailureTakesNamesake` | pkg/backup/backup.go:64-68 | the witness: a second attempt within the same second that fails removes the archive the first one wrote |
| `Rotation.RunLeavesOthers` | pkg/backup/backup.go:209-214 | over any run every directory, and every file whose name is not some stem followed by ".tgz", stays as it is unless an attempt takes its name |
| `Rotation.FewArchivesStay` | pkg/backup/backup.go:218-225 | with no more archives than the limit nothing is removed, whatever else the directory holds |
| `Rotation.NotesAreNoArchives` | pkg/backup/backup.go:209-225 | an instance: beside a note and a directory a lone archive survives limit 1 |
| `Rotation.NewestAreKept` | pkg/backup/backup.go:194-226 | with the project's own archives at strictly increasing timestamps, failed attempts included, after a success with an unhindered rotation the directory holds exactly the newest min(total, limit), the one just written among them |
| `Rotation.JustWrittenSurvivesWhen` | pkg/backup/backup.go:194-226 | with any other archives present, the one just written survives an unhindered rotation iff the limit is non-positive or fewer than the limit sort after it |
| `Rotation.ForeignArchiveEvicts` | pkg/backup/backup.go:198-226 | a foreign archive that sorts later evicts the one just written |
| `Unpushed.CountCommitsUntil` | pkg/gitstate/gitstate.go:240-256 | the number of commits before the first occurrence of the stop, all of them when it does not occur, zero when the log cannot be opened |
| `Unpushed.CountUnpushed` | pkg/gitstate/gitstate.go:225-235 | counts against the tracking commit when there is a remote with that ref and against nothing otherwise, and says which |
| `Unpushed.WalkIsReach` | pkg/gitstate/gitstate.go:240-256 | a walk visits exactly the commits HEAD reaches |
| `Unpushed.ZeroExactlyWhen` | pkg/gitstate/gitstate.go:219-256 | over every log, failed or broken off: the count is zero iff the log gave nothing at all or HEAD is the tracking commit; once HEAD is read zero is never a false all clear |
| `Unpushed.FailedLogReadsAsPushed` | pkg/gitstate/gitstate.go:240-244 | a log that cannot be opened, or breaks off before HEAD, reads as nothing unpushed although HEAD is ahead |
| `Unpushed.UnreachableStopCountsAll` | pkg/gitstate/gitstate.go:219-235 | with no tracking commit among HEAD's ancestors every ancestor is counted, once |
| `Unpushed.ChainIsUnpushed` | pkg/gitstate/gitstate.go:240-256 | with no unpushed merge, what a walk lists before the tracking commit is exactly the commits HEAD reaches and it does not |
| `Unpushed.MergeMisleads` | pkg/gitstate/gitstate.go:240-256 | if every complete walk counts right, no unpushed commit has two different parents |
| `Unpushed.CountIsExactWhen` | pkg/gitstate/gitstate.go:219-256 | every complete walk counts exactly the unpushed commits iff no unpushed commit is a merge, or, with the tracking commit outside HEAD's history, iff nothing is shared with it |
| `Unpushed.LinearCountIsExact` | pkg/gitstate/gitstate.go:240-256 | corollary: on linear history the commits counted are those HEAD reaches and the tracking commit does not |
| `Unpushed.MergesMiscount` | pkg/gitstate/gitstate.go:240-256 | the witness: after a merge one graph gives both too small and too large a count under two valid walks |
| `Unpushed.SomeWalkCountsRight` | pkg/gitstate/gitstate.go:240-256 | the limit of the exact condition: with an unpushed merge one walk can count right although not every walk does |
| `Unpushed.ResolveRemote` | pkg/gitstate/gitstate.go:189-218 | the branch's configured remote, else "origin", else the only remote; none exactly when all three are missing |
| `GitSweep.StepKeepsInv` | pkg/gitstate/gitstate.go:93-109 | every move keeps the semaphore count, the wait count and slot ownership |
| `GitSweep.BoundedAndOwned` | pkg/gitstate/gitstate.go:93-109 | under every schedule at most eight hold the semaphore and each slot is written at most once, by its owner |
| `GitSweep.NeverStuck` | pkg/gitstate/gitstate.go:93-109 | until the wait returns some actor can always move |
| `GitSweep.EveryMoveIsProgress` | pkg/gitstate/gitstate.go:93-109 | every move lowers the remaining work by one |
| `GitSweep.EveryScheduleEnds` | pkg/gitstate/gitstate.go:93-109 | every schedule of n projects ends, complete exactly after 5n moves |
| `GitSweep.CompleteIsFilled` | pkg/gitstate/gitstate.go:93-109 | when complete every slot was written exactly once with its own project's state |
| `GitSweep.AnswerIsDeterministic` | pkg/gitstate/gitstate.go:105-109 | with unique names the sorted answer is the same for every schedule and every sort |
| `Dispatch.ReplaceEach` | pkg/skills/dispatch.go:24-26 | the loop's result is sequential replacement in some order that lists each argument once |
| `Dispatch.RenderUrl` | pkg/skills/dispatch.go:23-31 | the escaped arguments filled in some such order, an error iff a brace remains |
| `Dispatch.RenderArgs` | pkg/skills/dispatch.go:38-50 | each entry filled in an order of its own; an error is the first entry with a brace left, all before it having been filled |
| `Dispatch.ReplaceIsFill` | pkg/skills/dispatch.go:25 | on flat templates one string replacement is exactly filling the placeholders of that name |
| `Dispatch.SequentialIsSimultaneous` | pkg/skills/dispatch.go:24-26 | for brace-free names and values used, any order gives the simultaneous substitution |
| `Dispatch.FillingIsSimultaneousWhen` | pkg/skills/dispatch.go:23-50 | a checked filling is the simultaneous substitution iff every placeholder has an argument and the values used are brace-free; a missing argument alone is an error |
| `Dispatch.UrlIsSimultaneous` | pkg/skills/dispatch.go:23-31 | for every argument value a URL gets the simultaneous substitution of the escaped values in any order, and is an error iff an argument is missing |
| `Dispatch.NamesAreHarmlessWhen` | pkg/skills/dispatch.go:23-50 | with any argument names and brace-free values, every flat template is filled simultaneously in every order, or reported, iff each argument whose placeholder reads as several has the value those have together |
| `Dispatch.ReplaceKeepsMeaning` | pkg/skills/dispatch.go:25 | under that condition one string replacement keeps what the whole filling gives, wherever it matches |
| `Dispatch.UrlIsAlwaysSimultaneousWhen` | pkg/skills/dispatch.go:23-31 | renderURL with any argument names and values is right for every flat template in every order exactly then |
| `Dispatch.PlainNamesAreHarmless` | pkg/skills/dispatch.go:23-50 | brace-free names always meet the condition |
| `Dispatch.BracedNameDependsOnOrder` | pkg/skills/dispatch.go:23-31 | the witness: with an argument named "b}{c" the result depends on map order |
| `Dispatch.ArgIsSimultaneousWhen` | pkg/skills/dispatch.go:33-50 | an argv entry gets it exactly when, besides, the values used are brace-free |
| `Dispatch.ArgsDependOnOrder` | pkg/skills/dispatch.go:33-50 | with a brace in a value, two iteration orders give a result and an error |
| `Dispatch.EscapeRoundTrip` | pkg/skills/dispatch.go:25 | an escaped value is made of the characters section 3.3 of RFC 3986 allows in one path segment and decodes back to the argument's UTF-8 bytes |
| `Dispatch.EscapeIsBraceFree` | pkg/skills/dispatch.go:25 | an escaped value never holds a brace |
| `Dispatch.ArgumentSurvivesUrl` | pkg/skills/dispatch.go:25 | unescaping the segment and decoding its bytes as UTF-8 gives back the argument, character by character |
| `Dispatch.PlainIsKept` | pkg/skills/dispatch.go:25 | letters, digits and the marks -_.~$&+:=@ are left as they are |
| `Dispatch.RoundLowersOpens` | pkg/skills/dispatch.go:55-67 | each round lowers the number of open braces by at least one |
| `Dispatch.PositionalUrl` | pkg/skills/dispatch.go:55-67 | terminates on every string, leaves no close brace after the first open one, and on flat templates numbers the placeholders in order and keeps all other text |
| `Dispatch.NumberedAt` | pkg/skills/dispatch.go:55-67 | the placeholder after k others becomes a dollar sign and k plus one, all other text stays |
| `Dispatch.DecimalPrints` | pkg/skills/dispatch.go:64 | the printed number reads back as itself |
| `Publisher.Encode` | pkg/events/publisher.go:177-190 | magic byte, big-endian id, message index, payload: the frame of the id and the payload |
| `Publisher.FrameRoundTrip` | pkg/events/publisher.go:167-190 | every frame decodes to its own id and payload, negative ids included |
| `Publisher.FrameLayout` | pkg/events/publisher.go:177-190 | a zero byte, the id modulo 2^32 with the highest byte first, a zero byte, the payload |
| `Publisher.DecodeRoundTrip` | pkg/events/publisher.go:167-190 | whatever decodes is the frame of what it decodes to |
| `Publisher.FramesAreInjective` | pkg/events/publisher.go:177-190 | equal frames have equal ids and payloads |
| `Publisher.StepKeepsInv` | pkg/events/publisher.go:131-165 | every step of every publisher keeps the mutex, the flag and the cached id consistent |
| `Publisher.RunKeepsInv` | pkg/events/publisher.go:131-165 | so does every interleaving |
| `Publisher.RegistersAtMostOnce` | pkg/events/publisher.go:152-165 | under every interleaving and any registry failures at most one registration succeeds, and every produced frame decodes to that id and its own event |
| `Publisher.FramesAgree` | pkg/events/publisher.go:131-190 | the id never changes once set, so frames produced at different times carry the same one |
| `Publisher.FailureCanBeRetried` | pkg/events/publisher.go:147-165 | a witness: right after a failed registration another call can register and set the id |
| `Publisher.EveryRunEnds` | pkg/events/publisher.go:131-165 | a run of n publishes takes at most 5n steps, whatever the registry answers |
| `Publisher.RecoveryPublishes` | pkg/events/publisher.go:147-165 | once the registry answers, in every interleaving, each call that had not failed ends published under the one registered id |
| `Publisher.UnmarshalledIsNotPublished` | pkg/events/publisher.go:131-146 | a call whose payload does not marshal publishes nothing, in any interleaving |
| `Publisher.NeverStuck` | pkg/events/publisher.go:152-165 | until every call has returned some publisher can move, so a failed registration never leaves the mutex held |
| `Exports.AddRegistryProject` | pkg/exports/sync.go:59-67 | adds the project's entries over what was there: a later definition of a name wins |
| `Exports.AddDiscovered` | pkg/exports/sync.go:70-82 | adds discovered entries only under names not defined yet |
| `Exports.BuildExpected` | pkg/exports/sync.go:57-82 | for each project and name the last registry definition, else the first discovered one of a known project, else nothing |
| `Exports.LastDefinitionWins` | pkg/exports/sync.go:59-67 | the last definition of a name in the registry file is the expected one, whatever is discovered |
| `Exports.DiscoveryFillsIn` | pkg/exports/sync.go:70-82 | without one it is the first binary of that name discovered in a known project, else nothing |
| `Exports.Engine.EnsureSymlink` | pkg/exports/sync.go:143-163 | the path is a link to the target whatever was there; an entry that cannot be removed stays, a link that cannot be made leaves nothing; right links and dry runs change nothing |
| `Exports.Engine.PlaceExport` | pkg/exports/sync.go:93-134 | at the joined path a binary is linked to its relative target, a wrapped export's script is written and linked, a failed write skips the link, an unknown type touches nothing |
| `Exports.Engine.PlaceProject` | pkg/exports/sync.go:91-135 | the inner loop places each of the project's exports once, in some order |
| `Exports.Engine.PlaceAll` | pkg/exports/sync.go:89-135 | the nested loops place every expected export once, in some order, and collect exactly the expected names |
| `Exports.Engine.ArchiveOrphans` | pkg/exports/sync.go:165-207 | moves exactly the managed links of the bin directory whose entry name is no expected name and that can be moved, each under the time of its own move; an unreadable directory and a dry run move nothing |
| `Exports.ContainsWhen` | pkg/exports/sync.go:183-184 | a substring test is true iff the text splits around the substring |
| `Exports.GoesExactly` | pkg/exports/sync.go:165-207 | told outright which files are archived: links of a listable directory whose target mentions the exports directory or a work tree, at an entry name that is no export's name, and that can be renamed |
| `Exports.Engine.DumpState` | pkg/exports/sync.go:209-217 | the state file holds the expectations; a failed write leaves the old file or a torn one; a dry run changes nothing |
| `Exports.Engine.Sync` | pkg/exports/sync.go:46-141 | all files, the archive, the wrapper scripts and the state dump afterwards, whatever fails; a dry run changes nothing |
| `Exports.OrderIndependentWhen` | pkg/exports/sync.go:89-135 | the placement is the same for every iteration order and from any files iff exports to be linked at one joined path have the same target |
| `Exports.SyncConvergesWhen` | pkg/exports/sync.go:46-141 | when nothing fails, from any files and in any order, each binary or wrapped export ends linked to its target, stray managed links are gone and every other file is as it was, iff exports at one path agree and none is linked where the Sync archives it again |
| `Exports.LinkStaysWhen` | pkg/exports/sync.go:165-207 | a Sync keeps a link it made iff the link is not a managed one at an entry name that is not expected |
| `Exports.FailuresAreRepairedWhen` | pkg/exports/sync.go:46-141 | after a Sync in which anything may have failed, one without failures leaves exactly what it should have left from the start, iff the same condition holds |
| `Exports.UnledIsSafe` | pkg/exports/sync.go:89-207 | whatever fails, a file at a path no export leads to is left as it was unless it is a stray managed link that can be moved |
| `Exports.ArchivesOnlyOrphans` | pkg/exports/sync.go:165-207 | where no export leads, whatever fails, and everywhere when placing succeeds and the exports are in order: a Sync archives exactly the stray managed links whose move succeeds, unchanged, each under its own time |
| `Exports.SecondSyncIsIdle` | pkg/exports/sync.go:46-141 | with the exports in order, a Sync after one without failures, in any other order and whatever would fail, changes no file and archives nothing |
| `Exports.SecondSyncIsIdleWhen` | pkg/exports/sync.go:46-141 | when nothing fails a second Sync is idle from any files and in all orders iff exports at one path agree and none is linked where it is archived again |
| `Exports.WrapperIsWritten` | pkg/exports/sync.go:108-131 | each wrapped export's script is at the path its link points to, whatever else fails |
| `Exports.SharedNameDependsOnOrder` | pkg/exports/sync.go:89-105 | the witness: one path for two targets, under one name or as "x" and "./x", makes the placement depend on the iteration order |
| `Exports.DotNameIsArchivedAtOnce` | pkg/exports/sync.go:89-207 | the witness: an export named "./x" with a managed target is linked as "x" and archived by the same Sync |
| `Exports.PlainNamesAreTidy` | pkg/exports/sync.go:89-207 | for names a directory can list no link is archived by the Sync that made it, and exports agree iff those of one name do |
| `Config.TrimsToNothing` | config/config.go:227-236 | a name or path counts as empty iff it is all white space |
| `Config.DelightConfig.MarkDegraded` | config/config.go:211-220 | sets the flag and appends one warning |
| `Config.DelightConfig.ValidateProjects` | config/config.go:253-269 | returns the kept entries, adds one warning per dropped one and degrades iff one was dropped |
| `Config.DelightConfig.MergeFragments` | config/config.go:344-353 | the projects become the validated inline list followed by the fragments, all warnings recorded in order |
| `Config.DroppedIsReported` | config/config.go:253-269 | every dropped entry is reported, as malformed with its position and what is blank, else as a duplicate |
| `Config.NothingVanishes` | config/config.go:253-269 | kept entries plus warnings equal the input's length |
| `Config.KeptIsSelection` | config/config.go:253-269 | the result is the input's subsequence at exactly the kept positions, in order |
| `Config.KeptIsUniqueAndSound` | config/config.go:253-269 | kept names are unique, kept names and paths are not blank |
| `Config.ValidationIsIdempotent` | config/config.go:253-269 | validating again changes nothing |
| `Config.FirstOccurrenceWins` | config/config.go:253-269 | every sound name survives, in the first sound entry that had it |
| `Config.InlineBeatsFragments` | config/config.go:344-353 | a name defined soundly inline never comes from a fragment |
| `Roots.SystemConfig.ResolveRoots` | config/config.go:99-123 | every root is its value or default, expanded; the backups root derives from the expanded daemon root |
| `Roots.DefaultsAre` | config/config.go:95-123 | with nothing configured, under an absolute and clean home, the roots are its mesh/prod, var, var/backups and etc |
| `Roots.ConfiguredWins` | config/config.go:99-123 | helper: a configured root that does not start with a tilde is kept as it is, and so is the install root of the environment |
| `Roots.ExpansionIsIdempotentWhen` | config/config.go:125-134 | expanding "~" twice is expanding it once for every path iff the home is tame |
| `Roots.ResolutionIsIdempotentWhen` | config/config.go:95-123 | resolving twice is resolving once for every configuration iff the home is unset or tame |
| `Roots.RelativeHomeFails` | config/config.go:95-134 | with HOME "h" the daemon root "~/../~" resolves to "~", and resolving again to "h" |
| `CleanPaths.CleanIsIdempotent` | config/config.go:130 | the path cleaning of the expansion leaves a cleaned path as it is, rooted, relative or empty |
| `CleanPaths.EntryBase` | pkg/exports/sync.go:98 | a name joined to a directory is the last element of the path, so different names are different files |
| `CleanPaths.DotSlash` | pkg/exports/sync.go:98 | a leading "./" joins to the same file |

## Left out

- HTTP routing, JSON, protobuf and YAML decoding, logging and metrics: a decoded request, an undecodable value or an
  unreadable body is an input.
- bbolt, go-git, franz-go, client-go and viper: transactions are atomic, a log is a duplicate-free walk that starts at
  HEAD, maps and sorts behave. `Put` in pkg/registry/registry.go:91-99 skips the holder check and is not a run step.
- Each registry operation reads the clock once; an operation that reads it per entry (RefreshLease, ReconcileWarmStart)
  could stamp entries some nanoseconds apart.
- A registration read back from the store equals the one written; an absent protobuf message reads as an empty one.
- The log line that tells whether a service ever beat since boot, and a daemon whose registry store did not open.
- The subject registry and the health probe answer each question once, as the request's environment decides; an emitted
  event may still be lost on the wire.
- Register.TraceFollowsPolicy: the heartbeat consumer and the sweep loop appear as steps at any time; their scheduling is
  not modelled.
- Machine.ErrorCountIsStreak: the count is unbounded, not wrapped at 2^63 failures; the jitter is any number of seconds
  from 0 to 59 and time is an unbounded number of nanoseconds.
- Selection.WalkIsFilter: which entries are selected, not the tar and gzip bytes; the byte counts of the dry run and the
  real run differ in the code on non-regular entries and are not compared.
- Rotation.NewestAreKept: project names are taken to be single path components; with a separator in the name the code
  writes the archive outside the directory it rotates, or fails to.
- Unpushed.CountIsExactWhen: about every walk that starts at HEAD and visits a commit after one of its children; which of
  them the library takes is not part of this model.
- GitSweep.BoundedAndOwned: a read abandoned by the timeout goes on outside the bound of eight; filling the git state of
  one project, worktree status included, is an opaque value per project.
- Exports.Engine.ArchiveOrphans: the move of a wrapper script beside its link is not modelled, because its path depends on
  the process directory.
- Exports.Engine.PlaceExport: relative targets, wrapper paths and wrapper text are given functions, and paths are not
  followed through linked directories: an export named "" is linked at the path of the bin directory itself, and what that
  does to the files below it is not modelled.
- Pipeline.DueRetryIsTaken: that a goroutine's ticker goes on firing is given by the number of its own steps in the run.
- Roots.SystemConfig.ResolveRoots: the install-root variable and the home directory are parameters.
- Furnishing, kube and compose handling, skill discovery, enablement, introspection, schema registry clients, bearer
  gating and the CLI: network clients, folds and one-branch decisions that would only add easy members.
