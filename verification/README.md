# Hermes Agent Operator: verified model

The Hermes Agent Operator reconciles a HermesAgent resource into Kubernetes objects and renders the shell
scripts its pods run at every start. What is hard about it is the state that survives: StatefulSets that
cannot be changed in place, restored volumes, snapshots and their schedule, proxy tokens, and the manifests
the start scripts leave on the data volume for the next start. This project models that logic in Dafny and
proves what it keeps over whole runs.

| module | what it models |
|---|---|
| `Cluster`, `Storage`, `StorageRuns` | restore from a snapshot and StatefulSet reshaping, one reconcile pass as one step; convergence, the two delete gates, dangling volumes |
| `Retention`, `Snapshots`, `SnapshotRuns` | stable sort, split, in-place compaction; the snapshot reconciler; scheduling and retention over runs |
| `Reconcile` | restore, StatefulSet and snapshots in the order of a reconcile pass; safety of every call |
| `Egress`, `Resolution`, `EgressSecret` | host patterns and claims; credential resolution; tokens, proxy rules and the Secret over passes |
| `ChangeDetection` | the byte streams behind the config hash and the egress hash |
| `Text`, `Shell` | `read` loops, command substitution, the newline-delimited list test; quoting |
| `ResumeCrons`, `Distribution`, `Workspace`, `DotEnvBlock`, `DotEnv` | the start scripts: resumed crons, distribution pins, workspace files, the marked `.env` block, the generated `.env` |

`dafny verify dfyconfig.toml` checks everything.

## How to read it

- A reconciler is written twice: as a function from the cluster to the API calls it makes and the result it
  returns (`Storage.Restore`, `Snapshots.SnapshotPass`), and as a method on a mutable `Kube` that follows the
  Go code statement by statement and is proved to have exactly that effect. The theorems about runs are about
  the functions. The scripts are treated the same way (`Workspace.Volume.Start` and `Workspace.StartDisk`,
  `ResumeCrons.RunStart` and `ResumeCrons.WrittenText`).
- A pass takes the set of API calls that fail in it. Theorems that do not mention that set hold for every one.
- A run is a sequence of passes with the clusters in between. The run predicates (`OwnsSts`, `Undisturbed`,
  `Trace`, `IsRun`) constrain only what the theorem needs; everything else may change between two passes.
- Writes are visible to later reads (read-your-writes), except that a stale cache may hide the restored PVC from
  either read of it.
- Time is in whole seconds. The cron schedule is any function giving the least element of an arbitrary slot
  set after a moment, and it may give up, as the cron library does.
- SHA-256 is an arbitrary function, required not to collide on the two inputs compared. Minted tokens are
  parameters, assumed fresh where distinctness is claimed. Marshalling to YAML or JSON is a parameter.

## Where the source does not do what one might expect

- One snapshot per slot fails when the status write after the create fails: `RepeatsExactly` states when, and
  `FailedRecordRepeats` is such a run.
- A snapshot need not be of the volume the pod runs on: without a claim, a snapshot or persistence a leftover
  claim is snapshotted. `SnapshotOfLiveClaim` states when, `LeftoverClaimIsSnapshotted` is a case.
- A real key can reach a `.env` that has a token for it, inside a value of several lines: `NoLeakExactly` and
  `EmbeddedLineLeaks`.
- The path codec loses `a--b` and `a-/b`: `RoundTripExactly` and `FirstStartExactly` give the exact domain.
- Records of installed distributions can lie after an install that failed halfway or was interrupted before its
  record: `HalfwayFailureExactly`, `InterruptionExactly`, `OldPinSkipsInstall`.
- The last removed profile stays, as a pod without profiles has no cleanup step: `RemovedExactly`,
  `LastProfileStays`; it goes with the next start that has a profile again: `RemovalIsOnlyLate`.
- A removed profile whose delete fails is not tried again: `RemovalNotRetried`.
- A start of the resumed-crons step that stops midway can forget a job it resumed: `StopsSafelyExactly` says
  which starts can, `StoppedStartForgets` is one.
- Removing a profile drops the operator's manifests even when the profile could not be deleted. Its managed files
  and resumed jobs are then on no record: `DropExactly` in `Workspace` and in `ResumeCrons`,
  `FailedDeleteLeavesFile`, `FailedDeleteForgets`.
- The host test can reject credentials no request could confuse, when a pattern holds a stray `*`:
  `OverlapExactly`, `StrayStarOverlaps`.
- Tokens can coincide when an alias becomes a Name of its own: `TokensDistinctExactly`, `SplitAliasSharesToken`.
- An existing claim does not bypass the wait for a named snapshot: `RestoreEndsExactly`,
  `ClaimDoesNotBypassRestore`.
- Equal length plus inclusion is not equality of name sets in general: `SameNamesNeedsDistinct`.
- A NUL byte in ConfigMap data defeats the config hash: `NulBreaksInjectivity`. NUL-freeness is sufficient; it
  is not necessary, as most data with NULs is still told apart.
- README.md:295 puts both singular `.env` references below the plural ones. The code mounts configMapRef,
  configMapRefs, secretRef, secretRefs in that order, and the model follows the code.

## Model

| member | source | states |
|---|---|---|
| Cluster.SnapshotsMountedClaim | internal/usecase/hermesagent_snapshot.go:216-224 | whenever the data volume is backed by a PVC, the claim chosen for snapshots is the claim the pod mounts; there is none exactly without claim, snapshot and persistence |
| Cluster.TemplateClaimName | internal/usecase/hermesagent_snapshot.go:223-223 | the claim of the home template for the first pod of an agent |
| Cluster.RestoredNamesDistinct | internal/usecase/hermesagent_restore.go:73-79 | the restored PVC of a snapshot is `<snapshot>-restore`, and different snapshots have different ones |
| Storage.SameTemplateNames | internal/usecase/hermesagent_statefulset.go:230-244 | the map-filling loops decide equal length plus inclusion of the desired names |
| Storage.SameNamesExactly | internal/usecase/hermesagent_statefulset.go:230-244 | for distinct desired names (all the builder renders) that test holds iff the two name sets are equal and the live names are distinct: the cardinality argument, both ways |
| Storage.SameNamesNeedsDistinct | internal/usecase/hermesagent_statefulset.go:230-244 | without distinct desired names the test accepts different name sets (concrete lists) |
| Storage.Kube.ClearCondition | internal/usecase/hermesagent_restore.go:229-235 | a set RestoreFailed condition is removed and written, an absent one costs no call |
| Storage.Kube.GetReadySnapshot | internal/usecase/hermesagent_restore.go:143-165 | ready iff the call works and the named snapshot is ReadyToUse; otherwise the condition with the right reason is written, or the error is returned |
| Storage.Kube.ProvisionPVC | internal/usecase/hermesagent_restore.go:77-108 | the restored PVC is created only when absent, and only from a ready source; every early return has the source's result |
| Storage.Kube.Gate | internal/usecase/hermesagent_restore.go:114-136 | the restore flow's delete gate: delete and requeue iff the live StatefulSet still has the home template |
| Storage.Kube.ReconcileRestore | internal/usecase/hermesagent_restore.go:60-137 | state, calls and result of reconcileRestore, for every set of failing calls |
| Storage.Kube.ReconcileStatefulSet | internal/usecase/hermesagent_statefulset.go:55-170 | state, calls and result of reconcileStatefulSet: create, reshape delete, hash-guarded update, stuck-pod delete, for every set of failing calls |
| StorageRuns.RestoreOutcome | internal/usecase/hermesagent_restore.go:60-137 | restore returns an empty result only once the restored PVC exists, it touches the StatefulSet only to delete one with the home template, and it deletes it only after the PVC exists |
| StorageRuns.StsOutcome | internal/usecase/hermesagent_statefulset.go:90-149 | the StatefulSet step leaves the object alone, absent or exactly as desired; it deletes only on a template mismatch and issues nothing on the desired object |
| StorageRuns.StsProgress | internal/usecase/hermesagent_statefulset.go:101-149 | with no failing call, the outcome in each of the four cases: absent, wrong templates, right hash, wrong hash |
| StorageRuns.PodDeletedExactly | internal/usecase/hermesagent_statefulset.go:119-140 | whatever fails, a pass deletes the pod iff it updates the StatefulSet, the pod was not running and the call works, and right after the update: no running pod is deleted and no stuck one is kept |
| StorageRuns.WrittenShape | internal/usecase/hermesagent_statefulset.go:90-99 | a StatefulSet that a pass writes has no replica iff the agent is suspended and else one, provisions the home claim iff its volume is templated, and carries the hash of its shape |
| StorageRuns.RestoreClears | internal/usecase/hermesagent_restore.go:127-136 | a restore that lets the StatefulSet step run leaves no RestoreFailed condition |
| StorageRuns.WaitingSaysWhy | internal/usecase/hermesagent_restore.go:143-165 | with no failing call a restore that waits sets the condition with the reason (API missing, or snapshot missing or not ready), changes nothing else and requeues in 30 seconds |
| StorageRuns.StaleReads | internal/usecase/hermesagent_restore.go:83-107 | a stale read that misses the restored PVC makes no difference while the source is ready and else reports the source; one that misses the PVC just created requeues in 30 seconds |
| StorageRuns.StorageResult | internal/usecase/hermesagent_statefulset.go:110-169 | with no failing call the requeue is 30 seconds iff the pass waits for its source or deleted, else 2 for pending egress inputs, 10 for a pending pod, or none |
| StorageRuns.RestoreFailsExactly | internal/usecase/hermesagent_restore.go:60-137 | a restore fails iff a call it makes fails: the reads the case calls for and the calls behind its events |
| StorageRuns.RestoreCut | internal/usecase/hermesagent_restore.go:77-135 | whatever fails, the restored PVC is created iff it would be otherwise and no call up to its own fails; a failing restore has done nothing else |
| StorageRuns.StsFailsExactly | internal/usecase/hermesagent_statefulset.go:55-163 | the StatefulSet step fails iff a call it makes fails, and each of its events happens iff no read and no call up to its own fails |
| StorageRuns.StorageUnfailed | internal/usecase/hermesagent_statefulset.go:55-170 | errors are never swallowed: a storage pass that reports none did exactly what it does when no call fails |
| StorageRuns.PassShape | internal/usecase/hermesagent_statefulset.go:110-128 | a pass on rightly shaped storage deletes nothing and keeps the shape; a pass that deletes leaves no StatefulSet |
| StorageRuns.DeletionEndsPass | internal/usecase/hermesagent_restore.go:114-125 | a StatefulSet deletion, by either gate, is the last call of its pass and occurs once in it |
| StorageRuns.AtMostOneDeletion | internal/usecase/hermesagent_statefulset.go:110-128 | the two delete gates never ping-pong: in any run with unchanged storage settings, whatever calls fail and whatever else changes, at most one pass deletes the StatefulSet |
| StorageRuns.SettledStays | internal/usecase/hermesagent_statefulset.go:90-149 | in the desired shape with the restored PVC present, a pass writes at most the status, whatever fails |
| StorageRuns.RestoreProgress | internal/usecase/hermesagent_restore.go:60-137 | with no failing call and a restorable source, the PVC exists afterwards and the flow stops iff it had to delete |
| StorageRuns.RestoreEndsExactly | internal/usecase/hermesagent_restore.go:60-137 | with no failing call restore lets the StatefulSet step run iff no snapshot is named, or its volume can be had and no home template is live; existingClaim has no part in it |
| StorageRuns.WaitsForSource | internal/usecase/hermesagent_restore.go:83-90 | while the named snapshot cannot be restored from, whatever fails, a pass writes at most the status and the StatefulSet step is not reached |
| StorageRuns.ClaimDoesNotBypassRestore | internal/usecase/hermesagent_restore.go:60-90 | a bound existingClaim and a missing snapshot: the volume wanted is the claim, and yet the pass only sets RestoreFailed and requeues (concrete cluster) |
| StorageRuns.ZeroIsDesired | internal/usecase/hermesagent_statefulset.go:90-169 | a storage pass that returns an empty result, whatever failed in it, leaves the live StatefulSet in the desired shape with the desired hash, given a truthful annotation |
| StorageRuns.ConvergesInTwo | internal/usecase/hermesagent_statefulset.go:90-149 | from any cluster with a truthful annotation and a restorable source, two passes without failing calls reach the desired shape and hash, and every later pass (failing calls allowed) creates, updates and deletes nothing |
| StorageRuns.PassKeepsPVCs | internal/usecase/hermesagent_restore.go:77-108 | no storage pass removes a PVC |
| StorageRuns.RestoredVolumesNeverDangle | internal/usecase/hermesagent_restore.go:75-125 | over every run with arbitrary spec edits and failing calls, a StatefulSet that mounts a restored volume mounts a PVC that exists |
| Reconcile.RunPass | internal/usecase/hermesagent.go:138-163 | the pass from restore on: each step runs only when the one before returned an empty result, and the state and calls are the composition of the three |
| Reconcile.EveryCallIsSafe | internal/usecase/hermesagent.go:138-163 | every call of every pass, whatever fails, is safe in the cluster its predecessors left: PVCs come only from a ready named source; no StatefulSet is created, updated or deleted before the restored PVC exists; an update has the live claim-template names; no deleted snapshot is the restore source or somebody else's; a new snapshot is of the agent's data claim under a free name |
| Reconcile.SafeKeepsSource | internal/usecase/hermesagent_snapshot.go:135-155 | a sequence of safe calls keeps the snapshot named by existingSnapshot |
| Reconcile.SnapshotOfLiveClaim | internal/usecase/hermesagent_snapshot.go:173-182 | when a pass takes a snapshot the live StatefulSet is as desired, and the snapshot is of the claim it mounts iff the spec names a claim or a snapshot or is persistent |
| Reconcile.LeftoverClaimIsSnapshotted | internal/usecase/hermesagent_snapshot.go:216-224 | the other case happens: a claim left behind when persistence was switched off is snapshotted while the pod runs on an emptyDir (concrete cluster) |
| Reconcile.FreshVolumeNotSnapshotted | internal/usecase/hermesagent_snapshot.go:95-98 | a volume restored in a pass is not yet bound, so that pass takes no snapshot of it |
| Reconcile.AnnotationStaysTruthful | internal/usecase/hermesagent_statefulset.go:95-99 | over every run with arbitrary specs and failing calls the annotation is the hash of the live shape, so the results above apply to every pass whose live and desired shapes do not collide |
| Reconcile.PassPods | internal/usecase/hermesagent.go:138-163 | the same of the pod over the whole pass, snapshots included |
| Reconcile.PassUnfailed | internal/usecase/hermesagent.go:138-163 | a whole pass that reports no error did exactly what it does when no call fails |
| Reconcile.VolumesSurvive | internal/usecase/hermesagent_restore.go:58-59 | over every run with arbitrary spec edits and failing calls, a PVC nobody else removes is still there |
| Reconcile.SourceSurvives | internal/usecase/hermesagent_snapshot.go:135-155 | in every window of passes whose specs name a snapshot as restore source, whatever comes before and after, the snapshot is still there at the end |
| Retention.NewestFirstIsStableSort | internal/usecase/hermesagent_snapshot.go:259-263 | the sorted copy is newest first, a permutation, and keeps the listing order of equal timestamps |
| Retention.StableSortUnique | internal/usecase/hermesagent_snapshot.go:261-263 | those facts determine the result: any two stable sorts of a list agree |
| Retention.SortNewestFirst | internal/usecase/hermesagent_snapshot.go:261-263 | the in-place array sort yields that stable sort |
| Retention.SplitSnapshots | internal/usecase/hermesagent_snapshot.go:258-268 | live is the newest `retention`, deprecated the rest, as two views of one freshly sorted array |
| Retention.SplitIsPartition | internal/usecase/hermesagent_snapshot.go:264-267 | live and deprecated together are the input as a multiset, and live has min(count, retention) entries |
| Retention.DeprecatedIsOlder | internal/usecase/hermesagent_snapshot.go:258-268 | no deprecated snapshot is newer than a live one |
| Retention.Compact | internal/usecase/hermesagent_snapshot.go:137-145 | the aliasing `deprecated[:0]` compaction leaves exactly the filter of the original contents, in order, and does not disturb the live part of the same array |
| Retention.SnapshotRefs | internal/usecase/hermesagent_snapshot.go:283-292 | the status entries in order, without nameless, timeless or terminating snapshots |
| Retention.RefsExactly | internal/usecase/hermesagent_snapshot.go:271-292 | the refs are exactly the name, claim and time of the snapshots that are named, timed and not being deleted |
| Retention.StatusIsNewestFirst | internal/usecase/hermesagent_snapshot.go:196-199 | the status written with a snapshot is newest first and no longer than the retention |
| Snapshots.RunGate | internal/usecase/hermesagent_snapshot.go:72-131 | the early returns before retention, with their conditions, results and status writes |
| Snapshots.FindExpired | internal/usecase/hermesagent_snapshot.go:133-145 | split and compaction together give the snapshots to delete |
| Snapshots.RunDeletions | internal/usecase/hermesagent_snapshot.go:147-155 | the loop deletes in order up to the first failing call |
| Snapshots.RunTake | internal/usecase/hermesagent_snapshot.go:173-208 | create (an existing name is no error), list again, write mark and refs, requeue for the next run |
| Snapshots.ReconcileSnapshot | internal/usecase/hermesagent_snapshot.go:71-209 | state, calls and result of reconcileSnapshot for every set of failing calls |
| Snapshots.GateKeeps | internal/usecase/hermesagent_snapshot.go:72-131 | the gate touches nothing but its condition and goes on only with a parsed schedule |
| SnapshotRuns.SchedulingExactly | internal/usecase/hermesagent_snapshot.go:72-131 | with no failing call a pass gets to scheduling iff snapshots are on, the agent is not suspended, its data claim is bound, the schedule parses and the API is there |
| SnapshotRuns.IdleWhenOff | internal/usecase/hermesagent_snapshot.go:73-85 | whatever fails, the pass of a disabled or suspended agent neither takes nor deletes a snapshot; suspended it does nothing, disabled it at most clears its condition |
| SnapshotRuns.HeldUp | internal/usecase/hermesagent_snapshot.go:87-124 | with no failing call an unbound claim requeues in 30 seconds without a call, a bad schedule and a missing API set their condition, with a 30 second requeue and with none |
| SnapshotRuns.SchedulingClears | internal/usecase/hermesagent_snapshot.go:126-131 | a pass that gets to scheduling leaves no SnapshotUnsupported condition |
| SnapshotRuns.TakesExactly | internal/usecase/hermesagent_snapshot.go:157-182 | a pass takes a snapshot iff it is able to and a slot lies between the last recorded run, or the agent's creation before the first, and now; with no next run it tries again in 30 seconds |
| SnapshotRuns.RecordedRefs | internal/usecase/hermesagent_snapshot.go:189-202 | the refs recorded are those of the newest `retention` snapshots after the create, the new one at their head when it is newer than the others |
| SnapshotRuns.SnapshotNamesDiffer | internal/usecase/hermesagent_snapshot.go:228-230 | snapshots of one claim at times that render differently have different names |
| SnapshotRuns.SnapshotFailsExactly | internal/usecase/hermesagent_snapshot.go:71-209 | a snapshot pass fails iff a call it makes fails: those of the gate, one per expired snapshot, and create, second listing and record when a run is due |
| SnapshotRuns.SnapshotUnfailed | internal/usecase/hermesagent_snapshot.go:71-209 | a snapshot pass that reports no error did exactly what it does when no call fails |
| SnapshotRuns.DueExactly | internal/usecase/hermesagent_snapshot.go:157-171 | a run is due iff a slot lies in (last mark, now] |
| SnapshotRuns.PassOutcome | internal/usecase/hermesagent_snapshot.go:157-202 | a pass creates a snapshot iff it gets to scheduling, a run is due, the call works and the name is free; the mark moves to now iff the taking is also recorded |
| SnapshotRuns.NoSlotLeft | internal/usecase/hermesagent_snapshot.go:157-208 | after a pass that reached scheduling without error no slot lies in (mark, now] |
| SnapshotRuns.RequeueLandsOnNextSlot | internal/usecase/hermesagent_snapshot.go:157-208 | every requeue delay is positive and ends exactly at the first slot after now; there is none only when the schedule has no further run |
| SnapshotRuns.MarkMovesForward | internal/usecase/hermesagent_snapshot.go:198-202 | over a run the mark never goes back and never passes the clock |
| SnapshotRuns.SlotBetweenSnapshots | internal/usecase/hermesagent_snapshot.go:157-202 | any two snapshots of a run have a slot in (t1, t2] when the first was recorded |
| SnapshotRuns.ExactlyOneCatchUp | internal/usecase/hermesagent_snapshot.go:157-202 | after an outage of any length the first pass able to takes one snapshot, and the run's total stays exactly one until a further slot comes |
| SnapshotRuns.OneSnapshotPerPass | internal/usecase/hermesagent_snapshot.go:173-182 | a pass creates at most one snapshot |
| SnapshotRuns.SlotsPayForSnapshots | internal/usecase/hermesagent_snapshot.go:157-202 | over a run whose status writes succeed there is an injection from snapshots to slots passed: never more snapshots than slots |
| SnapshotRuns.RepeatsExactly | internal/usecase/hermesagent_snapshot.go:178-202 | after a snapshot the next pass takes another iff it is able to and the record was not written or a slot has come since: the exact condition under which one-per-slot fails |
| SnapshotRuns.FailedRecordRepeats | internal/usecase/hermesagent_snapshot.go:178-202 | a run with one slot and a failing status write takes two snapshots (concrete run) |
| SnapshotRuns.DeletionsRemove | internal/usecase/hermesagent_snapshot.go:147-155 | a completed deletion loop removes exactly the snapshots with the given names |
| SnapshotRuns.SurvivorsExactly | internal/usecase/hermesagent_snapshot.go:133-155 | after the deletion loop the agent's snapshots are exactly the newest `retention` and the restore source |
| SnapshotRuns.SurvivorsBounded | internal/usecase/hermesagent_snapshot.go:133-155 | they are at most retention, plus one while the source lies outside the window |
| SnapshotRuns.DeletesOldest | internal/usecase/hermesagent_snapshot.go:133-155 | every snapshot a pass deletes is one of the agent's, not the restore source, and no newer than any of the window it keeps |
| SnapshotRuns.StatusWritten | internal/usecase/hermesagent_snapshot.go:189-202 | every status a pass writes leaves mark and refs alone, or moves the mark to now with refs that are newest first and at most `retention` |
| SnapshotRuns.PassBounded | internal/usecase/hermesagent_snapshot.go:133-208 | after any pass that reached scheduling at most retention + 1 remain, one more with the source outside the window |
| Egress.OverlapExactly | api/v1alpha1/hermesagent_egress.go:424-430 | for all patterns: some request host (one without `*`) matches both iff hostsOverlap holds and the only `*` of either pattern is that of a leading `*.` |
| Egress.CommonHostOverlaps | api/v1alpha1/hermesagent_egress.go:424-430 | whatever the patterns, two that match one host overlap: the test never misses a conflict |
| Egress.StrayStarOverlaps | api/v1alpha1/hermesagent_egress.go:422-430 | the test can see one too many: `a*` overlaps itself and no request matches it |
| Egress.MatchesExactly | api/v1alpha1/hermesagent_egress.go:422-430 | a request host matches a pattern iff it is the pattern or ends in what follows the star of a leading `*.`, letter case aside |
| Egress.LowerExactly | api/v1alpha1/hermesagent_egress.go:425-425 | folding identifies exactly the strings that differ in ASCII letter case only |
| Egress.CaseIrrelevant | api/v1alpha1/hermesagent_egress.go:424-430 | letter case makes no difference to overlapping or matching, on either side |
| Egress.ClaimNames | api/v1alpha1/hermesagent_egress.go:402-408 | an error iff an env var name would be claimed twice, and then the first such claim with its owner |
| Egress.FindSharedHost | api/v1alpha1/hermesagent_egress.go:410-416 | a host is reported iff two credentials share one, and then the first |
| Egress.CheckCredentialClaims | api/v1alpha1/hermesagent_egress.go:400-420 | accepts exactly the lists with no env var name claimed twice and no two credentials sharing a host, and reports the first conflict of any other |
| Egress.ConflictExactly | api/v1alpha1/hermesagent_egress.go:400-420 | the check reports nothing iff the list is unambiguous |
| Egress.ConflictIsReal | api/v1alpha1/hermesagent_egress.go:404-414 | the two credentials an error names do claim the env var, or do share the host |
| Egress.OneOwner | api/v1alpha1/hermesagent_egress.go:403-408 | in an accepted list an env var name belongs to one credential |
| Egress.AtMostOneSwaps | api/v1alpha1/hermesagent_egress.go:400-430 | for every accepted list and every request host at most one credential matches |
| Resolution.MergeSpecs | api/v1alpha1/hermesagent_egress.go:368-375 | the override-or-append loop equals: every name once, at its first position, with its last entry |
| Resolution.MergedDistinct | api/v1alpha1/hermesagent_egress.go:368-375 | a list of distinct names merges to itself, so providers keep their order |
| Resolution.ProviderNamesDistinct | api/v1alpha1/hermesagent_egress.go:72-93 | the bundled provider names are distinct |
| Resolution.FirstPresent | api/v1alpha1/hermesagent_egress.go:359-366 | the first env name that is a key of the credentials Secret, none earlier; empty only if none is |
| Resolution.FilterPresent | api/v1alpha1/hermesagent_egress.go:377-388 | the present entries with their source key, or the name of the first missing extra secret, and the latter iff there is one |
| Resolution.ResolveCredentials | api/v1alpha1/hermesagent_egress.go:354-393 | fails exactly when an extra secret has no present name or two claims conflict; otherwise the result is the present part of the merged table and is unambiguous |
| Resolution.ResolvedExactly | api/v1alpha1/hermesagent_egress.go:354-393 | the credentials are exactly the merged entries with a Name or alias among the keys, once and in table order, each with its Name as source key if that is a key and else its first alias that is; an extra secret is reported missing iff one has neither; a conflict reported is real |
| Resolution.ProvidersEnvShaped | api/v1alpha1/hermesagent_egress.go:72-93 | every env var name of the bundled table has the form of one |
| Resolution.KeyOrderIrrelevant | internal/usecase/hermesagent_egress_secret.go:347-349 | the whole outcome, the error reported included, depends on the set of keys only, not on the order a map iteration gives them |
| EgressSecret.GetAllowedHosts | api/v1alpha1/hermesagent_egress.go:334-345 | the bundled hosts, then the nonempty extra ones, each once at its first appearance |
| EgressSecret.BuildProxy | internal/usecase/hermesagent_egress_secret.go:264-288 | domains are the allowlist followed by credential hosts not yet on it; one rule per credential in order |
| EgressSecret.RuleHostsAllowed | internal/usecase/hermesagent_egress_secret.go:268-288 | every host a rule matches is on the allowlist, which holds no host twice |
| EgressSecret.DomainsExactly | internal/usecase/hermesagent_egress_secret.go:268-277 | the proxy's allowlist holds exactly the allowed hosts and the hosts of the credentials |
| EgressSecret.RulesExactly | internal/usecase/hermesagent_egress_secret.go:270-288 | rule i applies to exactly the request hosts of credential i, swaps its token, reads its source key, and looks in the declared headers or in Authorization when none is declared |
| EgressSecret.OneRuleApplies | internal/usecase/hermesagent_egress_secret.go:270-288 | for accepted credentials at most one rule applies to a request host, and one does iff some credential has it |
| EgressSecret.RulesReadRealKeys | internal/usecase/hermesagent_egress_secret.go:278-279 | every rule of a resolved list reads the key of the credentials Secret that holds its value |
| EgressSecret.WriteTokens | internal/usecase/hermesagent_egress_secret.go:144-149 | the nested loops write under every name the token of the credential owning it, and proxy.yaml |
| EgressSecret.BuildEgressSecret | internal/usecase/hermesagent_egress_secret.go:123-158 | for accepted credentials: kept or minted tokens under every env name, and the proxy rules built from the same tokens |
| EgressSecret.NamesHoldProxyValues | internal/usecase/hermesagent_egress_secret.go:142-149 | every env-name key holds exactly the proxy value of the one rule owning that name |
| EgressSecret.SecretKeysExactly | internal/usecase/hermesagent_egress_secret.go:142-149 | the Secret holds the env var names of the credentials and the rendered proxy.yaml, and nothing else |
| EgressSecret.TokenNamesExactly | internal/usecase/hermesagent_statefulset_egress.go:74-80 | of a built Secret the token names the pod gets are exactly the env var names of the credentials |
| EgressSecret.TokenEntriesExactly | internal/usecase/hermesagent_statefulset_hermes_scripts.go:362-371 | and they are exactly the keys the .env script prints from the mounted Secret |
| EgressSecret.RebuildIsFixpoint | internal/usecase/hermesagent_egress_secret.go:123-135 | rebuilding from the previous result takes over every token; rests on the uniqueness the claim check proves |
| EgressSecret.NameKeepsToken | internal/usecase/hermesagent_egress_secret.go:124-135 | over any run a Name present in every pass keeps its token |
| EgressSecret.DistinctExactly | internal/usecase/hermesagent_egress_secret.go:124-135 | with fresh minting the next tokens are distinct iff no two credentials inherit from one credential of the pass before |
| EgressSecret.TokensDistinctExactly | internal/usecase/hermesagent_egress_secret.go:123-135 | over any run with fresh minting, distinct credentials have distinct tokens after every pass iff no pass splits one credential's env names between two Names of the next |
| EgressSecret.SplitAliasSharesToken | internal/usecase/hermesagent_egress_secret.go:123-135 | GEMINI_API_KEY with its alias GOOGLE_API_KEY, then both as Names: accepted lists, fresh minting, one shared token |
| EgressSecret.TokensStayDistinct | internal/usecase/hermesagent_egress_secret.go:123-135 | in particular they stay distinct as long as no alias becomes a Name |
| EgressSecret.Reconciler.Reconcile | internal/usecase/hermesagent_egress_secret.go:55-106 | for every set of failing calls: a failing read, invalid credentials or a failing write change nothing; otherwise the Secret is gone (disabled) or as rebuilt, the recorded name follows unless its status write fails, and the Secret is written iff its content changed |
| EgressSecret.ReconcileTwice | internal/usecase/hermesagent_egress_secret.go:92-104 | two passes over the same credentials write at most once, whatever the second would have minted and whatever fails |
| ChangeDetection.SortedKeys | internal/usecase/hermesagent_statefulset.go:194-198 | the keys of the map, sorted, whatever order the iteration gives |
| ChangeDetection.SortedUnique | internal/usecase/hermesagent_statefulset.go:194-198 | a sorted key list is determined by its elements, so map order cannot matter |
| ChangeDetection.ConfigMapStream | internal/usecase/hermesagent_statefulset.go:193-204 | the bytes configMapDataHash writes to the hash are the stream over the sorted keys, and there is only one such key list |
| ChangeDetection.ConfigStreamInjective | internal/usecase/hermesagent_statefulset.go:200-202 | for NUL-free data the stream determines keys and values |
| ChangeDetection.ConfigHashDetectsChange | internal/usecase/hermesagent_statefulset.go:193-204 | short of a collision on the two streams, the config hash differs iff the ConfigMap data differs |
| ChangeDetection.NulBreaksInjectivity | internal/usecase/hermesagent_statefulset.go:200-202 | with a NUL in a value two different ConfigMaps give one stream (concrete data) |
| ChangeDetection.EgressPodInputs | internal/usecase/hermesagent_statefulset_egress.go:43-83 | pending iff a named Secret is missing, and then that one is named; otherwise the stream of the three Secrets and the token names |
| ChangeDetection.RowStreamInjective | internal/usecase/hermesagent_statefulset_egress.go:71-73 | for NUL-free rows the stream determines the rows |
| ChangeDetection.EgressHashDetectsChange | internal/usecase/hermesagent_statefulset_egress.go:48-82 | short of a collision, the egress hash differs iff the CA certificate, the egress Secret or the credentials Secret differs |
| Text.SubstituteExactly | internal/usecase/hermesagent_statefulset_hermes_scripts.go:655-656 | command substitution takes off exactly the trailing newlines |
| Text.InListIsLine | internal/usecase/hermesagent_statefulset_hermes_scripts.go:658-668 | the substring test of in_list holds iff the name is a line of the list, for any list text |
| Text.InListOfNames | internal/usecase/hermesagent_statefulset_hermes_scripts.go:655-668 | in_list over $(printf names) decides membership of every nonempty newline-free name |
| Text.ListedNames | internal/usecase/hermesagent_statefulset_hermes_scripts.go:655-691 | the loop over the list visits exactly the nonblank names, in order, although command substitution drops trailing newlines |
| Shell.ShellWords | internal/usecase/hermesagent_statefulset_hermes_scripts.go:716-722 | tokenizing the rendered words by the POSIX quoting rules gives back the values, for every list of strings |
| Shell.LexEscaped | internal/usecase/hermesagent_statefulset_hermes_scripts.go:719-719 | an escaped value inside quotes is read back verbatim, whatever it holds |
| ResumeCrons.PauseLoop | internal/usecase/hermesagent_statefulset_hermes_scripts.go:672-688 | the calls of the manifest loop and the RETRY text, for arbitrary manifest lines |
| ResumeCrons.ResumeLoop | internal/usecase/hermesagent_statefulset_hermes_scripts.go:691-707 | the calls of the allowlist loop |
| ResumeCrons.ManifestText | internal/usecase/hermesagent_statefulset_hermes_scripts.go:709-709 | the manifest text reads back as the allowlist lines followed by the names to retry |
| ResumeCrons.RunStart | internal/usecase/hermesagent_statefulset_hermes_scripts.go:650-710 | one run of the script on text: its CLI calls and the manifest text it writes |
| ResumeCrons.CallsAre | internal/usecase/hermesagent_statefulset_hermes_scripts.go:672-709 | a job is paused only when recorded and on neither list, resumed only when allowlisted and not declared; recorded afterwards iff allowlisted or its pause failed |
| ResumeCrons.CallsExactly | internal/usecase/hermesagent_statefulset_hermes_scripts.go:672-707 | a start pauses exactly the recorded jobs in the store that neither list names, and resumes exactly the allowlisted jobs in the store that crons does not declare |
| ResumeCrons.PausesFirst | internal/usecase/hermesagent_statefulset_hermes_scripts.go:672-707 | a start pauses before it resumes |
| ResumeCrons.WrittenReadsBack | internal/usecase/hermesagent_statefulset_hermes_scripts.go:672-709 | the text written reads back as the nonblank allowlist lines followed by the names to retry |
| ResumeCrons.RecordedExactly | internal/usecase/hermesagent_statefulset_hermes_scripts.go:672-709 | a name is a line of the next manifest iff it is allowlisted or a pause of it failed |
| ResumeCrons.ResumedStaysRecorded | internal/usecase/hermesagent_statefulset_hermes_scripts.go:643-712 | over any sequence of starts of the script, each reading the text the one before wrote, with failing calls and with removals of the profile whose delete worked, every job resumed and not yet paused is in the manifest (while it is never declared and still in the job store) |
| ResumeCrons.PauseRetriedUntilSuccess | internal/usecase/hermesagent_statefulset_hermes_scripts.go:670-688 | a failed pause is tried again at every start until one succeeds, and the name leaves the manifest exactly when none fails |
| ResumeCrons.OthersNeverTouched | internal/usecase/hermesagent_statefulset_hermes_scripts.go:672-707 | a job in neither the first manifest nor any allowlist is never paused, resumed or recorded, whatever removals of the profile the run holds |
| ResumeCrons.DropExactly | internal/usecase/hermesagent_statefulset_hermes_scripts.go:446-456 | removing the profile keeps the record complete iff its delete worked or nothing was resumed |
| ResumeCrons.FailedDeleteForgets | internal/usecase/hermesagent_statefulset_hermes_scripts.go:449-454 | with a delete that failed a resumed job runs on and no later start without it on the allowlist pauses it (concrete start and removal, any later run) |
| ResumeCrons.StoppedExactly | internal/usecase/hermesagent_statefulset_hermes_scripts.go:650-710 | a start stopped after given calls keeps the record complete iff every job it got to resume was in the manifest |
| ResumeCrons.StopsSafelyExactly | internal/usecase/hermesagent_statefulset_hermes_scripts.go:650-710 | a start can stop anywhere, with any outcome of its calls, and keep the record complete iff every allowlisted, undeclared job in the store is in the manifest before it begins |
| ResumeCrons.StoppedStartForgets | internal/usecase/hermesagent_statefulset_hermes_scripts.go:691-709 | a first start killed after a resume leaves a running job that no later start ever pauses (concrete start, any later run) |
| ResumeCrons.ListedAreNames | internal/usecase/hermesagent_statefulset_hermes_scripts.go:655-656 | for names without line breaks the lists the script compares against are the names |
| Distribution.DataVolume.RunDistribute | internal/usecase/hermesagent_statefulset_hermes_scripts.go:574-632 | install unless record and profile match; the record is written only after a successful install; failure iff an install ran and failed or was interrupted before its record |
| Distribution.DataVolume.RunCreate | internal/usecase/hermesagent_statefulset_hermes_scripts.go:468-483 | create if absent, and drop the record |
| Distribution.DataVolume.RunCleanup | internal/usecase/hermesagent_statefulset_hermes_scripts.go:433-462 | with profiles declared, the loop removes the dropped profiles it can delete and every dropped profile's record, then rewrites the list; without any, nothing happens |
| Distribution.PairInjective | internal/usecase/hermesagent_statefulset_hermes_scripts.go:545-546 | the tab keeps the recorded pair unambiguous |
| Distribution.NextTruthful | internal/usecase/hermesagent_statefulset_hermes_scripts.go:531-635 | every step keeps: a record that names a pair, with the profile present, means the profile was installed from that pair |
| Distribution.RecordsStayTruthful | internal/usecase/hermesagent_statefulset_hermes_scripts.go:433-635 | the same over any interleaving of starts, pin edits, atomically failing installs, deletions by hand and switches to and from plain profiles |
| Distribution.PinnedInstallsOnce | internal/usecase/hermesagent_statefulset_hermes_scripts.go:574-632 | an installed profile is not installed again while its pair stays and nobody takes the profile away |
| Distribution.HalfwayFailureExactly | internal/usecase/hermesagent_statefulset_hermes_scripts.go:617-629 | a failing install that is not atomic keeps the records truthful iff it left no distribution.yaml or the profile had no record of a valid pair |
| Distribution.InterruptionExactly | internal/usecase/hermesagent_statefulset_hermes_scripts.go:617-629 | an install interrupted before its record keeps the records truthful iff no record of another valid pair was there |
| Distribution.OldPinSkipsInstall | internal/usecase/hermesagent_statefulset_hermes_scripts.go:574-632 | after either, going back to the old pin skips the install over what the new one left (concrete run) |
| Distribution.InstallExactly | internal/usecase/hermesagent_statefulset_hermes_scripts.go:574-632 | an install runs iff the record differs or the profile or its distribution.yaml is gone; a successful one leaves the profile installed from the pair and on record |
| Distribution.DeletedIsReinstalled | internal/usecase/hermesagent_statefulset_hermes_scripts.go:575-577 | a profile deleted by hand is installed again, whatever its record says |
| Distribution.CreateForgets | internal/usecase/hermesagent_statefulset_hermes_scripts.go:474-482 | creating a plain profile leaves an existing one alone and drops its record, so that adding any distribution back installs it |
| Distribution.ListNamesLatest | internal/usecase/hermesagent_statefulset_hermes_scripts.go:446-461 | over any run the list reads back as the profiles of the latest start that had any |
| Distribution.CleanupExactly | internal/usecase/hermesagent_statefulset_hermes_scripts.go:446-461 | over any run a start with profiles removes exactly the deletable ones that the latest start with profiles named and it does not, with the records of all of those; every other profile and record stays |
| Distribution.UnlistedStays | internal/usecase/hermesagent_statefulset_hermes_scripts.go:446-456 | a profile off the list that no start names is never removed by a cleanup |
| Distribution.RemovalNotRetried | internal/usecase/hermesagent_statefulset_hermes_scripts.go:449-461 | a dropped profile is removed at the start that drops it or never: after a failed delete it stays while no start names it |
| Distribution.RemovedExactly | internal/usecase/hermesagent_statefulset_hermes.go:404-407 | a dropped, deletable profile is gone after the next start iff some profile is still declared |
| Distribution.LastProfileStays | internal/usecase/hermesagent_statefulset_hermes.go:404-407 | removing the last profile leaves it on the volume (concrete volume) |
| Distribution.RemovalIsOnlyLate | internal/usecase/hermesagent_statefulset_hermes_scripts.go:446-456 | it stays on the list, so the first later start with another profile removes it |
| Workspace.RoundTripExactly | internal/usecase/hermesagent_statefulset_hermes_scripts.go:41-51 | decoding the encoded path gives it back iff no `-` in it is followed by `-` or `/` |
| Workspace.KeysNeverCollide | internal/usecase/hermesagent_hermes_configmap.go:328-333 | keys of distinct such paths differ |
| Workspace.CollisionOutsideDomain | internal/usecase/hermesagent_hermes_configmap.go:328-333 | `a/b` and `a--b` share a key |
| Workspace.BuildWorkspaceData | internal/usecase/hermesagent_hermes_configmap.go:328-333 | for any files and any iteration order every file has a key and every key a file of that key; on codable paths the ConfigMap holds every file's content under its own key and nothing else |
| Workspace.Volume.RemoveOutdated | internal/usecase/hermesagent_statefulset_hermes_scripts.go:37-47 | removes exactly the managed files whose key is gone |
| Workspace.Volume.CopyFiles | internal/usecase/hermesagent_statefulset_hermes_scripts.go:49-60 | copies the keys in order and writes their decoded paths to the manifest |
| Workspace.Volume.Start | internal/usecase/hermesagent_statefulset_hermes_scripts.go:28-64 | one start on the manifest text the previous one wrote |
| Workspace.ScriptFiles | internal/usecase/hermesagent_statefulset_hermes_scripts.go:28-64 | that start refines a one-line specification: drop what was managed and is no longer declared, then write the declared files |
| Workspace.ManifestNamesDeclared | internal/usecase/hermesagent_statefulset_hermes_scripts.go:49-60 | the manifest text it writes reads back as exactly the declared paths |
| Workspace.StartFollows | internal/usecase/hermesagent_statefulset_hermes_scripts.go:28-64 | one start of the script on a volume that follows the declarations leaves one that follows the new ones |
| Workspace.FilesFollowDeclarations | internal/usecase/hermesagent_statefulset_hermes_scripts.go:28-64 | over any sequence of starts of the script, edits and removals of the profile whose delete worked, on codable one-line paths: a path ever managed is present iff declared now, with the declared content; a path never managed is unchanged; the manifest names the declared paths |
| Workspace.DropExactly | internal/usecase/hermesagent_statefulset_hermes_scripts.go:446-456 | when a removed profile is added again, every file managed before and not declared now is gone iff the delete worked or there is no such file |
| Workspace.FailedDeleteLeavesFile | internal/usecase/hermesagent_statefulset_hermes_scripts.go:449-454 | with a delete that failed the file is still there, undeclared and on no manifest (any codable path) |
| Workspace.FirstStartExactly | internal/usecase/hermesagent_statefulset_hermes_scripts.go:49-58 | that domain is exact: a first start writes the declared files iff all their paths are codable |
| Workspace.UncodableArrivesElsewhere | internal/usecase/hermesagent_statefulset_hermes_scripts.go:49-58 | `a--b` arrives as `a/b` |
| DotEnvBlock.EgressMarkersUsable | internal/usecase/hermesagent_statefulset_hermes_scripts.go:382-386 | the two marker lines meet what the block laws ask of markers |
| DotEnvBlock.StripFile | internal/usecase/hermesagent_statefulset_hermes_scripts.go:394-401 | sed's range deletion, line by line, computes Strip |
| DotEnvBlock.StripIdempotent | internal/usecase/hermesagent_statefulset_hermes_scripts.go:394-401 | strip is idempotent and leaves no begin marker, for any text |
| DotEnvBlock.StripKeepsOutside | internal/usecase/hermesagent_statefulset_hermes_scripts.go:394-401 | what strip keeps is exactly the lines outside blocks, unchanged and in order, with several or unterminated blocks too |
| DotEnvBlock.StripAppend | internal/usecase/hermesagent_statefulset_hermes_scripts.go:406-423 | strip after append equals strip with a final newline added if missing |
| DotEnvBlock.AppendLines | internal/usecase/hermesagent_statefulset_hermes_scripts.go:406-423 | the file ends with the begin marker, one KEY=value line per entry in order and the end marker, after the lines of the stripped file |
| DotEnvBlock.AppendBinds | internal/usecase/hermesagent_statefulset_hermes_scripts.go:406-423 | a last-wins reader gets every entry of the block, whatever the file held before |
| DotEnvBlock.AppendReplaces | internal/usecase/hermesagent_statefulset_hermes_scripts.go:406-423 | a later append replaces the block of an earlier one, whatever either holds |
| DotEnvBlock.AppendIdempotent | internal/usecase/hermesagent_statefulset_hermes_scripts.go:406-423 | appending twice equals appending once |
| DotEnv.PrintMount | internal/usecase/hermesagent_statefulset_hermes_scripts.go:353-361 | one mount prints KEY=value for each file, but for keys that have a token |
| DotEnv.PrintTokens | internal/usecase/hermesagent_statefulset_hermes_scripts.go:362-371 | the tokens directory prints the files whose name is an env var name |
| DotEnv.GenerateDotEnv | internal/usecase/hermesagent_statefulset_hermes_scripts.go:346-377 | the text the whole script writes |
| DotEnv.GeneratedFileMeans | internal/usecase/hermesagent_statefulset_hermes_scripts.go:346-377 | read last-wins, the file means the right-biased merge of the mounts and then the tokens: skipping keys loses nothing |
| DotEnv.FileMeansAnyValues | internal/usecase/hermesagent_statefulset_hermes_scripts.go:353-371 | for values of any number of lines: read last-wins, the file binds each key to the first line of its value and then whatever the later lines bind |
| DotEnv.FileLineOf | internal/usecase/hermesagent_statefulset_hermes_scripts.go:353-371 | the lines of the file are the first and later lines of the printed entries, for values of any number of lines |
| DotEnv.NoLeakExactly | internal/usecase/hermesagent_statefulset_hermes_scripts.go:347-371 | no line of the file gives a key that has a token any other value iff no printed value of a mount carries such a line inside it |
| DotEnv.RealKeysNeverPrinted | internal/usecase/hermesagent_statefulset_hermes_scripts.go:347-371 | with one-line values no line of the file gives a key that has a token any value but the token's |
| DotEnv.EmbeddedLineLeaks | internal/usecase/hermesagent_statefulset_hermes_scripts.go:357-358 | a value of two lines puts the real key into the file (concrete mount) |
| DotEnv.BuildMounts | internal/usecase/hermesagent_statefulset_hermes.go:282-379 | the mounts mean: operator ConfigMap, operator Secret, configMapRef, configMapRefs, secretRef, secretRefs, later ones winning |
| DotEnv.RefsPrecedence | internal/usecase/hermesagent_statefulset_hermes.go:314-379 | key by key: plural Secrets win over the singular one, that over the plural ConfigMaps, and those over the singular one |

## Left out

- Asynchronous deletion: a deleted StatefulSet or snapshot is gone at once; stale reads other than of the restored PVC.
- Storage.Kube.ReconcileStatefulSet: of the status (phase, Ready, InitFailed and ReconcileFailed conditions) only
  whether the pod is pending afterwards, which decides the requeue, and that the status write can fail.
- The pod template: everything but replicas, claim-template names and data volume is one opaque string; a change
  of a claim's size is part of it.
- PVC sizes, storage classes, snapshot classes, labels and owner references.
- Cron parsing, the rendering of timestamps in snapshot names, sub-second times.
- ConfigHashDetectsChange: for NUL-free data only, which is sufficient but not necessary.
- EgressHashDetectsChange: for NUL-free hashed values only, likewise.
- ToLower: folds ASCII letters only; host names have no others.
- proxy.yaml beyond the allowlist and the credential rules (listeners, deny CIDRs, methods), port validation, and
  the certificate authority Secret.
- ResumeCrons.RunStart: the job store is the set of names with an id, so two jobs of one name are not told apart; a start that stops midway is `Stopped`, not a
  run of this method.
- Distribution.DataVolume.RunDistribute: `hermes profile update` of an unpinned profile keeps the pair it was installed from; cloning, the staged
  checkout, git credentials and the termination message are not modelled.
- RecordsStayTruthful: for installs that are all or nothing; `HalfwayFailureExactly` and `InterruptionExactly` cover
  the others.
- Workspace.Volume.Start: paths are flat keys of a map, so neither a file standing where another path needs a directory
  nor two spellings of one path (`a//b` and `a/b`, `./a` and `a`) are modelled, nor
  are edits of managed files from inside the pod, nor `echo` implementations that interpret backslashes or options.
- StripFile: one file at a time; the loop over all `.env` files is not modelled.
- AppendIdempotent: likewise, and not for a file whose last byte is NUL.
- GeneratedFileMeans: for env-var-shaped keys and one-line values (`FileMeansAnyValues` covers the others), read without
  quoting or interpolation.
- Service, Ingress, NetworkPolicy, Role, ServiceAccount, SearXNG and Camofox reconcilers, plugins, skills, packages
  and declared crons, heartbeat, telemetry, JSON defaults of the agent config: they would add only easy members.
