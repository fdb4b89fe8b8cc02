/** The part of the cluster the storage reconcilers read and write, and the API calls they issue. */
module Cluster {
  import opened Text

  const HOME_VOLUME: string := "hermes-data"

  /** Go's zero time, in seconds since the epoch. */
  const ZERO_TIME: int := -62135596800

  /** The spec fields these reconcilers look at; `pod` stands for the rest of the rendered pod template. */
  datatype Spec = Spec(agent: string, existingClaim: string, existingSnapshot: string, persistent: bool,
                       suspended: bool, pod: string, snapshotting: bool, retention: nat)

  /** Where the agent's data lives. */
  datatype DataVolume = Existing(claim: string) | Restored(snapshot: string) | Templated | Ephemeral

  datatype Shape = Shape(templates: seq<string>, volume: DataVolume, replicas: nat, pod: string)

  /** A StatefulSet with the desired-spec-hash annotation it carries. */
  datatype StatefulSet = StatefulSet(shape: Shape, hash: string)

  /** A VolumeSnapshot of the namespace; `owned` says it carries this agent's label. */
  datatype Snapshot = Snapshot(name: string, pvc: string, created: int, owned: bool, ready: bool, deleting: bool)

  datatype Ref = Ref(name: string, pvc: string, created: int)

  datatype Reason = CRDAbsent | NotReady | InvalidSchedule

  datatype Status = Status(restoreFailed: Option<Reason>, unsupported: Option<Reason>, lastSchedule: Option<int>, refs: seq<Ref>)

  /** PVCs by name, with whether they are bound; the namespace's snapshots in listing order. */
  datatype State = State(pvcs: map<string, bool>, snapshots: seq<Snapshot>, crd: bool, sts: Option<StatefulSet>, status: Status)

  /** What a pass does to the cluster. */
  datatype Event =
    | CreatePVC(name: string, source: string)
    | DeleteSts
    | CreateSts(sts: StatefulSet)
    | UpdateSts(sts: StatefulSet)
    | DeletePod
    | DeleteSnapshot(name: string)
    | CreateSnapshot(snapshot: Snapshot)
    | WriteStatus(status: Status)

  /** What can go wrong in a pass: the API calls that can fail, and the two reads of the restored PVC that a
      stale cache can answer with nothing. */
  datatype Call =
    | GetPVC | StalePVC | StalePVCAgain | GetSnapshot | CreatePVCCall | GetPVCAgain | GetSts | DeleteStsCall | RestoreStatus
    | StsGet | ConfigMapGet | EgressGet | StsDelete | PodGet | StsUpdate | PodDelete | StsCreate | StsStatus
    | DataPVCGet | List | SnapshotDelete(name: string) | SnapshotCreate | ListAgain | ConditionStatus | ScheduleStatus

  /** What a pass observes besides the objects: whether egress is enabled and its inputs are visible, whether
      the pod was running before an update, and whether it is still pending afterwards. */
  datatype Observed = Observed(egress: bool, egressReady: bool, podRunning: bool, podPending: bool)

  /** What a pass reads from outside: the time, the agent's creation, the parsed schedule (None when it does
      not parse) with its next run after a moment, and the rendering of a time in a snapshot name. */
  datatype Clock = Clock(now: int, created: int, next: Option<int -> Option<int>>, stamp: int -> string)

  /** One reconcile pass of a run: the spec it sees, what it observes, and what goes wrong. */
  datatype Turn = Turn(spec: Spec, observed: Observed, clock: Clock, faults: set<Call>)

  function WithoutName(snapshots: seq<Snapshot>, name: string): seq<Snapshot>
  {
    if snapshots == [] then []
    else (if snapshots[0].name == name then [] else [snapshots[0]]) + WithoutName(snapshots[1..], name)
  }

  lemma {:induction false} WithoutNameKeeps(snapshots: seq<Snapshot>, name: string)
    ensures forall s :: s in WithoutName(snapshots, name) <==> s in snapshots && s.name != name
    decreases |snapshots|
  {
    if snapshots != [] {
      WithoutNameKeeps(snapshots[1..], name);
    }
  }

  function Apply(c: State, e: Event): State
  {
    match e
    case CreatePVC(name, _) => c.(pvcs := c.pvcs[name := false])
    case DeleteSts => c.(sts := None)
    case CreateSts(sts) => c.(sts := Some(sts))
    case UpdateSts(sts) => c.(sts := Some(sts))
    case DeletePod => c
    case DeleteSnapshot(name) => c.(snapshots := WithoutName(c.snapshots, name))
    case CreateSnapshot(s) => c.(snapshots := c.snapshots + [s])
    case WriteStatus(status) => c.(status := status)
  }

  function Replay(c: State, events: seq<Event>): State
  {
    if events == [] then c else Apply(Replay(c, events[..|events| - 1]), events[|events| - 1])
  }

  lemma {:induction false} ReplayAppend(c: State, a: seq<Event>, b: seq<Event>)
    ensures Replay(c, a + b) == Replay(Replay(c, a), b)
    decreases |b|
  {
    if b == [] {
      assert a + b == a;
    } else {
      var n := |b| - 1;
      assert (a + b)[..|a + b| - 1] == a + b[..n] && (a + b)[|a + b| - 1] == b[n];
      ReplayAppend(c, a, b[..n]);
    }
  }

  /** Doing more: the cluster and the log after two lists of calls. */
  lemma {:induction false} DoMore(c: State, log: seq<Event>, a: seq<Event>, b: seq<Event>)
    ensures Replay(c, a + b) == Replay(Replay(c, a), b) && log + (a + b) == log + a + b
  {
    ReplayAppend(c, a, b);
  }

  lemma {:induction false} ReplayOne(c: State, e: Event)
    ensures Replay(c, [e]) == Apply(c, e)
  {
    assert [e][..0] == [];
    assert Replay(c, []) == c;
  }

  /** The requeue delay in seconds (0 is none) and whether an error is returned. */
  datatype Result = Result(requeue: nat, failed: bool)

  const ZERO: Result := Result(0, false)
  const RETRY: Result := Result(30, false)
  const FAILED: Result := Result(30, true)

  /** Part of a pass: what it does, and the result it returns early with, if any. */
  datatype Step = Step(events: seq<Event>, stop: Option<Result>)

  function Stop(r: Result): Step { Step([], Some(r)) }

  /** The step reports no error. */
  predicate Unfailed(s: Step) { s.stop.Some? ==> !s.stop.value.failed }

  // ---- Sets of names ----

  lemma {:induction false} SubsetCardinality(a: set<string>, b: set<string>)
    requires a <= b
    ensures |a| <= |b|
    decreases |a|
  {
    if a != {} {
      var x :| x in a;
      SubsetCardinality(a - {x}, b - {x});
    }
  }

  // ---- What the spec asks for ----

  function RestoredPVCName(snapshot: string): string { snapshot + "-restore" }

  /** The claim of the home template for the first pod of an agent. */
  lemma TemplateClaimName(agent: string)
    ensures TemplateClaim(agent) == "hermes-data-" + agent + "-0"
  {
    assert HOME_VOLUME + "-" == "hermes-data-";
  }

  /** Each snapshot has a restored PVC of its own, `<snapshot>-restore`. */
  lemma {:induction false} RestoredNamesDistinct(a: string, b: string)
    ensures RestoredPVCName(a) == RestoredPVCName(b) <==> a == b
    ensures RestoredPVCName(a) == a + "-restore"
  {
    assert RestoredPVCName(a)[..|RestoredPVCName(a)| - 8] == a;
    assert RestoredPVCName(b)[..|RestoredPVCName(b)| - 8] == b;
  }

  /** The claim a StatefulSet creates from the home template for its first pod. */
  function TemplateClaim(agent: string): string { HOME_VOLUME + "-" + agent + "-0" }

  /** existingClaim, then existingSnapshot, then a template, then an emptyDir. */
  function VolumeFor(spec: Spec): DataVolume
  {
    if spec.existingClaim != "" then Existing(spec.existingClaim)
    else if spec.existingSnapshot != "" then Restored(spec.existingSnapshot)
    else if spec.persistent then Templated
    else Ephemeral
  }

  function TemplatesFor(spec: Spec): seq<string>
  {
    if VolumeFor(spec).Templated? then [HOME_VOLUME] else []
  }

  function Desired(spec: Spec): Shape
  {
    Shape(TemplatesFor(spec), VolumeFor(spec), if spec.suspended then 0 else 1, spec.pod)
  }

  /** The PVC a pod of this shape mounts as its data volume. */
  function MountedClaim(volume: DataVolume, agent: string): Option<string>
  {
    match volume
    case Existing(claim) => Some(claim)
    case Restored(snapshot) => Some(RestoredPVCName(snapshot))
    case Templated => Some(TemplateClaim(agent))
    case Ephemeral => None
  }

  /** buildDataPVCName: the PVC the snapshotter works on. */
  function DataPVCName(spec: Spec): string
  {
    if spec.existingClaim != "" then spec.existingClaim
    else if spec.existingSnapshot != "" then RestoredPVCName(spec.existingSnapshot)
    else TemplateClaim(spec.agent)
  }

  /** Whenever the data volume is backed by a PVC, the snapshotter works on the claim the pod mounts. */
  lemma SnapshotsMountedClaim(spec: Spec)
    ensures MountedClaim(VolumeFor(spec), spec.agent).Some? ==> MountedClaim(VolumeFor(spec), spec.agent) == Some(DataPVCName(spec))
    ensures MountedClaim(VolumeFor(spec), spec.agent).None? <==>
            spec.existingClaim == "" && spec.existingSnapshot == "" && !spec.persistent
  {
  }
}
