/** The storage part of a whole reconcile pass: restore, then the StatefulSet, then snapshots, each only when
    the one before returned an empty result. */
module Reconcile {
  import opened Text
  import opened Cluster
  import opened Storage
  import opened StorageRuns
  import opened Retention
  import opened Snapshots
  import opened SnapshotRuns

  function Pass(digest: Shape -> string, spec: Spec, c: State, o: Observed, k: Clock, faults: set<Call>): Step
  {
    var s := StoragePass(digest, spec, c, o, faults);
    if s.stop != Some(ZERO) then s
    else
      var t := SnapshotPass(spec, Replay(c, s.events), k, faults);
      Step(s.events + t.events, t.stop)
  }

  method RunStorage(kube: Kube, digest: Shape -> string, spec: Spec, o: Observed, faults: set<Call>) returns (r: Result)
    modifies kube
    ensures var s := StoragePass(digest, spec, old(kube.c), o, faults);
            kube.c == Replay(old(kube.c), s.events) && kube.log == old(kube.log) + s.events && Some(r) == s.stop
  {
    r := kube.ReconcileRestore(spec, faults);
    if r != ZERO {
      return;
    }
    ghost var before := Restore(spec, old(kube.c), faults).events;
    DoMore(old(kube.c), old(kube.log), before, ReconcileSts(digest, spec, Replay(old(kube.c), before), o, faults).events);
    r := kube.ReconcileStatefulSet(digest, spec, o, faults);
  }

  /** Reconcile, from the restore step on. */
  method RunPass(kube: Kube, digest: Shape -> string, spec: Spec, o: Observed, k: Clock, faults: set<Call>) returns (r: Result)
    modifies kube
    ensures var s := Pass(digest, spec, old(kube.c), o, k, faults);
            kube.c == Replay(old(kube.c), s.events) && kube.log == old(kube.log) + s.events && Some(r) == s.stop
  {
    r := RunStorage(kube, digest, spec, o, faults);
    if r != ZERO {
      return;
    }
    ghost var before := StoragePass(digest, spec, old(kube.c), o, faults).events;
    DoMore(old(kube.c), old(kube.log), before, SnapshotPass(spec, Replay(old(kube.c), before), k, faults).events);
    r := ReconcileSnapshot(kube, spec, k, faults);
  }

  // ---- Safety of every call ----

  /** What must hold of the cluster at the moment a call is made. */
  ghost predicate Safe(digest: Shape -> string, spec: Spec, c: State, e: Event)
  {
    match e
    case CreatePVC(name, source) =>
      // a restored PVC is only ever created once, from a ready source
      && source == spec.existingSnapshot != "" && name == RestoredPVCName(source) && name !in c.pvcs
      && c.crd && exists s :: s in c.snapshots && s.name == source && s.ready
    case DeleteSts =>
      // the StatefulSet is never given up before its restored volume exists
      c.sts.Some? && Provisioned(spec, c)
    case CreateSts(sts) => c.sts.None? && sts == DesiredSts(digest, spec) && Provisioned(spec, c)
    case UpdateSts(sts) =>
      // an update never changes the claim templates, which are immutable
      && c.sts.Some? && sts == DesiredSts(digest, spec) && Provisioned(spec, c)
      && Elements(sts.shape.templates) == Elements(c.sts.value.shape.templates)
    case DeletePod => Provisioned(spec, c)
    case DeleteSnapshot(name) =>
      // neither the restore source nor anyone else's snapshot
      && (spec.existingSnapshot != "" ==> name != spec.existingSnapshot)
      && (forall s :: s in c.snapshots && s.name == name ==> s.owned)
    case CreateSnapshot(s) =>
      // of the agent's data claim, under a name that is free; SnapshotOfLiveClaim says when the pod mounts it
      s.owned && !s.deleting && !s.ready && s.pvc == DataPVCName(spec) && forall x :: x in c.snapshots ==> x.name != s.name
    case WriteStatus(_) => true
  }

  /** Every call is safe in the cluster the calls before it left. */
  ghost predicate AllSafe(digest: Shape -> string, spec: Spec, c: State, events: seq<Event>)
  {
    events == [] ||
    var n := |events| - 1;
    AllSafe(digest, spec, c, events[..n]) && Safe(digest, spec, Replay(c, events[..n]), events[n])
  }

  lemma {:induction false} AllSafeAppend(digest: Shape -> string, spec: Spec, c: State, a: seq<Event>, b: seq<Event>)
    requires AllSafe(digest, spec, c, a) && AllSafe(digest, spec, Replay(c, a), b)
    ensures AllSafe(digest, spec, c, a + b)
    decreases |b|
  {
    if b == [] {
      assert a + b == a;
    } else {
      var n := |b| - 1;
      assert (a + b)[..|a + b| - 1] == a + b[..n] && (a + b)[|a + b| - 1] == b[n];
      AllSafeAppend(digest, spec, c, a, b[..n]);
      ReplayAppend(c, a, b[..n]);
    }
  }

  lemma {:induction false} SafeOne(digest: Shape -> string, spec: Spec, c: State, e: Event)
    requires Safe(digest, spec, c, e)
    ensures AllSafe(digest, spec, c, [e])
  {
    assert [e][..0] == [] && AllSafe(digest, spec, c, []) && Replay(c, []) == c;
  }

  lemma {:induction false} SafeStatus(digest: Shape -> string, spec: Spec, c: State, events: seq<Event>)
    requires |events| <= 1 && forall e :: e in events ==> e.WriteStatus?
    ensures AllSafe(digest, spec, c, events)
  {
    if events != [] {
      assert events[0] in events && events == [events[0]];
      SafeOne(digest, spec, c, events[0]);
    }
  }

  lemma {:induction false} RestoreSafe(digest: Shape -> string, spec: Spec, c: State, faults: set<Call>)
    ensures AllSafe(digest, spec, c, Restore(spec, c, faults).events)
  {
    if spec.existingSnapshot == "" {
      SafeStatus(digest, spec, c, ClearRestoreFailed(c, faults).events);
    } else {
      var p := Provision(spec, c, faults);
      ProvisionOutcome(spec, c, faults);
      if p.events != [] && p.events[0].CreatePVC? {
        SafeOne(digest, spec, c, p.events[0]);
      } else {
        SafeStatus(digest, spec, c, p.events);
      }
      if p.stop.None? {
        var mid := Replay(c, p.events);
        var g := RestoreGate(mid, faults);
        if HasTemplate(mid, HOME_VOLUME) {
          SafeOne(digest, spec, mid, DeleteSts);
        } else {
          SafeStatus(digest, spec, mid, g.events);
        }
        assert AllSafe(digest, spec, mid, g.events);
        AllSafeAppend(digest, spec, c, p.events, g.events);
      }
    }
  }

  lemma {:induction false} StsSafe(digest: Shape -> string, spec: Spec, c: State, o: Observed, faults: set<Call>)
    requires Provisioned(spec, c)
    ensures AllSafe(digest, spec, c, ReconcileSts(digest, spec, c, o, faults).events)
  {
    var sts := DesiredSts(digest, spec);
    assert AllSafe(digest, spec, c, []);
    if c.sts.None? {
      SafeOne(digest, spec, c, CreateSts(sts));
    } else {
      SafeOne(digest, spec, c, DeleteSts);
      if SameNames(c.sts.value.shape.templates, TemplatesFor(spec)) {
        SameNamesExactly(c.sts.value.shape.templates, TemplatesFor(spec));
        SafeOne(digest, spec, c, UpdateSts(sts));
        ReplayOne(c, UpdateSts(sts));
        SafeOne(digest, spec, Replay(c, [UpdateSts(sts)]), DeletePod);
        AllSafeAppend(digest, spec, c, [UpdateSts(sts)], [DeletePod]);
        assert [UpdateSts(sts)] + [DeletePod] == [UpdateSts(sts), DeletePod];
      }
    }
  }

  lemma {:induction false} DeletionsSafe(digest: Shape -> string, spec: Spec, c: State, expired: seq<Snapshot>, faults: set<Call>)
    requires forall i :: 0 <= i < |expired| ==> Safe(digest, spec, c, DeleteSnapshot(expired[i].name))
    ensures AllSafe(digest, spec, c, Deletions(expired, faults).events)
    ensures forall s :: s in Replay(c, Deletions(expired, faults).events).snapshots ==> s in c.snapshots
    decreases |expired|
  {
    if expired != [] {
      var n := |expired| - 1;
      DeletionsSafe(digest, spec, c, expired[..n], faults);
      var before := Deletions(expired[..n], faults);
      var mid, e := Replay(c, before.events), DeleteSnapshot(expired[n].name);
      SafeOne(digest, spec, mid, e) by {
        assert Safe(digest, spec, c, e);
      }
      AllSafeAppend(digest, spec, c, before.events, [e]);
      ReplayAppend(c, before.events, [e]);
      ReplayOne(mid, e);
      WithoutNameKeeps(mid.snapshots, expired[n].name);
    }
  }

  lemma {:induction false} ExpiredSafe(digest: Shape -> string, spec: Spec, c: State, snapshots: seq<Snapshot>)
    requires UniqueNames(c.snapshots) && snapshots == Owned(c.snapshots)
    ensures forall x :: x in Expired(snapshots, spec.retention, spec.existingSnapshot) ==>
              Safe(digest, spec, c, DeleteSnapshot(x.name))
  {
    OwnedIs(c.snapshots);
    forall x | x in Expired(snapshots, spec.retention, spec.existingSnapshot)
      ensures Safe(digest, spec, c, DeleteSnapshot(x.name))
    {
      ExpiredIs(snapshots, spec, x);
      SplitMembers(snapshots, spec.retention, x);
      forall s | s in c.snapshots && s.name == x.name ensures s.owned {
        SameNameSameSnapshot(c.snapshots, s, x);
      }
    }
  }

  lemma {:induction false} ScheduleSafe(digest: Shape -> string, spec: Spec, c: State, k: Clock, faults: set<Call>)
    requires k.next.Some?
    ensures AllSafe(digest, spec, c, Schedule(spec, c, k, faults).events)
  {
    var e := CreateSnapshot(SnapshotAt(spec, k));
    assert AllSafe(digest, spec, c, []);
    var s := Schedule(spec, c, k, faults).events;
    if !Exists(c, SnapshotAt(spec, k).name) {
      SafeOne(digest, spec, c, e);
    }
    if |s| == 2 {
      SafeOne(digest, spec, Replay(c, [e]), s[1]);
      AllSafeAppend(digest, spec, c, [e], [s[1]]);
      assert s == [e] + [s[1]];
    } else if |s| == 1 && s[0].WriteStatus? {
      SafeOne(digest, spec, c, s[0]);
    }
  }

  lemma {:induction false} RetainSafe(digest: Shape -> string, spec: Spec, c: State, k: Clock, faults: set<Call>)
    requires UniqueNames(c.snapshots)
    ensures AllSafe(digest, spec, c, Retain(spec, c, k, faults).events)
  {
    var g := Gate(spec, c, k, faults);
    GateKeeps(spec, c, k, faults);
    SafeStatus(digest, spec, c, g.events);
    if g.stop.None? {
      var mid := Replay(c, g.events);
      var expired := Expired(Owned(c.snapshots), spec.retention, spec.existingSnapshot);
      ExpiredSafe(digest, spec, mid, Owned(c.snapshots));
      forall i | 0 <= i < |expired| ensures Safe(digest, spec, mid, DeleteSnapshot(expired[i].name)) {
        assert expired[i] in expired;
      }
      DeletionsSafe(digest, spec, mid, expired, faults);
      AllSafeAppend(digest, spec, c, g.events, Deletions(expired, faults).events);
    }
  }

  lemma {:induction false} SnapshotPassSafe(digest: Shape -> string, spec: Spec, c: State, k: Clock, faults: set<Call>)
    requires UniqueNames(c.snapshots)
    ensures AllSafe(digest, spec, c, SnapshotPass(spec, c, k, faults).events)
  {
    RetainSafe(digest, spec, c, k, faults);
    var r := Retain(spec, c, k, faults);
    if r.stop.None? && k.next.Some? {
      var mid := Replay(c, r.events);
      ScheduleSafe(digest, spec, mid, k, faults);
      AllSafeAppend(digest, spec, c, r.events, Schedule(spec, mid, k, faults).events);
    }
  }

  lemma {:induction false} StorageLeavesSnapshots(digest: Shape -> string, spec: Spec, c: State, events: seq<Event>)
    requires forall e :: e in events ==> !e.DeleteSnapshot? && !e.CreateSnapshot?
    ensures Replay(c, events).snapshots == c.snapshots
    decreases |events|
  {
    if events != [] {
      var n := |events| - 1;
      assert events[n] in events;
      StorageLeavesSnapshots(digest, spec, c, events[..n]);
    }
  }

  /** In every pass, from every cluster and whatever calls fail: each call is safe when it is made. In
      particular no StatefulSet is created, updated or deleted towards a restored volume before its PVC
      exists, and the snapshot named as the restore source is never deleted. */
  lemma {:induction false} EveryCallIsSafe(digest: Shape -> string, spec: Spec, c: State, o: Observed, k: Clock, faults: set<Call>)
    requires UniqueNames(c.snapshots)
    ensures AllSafe(digest, spec, c, Pass(digest, spec, c, o, k, faults).events)
  {
    var r := Restore(spec, c, faults);
    RestoreSafe(digest, spec, c, faults);
    RestoreOutcome(spec, c, faults);
    if r.stop == Some(ZERO) {
      var mid := Replay(c, r.events);
      StsSafe(digest, spec, mid, o, faults);
      var a := ReconcileSts(digest, spec, mid, o, faults).events;
      AllSafeAppend(digest, spec, c, r.events, a);
      var s := StoragePass(digest, spec, c, o, faults);
      if s.stop == Some(ZERO) {
        StsLeavesSnapshots(digest, spec, mid, o, faults);
        StorageLeavesSnapshots(digest, spec, c, r.events + a);
        SnapshotPassSafe(digest, spec, Replay(c, s.events), k, faults);
        AllSafeAppend(digest, spec, c, s.events, SnapshotPass(spec, Replay(c, s.events), k, faults).events);
      }
    }
  }

  lemma {:induction false} StsLeavesSnapshots(digest: Shape -> string, spec: Spec, c: State, o: Observed, faults: set<Call>)
    ensures forall e :: e in ReconcileSts(digest, spec, c, o, faults).events ==> !e.DeleteSnapshot? && !e.CreateSnapshot?
  {
  }

  // ---- Which claim is snapshotted ----

  lemma {:induction false} StorageTakesNone(digest: Shape -> string, spec: Spec, c: State, o: Observed, faults: set<Call>)
    ensures forall e :: e in StoragePass(digest, spec, c, o, faults).events ==> !e.CreateSnapshot?
  {
    var r := Restore(spec, c, faults);
    RestoreOutcome(spec, c, faults);
    StsLeavesSnapshots(digest, spec, Replay(c, r.events), o, faults);
  }

  predicate SnapshotEvent(spec: Spec, k: Clock, e: Event)
  {
    e.DeleteSnapshot? || e.WriteStatus? || e == CreateSnapshot(SnapshotAt(spec, k))
  }

  lemma {:induction false} SnapshotEventsAre(spec: Spec, c: State, k: Clock, faults: set<Call>)
    ensures forall e :: e in SnapshotPass(spec, c, k, faults).events ==> SnapshotEvent(spec, k, e)
  {
    var r := Retain(spec, c, k, faults);
    RetainOutcome(spec, c, k, faults);
    if r.stop.None? && k.next.Some? {
      ScheduleOutcome(spec, Replay(c, r.events), k, faults);
    }
  }

  lemma {:induction false} SnapshotsKeepSts(spec: Spec, k: Clock, c: State, events: seq<Event>)
    requires forall e :: e in events ==> SnapshotEvent(spec, k, e)
    ensures Replay(c, events).sts == c.sts
    decreases |events|
  {
    if events != [] {
      var n := |events| - 1;
      assert events[n] in events;
      SnapshotsKeepSts(spec, k, c, events[..n]);
    }
  }

  /** The snapshot is of the claim the StatefulSet mounts. */
  predicate OfMounted(live: StatefulSet, agent: string, s: Snapshot)
  {
    MountedClaim(live.shape.volume, agent) == Some(s.pvc)
  }

  lemma {:induction false} SnapshotPassKeepsSts(spec: Spec, c: State, k: Clock, faults: set<Call>, n: nat)
    ensures var t := SnapshotPass(spec, c, k, faults).events;
            n < |t| ==> Replay(c, t[..n]).sts == c.sts && (t[n].CreateSnapshot? ==> t[n].snapshot.pvc == DataPVCName(spec))
  {
    var t := SnapshotPass(spec, c, k, faults).events;
    SnapshotEventsAre(spec, c, k, faults);
    if n < |t| {
      assert t[n] in t && forall e :: e in t[..n] ==> e in t;
      SnapshotsKeepSts(spec, k, c, t[..n]);
    }
  }

  /** When a pass takes a snapshot, the live StatefulSet is as desired, and the snapshot is of the claim that
      StatefulSet mounts exactly when the spec names a claim or a snapshot or is persistent. */
  lemma {:induction false} SnapshotOfLiveClaim(digest: Shape -> string, spec: Spec, c: State, o: Observed, k: Clock, faults: set<Call>)
    requires Truthful(digest, spec, c)
    ensures var events := Pass(digest, spec, c, o, k, faults).events;
            forall i :: 0 <= i < |events| && events[i].CreateSnapshot? ==>
              var live := Replay(c, events[..i]).sts;
              && live == Some(DesiredSts(digest, spec))
              && (OfMounted(live.value, spec.agent, events[i].snapshot) <==>
                  spec.existingClaim != "" || spec.existingSnapshot != "" || spec.persistent)
  {
    var s := StoragePass(digest, spec, c, o, faults);
    var events := Pass(digest, spec, c, o, k, faults).events;
    StorageTakesNone(digest, spec, c, o, faults);
    SnapshotsMountedClaim(spec);
    forall i | 0 <= i < |events| && events[i].CreateSnapshot?
      ensures Replay(c, events[..i]).sts == Some(DesiredSts(digest, spec)) && events[i].snapshot.pvc == DataPVCName(spec)
    {
      assert events[i] in events;
      assert s.stop == Some(ZERO);
      var mid := Replay(c, s.events);
      var t := SnapshotPass(spec, mid, k, faults).events;
      SnapshotAfterStorage(s.events, t, i);
      ZeroIsDesired(digest, spec, c, o, faults);
      SnapshotPassKeepsSts(spec, mid, k, faults, i - |s.events|);
      ReplayAppend(c, s.events, t[..i - |s.events|]);
    }
  }

  lemma {:induction false} SnapshotAfterStorage(s: seq<Event>, t: seq<Event>, i: nat)
    requires i < |s + t| && (s + t)[i].CreateSnapshot? && forall e :: e in s ==> !e.CreateSnapshot?
    ensures |s| <= i && (s + t)[i] == t[i - |s|] && (s + t)[..i] == s + t[..i - |s|]
  {
    assert forall j :: 0 <= j < |s| ==> (s + t)[j] == s[j] && s[j] in s;
  }

  /** The other case happens: a claim left behind when persistence was switched off is snapshotted while the
      pod runs on an emptyDir. */
  lemma {:induction false} LeftoverClaimIsSnapshotted(digest: Shape -> string, status: Status)
    requires status == Status(None, None, None, [])
    ensures var spec := Spec("a", "", "", false, false, "", true, 5);
            var c := State(map[TemplateClaim("a") := true], [], true, Some(DesiredSts(digest, spec)), status);
            var events := Pass(digest, spec, c, RUNNING, ClockAt(1), {}).events;
            && Truthful(digest, spec, c) && MountedClaim(c.sts.value.shape.volume, "a") == None
            && |events| > 0 && events[0].CreateSnapshot? && events[0].snapshot.pvc == TemplateClaim("a")
  {
    var spec := Spec("a", "", "", false, false, "", true, 5);
    var c := State(map[TemplateClaim("a") := true], [], true, Some(DesiredSts(digest, spec)), status);
    var o, k := RUNNING, ClockAt(1);
    assert Restore(spec, c, {}) == Stop(ZERO) && Replay(c, []) == c;
    assert ReconcileSts(digest, spec, c, o, {}) == Step([], Some(ZERO));
    assert StoragePass(digest, spec, c, o, {}).events == [];
    assert DataPVCName(spec) == TemplateClaim("a");
    assert Gate(spec, c, k, {}) == Step([], None);
    RetainsAll(spec, c, k, {});
    assert Due(c, k);
    assert Schedule(spec, c, k, {}).events[0] == CreateSnapshot(SnapshotAt(spec, k));
  }

  lemma {:induction false} RestoredIsUnbound(spec: Spec, c: State, faults: set<Call>)
    ensures var s, pvc := Restore(spec, c, faults), RestoredPVCName(spec.existingSnapshot);
            var d := Replay(c, s.events);
            Provisions(s.events) ==> spec.existingSnapshot != "" && pvc in d.pvcs && !d.pvcs[pvc]
  {
    RestoreOutcome(spec, c, faults);
    if spec.existingSnapshot != "" {
      var p := Provision(spec, c, faults);
      var mid := Replay(c, p.events);
      ReplayOne(c, CreatePVC(RestoredPVCName(spec.existingSnapshot), spec.existingSnapshot));
      if p.stop.None? {
        GateOutcome(mid, faults);
        GateCut(mid, faults);
        ProvisionsAppend(p.events, RestoreGate(mid, faults).events);
        ReplayAppend(c, p.events, RestoreGate(mid, faults).events);
      }
    }
  }

  lemma {:induction false} CreatedIsUnbound(digest: Shape -> string, spec: Spec, c: State, o: Observed, faults: set<Call>)
    requires spec.existingClaim == ""
    ensures var s := StoragePass(digest, spec, c, o, faults);
            Provisions(s.events) ==> !ClaimBound(spec, Replay(c, s.events))
  {
    var r := Restore(spec, c, faults);
    RestoredIsUnbound(spec, c, faults);
    if r.stop == Some(ZERO) {
      var mid := Replay(c, r.events);
      var t := ReconcileSts(digest, spec, mid, o, faults);
      StsOutcome(digest, spec, mid, o, faults);
      StsCreatesNoPVC(digest, spec, mid, o, faults);
      ProvisionsAppend(r.events, t.events);
      ReplayAppend(c, r.events, t.events);
    }
  }

  lemma {:induction false} StsCreatesNoPVC(digest: Shape -> string, spec: Spec, c: State, o: Observed, faults: set<Call>)
    ensures !Provisions(ReconcileSts(digest, spec, c, o, faults).events)
  {
  }

  /** A volume restored in a pass is not yet bound, so that pass takes no snapshot of it. */
  lemma {:induction false} FreshVolumeNotSnapshotted(digest: Shape -> string, spec: Spec, c: State, o: Observed, k: Clock, faults: set<Call>)
    requires spec.existingClaim == ""
    ensures Provisions(StoragePass(digest, spec, c, o, faults).events) ==> !Took(Pass(digest, spec, c, o, k, faults).events)
  {
    var s := StoragePass(digest, spec, c, o, faults);
    StorageTakesNone(digest, spec, c, o, faults);
    CreatedIsUnbound(digest, spec, c, o, faults);
    if s.stop == Some(ZERO) {
      var mid := Replay(c, s.events);
      PassOutcome(spec, mid, k, faults);
      TookAppend(s.events, SnapshotPass(spec, mid, k, faults).events);
    }
  }

  /** The annotation records the shape it stands next to. */
  predicate Annotated(digest: Shape -> string, c: State)
  {
    c.sts.Some? ==> c.sts.value.hash == digest(c.sts.value.shape)
  }

  lemma {:induction false} PassAnnotated(digest: Shape -> string, spec: Spec, c: State, o: Observed, k: Clock, faults: set<Call>)
    requires Annotated(digest, c)
    ensures Annotated(digest, Replay(c, Pass(digest, spec, c, o, k, faults).events))
  {
    var r := Restore(spec, c, faults);
    RestoreOutcome(spec, c, faults);
    if r.stop == Some(ZERO) {
      var mid := Replay(c, r.events);
      StsOutcome(digest, spec, mid, o, faults);
      ReplayAppend(c, r.events, ReconcileSts(digest, spec, mid, o, faults).events);
    }
    var s := StoragePass(digest, spec, c, o, faults);
    if s.stop == Some(ZERO) {
      var mid := Replay(c, s.events);
      SnapshotEventsAre(spec, mid, k, faults);
      SnapshotsKeepSts(spec, k, mid, SnapshotPass(spec, mid, k, faults).events);
      ReplayAppend(c, s.events, SnapshotPass(spec, mid, k, faults).events);
    }
  }

  // ---- What survives a run ----

  /** Reading the safety of a pass back: a named restore source that exists is there after the pass. */
  lemma {:induction false} SafeKeepsSource(digest: Shape -> string, spec: Spec, c: State, events: seq<Event>, x: Snapshot)
    requires AllSafe(digest, spec, c, events) && x in c.snapshots && IsSource(spec, x)
    ensures x in Replay(c, events).snapshots
    decreases |events|
  {
    if events != [] {
      var n := |events| - 1;
      SafeKeepsSource(digest, spec, c, events[..n], x);
      if events[n].DeleteSnapshot? {
        WithoutNameKeeps(Replay(c, events[..n]).snapshots, events[n].name);
      }
    }
  }

  /** No call the reconcilers make removes a PVC. */
  lemma {:induction false} CallsKeepPVCs(c: State, events: seq<Event>)
    ensures c.pvcs.Keys <= Replay(c, events).pvcs.Keys
    decreases |events|
  {
    if events != [] {
      CallsKeepPVCs(c, events[..|events| - 1]);
    }
  }

  function PassEvents(digest: Shape -> string, t: Turn, c: State): seq<Event>
  {
    Pass(digest, t.spec, c, t.observed, t.clock, t.faults).events
  }

  /** A run: between two passes anyone may change anything, but for what a theorem says. */
  predicate IsRun(turns: seq<Turn>, clusters: seq<State>)
  {
    |clusters| == |turns| + 1
  }

  function AfterPass(digest: Shape -> string, t: Turn, c: State): State { Replay(c, PassEvents(digest, t, c)) }

  /** Over every run with arbitrary spec edits and failing calls, a PVC that nobody else removes stays. */
  lemma {:induction false} VolumesSurvive(digest: Shape -> string, turns: seq<Turn>, clusters: seq<State>, pvc: string, n: nat)
    requires IsRun(turns, clusters) && n <= |turns| && pvc in clusters[0].pvcs
    requires forall i :: 0 <= i < |turns| ==>
      pvc in AfterPass(digest, turns[i], clusters[i]).pvcs ==> pvc in clusters[i + 1].pvcs
    ensures pvc in clusters[n].pvcs
  {
    if n > 0 {
      VolumesSurvive(digest, turns, clusters, pvc, n - 1);
      CallsKeepPVCs(clusters[n - 1], PassEvents(digest, turns[n - 1], clusters[n - 1]));
    }
  }

  /** In every window of passes whose specs name a snapshot as restore source, whatever the specs before and
      after say, the snapshot stays if nobody else removes it. */
  lemma {:induction false} SourceSurvives(digest: Shape -> string, turns: seq<Turn>, clusters: seq<State>, x: Snapshot, m: nat, n: nat)
    requires IsRun(turns, clusters) && m <= n <= |turns| && x in clusters[m].snapshots
    requires forall i :: m <= i < n ==> IsSource(turns[i].spec, x) && UniqueNames(clusters[i].snapshots)
    requires forall i :: m <= i < n ==>
      x in AfterPass(digest, turns[i], clusters[i]).snapshots ==> x in clusters[i + 1].snapshots
    ensures x in clusters[n].snapshots
    decreases n
  {
    if m < n {
      SourceSurvives(digest, turns, clusters, x, m, n - 1);
      var t, c := turns[n - 1], clusters[n - 1];
      EveryCallIsSafe(digest, t.spec, c, t.observed, t.clock, t.faults);
      SafeKeepsSource(digest, t.spec, c, PassEvents(digest, t, c), x);
    }
  }

  /** The live shape does not collide with the desired one. */
  predicate NoCollision(digest: Shape -> string, spec: Spec, c: State)
  {
    c.sts.Some? && digest(c.sts.value.shape) == digest(Desired(spec)) ==> c.sts.value.shape == Desired(spec)
  }

  /** The annotation is the hash of the live shape over every run in which only the operator touches the
      StatefulSet, so that SnapshotOfLiveClaim holds of every pass whose two shapes do not collide. */
  lemma {:induction false} AnnotationStaysTruthful(digest: Shape -> string, turns: seq<Turn>, clusters: seq<State>, n: nat)
    requires IsRun(turns, clusters) && n < |turns| && Annotated(digest, clusters[0])
    requires forall i :: 0 <= i < |turns| ==> clusters[i + 1].sts == AfterPass(digest, turns[i], clusters[i]).sts
    ensures Annotated(digest, clusters[n])
    ensures NoCollision(digest, turns[n].spec, clusters[n]) ==> Truthful(digest, turns[n].spec, clusters[n])
  {
    if n > 0 {
      AnnotationStaysTruthful(digest, turns, clusters, n - 1);
      var t := turns[n - 1];
      PassAnnotated(digest, t.spec, clusters[n - 1], t.observed, t.clock, t.faults);
    }
  }

  // ---- Pods and errors over the whole pass ----

  /** The pod of an agent is deleted right after an update, exactly when it was not running and the call
      works, also in a pass that goes on to snapshots. */
  lemma {:induction false} PassPods(digest: Shape -> string, spec: Spec, c: State, o: Observed, k: Clock, faults: set<Call>)
    ensures PodFollowsUpdate(Pass(digest, spec, c, o, k, faults).events, o, faults)
  {
    var s := StoragePass(digest, spec, c, o, faults);
    PodDeletedExactly(digest, spec, c, o, faults);
    if s.stop == Some(ZERO) {
      var t := SnapshotPass(spec, Replay(c, s.events), k, faults).events;
      SnapshotEventsAre(spec, Replay(c, s.events), k, faults);
      PodsBeforeOthers(s.events, t, o, faults);
    }
  }

  lemma {:induction false} PodsBeforeOthers(events: seq<Event>, after: seq<Event>, o: Observed, faults: set<Call>)
    requires PodFollowsUpdate(events, o, faults) && forall e :: e in after ==> !e.UpdateSts? && !e.DeletePod?
    ensures PodFollowsUpdate(events + after, o, faults)
  {
    var all := events + after;
    assert forall i :: |events| <= i < |all| ==> all[i] == after[i - |events|] && after[i - |events|] in after;
    if Updates(events) {
      var i :| 0 <= i < |events| && events[i].UpdateSts?;
      assert all[i].UpdateSts?;
    }
    if Updates(all) {
      var i :| 0 <= i < |all| && all[i].UpdateSts?;
      assert events[i].UpdateSts?;
    }
  }

  /** A pass that reports no error did exactly what it does when no call fails. */
  lemma {:induction false} PassUnfailed(digest: Shape -> string, spec: Spec, c: State, o: Observed, k: Clock, faults: set<Call>)
    requires FreshReads(faults)
    ensures Unfailed(Pass(digest, spec, c, o, k, {}))
    ensures Unfailed(Pass(digest, spec, c, o, k, faults)) ==> Pass(digest, spec, c, o, k, faults) == Pass(digest, spec, c, o, k, {})
  {
    StorageUnfailed(digest, spec, c, o, faults);
    StorageUnfailed(digest, spec, c, o, {});
    var s := StoragePass(digest, spec, c, o, {});
    SnapshotUnfailed(spec, Replay(c, s.events), k, faults);
    SnapshotUnfailed(spec, Replay(c, s.events), k, {});
  }
}
