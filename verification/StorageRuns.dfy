/** Convergence, the two delete gates never fighting, and restored volumes never dangling, over whole runs
    of restore-then-StatefulSet passes. */
module StorageRuns {
  import opened Text
  import opened Cluster
  import opened Storage

  predicate InputsVisible(o: Observed) { o.egress ==> o.egressReady }

  /** The restored PVC exists whenever a snapshot is named to restore from. */
  predicate Provisioned(spec: Spec, c: State)
  {
    spec.existingSnapshot != "" ==> RestoredPVCName(spec.existingSnapshot) in c.pvcs
  }

  function DesiredSts(digest: Shape -> string, spec: Spec): StatefulSet
  {
    StatefulSet(Desired(spec), digest(Desired(spec)))
  }

  /** What reconcileRestore leaves behind for the StatefulSet step: it goes on only once the restored PVC
      exists and no home template stands in the way, and it touches the StatefulSet only to delete it. */
  lemma {:induction false} RestoreOutcome(spec: Spec, c: State, faults: set<Call>)
    ensures var s := Restore(spec, c, faults);
            var d := Replay(c, s.events);
            && c.pvcs.Keys <= d.pvcs.Keys
            && (s.stop == Some(ZERO) ==> Provisioned(spec, d) && d.sts == c.sts && DeleteSts !in s.events)
            && (if DeleteSts in s.events
                then spec.existingSnapshot != "" && HasTemplate(c, HOME_VOLUME) && d.sts == None && Provisioned(spec, d)
                else d.sts == c.sts)
            && (forall e :: e in s.events ==> e.CreatePVC? || e.DeleteSts? || e.WriteStatus?)
            && (spec.existingSnapshot == "" ==> forall e :: e in s.events ==> e.WriteStatus?)
  {
    if spec.existingSnapshot == "" {
    } else {
      var p := Provision(spec, c, faults);
      ProvisionOutcome(spec, c, faults);
      if p.stop.None? {
        var mid := Replay(c, p.events);
        GateOutcome(mid, faults);
        ReplayAppend(c, p.events, RestoreGate(mid, faults).events);
      }
    }
  }

  lemma {:induction false} ProvisionOutcome(spec: Spec, c: State, faults: set<Call>)
    requires spec.existingSnapshot != ""
    ensures var s := Provision(spec, c, faults);
            var d := Replay(c, s.events);
            && c.pvcs.Keys <= d.pvcs.Keys && d.sts == c.sts && s.stop != Some(ZERO)
            && (s.stop.None? ==> Provisioned(spec, d))
            && forall e :: e in s.events ==> e.CreatePVC? || e.WriteStatus?
  {
    ReplayOne(c, CreatePVC(RestoredPVCName(spec.existingSnapshot), spec.existingSnapshot));
  }

  lemma {:induction false} GateOutcome(c: State, faults: set<Call>)
    ensures var s := RestoreGate(c, faults);
            var d := Replay(c, s.events);
            && d.pvcs == c.pvcs
            && (s.stop == Some(ZERO) ==> DeleteSts !in s.events)
            && (if DeleteSts in s.events then HasTemplate(c, HOME_VOLUME) && d.sts == None else d.sts == c.sts)
            && forall e :: e in s.events ==> e.DeleteSts? || e.WriteStatus?
  {
    ReplayOne(c, DeleteSts);
  }

  /** What the StatefulSet step can leave behind. */
  lemma {:induction false} StsOutcome(digest: Shape -> string, spec: Spec, c: State, o: Observed, faults: set<Call>)
    ensures var s := ReconcileSts(digest, spec, c, o, faults);
            var d := Replay(c, s.events);
            && d.pvcs == c.pvcs
            && (d.sts == c.sts || d.sts == None || d.sts == Some(DesiredSts(digest, spec)))
            && (DeleteSts in s.events ==> d.sts == None && c.sts.Some? && !SameNames(c.sts.value.shape.templates, TemplatesFor(spec)))
            && (c.sts.Some? && d.sts == None ==> DeleteSts in s.events)
            && (c.sts == Some(DesiredSts(digest, spec)) ==> s.events == [])
  {
    var sts := DesiredSts(digest, spec);
    StsEvents(digest, spec, c, o, faults);
    ReplayOne(c, CreateSts(sts));
    ReplayOne(c, DeleteSts);
  }

  /** With no failing call and its inputs visible, the step creates, updates, deletes or finds nothing to do. */
  lemma {:induction false} StsProgress(digest: Shape -> string, spec: Spec, c: State, o: Observed)
    requires InputsVisible(o)
    ensures var d := Replay(c, ReconcileSts(digest, spec, c, o, {}).events);
            if c.sts.None? then d.sts == Some(DesiredSts(digest, spec))
            else if !SameNames(c.sts.value.shape.templates, TemplatesFor(spec)) then d.sts == None
            else if c.sts.value.hash == digest(Desired(spec)) then d.sts == c.sts
            else d.sts == Some(DesiredSts(digest, spec))
  {
    var sts := DesiredSts(digest, spec);
    ReplayOne(c, CreateSts(sts));
    ReplayOne(c, DeleteSts);
  }

  // ---- One pass ----

  /** The live StatefulSet has the templates the spec asks for. */
  predicate Shaped(spec: Spec, c: State)
  {
    c.sts.Some? ==> SameNames(c.sts.value.shape.templates, TemplatesFor(spec))
  }

  /** A pass on a StatefulSet of the right shape deletes nothing and keeps the shape; any pass that deletes
      leaves no StatefulSet behind. */
  lemma {:induction false} PassShape(digest: Shape -> string, spec: Spec, c: State, o: Observed, faults: set<Call>)
    ensures var s := StoragePass(digest, spec, c, o, faults);
            && (DeleteSts in s.events ==> Replay(c, s.events).sts == None && !Shaped(spec, c))
            && (Shaped(spec, c) ==> Shaped(spec, Replay(c, s.events)))
  {
    var r := Restore(spec, c, faults);
    RestoreOutcome(spec, c, faults);
    if r.stop == Some(ZERO) {
      var d := Replay(c, r.events);
      var s := ReconcileSts(digest, spec, d, o, faults);
      StsOutcome(digest, spec, d, o, faults);
      ReplayAppend(c, r.events, s.events);
    }
  }

  /** The calls end with the deletion of the StatefulSet, which occurs nowhere else. */
  predicate EndsWithDeletion(s: Step)
  {
    s.events != [] && s.events[|s.events| - 1] == DeleteSts && DeleteSts !in s.events[..|s.events| - 1] && s.stop == Some(RETRY)
  }

  lemma {:induction false} StsDeletionAlone(digest: Shape -> string, spec: Spec, c: State, o: Observed, faults: set<Call>)
    ensures var s := ReconcileSts(digest, spec, c, o, faults);
            DeleteSts in s.events ==> s.events == [DeleteSts] && s.stop == Some(RETRY)
  {
  }

  /** Deleting the StatefulSet is the last thing a pass does, so no pass deletes it twice. */
  lemma {:induction false} DeletionEndsPass(digest: Shape -> string, spec: Spec, c: State, o: Observed, faults: set<Call>)
    ensures DeleteSts in StoragePass(digest, spec, c, o, faults).events ==> EndsWithDeletion(StoragePass(digest, spec, c, o, faults))
  {
    var r, s := Restore(spec, c, faults), StoragePass(digest, spec, c, o, faults);
    if r.stop == Some(ZERO) {
      RestoreOutcome(spec, c, faults);
      var t := ReconcileSts(digest, spec, Replay(c, r.events), o, faults);
      StsDeletionAlone(digest, spec, Replay(c, r.events), o, faults);
      assert s == Step(r.events + t.events, t.stop);
    } else {
      assert s == r;
    }
  }

  // ---- Pods, replicas, conditions and results ----

  predicate Updates(events: seq<Event>) { exists i :: 0 <= i < |events| && events[i].UpdateSts? }

  /** A pod is deleted right after an update, exactly when the pod was not running and the call works. */
  ghost predicate PodFollowsUpdate(events: seq<Event>, o: Observed, faults: set<Call>)
  {
    && (DeletePod in events <==> Updates(events) && !o.podRunning && PodDelete !in faults)
    && (forall i :: 0 <= i < |events| && events[i] == DeletePod ==> i > 0 && events[i - 1].UpdateSts?)
  }

  lemma {:induction false} StsPods(digest: Shape -> string, spec: Spec, c: State, o: Observed, faults: set<Call>)
    ensures PodFollowsUpdate(ReconcileSts(digest, spec, c, o, faults).events, o, faults)
  {
    var events := ReconcileSts(digest, spec, c, o, faults).events;
    assert |events| > 0 && events[0].UpdateSts? ==> Updates(events);
    assert |events| == 2 ==> events[1] in events;
  }

  lemma {:induction false} PodsAfterOthers(before: seq<Event>, events: seq<Event>, o: Observed, faults: set<Call>)
    requires PodFollowsUpdate(events, o, faults) && forall e :: e in before ==> !e.UpdateSts? && !e.DeletePod?
    ensures PodFollowsUpdate(before + events, o, faults)
  {
    var all := before + events;
    assert forall i :: 0 <= i < |before| ==> all[i] == before[i] && before[i] in before;
    forall i | 0 <= i < |all| && all[i] == DeletePod ensures i > 0 && all[i - 1].UpdateSts? {
      assert events[i - |before|] == DeletePod;
    }
    if Updates(events) {
      var i :| 0 <= i < |events| && events[i].UpdateSts?;
      assert all[|before| + i].UpdateSts?;
    }
    if Updates(all) {
      var i :| 0 <= i < |all| && all[i].UpdateSts?;
      assert events[i - |before|].UpdateSts?;
    }
  }

  /** No pass deletes a running pod, and an update of an agent whose pod is not running deletes the pod. */
  lemma {:induction false} PodDeletedExactly(digest: Shape -> string, spec: Spec, c: State, o: Observed, faults: set<Call>)
    ensures PodFollowsUpdate(StoragePass(digest, spec, c, o, faults).events, o, faults)
  {
    var r := Restore(spec, c, faults);
    RestoreOutcome(spec, c, faults);
    if r.stop == Some(ZERO) {
      var d := Replay(c, r.events);
      StsPods(digest, spec, d, o, faults);
      PodsAfterOthers(r.events, ReconcileSts(digest, spec, d, o, faults).events, o, faults);
    } else {
      assert PodFollowsUpdate([], o, faults);
      PodsAfterOthers(r.events, [], o, faults);
      assert r.events + [] == r.events;
    }
  }

  /** One pod, or none for a suspended agent; a claim template exactly for a templated data volume; the rendered
      pod template; and the hash of all that. */
  ghost predicate WellShaped(digest: Shape -> string, spec: Spec, sts: StatefulSet)
  {
    && sts.shape.replicas == (if spec.suspended then 0 else 1) && sts.shape.pod == spec.pod
    && sts.shape.templates == (if sts.shape.volume.Templated? then [HOME_VOLUME] else [])
    && sts.hash == digest(sts.shape)
  }

  /** So is every StatefulSet that a pass creates or updates. */
  lemma {:induction false} WrittenShape(digest: Shape -> string, spec: Spec, c: State, o: Observed, faults: set<Call>)
    ensures forall e :: e in StoragePass(digest, spec, c, o, faults).events && (e.CreateSts? || e.UpdateSts?) ==>
              WellShaped(digest, spec, e.sts)
  {
    var r := Restore(spec, c, faults);
    RestoreOutcome(spec, c, faults);
    forall e | e in StoragePass(digest, spec, c, o, faults).events && (e.CreateSts? || e.UpdateSts?)
      ensures WellShaped(digest, spec, e.sts)
    {
      assert e !in r.events;
      StsShape(digest, spec, Replay(c, r.events), o, faults, e);
    }
  }

  lemma {:induction false} StsShape(digest: Shape -> string, spec: Spec, c: State, o: Observed, faults: set<Call>, e: Event)
    requires e in ReconcileSts(digest, spec, c, o, faults).events && (e.CreateSts? || e.UpdateSts?)
    ensures e.sts == StatefulSet(Shape(TemplatesFor(spec), VolumeFor(spec), if spec.suspended then 0 else 1, spec.pod), e.sts.hash)
    ensures e.sts.hash == digest(e.sts.shape)
  {
  }

  /** A restore that lets the StatefulSet step run leaves no RestoreFailed condition. */
  lemma {:induction false} RestoreClears(spec: Spec, c: State, faults: set<Call>)
    requires Restore(spec, c, faults).stop == Some(ZERO)
    ensures Replay(c, Restore(spec, c, faults).events).status.restoreFailed.None?
  {
    if spec.existingSnapshot == "" {
    } else {
      var p := Provision(spec, c, faults);
      ProvisionOutcome(spec, c, faults);
      var mid := Replay(c, p.events);
      ReplayAppend(c, p.events, RestoreGate(mid, faults).events);
    }
  }

  /** With no failing call, a restore that waits for its source says why: the API is missing, or the snapshot
      is missing or not ready. */
  lemma {:induction false} WaitingSaysWhy(spec: Spec, c: State)
    requires !Restorable(spec, c)
    ensures var s := Restore(spec, c, {});
            && s.stop == Some(Result(30, false))
            && Replay(c, s.events) == c.(status := c.status.(restoreFailed := Some(if c.crd then NotReady else CRDAbsent)))
  {
  }

  /** Stale reads: one that misses an existing PVC makes no difference while the source is ready, and else
      reports the source although the PVC is there; one that misses the PVC just created tries again. */
  lemma {:induction false} StaleReads(spec: Spec, c: State)
    requires spec.existingSnapshot != ""
    ensures var pvc, source := RestoredPVCName(spec.existingSnapshot), spec.existingSnapshot;
            && (pvc in c.pvcs && Ready(c, source) ==> Restore(spec, c, {StalePVC}) == Restore(spec, c, {}))
            && (pvc in c.pvcs && !Ready(c, source) ==>
                  Restore(spec, c, {StalePVC}) ==
                  Step([WriteStatus(c.status.(restoreFailed := Some(if c.crd then NotReady else CRDAbsent)))], Some(Result(30, false))))
            && (pvc !in c.pvcs && Ready(c, source) ==>
                  Restore(spec, c, {StalePVCAgain}) == Step([CreatePVC(pvc, source)], Some(Result(30, false))))
  {
  }

  predicate Deletes(events: seq<Event>) { DeleteSts in events }

  lemma {:induction false} RestoreResult(spec: Spec, c: State)
    ensures var s := Restore(spec, c, {});
            s.stop == Some(Result(if !Restorable(spec, c) || Deletes(s.events) then 30 else 0, false))
  {
    if Restorable(spec, c) {
      RestoreProgress(spec, c);
      RestoreOutcome(spec, c, {});
    } else {
      WaitingSaysWhy(spec, c);
    }
  }

  /** With no failing call, the requeue delay says what the pass waits for: 30 seconds for the source or for
      a deletion to settle, 2 for the egress inputs, 10 for the pod, and none otherwise. */
  lemma {:induction false} StorageResult(digest: Shape -> string, spec: Spec, c: State, o: Observed)
    ensures var s := StoragePass(digest, spec, c, o, {});
            s.stop == Some(Result(if !Restorable(spec, c) || Deletes(s.events) then 30
                                  else if !InputsVisible(o) then 2
                                  else if o.podPending then 10 else 0, false))
  {
    var r := Restore(spec, c, {});
    RestoreResult(spec, c);
    if r.stop == Some(ZERO) {
      var t := ReconcileSts(digest, spec, Replay(c, r.events), o, {});
      assert StoragePass(digest, spec, c, o, {}) == Step(r.events + t.events, t.stop);
      assert Deletes(r.events + t.events) <==> Deletes(t.events);
    }
  }

  // ---- Which calls a StatefulSet step makes ----

  /** The calls behind an event of the step. */
  function CallsFor(e: Event): set<Call>
  {
    match e
    case CreateSts(_) => {StsCreate}
    case UpdateSts(_) => {PodGet, StsUpdate}
    case DeletePod => {PodDelete}
    case DeleteSts => {StsDelete}
    case _ => {}
  }

  function CallsForAll(events: seq<Event>): set<Call>
  {
    if events == [] then {} else CallsForAll(events[..|events| - 1]) + CallsFor(events[|events| - 1])
  }

  /** The reads the step starts with. */
  function Reads(o: Observed): set<Call> { {StsGet, ConfigMapGet} + if o.egress then {EgressGet} else {} }

  /** The calls the step makes when none fails: its reads, those behind its events, and the status write unless
      it stopped before. */
  function StsCalls(digest: Shape -> string, spec: Spec, c: State, o: Observed): set<Call>
  {
    var s := ReconcileSts(digest, spec, c, o, {});
    Reads(o) + CallsForAll(s.events) + if InputsVisible(o) && !Deletes(s.events) then {StsStatus} else {}
  }

  /** No read and no call up to that of event i fails. */
  ghost predicate Reached(start: set<Call>, all: seq<Event>, faults: set<Call>, i: nat)
    requires i < |all|
  {
    faults !! (start + CallsForAll(all[..i + 1]))
  }

  /** What was done is what comes before the first failing call. */
  ghost predicate CutAt(start: set<Call>, faults: set<Call>, done: seq<Event>, all: seq<Event>)
  {
    && |done| <= |all| && done == all[..|done|]
    && forall i :: 0 <= i < |all| ==> (i < |done| <==> Reached(start, all, faults, i))
  }

  lemma {:induction false} CutOne(start: set<Call>, faults: set<Call>, e: Event, done: seq<Event>)
    requires done == if faults !! (start + CallsFor(e)) then [e] else []
    ensures CutAt(start, faults, done, [e]) && CallsForAll([e]) == CallsFor(e)
  {
    assert [e][..0] == [] && CallsForAll([]) == {} && CallsForAll([e]) == CallsFor(e) && [e][..1] == [e];
  }

  lemma {:induction false} CutTwo(start: set<Call>, faults: set<Call>, e: Event, f: Event, done: seq<Event>)
    requires done == if !(faults !! (start + CallsFor(e))) then [] else if faults !! CallsFor(f) then [e, f] else [e]
    ensures CutAt(start, faults, done, [e, f]) && CallsForAll([e, f]) == CallsFor(e) + CallsFor(f)
  {
    assert [e][..0] == [] && CallsForAll([]) == {} && CallsForAll([e]) == CallsFor(e);
    assert [e, f][..1] == [e] && [e, f][..2] == [e, f] && CallsForAll([e, f]) == CallsFor(e) + CallsFor(f);
  }

  /** The reads and the further calls all work. */
  lemma {:induction false} ReadsWork(o: Observed, faults: set<Call>, more: set<Call>)
    ensures faults !! (Reads(o) + more) <==>
            StsGet !in faults && ConfigMapGet !in faults && (o.egress ==> EgressGet !in faults) && faults !! more
  {
  }

  /** The events of the step, in every case. */
  lemma {:induction false} StsEvents(digest: Shape -> string, spec: Spec, c: State, o: Observed, faults: set<Call>)
    ensures var s, sts := ReconcileSts(digest, spec, c, o, faults).events, DesiredSts(digest, spec);
            var one := if c.sts.None? then CreateSts(sts)
                       else if !SameNames(c.sts.value.shape.templates, TemplatesFor(spec)) then DeleteSts else UpdateSts(sts);
            if !InputsVisible(o) || (c.sts.Some? && one.UpdateSts? && c.sts.value.hash == sts.hash) then s == []
            else if !(faults !! (Reads(o) + CallsFor(one))) then s == []
            else if one.UpdateSts? && !o.podRunning && PodDelete !in faults then s == [one, DeletePod]
            else s == [one]
  {
    var sts := DesiredSts(digest, spec);
    ReadsWork(o, faults, CallsFor(CreateSts(sts)));
    ReadsWork(o, faults, CallsFor(DeleteSts));
    ReadsWork(o, faults, CallsFor(UpdateSts(sts)));
  }

  lemma {:induction false} StsCut(digest: Shape -> string, spec: Spec, c: State, o: Observed, faults: set<Call>)
    ensures CutAt(Reads(o), faults, ReconcileSts(digest, spec, c, o, faults).events, ReconcileSts(digest, spec, c, o, {}).events)
  {
    var s, t := ReconcileSts(digest, spec, c, o, faults).events, ReconcileSts(digest, spec, c, o, {}).events;
    StsEvents(digest, spec, c, o, faults);
    StsEvents(digest, spec, c, o, {});
    if |t| == 1 {
      CutOne(Reads(o), faults, t[0], s);
      assert t == [t[0]];
    } else if t != [] {
      CutTwo(Reads(o), faults, t[0], t[1], s);
      assert t == [t[0], t[1]];
    }
  }

  lemma {:induction false} StsCallsAre(digest: Shape -> string, spec: Spec, c: State, o: Observed)
    ensures var t := ReconcileSts(digest, spec, c, o, {}).events;
            CallsForAll(t) == if t == [] then {} else if |t| == 1 then CallsFor(t[0]) else {PodGet, StsUpdate, PodDelete}
  {
    var t := ReconcileSts(digest, spec, c, o, {}).events;
    if |t| == 1 {
      assert t == [t[0]];
      CutOne({}, {}, t[0], t);
    } else if t != [] {
      CutTwo({}, {}, t[0], t[1], t);
      assert t == [t[0], t[1]];
    }
  }

  /** The step fails exactly when a call it makes fails, and what it has done by then is a first part of what it
      does otherwise: each event happens exactly when no read and no call up to its own fails. */
  lemma {:induction false} StsFailsExactly(digest: Shape -> string, spec: Spec, c: State, o: Observed, faults: set<Call>)
    ensures var s, t := ReconcileSts(digest, spec, c, o, faults), ReconcileSts(digest, spec, c, o, {});
            (Unfailed(s) <==> faults !! StsCalls(digest, spec, c, o)) && CutAt(Reads(o), faults, s.events, t.events)
  {
    StsCut(digest, spec, c, o, faults);
    StsUnfailedExactly(digest, spec, c, o, faults);
  }

  lemma {:induction false} StsUnfailedExactly(digest: Shape -> string, spec: Spec, c: State, o: Observed, faults: set<Call>)
    ensures Unfailed(ReconcileSts(digest, spec, c, o, faults)) <==> faults !! StsCalls(digest, spec, c, o)
  {
    StsCallsAre(digest, spec, c, o);
    StsEvents(digest, spec, c, o, {});
    ReadsWork(o, faults, {});
  }

  // ---- Which calls a restore makes ----

  predicate Provisions(events: seq<Event>) { exists i :: 0 <= i < |events| && events[i].CreatePVC? }

  predicate WritesStatus(events: seq<Event>) { exists i :: 0 <= i < |events| && events[i].WriteStatus? }

  /** The calls a restore makes when none fails: the restored PVC is read when a snapshot is named, the snapshot
      when that PVC is not there, and the StatefulSet when it can be had; the others stand behind its events. */
  function RestoreCalls(spec: Spec, c: State): set<Call>
  {
    var events := Restore(spec, c, {}).events;
    (if spec.existingSnapshot == "" then {} else {GetPVC})
    + (if spec.existingSnapshot == "" || RestoredPVCName(spec.existingSnapshot) in c.pvcs then {} else {GetSnapshot})
    + (if Provisions(events) then {CreatePVCCall, GetPVCAgain} else {})
    + (if spec.existingSnapshot != "" && Restorable(spec, c) then {GetSts} else {})
    + (if Deletes(events) then {DeleteStsCall} else {})
    + (if WritesStatus(events) then {RestoreStatus} else {})
  }

  lemma {:induction false} EventKinds(events: seq<Event>)
    requires |events| <= 2
    ensures Provisions(events) <==> (|events| > 0 && events[0].CreatePVC?) || (|events| > 1 && events[1].CreatePVC?)
    ensures WritesStatus(events) <==> (|events| > 0 && events[0].WriteStatus?) || (|events| > 1 && events[1].WriteStatus?)
    ensures Deletes(events) <==> (|events| > 0 && events[0].DeleteSts?) || (|events| > 1 && events[1].DeleteSts?)
  {
    assert |events| > 0 ==> events[0] in events;
    assert |events| > 1 ==> events[1] in events;
  }

  /** What a restore does when no call fails, case by case. */
  function CleanRestore(spec: Spec, c: State): seq<Event>
  {
    var clear := if c.status.restoreFailed.None? then [] else [WriteStatus(c.status.(restoreFailed := None))];
    var source := spec.existingSnapshot;
    if source == "" then clear
    else if !Restorable(spec, c) then [WriteStatus(c.status.(restoreFailed := Some(if c.crd then NotReady else CRDAbsent)))]
    else
      (if RestoredPVCName(source) in c.pvcs then [] else [CreatePVC(RestoredPVCName(source), source)])
      + if HasTemplate(c, HOME_VOLUME) then [DeleteSts] else clear
  }

  lemma {:induction false} CleanRestoreIs(spec: Spec, c: State)
    ensures Restore(spec, c, {}).events == CleanRestore(spec, c)
  {
    var source := spec.existingSnapshot;
    if source != "" && Restorable(spec, c) {
      ReplayOne(c, CreatePVC(RestoredPVCName(source), source));
      assert Replay(c, []) == c;
    }
  }

  lemma {:induction false} RestoreCallsAre(spec: Spec, c: State)
    ensures var absent := RestoredPVCName(spec.existingSnapshot) !in c.pvcs;
            var status := if c.status.restoreFailed.Some? then {RestoreStatus} else {};
            RestoreCalls(spec, c) ==
            if spec.existingSnapshot == "" then status
            else if !Restorable(spec, c) then {GetPVC, GetSnapshot, RestoreStatus}
            else {GetPVC, GetSts} + (if absent then {GetSnapshot, CreatePVCCall, GetPVCAgain} else {})
                 + if HasTemplate(c, HOME_VOLUME) then {DeleteStsCall} else status
  {
    CleanRestoreIs(spec, c);
    EventKinds(CleanRestore(spec, c));
  }

  /** The failing part of a restore that can go on. */
  lemma {:induction false} RestorableFails(spec: Spec, c: State, faults: set<Call>)
    requires FreshReads(faults) && spec.existingSnapshot != "" && Restorable(spec, c)
    ensures var absent := RestoredPVCName(spec.existingSnapshot) !in c.pvcs;
            var ok := GetPVC !in faults && (absent ==> faults !! {GetSnapshot, CreatePVCCall, GetPVCAgain});
            var p := Provision(spec, c, faults);
            (p.stop.None? <==> ok) && (p.stop.Some? ==> !Unfailed(p))
  {
  }

  lemma {:induction false} GateFails(c: State, faults: set<Call>)
    ensures Unfailed(RestoreGate(c, faults)) <==>
            GetSts !in faults && if HasTemplate(c, HOME_VOLUME) then DeleteStsCall !in faults
                                 else (c.status.restoreFailed.Some? ==> RestoreStatus !in faults)
  {
  }

  /** A restore fails exactly when a call it makes fails. */
  lemma {:induction false} RestoreFailsExactly(spec: Spec, c: State, faults: set<Call>)
    requires FreshReads(faults)
    ensures Unfailed(Restore(spec, c, faults)) <==> faults !! RestoreCalls(spec, c)
  {
    RestoreCallsAre(spec, c);
    if spec.existingSnapshot != "" && Restorable(spec, c) {
      RestorableFails(spec, c, faults);
      var p := Provision(spec, c, faults);
      ReplayOne(c, CreatePVC(RestoredPVCName(spec.existingSnapshot), spec.existingSnapshot));
      GateFails(Replay(c, p.events), faults);
    }
  }

  lemma {:induction false} ProvisionCut(spec: Spec, c: State, faults: set<Call>)
    requires FreshReads(faults) && spec.existingSnapshot != ""
    ensures var p := Provision(spec, c, faults).events;
            && (Provisions(p) <==> Restorable(spec, c) && RestoredPVCName(spec.existingSnapshot) !in c.pvcs
                                   && faults !! {GetPVC, GetSnapshot, CreatePVCCall})
            && (!Unfailed(Provision(spec, c, faults)) ==> forall e :: e in p ==> e.CreatePVC?)
            && |p| <= 1
  {
    var p := Provision(spec, c, faults).events;
    assert |p| == 1 ==> p[0] in p;
  }

  lemma {:induction false} GateCut(c: State, faults: set<Call>)
    ensures var g := RestoreGate(c, faults);
            |g.events| <= 1 && !Provisions(g.events) && (!Unfailed(g) ==> g.events == [])
  {
  }

  /** Whatever fails, the restored PVC is created exactly when it would be otherwise and no call up to its own
      fails, and a restore that fails has neither deleted nor written anything else. */
  lemma {:induction false} RestoreCut(spec: Spec, c: State, faults: set<Call>)
    requires FreshReads(faults)
    ensures var s := Restore(spec, c, faults);
            && (Provisions(s.events) <==> Provisions(CleanRestore(spec, c)) && faults !! {GetPVC, GetSnapshot, CreatePVCCall})
            && (!Unfailed(s) ==> forall e :: e in s.events ==> e.CreatePVC?)
  {
    EventKinds(CleanRestore(spec, c));
    if spec.existingSnapshot != "" {
      ProvisionCut(spec, c, faults);
      var p := Provision(spec, c, faults);
      if p.stop.None? {
        var g := RestoreGate(Replay(c, p.events), faults);
        GateCut(Replay(c, p.events), faults);
        ProvisionsAppend(p.events, g.events);
      }
    }
  }

  lemma {:induction false} ProvisionsAppend(a: seq<Event>, b: seq<Event>)
    ensures Provisions(a + b) <==> Provisions(a) || Provisions(b)
  {
    if Provisions(a) {
      var i :| 0 <= i < |a| && a[i].CreatePVC?;
      assert (a + b)[i].CreatePVC?;
    }
    if Provisions(b) {
      var i :| 0 <= i < |b| && b[i].CreatePVC?;
      assert (a + b)[|a| + i].CreatePVC?;
    }
  }

  // ---- Errors are never swallowed ----

  /** The fault set may hold failing calls but no stale reads. */
  predicate FreshReads(faults: set<Call>) { StalePVC !in faults && StalePVCAgain !in faults }

  lemma {:induction false} RestoreUnfailed(spec: Spec, c: State, faults: set<Call>)
    requires FreshReads(faults) && Unfailed(Restore(spec, c, faults))
    ensures Restore(spec, c, faults) == Restore(spec, c, {})
  {
  }

  lemma {:induction false} StsUnfailed(digest: Shape -> string, spec: Spec, c: State, o: Observed, faults: set<Call>)
    requires Unfailed(ReconcileSts(digest, spec, c, o, faults))
    ensures ReconcileSts(digest, spec, c, o, faults) == ReconcileSts(digest, spec, c, o, {})
  {
  }

  /** A pass that reports no error did exactly what it does when no call fails, and without failing calls it
      reports none. */
  lemma {:induction false} StorageUnfailed(digest: Shape -> string, spec: Spec, c: State, o: Observed, faults: set<Call>)
    requires FreshReads(faults)
    ensures Unfailed(StoragePass(digest, spec, c, o, {}))
    ensures Unfailed(StoragePass(digest, spec, c, o, faults)) ==>
              StoragePass(digest, spec, c, o, faults) == StoragePass(digest, spec, c, o, {})
  {
    StorageResult(digest, spec, c, o);
    if Unfailed(StoragePass(digest, spec, c, o, faults)) {
      RestoreUnfailed(spec, c, faults);
      if Restore(spec, c, faults).stop == Some(ZERO) {
        StsUnfailed(digest, spec, Replay(c, Restore(spec, c, faults).events), o, faults);
      }
    }
  }

  // ---- The two gates ----

  function StorageEvents(digest: Shape -> string, t: Turn, c: State): seq<Event>
  {
    StoragePass(digest, t.spec, c, t.observed, t.faults).events
  }

  /** A run in which only the operator touches the StatefulSet; everything else may change between passes. */
  ghost predicate OwnsSts(digest: Shape -> string, turns: seq<Turn>, clusters: seq<State>)
  {
    && |clusters| == |turns| + 1
    && forall k :: 0 <= k < |turns| ==> clusters[k + 1].sts == Replay(clusters[k], StorageEvents(digest, turns[k], clusters[k])).sts
  }

  ghost predicate SameVolume(turns: seq<Turn>)
  {
    forall i, j :: 0 <= i < |turns| && 0 <= j < |turns| ==> VolumeFor(turns[i].spec) == VolumeFor(turns[j].spec)
  }

  lemma {:induction false} ShapedFrom(digest: Shape -> string, turns: seq<Turn>, clusters: seq<State>, i: nat, j: nat)
    requires OwnsSts(digest, turns, clusters) && SameVolume(turns) && i <= j < |turns|
    requires Shaped(turns[i].spec, clusters[i])
    ensures Shaped(turns[j].spec, clusters[j])
    decreases j - i
  {
    if i < j {
      PassShape(digest, turns[i].spec, clusters[i], turns[i].observed, turns[i].faults);
      assert TemplatesFor(turns[i].spec) == TemplatesFor(turns[i + 1].spec);
      ShapedFrom(digest, turns, clusters, i + 1, j);
    }
  }

  /** In any run whose storage spec does not change, failing calls and all, the StatefulSet is deleted at
      most once, by whichever gate. */
  lemma {:induction false} AtMostOneDeletion(digest: Shape -> string, turns: seq<Turn>, clusters: seq<State>, i: nat, j: nat)
    requires OwnsSts(digest, turns, clusters) && SameVolume(turns) && i < j < |turns|
    requires DeleteSts in StorageEvents(digest, turns[i], clusters[i])
    ensures DeleteSts !in StorageEvents(digest, turns[j], clusters[j])
  {
    PassShape(digest, turns[i].spec, clusters[i], turns[i].observed, turns[i].faults);
    assert clusters[i + 1].sts == None;
    ShapedFrom(digest, turns, clusters, i + 1, j);
    PassShape(digest, turns[j].spec, clusters[j], turns[j].observed, turns[j].faults);
  }

  // ---- Convergence ----

  predicate Settled(digest: Shape -> string, spec: Spec, c: State)
  {
    c.sts == Some(DesiredSts(digest, spec)) && Provisioned(spec, c)
  }

  predicate StatusOnly(events: seq<Event>) { forall e :: e in events ==> e.WriteStatus? }

  lemma {:induction false} SettledStays(digest: Shape -> string, spec: Spec, c: State, o: Observed, faults: set<Call>)
    requires Settled(digest, spec, c)
    ensures var s := StoragePass(digest, spec, c, o, faults);
            StatusOnly(s.events) && Replay(c, s.events).sts == c.sts
  {
    var r := Restore(spec, c, faults);
    SettledRestore(digest, spec, c, faults);
    if r.stop == Some(ZERO) {
      var d := Replay(c, r.events);
      StsOutcome(digest, spec, d, o, faults);
      var t := ReconcileSts(digest, spec, d, o, faults);
      assert t.events == [] && r.events + t.events == r.events;
    }
  }

  lemma {:induction false} SettledRestore(digest: Shape -> string, spec: Spec, c: State, faults: set<Call>)
    requires Settled(digest, spec, c)
    ensures StatusOnly(Restore(spec, c, faults).events) && Replay(c, Restore(spec, c, faults).events).sts == c.sts
  {
    if spec.existingSnapshot == "" {
    } else {
      assert TemplatesFor(spec) == [] && !HasTemplate(c, HOME_VOLUME);
      var p := Provision(spec, c, faults);
      ProvisionOutcome(spec, c, faults);
      assert StatusOnly(p.events);
      if p.stop.None? {
        var mid := Replay(c, p.events);
        GateOutcome(mid, faults);
        ReplayAppend(c, p.events, RestoreGate(mid, faults).events);
      }
    }
  }

  /** The source can be restored from, or has been. */
  predicate Restorable(spec: Spec, c: State)
  {
    spec.existingSnapshot != "" ==> RestoredPVCName(spec.existingSnapshot) in c.pvcs || Ready(c, spec.existingSnapshot)
  }

  /** The annotation is the hash of the live shape, and that shape does not collide with the desired one. */
  predicate Truthful(digest: Shape -> string, spec: Spec, c: State)
  {
    c.sts.Some? ==>
      var live := c.sts.value;
      live.hash == digest(live.shape) && (live.hash == digest(Desired(spec)) ==> live.shape == Desired(spec))
  }

  lemma {:induction false} RestoreProgress(spec: Spec, c: State)
    requires Restorable(spec, c)
    ensures var s := Restore(spec, c, {});
            var d := Replay(c, s.events);
            && Provisioned(spec, d)
            && if spec.existingSnapshot != "" && HasTemplate(c, HOME_VOLUME) then d.sts == None && s.stop == Some(RETRY)
               else d.sts == c.sts && s.stop == Some(ZERO)
  {
    RestoreOutcome(spec, c, {});
    if spec.existingSnapshot != "" {
      var p := Provision(spec, c, {});
      assert p.stop.None?;
      ProvisionOutcome(spec, c, {});
      var mid := Replay(c, p.events);
      GateOutcome(mid, {});
      ReplayAppend(c, p.events, RestoreGate(mid, {}).events);
    }
  }

  /** With no failing call, restore lets the StatefulSet step run exactly when no snapshot is named, or its
      volume can be had and no home template stands in the way; existingClaim has no part in it. */
  lemma {:induction false} RestoreEndsExactly(spec: Spec, c: State)
    ensures Restore(spec, c, {}).stop == Some(ZERO) <==>
            spec.existingSnapshot == "" || (Restorable(spec, c) && !HasTemplate(c, HOME_VOLUME))
  {
    if Restorable(spec, c) {
      RestoreProgress(spec, c);
    }
  }

  /** While the named snapshot cannot be restored from, whatever fails, a pass touches nothing but the
      status, and the StatefulSet step is not reached. */
  lemma {:induction false} WaitsForSource(digest: Shape -> string, spec: Spec, c: State, o: Observed, faults: set<Call>)
    requires !Restorable(spec, c)
    ensures var s := StoragePass(digest, spec, c, o, faults);
            StatusOnly(s.events) && s.stop != Some(ZERO) && Replay(c, s.events).sts == c.sts
  {
    ProvisionOutcome(spec, c, faults);
  }

  /** So an existing claim does not bypass the wait: with a bound claim and a missing snapshot no agent starts. */
  lemma {:induction false} ClaimDoesNotBypassRestore(digest: Shape -> string, o: Observed, status: Status)
    ensures var spec := Spec("agent", "claim", "gone", true, false, "", false, 1);
            var c := State(map["claim" := true], [], true, None, status);
            && VolumeFor(spec) == Existing("claim")
            && StoragePass(digest, spec, c, o, {}) == Step([WriteStatus(status.(restoreFailed := Some(NotReady)))], Some(RETRY))
  {
    assert RestoredPVCName("gone")[0] != "claim"[0];
  }

  lemma {:induction false} FirstPass(digest: Shape -> string, spec: Spec, c: State, o: Observed)
    requires Restorable(spec, c) && Truthful(digest, spec, c) && InputsVisible(o)
    ensures var d := Replay(c, StoragePass(digest, spec, c, o, {}).events);
            && Provisioned(spec, d) && (d.sts == None || Settled(digest, spec, d))
            && (c.sts == None ==> Settled(digest, spec, d))
  {
    var r := Restore(spec, c, {});
    RestoreProgress(spec, c);
    if r.stop == Some(ZERO) {
      var mid := Replay(c, r.events);
      StsProgress(digest, spec, mid, o);
      StsOutcome(digest, spec, mid, o, {});
      ReplayAppend(c, r.events, ReconcileSts(digest, spec, mid, o, {}).events);
    }
  }

  lemma {:induction false} StsZeroIsDesired(digest: Shape -> string, spec: Spec, c: State, o: Observed, faults: set<Call>)
    requires Truthful(digest, spec, c) && ReconcileSts(digest, spec, c, o, faults).stop == Some(ZERO)
    ensures Replay(c, ReconcileSts(digest, spec, c, o, faults).events).sts == Some(DesiredSts(digest, spec))
  {
    var sts := DesiredSts(digest, spec);
    ReplayOne(c, CreateSts(sts));
    ReplayOne(c, DeleteSts);
  }

  /** A storage pass that returns an empty result, whatever failed in it, leaves the live StatefulSet as desired. */
  lemma {:induction false} ZeroIsDesired(digest: Shape -> string, spec: Spec, c: State, o: Observed, faults: set<Call>)
    requires Truthful(digest, spec, c) && StoragePass(digest, spec, c, o, faults).stop == Some(ZERO)
    ensures Replay(c, StoragePass(digest, spec, c, o, faults).events).sts == Some(DesiredSts(digest, spec))
  {
    var r := Restore(spec, c, faults);
    RestoreOutcome(spec, c, faults);
    var d := Replay(c, r.events);
    StsZeroIsDesired(digest, spec, d, o, faults);
    ReplayAppend(c, r.events, ReconcileSts(digest, spec, d, o, faults).events);
  }

  /** A run on a fixed spec in which nobody else touches the StatefulSet or removes a PVC. */
  ghost predicate Undisturbed(digest: Shape -> string, spec: Spec, turns: seq<Turn>, clusters: seq<State>)
  {
    && OwnsSts(digest, turns, clusters)
    && (forall k :: 0 <= k < |turns| ==> turns[k].spec == spec)
    && (forall k :: 0 <= k < |turns| ==>
          Replay(clusters[k], StorageEvents(digest, turns[k], clusters[k])).pvcs.Keys <= clusters[k + 1].pvcs.Keys)
  }

  predicate Clean(t: Turn) { t.faults == {} && InputsVisible(t.observed) }

  /** From any cluster with a truthful annotation and a restorable source, two clean passes reach the desired
      shape and hash; every later pass, whatever fails in it, creates, updates and deletes nothing. */
  lemma {:induction false} ConvergesInTwo(digest: Shape -> string, spec: Spec, turns: seq<Turn>, clusters: seq<State>, k: nat)
    requires Undisturbed(digest, spec, turns, clusters) && 2 <= k < |turns|
    requires Restorable(spec, clusters[0]) && Truthful(digest, spec, clusters[0]) && Clean(turns[0]) && Clean(turns[1])
    ensures Settled(digest, spec, clusters[k])
    ensures StatusOnly(StorageEvents(digest, turns[k], clusters[k]))
  {
    if k == 2 {
      FirstPass(digest, spec, clusters[0], turns[0].observed);
      FirstPass(digest, spec, clusters[1], turns[1].observed) by {
        assert Provisioned(spec, clusters[1]);
        assert Truthful(digest, spec, clusters[1]);
      }
      if clusters[1].sts.Some? {
        SettledStays(digest, spec, clusters[1], turns[1].observed, {});
      }
    } else {
      ConvergesInTwo(digest, spec, turns, clusters, k - 1);
      SettledStays(digest, spec, clusters[k - 1], turns[k - 1].observed, turns[k - 1].faults);
      PassKeepsPVCs(digest, turns[k - 1], clusters[k - 1]);
    }
    SettledStays(digest, spec, clusters[k], turns[k].observed, turns[k].faults);
  }

  /** No pass removes a PVC. */
  lemma {:induction false} PassKeepsPVCs(digest: Shape -> string, t: Turn, c: State)
    ensures c.pvcs.Keys <= Replay(c, StorageEvents(digest, t, c)).pvcs.Keys
  {
    var r := Restore(t.spec, c, t.faults);
    RestoreOutcome(t.spec, c, t.faults);
    if r.stop == Some(ZERO) {
      var d := Replay(c, r.events);
      StsOutcome(digest, t.spec, d, t.observed, t.faults);
      ReplayAppend(c, r.events, ReconcileSts(digest, t.spec, d, t.observed, t.faults).events);
    }
  }

  // ---- Restored volumes never dangle ----

  /** A StatefulSet that mounts a restored volume mounts a PVC that exists. */
  predicate NeverDangling(c: State)
  {
    c.sts.Some? && c.sts.value.shape.volume.Restored? ==> RestoredPVCName(c.sts.value.shape.volume.snapshot) in c.pvcs
  }

  lemma {:induction false} PassNeverDangles(digest: Shape -> string, t: Turn, c: State)
    requires NeverDangling(c)
    ensures NeverDangling(Replay(c, StorageEvents(digest, t, c)))
  {
    var r := Restore(t.spec, c, t.faults);
    RestoreOutcome(t.spec, c, t.faults);
    if r.stop == Some(ZERO) {
      var d := Replay(c, r.events);
      StsOutcome(digest, t.spec, d, t.observed, t.faults);
      ReplayAppend(c, r.events, ReconcileSts(digest, t.spec, d, t.observed, t.faults).events);
    }
  }

  /** Over every run with arbitrary spec edits and failing calls, as long as nobody removes a PVC. */
  lemma {:induction false} RestoredVolumesNeverDangle(digest: Shape -> string, turns: seq<Turn>, clusters: seq<State>, k: nat)
    requires OwnsSts(digest, turns, clusters) && k <= |turns| && NeverDangling(clusters[0])
    requires forall i :: 0 <= i < |turns| ==>
      Replay(clusters[i], StorageEvents(digest, turns[i], clusters[i])).pvcs.Keys <= clusters[i + 1].pvcs.Keys
    ensures NeverDangling(clusters[k])
  {
    if k > 0 {
      RestoredVolumesNeverDangle(digest, turns, clusters, k - 1);
      PassNeverDangles(digest, turns[k - 1], clusters[k - 1]);
    }
  }
}
