/** Restore from a snapshot and reshaping the StatefulSet: two gates that delete an immutable StatefulSet,
    a provisioning step, and an update guarded by a hash annotation. */
module Storage {
  import opened Text
  import opened Cluster

  // ---- reconcileRestore ----

  /** Clear a RestoreFailed condition, writing the status only when it was set. */
  function ClearRestoreFailed(c: State, faults: set<Call>): Step
  {
    if c.status.restoreFailed.None? then Stop(ZERO)
    else if RestoreStatus in faults then Stop(FAILED)
    else Step([WriteStatus(c.status.(restoreFailed := None))], Some(ZERO))
  }

  function SetRestoreFailed(c: State, reason: Reason, faults: set<Call>): Step
  {
    if RestoreStatus in faults then Stop(FAILED)
    else Step([WriteStatus(c.status.(restoreFailed := Some(reason)))], Some(RETRY))
  }

  predicate Ready(c: State, name: string)
  {
    c.crd && exists i :: 0 <= i < |c.snapshots| && c.snapshots[i].name == name && c.snapshots[i].ready
  }

  predicate HasTemplate(c: State, name: string)
  {
    c.sts.Some? && name in c.sts.value.shape.templates
  }

  /** Provision the restored PVC unless it exists; creating one that a stale read missed is no error. */
  function Provision(spec: Spec, c: State, faults: set<Call>): Step
  {
    var source := spec.existingSnapshot;
    if GetPVC in faults then Stop(FAILED)
    else if RestoredPVCName(source) in c.pvcs && StalePVC !in faults then Step([], None)
    else if GetSnapshot in faults then Stop(FAILED)
    else if !c.crd then SetRestoreFailed(c, CRDAbsent, faults)
    else if !Ready(c, source) then SetRestoreFailed(c, NotReady, faults)
    else if CreatePVCCall in faults then Stop(FAILED)
    else
      Step(if RestoredPVCName(source) in c.pvcs then [] else [CreatePVC(RestoredPVCName(source), source)],
           if GetPVCAgain in faults then Some(FAILED) else if StalePVCAgain in faults then Some(RETRY) else None)
  }

  /** The reshape gate of the restore flow. */
  function RestoreGate(c: State, faults: set<Call>): Step
  {
    if GetSts in faults then Stop(FAILED)
    else if HasTemplate(c, HOME_VOLUME) then
      if DeleteStsCall in faults then Stop(FAILED) else Step([DeleteSts], Some(RETRY))
    else ClearRestoreFailed(c, faults)
  }

  /** One run of reconcileRestore; it always returns a result. */
  function Restore(spec: Spec, c: State, faults: set<Call>): (s: Step)
    ensures s.stop.Some?
  {
    if spec.existingSnapshot == "" then ClearRestoreFailed(c, faults)
    else
      var p := Provision(spec, c, faults);
      if p.stop.Some? then p
      else
        var g := RestoreGate(Replay(c, p.events), faults);
        Step(p.events + g.events, g.stop)
  }

  // ---- reconcileStatefulSet ----

  /** sameVolumeClaimTemplateNames: equal length, and every desired name among the live ones. */
  method SameTemplateNames(live: seq<string>, desired: seq<string>) returns (same: bool)
    ensures same <==> SameNames(live, desired)
  {
    if |live| != |desired| {
      return false;
    }
    var names: set<string> := {};
    for i := 0 to |live|
      invariant names == set n | n in live[..i]
    {
      assert live[..i + 1] == live[..i] + [live[i]];
      names := names + {live[i]};
    }
    assert live[..|live|] == live;
    for i := 0 to |desired|
      invariant forall j :: 0 <= j < i ==> desired[j] in live
    {
      if desired[i] !in names {
        assert desired[i] in desired;
        return false;
      }
    }
    return true;
  }

  predicate SameNames(live: seq<string>, desired: seq<string>)
  {
    |live| == |desired| && forall n :: n in desired ==> n in live
  }

  lemma {:induction false} DistinctCardinality(s: seq<string>)
    ensures |Elements(s)| <= |s|
    ensures Distinct(s) <==> |Elements(s)| == |s|
    decreases |s|
  {
    if s != [] {
      var n := |s| - 1;
      var rest, last := s[..n], s[n];
      DistinctCardinality(rest);
      assert s == rest + [last];
      assert Elements(s) == Elements(rest) + {last};
      if last in rest {
        assert Elements(s) == Elements(rest);
        var i :| 0 <= i < |rest| && rest[i] == last;
        assert s[i] == s[n];
      } else {
        assert Distinct(s) <==> Distinct(rest);
      }
    }
  }

  lemma {:induction false} SubsetOfSameSize(a: set<string>, b: set<string>)
    requires a <= b && |b| <= |a|
    ensures a == b
    decreases |b|
  {
    if a != b {
      var x :| x in b && x !in a;
      SubsetCardinality(a, b - {x});
    }
  }

  /** With distinct desired names, which the builder always renders, length plus inclusion is equality of
      the name sets; the live names are then distinct too. */
  lemma {:induction false} SameNamesExactly(live: seq<string>, desired: seq<string>)
    requires Distinct(desired)
    ensures SameNames(live, desired) <==> Elements(live) == Elements(desired) && Distinct(live)
  {
    DistinctCardinality(live);
    DistinctCardinality(desired);
    if SameNames(live, desired) {
      SubsetOfSameSize(Elements(desired), Elements(live));
    }
    if Elements(live) == Elements(desired) && Distinct(live) {
      assert forall n :: n in desired ==> n in Elements(desired);
    }
  }

  /** Without that the test accepts lists with different name sets. */
  lemma SameNamesNeedsDistinct()
    ensures SameNames(["a", "b"], ["a", "a"]) && Elements(["a", "b"]) != Elements(["a", "a"])
  {
    assert "b" in Elements(["a", "b"]) && "b" !in Elements(["a", "a"]);
  }

  /** The create, update or delete the StatefulSet step decides on. */
  function StsAction(digest: Shape -> string, spec: Spec, c: State, o: Observed, faults: set<Call>): Step
  {
    var desired := Desired(spec);
    var sts := StatefulSet(desired, digest(desired));
    if c.sts.None? then
      if StsCreate in faults then Stop(FAILED) else Step([CreateSts(sts)], None)
    else if !SameNames(c.sts.value.shape.templates, desired.templates) then
      if StsDelete in faults then Stop(FAILED) else Step([DeleteSts], Some(RETRY))
    else if c.sts.value.hash == sts.hash then Step([], None)
    else if PodGet in faults || StsUpdate in faults then Stop(FAILED)
    else if o.podRunning then Step([UpdateSts(sts)], None)
    else if PodDelete in faults then Step([UpdateSts(sts)], Some(FAILED))
    else Step([UpdateSts(sts), DeletePod], None)
  }

  /** One run of reconcileStatefulSet. */
  function ReconcileSts(digest: Shape -> string, spec: Spec, c: State, o: Observed, faults: set<Call>): (s: Step)
    ensures s.stop.Some?
  {
    if StsGet in faults || ConfigMapGet in faults then Stop(FAILED)
    else if o.egress && EgressGet in faults then Stop(FAILED)
    else if o.egress && !o.egressReady then Stop(Result(2, false))
    else
      var a := StsAction(digest, spec, c, o, faults);
      if a.stop.Some? then a
      else if StsStatus in faults then Step(a.events, Some(FAILED))
      else Step(a.events, Some(if o.podPending then Result(10, false) else ZERO))
  }

  /** Restore, then the StatefulSet unless restore returned early. */
  function StoragePass(digest: Shape -> string, spec: Spec, c: State, o: Observed, faults: set<Call>): (s: Step)
    ensures s.stop.Some?
  {
    var r := Restore(spec, c, faults);
    if r.stop != Some(ZERO) then r
    else
      var s := ReconcileSts(digest, spec, Replay(c, r.events), o, faults);
      Step(r.events + s.events, s.stop)
  }

  // ---- The reconcilers on a live cluster ----

  /** The cluster as the client sees it, with read-your-writes, and the calls that took effect. */
  class Kube {
    var c: State
    var log: seq<Event>

    constructor (c: State)
      ensures this.c == c && log == []
    {
      this.c, log := c, [];
    }

    method Do(e: Event)
      modifies this
      ensures c == Apply(old(c), e) && log == old(log) + [e]
    {
      c, log := Apply(c, e), log + [e];
    }

    method ClearCondition(faults: set<Call>) returns (r: Result)
      modifies this
      ensures var s := ClearRestoreFailed(old(c), faults);
              c == Replay(old(c), s.events) && log == old(log) + s.events && s.stop == Some(r)
    {
      if c.status.restoreFailed.Some? {
        if RestoreStatus in faults {
          return FAILED;
        }
        ReplayOne(c, WriteStatus(c.status.(restoreFailed := None)));
        Do(WriteStatus(c.status.(restoreFailed := None)));
      }
      r := ZERO;
    }

    /** getReadySnapshot: the source is ready, or the condition is set and the caller requeues. */
    method GetReadySnapshot(name: string, faults: set<Call>) returns (ready: bool, r: Result)
      modifies this
      ensures ready <==> GetSnapshot !in faults && Ready(old(c), name)
      ensures ready ==> c == old(c) && log == old(log)
      ensures !ready ==>
        var s := if GetSnapshot in faults then Stop(FAILED) else SetRestoreFailed(old(c), if old(c).crd then NotReady else CRDAbsent, faults);
        c == Replay(old(c), s.events) && log == old(log) + s.events && s.stop == Some(r)
    {
      r := FAILED;
      if GetSnapshot in faults {
        return false, FAILED;
      }
      if Ready(c, name) {
        return true, r;
      }
      if RestoreStatus in faults {
        return false, FAILED;
      }
      var status := c.status.(restoreFailed := Some(if c.crd then NotReady else CRDAbsent));
      ReplayOne(c, WriteStatus(status));
      Do(WriteStatus(status));
      return false, RETRY;
    }

    /** Provision the restored PVC; `done` says the restore flow goes on. */
    method ProvisionPVC(spec: Spec, faults: set<Call>) returns (done: bool, r: Result)
      modifies this
      ensures var s := Provision(spec, old(c), faults);
              && c == Replay(old(c), s.events) && log == old(log) + s.events
              && (done <==> s.stop.None?) && (!done ==> s.stop == Some(r))
    {
      var source := spec.existingSnapshot;
      r := FAILED;
      if GetPVC in faults {
        return false, FAILED;
      }
      if RestoredPVCName(source) in c.pvcs && StalePVC !in faults {
        return true, r;
      }
      var ready;
      ready, r := GetReadySnapshot(source, faults);
      if !ready {
        return false, r;
      }
      if CreatePVCCall in faults {
        return false, FAILED;
      }
      if RestoredPVCName(source) !in c.pvcs {
        ReplayOne(c, CreatePVC(RestoredPVCName(source), source));
        Do(CreatePVC(RestoredPVCName(source), source));
      }
      if GetPVCAgain in faults {
        return false, FAILED;
      }
      return StalePVCAgain !in faults, RETRY;
    }

    method Gate(faults: set<Call>) returns (r: Result)
      modifies this
      ensures var s := RestoreGate(old(c), faults);
              c == Replay(old(c), s.events) && log == old(log) + s.events && s.stop == Some(r)
    {
      if GetSts in faults {
        return FAILED;
      }
      if HasTemplate(c, HOME_VOLUME) {
        if DeleteStsCall in faults {
          return FAILED;
        }
        ReplayOne(c, DeleteSts);
        Do(DeleteSts);
        return RETRY;
      }
      r := ClearCondition(faults);
    }

    method ReconcileRestore(spec: Spec, faults: set<Call>) returns (r: Result)
      modifies this
      ensures var s := Restore(spec, old(c), faults);
              c == Replay(old(c), s.events) && log == old(log) + s.events && s.stop == Some(r)
    {
      if spec.existingSnapshot == "" {
        r := ClearCondition(faults);
        return;
      }
      var done;
      done, r := ProvisionPVC(spec, faults);
      if done {
        ghost var before := Provision(spec, old(c), faults).events;
        DoMore(old(c), old(log), before, RestoreGate(Replay(old(c), before), faults).events);
        r := Gate(faults);
      }
    }

    method ReconcileStatefulSet(digest: Shape -> string, spec: Spec, o: Observed, faults: set<Call>) returns (r: Result)
      modifies this
      ensures var s := ReconcileSts(digest, spec, old(c), o, faults);
              c == Replay(old(c), s.events) && log == old(log) + s.events && s.stop == Some(r)
    {
      if StsGet in faults || ConfigMapGet in faults {
        return FAILED;
      }
      if o.egress && EgressGet in faults {
        return FAILED;
      }
      if o.egress && !o.egressReady {
        return Result(2, false);
      }
      var desired := Desired(spec);
      var sts := StatefulSet(desired, digest(desired));
      if c.sts.Some? {
        var same := SameTemplateNames(c.sts.value.shape.templates, desired.templates);
        if !same {
          if StsDelete in faults {
            return FAILED;
          }
          ReplayOne(c, DeleteSts);
          Do(DeleteSts);
          return RETRY;
        }
        if c.sts.value.hash != sts.hash {
          if PodGet in faults || StsUpdate in faults {
            return FAILED;
          }
          ReplayOne(c, UpdateSts(sts));
          Do(UpdateSts(sts));
          if !o.podRunning {
            if PodDelete in faults {
              return FAILED;
            }
            ReplayAppend(old(c), [UpdateSts(sts)], [DeletePod]);
            ReplayOne(c, DeletePod);
            Do(DeletePod);
          }
        }
      } else {
        if StsCreate in faults {
          return FAILED;
        }
        ReplayOne(c, CreateSts(sts));
        Do(CreateSts(sts));
      }
      if StsStatus in faults {
        return FAILED;
      }
      r := if o.podPending then Result(10, false) else ZERO;
    }
  }
}
