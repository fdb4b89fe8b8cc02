/** Periodic snapshots: retention first, then a cron-style schedule with a single catch-up run. */
module Snapshots {
  import opened Text
  import opened Cluster
  import opened Retention
  import opened Storage

  // ---- The pass as a function ----

  function SetUnsupported(c: State, reason: Reason, then': Result, faults: set<Call>): Step
  {
    if ConditionStatus in faults then Stop(FAILED)
    else Step([WriteStatus(c.status.(unsupported := Some(reason)))], Some(then'))
  }

  function ClearUnsupported(c: State, then': Option<Result>, faults: set<Call>): Step
  {
    if c.status.unsupported.None? then Step([], then')
    else if ConditionStatus in faults then Stop(FAILED)
    else Step([WriteStatus(c.status.(unsupported := None))], then')
  }

  /** Everything before the retention: whether there is something to snapshot and an API to do it with. */
  function Gate(spec: Spec, c: State, k: Clock, faults: set<Call>): Step
  {
    if !spec.snapshotting then ClearUnsupported(c, Some(ZERO), faults)
    else if spec.suspended then Stop(ZERO)
    else if DataPVCGet in faults then Stop(FAILED)
    else if !(DataPVCName(spec) in c.pvcs && c.pvcs[DataPVCName(spec)]) then Stop(RETRY)
    else if k.next.None? then SetUnsupported(c, InvalidSchedule, RETRY, faults)
    else if List in faults then Stop(FAILED)
    else if !c.crd then SetUnsupported(c, CRDAbsent, ZERO, faults)
    else ClearUnsupported(c, None, faults)
  }

  /** The snapshots carrying the agent's label. */
  function Owned(s: seq<Snapshot>): seq<Snapshot>
  {
    if s == [] then [] else (if s[0].owned then [s[0]] else []) + Owned(s[1..])
  }

  /** The deletion loop, up to the first call that fails. */
  function Deletions(expired: seq<Snapshot>, faults: set<Call>): Step
  {
    if expired == [] then Step([], None)
    else
      var before, last := Deletions(expired[..|expired| - 1], faults), expired[|expired| - 1];
      if before.stop.Some? then before
      else if SnapshotDelete(last.name) in faults then Step(before.events, Some(FAILED))
      else Step(before.events + [DeleteSnapshot(last.name)], None)
  }

  function Last(c: State, k: Clock): int
  {
    if c.status.lastSchedule.Some? then c.status.lastSchedule.value else k.created
  }

  function SnapshotAt(spec: Spec, k: Clock): Snapshot
  {
    Snapshot(DataPVCName(spec) + "-" + k.stamp(k.now), DataPVCName(spec), k.now, true, false, false)
  }

  predicate Exists(c: State, name: string)
  {
    exists i :: 0 <= i < |c.snapshots| && c.snapshots[i].name == name
  }

  function Delay(k: Clock, run: Option<int>): Result
  {
    if run.Some? && run.value > k.now then Result(run.value - k.now, false) else ZERO
  }

  /** Take a snapshot and record it. */
  function Take(spec: Spec, c: State, k: Clock, faults: set<Call>): Step
    requires k.next.Some?
  {
    var snapshot := SnapshotAt(spec, k);
    if SnapshotCreate in faults then Stop(FAILED)
    else
      var created := if Exists(c, snapshot.name) then [] else [CreateSnapshot(snapshot)];
      if ListAgain in faults || ScheduleStatus in faults then Step(created, Some(FAILED))
      else
        var d := Replay(c, created);
        var status := d.status.(lastSchedule := Some(k.now), refs := Refs(Live(Owned(d.snapshots), spec.retention)));
        Step(created + [WriteStatus(status)], Some(Delay(k, k.next.value(k.now))))
  }

  function Schedule(spec: Spec, c: State, k: Clock, faults: set<Call>): Step
    requires k.next.Some?
  {
    var run := k.next.value(Last(c, k));
    if run.None? then Stop(RETRY)
    else if run.value > k.now then Stop(Delay(k, run))
    else Take(spec, c, k, faults)
  }

  /** The gate and the retention, up to where scheduling starts. */
  function Retain(spec: Spec, c: State, k: Clock, faults: set<Call>): Step
  {
    var g := Gate(spec, c, k, faults);
    if g.stop.Some? then g
    else
      var x := Deletions(Expired(Owned(c.snapshots), spec.retention, spec.existingSnapshot), faults);
      Step(g.events + x.events, x.stop)
  }

  /** One run of reconcileSnapshot. */
  function SnapshotPass(spec: Spec, c: State, k: Clock, faults: set<Call>): Step
  {
    var r := Retain(spec, c, k, faults);
    if r.stop.Some? || k.next.None? then r
    else
      var s := Schedule(spec, Replay(c, r.events), k, faults);
      Step(r.events + s.events, s.stop)
  }

  // ---- The reconciler on a live cluster ----

  method RunClear(kube: Kube, then': Option<Result>, faults: set<Call>) returns (r: Option<Result>)
    modifies kube
    ensures var s := ClearUnsupported(old(kube.c), then', faults);
            kube.c == Replay(old(kube.c), s.events) && kube.log == old(kube.log) + s.events && r == s.stop
  {
    var status := kube.c.status;
    if status.unsupported.Some? {
      if ConditionStatus in faults {
        return Some(FAILED);
      }
      ReplayOne(kube.c, WriteStatus(status.(unsupported := None)));
      kube.Do(WriteStatus(status.(unsupported := None)));
    }
    r := then';
  }

  method RunSet(kube: Kube, reason: Reason, then': Result, faults: set<Call>) returns (r: Option<Result>)
    modifies kube
    ensures var s := SetUnsupported(old(kube.c), reason, then', faults);
            kube.c == Replay(old(kube.c), s.events) && kube.log == old(kube.log) + s.events && r == s.stop
  {
    if ConditionStatus in faults {
      return Some(FAILED);
    }
    var status := kube.c.status.(unsupported := Some(reason));
    ReplayOne(kube.c, WriteStatus(status));
    kube.Do(WriteStatus(status));
    r := Some(then');
  }

  method RunGate(kube: Kube, spec: Spec, k: Clock, faults: set<Call>) returns (r: Option<Result>)
    modifies kube
    ensures var s := Gate(spec, old(kube.c), k, faults);
            kube.c == Replay(old(kube.c), s.events) && kube.log == old(kube.log) + s.events && r == s.stop
  {
    if !spec.snapshotting {
      r := RunClear(kube, Some(ZERO), faults);
      return;
    }
    if spec.suspended {
      return Some(ZERO);
    }
    if DataPVCGet in faults {
      return Some(FAILED);
    }
    var pvc := DataPVCName(spec);
    if pvc !in kube.c.pvcs || !kube.c.pvcs[pvc] {
      return Some(RETRY);
    }
    if k.next.None? {
      r := RunSet(kube, InvalidSchedule, RETRY, faults);
    } else if List in faults {
      r := Some(FAILED);
    } else if !kube.c.crd {
      r := RunSet(kube, CRDAbsent, ZERO, faults);
    } else {
      r := RunClear(kube, None, faults);
    }
  }

  /** Split, then compact the restore source away in place. */
  method FindExpired(snapshots: seq<Snapshot>, retention: nat, source: string) returns (expired: seq<Snapshot>)
    ensures expired == Expired(snapshots, retention, source)
  {
    var sorted, lo := SplitSnapshots(snapshots, retention);
    if source == "" {
      expired := sorted[lo..];
    } else {
      var n := Compact(sorted, lo, source);
      expired := sorted[lo..lo + n];
    }
  }

  method RunDeletions(kube: Kube, expired: seq<Snapshot>, faults: set<Call>) returns (r: Option<Result>)
    modifies kube
    ensures var s := Deletions(expired, faults);
            kube.c == Replay(old(kube.c), s.events) && kube.log == old(kube.log) + s.events && r == s.stop
  {
    for i := 0 to |expired|
      invariant Deletions(expired[..i], faults).stop.None?
      invariant kube.c == Replay(old(kube.c), Deletions(expired[..i], faults).events)
      invariant kube.log == old(kube.log) + Deletions(expired[..i], faults).events
    {
      ghost var done := Deletions(expired[..i], faults).events;
      assert expired[..i + 1][..i] == expired[..i];
      if SnapshotDelete(expired[i].name) in faults {
        DeletionsStop(expired, i + 1, faults);
        return Some(FAILED);
      }
      ReplayAppend(old(kube.c), done, [DeleteSnapshot(expired[i].name)]);
      ReplayOne(kube.c, DeleteSnapshot(expired[i].name));
      assert old(kube.log) + done + [DeleteSnapshot(expired[i].name)] == old(kube.log) + (done + [DeleteSnapshot(expired[i].name)]);
      kube.Do(DeleteSnapshot(expired[i].name));
    }
    assert expired[..|expired|] == expired;
    r := None;
  }

  lemma {:induction false} DeletionsStop(expired: seq<Snapshot>, i: nat, faults: set<Call>)
    requires i <= |expired| && Deletions(expired[..i], faults).stop.Some?
    ensures Deletions(expired, faults) == Deletions(expired[..i], faults)
    decreases |expired| - i
  {
    if i == |expired| {
      assert expired[..i] == expired;
    } else {
      assert expired[..i + 1][..i] == expired[..i];
      DeletionsStop(expired, i + 1, faults);
    }
  }

  method RunTake(kube: Kube, spec: Spec, k: Clock, faults: set<Call>) returns (r: Result)
    requires k.next.Some?
    modifies kube
    ensures var s := Take(spec, old(kube.c), k, faults);
            kube.c == Replay(old(kube.c), s.events) && kube.log == old(kube.log) + s.events && Some(r) == s.stop
  {
    var snapshot := SnapshotAt(spec, k);
    if SnapshotCreate in faults {
      return FAILED;
    }
    ghost var created := [];
    if !Exists(kube.c, snapshot.name) {
      created := [CreateSnapshot(snapshot)];
      ReplayOne(kube.c, CreateSnapshot(snapshot));
      kube.Do(CreateSnapshot(snapshot));
    }
    if ListAgain in faults || ScheduleStatus in faults {
      return FAILED;
    }
    var refs := ListRefs(kube, spec);
    var status := kube.c.status.(lastSchedule := Some(k.now), refs := refs);
    ReplayAppend(old(kube.c), created, [WriteStatus(status)]);
    ReplayOne(kube.c, WriteStatus(status));
    kube.Do(WriteStatus(status));
    r := Delay(k, k.next.value(k.now));
  }

  method ListRefs(kube: Kube, spec: Spec) returns (refs: seq<Ref>)
    ensures refs == Refs(Live(Owned(kube.c.snapshots), spec.retention))
  {
    var sorted, lo := SplitSnapshots(Owned(kube.c.snapshots), spec.retention);
    refs := SnapshotRefs(sorted[..lo]);
  }

  method RunRetain(kube: Kube, spec: Spec, k: Clock, faults: set<Call>) returns (r: Option<Result>)
    modifies kube
    ensures var s := Retain(spec, old(kube.c), k, faults);
            kube.c == Replay(old(kube.c), s.events) && kube.log == old(kube.log) + s.events && r == s.stop
  {
    var snapshots := Owned(kube.c.snapshots);
    r := RunGate(kube, spec, k, faults);
    if r.Some? {
      return;
    }
    var expired := FindExpired(snapshots, spec.retention, spec.existingSnapshot);
    DoMore(old(kube.c), old(kube.log), Gate(spec, old(kube.c), k, faults).events, Deletions(expired, faults).events);
    r := RunDeletions(kube, expired, faults);
  }

  method RunSchedule(kube: Kube, spec: Spec, k: Clock, faults: set<Call>) returns (r: Result)
    requires k.next.Some?
    modifies kube
    ensures var s := Schedule(spec, old(kube.c), k, faults);
            kube.c == Replay(old(kube.c), s.events) && kube.log == old(kube.log) + s.events && Some(r) == s.stop
  {
    var run := k.next.value(Last(kube.c, k));
    if run.None? {
      return RETRY;
    }
    if run.value > k.now {
      return Delay(k, run);
    }
    r := RunTake(kube, spec, k, faults);
  }

  method ReconcileSnapshot(kube: Kube, spec: Spec, k: Clock, faults: set<Call>) returns (r: Result)
    modifies kube
    ensures var s := SnapshotPass(spec, old(kube.c), k, faults);
            kube.c == Replay(old(kube.c), s.events) && kube.log == old(kube.log) + s.events && Some(r) == s.stop
  {
    var stop := RunRetain(kube, spec, k, faults);
    if stop.Some? {
      return stop.value;
    }
    GateKeeps(spec, old(kube.c), k, faults);
    ghost var before := Retain(spec, old(kube.c), k, faults).events;
    DoMore(old(kube.c), old(kube.log), before, Schedule(spec, Replay(old(kube.c), before), k, faults).events);
    r := RunSchedule(kube, spec, k, faults);
  }

  /** The gate goes on only with a schedule and the API there, and it touches nothing but its condition. */
  lemma {:induction false} GateKeeps(spec: Spec, c: State, k: Clock, faults: set<Call>)
    ensures var s := Gate(spec, c, k, faults);
            var d := Replay(c, s.events);
            && d.snapshots == c.snapshots && d.pvcs == c.pvcs && d.sts == c.sts
            && d.status.lastSchedule == c.status.lastSchedule && d.status.refs == c.status.refs
            && (s.stop.None? ==> k.next.Some? && d.status.unsupported.None?)
            && forall e :: e in s.events ==> e.WriteStatus?
  {
    ReplayOne(c, WriteStatus(c.status.(unsupported := None)));
    ReplayOne(c, WriteStatus(c.status.(unsupported := Some(InvalidSchedule))));
    ReplayOne(c, WriteStatus(c.status.(unsupported := Some(CRDAbsent))));
  }
}
