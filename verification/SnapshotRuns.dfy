/** What the snapshot reconciler guarantees over whole runs: one snapshot per due slot, a single catch-up
    after an outage, and a bounded set of snapshots that always holds the restore source. */
module SnapshotRuns {
  import opened Text
  import opened Cluster
  import opened Retention
  import opened Snapshots

  // ---- The schedule ----

  /** `next` gives the least slot strictly after a moment; it may give up (None) where cron does. */
  ghost predicate NextSlot(slots: iset<int>, next: int -> Option<int>)
  {
    forall t :: next(t).Some? ==>
      var n := next(t).value;
      t < n && n in slots && forall u :: t < u < n ==> u !in slots
  }

  ghost predicate SlotIn(slots: iset<int>, lo: int, hi: int)
  {
    exists u :: lo < u <= hi && u in slots
  }

  predicate Due(c: State, k: Clock)
  {
    k.next.Some? && k.next.value(Last(c, k)).Some? && k.next.value(Last(c, k)).value <= k.now
  }

  lemma {:induction false} DueExactly(slots: iset<int>, c: State, k: Clock)
    requires k.next.Some? && NextSlot(slots, k.next.value) && k.next.value(Last(c, k)).Some?
    ensures Due(c, k) <==> SlotIn(slots, Last(c, k), k.now)
  {
  }

  /** The pass got past the gate and the retention. */
  predicate Scheduling(spec: Spec, c: State, k: Clock, faults: set<Call>)
  {
    k.next.Some? && Retain(spec, c, k, faults).stop.None?
  }

  ghost predicate Took(events: seq<Event>)
  {
    exists e :: e in events && e.CreateSnapshot?
  }

  /** The calls that must succeed for a snapshot taken to be recorded. */
  predicate Records(faults: set<Call>) { ListAgain !in faults && ScheduleStatus !in faults }

  lemma {:induction false} DeletionsOutcome(c: State, expired: seq<Snapshot>, faults: set<Call>)
    ensures var s := Deletions(expired, faults);
            var d := Replay(c, s.events);
            && d.status == c.status && d.pvcs == c.pvcs && d.sts == c.sts
            && forall e :: e in s.events ==> e.DeleteSnapshot?
    decreases |expired|
  {
    if expired != [] {
      var n := |expired| - 1;
      DeletionsOutcome(c, expired[..n], faults);
      var before := Deletions(expired[..n], faults).events;
      ReplayAppend(c, before, [DeleteSnapshot(expired[n].name)]);
      ReplayOne(Replay(c, before), DeleteSnapshot(expired[n].name));
    }
  }

  lemma {:induction false} RetainOutcome(spec: Spec, c: State, k: Clock, faults: set<Call>)
    ensures var s := Retain(spec, c, k, faults);
            var d := Replay(c, s.events);
            && d.status.lastSchedule == c.status.lastSchedule && d.status.refs == c.status.refs
            && d.pvcs == c.pvcs && d.sts == c.sts && (s.stop.None? ==> d.status.unsupported.None?)
            && forall e :: e in s.events ==> e.DeleteSnapshot? || e.WriteStatus?
  {
    GateKeeps(spec, c, k, faults);
    var g := Gate(spec, c, k, faults);
    if g.stop.None? {
      var expired := Expired(Owned(c.snapshots), spec.retention, spec.existingSnapshot);
      DeletionsOutcome(Replay(c, g.events), expired, faults);
      ReplayAppend(c, g.events, Deletions(expired, faults).events);
    }
  }

  lemma {:induction false} TakeOutcome(spec: Spec, c: State, k: Clock, faults: set<Call>)
    requires k.next.Some?
    ensures var s := Take(spec, c, k, faults);
            var d := Replay(c, s.events);
            && d.status.lastSchedule ==
               (if SnapshotCreate !in faults && Records(faults) then Some(k.now) else c.status.lastSchedule)
            && d.pvcs == c.pvcs && d.sts == c.sts
            && d.snapshots == (if Took(s.events) then c.snapshots + [SnapshotAt(spec, k)] else c.snapshots)
            && (Took(s.events) <==> SnapshotCreate !in faults && !Exists(c, SnapshotAt(spec, k).name))
            && (forall e :: e in s.events ==> e == CreateSnapshot(SnapshotAt(spec, k)) || e.WriteStatus?)
  {
    var e := CreateSnapshot(SnapshotAt(spec, k));
    var created := if Exists(c, e.snapshot.name) then [] else [e];
    CreatedOutcome(c, e);
    var s := Take(spec, c, k, faults).events;
    if SnapshotCreate !in faults && Records(faults) {
      var w := s[|s| - 1];
      assert s == created + [w];
      ReplayAppend(c, created, [w]);
      ReplayOne(Replay(c, created), w);
      TookSnoc(created, w);
    }
  }

  lemma {:induction false} CreatedOutcome(c: State, e: Event)
    requires e.CreateSnapshot?
    ensures !Took([]) && Took([e]) && Replay(c, []) == c && Replay(c, [e]) == c.(snapshots := c.snapshots + [e.snapshot])
  {
    assert e in [e];
    ReplayOne(c, e);
  }

  /** The pass is past its gates, a run is due and the create call succeeds. */
  predicate Taking(spec: Spec, c: State, k: Clock, faults: set<Call>)
  {
    Scheduling(spec, c, k, faults) && Due(c, k) && SnapshotCreate !in faults
  }

  lemma {:induction false} ScheduleOutcome(spec: Spec, c: State, k: Clock, faults: set<Call>)
    requires k.next.Some?
    ensures var s := Schedule(spec, c, k, faults);
            var d := Replay(c, s.events);
            var taking := Due(c, k) && SnapshotCreate !in faults;
            && d.status.lastSchedule == (if taking && Records(faults) then Some(k.now) else c.status.lastSchedule)
            && (Took(s.events) <==> taking && !Exists(c, SnapshotAt(spec, k).name))
            && d.pvcs == c.pvcs && d.sts == c.sts
            && (forall e :: e in s.events ==> e == CreateSnapshot(SnapshotAt(spec, k)) || e.WriteStatus?)
  {
    if Due(c, k) {
      TakeOutcome(spec, c, k, faults);
    }
  }

  /** A pass takes a snapshot exactly when it gets to scheduling, one is due and the name is free, and only
      then moves the mark. */
  lemma {:induction false} PassOutcome(spec: Spec, c: State, k: Clock, faults: set<Call>)
    ensures var s := SnapshotPass(spec, c, k, faults);
            var d := Replay(c, s.events);
            && d.status.lastSchedule ==
               (if Taking(spec, c, k, faults) && Records(faults) then Some(k.now) else c.status.lastSchedule)
            && (Took(s.events) <==>
                Taking(spec, c, k, faults) && !Exists(Replay(c, Retain(spec, c, k, faults).events), SnapshotAt(spec, k).name))
            && d.pvcs == c.pvcs && d.sts == c.sts
  {
    var r := Retain(spec, c, k, faults);
    RetainOutcome(spec, c, k, faults);
    if Scheduling(spec, c, k, faults) {
      var mid := Replay(c, r.events);
      assert Last(mid, k) == Last(c, k);
      ScheduleOutcome(spec, mid, k, faults);
      var s := Schedule(spec, mid, k, faults);
      ReplayAppend(c, r.events, s.events);
      TookAppend(r.events, s.events);
    }
  }

  lemma {:induction false} TookAppend(a: seq<Event>, b: seq<Event>)
    requires !Took(a)
    ensures Took(a + b) <==> Took(b)
  {
    assert forall e :: e in a + b <==> e in a || e in b;
  }

  /** After a pass that got to scheduling and did not fail, no slot is left between the mark and now: either
      none was due, or the mark is now. */
  lemma {:induction false} NoSlotLeft(slots: iset<int>, spec: Spec, c: State, k: Clock, faults: set<Call>)
    requires Scheduling(spec, c, k, faults) && NextSlot(slots, k.next.value) && k.next.value(Last(c, k)).Some?
    requires SnapshotPass(spec, c, k, faults).stop.Some? && !SnapshotPass(spec, c, k, faults).stop.value.failed
    ensures !SlotIn(slots, Last(Replay(c, SnapshotPass(spec, c, k, faults).events), k), k.now)
  {
    PassOutcome(spec, c, k, faults);
    PassStop(spec, c, k, faults);
    DueExactly(slots, c, k);
  }

  /** The delay to the next slot after t ends exactly at the next slot after now. */
  lemma {:induction false} DelayLands(slots: iset<int>, k: Clock, t: int)
    requires k.next.Some? && NextSlot(slots, k.next.value) && k.next.value(t).Some?
    requires t <= k.now < k.next.value(t).value
    ensures var delay := Delay(k, k.next.value(t)).requeue;
            delay > 0 && k.now + delay in slots && !SlotIn(slots, k.now, k.now + delay - 1)
  {
    var n := k.next.value(t).value;
    assert forall u :: t < u < n ==> u !in slots;
  }

  lemma {:induction false} ScheduleStop(spec: Spec, c: State, k: Clock, faults: set<Call>)
    requires k.next.Some? && k.next.value(Last(c, k)).Some?
    ensures Schedule(spec, c, k, faults).stop ==
            Some(if !Due(c, k) then Delay(k, k.next.value(Last(c, k)))
                 else if SnapshotCreate in faults || !Records(faults) then FAILED
                 else Delay(k, k.next.value(k.now)))
  {
  }

  lemma {:induction false} PassStop(spec: Spec, c: State, k: Clock, faults: set<Call>)
    requires Scheduling(spec, c, k, faults) && k.next.value(Last(c, k)).Some?
    ensures SnapshotPass(spec, c, k, faults).stop ==
            Some(if !Due(c, k) then Delay(k, k.next.value(Last(c, k)))
                 else if SnapshotCreate in faults || !Records(faults) then FAILED
                 else Delay(k, k.next.value(k.now)))
  {
    RetainOutcome(spec, c, k, faults);
    var mid := Replay(c, Retain(spec, c, k, faults).events);
    assert Last(mid, k) == Last(c, k);
    ScheduleStop(spec, mid, k, faults);
  }

  /** Every delay such a pass asks for is positive and ends exactly at the next slot after now; it asks for
      none only when the schedule has no further slot to offer. */
  lemma {:induction false} RequeueLandsOnNextSlot(slots: iset<int>, spec: Spec, c: State, k: Clock, faults: set<Call>)
    requires Scheduling(spec, c, k, faults) && NextSlot(slots, k.next.value) && k.next.value(Last(c, k)).Some?
    requires Last(c, k) <= k.now
    requires SnapshotPass(spec, c, k, faults).stop.Some? && !SnapshotPass(spec, c, k, faults).stop.value.failed
    ensures var delay := SnapshotPass(spec, c, k, faults).stop.value.requeue;
            if delay > 0 then k.now + delay in slots && !SlotIn(slots, k.now, k.now + delay - 1)
            else k.next.value(k.now).None?
  {
    PassStop(spec, c, k, faults);
    if !Due(c, k) {
      DelayLands(slots, k, Last(c, k));
    } else if k.next.value(k.now).Some? {
      DelayLands(slots, k, k.now);
    }
  }

  lemma {:induction false} ExistsExactly(c: State, name: string)
    ensures Exists(c, name) <==> exists s :: s in c.snapshots && s.name == name
  {
    if exists s :: s in c.snapshots && s.name == name {
      var s :| s in c.snapshots && s.name == name;
      var i :| 0 <= i < |c.snapshots| && c.snapshots[i] == s;
    }
  }

  // ---- Runs ----

  function SnapshotEvents(t: Turn, c: State): seq<Event>
  {
    SnapshotPass(t.spec, c, t.clock, t.faults).events
  }

  /** The pass numbered i leaves the mark the next one finds. */
  ghost predicate MarksAt(turns: seq<Turn>, clusters: seq<State>, i: nat)
    requires |clusters| == |turns| + 1 && i < |turns|
  {
    clusters[i + 1].status.lastSchedule == Replay(clusters[i], SnapshotEvents(turns[i], clusters[i])).status.lastSchedule
  }

  /** A run in which only the operator writes lastScheduleTime: time does not go back, the schedule is the
      same throughout, and the run starts no earlier than the last mark. Anything else may change. */
  ghost predicate Trace(slots: iset<int>, turns: seq<Turn>, clusters: seq<State>)
  {
    && |clusters| == |turns| + 1
    && (forall i :: 0 <= i < |turns| ==> MarksAt(turns, clusters, i))
    && (forall i, j :: 0 <= i <= j < |turns| ==>
          turns[i].clock.now <= turns[j].clock.now && turns[i].clock.created == turns[j].clock.created)
    && (forall i :: 0 <= i < |turns| ==>
          turns[i].clock.next.Some? && NextSlot(slots, turns[i].clock.next.value))
    && (|turns| > 0 ==> Last(clusters[0], turns[0].clock) <= turns[0].clock.now)
  }

  lemma {:induction false} MarkStep(slots: iset<int>, turns: seq<Turn>, clusters: seq<State>, m: nat)
    requires Trace(slots, turns, clusters) && m < |turns|
    ensures clusters[m + 1].status.lastSchedule in {clusters[m].status.lastSchedule, Some(turns[m].clock.now)}
  {
    assert MarksAt(turns, clusters, m);
    PassOutcome(turns[m].spec, clusters[m], turns[m].clock, turns[m].faults);
  }

  /** The mark never passes the clock, and never goes back. */
  lemma {:induction false} MarkMovesForward(slots: iset<int>, turns: seq<Turn>, clusters: seq<State>, i: nat, j: nat)
    requires Trace(slots, turns, clusters) && i <= j < |turns|
    ensures Last(clusters[j], turns[j].clock) <= turns[j].clock.now
    ensures Last(clusters[i], turns[i].clock) <= Last(clusters[j], turns[j].clock)
    decreases j
  {
    if j > 0 {
      MarkStep(slots, turns, clusters, j - 1);
      MarkMovesForward(slots, turns, clusters, if i < j then i else j - 1, j - 1);
    }
  }

  /** Two snapshots of a run always have a slot between them, when the first was recorded: an outage of any
      length is caught up with once. */
  lemma {:induction false} SlotBetweenSnapshots(slots: iset<int>, turns: seq<Turn>, clusters: seq<State>, i: nat, j: nat)
    requires Trace(slots, turns, clusters) && i < j < |turns| && Records(turns[i].faults)
    ensures Took(SnapshotEvents(turns[i], clusters[i])) && Took(SnapshotEvents(turns[j], clusters[j])) ==>
              SlotIn(slots, turns[i].clock.now, turns[j].clock.now)
  {
    PassOutcome(turns[i].spec, clusters[i], turns[i].clock, turns[i].faults);
    PassOutcome(turns[j].spec, clusters[j], turns[j].clock, turns[j].faults);
    MarkMovesForward(slots, turns, clusters, i + 1, j);
    assert MarksAt(turns, clusters, i);
    if Took(SnapshotEvents(turns[i], clusters[i])) && Took(SnapshotEvents(turns[j], clusters[j])) {
      assert Last(clusters[i + 1], turns[i + 1].clock) == turns[i].clock.now;
      DueExactly(slots, clusters[j], turns[j].clock);
    }
  }

  function CountTaken(events: seq<Event>): nat
  {
    if events == [] then 0
    else CountTaken(events[..|events| - 1]) + if events[|events| - 1].CreateSnapshot? then 1 else 0
  }

  lemma {:induction false} CountAppend(a: seq<Event>, b: seq<Event>)
    ensures CountTaken(a + b) == CountTaken(a) + CountTaken(b)
    ensures !Took(b) ==> CountTaken(b) == 0
    decreases |b|
  {
    if b == [] {
      assert a + b == a;
    } else {
      var n := |b| - 1;
      assert (a + b)[..|a + b| - 1] == a + b[..n] && (a + b)[|a + b| - 1] == b[n];
      CountAppend(a, b[..n]);
      assert b[n] in b && forall e :: e in b[..n] ==> e in b;
    }
  }

  /** A pass takes at most one snapshot. */
  lemma {:induction false} OneSnapshotPerPass(spec: Spec, c: State, k: Clock, faults: set<Call>)
    ensures CountTaken(SnapshotPass(spec, c, k, faults).events) == if Took(SnapshotPass(spec, c, k, faults).events) then 1 else 0
  {
    var r := Retain(spec, c, k, faults);
    RetainOutcome(spec, c, k, faults);
    CountAppend([], r.events);
    assert [] + r.events == r.events;
    if Scheduling(spec, c, k, faults) {
      var mid := Replay(c, r.events);
      var s := Schedule(spec, mid, k, faults).events;
      CountAppend(r.events, s);
      TookAppend(r.events, s);
      ScheduleCounts(spec, mid, k, faults);
    }
  }

  lemma {:induction false} ScheduleCounts(spec: Spec, c: State, k: Clock, faults: set<Call>)
    requires k.next.Some?
    ensures CountTaken(Schedule(spec, c, k, faults).events) == if Took(Schedule(spec, c, k, faults).events) then 1 else 0
  {
    var s := Schedule(spec, c, k, faults).events;
    if Due(c, k) && SnapshotCreate !in faults {
      var e := CreateSnapshot(SnapshotAt(spec, k));
      var created := if Exists(c, e.snapshot.name) then [] else [e];
      CountOne(e);
      if s != created {
        var w := s[|s| - 1];
        assert s == created + [w];
        CountOne(w);
        CountAppend(created, [w]);
        TookSnoc(created, w);
      }
    }
  }

  lemma {:induction false} CountOne(e: Event)
    ensures CountTaken([e]) == (if e.CreateSnapshot? then 1 else 0) && (Took([e]) <==> e.CreateSnapshot?)
  {
    assert [e][..0] == [] && e in [e];
  }

  lemma {:induction false} TookSnoc(a: seq<Event>, e: Event)
    requires !e.CreateSnapshot?
    ensures Took(a + [e]) <==> Took(a)
  {
    assert forall x :: x in a + [e] <==> x in a || x == e;
  }

  /** How many snapshots each pass of a run took. */
  ghost predicate Counts(turns: seq<Turn>, clusters: seq<State>, counts: seq<nat>)
  {
    |counts| == |turns| < |clusters| && forall i :: 0 <= i < |turns| ==> CountsAt(turns, clusters, counts, i)
  }

  ghost predicate CountsAt(turns: seq<Turn>, clusters: seq<State>, counts: seq<nat>, i: nat)
    requires i < |turns| == |counts| < |clusters|
  {
    counts[i] == CountTaken(SnapshotEvents(turns[i], clusters[i]))
  }

  function Sum(counts: seq<nat>, n: nat): nat
    requires n <= |counts|
  {
    if n == 0 then 0 else Sum(counts, n - 1) + counts[n - 1]
  }

  ghost predicate Increasing(ws: seq<int>) { forall i, j :: 0 <= i < j < |ws| ==> ws[i] < ws[j] }

  /** The slot a recorded pass pays for its snapshot with, if it takes one. */
  lemma {:induction false} PassPays(slots: iset<int>, turns: seq<Turn>, clusters: seq<State>, counts: seq<nat>, m: nat) returns (ws: seq<int>)
    requires Trace(slots, turns, clusters) && Counts(turns, clusters, counts) && m < |turns| && Records(turns[m].faults)
    ensures |ws| == counts[m] <= 1
    ensures Last(clusters[m], turns[0].clock) <= Last(clusters[m + 1], turns[0].clock)
    ensures |ws| == 1 ==> ws[0] in slots && Last(clusters[m], turns[0].clock) < ws[0] <= Last(clusters[m + 1], turns[0].clock)
  {
    var t, c := turns[m], clusters[m];
    MarkMovesForward(slots, turns, clusters, 0, m);
    assert MarksAt(turns, clusters, m) && CountsAt(turns, clusters, counts, m);
    PassOutcome(t.spec, c, t.clock, t.faults);
    OneSnapshotPerPass(t.spec, c, t.clock, t.faults);
    assert Last(c, t.clock) == Last(c, turns[0].clock);
    ws := if Took(SnapshotEvents(t, c)) then [t.clock.next.value(Last(c, t.clock)).value] else [];
  }

  lemma {:induction false} IncreasingAppend(a: seq<int>, b: seq<int>, at: int)
    requires Increasing(a) && |b| <= 1 && (forall i :: 0 <= i < |a| ==> a[i] <= at) && (|b| == 1 ==> at < b[0])
    ensures Increasing(a + b)
  {
  }

  /** Over a run whose snapshots are all recorded, every snapshot has a slot of its own, later than the mark
      the run started from and not after the mark it ends with: there are never more snapshots than slots. */
  lemma {:induction false} SlotsPayForSnapshots(slots: iset<int>, turns: seq<Turn>, clusters: seq<State>, counts: seq<nat>, n: nat) returns (ws: seq<int>)
    requires Trace(slots, turns, clusters) && Counts(turns, clusters, counts) && 0 < |turns| && n <= |turns|
    requires forall i :: 0 <= i < n ==> Records(turns[i].faults)
    ensures |ws| == Sum(counts, n) && Increasing(ws)
    ensures Last(clusters[0], turns[0].clock) <= Last(clusters[n], turns[0].clock)
    ensures forall i :: 0 <= i < |ws| ==> ws[i] in slots && Last(clusters[0], turns[0].clock) < ws[i] <= Last(clusters[n], turns[0].clock)
    decreases n
  {
    ws := [];
    if n > 0 {
      var before := SlotsPayForSnapshots(slots, turns, clusters, counts, n - 1);
      var more := PassPays(slots, turns, clusters, counts, n - 1);
      IncreasingAppend(before, more, Last(clusters[n - 1], turns[0].clock));
      ws := before + more;
    }
  }

  lemma {:induction false} DueAgainExactly(slots: iset<int>, turns: seq<Turn>, clusters: seq<State>, i: nat)
    requires Trace(slots, turns, clusters) && i + 1 < |turns|
    requires Took(SnapshotEvents(turns[i], clusters[i]))
    requires turns[i + 1].clock.next == turns[i].clock.next
    requires turns[i].clock.next.value(turns[i].clock.now).Some?
    ensures Due(clusters[i + 1], turns[i + 1].clock) <==>
            !Records(turns[i].faults) || SlotIn(slots, turns[i].clock.now, turns[i + 1].clock.now)
  {
    assert MarksAt(turns, clusters, i);
    PassOutcome(turns[i].spec, clusters[i], turns[i].clock, turns[i].faults);
    var k, k' := turns[i].clock, turns[i + 1].clock;
    if Records(turns[i].faults) {
      assert Last(clusters[i + 1], k') == k.now;
      DueExactly(slots, clusters[i + 1], k');
    } else {
      assert Last(clusters[i + 1], k') == Last(clusters[i], k);
      assert k.next.value(Last(clusters[i], k)).value <= k.now <= k'.now;
    }
  }

  /** The pass gets to scheduling, its create call works and the name for now is free: it takes a snapshot if
      one is due. */
  predicate Able(t: Turn, c: State)
  {
    && Scheduling(t.spec, c, t.clock, t.faults) && SnapshotCreate !in t.faults
    && !Exists(Replay(c, Retain(t.spec, c, t.clock, t.faults).events), SnapshotAt(t.spec, t.clock).name)
  }

  /** One snapshot per slot fails when the record is not written. After a pass that took a snapshot, the next
      pass able to takes another exactly when the first was not recorded or a slot has come due since. */
  lemma {:induction false} RepeatsExactly(slots: iset<int>, turns: seq<Turn>, clusters: seq<State>, i: nat)
    requires Trace(slots, turns, clusters) && i + 1 < |turns|
    requires Took(SnapshotEvents(turns[i], clusters[i]))
    requires turns[i + 1].clock.next == turns[i].clock.next
    requires turns[i].clock.next.value(turns[i].clock.now).Some?
    ensures Took(SnapshotEvents(turns[i + 1], clusters[i + 1])) <==>
            Able(turns[i + 1], clusters[i + 1])
            && (!Records(turns[i].faults) || SlotIn(slots, turns[i].clock.now, turns[i + 1].clock.now))
  {
    DueAgainExactly(slots, turns, clusters, i);
    var t := turns[i + 1];
    PassOutcome(t.spec, clusters[i + 1], t.clock, t.faults);
  }

  // ---- One slot, two snapshots ----

  const DAILY: Spec := Spec("a", "claim", "", true, false, "", true, 5)

  const RUNNING: Observed := Observed(false, false, true, false)

  function ClockAt(now: int): Clock
  {
    Clock(now, 0, Some(t => if t < 1 then Some(1) else if t < 100 then Some(100) else None), t => if t == 1 then "1" else "2")
  }

  /** With no more snapshots than the retention a pass past its gate deletes none. */
  lemma {:induction false} RetainsAll(spec: Spec, c: State, k: Clock, faults: set<Call>)
    requires Gate(spec, c, k, faults) == Step([], None) && |Owned(c.snapshots)| <= spec.retention && spec.existingSnapshot == ""
    ensures Retain(spec, c, k, faults) == Step([], None)
  {
    var owned := Owned(c.snapshots);
    NewestFirstIsStableSort(owned);
    assert Deprecated(owned, spec.retention) == [];
  }

  /** The slot at 1 is due, and nothing but the recording can fail. */
  ghost predicate Waiting(c: State, now: int)
  {
    && c.pvcs == map["claim" := true] && c.crd && c.status == Status(None, None, None, []) && now >= 1
    && |Owned(c.snapshots)| <= 5 && !Exists(c, SnapshotAt(DAILY, ClockAt(now)).name)
  }

  lemma {:induction false} WaitingTakes(c: State, now: int, faults: set<Call>)
    requires Waiting(c, now) && faults <= {ScheduleStatus}
    ensures var t := Turn(DAILY, RUNNING, ClockAt(now), faults);
            Took(SnapshotEvents(t, c)) && Scheduling(DAILY, c, t.clock, faults) && Retain(DAILY, c, t.clock, faults) == Step([], None)
  {
    var k := ClockAt(now);
    assert DataPVCName(DAILY) == "claim";
    assert Gate(DAILY, c, k, faults) == Step([], None);
    RetainsAll(DAILY, c, k, faults);
    assert Replay(c, []) == c && Due(c, k);
    PassOutcome(DAILY, c, k, faults);
  }

  lemma {:induction false} UnrecordedSchedule(c: State, now: int)
    requires Waiting(c, now)
    ensures Schedule(DAILY, c, ClockAt(now), {ScheduleStatus}).events == [CreateSnapshot(SnapshotAt(DAILY, ClockAt(now)))]
  {
    assert Last(c, ClockAt(now)) == 0;
  }

  lemma {:induction false} PassIsSchedule(spec: Spec, c: State, k: Clock, faults: set<Call>)
    requires k.next.Some? && Retain(spec, c, k, faults) == Step([], None)
    ensures SnapshotPass(spec, c, k, faults) == Schedule(spec, c, k, faults)
  {
    assert Replay(c, []) == c;
    assert [] + Schedule(spec, c, k, faults).events == Schedule(spec, c, k, faults).events;
  }

  lemma {:induction false} UnrecordedEvents(c: State, now: int)
    requires Waiting(c, now)
    ensures SnapshotEvents(Turn(DAILY, RUNNING, ClockAt(now), {ScheduleStatus}), c) == [CreateSnapshot(SnapshotAt(DAILY, ClockAt(now)))]
  {
    WaitingTakes(c, now, {ScheduleStatus});
    UnrecordedSchedule(c, now);
    PassIsSchedule(DAILY, c, ClockAt(now), {ScheduleStatus});
  }

  lemma {:induction false} UnrecordedPass(c: State, now: int)
    requires Waiting(c, now)
    ensures Replay(c, SnapshotEvents(Turn(DAILY, RUNNING, ClockAt(now), {ScheduleStatus}), c))
            == c.(snapshots := c.snapshots + [SnapshotAt(DAILY, ClockAt(now))])
  {
    UnrecordedEvents(c, now);
    ReplayOne(c, CreateSnapshot(SnapshotAt(DAILY, ClockAt(now))));
  }

  lemma {:induction false} NamesDiffer()
    ensures SnapshotAt(DAILY, ClockAt(1)).name != SnapshotAt(DAILY, ClockAt(2)).name
  {
    var a, b := SnapshotAt(DAILY, ClockAt(1)).name, SnapshotAt(DAILY, ClockAt(2)).name;
    assert DataPVCName(DAILY) == "claim";
    assert a[6] == '1' && b[6] == '2';
  }

  lemma {:induction false} SlotsOfClock(now: int)
    ensures NextSlot(iset{1, 100}, ClockAt(now).next.value)
  {
  }

  lemma {:induction false} TwoTurns(slots: iset<int>, first: Turn, second: Turn, c: State)
    requires Last(c, first.clock) <= first.clock.now <= second.clock.now && first.clock.created == second.clock.created
    requires first.clock.next.Some? && NextSlot(slots, first.clock.next.value)
    requires second.clock.next.Some? && NextSlot(slots, second.clock.next.value)
    ensures var d := Replay(c, SnapshotEvents(first, c));
            Trace(slots, [first, second], [c, d, Replay(d, SnapshotEvents(second, d))])
  {
  }

  lemma {:induction false} StillWaiting(c: State)
    requires c == State(map["claim" := true], [], true, None, Status(None, None, None, []))
    ensures Waiting(c, 1) && Waiting(c.(snapshots := c.snapshots + [SnapshotAt(DAILY, ClockAt(1))]), 2)
  {
    var s := SnapshotAt(DAILY, ClockAt(1));
    assert [] + [s] == [s] && Owned([s]) == [s] + Owned([s][1..]);
    NamesDiffer();
  }

  /** A run with a single slot up to its end in which a failed status write makes two snapshots. */
  lemma {:induction false} FailedRecordRepeats() returns (turns: seq<Turn>, clusters: seq<State>)
    ensures Trace(iset{1, 100}, turns, clusters) && |turns| == 2 && turns[1].clock.now == 2
    ensures Last(clusters[0], turns[0].clock) == 0
    ensures Took(SnapshotEvents(turns[0], clusters[0])) && Took(SnapshotEvents(turns[1], clusters[1]))
  {
    var c := State(map["claim" := true], [], true, None, Status(None, None, None, []));
    var first, second := Turn(DAILY, RUNNING, ClockAt(1), {ScheduleStatus}), Turn(DAILY, RUNNING, ClockAt(2), {});
    StillWaiting(c);
    WaitingTakes(c, 1, first.faults);
    UnrecordedPass(c, 1);
    var d := Replay(c, SnapshotEvents(first, c));
    WaitingTakes(d, 2, second.faults);
    SlotsOfClock(1);
    SlotsOfClock(2);
    var e := Replay(d, SnapshotEvents(second, d));
    TwoTurns(iset{1, 100}, first, second, c);
    turns, clusters := [first, second], [c, d, e];
  }

  // ---- A single catch-up ----

  lemma {:induction false} NothingTaken(t: Turn, c: State)
    requires !Took(SnapshotEvents(t, c))
    ensures CountTaken(SnapshotEvents(t, c)) == 0
  {
    OneSnapshotPerPass(t.spec, c, t.clock, t.faults);
  }

  /** While no pass gets as far as the create call, nothing is taken and the mark stays. */
  lemma {:induction false} NothingBefore(slots: iset<int>, turns: seq<Turn>, clusters: seq<State>, counts: seq<nat>, j: nat)
    requires Trace(slots, turns, clusters) && Counts(turns, clusters, counts) && j < |turns|
    requires forall i :: 0 <= i < j ==> Hindered(turns, clusters, i)
    ensures Sum(counts, j) == 0 && clusters[j].status.lastSchedule == clusters[0].status.lastSchedule
  {
    if j > 0 {
      NothingBefore(slots, turns, clusters, counts, j - 1);
      HinderedStep(slots, turns, clusters, counts, j - 1);
    }
  }

  /** The pass stops before the create call, or that call fails. */
  ghost predicate Hindered(turns: seq<Turn>, clusters: seq<State>, i: nat)
    requires i < |turns| < |clusters|
  {
    !Scheduling(turns[i].spec, clusters[i], turns[i].clock, turns[i].faults) || SnapshotCreate in turns[i].faults
  }

  lemma {:induction false} HinderedStep(slots: iset<int>, turns: seq<Turn>, clusters: seq<State>, counts: seq<nat>, m: nat)
    requires Trace(slots, turns, clusters) && Counts(turns, clusters, counts) && m < |turns| && Hindered(turns, clusters, m)
    ensures counts[m] == 0 && clusters[m + 1].status.lastSchedule == clusters[m].status.lastSchedule
  {
    assert MarksAt(turns, clusters, m) && CountsAt(turns, clusters, counts, m);
    PassOutcome(turns[m].spec, clusters[m], turns[m].clock, turns[m].faults);
    NothingTaken(turns[m], clusters[m]);
  }

  /** A pass with no slot since the mark takes nothing and leaves the mark. */
  lemma {:induction false} QuietPass(slots: iset<int>, t: Turn, c: State, mark: int)
    requires t.clock.next.Some? && NextSlot(slots, t.clock.next.value)
    requires c.status.lastSchedule == Some(mark) && !SlotIn(slots, mark, t.clock.now)
    ensures CountTaken(SnapshotEvents(t, c)) == 0 && Replay(c, SnapshotEvents(t, c)).status.lastSchedule == Some(mark)
  {
    PassOutcome(t.spec, c, t.clock, t.faults);
    if Due(c, t.clock) {
      DueExactly(slots, c, t.clock);
    }
    NothingTaken(t, c);
  }

  lemma {:induction false} QuietStep(slots: iset<int>, turns: seq<Turn>, clusters: seq<State>, counts: seq<nat>, m: nat, mark: int)
    requires Trace(slots, turns, clusters) && Counts(turns, clusters, counts) && m < |turns|
    requires clusters[m].status.lastSchedule == Some(mark) && !SlotIn(slots, mark, turns[m].clock.now)
    ensures clusters[m + 1].status.lastSchedule == Some(mark) && counts[m] == 0
  {
    assert MarksAt(turns, clusters, m) && CountsAt(turns, clusters, counts, m);
    QuietPass(slots, turns[m], clusters[m], mark);
  }

  /** Once the mark is at the clock of a pass and no slot follows, nothing is taken any more. */
  lemma {:induction false} NothingAfter(slots: iset<int>, turns: seq<Turn>, clusters: seq<State>, counts: seq<nat>, j: nat, n: nat)
    requires Trace(slots, turns, clusters) && Counts(turns, clusters, counts) && j < n <= |turns|
    requires clusters[j + 1].status.lastSchedule == Some(turns[j].clock.now)
    requires !SlotIn(slots, turns[j].clock.now, turns[n - 1].clock.now)
    ensures clusters[n].status.lastSchedule == Some(turns[j].clock.now) && Sum(counts, n) == Sum(counts, j + 1)
    decreases n
  {
    if j + 1 < n {
      assert turns[n - 2].clock.now <= turns[n - 1].clock.now;
      NothingAfter(slots, turns, clusters, counts, j, n - 1);
      QuietStep(slots, turns, clusters, counts, n - 1, turns[j].clock.now);
    }
  }

  lemma {:induction false} CatchUpStep(slots: iset<int>, turns: seq<Turn>, clusters: seq<State>, counts: seq<nat>, m: nat)
    requires Trace(slots, turns, clusters) && Counts(turns, clusters, counts) && m < |turns|
    ensures Able(turns[m], clusters[m]) && Records(turns[m].faults)
            && turns[m].clock.next.value(Last(clusters[m], turns[m].clock)).Some?
            && SlotIn(slots, Last(clusters[m], turns[m].clock), turns[m].clock.now) ==>
              counts[m] == 1 && clusters[m + 1].status.lastSchedule == Some(turns[m].clock.now)
  {
    var t, c := turns[m], clusters[m];
    assert MarksAt(turns, clusters, m) && CountsAt(turns, clusters, counts, m);
    if t.clock.next.value(Last(c, t.clock)).Some? {
      DueExactly(slots, c, t.clock);
    }
    PassOutcome(t.spec, c, t.clock, t.faults);
    OneSnapshotPerPass(t.spec, c, t.clock, t.faults);
  }

  /** After an outage of any length, in which any number of slots was missed and in which passes may have
      been stopped before the create call, the first pass able to take a snapshot takes one, and as long as no
      further slot comes it stays at exactly one. */
  lemma {:induction false} ExactlyOneCatchUp(slots: iset<int>, turns: seq<Turn>, clusters: seq<State>, counts: seq<nat>, j: nat, n: nat)
    requires Trace(slots, turns, clusters) && Counts(turns, clusters, counts) && j < n <= |turns|
    requires forall i :: 0 <= i < j ==> Hindered(turns, clusters, i)
    requires Able(turns[j], clusters[j]) && Records(turns[j].faults)
    requires turns[j].clock.next.value(Last(clusters[0], turns[0].clock)).Some?
    requires SlotIn(slots, Last(clusters[0], turns[0].clock), turns[j].clock.now)
    requires !SlotIn(slots, turns[j].clock.now, turns[n - 1].clock.now)
    ensures Sum(counts, n) == 1
  {
    NothingBefore(slots, turns, clusters, counts, j);
    assert turns[0].clock.created == turns[j].clock.created;
    CatchUpStep(slots, turns, clusters, counts, j);
    NothingAfter(slots, turns, clusters, counts, j, n);
  }

  // ---- Retention ----

  /** Names are unique in a namespace. */
  predicate UniqueNames(s: seq<Snapshot>)
  {
    forall i, j :: 0 <= i < j < |s| ==> s[i].name != s[j].name
  }

  lemma {:induction false} SameNameSameSnapshot(s: seq<Snapshot>, a: Snapshot, b: Snapshot)
    requires UniqueNames(s) && a in s && b in s && a.name == b.name
    ensures a == b
  {
    var i :| 0 <= i < |s| && s[i] == a;
    var j :| 0 <= j < |s| && s[j] == b;
  }

  lemma {:induction false} OwnedIs(s: seq<Snapshot>)
    ensures forall x :: x in Owned(s) <==> x in s && x.owned
    ensures UniqueNames(s) ==> UniqueNames(Owned(s))
    decreases |s|
  {
    if s != [] {
      OwnedIs(s[1..]);
      assert s == [s[0]] + s[1..];
      if UniqueNames(s) {
        assert UniqueNames(s[1..]);
        OwnedUnique(s);
      }
    }
  }

  lemma {:induction false} OwnedUnique(s: seq<Snapshot>)
    requires s != [] && UniqueNames(s) && UniqueNames(Owned(s[1..]))
    requires forall x :: x in Owned(s[1..]) ==> x in s[1..]
    ensures UniqueNames(Owned(s))
  {
    var rest := Owned(s[1..]);
    forall i | 0 <= i < |rest| ensures rest[i].name != s[0].name {
      assert rest[i] in s[1..];
    }
  }

  lemma {:induction false} UniqueOccursOnce(s: seq<Snapshot>, x: Snapshot)
    requires UniqueNames(s)
    ensures multiset(s)[x] <= 1
    decreases |s|
  {
    if s != [] {
      assert s == [s[0]] + s[1..];
      UniqueOccursOnce(s[1..], x);
      if x == s[0] {
        assert x !in s[1..];
      }
    }
  }

  /** The deletion loop removes exactly the snapshots it was given. */
  lemma {:induction false} DeletionsRemove(c: State, expired: seq<Snapshot>, faults: set<Call>, x: Snapshot)
    requires Deletions(expired, faults).stop.None?
    ensures x in Replay(c, Deletions(expired, faults).events).snapshots <==> x in c.snapshots && x.name !in NamesOf(expired)
    decreases |expired|
  {
    if expired != [] {
      var n := |expired| - 1;
      DeletionsLast(c, expired, faults);
      DeletionsRemove(c, expired[..n], faults, x);
      WithoutNameKeeps(Replay(c, Deletions(expired[..n], faults).events).snapshots, expired[n].name);
      NamesOfLast(expired);
    }
  }

  lemma {:induction false} NamesOfLast(s: seq<Snapshot>)
    requires s != []
    ensures NamesOf(s) == NamesOf(s[..|s| - 1]) + {s[|s| - 1].name}
  {
    var n := |s| - 1;
    forall name | name in NamesOf(s) ensures name in NamesOf(s[..n]) + {s[n].name} {
      var i :| 0 <= i < |s| && s[i].name == name;
      assert i < n ==> s[..n][i].name == name;
    }
    forall name | name in NamesOf(s[..n]) ensures name in NamesOf(s) {
      var i :| 0 <= i < n && s[..n][i].name == name;
      assert s[i].name == name;
    }
  }

  lemma {:induction false} DeletionsLast(c: State, expired: seq<Snapshot>, faults: set<Call>)
    requires expired != [] && Deletions(expired, faults).stop.None?
    ensures var n := |expired| - 1;
            && Deletions(expired[..n], faults).stop.None?
            && Replay(c, Deletions(expired, faults).events).snapshots ==
               WithoutName(Replay(c, Deletions(expired[..n], faults).events).snapshots, expired[n].name)
  {
    var n := |expired| - 1;
    var before := Deletions(expired[..n], faults).events;
    ReplayAppend(c, before, [DeleteSnapshot(expired[n].name)]);
    ReplayOne(Replay(c, before), DeleteSnapshot(expired[n].name));
  }

  lemma {:induction false} DeletionsKeepUnique(c: State, expired: seq<Snapshot>, faults: set<Call>)
    requires Deletions(expired, faults).stop.None? && UniqueNames(c.snapshots)
    ensures UniqueNames(Replay(c, Deletions(expired, faults).events).snapshots)
    decreases |expired|
  {
    if expired != [] {
      var n := |expired| - 1;
      DeletionsLast(c, expired, faults);
      DeletionsKeepUnique(c, expired[..n], faults);
      WithoutNameUnique(Replay(c, Deletions(expired[..n], faults).events).snapshots, expired[n].name);
    }
  }

  lemma {:induction false} WithoutNameUnique(s: seq<Snapshot>, name: string)
    ensures UniqueNames(s) ==> UniqueNames(WithoutName(s, name))
    decreases |s|
  {
    if s != [] && UniqueNames(s) {
      var rest := s[1..];
      WithoutNameUnique(rest, name);
      WithoutNameKeeps(rest, name);
      var r := WithoutName(rest, name);
      forall i | 0 <= i < |r| ensures r[i].name != s[0].name {
        assert r[i] in rest;
      }
    }
  }

  predicate IsSource(spec: Spec, x: Snapshot) { spec.existingSnapshot != "" && x.name == spec.existingSnapshot }

  lemma {:induction false} SplitMembers(s: seq<Snapshot>, retention: nat, x: Snapshot)
    requires UniqueNames(s)
    ensures x in s <==> x in Live(s, retention) || x in Deprecated(s, retention)
    ensures !(x in Live(s, retention) && x in Deprecated(s, retention))
  {
    SplitIsPartition(s, retention);
    UniqueOccursOnce(s, x);
    var l, d := multiset(Live(s, retention)), multiset(Deprecated(s, retention));
    assert x in s <==> x in multiset(s);
    assert (l + d)[x] == l[x] + d[x];
  }

  lemma {:induction false} ExpiredIs(s: seq<Snapshot>, spec: Spec, x: Snapshot)
    ensures x in Expired(s, spec.retention, spec.existingSnapshot) <==> x in Deprecated(s, spec.retention) && !IsSource(spec, x)
  {
    WithoutNameKeeps(Deprecated(s, spec.retention), spec.existingSnapshot);
  }

  /** After the deletion loop the agent's snapshots are exactly the newest `retention` of them, plus the
      restore source wherever it lies. */
  lemma {:induction false} SurvivorsExactly(spec: Spec, c: State, faults: set<Call>, x: Snapshot)
    requires UniqueNames(c.snapshots)
    requires Deletions(Expired(Owned(c.snapshots), spec.retention, spec.existingSnapshot), faults).stop.None?
    ensures var d := Replay(c, Deletions(Expired(Owned(c.snapshots), spec.retention, spec.existingSnapshot), faults).events);
            x in Owned(d.snapshots) <==>
            x in Owned(c.snapshots) && (x in Live(Owned(c.snapshots), spec.retention) || IsSource(spec, x))
  {
    var owned := Owned(c.snapshots);
    var expired := Expired(owned, spec.retention, spec.existingSnapshot);
    var d := Replay(c, Deletions(expired, faults).events);
    OwnedIs(c.snapshots);
    OwnedIs(d.snapshots);
    DeletionsRemove(c, expired, faults, x);
    SplitMembers(owned, spec.retention, x);
    ExpiredIs(owned, spec, x);
    if x in owned && x !in expired {
      forall i | 0 <= i < |expired| ensures expired[i].name != x.name {
        ExpiredIs(owned, spec, expired[i]);
        SplitMembers(owned, spec.retention, expired[i]);
        assert expired[i] in expired;
        if expired[i].name == x.name {
          SameNameSameSnapshot(owned, expired[i], x);
        }
      }
    }
    if x in expired {
      var i :| 0 <= i < |expired| && expired[i] == x;
      assert x.name in NamesOf(expired);
    }
  }

  function NamesOf(s: seq<Snapshot>): set<string> { set i | 0 <= i < |s| :: s[i].name }

  lemma {:induction false} CountNames(s: seq<Snapshot>)
    ensures |NamesOf(s)| <= |s|
    ensures UniqueNames(s) ==> |NamesOf(s)| == |s|
    decreases |s|
  {
    if s != [] {
      var n := |s| - 1;
      CountNames(s[..n]);
      NamesOfLast(s);
      if UniqueNames(s) {
        assert s[n].name !in NamesOf(s[..n]);
      }
    }
  }

  /** The restore source is one of the agent's snapshots, outside the window. */
  predicate SourceOutside(spec: Spec, c: State)
  {
    exists i :: 0 <= i < |Owned(c.snapshots)| && IsSource(spec, Owned(c.snapshots)[i])
                && Owned(c.snapshots)[i] !in Live(Owned(c.snapshots), spec.retention)
  }

  /** The names the survivors can have. */
  ghost function Room(spec: Spec, c: State): set<string>
  {
    NamesOf(Live(Owned(c.snapshots), spec.retention)) + if SourceOutside(spec, c) then {spec.existingSnapshot} else {}
  }

  lemma {:induction false} SurvivorHasRoom(spec: Spec, c: State, faults: set<Call>, x: Snapshot)
    requires UniqueNames(c.snapshots)
    requires Deletions(Expired(Owned(c.snapshots), spec.retention, spec.existingSnapshot), faults).stop.None?
    requires x in Owned(Replay(c, Deletions(Expired(Owned(c.snapshots), spec.retention, spec.existingSnapshot), faults).events).snapshots)
    ensures x.name in Room(spec, c)
  {
    var owned := Owned(c.snapshots);
    var live := Live(owned, spec.retention);
    SurvivorsExactly(spec, c, faults, x);
    if x in live {
      var j :| 0 <= j < |live| && live[j] == x;
    } else {
      var j :| 0 <= j < |owned| && owned[j] == x;
      assert SourceOutside(spec, c);
    }
  }

  lemma {:induction false} RoomBounded(spec: Spec, c: State)
    ensures |Room(spec, c)| <= spec.retention + if SourceOutside(spec, c) then 1 else 0
  {
    CountNames(Live(Owned(c.snapshots), spec.retention));
    SplitIsPartition(Owned(c.snapshots), spec.retention);
  }

  lemma {:induction false} SurvivorsBounded(spec: Spec, c: State, faults: set<Call>)
    requires UniqueNames(c.snapshots)
    requires Deletions(Expired(Owned(c.snapshots), spec.retention, spec.existingSnapshot), faults).stop.None?
    ensures var d := Replay(c, Deletions(Expired(Owned(c.snapshots), spec.retention, spec.existingSnapshot), faults).events);
            |Owned(d.snapshots)| <= spec.retention + if SourceOutside(spec, c) then 1 else 0
  {
    var expired := Expired(Owned(c.snapshots), spec.retention, spec.existingSnapshot);
    var d := Replay(c, Deletions(expired, faults).events);
    var left := Owned(d.snapshots);
    DeletionsKeepUnique(c, expired, faults);
    OwnedIs(d.snapshots);
    forall name | name in NamesOf(left) ensures name in Room(spec, c) {
      var i :| 0 <= i < |left| && left[i].name == name;
      SurvivorHasRoom(spec, c, faults, left[i]);
    }
    CountNames(left);
    RoomBounded(spec, c);
    SubsetCardinality(NamesOf(left), Room(spec, c));
  }

  /** After any pass that got to scheduling, at most retention + 1 snapshots of the agent remain, or one more
      while the restore source lies outside the window. */
  lemma {:induction false} PassBounded(spec: Spec, c: State, k: Clock, faults: set<Call>)
    requires UniqueNames(c.snapshots) && Scheduling(spec, c, k, faults)
    ensures |Owned(Replay(c, SnapshotPass(spec, c, k, faults).events).snapshots)|
            <= spec.retention + 1 + if SourceOutside(spec, c) then 1 else 0
  {
    RetainBounded(spec, c, k, faults);
    var r := Retain(spec, c, k, faults);
    var mid := Replay(c, r.events);
    ReplayAppend(c, r.events, Schedule(spec, mid, k, faults).events);
    ScheduleAddsOne(spec, mid, k, faults);
  }

  lemma {:induction false} ScheduleAddsOne(spec: Spec, c: State, k: Clock, faults: set<Call>)
    requires k.next.Some?
    ensures |Owned(Replay(c, Schedule(spec, c, k, faults).events).snapshots)| <= |Owned(c.snapshots)| + 1
  {
    if Due(c, k) {
      TakeOutcome(spec, c, k, faults);
      OwnedSnoc(c.snapshots, SnapshotAt(spec, k));
    }
  }

  lemma {:induction false} RetainBounded(spec: Spec, c: State, k: Clock, faults: set<Call>)
    requires UniqueNames(c.snapshots) && Scheduling(spec, c, k, faults)
    ensures |Owned(Replay(c, Retain(spec, c, k, faults).events).snapshots)|
            <= spec.retention + if SourceOutside(spec, c) then 1 else 0
  {
    var g := Gate(spec, c, k, faults);
    GateKeeps(spec, c, k, faults);
    var expired := Expired(Owned(c.snapshots), spec.retention, spec.existingSnapshot);
    ReplayAppend(c, g.events, Deletions(expired, faults).events);
    SurvivorsBounded(spec, Replay(c, g.events), faults);
  }

  lemma {:induction false} OwnedSnoc(s: seq<Snapshot>, x: Snapshot)
    ensures |Owned(s + [x])| <= |Owned(s)| + 1
    decreases |s|
  {
    if s == [] {
      assert (s + [x])[1..] == [];
    } else {
      assert (s + [x])[0] == s[0] && (s + [x])[1..] == s[1..] + [x];
      OwnedSnoc(s[1..], x);
    }
  }

  // ---- What a pass deletes and writes ----

  lemma {:induction false} DeletionsAre(expired: seq<Snapshot>, faults: set<Call>, e: Event)
    requires e in Deletions(expired, faults).events
    ensures exists x :: x in expired && e == DeleteSnapshot(x.name)
    decreases |expired|
  {
    if expired != [] {
      var n := |expired| - 1;
      if e in Deletions(expired[..n], faults).events {
        DeletionsAre(expired[..n], faults, e);
        var x :| x in expired[..n] && e == DeleteSnapshot(x.name);
        assert x in expired;
      } else {
        assert expired[n] in expired && e == DeleteSnapshot(expired[n].name);
      }
    }
  }

  /** Every snapshot a pass deletes is one of the agent's, not the restore source, and no newer than any
      snapshot of the window it keeps. */
  lemma {:induction false} DeletesOldest(spec: Spec, c: State, k: Clock, faults: set<Call>, e: Event)
    requires e in SnapshotPass(spec, c, k, faults).events && e.DeleteSnapshot?
    ensures exists x :: x in Owned(c.snapshots) && x.name == e.name && !IsSource(spec, x)
                        && forall l :: l in Live(Owned(c.snapshots), spec.retention) ==> x.created <= l.created
  {
    var owned := Owned(c.snapshots);
    var expired := Expired(owned, spec.retention, spec.existingSnapshot);
    ExpiredEvent(spec, c, k, faults, e);
    DeletionsAre(expired, faults, e);
    var x :| x in expired && e == DeleteSnapshot(x.name);
    ExpiredIs(owned, spec, x);
    SplitIsPartition(owned, spec.retention);
    assert x in multiset(Deprecated(owned, spec.retention)) && x in multiset(owned);
    forall l | l in Live(owned, spec.retention) ensures x.created <= l.created {
      DeprecatedIsOlder(owned, spec.retention, x, l);
    }
  }

  lemma {:induction false} ExpiredEvent(spec: Spec, c: State, k: Clock, faults: set<Call>, e: Event)
    requires e in SnapshotPass(spec, c, k, faults).events && e.DeleteSnapshot?
    ensures e in Deletions(Expired(Owned(c.snapshots), spec.retention, spec.existingSnapshot), faults).events
  {
    GateKeeps(spec, c, k, faults);
    var r := Retain(spec, c, k, faults);
    if r.stop.None? && k.next.Some? {
      ScheduleOutcome(spec, Replay(c, r.events), k, faults);
    }
  }

  /** The status written leaves mark and refs alone, or moves the mark to now with refs that are newest first
      and no more than the retention. */
  predicate GoodStatus(before: Status, after: Status, now: int, retention: nat)
  {
    || (after.lastSchedule == before.lastSchedule && after.refs == before.refs)
    || (after.lastSchedule == Some(now) && NewestFirstRefs(after.refs) && |after.refs| <= retention)
  }

  lemma {:induction false} ScheduleWrites(spec: Spec, c: State, k: Clock, faults: set<Call>, e: Event)
    requires k.next.Some? && e in Schedule(spec, c, k, faults).events && e.WriteStatus?
    ensures GoodStatus(c.status, e.status, k.now, spec.retention)
  {
    var snapshot := SnapshotAt(spec, k);
    var created := if Exists(c, snapshot.name) then [] else [CreateSnapshot(snapshot)];
    StatusIsNewestFirst(Owned(Replay(c, created).snapshots), spec.retention);
  }

  lemma {:induction false} RetainWrites(spec: Spec, c: State, k: Clock, faults: set<Call>, e: Event)
    requires e in Retain(spec, c, k, faults).events && e.WriteStatus?
    ensures e.status.lastSchedule == c.status.lastSchedule && e.status.refs == c.status.refs
  {
    var expired := Expired(Owned(c.snapshots), spec.retention, spec.existingSnapshot);
    if e in Deletions(expired, faults).events {
      DeletionsAre(expired, faults, e);
    }
  }

  /** Every status a pass writes is of that kind. */
  lemma {:induction false} StatusWritten(spec: Spec, c: State, k: Clock, faults: set<Call>, e: Event)
    requires e in SnapshotPass(spec, c, k, faults).events && e.WriteStatus?
    ensures GoodStatus(c.status, e.status, k.now, spec.retention)
  {
    var r := Retain(spec, c, k, faults);
    if e in r.events {
      RetainWrites(spec, c, k, faults, e);
    } else {
      var mid := Replay(c, r.events);
      RetainOutcome(spec, c, k, faults);
      ScheduleWrites(spec, mid, k, faults, e);
    }
  }

  // ---- When a pass gets to scheduling, and what it does otherwise ----

  predicate ClaimBound(spec: Spec, c: State)
  {
    DataPVCName(spec) in c.pvcs && c.pvcs[DataPVCName(spec)]
  }

  /** With no failing call, a pass gets to scheduling exactly for an agent that takes snapshots and is not
      suspended, whose data claim is bound, whose schedule parses, and where the API is there. */
  lemma {:induction false} SchedulingExactly(spec: Spec, c: State, k: Clock)
    ensures Scheduling(spec, c, k, {}) <==>
            spec.snapshotting && !spec.suspended && ClaimBound(spec, c) && k.next.Some? && c.crd
  {
    if Gate(spec, c, k, {}).stop.None? {
      DeletionsComplete(Expired(Owned(c.snapshots), spec.retention, spec.existingSnapshot));
    }
  }

  lemma {:induction false} DeletionsComplete(expired: seq<Snapshot>)
    ensures Deletions(expired, {}).stop.None?
    decreases |expired|
  {
    if expired != [] {
      DeletionsComplete(expired[..|expired| - 1]);
    }
  }

  /** Whatever fails, the pass of an agent that takes no snapshots or is suspended neither deletes nor takes
      one: it does nothing at all when suspended, and else at most clears its condition. */
  lemma {:induction false} IdleWhenOff(spec: Spec, c: State, k: Clock, faults: set<Call>)
    requires !spec.snapshotting || spec.suspended
    ensures var s := SnapshotPass(spec, c, k, faults);
            && (forall e :: e in s.events ==> !e.CreateSnapshot? && !e.DeleteSnapshot?)
            && (spec.snapshotting ==> s == Step([], Some(Result(0, false))))
            && (!spec.snapshotting && Unfailed(s) ==>
                  s.stop == Some(Result(0, false)) && Replay(c, s.events) == c.(status := c.status.(unsupported := None)))
  {
    ReplayOne(c, WriteStatus(c.status.(unsupported := None)));
  }

  /** With no failing call, an active agent that is held up waits 30 seconds for its claim, reports a schedule
      that does not parse and tries again in 30 seconds, or reports the missing API and waits for a change. */
  lemma {:induction false} HeldUp(spec: Spec, c: State, k: Clock)
    requires spec.snapshotting && !spec.suspended && !Scheduling(spec, c, k, {})
    ensures var s := SnapshotPass(spec, c, k, {});
            if !ClaimBound(spec, c) then s == Step([], Some(Result(30, false)))
            else if k.next.None? then s == Step([WriteStatus(c.status.(unsupported := Some(InvalidSchedule)))], Some(Result(30, false)))
            else s == Step([WriteStatus(c.status.(unsupported := Some(CRDAbsent)))], Some(Result(0, false)))
  {
    SchedulingExactly(spec, c, k);
  }

  /** A pass that gets to scheduling leaves no such condition. */
  lemma {:induction false} SchedulingClears(spec: Spec, c: State, k: Clock, faults: set<Call>)
    requires Scheduling(spec, c, k, faults)
    ensures Replay(c, Retain(spec, c, k, faults).events).status.unsupported.None?
  {
    RetainOutcome(spec, c, k, faults);
  }

  /** The mark a pass measures from: the last recorded run, or the agent's creation before the first. */
  lemma {:induction false} TakesExactly(slots: iset<int>, spec: Spec, c: State, k: Clock, faults: set<Call>)
    requires k.next.Some? && NextSlot(slots, k.next.value)
    ensures var mark := if c.status.lastSchedule.Some? then c.status.lastSchedule.value else k.created;
            && (k.next.value(mark).Some? ==>
                  (Took(SnapshotPass(spec, c, k, faults).events) <==>
                   Able(Turn(spec, RUNNING, k, faults), c) && SlotIn(slots, mark, k.now)))
            && (k.next.value(mark).None? && Scheduling(spec, c, k, faults) ==>
                  SnapshotPass(spec, c, k, faults).stop == Some(Result(30, false)) && !Took(SnapshotPass(spec, c, k, faults).events))
  {
    PassOutcome(spec, c, k, faults);
    RetainOutcome(spec, c, k, faults);
    if k.next.value(Last(c, k)).Some? {
      DueExactly(slots, c, k);
    }
  }

  /** Snapshots of one claim taken at different times have different names, as long as the times render
      differently. */
  lemma {:induction false} SnapshotNamesDiffer(spec: Spec, k: Clock, k': Clock)
    requires k.stamp(k.now) != k'.stamp(k'.now)
    ensures SnapshotAt(spec, k).name != SnapshotAt(spec, k').name
  {
    var prefix := DataPVCName(spec) + "-";
    assert SnapshotAt(spec, k).name[|prefix|..] == k.stamp(k.now);
    assert SnapshotAt(spec, k').name[|prefix|..] == k'.stamp(k'.now);
  }

  /** The refs recorded with a snapshot are those of the newest `retention` of the agent's snapshots, the new
      one at their head when it is newer than the others. */
  lemma {:induction false} RecordedRefs(spec: Spec, c: State, k: Clock, faults: set<Call>)
    requires k.next.Some? && Due(c, k) && SnapshotCreate !in faults && Records(faults)
    ensures var d := Replay(c, Schedule(spec, c, k, faults).events);
            && d.status.refs == Refs(Live(Owned(d.snapshots), spec.retention))
            && (!Exists(c, SnapshotAt(spec, k).name) && spec.retention > 0 && k.now != ZERO_TIME
                && (forall x :: x in Owned(c.snapshots) ==> x.created < k.now) ==>
                  d.status.refs != [] && d.status.refs[0] == Ref(SnapshotAt(spec, k).name, DataPVCName(spec), k.now))
  {
    var x := SnapshotAt(spec, k);
    var created := if Exists(c, x.name) then [] else [CreateSnapshot(x)];
    var s := Schedule(spec, c, k, faults).events;
    CreatedOutcome(c, CreateSnapshot(x));
    assert s == created + [s[|s| - 1]];
    ReplayAppend(c, created, [s[|s| - 1]]);
    ReplayOne(Replay(c, created), s[|s| - 1]);
    if !Exists(c, x.name) && spec.retention > 0 && k.now != ZERO_TIME && forall y :: y in Owned(c.snapshots) ==> y.created < k.now {
      NewRefFirst(spec, c, k);
    }
  }

  lemma {:induction false} NewRefFirst(spec: Spec, c: State, k: Clock)
    requires spec.retention > 0 && k.now != ZERO_TIME && forall y :: y in Owned(c.snapshots) ==> y.created < k.now
    ensures var refs := Refs(Live(Owned(c.snapshots + [SnapshotAt(spec, k)]), spec.retention));
            refs != [] && refs[0] == Ref(SnapshotAt(spec, k).name, DataPVCName(spec), k.now)
  {
    var x, owned := SnapshotAt(spec, k), Owned(c.snapshots);
    OwnedAppend(c.snapshots, x);
    assert forall i :: 0 <= i < |owned| ==> owned[i] in owned;
    NewestComesFirst(owned, x);
    var live := Live(owned + [x], spec.retention);
    SplitIsPartition(owned + [x], spec.retention);
    assert |owned + [x]| > 0 && live[0] == NewestFirst(owned + [x])[0] == x;
    assert |x.name| > |DataPVCName(spec)|;
    RefsHead(live);
  }

  lemma {:induction false} RefsHead(s: seq<Snapshot>)
    requires s != [] && Listable(s[0])
    ensures Refs(s) != [] && Refs(s)[0] == RefOf(s[0])
    decreases |s|
  {
    if |s| == 1 {
      assert s[..0] == [] && Refs([]) == [];
    } else {
      RefsHead(s[..|s| - 1]);
    }
  }

  lemma {:induction false} OwnedAppend(s: seq<Snapshot>, x: Snapshot)
    requires x.owned
    ensures Owned(s + [x]) == Owned(s) + [x]
    decreases |s|
  {
    if s == [] {
      assert (s + [x])[1..] == [];
    } else {
      assert (s + [x])[0] == s[0] && (s + [x])[1..] == s[1..] + [x];
      OwnedAppend(s[1..], x);
    }
  }

  // ---- Errors are never swallowed ----

  lemma {:induction false} DeletionsUnfailed(expired: seq<Snapshot>, faults: set<Call>)
    requires Unfailed(Deletions(expired, faults))
    ensures Deletions(expired, faults) == Deletions(expired, {}) && Deletions(expired, {}).stop.None?
    decreases |expired|
  {
    if expired != [] {
      DeletionsUnfailed(expired[..|expired| - 1], faults);
    }
  }

  /** The deletions fail exactly when one of their calls does. */
  lemma {:induction false} DeletionsFailExactly(expired: seq<Snapshot>, faults: set<Call>)
    ensures Unfailed(Deletions(expired, faults)) <==> forall x :: x in expired ==> SnapshotDelete(x.name) !in faults
    ensures Deletions(expired, faults).stop.Some? ==> !Unfailed(Deletions(expired, faults))
    decreases |expired|
  {
    if expired != [] {
      var n := |expired| - 1;
      DeletionsFailExactly(expired[..n], faults);
      assert expired == expired[..n] + [expired[n]];
    }
  }

  /** The calls the gate makes when none fails. */
  function GateCalls(spec: Spec, c: State, k: Clock): set<Call>
  {
    var active := spec.snapshotting && !spec.suspended;
    (if active then {DataPVCGet} else {})
    + (if active && ClaimBound(spec, c) && k.next.Some? then {List} else {})
    + (if Gate(spec, c, k, {}).events != [] then {ConditionStatus} else {})
  }

  lemma {:induction false} GateFailsExactly(spec: Spec, c: State, k: Clock, faults: set<Call>)
    ensures Unfailed(Gate(spec, c, k, faults)) <==> faults !! GateCalls(spec, c, k)
  {
  }

  /** A snapshot pass fails exactly when a call it makes fails: those of the gate, then one for every expired
      snapshot, then the create, the second listing and the record when a run is due. */
  lemma {:induction false} SnapshotFailsExactly(spec: Spec, c: State, k: Clock, faults: set<Call>)
    ensures Unfailed(SnapshotPass(spec, c, k, faults)) <==>
            && faults !! GateCalls(spec, c, k)
            && (Gate(spec, c, k, {}).stop.None? ==>
                  && (forall x :: x in Expired(Owned(c.snapshots), spec.retention, spec.existingSnapshot) ==> SnapshotDelete(x.name) !in faults)
                  && (Due(c, k) ==> faults !! {SnapshotCreate, ListAgain, ScheduleStatus}))
  {
    GateFailsExactly(spec, c, k, faults);
    var expired := Expired(Owned(c.snapshots), spec.retention, spec.existingSnapshot);
    DeletionsFailExactly(expired, faults);
    var r := Retain(spec, c, k, faults);
    RetainOutcome(spec, c, k, faults);
    GateKeeps(spec, c, k, faults);
    if faults !! GateCalls(spec, c, k) {
      assert Gate(spec, c, k, faults) == Gate(spec, c, k, {});
      if Gate(spec, c, k, {}).stop.None? && r.stop.None? {
        var mid := Replay(c, r.events);
        assert Last(mid, k) == Last(c, k);
        ScheduleFailsExactly(spec, mid, k, faults);
      }
    }
  }

  lemma {:induction false} ScheduleFailsExactly(spec: Spec, c: State, k: Clock, faults: set<Call>)
    requires k.next.Some?
    ensures Unfailed(Schedule(spec, c, k, faults)) <==> (Due(c, k) ==> faults !! {SnapshotCreate, ListAgain, ScheduleStatus})
  {
  }

  lemma {:induction false} RetainUnfailed(spec: Spec, c: State, k: Clock, faults: set<Call>)
    requires Unfailed(Retain(spec, c, k, faults))
    ensures Retain(spec, c, k, faults) == Retain(spec, c, k, {})
  {
    assert Gate(spec, c, k, faults) == Gate(spec, c, k, {});
    if Gate(spec, c, k, {}).stop.None? {
      DeletionsUnfailed(Expired(Owned(c.snapshots), spec.retention, spec.existingSnapshot), faults);
    }
  }

  lemma {:induction false} ScheduleUnfailed(spec: Spec, c: State, k: Clock, faults: set<Call>)
    requires k.next.Some? && Unfailed(Schedule(spec, c, k, faults))
    ensures Schedule(spec, c, k, faults) == Schedule(spec, c, k, {})
  {
  }

  /** A snapshot pass that reports no error did exactly what it does when no call fails, and without failing
      calls it reports none. */
  lemma {:induction false} SnapshotUnfailed(spec: Spec, c: State, k: Clock, faults: set<Call>)
    ensures Unfailed(SnapshotPass(spec, c, k, {}))
    ensures Unfailed(SnapshotPass(spec, c, k, faults)) ==> SnapshotPass(spec, c, k, faults) == SnapshotPass(spec, c, k, {})
  {
    DeletionsComplete(Expired(Owned(c.snapshots), spec.retention, spec.existingSnapshot));
    if Unfailed(SnapshotPass(spec, c, k, faults)) {
      RetainUnfailed(spec, c, k, faults);
      var r := Retain(spec, c, k, {});
      if r.stop.None? && k.next.Some? {
        ScheduleUnfailed(spec, Replay(c, r.events), k, faults);
      }
    }
  }
}
