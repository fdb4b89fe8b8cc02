/** Named profiles installed from a distribution: the record of what was installed decides at every start
    whether to install again. */
module Distribution {
  import opened Text

  /** What a profile directory holds: an operator-created profile, the outcome of a successful install of
      a source at a ref, or what a failed install that was not atomic left behind, with or without its
      distribution.yaml. */
  datatype Content = Created | Installed(source: string, ref: string) | Broken(yaml: bool)

  /** Whether the profile holds a distribution.yaml. */
  predicate HasDistribution(c: Content) { c.Installed? || (c.Broken? && c.yaml) }

  /** The data volume: the profile directories, the operator's `distribution` records and the list of
      profiles it manages. */
  datatype Volume = Volume(profiles: map<string, Content>, records: map<string, string>, managed: Option<string>)

  /** How an install ends: Interrupted means that the profile was installed and the step then stopped, the
      pod killed or the checkout not removable, before it wrote the record. */
  datatype Install = Succeeds | FailsAtomically | FailsHalfway(yaml: bool) | Interrupted

  /** One step of a pod start, or someone deleting a profile by hand inside the pod. */
  datatype Step =
    | Distribute(name: string, source: string, ref: string, install: Install)
    | Create(name: string, ok: bool)
    | Cleanup(desired: seq<string>, deletable: set<string>)
    | DeleteByHand(name: string)

  /** DESIRED: the source and the ref with a tab in between. */
  function Pair(source: string, ref: string): string { source + "\t" + ref }

  /** Neither CRD pattern allows a tab or a line break. */
  predicate ValidPair(source: string, ref: string)
  {
    '\t' !in source && '\t' !in ref && OneLine(source) && OneLine(ref)
  }

  /** The test that skips the install: the record names the desired pair, and the profile is there. */
  predicate UpToDate(v: Volume, name: string, source: string, ref: string)
  {
    && name in v.records && Substitute(v.records[name]) == Pair(source, ref)
    && name in v.profiles && HasDistribution(v.profiles[name])
  }

  predicate Dropped(v: Volume, desired: seq<string>, name: string)
  {
    v.managed.Some? && name != "" && name in ReadLines(v.managed.value) && name !in desired
  }

  function Next(v: Volume, step: Step): Volume
  {
    match step
    case Distribute(name, source, ref, install) =>
      if UpToDate(v, name, source, ref) then v
      else (
        match install
        case Succeeds => v.(profiles := v.profiles[name := Installed(source, ref)], records := v.records[name := Pair(source, ref)])
        case FailsAtomically => v
        case FailsHalfway(yaml) => v.(profiles := v.profiles[name := Broken(yaml)])
        case Interrupted => v.(profiles := v.profiles[name := Installed(source, ref)]))
    case Create(name, ok) =>
      v.(profiles := if ok && name !in v.profiles then v.profiles[name := Created] else v.profiles, records := v.records - {name})
    case Cleanup(desired, deletable) =>
      // a pod without named profiles has no cleanup step
      if desired == [] then v
      else
        Volume(v.profiles - (set n | n in v.profiles && Dropped(v, desired, n) && n in deletable),
               v.records - (set n | n in v.records && Dropped(v, desired, n)),
               Some(Unlines(desired)))
    case DeleteByHand(name) => v.(profiles := v.profiles - {name})
  }

  /** The steps that run `hermes profile install` for a profile. */
  predicate Installs(v: Volume, step: Step, name: string)
  {
    step.Distribute? && step.name == name && !UpToDate(v, name, step.source, step.ref)
  }

  // ---- The scripts ----

  class DataVolume {
    var profiles: map<string, Content>
    var records: map<string, string>
    var managed: Option<string>

    function State(): Volume reads this { Volume(profiles, records, managed) }

    constructor ()
      ensures State() == Volume(map[], map[], None)
    {
      profiles, records, managed := map[], map[], None;
    }

    /** buildProfileDistributionScript, up to the update of an unpinned profile. */
    method RunDistribute(name: string, source: string, ref: string, install: Install) returns (failed: bool)
      modifies this
      ensures State() == Next(old(State()), Distribute(name, source, ref, install))
      ensures failed <==> Installs(old(State()), Distribute(name, source, ref, install), name) && install != Succeeds
    {
      failed := false;
      if name in records && Substitute(records[name]) == Pair(source, ref) && name in profiles && HasDistribution(profiles[name]) {
        return;
      }
      if install.FailsHalfway? {
        profiles := profiles[name := Broken(install.yaml)];
      }
      if install.FailsHalfway? || install == FailsAtomically {
        failed := true;
        return;
      }
      profiles := profiles[name := Installed(source, ref)];
      if install == Interrupted {
        failed := true;
        return;
      }
      records := records[name := Pair(source, ref)];
    }

    /** buildProfileCreationScript: `hermes profile create || true`, then drop the record. */
    method RunCreate(name: string, ok: bool)
      modifies this
      ensures State() == Next(old(State()), Create(name, ok))
    {
      if ok && name !in profiles {
        profiles := profiles[name := Created];
      }
      records := records - {name};
    }

    /** The cleanup of a start: buildProfilesCleanupScript, the loop over the list the previous start wrote,
        when there are profiles at all. */
    method RunCleanup(desired: seq<string>, deletable: set<string>)
      modifies this
      ensures State() == Next(old(State()), Cleanup(desired, deletable))
    {
      if desired == [] {
        return;
      }
      if managed.Some? {
        var lines := ReadLines(managed.value);
        for i := 0 to |lines|
          invariant managed == old(managed)
          invariant profiles == old(profiles) - (set n | n in lines[..i] && n != "" && n !in desired && n in deletable)
          invariant records == old(records) - (set n | n in lines[..i] && n != "" && n !in desired)
        {
          assert lines[..i + 1] == lines[..i] + [lines[i]];
          if lines[i] == "" || lines[i] in desired {
            continue;
          }
          if lines[i] in deletable {
            profiles := profiles - {lines[i]};
          }
          records := records - {lines[i]};
        }
        assert lines[..|lines|] == lines;
      }
      managed := Some(Unlines(desired));
    }
  }

  // ---- What the records say, over any run ----

  lemma {:induction false} PairInjective(s: string, r: string, s': string, r': string)
    requires ValidPair(s, r) && ValidPair(s', r') && Pair(s, r) == Pair(s', r')
    ensures s == s' && r == r'
  {
    var p := Pair(s, r);
    assert p[|s|] == '\t' && p[|s'|] == '\t';
    assert forall i :: 0 <= i < |s| ==> p[i] == s[i];
    assert forall i :: 0 <= i < |s'| ==> p[i] == s'[i];
    assert |s| == |s'|;
    assert p[..|s|] == s && p[..|s|] == s' && p[|s| + 1..] == r && p[|s| + 1..] == r';
  }

  /** Whenever a record names a pair and its profile is present, the last install of that profile that
      succeeded came from that pair. */
  ghost predicate Truthful(v: Volume)
  {
    forall n, s, r :: ValidPair(s, r) && UpToDate(v, n, s, r) ==> v.profiles[n] == Installed(s, r)
  }

  /** Steps whose pairs the CRD accepts and whose installs are all or nothing, the record included. */
  predicate Atomic(step: Step)
  {
    step.Distribute? ==> ValidPair(step.source, step.ref) && step.install in {Succeeds, FailsAtomically}
  }

  lemma {:induction false} NextTruthful(v: Volume, step: Step)
    requires Truthful(v) && Atomic(step)
    ensures Truthful(Next(v, step))
  {
    var w := Next(v, step);
    forall n, s, r | ValidPair(s, r) && UpToDate(w, n, s, r) ensures w.profiles[n] == Installed(s, r) {
      if step.Distribute? && n == step.name && w.records != v.records {
        PairInjective(s, r, step.source, step.ref);
      } else if step.Distribute? && n == step.name && w.profiles != v.profiles {
        PairInjective(s, r, step.source, step.ref);
      } else {
        assert UpToDate(v, n, s, r);
      }
    }
  }

  function Run(v: Volume, steps: seq<Step>, n: nat): Volume
    requires n <= |steps|
  {
    if n == 0 then v else Next(Run(v, steps, n - 1), steps[n - 1])
  }

  /** Over any interleaving of starts, pin edits, atomically failing installs, deletions by hand and switches
      to and from plain profiles, the records stay truthful. */
  lemma {:induction false} RecordsStayTruthful(steps: seq<Step>, n: nat)
    requires n <= |steps| && forall i :: 0 <= i < |steps| ==> Atomic(steps[i])
    ensures Truthful(Run(Volume(map[], map[], None), steps, n))
  {
    if n > 0 {
      RecordsStayTruthful(steps, n - 1);
      NextTruthful(Run(Volume(map[], map[], None), steps, n - 1), steps[n - 1]);
    }
  }

  /** Whether a step leaves an installed profile and its desired pair alone. */
  predicate Leaves(step: Step, name: string, source: string, ref: string)
  {
    match step
    case Distribute(n, s, r, _) => n == name ==> s == source && r == ref
    case Create(n, _) => n != name
    case Cleanup(desired, _) => desired == [] || name in desired
    case DeleteByHand(n) => n != name
  }

  /** Once installed, a pinned profile is never installed again while its pair does not change and nobody
      takes the profile away, whatever happens to the other profiles. */
  lemma {:induction false} PinnedInstallsOnce(v: Volume, steps: seq<Step>, n: nat, name: string, source: string, ref: string)
    requires n < |steps| && UpToDate(v, name, source, ref)
    requires forall i :: 0 <= i <= n ==> Leaves(steps[i], name, source, ref)
    ensures UpToDate(Run(v, steps, n), name, source, ref) && !Installs(Run(v, steps, n), steps[n], name)
  {
    if n > 0 {
      PinnedInstallsOnce(v, steps, n - 1, name, source, ref);
      assert Run(v, steps, n) == Next(Run(v, steps, n - 1), steps[n - 1]);
    }
  }

  /** A failed install that is not atomic keeps the records truthful exactly when it left no distribution.yaml
      or the profile had no record of a valid pair: with both, going back to that pair would skip the install
      over a broken profile. */
  lemma {:induction false} HalfwayFailureExactly(v: Volume, name: string, source: string, ref: string, yaml: bool)
    requires Truthful(v) && !UpToDate(v, name, source, ref)
    ensures Truthful(Next(v, Distribute(name, source, ref, FailsHalfway(yaml)))) <==>
            !(yaml && name in v.records && exists s, r :: ValidPair(s, r) && Substitute(v.records[name]) == Pair(s, r))
  {
    var w := Next(v, Distribute(name, source, ref, FailsHalfway(yaml)));
    if yaml && name in v.records && exists s, r :: ValidPair(s, r) && Substitute(v.records[name]) == Pair(s, r) {
      var s, r :| ValidPair(s, r) && Substitute(v.records[name]) == Pair(s, r);
      assert UpToDate(w, name, s, r);
    } else {
      forall n, s, r | ValidPair(s, r) && UpToDate(w, n, s, r) ensures w.profiles[n] == Installed(s, r) {
        assert n != name;
        assert UpToDate(v, n, s, r);
      }
    }
  }

  /** An install that was interrupted before its record keeps the records truthful exactly when no record of
      another valid pair was there. */
  lemma {:induction false} InterruptionExactly(v: Volume, name: string, source: string, ref: string)
    requires Truthful(v) && !UpToDate(v, name, source, ref)
    ensures Truthful(Next(v, Distribute(name, source, ref, Interrupted))) <==>
            !(name in v.records && exists s, r :: ValidPair(s, r) && Substitute(v.records[name]) == Pair(s, r) && (s, r) != (source, ref))
  {
    var w := Next(v, Distribute(name, source, ref, Interrupted));
    if name in v.records && exists s, r :: ValidPair(s, r) && Substitute(v.records[name]) == Pair(s, r) && (s, r) != (source, ref) {
      var s, r :| ValidPair(s, r) && Substitute(v.records[name]) == Pair(s, r) && (s, r) != (source, ref);
      assert UpToDate(w, name, s, r);
    } else {
      forall n, s, r | ValidPair(s, r) && UpToDate(w, n, s, r) ensures w.profiles[n] == Installed(s, r) {
        assert n != name ==> UpToDate(v, n, s, r);
      }
    }
  }

  /** Such runs exist: a profile pinned at one ref, an install of a second ref that breaks or is interrupted,
      and the first pin again, which skips the install over what the second one left. */
  lemma {:induction false} OldPinSkipsInstall(install: Install)
    requires install in {FailsHalfway(true), Interrupted}
    ensures var steps := [Distribute("p", "s", "1", Succeeds), Distribute("p", "s", "2", install), Distribute("p", "s", "1", Succeeds)];
            var v := Run(Volume(map[], map[], None), steps, 2);
            && v.profiles["p"] != Installed("s", "1") && !Installs(v, steps[2], "p") && !Truthful(v)
  {
    var steps := [Distribute("p", "s", "1", Succeeds), Distribute("p", "s", "2", install), Distribute("p", "s", "1", Succeeds)];
    assert Pair("s", "1")[2] != Pair("s", "2")[2];
    var start := Volume(map[], map[], None);
    assert Run(start, steps, 0) == start;
    assert Run(start, steps, 1) == Next(start, steps[0]);
    var v := Run(start, steps, 2);
    assert ValidPair("s", "1") && UpToDate(v, "p", "s", "1");
  }

  // ---- Removed profiles ----

  /** A present, deletable profile that the list names and the spec no longer does is gone after the next
      start's cleanup exactly when the spec still has some profile. */
  lemma {:induction false} RemovedExactly(v: Volume, desired: seq<string>, deletable: set<string>, name: string)
    requires Dropped(v, desired, name) && name in v.profiles && name in deletable
    ensures name !in Next(v, Cleanup(desired, deletable)).profiles <==> desired != []
  {
  }

  /** Removing the last profile leaves it there. */
  lemma {:induction false} LastProfileStays(content: Content)
    ensures var v := Volume(map["a" := content], map[], Some("a\n"));
            Dropped(v, [], "a") && "a" in Next(v, Cleanup([], {"a"})).profiles
  {
    assert "a\n" == "a" + "\n" + "";
    ReadOne("a", "");
    assert ReadLines("a\n") == ["a"] + ReadLines("");
  }

  /** But it stays on the list: however many starts without profiles follow, the first one that has some
      other profile removes it. */
  lemma {:induction false} RemovalIsOnlyLate(v: Volume, steps: seq<Step>, n: nat, desired: seq<string>, deletable: set<string>, name: string)
    requires n <= |steps| && forall i :: 0 <= i < n ==> steps[i].Cleanup? && steps[i].desired == []
    requires Dropped(v, desired, name) && desired != [] && name in v.profiles && name in deletable
    ensures name in Run(v, steps, n).profiles && name !in Next(Run(v, steps, n), Cleanup(desired, deletable)).profiles
  {
    RunOfEmptyStarts(v, steps, n);
    RemovedExactly(v, desired, deletable, name);
  }

  lemma {:induction false} RunOfEmptyStarts(v: Volume, steps: seq<Step>, n: nat)
    requires n <= |steps| && forall i :: 0 <= i < n ==> steps[i].Cleanup? && steps[i].desired == []
    ensures Run(v, steps, n) == v
  {
    if n > 0 {
      RunOfEmptyStarts(v, steps, n - 1);
    }
  }

  // ---- The list over runs ----

  /** The profiles of the latest start that had any. */
  function LastNamed(steps: seq<Step>, n: nat): seq<string>
    requires n <= |steps|
  {
    if n == 0 then []
    else if steps[n - 1].Cleanup? && steps[n - 1].desired != [] then steps[n - 1].desired
    else LastNamed(steps, n - 1)
  }

  function ListLines(v: Volume): seq<string> { ReadLines(if v.managed.Some? then v.managed.value else "") }

  ghost predicate OneLineNames(steps: seq<Step>)
  {
    forall i :: 0 <= i < |steps| ==> steps[i].Cleanup? ==> AllOneLine(steps[i].desired)
  }

  lemma {:induction false} NextList(v: Volume, step: Step)
    requires step.Cleanup? ==> AllOneLine(step.desired)
    ensures ListLines(Next(v, step)) == if step.Cleanup? && step.desired != [] then step.desired else ListLines(v)
  {
    if step.Cleanup? && step.desired != [] {
      ReadUnlines(step.desired);
    }
  }

  /** Over any run from an empty volume, the list reads back as the profiles of the latest start that had any. */
  lemma {:induction false} ListNamesLatest(steps: seq<Step>, n: nat)
    requires n <= |steps| && OneLineNames(steps)
    ensures ListLines(Run(Volume(map[], map[], None), steps, n)) == LastNamed(steps, n)
  {
    if n == 0 {
      assert ReadLines("") == [];
    } else {
      ListNamesLatest(steps, n - 1);
      NextList(Run(Volume(map[], map[], None), steps, n - 1), steps[n - 1]);
    }
  }

  /** A start that has profiles removes exactly the deletable ones that the latest start with profiles named
      and it does not name, and the records of all of those; every other profile and record stays. */
  lemma {:induction false} CleanupExactly(steps: seq<Step>, n: nat, name: string)
    requires n < |steps| && OneLineNames(steps) && steps[n].Cleanup? && steps[n].desired != []
    ensures var before, after := Run(Volume(map[], map[], None), steps, n), Run(Volume(map[], map[], None), steps, n + 1);
            var dropped := name != "" && name in LastNamed(steps, n) && name !in steps[n].desired;
            && (name in after.profiles <==> name in before.profiles && !(dropped && name in steps[n].deletable))
            && (name in after.profiles ==> after.profiles[name] == before.profiles[name])
            && (name in after.records <==> name in before.records && !dropped)
            && (name in after.records ==> after.records[name] == before.records[name])
  {
    ListNamesLatest(steps, n);
    var before := Run(Volume(map[], map[], None), steps, n);
    assert before.managed.None? ==> ListLines(before) == [];
  }

  /** A profile off the list that no start names is never removed by a cleanup: one that the operator never
      named, and one whose delete failed when it was dropped. */
  lemma {:induction false} UnlistedStays(v: Volume, steps: seq<Step>, n: nat, name: string)
    requires n <= |steps| && OneLineNames(steps) && name in v.profiles && name !in ListLines(v)
    requires forall i :: 0 <= i < n ==> (steps[i].Cleanup? ==> name !in steps[i].desired) && steps[i] != DeleteByHand(name)
    ensures name in Run(v, steps, n).profiles && name !in ListLines(Run(v, steps, n))
  {
    if n > 0 {
      UnlistedStays(v, steps, n - 1, name);
      var before := Run(v, steps, n - 1);
      NextList(before, steps[n - 1]);
      assert before.managed.Some? ==> ListLines(before) == ReadLines(before.managed.value);
    }
  }

  /** So a dropped profile is removed at the start that drops it or never: after a delete that failed it stays
      for as long as no start names it again. */
  lemma {:induction false} RemovalNotRetried(v: Volume, desired: seq<string>, deletable: set<string>, steps: seq<Step>, n: nat, name: string)
    requires Dropped(v, desired, name) && desired != [] && AllOneLine(desired) && name in v.profiles
    requires n <= |steps| && OneLineNames(steps)
    requires forall i :: 0 <= i < n ==>
      (steps[i].Cleanup? ==> name !in steps[i].desired) && steps[i] != DeleteByHand(name)
      && (steps[i].Create? || steps[i].Distribute? ==> steps[i].name != name)
    ensures name in Run(Next(v, Cleanup(desired, deletable)), steps, n).profiles <==> name !in deletable
  {
    var w := Next(v, Cleanup(desired, deletable));
    NextList(v, Cleanup(desired, deletable));
    if name in deletable {
      AbsentStays(w, steps, n, name);
    } else {
      UnlistedStays(w, steps, n, name);
    }
  }

  lemma {:induction false} AbsentStays(v: Volume, steps: seq<Step>, n: nat, name: string)
    requires n <= |steps| && name !in v.profiles
    requires forall i :: 0 <= i < n ==> steps[i].Create? || steps[i].Distribute? ==> steps[i].name != name
    ensures name !in Run(v, steps, n).profiles
  {
    if n > 0 {
      AbsentStays(v, steps, n - 1, name);
    }
  }

  // ---- What single steps must do ----

  /** A successful install leaves the profile installed from the pair, on record, and not to be installed again;
      an install runs exactly when the record differs or the profile or its distribution.yaml is gone. */
  lemma {:induction false} InstallExactly(v: Volume, name: string, source: string, ref: string)
    requires ValidPair(source, ref)
    ensures Installs(v, Distribute(name, source, ref, Succeeds), name) <==>
            !(name in v.records && Substitute(v.records[name]) == source + "\t" + ref && name in v.profiles && !v.profiles[name].Created?
              && v.profiles[name] != Broken(false))
    ensures var w := Next(v, Distribute(name, source, ref, Succeeds));
            UpToDate(w, name, source, ref) && (Installs(v, Distribute(name, source, ref, Succeeds), name) ==> w.profiles[name] == Installed(source, ref))
  {
  }

  /** A profile deleted by hand is installed again, whatever its record says. */
  lemma {:induction false} DeletedIsReinstalled(v: Volume, name: string, source: string, ref: string, install: Install)
    ensures Installs(Next(v, DeleteByHand(name)), Distribute(name, source, ref, install), name)
  {
  }

  /** Creating a plain profile never touches one that is there, and forgets its distribution: adding any
      distribution back installs it. */
  lemma {:induction false} CreateForgets(v: Volume, name: string, ok: bool, source: string, ref: string, install: Install)
    ensures var w := Next(v, Create(name, ok));
            && (name in v.profiles ==> w.profiles == v.profiles)
            && (name !in v.profiles ==> w.profiles == if ok then v.profiles[name := Created] else v.profiles)
            && Installs(w, Distribute(name, source, ref, install), name)
  {
  }
}
