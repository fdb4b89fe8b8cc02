/** The resumed-crons step of a distribution profile: a manifest on the data volume records which jobs
    the step resumed, so that a later start can pause those no longer on the allowlist. */
module ResumeCrons {
  import opened Text

  datatype Call = Pause(name: string, ok: bool) | Resume(name: string, ok: bool)

  /** What one pod start sees: the lines of the allowlist and of the declared cron names, the names the job
      store holds an id for, and whether the k-th CLI call of this start succeeds. */
  datatype Start = Start(allowed: seq<string>, declared: seq<string>, jobs: set<string>, cli: nat -> bool)

  predicate Stale(name: string, s: Start)
  {
    name != "" && name !in s.allowed && name !in s.declared && name in s.jobs
  }

  predicate Resumable(name: string, s: Start)
  {
    name != "" && name !in s.declared && name in s.jobs
  }

  function PauseCalls(lines: seq<string>, s: Start, made: nat): seq<Call>
  {
    if lines == [] then []
    else if Stale(lines[0], s) then [Pause(lines[0], s.cli(made))] + PauseCalls(lines[1..], s, made + 1)
    else PauseCalls(lines[1..], s, made)
  }

  lemma {:induction false} PauseCallsAre(lines: seq<string>, s: Start, made: nat)
    ensures forall c :: c in PauseCalls(lines, s, made) ==> c.Pause? && c.name in lines && Stale(c.name, s)
    ensures forall l :: l in lines && Stale(l, s) ==>
              Pause(l, true) in PauseCalls(lines, s, made) || Pause(l, false) in PauseCalls(lines, s, made)
    decreases |lines|
  {
    if lines != [] {
      PauseCallsAre(lines[1..], s, if Stale(lines[0], s) then made + 1 else made);
      assert lines == [lines[0]] + lines[1..];
    }
  }

  function ResumeCalls(lines: seq<string>, s: Start, made: nat): seq<Call>
  {
    if lines == [] then []
    else if Resumable(lines[0], s) then [Resume(lines[0], s.cli(made))] + ResumeCalls(lines[1..], s, made + 1)
    else ResumeCalls(lines[1..], s, made)
  }

  lemma {:induction false} ResumeCallsAre(lines: seq<string>, s: Start, made: nat)
    ensures forall c :: c in ResumeCalls(lines, s, made) ==> c.Resume? && c.name in lines && Resumable(c.name, s)
    decreases |lines|
  {
    if lines != [] {
      ResumeCallsAre(lines[1..], s, if Resumable(lines[0], s) then made + 1 else made);
    }
  }

  /** The names whose pause failed, in call order. */
  function Retry(calls: seq<Call>): seq<string>
  {
    if calls == [] then []
    else if calls[0].Pause? && !calls[0].ok then [calls[0].name] + Retry(calls[1..])
    else Retry(calls[1..])
  }

  lemma {:induction false} RetryIs(calls: seq<Call>)
    ensures forall n :: n in Retry(calls) <==> Pause(n, false) in calls
    decreases |calls|
  {
    if calls != [] {
      RetryIs(calls[1..]);
      assert calls == [calls[0]] + calls[1..];
    }
  }

  /** What the calls of a start can be. */
  lemma {:induction false} CallsAre(manifest: seq<string>, s: Start)
    ensures forall c :: c in Calls(manifest, s) ==>
              if c.Pause? then c.name in manifest && Stale(c.name, s) else c.name in s.allowed && Resumable(c.name, s)
    ensures forall l :: l in manifest && Stale(l, s) ==> Pause(l, true) in Calls(manifest, s) || Pause(l, false) in Calls(manifest, s)
    ensures forall n :: n in NextManifest(manifest, s) <==> (n != "" && n in s.allowed) || Pause(n, false) in Calls(manifest, s)
  {
    var pauses := PauseCalls(manifest, s, 0);
    PauseCallsAre(manifest, s, 0);
    ResumeCallsAre(s.allowed, s, |pauses|);
    RetryIs(pauses);
  }

  function Calls(manifest: seq<string>, s: Start): seq<Call>
  {
    var pauses := PauseCalls(manifest, s, 0);
    pauses + ResumeCalls(s.allowed, s, |pauses|)
  }

  /** The nonblank manifest lines after a start. */
  function NextManifest(manifest: seq<string>, s: Start): seq<string>
  {
    NonBlank(s.allowed) + Retry(PauseCalls(manifest, s, 0))
  }

  // ---- The rendered script ----

  /** The lines of `$(printf '%s\n' names...)`. */
  function Listed(names: seq<string>): seq<string>
  {
    ReadLines(Substitute(Unlines(names)) + "\n")
  }

  lemma {:induction false} PauseCallsSnoc(lines: seq<string>, name: string, s: Start, made: nat)
    ensures var calls := PauseCalls(lines, s, made);
            PauseCalls(lines + [name], s, made) == if Stale(name, s) then calls + [Pause(name, s.cli(made + |calls|))] else calls
    decreases |lines|
  {
    if lines == [] {
      assert (lines + [name])[1..] == [];
    } else {
      assert (lines + [name])[0] == lines[0] && (lines + [name])[1..] == lines[1..] + [name];
      PauseCallsSnoc(lines[1..], name, s, if Stale(lines[0], s) then made + 1 else made);
    }
  }

  lemma {:induction false} ResumeCallsSnoc(lines: seq<string>, name: string, s: Start, made: nat)
    ensures var calls := ResumeCalls(lines, s, made);
            ResumeCalls(lines + [name], s, made) == if Resumable(name, s) then calls + [Resume(name, s.cli(made + |calls|))] else calls
    decreases |lines|
  {
    if lines == [] {
      assert (lines + [name])[1..] == [];
    } else {
      assert (lines + [name])[0] == lines[0] && (lines + [name])[1..] == lines[1..] + [name];
      ResumeCallsSnoc(lines[1..], name, s, if Resumable(lines[0], s) then made + 1 else made);
    }
  }

  lemma {:induction false} RetrySnoc(calls: seq<Call>, c: Call)
    ensures Retry(calls + [c]) == if c.Pause? && !c.ok then Retry(calls) + [c.name] else Retry(calls)
    decreases |calls|
  {
    if calls == [] {
      assert (calls + [c])[1..] == [];
    } else {
      assert (calls + [c])[0] == calls[0] && (calls + [c])[1..] == calls[1..] + [c];
      RetrySnoc(calls[1..], c);
    }
  }

  /** The text of RETRY: a newline before every name. */
  function RetryText(names: seq<string>): string
  {
    if names == [] then "" else RetryText(names[..|names| - 1]) + "\n" + names[|names| - 1]
  }

  lemma {:induction false} ReadRetryText(names: seq<string>)
    requires AllOneLine(names)
    ensures ReadLines(RetryText(names) + "\n") == [""] + names
    decreases |names|
  {
    if names == [] {
      ReadNewline();
      assert "" + "\n" == "\n";
    } else {
      var before, last := names[..|names| - 1], names[|names| - 1];
      var a := RetryText(before) + "\n";
      assert RetryText(names) + "\n" == a + (last + "\n");
      ReadAppend(a, last + "\n");
      assert last + "\n" == last + "\n" + "";
      ReadOne(last, "");
      ReadRetryText(before);
      assert before + [last] == names;
    }
  }

  lemma {:induction false} RetryOneLine(lines: seq<string>, s: Start, made: nat)
    requires AllOneLine(lines)
    ensures AllOneLine(Retry(PauseCalls(lines, s, made)))
    ensures "" !in Retry(PauseCalls(lines, s, made))
  {
    var names := Retry(PauseCalls(lines, s, made));
    PauseCallsAre(lines, s, made);
    RetryIs(PauseCalls(lines, s, made));
    forall i | 0 <= i < |names| ensures OneLine(names[i]) {
      assert names[i] in names;
      assert Pause(names[i], false) in PauseCalls(lines, s, made);
      assert names[i] in lines;
    }
  }

  lemma {:induction false} ManifestText(desired: string, retry: seq<string>)
    requires AllOneLine(retry) && "" !in retry
    ensures NonBlank(ReadLines(desired + "\n" + (RetryText(retry) + "\n"))) ==
            NonBlank(ReadLines(desired + "\n")) + retry
  {
    ReadAppend(desired + "\n", RetryText(retry) + "\n");
    ReadRetryText(retry);
    NonBlankAppend(ReadLines(desired + "\n"), [""] + retry);
    NonBlankAppend([""], retry);
    ReadNewline();
    NonBlankSame(retry);
  }

  /** The in_list tests decide membership among the lines of the two lists. */
  ghost predicate Lists(desired: string, declared: string, s: Start)
  {
    s.allowed == ReadLines(desired + "\n") && s.declared == ReadLines(declared + "\n")
  }

  lemma {:induction false} InListDecides(desired: string, declared: string, name: string, s: Start)
    requires OneLine(name) && Lists(desired, declared, s)
    ensures Stale(name, s) <==> !(name == "" || InList(desired, name) || InList(declared, name) || name !in s.jobs)
    ensures Resumable(name, s) <==> !(name == "" || InList(declared, name) || name !in s.jobs)
  {
    InListIsLine(desired, name);
    InListIsLine(declared, name);
  }

  /** The loop body on one manifest line. */
  method PauseLine(name: string, desired: string, declared: string, s: Start, made: nat) returns (call: Option<Call>)
    requires OneLine(name) && Lists(desired, declared, s)
    ensures call == if Stale(name, s) then Some(Pause(name, s.cli(made))) else None
  {
    InListDecides(desired, declared, name, s);
    if name == "" || InList(desired, name) || InList(declared, name) || name !in s.jobs {
      return None;
    }
    call := Some(Pause(name, s.cli(made)));
  }

  /** The loop over the manifest: pause what is no longer wanted, remember what could not be paused. */
  method PauseLoop(lines: seq<string>, desired: string, declared: string, s: Start)
    returns (calls: seq<Call>, retry: string)
    requires AllOneLine(lines) && Lists(desired, declared, s)
    ensures calls == PauseCalls(lines, s, 0)
    ensures retry == RetryText(Retry(calls))
  {
    calls, retry := [], "";
    ghost var done: seq<string> := [];
    for i := 0 to |lines|
      invariant done == lines[..i] && PauseInvariant(done, s, calls, retry)
    {
      var call := PauseLine(lines[i], desired, declared, s, |calls|);
      PauseStep(done, lines[i], s, calls, retry);
      done := done + [lines[i]];
      if call.Some? {
        retry := if call.value.ok then retry else retry + "\n" + lines[i];
        calls := calls + [call.value];
      }
    }
    assert done == lines;
  }

  ghost predicate PauseInvariant(done: seq<string>, s: Start, calls: seq<Call>, retry: string)
  {
    calls == PauseCalls(done, s, 0) && retry == RetryText(Retry(calls))
  }

  lemma {:induction false} PauseStep(done: seq<string>, name: string, s: Start, calls: seq<Call>, retry: string)
    requires PauseInvariant(done, s, calls, retry)
    ensures if Stale(name, s) then
              var c := Pause(name, s.cli(|calls|));
              PauseInvariant(done + [name], s, calls + [c], if c.ok then retry else retry + "\n" + name)
            else PauseInvariant(done + [name], s, calls, retry)
  {
    PauseCallsSnoc(done, name, s, 0);
    RetrySnoc(calls, Pause(name, s.cli(|calls|)));
  }

  /** The loop body on one line of the allowlist. */
  method ResumeLine(name: string, desired: string, declared: string, s: Start, made: nat) returns (call: Option<Call>)
    requires OneLine(name) && Lists(desired, declared, s)
    ensures call == if Resumable(name, s) then Some(Resume(name, s.cli(made))) else None
  {
    InListDecides(desired, declared, name, s);
    if name == "" || InList(declared, name) || name !in s.jobs {
      return None;
    }
    call := Some(Resume(name, s.cli(made)));
  }

  /** The loop over the allowlist: resume every listed job that no cron declaration owns. */
  method ResumeLoop(wanted: seq<string>, desired: string, declared: string, s: Start, made: nat) returns (calls: seq<Call>)
    requires AllOneLine(wanted) && Lists(desired, declared, s)
    ensures calls == ResumeCalls(wanted, s, made)
  {
    calls := [];
    ghost var done: seq<string> := [];
    for i := 0 to |wanted|
      invariant done == wanted[..i]
      invariant calls == ResumeCalls(done, s, made)
    {
      var call := ResumeLine(wanted[i], desired, declared, s, made + |calls|);
      ResumeCallsSnoc(done, wanted[i], s, made);
      done := done + [wanted[i]];
      if call.Some? {
        calls := calls + [call.value];
      }
    }
    assert done == wanted;
  }

  /** What a start is given: the allowlist and the declared cron names, the job store and the CLI outcomes. */
  datatype Input = Input(allowlist: seq<string>, crons: seq<string>, jobs: set<string>, cli: nat -> bool)

  function StartOf(i: Input): Start { Start(Listed(i.allowlist), Listed(i.crons), i.jobs, i.cli) }

  /** The lines the manifest loop reads. */
  function ManifestLines(manifest: Option<string>): seq<string> { ReadLines(if manifest.Some? then manifest.value else "") }

  function ScriptCalls(manifest: Option<string>, i: Input): seq<Call> { Calls(ManifestLines(manifest), StartOf(i)) }

  /** The manifest text a start leaves. */
  function WrittenText(manifest: Option<string>, i: Input): string
  {
    Substitute(Unlines(i.allowlist)) + "\n" + (RetryText(Retry(PauseCalls(ManifestLines(manifest), StartOf(i), 0))) + "\n")
  }

  /** One run of the script: the CLI calls it makes and the manifest text it writes, for arbitrary names. */
  method RunStart(manifest: Option<string>, i: Input) returns (written: string, calls: seq<Call>)
    ensures calls == ScriptCalls(manifest, i) && written == WrittenText(manifest, i)
  {
    var desired, declared := Substitute(Unlines(i.allowlist)), Substitute(Unlines(i.crons));
    var text := if manifest.Some? then manifest.value else "";
    var s := StartOf(i);
    var lines := ReadLines(text);
    ReadFromOneLine("", text);
    var pauses, retry := PauseLoop(lines, desired, declared, s);
    ReadFromOneLine("", desired + "\n");
    var resumes := ResumeLoop(s.allowed, desired, declared, s, |pauses|);
    calls := pauses + resumes;
    written := desired + "\n" + (retry + "\n");
  }

  /** What the next start reads from the text this one writes: the allowlist and the names to retry. */
  lemma {:induction false} WrittenReadsBack(manifest: Option<string>, i: Input)
    ensures NonBlank(ReadLines(WrittenText(manifest, i))) == NextManifest(ManifestLines(manifest), StartOf(i))
  {
    var lines, s := ManifestLines(manifest), StartOf(i);
    ReadFromOneLine("", if manifest.Some? then manifest.value else "");
    RetryOneLine(lines, s, 0);
    ManifestText(Substitute(Unlines(i.allowlist)), Retry(PauseCalls(lines, s, 0)));
  }

  /** A name is recorded for the next start exactly when it is allowlisted or a pause of it failed. */
  lemma {:induction false} RecordedExactly(manifest: Option<string>, i: Input, name: string)
    requires name != ""
    ensures name in ManifestLines(Some(WrittenText(manifest, i))) <==>
            name in StartOf(i).allowed || Pause(name, false) in ScriptCalls(manifest, i)
  {
    var read := ReadLines(WrittenText(manifest, i));
    WrittenReadsBack(manifest, i);
    CallsAre(ManifestLines(manifest), StartOf(i));
    assert name in read <==> name in NonBlank(read);
  }

  /** A call of the kind on the job is made, whatever its outcome. */
  predicate Paused(calls: seq<Call>, name: string) { Pause(name, true) in calls || Pause(name, false) in calls }

  predicate ResumedIn(calls: seq<Call>, name: string) { Resume(name, true) in calls || Resume(name, false) in calls }

  lemma {:induction false} ResumeCallsMade(lines: seq<string>, s: Start, made: nat, name: string)
    requires name in lines && Resumable(name, s)
    ensures ResumedIn(ResumeCalls(lines, s, made), name)
    decreases |lines|
  {
    if name != lines[0] {
      assert name in lines[1..];
      ResumeCallsMade(lines[1..], s, if Resumable(lines[0], s) then made + 1 else made, name);
    }
  }

  /** For lists of newline-free names: a start pauses exactly the jobs in the store that the manifest records and
      neither list names, and resumes exactly those that the allowlist names and crons does not declare. */
  lemma {:induction false} CallsExactly(manifest: Option<string>, i: Input, name: string)
    requires AllOneLine(i.allowlist) && AllOneLine(i.crons)
    ensures Paused(ScriptCalls(manifest, i), name) <==>
            name != "" && name in ManifestLines(manifest) && name in i.jobs && name !in i.allowlist && name !in i.crons
    ensures ResumedIn(ScriptCalls(manifest, i), name) <==>
            name != "" && name in i.allowlist && name in i.jobs && name !in i.crons
  {
    var lines, s := ManifestLines(manifest), StartOf(i);
    CallsAre(lines, s);
    if name != "" {
      ListedAreNames(i.allowlist, name);
      ListedAreNames(i.crons, name);
    }
    if name in s.allowed && Resumable(name, s) {
      ResumeCallsMade(s.allowed, s, |PauseCalls(lines, s, 0)|, name);
    }
  }

  /** A start pauses before it resumes. */
  lemma {:induction false} PausesFirst(manifest: Option<string>, i: Input, j: nat, k: nat)
    requires j < |ScriptCalls(manifest, i)| && k < |ScriptCalls(manifest, i)|
    requires ScriptCalls(manifest, i)[j].Pause? && ScriptCalls(manifest, i)[k].Resume?
    ensures j < k
  {
    var lines, s := ManifestLines(manifest), StartOf(i);
    var pauses := PauseCalls(lines, s, 0);
    var resumes := ResumeCalls(s.allowed, s, |pauses|);
    PauseCallsAre(lines, s, 0);
    ResumeCallsAre(s.allowed, s, |pauses|);
    assert forall m :: 0 <= m < |pauses| ==> pauses[m] in pauses;
    assert forall m :: 0 <= m < |resumes| ==> resumes[m] in resumes;
  }

  // ---- Runs of any length ----

  /** The manifest file on the data volume, and the jobs the step resumed and has not paused since: a job
      leaves that set when it is paused, declared in crons (that step owns it then) or gone from the store. */
  datatype Disk = Disk(manifest: Option<string>, resumed: set<string>)

  function ResumedAfter(resumed: set<string>, s: Start, calls: seq<Call>): set<string>
  {
    (set n | n in resumed && n in s.jobs && n !in s.declared && Pause(n, true) !in calls)
    + (set c | c in calls && c == Resume(c.name, true) :: c.name)
  }

  function Next(d: Disk, i: Input): Disk
  {
    Disk(Some(WrittenText(d.manifest, i)), ResumedAfter(d.resumed, StartOf(i), ScriptCalls(d.manifest, i)))
  }

  /** A step of a run: a start, or a start of a pod that no longer names the profile. Its cleanup deletes the
      profile, jobs and all, if it can, and then drops the manifest in any case. */
  datatype Step = Begin(input: Input) | Drop(deleted: bool)

  function Dropped(d: Disk, deleted: bool): Disk { Disk(None, if deleted then {} else d.resumed) }

  function StepDisk(d: Disk, step: Step): Disk
  {
    match step
    case Begin(i) => Next(d, i)
    case Drop(deleted) => Dropped(d, deleted)
  }

  /** The CLI calls the step makes on the profile's jobs. */
  function StepCalls(d: Disk, step: Step): seq<Call>
  {
    if step.Begin? then ScriptCalls(d.manifest, step.input) else []
  }

  /** The volumes before the first step and after each step of a run. */
  ghost predicate IsRun(disks: seq<Disk>, steps: seq<Step>)
  {
    |disks| == |steps| + 1 && forall k :: 0 <= k < |steps| ==> disks[k + 1] == StepDisk(disks[k], steps[k])
  }

  /** Every job resumed and not paused since is a line of the manifest. */
  ghost predicate OnRecord(d: Disk)
  {
    forall n :: n in d.resumed ==> n != "" && n in ManifestLines(d.manifest)
  }

  lemma {:induction false} NextKeepsRecord(d: Disk, i: Input)
    requires OnRecord(d)
    ensures OnRecord(Next(d, i))
  {
    CallsAre(ManifestLines(d.manifest), StartOf(i));
    forall n | n in Next(d, i).resumed ensures n != "" && n in ManifestLines(Next(d, i).manifest) {
      assert n != "";
      RecordedExactly(d.manifest, i, n);
    }
  }

  /** Over any sequence of starts with failing pauses and resumes, and of removals of the profile whose
      delete worked, every job the step resumed and has not paused since is in the manifest. */
  lemma {:induction false} ResumedStaysRecorded(disks: seq<Disk>, steps: seq<Step>, n: nat)
    requires IsRun(disks, steps) && n <= |steps| && disks[0] == Disk(None, {})
    requires forall k :: 0 <= k < n ==> steps[k].Drop? ==> steps[k].deleted
    ensures OnRecord(disks[n])
  {
    if n > 0 {
      ResumedStaysRecorded(disks, steps, n - 1);
      if steps[n - 1].Begin? {
        NextKeepsRecord(disks[n - 1], steps[n - 1].input);
      }
    }
  }

  /** Removing the profile keeps the record complete exactly when its delete worked or nothing was resumed. */
  lemma {:induction false} DropExactly(d: Disk, deleted: bool)
    ensures OnRecord(Dropped(d, deleted)) <==> deleted || d.resumed == {}
  {
    assert ManifestLines(None) == [];
    if !deleted && d.resumed != {} {
      var n :| n in d.resumed;
      assert n in Dropped(d, deleted).resumed && n !in ManifestLines(None);
    }
  }

  lemma {:induction false} NextPauses(manifest: Option<string>, i: Input, name: string)
    requires name in ManifestLines(manifest) && Stale(name, StartOf(i))
    ensures Pause(name, true) in ScriptCalls(manifest, i) || Pause(name, false) in ScriptCalls(manifest, i)
    ensures Pause(name, false) in ScriptCalls(manifest, i) <==> name in ManifestLines(Some(WrittenText(manifest, i)))
  {
    CallsAre(ManifestLines(manifest), StartOf(i));
    RecordedExactly(manifest, i, name);
  }

  /** A recorded job that stays off both lists is paused again at every start until a pause succeeds, and
      it leaves the manifest exactly at a start where no pause of it fails. */
  lemma {:induction false} PauseRetriedUntilSuccess(disks: seq<Disk>, steps: seq<Step>, name: string, k: nat)
    requires IsRun(disks, steps) && k < |steps| && name in ManifestLines(disks[0].manifest)
    requires forall i :: 0 <= i <= k ==> steps[i].Begin? && Stale(name, StartOf(steps[i].input))
    requires forall i :: 0 <= i < k ==> Pause(name, true) !in StepCalls(disks[i], steps[i])
    ensures name in ManifestLines(disks[k].manifest)
    ensures var calls := StepCalls(disks[k], steps[k]);
            && (Pause(name, true) in calls || Pause(name, false) in calls)
            && (Pause(name, false) in calls <==> name in ManifestLines(disks[k + 1].manifest))
    decreases k
  {
    if k > 0 {
      PauseRetriedUntilSuccess(disks, steps, name, k - 1);
    }
    NextPauses(disks[k].manifest, steps[k].input, name);
  }

  ghost predicate Untouched(calls: seq<Call>, name: string)
  {
    forall c :: c in calls ==> c.name != name
  }

  lemma {:induction false} NextUntouched(manifest: Option<string>, i: Input, name: string)
    requires name != "" ==> name !in ManifestLines(manifest) && name !in StartOf(i).allowed
    ensures Untouched(ScriptCalls(manifest, i), name)
    ensures name != "" ==> name !in ManifestLines(Some(WrittenText(manifest, i)))
  {
    CallsAre(ManifestLines(manifest), StartOf(i));
    if name != "" {
      RecordedExactly(manifest, i, name);
    }
  }

  lemma {:induction false} StepUntouched(d: Disk, step: Step, name: string)
    requires name != "" ==> name !in ManifestLines(d.manifest)
    requires name != "" && step.Begin? ==> name !in StartOf(step.input).allowed
    ensures Untouched(StepCalls(d, step), name)
    ensures name != "" ==> name !in ManifestLines(StepDisk(d, step).manifest)
  {
    assert ManifestLines(None) == [];
    if step.Begin? {
      NextUntouched(d.manifest, step.input, name);
    }
  }

  /** A job neither in the manifest the run starts from nor on any allowlist is never touched or recorded,
      whatever removals of the profile the run holds. */
  lemma {:induction false} OthersNeverTouched(disks: seq<Disk>, steps: seq<Step>, name: string, n: nat)
    requires IsRun(disks, steps) && n < |steps| && name !in ManifestLines(disks[0].manifest)
    requires forall i :: 0 <= i <= n && steps[i].Begin? ==> name !in StartOf(steps[i].input).allowed
    ensures name != "" ==> name !in ManifestLines(disks[n].manifest)
    ensures Untouched(StepCalls(disks[n], steps[n]), name)
  {
    if n > 0 {
      OthersNeverTouched(disks, steps, name, n - 1);
      StepUntouched(disks[n - 1], steps[n - 1], name);
    }
    StepUntouched(disks[n], steps[n], name);
  }

  /** So a job whose profile was removed and not deleted runs on, and no later start without it on the
      allowlist ever pauses it. */
  lemma {:induction false} FailedDeleteForgets(cli: nat -> bool, disks: seq<Disk>, steps: seq<Step>, n: nat)
    requires cli(0) && IsRun(disks, steps) && 2 <= n < |steps| && disks[0] == Disk(None, {})
    requires steps[0] == Begin(Input(["a"], [], {"a"}, cli)) && steps[1] == Drop(false)
    requires forall i :: 2 <= i <= n ==> steps[i].Begin? ==> steps[i].input.allowlist == []
    ensures "a" in disks[2].resumed && Untouched(StepCalls(disks[n], steps[n]), "a")
  {
    OneResume(cli);
    assert Resume("a", true) in [Resume("a", true)];
    assert disks[1] == StepDisk(disks[0], steps[0]) && disks[2] == StepDisk(disks[1], steps[1]);
    assert ManifestLines(None) == [];
    ListedA();
    OthersNeverTouched(disks[2..], steps[2..], "a", n - 2);
  }

  /** For names without line breaks, which the CRD demands of the allowlist, the lists are the names. */
  lemma ListedAreNames(names: seq<string>, name: string)
    requires AllOneLine(names) && name != ""
    ensures name in Listed(names) <==> name in names
  {
    ListedNames(names);
    assert name in Listed(names) <==> name in NonBlank(Listed(names));
  }

  // ---- Starts that stop midway ----

  /** A start that stops after m of its calls, the pod killed or a job lookup failing under `set -e`: the
      manifest is written last, so it stays as it was. */
  function Stopped(d: Disk, i: Input, m: nat): Disk
    requires m <= |ScriptCalls(d.manifest, i)|
  {
    Disk(d.manifest, ResumedAfter(d.resumed, StartOf(i), ScriptCalls(d.manifest, i)[..m]))
  }

  /** One such stop keeps the record complete exactly when every job it got to resume was in the manifest. */
  lemma {:induction false} StoppedExactly(d: Disk, i: Input, m: nat)
    requires OnRecord(d) && m <= |ScriptCalls(d.manifest, i)|
    ensures OnRecord(Stopped(d, i, m)) <==>
            forall k :: 0 <= k < m && ScriptCalls(d.manifest, i)[k].Resume? && ScriptCalls(d.manifest, i)[k].ok ==>
              ScriptCalls(d.manifest, i)[k].name in ManifestLines(d.manifest)
  {
    var calls := ScriptCalls(d.manifest, i);
    CallsAre(ManifestLines(d.manifest), StartOf(i));
    forall k | 0 <= k < m && calls[k].Resume? && calls[k].ok
      ensures calls[k].name != "" && calls[k].name in Stopped(d, i, m).resumed
    {
      assert calls[k] in calls && calls[k] in calls[..m];
    }
    forall n | n in Stopped(d, i, m).resumed && n !in d.resumed
      ensures exists k :: 0 <= k < m && calls[k] == Resume(n, true)
    {
      assert Resume(n, true) in calls[..m];
    }
  }

  /** Whatever the CLI does and wherever the start stops. */
  ghost predicate StopsSafely(d: Disk, i: Input, cli: nat -> bool, m: nat)
  {
    m <= |ScriptCalls(d.manifest, i.(cli := cli))| ==> OnRecord(Stopped(d, i.(cli := cli), m))
  }

  predicate CallWorks(s: Start, k: nat) { s.cli(k) }

  lemma {:induction false} WorkingCliResumes(lines: seq<string>, s: Start, made: nat, name: string)
    requires (forall k :: CallWorks(s, k)) && name in lines && Resumable(name, s)
    ensures Resume(name, true) in ResumeCalls(lines, s, made)
    decreases |lines|
  {
    assert CallWorks(s, made);
    if name != lines[0] {
      assert name in lines[1..];
      WorkingCliResumes(lines[1..], s, if Resumable(lines[0], s) then made + 1 else made, name);
    }
  }

  /** The allowlisted jobs a start would resume are in the manifest already. */
  ghost predicate NothingNew(d: Disk, i: Input)
  {
    forall n :: n in Listed(i.allowlist) && Resumable(n, StartOf(i)) ==> n in ManifestLines(d.manifest)
  }

  lemma {:induction false} NothingNewIsSafe(d: Disk, i: Input, cli: nat -> bool, m: nat)
    requires OnRecord(d) && NothingNew(d, i)
    ensures StopsSafely(d, i, cli, m)
  {
    var j := i.(cli := cli);
    var calls := ScriptCalls(d.manifest, j);
    if m <= |calls| {
      CallsAre(ManifestLines(d.manifest), StartOf(j));
      forall k | 0 <= k < m && calls[k].Resume? && calls[k].ok ensures calls[k].name in ManifestLines(d.manifest) {
        assert calls[k] in calls;
        assert Resumable(calls[k].name, StartOf(i));
      }
      StoppedExactly(d, j, m);
    }
  }

  lemma {:induction false} SafeIsNothingNew(d: Disk, i: Input, name: string)
    requires OnRecord(d) && (forall cli, m :: StopsSafely(d, i, cli, m))
    requires name in Listed(i.allowlist) && Resumable(name, StartOf(i))
    ensures name in ManifestLines(d.manifest)
  {
    var works: nat -> bool := _ => true;
    var j := i.(cli := works);
    var calls := ScriptCalls(d.manifest, j);
    var pauses := PauseCalls(ManifestLines(d.manifest), StartOf(j), 0);
    WorkingCliResumes(Listed(i.allowlist), StartOf(j), |pauses|, name);
    assert Resume(name, true) in calls;
    assert StopsSafely(d, i, works, |calls|);
    StoppedExactly(d, j, |calls|);
    var k :| 0 <= k < |calls| && calls[k] == Resume(name, true);
  }

  /** A start can stop anywhere, with any outcome of its calls, and keep the record complete, exactly when
      every job on the allowlist that it would resume is in the manifest before it begins. */
  lemma {:induction false} StopsSafelyExactly(d: Disk, i: Input)
    requires OnRecord(d)
    ensures (forall cli, m :: StopsSafely(d, i, cli, m)) <==> NothingNew(d, i)
  {
    if NothingNew(d, i) {
      forall cli, m ensures StopsSafely(d, i, cli, m) {
        NothingNewIsSafe(d, i, cli, m);
      }
    }
    if forall cli, m :: StopsSafely(d, i, cli, m) {
      forall n | n in Listed(i.allowlist) && Resumable(n, StartOf(i)) ensures n in ManifestLines(d.manifest) {
        SafeIsNothingNew(d, i, n);
      }
    }
  }

  /** A first start that is killed after its first resume leaves a running job that no later start without it
      on the allowlist ever pauses. */
  lemma {:induction false} StoppedStartForgets(cli: nat -> bool, disks: seq<Disk>, later: seq<Step>, n: nat)
    requires cli(0) && IsRun(disks, later) && n < |later|
    requires forall i :: 0 <= i <= n && later[i].Begin? ==> later[i].input.allowlist == []
    requires var i := Input(["a"], [], {"a"}, cli);
             |ScriptCalls(None, i)| == 1 && disks[0] == Stopped(Disk(None, {}), i, 1)
    ensures "a" in disks[0].resumed && Untouched(StepCalls(disks[n], later[n]), "a")
  {
    OneResume(cli);
    assert Resume("a", true) in [Resume("a", true)];
    assert ReadLines("") == [];
    ListedA();
    OthersNeverTouched(disks, later, "a", n);
  }

  lemma {:induction false} OneResume(cli: nat -> bool)
    requires cli(0)
    ensures var i := Input(["a"], [], {"a"}, cli);
            ScriptCalls(None, i) == [Resume("a", true)] && ScriptCalls(None, i)[..1] == [Resume("a", true)]
  {
    var i := Input(["a"], [], {"a"}, cli);
    var s := StartOf(i);
    ListedA();
    assert ReadLines("") == [] && ManifestLines(None) == [];
    assert s.allowed[1..] == [];
    assert ResumeCalls([], s, 1) == [];
  }

  lemma {:induction false} ListedA()
    ensures Listed(["a"]) == ["a"] && Listed([]) == [""]
  {
    var none: seq<string> := [];
    assert ["a"][1..] == none && Unlines(none) == "";
    assert Unlines(["a"]) == "a" + "\n" + "" && "a" + "\n" + "" == "a\n";
    assert "a\n"[..1] == "a" && Substitute("a") == "a";
    assert Substitute("a\n") == "a";
    assert "a" + "\n" == "a" + "\n" + "";
    ReadOne("a", "");
    ReadNewline();
    assert "" + "\n" == "\n" && Substitute("") == "";
  }
}
