/** Workspace files: the ConfigMap key codec and the manifest-driven copy step of every pod start. */
module Workspace {
  import opened Text

  // ---- Path codec ----

  /** `strings.ReplaceAll(path, "/", "--")`, and the `sed 's|/|--|g'` of the script. */
  function Encode(path: string): string
  {
    if path == "" then "" else (if path[0] == '/' then "--" else [path[0]]) + Encode(path[1..])
  }

  /** `sed 's/--/\//g'`: leftmost occurrences first, not overlapping. */
  function Decode(key: string): string
  {
    if key == "" then ""
    else if |key| >= 2 && key[0] == '-' && key[1] == '-' then "/" + Decode(key[2..])
    else [key[0]] + Decode(key[1..])
  }

  predicate KeepsDash(path: string, i: nat)
    requires i + 1 < |path|
  {
    path[i] == '-' ==> path[i + 1] != '-' && path[i + 1] != '/'
  }

  /** No `-` is immediately followed by `-` or `/`. */
  predicate Codable(path: string)
  {
    forall i :: 0 <= i < |path| - 1 ==> KeepsDash(path, i)
  }

  lemma {:induction false} CodableCons(path: string)
    requires path != ""
    ensures Codable(path) <==> (path[0] == '-' && |path| > 1 ==> path[1] != '-' && path[1] != '/') && Codable(path[1..])
  {
    var rest := path[1..];
    assert forall i :: 0 <= i < |rest| - 1 ==> (KeepsDash(rest, i) <==> KeepsDash(path, i + 1));
    assert |path| > 1 ==> (KeepsDash(path, 0) <==> (path[0] == '-' ==> path[1] != '-' && path[1] != '/'));
    if Codable(rest) {
      forall i | 1 <= i < |path| - 1 ensures KeepsDash(path, i) {
        assert KeepsDash(rest, i - 1);
      }
    }
  }

  /** Decoding a key gives back its path exactly on the codable paths. */
  lemma {:induction false} RoundTripExactly(path: string)
    ensures Decode(Encode(path)) == path <==> Codable(path)
    decreases |path|
  {
    if path != "" {
      var rest := path[1..];
      var e := Encode(rest);
      CodableCons(path);
      RoundTripExactly(rest);
      assert path == [path[0]] + rest;
      if path[0] == '/' {
        assert Encode(path) == "--" + e;
        assert ("--" + e)[2..] == e;
        assert Decode(Encode(path)) == "/" + Decode(e);
        SameHead('/', Decode(e), rest);
      } else {
        assert Encode(path) == [path[0]] + e;
        assert ([path[0]] + e)[1..] == e;
        if path[0] == '-' && rest != "" && (rest[0] == '-' || rest[0] == '/') {
          assert e[0] == '-';
          assert Decode(Encode(path))[0] == '/';
        } else {
          assert rest != "" && path[0] == '-' ==> e[0] == rest[0];
          assert Decode(Encode(path)) == [path[0]] + Decode(e);
          SameHead(path[0], Decode(e), rest);
        }
      }
    }
  }

  lemma {:induction false} SameHead(c: char, a: string, b: string)
    ensures [c] + a == [c] + b <==> a == b
  {
    assert ([c] + a)[1..] == a && ([c] + b)[1..] == b;
  }

  /** Hence the keys of distinct codable paths never collide. */
  lemma KeysNeverCollide(p: string, q: string)
    requires Codable(p) && Codable(q) && Encode(p) == Encode(q)
    ensures p == q
  {
    RoundTripExactly(p);
    RoundTripExactly(q);
  }

  /** Outside that domain they can: `a/b` and `a--b` share a key. */
  lemma CollisionOutsideDomain()
    ensures Encode("a/b") == Encode("a--b") && !Codable("a--b")
  {
    assert "a/b"[1..] == "/b" && "/b"[1..] == "b" && "b"[1..] == "";
    assert "a--b"[1..] == "--b" && "--b"[1..] == "-b" && "-b"[1..] == "b";
    assert Encode("b") == "b" && Encode("/b") == "--b" && Encode("-b") == "-b" && Encode("--b") == "--b";
    assert !KeepsDash("a--b", 1);
  }

  lemma {:induction false} EncodeHasNoSlash(path: string)
    ensures '/' !in Encode(path)
    decreases |path|
  {
    if path != "" {
      EncodeHasNoSlash(path[1..]);
    }
  }

  /** No key decodes to a path outside the domain. */
  lemma {:induction false} DecodesToCodable(key: string)
    requires '/' !in key
    ensures Codable(Decode(key))
    decreases |key|
  {
    if key != "" {
      var path := Decode(key);
      if |key| >= 2 && key[0] == '-' && key[1] == '-' {
        DecodesToCodable(key[2..]);
        assert path[1..] == Decode(key[2..]);
      } else {
        DecodesToCodable(key[1..]);
        assert path[1..] == Decode(key[1..]);
        assert |key| > 1 && key[0] == '-' ==> path[1] == key[1];
      }
      CodableCons(path);
    }
  }

  // ---- The declared files and their ConfigMap ----

  ghost predicate AllCodable(declared: map<string, string>) { forall p :: p in declared ==> Codable(p) }

  /** File paths the operator can manage: codable, one line, and naming a file. */
  ghost predicate Manageable(declared: map<string, string>)
  {
    forall p :: p in declared ==> Codable(p) && OneLine(p) && p != ""
  }

  /** What the bootstrap ConfigMap should hold: under the key of every declared file, its content. */
  ghost predicate Holds(data: map<string, string>, declared: map<string, string>)
  {
    && (forall p :: p in declared ==> Encode(p) in data && data[Encode(p)] == declared[p])
    && (forall k :: k in data ==> Decode(k) in declared && k == Encode(Decode(k)))
  }

  /** Whatever the paths, every declared file has a key, and every key holds a declared file of that key. */
  ghost predicate Covers(data: map<string, string>, declared: map<string, string>)
  {
    && (forall p :: p in declared ==> Encode(p) in data)
    && (forall k :: k in data ==> exists p :: p in declared && Encode(p) == k && data[k] == declared[p])
  }

  lemma {:induction false} CoversHolds(data: map<string, string>, declared: map<string, string>)
    requires Covers(data, declared) && AllCodable(declared)
    ensures Holds(data, declared)
  {
    forall k | k in data ensures Decode(k) in declared && k == Encode(Decode(k)) && data[k] == declared[Decode(k)] {
      var p :| p in declared && Encode(p) == k && data[k] == declared[p];
      RoundTripExactly(p);
    }
    forall p | p in declared ensures data[Encode(p)] == declared[p] {
      RoundTripExactly(p);
    }
  }

  /** The loop over the files map, whose iteration order is arbitrary: of two files that share a key, either
      may win; on codable paths every file gets its own key. */
  method BuildWorkspaceData(declared: map<string, string>) returns (data: map<string, string>)
    ensures Covers(data, declared)
    ensures AllCodable(declared) ==> Holds(data, declared)
  {
    data := map[];
    var todo := declared.Keys;
    while todo != {}
      invariant todo <= declared.Keys
      invariant forall p :: p in declared && p !in todo ==> Encode(p) in data
      invariant forall k :: k in data ==> exists p :: p in declared && Encode(p) == k && data[k] == declared[p]
    {
      var path :| path in todo;
      data := data[Encode(path) := declared[path]];
      todo := todo - {path};
    }
    if AllCodable(declared) {
      CoversHolds(data, declared);
    }
  }

  // ---- One pod start ----

  function RemoveStale(files: map<string, string>, managed: seq<string>, bootstrap: map<string, string>): map<string, string>
  {
    files - (set m | m in managed && m != "" && Encode(m) !in bootstrap)
  }

  /** Copying the listed keys one by one; a later key wins. */
  function CopyAll(files: map<string, string>, listing: seq<string>, bootstrap: map<string, string>): map<string, string>
    requires forall k :: k in listing ==> k in bootstrap
  {
    if listing == [] then files
    else
      var k := listing[|listing| - 1];
      CopyAll(files, listing[..|listing| - 1], bootstrap)[Decode(k) := bootstrap[k]]
  }

  function DecodeAll(listing: seq<string>): (paths: seq<string>)
    ensures |paths| == |listing| && forall i :: 0 <= i < |paths| ==> paths[i] == Decode(listing[i])
  {
    seq(|listing|, i requires 0 <= i < |listing| => Decode(listing[i]))
  }

  /** The files of the agent's profile home and the manifest text beside it. */
  datatype Disk = Disk(files: map<string, string>, manifest: Option<string>)

  /** The lines a start reads from the manifest. */
  function Managed(d: Disk): seq<string> { ReadLines(if d.manifest.Some? then d.manifest.value else "") }

  /** What one start does: remove what the manifest names and the ConfigMap lacks, copy the rest, rewrite the
      manifest. */
  function StartDisk(d: Disk, bootstrap: map<string, string>, listing: seq<string>): Disk
    requires forall k :: k in listing ==> k in bootstrap
  {
    Disk(CopyAll(RemoveStale(d.files, Managed(d), bootstrap), listing, bootstrap), Some(Unlines(DecodeAll(listing))))
  }

  /** The persistent data volume. */
  class Volume {
    var files: map<string, string>
    var manifest: Option<string>

    function Contents(): Disk reads this { Disk(files, manifest) }

    constructor (files: map<string, string>)
      ensures this.files == files && manifest == None
    {
      this.files, manifest := files, None;
    }

    /** Delete the files that were managed and are no longer in the ConfigMap. */
    method RemoveOutdated(managed: seq<string>, bootstrap: map<string, string>)
      modifies this
      ensures files == RemoveStale(old(files), managed, bootstrap) && manifest == old(manifest)
    {
      for i := 0 to |managed|
        invariant files == RemoveStale(old(files), managed[..i], bootstrap) && manifest == old(manifest)
      {
        assert managed[..i + 1] == managed[..i] + [managed[i]];
        if managed[i] != "" && Encode(managed[i]) !in bootstrap {
          files := files - {managed[i]};
        }
      }
      assert managed[..|managed|] == managed;
    }

    /** Copy every key and write the new manifest. */
    method CopyFiles(bootstrap: map<string, string>, listing: seq<string>)
      requires forall k :: k in listing ==> k in bootstrap
      modifies this
      ensures files == CopyAll(old(files), listing, bootstrap) && manifest == Some(Unlines(DecodeAll(listing)))
    {
      var updated := "";
      for i := 0 to |listing|
        invariant files == CopyAll(old(files), listing[..i], bootstrap)
        invariant updated == Unlines(DecodeAll(listing[..i]))
      {
        var key := listing[i];
        assert listing[..i + 1][..i] == listing[..i];
        files := files[Decode(key) := bootstrap[key]];
        assert DecodeAll(listing[..i + 1]) == DecodeAll(listing[..i]) + [Decode(key)];
        UnlinesSnoc(DecodeAll(listing[..i]), Decode(key));
        updated := updated + (Decode(key) + "\n");
      }
      assert listing[..|listing|] == listing;
      manifest := Some(updated);
    }

    /** The workspace step of one start, over the mounted ConfigMap keys in glob order. */
    method Start(bootstrap: map<string, string>, listing: seq<string>)
      requires forall k :: k in listing ==> k in bootstrap
      modifies this
      ensures Contents() == StartDisk(old(Contents()), bootstrap, listing)
    {
      if manifest.Some? {
        RemoveOutdated(ReadLines(manifest.value), bootstrap);
      } else {
        assert ReadLines("") == [] && files == RemoveStale(files, [], bootstrap);
      }
      CopyFiles(bootstrap, listing);
    }
  }

  // ---- Runs of starts and spec edits ----

  datatype State = State(files: map<string, string>, managed: set<string>)

  /** A start in one line: drop what was managed and is no longer declared, then write the declared files. */
  function Next(st: State, declared: map<string, string>): State
  {
    State((st.files - (st.managed - declared.Keys)) + declared, declared.Keys)
  }

  lemma {:induction false} CopyAllWrites(files: map<string, string>, listing: seq<string>,
                                         bootstrap: map<string, string>, declared: map<string, string>)
    requires Holds(bootstrap, declared) && forall k :: k in listing ==> k in bootstrap
    ensures var r := CopyAll(files, listing, bootstrap);
            forall p :: if p in DecodeAll(listing) then p in declared && p in r && r[p] == declared[p]
                        else (p in r <==> p in files) && (p in r ==> r[p] == files[p])
    decreases |listing|
  {
    if listing != [] {
      var n := |listing| - 1;
      var k := listing[n];
      CopyAllWrites(files, listing[..n], bootstrap, declared);
      assert DecodeAll(listing) == DecodeAll(listing[..n]) + [Decode(k)];
      assert k in listing && bootstrap[k] == declared[Decode(k)];
    }
  }

  lemma {:induction false} ListedPaths(declared: map<string, string>, bootstrap: map<string, string>, listing: seq<string>)
    requires AllCodable(declared) && Holds(bootstrap, declared)
    requires forall k :: k in listing <==> k in bootstrap
    ensures forall p :: p in DecodeAll(listing) <==> p in declared
  {
    var paths := DecodeAll(listing);
    forall p | p in declared ensures p in paths {
      RoundTripExactly(p);
      assert Encode(p) in listing;
      var i :| 0 <= i < |listing| && listing[i] == Encode(p);
      assert paths[i] == p;
    }
    forall i | 0 <= i < |paths| ensures paths[i] in declared {
      assert listing[i] in bootstrap;
    }
  }

  lemma {:induction false} StaleIsUndeclared(st: State, lines: seq<string>, declared: map<string, string>, bootstrap: map<string, string>)
    requires Holds(bootstrap, declared)
    requires forall m :: m in lines <==> m in st.managed
    requires forall m :: m in st.managed ==> Codable(m) && m != ""
    ensures RemoveStale(st.files, lines, bootstrap) == st.files - (st.managed - declared.Keys)
  {
    forall m | m in lines ensures Encode(m) in bootstrap <==> m in declared {
      RoundTripExactly(m);
    }
    assert (set m | m in lines && m != "" && Encode(m) !in bootstrap) == st.managed - declared.Keys;
  }

  /** The script run on the ConfigMap of codable files is that one line. */
  lemma {:induction false} ScriptFiles(st: State, lines: seq<string>, declared: map<string, string>,
                                       bootstrap: map<string, string>, listing: seq<string>)
    requires AllCodable(declared) && Holds(bootstrap, declared)
    requires forall k :: k in listing <==> k in bootstrap
    requires forall m :: m in lines <==> m in st.managed
    requires forall m :: m in st.managed ==> Codable(m) && m != ""
    ensures CopyAll(RemoveStale(st.files, lines, bootstrap), listing, bootstrap) == Next(st, declared).files
  {
    StaleIsUndeclared(st, lines, declared, bootstrap);
    var kept := st.files - (st.managed - declared.Keys);
    CopiesDeclared(kept, declared, bootstrap, listing);
  }

  lemma {:induction false} CopiesDeclared(files: map<string, string>, declared: map<string, string>,
                                          bootstrap: map<string, string>, listing: seq<string>)
    requires AllCodable(declared) && Holds(bootstrap, declared)
    requires forall k :: k in listing <==> k in bootstrap
    ensures CopyAll(files, listing, bootstrap) == files + declared
  {
    ListedPaths(declared, bootstrap, listing);
    CopyAllWrites(files, listing, bootstrap, declared);
  }

  /** And its manifest text reads back as exactly the declared paths. */
  lemma {:induction false} ManifestNamesDeclared(declared: map<string, string>, bootstrap: map<string, string>, listing: seq<string>)
    requires Manageable(declared) && Holds(bootstrap, declared)
    requires forall k :: k in listing <==> k in bootstrap
    ensures forall m :: m in ReadLines(Unlines(DecodeAll(listing))) <==> m in declared
  {
    var paths := DecodeAll(listing);
    ListedPaths(declared, bootstrap, listing);
    forall i | 0 <= i < |paths| ensures OneLine(paths[i]) { assert paths[i] in declared; }
    ReadUnlines(paths);
  }

  // ---- Runs of the script ----

  /** What one start finds mounted: the ConfigMap built from the declared files, and its keys in glob order. */
  datatype Boot = Boot(declared: map<string, string>, data: map<string, string>, listing: seq<string>)

  ghost predicate Mounted(b: Boot)
  {
    Covers(b.data, b.declared) && forall k :: k in b.listing <==> k in b.data
  }

  /** A step of a run: a start, or a start of a pod that no longer names the profile. Its cleanup deletes the
      profile, files and all, if it can, and then drops the manifest in any case. */
  datatype Step = Begin(boot: Boot) | Drop(deleted: bool)

  function Dropped(d: Disk, deleted: bool): Disk { Disk(if deleted then map[] else d.files, None) }

  /** The step numbered k takes one volume to the next. */
  ghost predicate StepsAt(disks: seq<Disk>, steps: seq<Step>, k: nat)
    requires |disks| == |steps| + 1 && k < |steps|
  {
    match steps[k]
    case Begin(b) => Mounted(b) && disks[k + 1] == StartDisk(disks[k], b.data, b.listing)
    case Drop(deleted) => disks[k + 1] == Dropped(disks[k], deleted)
  }

  /** The volumes before the first step and after each. */
  ghost predicate IsRun(disks: seq<Disk>, steps: seq<Step>)
  {
    |disks| == |steps| + 1 && forall k :: 0 <= k < |steps| ==> StepsAt(disks, steps, k)
  }

  /** The profile since it was last created: the files found then, the paths declared since, and the files
      declared by the latest start. */
  datatype Life = Life(found: map<string, string>, ever: set<string>, now: map<string, string>)

  function LifeStep(l: Life, step: Step): Life
  {
    match step
    case Begin(b) => Life(l.found, l.ever + b.declared.Keys, b.declared)
    case Drop(_) => Life(map[], {}, map[])
  }

  function LifeAfter(files: map<string, string>, steps: seq<Step>, n: nat): Life
    requires n <= |steps|
  {
    if n == 0 then Life(files, {}, map[]) else LifeStep(LifeAfter(files, steps, n - 1), steps[n - 1])
  }

  function ManagedPaths(d: Disk): set<string> { set m | m in Managed(d) }

  /** The files are those found, without every path ever managed, and the files declared now: a path ever
      managed is present exactly when it is declared now, with the declared content, and every other path is
      as it was. The manifest names the declared paths. */
  ghost predicate Follows(d: Disk, l: Life)
  {
    d.files == (l.found - l.ever) + l.now && ManagedPaths(d) == l.now.Keys
  }

  ghost predicate Sound(l: Life) { l.now.Keys <= l.ever && Manageable(l.now) }

  lemma {:induction false} MergeForgets(files: map<string, string>, ever: set<string>, was: map<string, string>, now: map<string, string>)
    requires was.Keys <= ever
    ensures (((files - ever) + was) - (was.Keys - now.Keys)) + now == (files - (ever + now.Keys)) + now
  {
  }

  lemma {:induction false} StartFiles(d: Disk, l: Life, b: Boot)
    requires Follows(d, l) && Sound(l) && Holds(b.data, b.declared) && Mounted(b) && Manageable(b.declared)
    ensures StartDisk(d, b.data, b.listing).files == (l.found - (l.ever + b.declared.Keys)) + b.declared
  {
    assert forall m :: m in Managed(d) <==> m in ManagedPaths(d);
    ScriptFiles(State(d.files, l.now.Keys), Managed(d), b.declared, b.data, b.listing);
    MergeForgets(l.found, l.ever, l.now, b.declared);
  }

  lemma {:induction false} StartPaths(d: Disk, b: Boot)
    requires Holds(b.data, b.declared) && Mounted(b) && Manageable(b.declared)
    ensures ManagedPaths(StartDisk(d, b.data, b.listing)) == b.declared.Keys
  {
    ManifestNamesDeclared(b.declared, b.data, b.listing);
  }

  lemma {:induction false} StartFollows(d: Disk, l: Life, b: Boot)
    requires Follows(d, l) && Sound(l) && Mounted(b) && Manageable(b.declared)
    ensures Follows(StartDisk(d, b.data, b.listing), LifeStep(l, Begin(b)))
  {
    CoversHolds(b.data, b.declared);
    StartFiles(d, l, b);
    StartPaths(d, b);
  }

  /** A start with manageable files, or a removal whose delete worked. */
  ghost predicate Tame(step: Step) { if step.Begin? then Manageable(step.boot.declared) else step.deleted }

  lemma {:induction false} FollowsNext(disks: seq<Disk>, steps: seq<Step>, l: Life, n: nat)
    requires IsRun(disks, steps) && n < |steps| && Tame(steps[n]) && Follows(disks[n], l) && Sound(l)
    ensures Follows(disks[n + 1], LifeStep(l, steps[n])) && Sound(LifeStep(l, steps[n]))
  {
    assert StepsAt(disks, steps, n);
    if steps[n].Begin? {
      StartFollows(disks[n], l, steps[n].boot);
    }
  }

  /** After any sequence of starts of the script, each reading the manifest text the one before wrote, of edits
      of manageable files and of removals of the profile whose delete worked, the volume follows the
      declarations. */
  lemma {:induction false} FilesFollowDeclarations(files: map<string, string>, disks: seq<Disk>, steps: seq<Step>, n: nat)
    requires IsRun(disks, steps) && n <= |steps| && disks[0] == Disk(files, None)
    requires forall i :: 0 <= i < |steps| ==> Tame(steps[i])
    ensures Follows(disks[n], LifeAfter(files, steps, n)) && Sound(LifeAfter(files, steps, n))
  {
    if n == 0 {
    } else {
      FilesFollowDeclarations(files, disks, steps, n - 1);
      FollowsNext(disks, steps, LifeAfter(files, steps, n - 1), n - 1);
    }
  }

  // ---- Removed and added again ----

  lemma {:induction false} StartAfterDrop(d: Disk, deleted: bool, b: Boot)
    requires Mounted(b) && Manageable(b.declared)
    ensures StartDisk(Dropped(d, deleted), b.data, b.listing).files == Dropped(d, deleted).files + b.declared
  {
    var files := Dropped(d, deleted).files;
    CoversHolds(b.data, b.declared);
    assert ReadLines("") == [];
    ScriptFiles(State(files, {}), [], b.declared, b.data, b.listing);
    assert files - ({} - b.declared.Keys) == files;
  }

  /** When a removed profile is added again, every file managed before that is not declared now is gone exactly
      when the delete worked or there is no such file. */
  lemma {:induction false} DropExactly(d: Disk, l: Life, deleted: bool, b: Boot)
    requires Follows(d, l) && Mounted(b) && Manageable(b.declared)
    ensures (forall p :: p in l.now && p !in b.declared ==> p !in StartDisk(Dropped(d, deleted), b.data, b.listing).files)
            <==> deleted || l.now.Keys <= b.declared.Keys
  {
    StartAfterDrop(d, deleted, b);
    var files := StartDisk(Dropped(d, deleted), b.data, b.listing).files;
    if !deleted {
      forall p | p in l.now ensures p in files {
        assert p in d.files;
      }
    }
  }

  lemma {:induction false} CopiesOnlyDecoded(listing: seq<string>, bootstrap: map<string, string>, p: string)
    requires forall k :: k in listing ==> k in bootstrap
    requires p in CopyAll(map[], listing, bootstrap)
    ensures exists k :: k in listing && Decode(k) == p
    decreases |listing|
  {
    if listing != [] && p != Decode(listing[|listing| - 1]) {
      CopiesOnlyDecoded(listing[..|listing| - 1], bootstrap, p);
    }
  }

  lemma {:induction false} FirstStartWrites(b: Boot)
    requires Mounted(b) && AllCodable(b.declared)
    ensures CopyAll(map[], b.listing, b.data) == b.declared
  {
    CoversHolds(b.data, b.declared);
    CopiesDeclared(map[], b.declared, b.data, b.listing);
    assert map[] + b.declared == b.declared;
  }

  lemma {:induction false} FirstStartWritesCodable(b: Boot, p: string)
    requires Mounted(b) && p in CopyAll(map[], b.listing, b.data)
    ensures Codable(p)
  {
    CopiesOnlyDecoded(b.listing, b.data, p);
    var k :| k in b.listing && Decode(k) == p;
    var q :| q in b.declared && Encode(q) == k && b.data[k] == b.declared[q];
    EncodeHasNoSlash(q);
    DecodesToCodable(k);
  }

  /** The domain is exact: a first start on an empty volume writes the declared files exactly when all their
      paths are codable. */
  lemma {:induction false} FirstStartExactly(b: Boot)
    requires Mounted(b)
    ensures StartDisk(Disk(map[], None), b.data, b.listing).files == b.declared <==> AllCodable(b.declared)
  {
    assert RemoveStale(map[], ReadLines(""), b.data) == map[];
    if AllCodable(b.declared) {
      FirstStartWrites(b);
    }
    if CopyAll(map[], b.listing, b.data) == b.declared {
      forall p | p in b.declared ensures Codable(p) {
        FirstStartWritesCodable(b, p);
      }
    }
  }

  function OneFile(p: string, content: string): Boot
  {
    Boot(map[p := content], map[Encode(p) := content], [Encode(p)])
  }

  lemma {:induction false} OneCopied(k: string, bootstrap: map<string, string>)
    requires k in bootstrap
    ensures CopyAll(map[], [k], bootstrap) == map[Decode(k) := bootstrap[k]]
  {
    assert [k][..0] == [] && CopyAll(map[], [], bootstrap) == map[];
  }

  lemma {:induction false} OneFileWritten(p: string, content: string)
    requires Codable(p)
    ensures StartDisk(Disk(map[], None), OneFile(p, content).data, OneFile(p, content).listing).files == map[p := content]
  {
    var b := OneFile(p, content);
    RoundTripExactly(p);
    OneCopied(Encode(p), b.data);
    assert ReadLines("") == [] && RemoveStale(map[], [], b.data) == map[];
  }

  /** A profile with one file, removed with a delete that failed and added again without it: the file is still
      there, undeclared and on no manifest. */
  lemma {:induction false} FailedDeleteLeavesFile(p: string, content: string)
    requires Codable(p)
    ensures var d := StartDisk(Disk(map[], None), OneFile(p, content).data, OneFile(p, content).listing);
            var e := StartDisk(Dropped(d, false), map[], []);
            p in e.files && Managed(e) == []
  {
    OneFileWritten(p, content);
  }

  /** Outside it the declared file is not there: `a--b` arrives as `a/b`. */
  lemma {:induction false} UncodableArrivesElsewhere(content: string)
    ensures var b := Boot(map["a--b" := content], map[Encode("a--b") := content], [Encode("a--b")]);
            var files := StartDisk(Disk(map[], None), b.data, b.listing).files;
            Mounted(b) && "a--b" !in files && "a/b" in files
  {
    var b := Boot(map["a--b" := content], map[Encode("a--b") := content], [Encode("a--b")]);
    CollisionOutsideDomain();
    RoundTripExactly("a/b");
    assert Decode(Encode("a--b")) == "a/b";
    assert RemoveStale(map[], [], b.data) == map[] && ReadLines("") == [];
    assert b.listing[..0] == [] && CopyAll(map[], [], b.data) == map[];
    assert CopyAll(map[], b.listing, b.data) == map["a/b" := content];
    assert |"a/b"| != |"a--b"|;
    assert "a--b" in b.declared && b.declared["a--b"] == content;
  }
}
