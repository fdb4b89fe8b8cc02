/** How the bundled providers and the extra secrets of the spec resolve against the keys of the credentials
    Secret. */
module Resolution {
  import opened Text
  import opened Egress

  // ---- Merging the bundled providers with the extra secrets ----

  function Names(specs: seq<Secret>): (names: seq<string>)
    ensures |names| == |specs| && forall i :: 0 <= i < |names| ==> names[i] == specs[i].name
  {
    seq(|specs|, i requires 0 <= i < |specs| => specs[i].name)
  }

  /** The names in order of first appearance. */
  function FirstSeen(names: seq<string>): (r: seq<string>)
    ensures forall n :: n in r <==> n in names
  {
    if names == [] then []
    else
      var before, n := FirstSeen(names[..|names| - 1]), names[|names| - 1];
      if n in before then before else before + [n]
  }

  lemma {:induction false} FirstSeenOnce(names: seq<string>)
    ensures Distinct(FirstSeen(names))
    decreases |names|
  {
    if names != [] {
      FirstSeenOnce(names[..|names| - 1]);
    }
  }

  /** The last entry with a name. */
  function Latest(specs: seq<Secret>, name: string): (s: Secret)
    requires name in Names(specs)
    ensures s.name == name && s in specs
  {
    var last := specs[|specs| - 1];
    if last.name == name then last
    else
      assert Names(specs) == Names(specs[..|specs| - 1]) + [last.name];
      Latest(specs[..|specs| - 1], name)
  }

  /** Every name once, where it first appeared, with the entry that came last: a provider keeps its place
      but takes the content of an extra secret of its name, and new extras follow in order. */
  function Merged(specs: seq<Secret>): (r: seq<Secret>)
    ensures |r| == |FirstSeen(Names(specs))|
    ensures forall i :: 0 <= i < |r| ==> r[i] == Latest(specs, FirstSeen(Names(specs))[i])
  {
    var names := FirstSeen(Names(specs));
    seq(|names|, i requires 0 <= i < |names| => Latest(specs, names[i]))
  }

  lemma {:induction false} NamesSnoc(specs: seq<Secret>, s: Secret)
    ensures Names(specs + [s]) == Names(specs) + [s.name]
    ensures FirstSeen(Names(specs + [s])) ==
            if s.name in Names(specs) then FirstSeen(Names(specs)) else FirstSeen(Names(specs)) + [s.name]
  {
    assert Names(specs + [s]) == Names(specs) + [s.name];
    assert (Names(specs) + [s.name])[..|specs|] == Names(specs);
  }

  lemma {:induction false} LatestSnoc(specs: seq<Secret>, s: Secret, name: string)
    requires name in Names(specs) || name == s.name
    ensures name in Names(specs + [s])
    ensures Latest(specs + [s], name) == if name == s.name then s else Latest(specs, name)
  {
    NamesSnoc(specs, s);
    assert (specs + [s])[..|specs|] == specs;
  }

  lemma {:induction false} MergedSnocAt(specs: seq<Secret>, s: Secret, i: int, k: nat)
    requires if s.name in Names(specs) then 0 <= i < |Merged(specs)| && Merged(specs)[i].name == s.name else i == -1
    requires k < |Merged(specs + [s])| && k <= |Merged(specs)|
    ensures var was := Merged(specs);
            Merged(specs + [s])[k] == if k == i || k == |was| then s else was[k]
  {
    var names, was := FirstSeen(Names(specs + [s])), Merged(specs);
    NamesSnoc(specs, s);
    FirstSeenOnce(Names(specs + [s]));
    LatestSnoc(specs, s, names[k]);
    if i >= 0 && k != i {
      assert names[k] == was[k].name && names[i] == was[i].name;
    }
  }

  lemma {:induction false} MergedSnoc(specs: seq<Secret>, s: Secret, i: int)
    requires if s.name in Names(specs) then 0 <= i < |Merged(specs)| && Merged(specs)[i].name == s.name else i == -1
    ensures Merged(specs + [s]) == if i >= 0 then Merged(specs)[i := s] else Merged(specs) + [s]
  {
    NamesSnoc(specs, s);
    var want := if i >= 0 then Merged(specs)[i := s] else Merged(specs) + [s];
    forall k | 0 <= k < |Merged(specs + [s])| ensures Merged(specs + [s])[k] == want[k] {
      MergedSnocAt(specs, s, i, k);
    }
  }

  lemma {:induction false} MergedDistinct(specs: seq<Secret>)
    requires Distinct(Names(specs))
    ensures Merged(specs) == specs
    decreases |specs|
  {
    if specs != [] {
      var n := |specs| - 1;
      var before, s := specs[..n], specs[n];
      assert specs == before + [s];
      assert Names(before) == Names(specs)[..n];
      MergedDistinct(before);
      assert s.name !in Names(before);
      MergedSnoc(before, s, -1);
    }
  }

  /** slices.IndexFunc by name: the first index, or -1. */
  method IndexOfName(specs: seq<Secret>, name: string) returns (i: int)
    ensures -1 <= i < |specs|
    ensures i >= 0 ==> specs[i].name == name
    ensures i < 0 ==> forall j :: 0 <= j < |specs| ==> specs[j].name != name
  {
    for j := 0 to |specs|
      invariant forall k :: 0 <= k < j ==> specs[k].name != name
    {
      if specs[j].name == name {
        return j;
      }
    }
    i := -1;
  }

  /** One extra secret: over the entry of its name, or at the end. */
  method MergeOne(specs: seq<Secret>, s: Secret, ghost done: seq<Secret>) returns (merged: seq<Secret>)
    requires specs == Merged(done)
    ensures merged == Merged(done + [s])
  {
    var i := IndexOfName(specs, s.name);
    MergeStep(specs, done, s, i);
    merged := if i >= 0 then specs[i := s] else specs + [s];
  }

  /** The clone of the provider table with the extras written over it or appended. */
  method MergeSpecs(providers: seq<Secret>, extra: seq<Secret>) returns (specs: seq<Secret>)
    requires Distinct(Names(providers))
    ensures specs == Merged(providers + extra)
  {
    specs := providers;
    MergedDistinct(providers);
    ghost var done := providers;
    for k := 0 to |extra|
      invariant done == providers + extra[..k]
      invariant specs == Merged(done)
    {
      specs := MergeOne(specs, extra[k], done);
      done := done + [extra[k]];
    }
    assert extra[..|extra|] == extra;
  }

  lemma {:induction false} MergeStep(specs: seq<Secret>, done: seq<Secret>, s: Secret, i: int)
    requires specs == Merged(done) && -1 <= i < |specs|
    requires i >= 0 ==> specs[i].name == s.name
    requires i < 0 ==> forall j :: 0 <= j < |specs| ==> specs[j].name != s.name
    ensures (if i >= 0 then specs[i := s] else specs + [s]) == Merged(done + [s])
  {
    MergedNames(done, s.name);
    MergedSnoc(done, s, i);
  }

  lemma {:induction false} MergedNames(specs: seq<Secret>, name: string)
    ensures name in Names(specs) <==> exists i :: 0 <= i < |Merged(specs)| && Merged(specs)[i].name == name
  {
    var names := FirstSeen(Names(specs));
    if name in Names(specs) {
      assert name in names;
      var i :| 0 <= i < |names| && names[i] == name;
      assert Merged(specs)[i].name == name;
    }
  }

  /** The bundled provider table. */
  const PROVIDERS: seq<Secret> := [
    Secret("OPENROUTER_API_KEY", ["openrouter.ai", "*.openrouter.ai"], [], []),
    Secret("OPENAI_API_KEY", ["api.openai.com"], [], []),
    Secret("GROQ_API_KEY", ["api.groq.com"], [], []),
    Secret("TOGETHER_API_KEY", ["api.together.xyz"], [], []),
    Secret("DEEPSEEK_API_KEY", ["api.deepseek.com"], [], []),
    Secret("MISTRAL_API_KEY", ["api.mistral.ai"], [], []),
    Secret("XAI_API_KEY", ["api.x.ai"], [], []),
    Secret("NOUS_API_KEY", ["inference.nousresearch.com"], [], []),
    Secret("ANTHROPIC_API_KEY", ["api.anthropic.com"], ["x-api-key", "Authorization"], []),
    Secret("AZURE_OPENAI_API_KEY", ["*.openai.azure.com", "*.cognitiveservices.azure.com", "*.services.ai.azure.com"],
           ["api-key", "Authorization"], []),
    Secret("GEMINI_API_KEY", ["generativelanguage.googleapis.com"], ["x-goog-api-key"], ["GOOGLE_API_KEY"])
  ]

  /** Its names are told apart by their length and first letter. */
  lemma ProviderNamesDistinct()
    ensures Distinct(Names(PROVIDERS))
  {
    var names := Names(PROVIDERS);
    forall i, j | 0 <= i < j < |names| ensures names[i] != names[j] {
      assert |names[i]| != |names[j]| || names[i][0] != names[j][0];
    }
  }

  // ---- Resolution ----

  /** The first env name that is a key of the credentials Secret, or "". */
  function FirstPresent(names: seq<string>, keys: seq<string>): (k: string)
    ensures k != "" ==> exists i :: 0 <= i < |names| && names[i] == k && k in keys && forall j :: 0 <= j < i ==> names[j] !in keys
    ensures k == "" && "" !in names ==> forall n :: n in names ==> n !in keys
  {
    if names == [] then "" else if names[0] in keys then names[0]
    else
      var k := FirstPresent(names[1..], keys);
      assert k != "" ==> exists i :: 0 <= i < |names| && names[i] == k && k in keys && forall j :: 0 <= j < i ==> names[j] !in keys by {
        if k != "" {
          var i :| 0 <= i < |names[1..]| && names[1..][i] == k && k in keys && forall j :: 0 <= j < i ==> names[1..][j] !in keys;
          assert names[i + 1] == k;
          forall j | 0 <= j < i + 1 ensures names[j] !in keys {
            if j > 0 { assert names[1..][j - 1] == names[j]; }
          }
        }
      }
      k
  }

  function SourceKey(s: Secret, keys: seq<string>): string { FirstPresent(EnvNames(s), keys) }

  /** The specs whose credential is in the Secret, with the key that holds it. */
  function Present(specs: seq<Secret>, keys: seq<string>): seq<Credential>
  {
    if specs == [] then []
    else
      var s := specs[|specs| - 1];
      Present(specs[..|specs| - 1], keys) + if SourceKey(s, keys) == "" then [] else [Credential(s, SourceKey(s, keys))]
  }

  /** An extra secret that no key of the Secret backs. */
  predicate Unbacked(s: Secret, extra: seq<Secret>, keys: seq<string>)
  {
    s.name in Names(extra) && SourceKey(s, keys) == ""
  }

  predicate MissingExtra(specs: seq<Secret>, extra: seq<Secret>, keys: seq<string>)
  {
    exists i :: 0 <= i < |specs| && Unbacked(specs[i], extra, keys)
  }

  datatype Resolution = Resolved(creds: seq<Credential>) | Missing(name: string) | Conflict(error: ClaimError)

  function FirstMissing(specs: seq<Secret>, extra: seq<Secret>, keys: seq<string>): (r: Option<string>)
    ensures r.Some? <==> MissingExtra(specs, extra, keys)
  {
    if specs == [] then None
    else if Unbacked(specs[0], extra, keys) then Some(specs[0].name)
    else
      assert forall i :: 1 <= i < |specs| ==> specs[i] == specs[1..][i - 1];
      FirstMissing(specs[1..], extra, keys)
  }

  /** What resolution should give: the first missing extra secret, else the first conflict among the present
      entries of the merged table, else those entries. */
  function Resolve(providers: seq<Secret>, extra: seq<Secret>, keys: seq<string>): Resolution
  {
    var specs := Merged(providers + extra);
    var missing := FirstMissing(specs, extra, keys);
    var conflict := FirstConflict(Present(specs, keys), 0, map[]);
    if missing.Some? then Missing(missing.value)
    else if conflict.Some? then Conflict(conflict.value)
    else Resolved(Present(specs, keys))
  }

  /** ResolveCredentials: fails exactly when an extra secret is missing or two claims conflict, and else
      returns the present entries of the merged table. */
  method ResolveCredentials(providers: seq<Secret>, extra: seq<Secret>, keys: seq<string>) returns (r: Resolution)
    requires Distinct(Names(providers))
    ensures r == Resolve(providers, extra, keys)
    ensures r.Missing? <==> MissingExtra(Merged(providers + extra), extra, keys)
    ensures r.Conflict? <==> !r.Missing? && !Unambiguous(Present(Merged(providers + extra), keys))
    ensures r.Resolved? ==> r.creds == Present(Merged(providers + extra), keys) && Unambiguous(r.creds)
  {
    var specs := MergeSpecs(providers, extra);
    var missing, creds := FilterPresent(specs, extra, keys);
    if missing.Some? {
      return Missing(missing.value);
    }
    var error := CheckCredentialClaims(creds);
    r := if error.Some? then Conflict(error.value) else Resolved(creds);
  }

  /** The loop over the merged specs: keep what is present, stop at an extra secret that is not. */
  method FilterPresent(specs: seq<Secret>, extra: seq<Secret>, keys: seq<string>) returns (missing: Option<string>, creds: seq<Credential>)
    ensures missing == FirstMissing(specs, extra, keys)
    ensures missing.None? ==> creds == Present(specs, keys)
  {
    creds := [];
    assert specs[0..] == specs;
    for i := 0 to |specs|
      invariant creds == Present(specs[..i], keys)
      invariant FirstMissing(specs, extra, keys) == FirstMissing(specs[i..], extra, keys)
    {
      PresentPrefix(specs, keys, i);
      assert specs[i..][0] == specs[i] && specs[i..][1..] == specs[i + 1..];
      var k := SourceKey(specs[i], keys);
      if k != "" {
        creds := creds + [Credential(specs[i], k)];
      } else if specs[i].name in Names(extra) {
        return Some(specs[i].name), creds;
      }
    }
    assert specs[..|specs|] == specs;
    missing := None;
  }

  lemma {:induction false} PresentPrefix(specs: seq<Secret>, keys: seq<string>, i: nat)
    requires i < |specs|
    ensures var k := SourceKey(specs[i], keys);
            Present(specs[..i + 1], keys) == if k == "" then Present(specs[..i], keys) else Present(specs[..i], keys) + [Credential(specs[i], k)]
  {
    assert specs[..i + 1][..i] == specs[..i];
  }

  lemma {:induction false} FirstPresentSame(names: seq<string>, keys: seq<string>, keys': seq<string>)
    requires forall k :: k in keys <==> k in keys'
    ensures FirstPresent(names, keys) == FirstPresent(names, keys')
    decreases |names|
  {
    if names != [] {
      FirstPresentSame(names[1..], keys, keys');
    }
  }

  lemma {:induction false} SourceKeySame(s: Secret, keys: seq<string>, keys': seq<string>)
    requires forall k :: k in keys <==> k in keys'
    ensures SourceKey(s, keys) == SourceKey(s, keys')
  {
    FirstPresentSame(EnvNames(s), keys, keys');
  }

  lemma {:induction false} PresentSame(specs: seq<Secret>, keys: seq<string>, keys': seq<string>)
    requires forall k :: k in keys <==> k in keys'
    ensures Present(specs, keys) == Present(specs, keys')
    decreases |specs|
  {
    if specs != [] {
      SourceKeySame(specs[|specs| - 1], keys, keys');
      PresentSame(specs[..|specs| - 1], keys, keys');
    }
  }

  lemma {:induction false} MissingSame(specs: seq<Secret>, extra: seq<Secret>, keys: seq<string>, keys': seq<string>)
    requires forall k :: k in keys <==> k in keys'
    ensures FirstMissing(specs, extra, keys) == FirstMissing(specs, extra, keys')
    decreases |specs|
  {
    if specs != [] {
      SourceKeySame(specs[0], keys, keys');
      MissingSame(specs[1..], extra, keys, keys');
    }
  }

  /** The keys come from a map iteration: only which keys there are matters, not their order, for the result
      and for the error reported alike. */
  lemma {:induction false} KeyOrderIrrelevant(providers: seq<Secret>, extra: seq<Secret>, keys: seq<string>, keys': seq<string>)
    requires forall k :: k in keys <==> k in keys'
    ensures Resolve(providers, extra, keys) == Resolve(providers, extra, keys')
  {
    PresentSame(Merged(providers + extra), keys, keys');
    MissingSame(Merged(providers + extra), extra, keys, keys');
  }

  // ---- What a resolution means ----

  /** Some env var name of the entry is a key of the credentials Secret. */
  predicate Backed(s: Secret, keys: seq<string>)
  {
    s.name in keys || exists a :: 0 <= a < |s.aliases| && s.aliases[a] in keys
  }

  /** The key holds the entry's real value: its Name if that is a key, else its first alias that is one. */
  predicate HoldsValue(s: Secret, keys: seq<string>, k: string)
  {
    && k in keys
    && (k == s.name
        || (s.name !in keys && exists a :: 0 <= a < |s.aliases| && s.aliases[a] == k && forall b :: 0 <= b < a ==> s.aliases[b] !in keys))
  }

  /** The backed entries, in table order. */
  function BackedOf(specs: seq<Secret>, keys: seq<string>): seq<Secret>
  {
    if specs == [] then []
    else BackedOf(specs[..|specs| - 1], keys) + if Backed(specs[|specs| - 1], keys) then [specs[|specs| - 1]] else []
  }

  function SecretsOf(creds: seq<Credential>): (r: seq<Secret>)
    ensures |r| == |creds| && forall i :: 0 <= i < |r| ==> r[i] == creds[i].secret
  {
    seq(|creds|, i requires 0 <= i < |creds| => creds[i].secret)
  }

  lemma {:induction false} SourceKeyExactly(s: Secret, keys: seq<string>)
    requires "" !in keys
    ensures SourceKey(s, keys) != "" <==> Backed(s, keys)
    ensures SourceKey(s, keys) != "" ==> HoldsValue(s, keys, SourceKey(s, keys))
  {
    var names, k := EnvNames(s), SourceKey(s, keys);
    FirstPresentFinds(names, keys);
    assert forall a :: 0 <= a < |s.aliases| ==> names[a + 1] == s.aliases[a];
    assert names[0] == s.name;
    if k != "" {
      var i :| 0 <= i < |names| && names[i] == k && k in keys && forall j :: 0 <= j < i ==> names[j] !in keys;
      if i > 0 {
        assert s.aliases[i - 1] == k;
        assert names[0] !in keys;
        forall b | 0 <= b < i - 1 ensures s.aliases[b] !in keys {
          assert names[b + 1] !in keys;
        }
      }
    }
  }

  lemma {:induction false} FirstPresentFinds(names: seq<string>, keys: seq<string>)
    requires "" !in keys
    ensures FirstPresent(names, keys) == "" ==> forall i :: 0 <= i < |names| ==> names[i] !in keys
    decreases |names|
  {
    if names != [] {
      FirstPresentFinds(names[1..], keys);
      assert forall i :: 1 <= i < |names| ==> names[i] == names[1..][i - 1];
    }
  }

  lemma {:induction false} SecretsOfSnoc(creds: seq<Credential>, c: Credential)
    ensures SecretsOf(creds + [c]) == SecretsOf(creds) + [c.secret]
  {
  }

  lemma {:induction false} PresentExactly(specs: seq<Secret>, keys: seq<string>)
    requires "" !in keys
    ensures SecretsOf(Present(specs, keys)) == BackedOf(specs, keys)
    ensures forall c :: c in Present(specs, keys) ==> HoldsValue(c.secret, keys, c.sourceKey)
    decreases |specs|
  {
    if specs != [] {
      var n := |specs| - 1;
      var s, before := specs[n], Present(specs[..n], keys);
      PresentExactly(specs[..n], keys);
      SourceKeyExactly(s, keys);
      if Backed(s, keys) {
        SecretsOfSnoc(before, Credential(s, SourceKey(s, keys)));
      } else {
        assert Present(specs, keys) == before + [] == before;
      }
    }
  }

  /** For a Secret, whose keys are never empty: the credentials resolved are exactly the entries of the merged
      table with a name or an alias among the keys, once and in table order, each with the key that holds its
      value; and a missing extra secret is reported exactly when one has neither. */
  lemma {:induction false} ResolvedExactly(providers: seq<Secret>, extra: seq<Secret>, keys: seq<string>)
    requires "" !in keys
    ensures var r, table := Resolve(providers, extra, keys), Merged(providers + extra);
            && (r.Resolved? ==> SecretsOf(r.creds) == BackedOf(table, keys)
                                && forall c :: c in r.creds ==> HoldsValue(c.secret, keys, c.sourceKey))
            && (r.Missing? ==> exists s :: s in table && s.name == r.name && s.name in Names(extra) && !Backed(s, keys))
            && (r.Missing? <==> exists s :: s in table && s.name in Names(extra) && !Backed(s, keys))
            && (r.Conflict? ==> RealConflict(Present(table, keys), r.error))
            && (!r.Missing? ==> (r.Conflict? <==> !Unambiguous(Present(table, keys))))
  {
    var table := Merged(providers + extra);
    PresentExactly(table, keys);
    MissingExactly(table, extra, keys);
    ConflictIsReal(Present(table, keys), 0, map[]);
    ConflictExactly(Present(table, keys), 0, map[]);
  }

  lemma {:induction false} MissingExactly(specs: seq<Secret>, extra: seq<Secret>, keys: seq<string>)
    requires "" !in keys
    ensures var m := FirstMissing(specs, extra, keys);
            && (m.Some? ==> exists s :: s in specs && s.name == m.value && s.name in Names(extra) && !Backed(s, keys))
            && (m.None? ==> forall s :: s in specs && s.name in Names(extra) ==> Backed(s, keys))
    decreases |specs|
  {
    if specs != [] {
      SourceKeyExactly(specs[0], keys);
      MissingExactly(specs[1..], extra, keys);
      assert specs == [specs[0]] + specs[1..];
      if Unbacked(specs[0], extra, keys) {
        assert specs[0] in specs;
      }
    }
  }

  // ---- Names ----

  /** The form validation demands of env var names. */
  predicate EnvShaped(n: string)
  {
    n != "" && !('0' <= n[0] <= '9')
    && forall i :: 0 <= i < |n| ==> 'A' <= n[i] <= 'Z' || 'a' <= n[i] <= 'z' || '0' <= n[i] <= '9' || n[i] == '_'
  }

  lemma {:induction false} FirstProvidersEnvShaped(i: nat)
    requires i < 6
    ensures EnvShaped(PROVIDERS[i].name) && PROVIDERS[i].aliases == []
  {
  }

  lemma {:induction false} LastProvidersEnvShaped(i: nat)
    requires 6 <= i < |PROVIDERS|
    ensures EnvShaped(PROVIDERS[i].name) && (PROVIDERS[i].aliases == [] || PROVIDERS[i].aliases == ["GOOGLE_API_KEY"])
  {
  }

  /** The bundled table meets it. */
  lemma {:induction false} ProvidersEnvShaped(i: nat, name: string)
    requires i < |PROVIDERS| && name in EnvNames(PROVIDERS[i])
    ensures EnvShaped(name)
  {
    if i < 6 {
      FirstProvidersEnvShaped(i);
    } else {
      LastProvidersEnvShaped(i);
      assert EnvShaped("GOOGLE_API_KEY");
    }
  }
}
