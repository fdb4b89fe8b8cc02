/** Egress credentials: which hosts a credential is swapped on, and which claims conflict. */
module Egress {
  import opened Text

  datatype Secret = Secret(name: string, hosts: seq<string>, matchHeaders: seq<string>, aliases: seq<string>)

  datatype Credential = Credential(secret: Secret, sourceKey: string)

  /** Name followed by Aliases. */
  function EnvNames(s: Secret): seq<string> { [s.name] + s.aliases }

  // ---- Host patterns ----

  function Lower(c: char): char
  {
    if 'A' <= c <= 'Z' then (c as int + 32) as char else c
  }

  function ToLower(s: string): (r: string)
    ensures |r| == |s| && forall i :: 0 <= i < |s| ==> r[i] == Lower(s[i])
  {
    seq(|s|, i requires 0 <= i < |s| => Lower(s[i]))
  }

  /** The upper- and lower-case form of one ASCII letter. */
  predicate CasePair(upper: char, lower: char) { 'A' <= upper <= 'Z' && lower as int == upper as int + 32 }

  predicate SameButCase(a: string, b: string)
  {
    |a| == |b| && forall i :: 0 <= i < |a| ==> a[i] == b[i] || CasePair(a[i], b[i]) || CasePair(b[i], a[i])
  }

  /** Folding identifies exactly the strings that differ in letter case only. */
  lemma {:induction false} LowerExactly(a: string, b: string)
    ensures ToLower(a) == ToLower(b) <==> SameButCase(a, b)
  {
    if ToLower(a) == ToLower(b) {
      forall i | 0 <= i < |a| ensures a[i] == b[i] || CasePair(a[i], b[i]) || CasePair(b[i], a[i]) {
        assert ToLower(a)[i] == ToLower(b)[i];
      }
    }
  }

  predicate HasSuffix(s: string, suffix: string)
  {
    |suffix| <= |s| && s[|s| - |suffix|..] == suffix
  }

  predicate Wildcard(pattern: string) { |pattern| >= 2 && pattern[0] == '*' && pattern[1] == '.' }

  predicate Covers(pattern: string, host: string)
  {
    Wildcard(pattern) && HasSuffix(host, pattern[1..])
  }

  predicate HostsOverlap(a: string, b: string)
  {
    var a, b := ToLower(a), ToLower(b);
    a == b || Covers(a, b) || Covers(b, a)
  }

  /** How the proxy matches a request host: exactly, or by suffix for a wildcard, ignoring case. */
  predicate Matches(pattern: string, host: string)
  {
    var p, h := ToLower(pattern), ToLower(host);
    p == h || Covers(p, h)
  }

  lemma {:induction false} LowerTail(s: string, n: nat)
    requires n <= |s|
    ensures ToLower(s)[n..] == ToLower(s[n..])
  {
  }

  lemma {:induction false} LowerKeepsWildcard(s: string)
    ensures Wildcard(ToLower(s)) <==> |s| >= 2 && s[..2] == "*."
  {
    assert |s| >= 2 ==> (s[..2] == "*." <==> s[0] == '*' && s[1] == '.');
  }

  lemma {:induction false} SuffixExactly(pattern: string, host: string)
    requires pattern != ""
    ensures HasSuffix(ToLower(host), ToLower(pattern)[1..]) <==>
            |host| >= |pattern| - 1 && SameButCase(pattern[1..], host[|host| - (|pattern| - 1)..])
  {
    LowerTail(pattern, 1);
    if |host| >= |pattern| - 1 {
      var n := |host| - (|pattern| - 1);
      LowerTail(host, n);
      LowerExactly(pattern[1..], host[n..]);
    }
  }

  lemma {:induction false} CoversExactly(pattern: string, host: string)
    ensures Covers(ToLower(pattern), ToLower(host)) <==>
            |pattern| >= 2 && pattern[..2] == "*." && |host| >= |pattern| - 1
            && SameButCase(pattern[1..], host[|host| - (|pattern| - 1)..])
  {
    LowerKeepsWildcard(pattern);
    if |pattern| >= 2 {
      SuffixExactly(pattern, host);
    }
  }

  /** A request host matches a pattern exactly when it is the pattern, or ends in what follows the star of a
      leading `*.`, letter case aside. */
  lemma {:induction false} MatchesExactly(pattern: string, host: string)
    ensures Matches(pattern, host) <==>
            SameButCase(pattern, host)
            || (|pattern| >= 2 && pattern[..2] == "*." && |host| >= |pattern| - 1
                && SameButCase(pattern[1..], host[|host| - (|pattern| - 1)..]))
  {
    LowerExactly(pattern, host);
    CoversExactly(pattern, host);
  }

  /** Letter case makes no difference, on either side. */
  lemma {:induction false} CaseIrrelevant(a: string, a': string, b: string, b': string)
    requires SameButCase(a, a') && SameButCase(b, b')
    ensures HostsOverlap(a, b) <==> HostsOverlap(a', b')
    ensures Matches(a, b) <==> Matches(a', b')
  {
    LowerExactly(a, a');
    LowerExactly(b, b');
  }

  lemma {:induction false} SuffixesNest(s: string, a: string, b: string)
    requires HasSuffix(s, a) && HasSuffix(s, b) && |b| <= |a|
    ensures HasSuffix(a, b)
  {
    var n := |s| - |b|;
    assert s[|s| - |a|..][|a| - |b|..] == s[n..];
  }

  lemma {:induction false} SuffixOfTail(p: string, suffix: string)
    requires p != "" && HasSuffix(p[1..], suffix)
    ensures HasSuffix(p, suffix)
  {
    assert p[1..][|p[1..]| - |suffix|..] == p[|p| - |suffix|..];
  }

  lemma {:induction false} WildcardsOverlap(p: string, q: string, h: string)
    requires Covers(p, h) && Covers(q, h) && |q| <= |p|
    ensures Covers(q, p)
  {
    SuffixesNest(h, p[1..], q[1..]);
    SuffixOfTail(p, q[1..]);
  }

  /** Whatever the patterns, two that match one host overlap. */
  lemma {:induction false} CommonHostOverlaps(a: string, b: string, host: string)
    requires Matches(a, host) && Matches(b, host)
    ensures HostsOverlap(a, b)
  {
    var p, q, h := ToLower(a), ToLower(b), ToLower(host);
    if p != h && q != h {
      if |q| <= |p| {
        WildcardsOverlap(p, q, h);
      } else {
        WildcardsOverlap(q, p, h);
      }
    }
  }

  /** A host a request can carry: names hold no `*`. */
  predicate RequestHost(host: string) { '*' !in host }

  /** A pattern some request can match: its only `*`, if any, is that of a leading `*.`. */
  predicate Satisfiable(pattern: string)
  {
    '*' !in pattern || (Wildcard(pattern) && '*' !in pattern[1..])
  }

  lemma {:induction false} LowerKeepsStars(s: string)
    ensures '*' in ToLower(s) <==> '*' in s
    ensures ToLower(ToLower(s)) == ToLower(s)
    ensures Satisfiable(ToLower(s)) <==> Satisfiable(s)
  {
    var l := ToLower(s);
    assert forall i :: 0 <= i < |s| ==> (l[i] == '*' <==> s[i] == '*') && (l[i] == '.' <==> s[i] == '.');
    if '*' in s {
      var i :| 0 <= i < |s| && s[i] == '*';
      assert l[i] == '*';
    }
    if '*' in l {
      var i :| 0 <= i < |s| && l[i] == '*';
      assert s[i] == '*';
    }
    if Wildcard(s) {
      StarsInTail(s);
    }
  }

  lemma {:induction false} StarsInTail(s: string)
    requires Wildcard(s)
    ensures '*' in ToLower(s)[1..] <==> '*' in s[1..]
  {
    var l, a, b := ToLower(s), ToLower(s)[1..], s[1..];
    assert forall i :: 0 <= i < |b| ==> a[i] == l[i + 1] && b[i] == s[i + 1] && (a[i] == '*' <==> b[i] == '*');
    if '*' in a {
      var i :| 0 <= i < |a| && a[i] == '*';
      assert b[i] == '*';
    }
    if '*' in b {
      var i :| 0 <= i < |b| && b[i] == '*';
      assert a[i] == '*';
    }
  }

  /** A request only matches a satisfiable pattern. */
  lemma {:induction false} RequestNeedsSatisfiable(pattern: string, host: string)
    requires RequestHost(host) && Matches(pattern, host)
    ensures Satisfiable(pattern)
  {
    var p, h := ToLower(pattern), ToLower(host);
    LowerKeepsStars(pattern);
    LowerKeepsStars(host);
    if p != h {
      assert forall i :: 0 <= i < |p[1..]| ==> p[1..][i] == h[|h| - |p[1..]|..][i];
    }
  }

  /** A host that a lower-case satisfiable pattern matches. */
  function Sample(p: string): string { if Wildcard(p) then "x" + p[1..] else p }

  lemma {:induction false} SampleMatches(p: string, q: string)
    requires Satisfiable(p) && Satisfiable(q) && ToLower(p) == p && ToLower(q) == q && (p == q || Covers(p, q))
    ensures RequestHost(Sample(q)) && Matches(q, Sample(q)) && Matches(p, Sample(q))
  {
    var h := Sample(q);
    if Wildcard(q) {
      assert h[1..] == q[1..];
      assert ToLower(h) == h by {
        assert forall i :: 1 <= i < |h| ==> h[i] == q[i];
      }
      SuffixOfTail(h, q[1..]) by { assert q[1..][0..] == q[1..]; }
      if p != q {
        SuffixDropsHead(q, p[1..]);
        SuffixOfTail(h, p[1..]);
      }
    }
  }

  /** A suffix that starts with a dot does not take in the star. */
  lemma {:induction false} SuffixDropsHead(q: string, suffix: string)
    requires q != "" && HasSuffix(q, suffix) && suffix != "" && suffix[0] != q[0]
    ensures HasSuffix(q[1..], suffix)
  {
    var n := |q| - |suffix|;
    assert q[n..][0] == suffix[0];
    assert n > 0;
    assert q[1..][n - 1..] == q[n..];
  }

  lemma {:induction false} OverlapHasHost(a: string, b: string) returns (host: string)
    requires HostsOverlap(a, b) && Satisfiable(a) && Satisfiable(b)
    ensures RequestHost(host) && Matches(a, host) && Matches(b, host)
  {
    var p, q := ToLower(a), ToLower(b);
    LowerKeepsStars(a);
    LowerKeepsStars(b);
    if p == q || Covers(p, q) {
      SampleMatches(p, q);
      host := Sample(q);
    } else {
      SampleMatches(q, p);
      host := Sample(p);
    }
  }

  /** Some request host matches both patterns exactly when the pairwise test says so and both patterns can
      match a request at all. */
  lemma {:induction false} OverlapExactly(a: string, b: string)
    ensures (exists host :: RequestHost(host) && Matches(a, host) && Matches(b, host)) <==>
            HostsOverlap(a, b) && Satisfiable(a) && Satisfiable(b)
  {
    if HostsOverlap(a, b) && Satisfiable(a) && Satisfiable(b) {
      var host := OverlapHasHost(a, b);
    }
    if exists host :: RequestHost(host) && Matches(a, host) && Matches(b, host) {
      var host :| RequestHost(host) && Matches(a, host) && Matches(b, host);
      CommonHostOverlaps(a, b, host);
      RequestNeedsSatisfiable(a, host);
      RequestNeedsSatisfiable(b, host);
    }
  }

  /** With a stray star the test rejects credentials that no request could confuse. */
  lemma {:induction false} StrayStarOverlaps(host: string)
    requires RequestHost(host)
    ensures HostsOverlap("a*", "a*") && !Matches("a*", host)
  {
    assert "a*"[0] != '*' && "a*"[1] == '*' && !Wildcard("a*");
    if Matches("a*", host) {
      RequestNeedsSatisfiable("a*", host);
    }
  }

  // ---- Claims ----

  /** All env var names claimed by a list of credentials, in claim order. */
  function Claimed(creds: seq<Credential>): seq<string>
  {
    if creds == [] then [] else Claimed(creds[..|creds| - 1]) + EnvNames(creds[|creds| - 1].secret)
  }

  predicate OverlapsAny(host: string, others: seq<string>)
  {
    exists j :: 0 <= j < |others| && HostsOverlap(host, others[j])
  }

  predicate ShareHost(c: Credential, d: Credential)
  {
    exists i :: 0 <= i < |c.secret.hosts| && OverlapsAny(c.secret.hosts[i], d.secret.hosts)
  }

  ghost predicate SharesNone(creds: seq<Credential>, i: nat)
    requires i < |creds|
  {
    forall j :: 0 <= j < i ==> !ShareHost(creds[i], creds[j])
  }

  /** Every env var name is claimed once, and no two credentials share a host. */
  ghost predicate Unambiguous(creds: seq<Credential>)
  {
    Distinct(Claimed(creds)) && forall i :: 0 <= i < |creds| ==> SharesNone(creds, i)
  }

  datatype ClaimError = SameEnvVar(owner: string, name: string, env: string) | SameHost(owner: string, name: string, host: string)

  lemma {:induction false} ClaimedPrefix(creds: seq<Credential>, i: nat)
    requires i <= |creds|
    ensures |Claimed(creds[..i])| <= |Claimed(creds)|
    ensures Claimed(creds)[..|Claimed(creds[..i])|] == Claimed(creds[..i])
    decreases |creds| - i
  {
    if i == |creds| {
      assert creds[..i] == creds;
    } else {
      ClaimedPrefix(creds, i + 1);
      assert creds[..i + 1][..i] == creds[..i];
      assert Claimed(creds[..i + 1]) == Claimed(creds[..i]) + EnvNames(creds[i].secret);
      assert Claimed(creds[..i + 1])[..|Claimed(creds[..i])|] == Claimed(creds[..i]);
    }
  }

  lemma {:induction false} DuplicateStays(s: seq<string>, n: nat)
    requires n <= |s| && !Distinct(s[..n])
    ensures !Distinct(s)
  {
    var i, j :| 0 <= i < j < |s[..n]| && s[..n][i] == s[..n][j];
    assert s[i] == s[j];
  }

  // What the check reports, and the claims it goes on with.

  function FirstTaken(taken: map<string, string>, names: seq<string>, owner: string): Option<ClaimError>
    decreases |names|
  {
    if names == [] then None
    else if names[0] in taken then Some(SameEnvVar(taken[names[0]], owner, names[0]))
    else FirstTaken(taken[names[0] := owner], names[1..], owner)
  }

  function ClaimAll(taken: map<string, string>, names: seq<string>, owner: string): map<string, string>
    decreases |names|
  {
    if names == [] then taken else ClaimAll(taken[names[0] := owner], names[1..], owner)
  }

  function FirstShared(hosts: seq<string>, others: seq<string>): Option<string>
  {
    if hosts == [] then None
    else if OverlapsAny(hosts[0], others) then Some(hosts[0])
    else FirstShared(hosts[1..], others)
  }

  function FirstHostConflict(c: Credential, others: seq<Credential>): Option<ClaimError>
  {
    if others == [] then None
    else
      var host := FirstShared(c.secret.hosts, others[0].secret.hosts);
      if host.Some? then Some(SameHost(others[0].secret.name, c.secret.name, host.value))
      else FirstHostConflict(c, others[1..])
  }

  /** The first conflict from the i-th credential on, env var names before hosts. */
  function FirstConflict(creds: seq<Credential>, i: nat, taken: map<string, string>): Option<ClaimError>
    requires i <= |creds|
    decreases |creds| - i
  {
    if i == |creds| then None
    else
      var c := creds[i];
      var clash := FirstTaken(taken, EnvNames(c.secret), c.secret.name);
      var shared := FirstHostConflict(c, creds[..i]);
      if clash.Some? then clash
      else if shared.Some? then shared
      else FirstConflict(creds, i + 1, ClaimAll(taken, EnvNames(c.secret), c.secret.name))
  }

  /** Claim the env var names of one credential; an error when one of them is taken. */
  method ClaimNames(names: seq<string>, owner: string, taken: map<string, string>, ghost before: seq<string>)
    returns (error: Option<ClaimError>, claimed: map<string, string>)
    requires taken.Keys == Elements(before) && Distinct(before)
    ensures error.None? <==> Distinct(before + names)
    ensures error.None? ==> claimed.Keys == Elements(before + names)
    ensures error == FirstTaken(taken, names, owner) && (error.None? ==> claimed == ClaimAll(taken, names, owner))
  {
    claimed := taken;
    assert before + names[..0] == before && names[0..] == names;
    for i := 0 to |names|
      invariant claimed.Keys == Elements(before + names[..i])
      invariant Distinct(before + names[..i])
      invariant FirstTaken(taken, names, owner) == FirstTaken(claimed, names[i..], owner)
      invariant ClaimAll(taken, names, owner) == ClaimAll(claimed, names[i..], owner)
    {
      var more := before + names[..i];
      assert before + names[..i + 1] == more + [names[i]];
      assert names[i..][0] == names[i] && names[i..][1..] == names[i + 1..];
      if names[i] in claimed {
        TakenTwice(before, names, i);
        return Some(SameEnvVar(claimed[names[i]], owner, names[i])), claimed;
      }
      claimed := claimed[names[i] := owner];
    }
    assert names[..|names|] == names;
    error := None;
  }

  lemma {:induction false} TakenTwice(before: seq<string>, names: seq<string>, i: nat)
    requires i < |names| && names[i] in before + names[..i]
    ensures !Distinct(before + names)
  {
    var more := before + names[..i];
    var k :| 0 <= k < |more| && more[k] == names[i];
    assert (before + names)[k] == more[k] && (before + names)[|more|] == names[i];
  }

  method HostOverlapsAny(host: string, others: seq<string>) returns (r: bool)
    ensures r == OverlapsAny(host, others)
  {
    for j := 0 to |others|
      invariant forall l :: 0 <= l < j ==> !HostsOverlap(host, others[l])
    {
      if HostsOverlap(host, others[j]) {
        return true;
      }
    }
    r := false;
  }

  lemma {:induction false} SharedExactly(hosts: seq<string>, others: seq<string>)
    ensures FirstShared(hosts, others).Some? <==> exists i :: 0 <= i < |hosts| && OverlapsAny(hosts[i], others)
    decreases |hosts|
  {
    if hosts != [] {
      SharedExactly(hosts[1..], others);
      assert forall i :: 1 <= i < |hosts| ==> hosts[i] == hosts[1..][i - 1];
    }
  }

  /** The first host of `c` that overlaps a host of `d`. */
  method FindSharedHost(c: Credential, d: Credential) returns (host: Option<string>)
    ensures host.Some? <==> ShareHost(c, d)
    ensures host == FirstShared(c.secret.hosts, d.secret.hosts)
  {
    var hosts, others := c.secret.hosts, d.secret.hosts;
    SharedExactly(hosts, others);
    assert hosts[0..] == hosts;
    host := None;
    for i := 0 to |hosts|
      invariant FirstShared(hosts, others) == FirstShared(hosts[i..], others)
    {
      assert hosts[i..][0] == hosts[i] && hosts[i..][1..] == hosts[i + 1..];
      var overlaps := HostOverlapsAny(hosts[i], others);
      if overlaps {
        return Some(hosts[i]);
      }
    }
  }

  /** The first earlier credential that shares a host with `c`. */
  method FindHostConflict(c: Credential, others: seq<Credential>) returns (error: Option<ClaimError>)
    ensures error == FirstHostConflict(c, others)
    ensures error.None? <==> forall j :: 0 <= j < |others| ==> !ShareHost(c, others[j])
  {
    assert others[0..] == others;
    for j := 0 to |others|
      invariant forall l :: 0 <= l < j ==> !ShareHost(c, others[l])
      invariant FirstHostConflict(c, others) == FirstHostConflict(c, others[j..])
    {
      assert others[j..][0] == others[j] && others[j..][1..] == others[j + 1..];
      var host := FindSharedHost(c, others[j]);
      if host.Some? {
        return Some(SameHost(others[j].secret.name, c.secret.name, host.value));
      }
    }
    error := None;
  }

  /** The first i credentials are free of conflicts, and `taken` holds their claims. */
  ghost predicate Checked(creds: seq<Credential>, i: nat, taken: map<string, string>)
    requires i <= |creds|
  {
    && taken.Keys == Elements(Claimed(creds[..i])) && Distinct(Claimed(creds[..i]))
    && forall k :: 0 <= k < i ==> SharesNone(creds, k)
  }

  lemma {:induction false} CheckedAll(creds: seq<Credential>, taken: map<string, string>)
    requires Checked(creds, |creds|, taken)
    ensures Unambiguous(creds)
  {
    assert creds[..|creds|] == creds;
  }

  lemma {:induction false} AmbiguousPrefix(creds: seq<Credential>, i: nat)
    requires i < |creds| && !(Distinct(Claimed(creds[..i + 1])) && SharesNone(creds, i))
    ensures !Unambiguous(creds)
  {
    ClaimedPrefix(creds, i + 1);
    if !Distinct(Claimed(creds[..i + 1])) {
      DuplicateStays(Claimed(creds), |Claimed(creds[..i + 1])|);
    }
  }

  /** Check one credential against the ones before it. */
  method CheckNext(creds: seq<Credential>, i: nat, taken: map<string, string>)
    returns (error: Option<ClaimError>, claimed: map<string, string>)
    requires i < |creds| && Checked(creds, i, taken)
    ensures if error.Some? then !Unambiguous(creds) else Checked(creds, i + 1, claimed)
    ensures FirstConflict(creds, i, taken) == if error.Some? then error else FirstConflict(creds, i + 1, claimed)
  {
    var c := creds[i];
    assert creds[..i + 1][..i] == creds[..i];
    error, claimed := ClaimNames(EnvNames(c.secret), c.secret.name, taken, Claimed(creds[..i]));
    if error.None? {
      error := FindHostConflict(c, creds[..i]);
      assert forall j :: 0 <= j < i ==> creds[j] == creds[..i][j];
    }
    if error.Some? {
      AmbiguousPrefix(creds, i);
    }
  }

  /** Accepts exactly the unambiguous lists, and reports the first conflict of any other. */
  method CheckCredentialClaims(creds: seq<Credential>) returns (error: Option<ClaimError>)
    ensures error.None? <==> Unambiguous(creds)
    ensures error == FirstConflict(creds, 0, map[])
  {
    var envNames: map<string, string> := map[];
    for i := 0 to |creds|
      invariant Checked(creds, i, envNames)
      invariant FirstConflict(creds, 0, map[]) == FirstConflict(creds, i, envNames)
    {
      error, envNames := CheckNext(creds, i, envNames);
      if error.Some? {
        return;
      }
    }
    CheckedAll(creds, envNames);
    error := None;
  }

  // ---- A reported conflict is one ----

  /** The two credentials named in the error do claim the env var, or share the host. */
  ghost predicate RealConflict(creds: seq<Credential>, e: ClaimError)
  {
    match e
    case SameEnvVar(owner, name, env) =>
      exists i, j :: 0 <= j <= i < |creds| && creds[j].secret.name == owner && creds[i].secret.name == name
                     && env in EnvNames(creds[j].secret) && env in EnvNames(creds[i].secret)
    case SameHost(owner, name, host) =>
      exists i, j :: 0 <= j < i < |creds| && creds[j].secret.name == owner && creds[i].secret.name == name
                     && host in creds[i].secret.hosts && OverlapsAny(host, creds[j].secret.hosts)
  }

  /** Every claim so far is by one of the first i credentials. */
  ghost predicate OwnersKnown(creds: seq<Credential>, i: nat, taken: map<string, string>)
    requires i <= |creds|
  {
    forall n :: n in taken ==> exists j :: 0 <= j < i && creds[j].secret.name == taken[n] && n in EnvNames(creds[j].secret)
  }

  lemma {:induction false} FirstTakenReal(taken: map<string, string>, names: seq<string>, owner: string)
    ensures var e := FirstTaken(taken, names, owner);
            e.Some? ==> e.value.SameEnvVar? && e.value.name == owner && e.value.env in names
                        && (e.value.owner == owner || (e.value.env in taken && e.value.owner == taken[e.value.env]))
    decreases |names|
  {
    if names != [] && names[0] !in taken {
      FirstTakenReal(taken[names[0] := owner], names[1..], owner);
    }
  }

  lemma {:induction false} ClaimAllReal(taken: map<string, string>, names: seq<string>, owner: string, n: string)
    requires n in ClaimAll(taken, names, owner)
    ensures (n in names && ClaimAll(taken, names, owner)[n] == owner) || (n in taken && ClaimAll(taken, names, owner)[n] == taken[n])
    decreases |names|
  {
    if names != [] {
      ClaimAllReal(taken[names[0] := owner], names[1..], owner, n);
    }
  }

  lemma {:induction false} OwnersStayKnown(creds: seq<Credential>, i: nat, taken: map<string, string>)
    requires i < |creds| && OwnersKnown(creds, i, taken)
    ensures OwnersKnown(creds, i + 1, ClaimAll(taken, EnvNames(creds[i].secret), creds[i].secret.name))
  {
    var names, owner := EnvNames(creds[i].secret), creds[i].secret.name;
    var more := ClaimAll(taken, names, owner);
    forall n | n in more
      ensures exists j :: 0 <= j < i + 1 && creds[j].secret.name == more[n] && n in EnvNames(creds[j].secret)
    {
      ClaimAllReal(taken, names, owner, n);
      if n in names && more[n] == owner {
        assert creds[i].secret.name == more[n];
      } else {
        var j :| 0 <= j < i && creds[j].secret.name == taken[n] && n in EnvNames(creds[j].secret);
      }
    }
  }

  lemma {:induction false} FirstSharedReal(hosts: seq<string>, others: seq<string>)
    ensures var h := FirstShared(hosts, others);
            h.Some? ==> h.value in hosts && OverlapsAny(h.value, others)
    decreases |hosts|
  {
    if hosts != [] {
      FirstSharedReal(hosts[1..], others);
    }
  }

  lemma {:induction false} FirstHostReal(c: Credential, others: seq<Credential>)
    ensures var e := FirstHostConflict(c, others);
            e.Some? ==> e.value.SameHost? && e.value.name == c.secret.name && e.value.host in c.secret.hosts
                        && exists j :: 0 <= j < |others| && others[j].secret.name == e.value.owner
                                       && OverlapsAny(e.value.host, others[j].secret.hosts)
    decreases |others|
  {
    if others != [] {
      FirstSharedReal(c.secret.hosts, others[0].secret.hosts);
      FirstHostReal(c, others[1..]);
      var e := FirstHostConflict(c, others);
      if FirstShared(c.secret.hosts, others[0].secret.hosts).None? && e.Some? {
        var j :| 0 <= j < |others[1..]| && others[1..][j].secret.name == e.value.owner && OverlapsAny(e.value.host, others[1..][j].secret.hosts);
        assert others[j + 1] == others[1..][j];
      }
    }
  }

  /** The conflict an error names is there. */
  lemma {:induction false} ConflictIsReal(creds: seq<Credential>, i: nat, taken: map<string, string>)
    requires i <= |creds| && OwnersKnown(creds, i, taken)
    ensures FirstConflict(creds, i, taken).Some? ==> RealConflict(creds, FirstConflict(creds, i, taken).value)
    decreases |creds| - i
  {
    if i < |creds| {
      var c := creds[i];
      FirstTakenReal(taken, EnvNames(c.secret), c.secret.name);
      FirstHostReal(c, creds[..i]);
      OwnersStayKnown(creds, i, taken);
      ConflictIsReal(creds, i + 1, ClaimAll(taken, EnvNames(c.secret), c.secret.name));
      var clash, shared := FirstTaken(taken, EnvNames(c.secret), c.secret.name), FirstHostConflict(c, creds[..i]);
      if clash.Some? {
        if clash.value.owner != c.secret.name {
          var j :| 0 <= j < i && creds[j].secret.name == taken[clash.value.env] && clash.value.env in EnvNames(creds[j].secret);
        }
      } else if shared.Some? {
        var j :| 0 <= j < |creds[..i]| && creds[..i][j].secret.name == shared.value.owner && OverlapsAny(shared.value.host, creds[..i][j].secret.hosts);
        assert creds[j] == creds[..i][j];
      }
    }
  }

  lemma {:induction false} ClaimedBy(creds: seq<Credential>, i: nat, name: string)
    requires i < |creds| && name in EnvNames(creds[i].secret)
    ensures name in Claimed(creds[..i + 1]) && name in Claimed(creds)
  {
    assert creds[..i + 1][..i] == creds[..i];
    ClaimedPrefix(creds, i + 1);
  }

  /** An env var name belongs to one credential. */
  lemma {:induction false} OneOwner(creds: seq<Credential>, i: nat, j: nat, name: string)
    requires i < |creds| && j < |creds|
    ensures Distinct(Claimed(creds)) && name in EnvNames(creds[i].secret) && name in EnvNames(creds[j].secret) ==> i == j
  {
    if name in EnvNames(creds[i].secret) && name in EnvNames(creds[j].secret) {
      if i < j {
        TwoOwners(creds, i, j, name);
      } else if j < i {
        TwoOwners(creds, j, i, name);
      }
    }
  }

  lemma {:induction false} TwoOwners(creds: seq<Credential>, i: nat, j: nat, name: string)
    requires i < j < |creds| && name in EnvNames(creds[i].secret) && name in EnvNames(creds[j].secret)
    ensures !Distinct(Claimed(creds))
  {
    var a, b := Claimed(creds[..j]), EnvNames(creds[j].secret);
    assert creds[..j][i] == creds[i];
    ClaimedBy(creds[..j], i, name);
    assert creds[..j + 1][..j] == creds[..j];
    assert Claimed(creds[..j + 1]) == a + b;
    var x :| 0 <= x < |a| && a[x] == name;
    var y :| 0 <= y < |b| && b[y] == name;
    assert (a + b)[x] == (a + b)[|a| + y];
    ClaimedPrefix(creds, j + 1);
    DuplicateStays(Claimed(creds), |a + b|);
  }

  predicate Swaps(c: Credential, host: string)
  {
    exists i :: 0 <= i < |c.secret.hosts| && Matches(c.secret.hosts[i], host)
  }

  lemma {:induction false} SwapsShare(c: Credential, d: Credential, host: string)
    ensures Swaps(c, host) && Swaps(d, host) ==> ShareHost(c, d)
  {
    var hosts, others := c.secret.hosts, d.secret.hosts;
    if Swaps(c, host) && Swaps(d, host) {
      var x :| 0 <= x < |hosts| && Matches(hosts[x], host);
      var y :| 0 <= y < |others| && Matches(others[y], host);
      CommonHostOverlaps(hosts[x], others[y], host);
      assert OverlapsAny(hosts[x], others);
    }
  }

  /** For every accepted list, a request host is swapped by at most one credential. */
  lemma {:induction false} AtMostOneSwaps(creds: seq<Credential>, host: string, i: nat, j: nat)
    requires Unambiguous(creds) && i < |creds| && j < |creds| && Swaps(creds[i], host) && Swaps(creds[j], host)
    ensures i == j
  {
    SwapsShare(creds[i], creds[j], host);
    SwapsShare(creds[j], creds[i], host);
    assert SharesNone(creds, i) && SharesNone(creds, j);
  }

  /** The check reports nothing exactly for unambiguous lists. */
  lemma {:induction false} ConflictExactly(creds: seq<Credential>, i: nat, taken: map<string, string>)
    requires i <= |creds| && Checked(creds, i, taken)
    ensures FirstConflict(creds, i, taken).None? <==> Unambiguous(creds)
    decreases |creds| - i
  {
    if i == |creds| {
      CheckedAll(creds, taken);
    } else {
      var c := creds[i];
      var names, owner := EnvNames(c.secret), c.secret.name;
      assert creds[..i + 1][..i] == creds[..i];
      TakenExactly(taken, names, owner, Claimed(creds[..i]));
      HostConflictExactly(c, creds[..i]);
      assert forall j :: 0 <= j < i ==> creds[j] == creds[..i][j];
      if Distinct(Claimed(creds[..i + 1])) && SharesNone(creds, i) {
        ConflictExactly(creds, i + 1, ClaimAll(taken, names, owner));
      } else {
        AmbiguousPrefix(creds, i);
      }
    }
  }

  lemma {:induction false} TakenExactly(taken: map<string, string>, names: seq<string>, owner: string, before: seq<string>)
    requires taken.Keys == Elements(before) && Distinct(before)
    ensures FirstTaken(taken, names, owner).None? <==> Distinct(before + names)
    ensures FirstTaken(taken, names, owner).None? ==> ClaimAll(taken, names, owner).Keys == Elements(before + names)
    decreases |names|
  {
    if names == [] {
      assert before + names == before;
    } else if names[0] in taken {
      assert names[..0] == [] && before + [] == before && names[0] in before + names[..0];
      TakenTwice(before, names, 0);
    } else {
      var more := before + [names[0]];
      assert before + names == more + names[1..];
      assert Elements(more) == Elements(before) + {names[0]};
      TakenExactly(taken[names[0] := owner], names[1..], owner, more);
    }
  }

  lemma {:induction false} HostConflictExactly(c: Credential, others: seq<Credential>)
    ensures FirstHostConflict(c, others).None? <==> forall j :: 0 <= j < |others| ==> !ShareHost(c, others[j])
    decreases |others|
  {
    if others != [] {
      SharedExactly(c.secret.hosts, others[0].secret.hosts);
      HostConflictExactly(c, others[1..]);
      assert forall j :: 1 <= j < |others| ==> others[j] == others[1..][j - 1];
    }
  }
}
