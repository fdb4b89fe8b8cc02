/** The operator-managed egress Secret: proxy tokens minted once and kept across reconcile passes, and the
    proxy rules that must agree with them. */
module EgressSecret {
  import opened Text
  import opened Egress
  import opened Resolution
  import ChangeDetection
  import DotEnv

  type Data = map<string, string>

  const CONFIG_KEY: string := "proxy.yaml"

  /** One secrets rule of proxy.yaml: on these hosts, swap the proxy value for the sidecar's env var. */
  datatype Rule = Rule(sourceVar: string, proxyValue: string, matchHeaders: seq<string>, hosts: seq<string>)

  datatype Proxy = Proxy(domains: seq<string>, secrets: seq<Rule>)

  // ---- Tokens ----

  /** A token already in the Secret is kept; otherwise the one minted in this pass is used. */
  function TokenOf(existing: Option<Data>, name: string, minted: string): string
  {
    if existing.Some? && name in existing.value && existing.value[name] != "" then existing.value[name] else minted
  }

  function Tokens(creds: seq<Credential>, existing: Option<Data>, minted: seq<string>): (tokens: seq<string>)
    requires |minted| == |creds|
    ensures |tokens| == |creds|
    ensures forall i :: 0 <= i < |creds| ==> tokens[i] == TokenOf(existing, creds[i].secret.name, minted[i])
  {
    seq(|creds|, i requires 0 <= i < |creds| => TokenOf(existing, creds[i].secret.name, minted[i]))
  }

  /** The credential an env var name belongs to; the last one to claim it. */
  function Owner(creds: seq<Credential>, name: string): (i: nat)
    requires name in Claimed(creds)
    ensures i < |creds| && name in EnvNames(creds[i].secret)
  {
    if name in EnvNames(creds[|creds| - 1].secret) then |creds| - 1 else Owner(creds[..|creds| - 1], name)
  }

  /** The Secret's data: proxy.yaml, and under every env var name the token of the credential owning it. */
  function Build(creds: seq<Credential>, tokens: seq<string>, text: string): Data
    requires |tokens| == |creds|
  {
    map n | n in (set m | m in Claimed(creds)) + {CONFIG_KEY} ::
      if n in Claimed(creds) then tokens[Owner(creds, n)] else text
  }

  // ---- Proxy rules ----

  function GetMatchHeaders(s: Secret): seq<string>
  {
    if s.matchHeaders == [] then ["Authorization"] else s.matchHeaders
  }

  function RuleFor(c: Credential, token: string): Rule
  {
    Rule(c.sourceKey, token, GetMatchHeaders(c.secret), c.secret.hosts)
  }

  function Hosts(creds: seq<Credential>): seq<string>
  {
    if creds == [] then [] else Hosts(creds[..|creds| - 1]) + creds[|creds| - 1].secret.hosts
  }

  function Rules(creds: seq<Credential>, tokens: seq<string>): (rules: seq<Rule>)
    requires |tokens| == |creds|
    ensures |rules| == |creds| && forall i :: 0 <= i < |creds| ==> rules[i] == RuleFor(creds[i], tokens[i])
  {
    seq(|creds|, i requires 0 <= i < |creds| => RuleFor(creds[i], tokens[i]))
  }

  /** The allowlist in order of first appearance, then the credential hosts not yet on it. */
  function ProxyFor(creds: seq<Credential>, tokens: seq<string>, allowed: seq<string>): Proxy
    requires |tokens| == |creds|
  {
    Proxy(FirstSeen(allowed + Hosts(creds)), Rules(creds, tokens))
  }

  lemma {:induction false} FirstSeenDistinct(names: seq<string>)
    requires Distinct(names)
    ensures FirstSeen(names) == names
    decreases |names|
  {
    if names != [] {
      var n := |names| - 1;
      FirstSeenDistinct(names[..n]);
      assert names[..n] + [names[n]] == names;
    }
  }

  /** Append a host that is not on the list yet. */
  method AddHost(domains: seq<string>, host: string, ghost listed: seq<string>) returns (all: seq<string>)
    requires domains == FirstSeen(listed)
    ensures all == FirstSeen(listed + [host])
  {
    all := if host in domains then domains else domains + [host];
  }

  /** Append the hosts that are not on the list yet. */
  method AddHosts(domains: seq<string>, hosts: seq<string>, ghost listed: seq<string>) returns (all: seq<string>)
    requires domains == FirstSeen(listed)
    ensures all == FirstSeen(listed + hosts)
  {
    all := domains;
    ghost var names := listed;
    for i := 0 to |hosts|
      invariant names == listed + hosts[..i] && all == FirstSeen(names)
    {
      all := AddHost(all, hosts[i], names);
      names := names + [hosts[i]];
    }
    assert names == listed + hosts;
  }

  /** GetAllowedHosts: the bundled hosts, then the nonempty extra ones, without duplicates. */
  method GetAllowedHosts(bundled: seq<string>, extra: seq<string>) returns (hosts: seq<string>)
    requires Distinct(bundled)
    ensures hosts == FirstSeen(bundled + NonBlank(extra))
  {
    FirstSeenDistinct(bundled);
    hosts := AddHosts(bundled, NonBlank(extra), bundled);
  }

  /** buildEgressProxyYAML, before marshalling. */
  method BuildProxy(creds: seq<Credential>, tokens: seq<string>, allowed: seq<string>) returns (proxy: Proxy)
    requires |tokens| == |creds| && Distinct(allowed)
    ensures proxy == ProxyFor(creds, tokens, allowed)
  {
    var domains := AllowHosts(creds, allowed);
    var rules := [];
    for i := 0 to |creds|
      invariant |rules| == i && forall j :: 0 <= j < i ==> rules[j] == RuleFor(creds[j], tokens[j])
    {
      rules := rules + [RuleFor(creds[i], tokens[i])];
    }
    assert rules == Rules(creds, tokens);
    proxy := Proxy(domains, rules);
  }

  method AllowHosts(creds: seq<Credential>, allowed: seq<string>) returns (domains: seq<string>)
    requires Distinct(allowed)
    ensures domains == FirstSeen(allowed + Hosts(creds))
  {
    domains := allowed;
    FirstSeenDistinct(allowed);
    ghost var listed := allowed;
    for i := 0 to |creds|
      invariant listed == allowed + Hosts(creds[..i]) && domains == FirstSeen(listed)
    {
      domains := AddHosts(domains, creds[i].secret.hosts, listed);
      HostsSnoc(creds, i, allowed);
      listed := listed + creds[i].secret.hosts;
    }
    assert creds[..|creds|] == creds;
  }

  lemma {:induction false} HostsSnoc(creds: seq<Credential>, i: nat, allowed: seq<string>)
    requires i < |creds|
    ensures allowed + Hosts(creds[..i + 1]) == allowed + Hosts(creds[..i]) + creds[i].secret.hosts
  {
    assert creds[..i + 1][..i] == creds[..i];
  }

  lemma {:induction false} HostListed(creds: seq<Credential>, i: nat, host: string)
    requires i < |creds| && host in creds[i].secret.hosts
    ensures host in Hosts(creds)
    decreases |creds|
  {
    if i < |creds| - 1 {
      HostListed(creds[..|creds| - 1], i, host);
    }
  }

  /** Every host a rule matches is on the allowlist, which holds no host twice. */
  lemma {:induction false} RuleHostsAllowed(creds: seq<Credential>, tokens: seq<string>, allowed: seq<string>, i: nat, host: string)
    requires |tokens| == |creds| && i < |creds|
    ensures var p := ProxyFor(creds, tokens, allowed);
            Distinct(p.domains) && (host in p.secrets[i].hosts ==> host in p.domains)
  {
    FirstSeenOnce(allowed + Hosts(creds));
    if host in creds[i].secret.hosts {
      HostListed(creds, i, host);
      assert host in allowed + Hosts(creds);
    }
  }

  /** The allowlist of the proxy: exactly the allowed hosts and the hosts of the credentials. */
  lemma {:induction false} DomainsExactly(creds: seq<Credential>, tokens: seq<string>, allowed: seq<string>, host: string)
    requires |tokens| == |creds|
    ensures host in ProxyFor(creds, tokens, allowed).domains <==>
            host in allowed || exists i :: 0 <= i < |creds| && host in creds[i].secret.hosts
  {
    HostsExactly(creds, host);
    assert host in allowed + Hosts(creds) <==> host in allowed || host in Hosts(creds);
  }

  lemma {:induction false} HostsExactly(creds: seq<Credential>, host: string)
    ensures host in Hosts(creds) <==> exists i :: 0 <= i < |creds| && host in creds[i].secret.hosts
    decreases |creds|
  {
    if creds != [] {
      var n := |creds| - 1;
      HostsExactly(creds[..n], host);
      assert forall i :: 0 <= i < n ==> creds[..n][i] == creds[i];
    }
  }

  /** A rule applies to a request host. */
  predicate RuleMatches(r: Rule, host: string)
  {
    exists j :: 0 <= j < |r.hosts| && Matches(r.hosts[j], host)
  }

  /** Rule i applies to exactly the request hosts of credential i, looks in the declared headers, or in
      Authorization when none is declared, and reads the real value from the credential's source key. */
  lemma {:induction false} RulesExactly(creds: seq<Credential>, tokens: seq<string>, allowed: seq<string>, i: nat, host: string)
    requires |tokens| == |creds| && i < |creds|
    ensures var rules := ProxyFor(creds, tokens, allowed).secrets;
            && |rules| == |creds|
            && (RuleMatches(rules[i], host) <==> Swaps(creds[i], host))
            && rules[i].sourceVar == creds[i].sourceKey && rules[i].proxyValue == tokens[i]
            && (if creds[i].secret.matchHeaders == [] then rules[i].matchHeaders == ["Authorization"]
                else rules[i].matchHeaders == creds[i].secret.matchHeaders)
  {
  }

  /** For accepted credentials at most one rule applies to a request host, and one does when some credential
      has it. */
  lemma {:induction false} OneRuleApplies(creds: seq<Credential>, tokens: seq<string>, allowed: seq<string>, host: string)
    requires |tokens| == |creds| && Unambiguous(creds)
    ensures var rules := ProxyFor(creds, tokens, allowed).secrets;
            && (forall i, j :: 0 <= i < |rules| && 0 <= j < |rules| && RuleMatches(rules[i], host) && RuleMatches(rules[j], host) ==> i == j)
            && ((exists i :: 0 <= i < |rules| && RuleMatches(rules[i], host)) <==> exists i :: 0 <= i < |creds| && Swaps(creds[i], host))
  {
    var rules := ProxyFor(creds, tokens, allowed).secrets;
    forall i | 0 <= i < |creds| ensures RuleMatches(rules[i], host) <==> Swaps(creds[i], host) {
      RulesExactly(creds, tokens, allowed, i, host);
    }
    forall i, j | 0 <= i < |rules| && 0 <= j < |rules| && RuleMatches(rules[i], host) && RuleMatches(rules[j], host) ensures i == j {
      AtMostOneSwaps(creds, host, i, j);
    }
  }

  /** Every rule of a resolved list reads the key of the credentials Secret that holds its value. */
  lemma {:induction false} RulesReadRealKeys(providers: seq<Secret>, extra: seq<Secret>, keys: seq<string>, creds: seq<Credential>,
                                            tokens: seq<string>, allowed: seq<string>, i: nat)
    requires "" !in keys && |tokens| == |creds| && i < |creds|
    ensures Resolve(providers, extra, keys) == Resolved(creds) ==>
              HoldsValue(creds[i].secret, keys, ProxyFor(creds, tokens, allowed).secrets[i].sourceVar)
  {
    ResolvedExactly(providers, extra, keys);
    RulesExactly(creds, tokens, allowed, i, "");
    assert creds[i] in creds;
  }

  // ---- Building the Secret ----

  lemma {:induction false} OwnerOf(creds: seq<Credential>, i: nat, name: string)
    requires i < |creds|
    ensures name in EnvNames(creds[i].secret) ==> name in Claimed(creds)
    ensures name in EnvNames(creds[i].secret) && Distinct(Claimed(creds)) ==> Owner(creds, name) == i
  {
    if name in EnvNames(creds[i].secret) {
      ClaimedBy(creds, i, name);
      OneOwner(creds, i, Owner(creds, name), name);
    }
  }

  lemma {:induction false} ClaimedSnoc(creds: seq<Credential>, i: nat)
    requires i < |creds|
    ensures Claimed(creds[..i + 1]) == Claimed(creds[..i]) + EnvNames(creds[i].secret)
  {
    assert creds[..i + 1][..i] == creds[..i];
  }

  /** Write one credential's token under each of its env var names. */
  method WriteNames(names: seq<string>, token: string, data: Data) returns (r: Data)
    ensures r.Keys == data.Keys + set n | n in names
    ensures forall n :: n in r ==> r[n] == if n in names then token else data[n]
  {
    r := data;
    for i := 0 to |names|
      invariant r.Keys == data.Keys + set n | n in names[..i]
      invariant forall n :: n in r ==> r[n] == if n in names[..i] then token else data[n]
    {
      assert names[..i + 1] == names[..i] + [names[i]];
      r := r[names[i] := token];
    }
    assert names[..|names|] == names;
  }

  lemma {:induction false} OwnerSnoc(creds: seq<Credential>, i: nat, name: string)
    requires i < |creds| && name in Claimed(creds[..i + 1])
    ensures name !in EnvNames(creds[i].secret) ==> name in Claimed(creds[..i])
    ensures Owner(creds[..i + 1], name) == if name in EnvNames(creds[i].secret) then i else Owner(creds[..i], name)
  {
    ClaimedSnoc(creds, i);
    assert creds[..i + 1][..i] == creds[..i];
  }

  /** The data after the first i credentials. */
  ghost predicate Written(data: Data, creds: seq<Credential>, tokens: seq<string>, text: string, i: nat)
    requires |tokens| == |creds| && i <= |creds|
  {
    data == Build(creds[..i], tokens[..i], text)
  }

  lemma {:induction false} WrittenStep(data: Data, next: Data, creds: seq<Credential>, tokens: seq<string>, text: string, i: nat)
    requires |tokens| == |creds| && i < |creds| && Written(data, creds, tokens, text, i)
    requires var names := EnvNames(creds[i].secret);
             && next.Keys == data.Keys + (set n | n in names)
             && forall n :: n in next ==> next[n] == if n in names then tokens[i] else data[n]
    ensures Written(next, creds, tokens, text, i + 1)
  {
    ClaimedSnoc(creds, i);
    var want := Build(creds[..i + 1], tokens[..i + 1], text);
    assert next.Keys == want.Keys by {
      assert forall n :: n in Claimed(creds[..i + 1]) <==> n in Claimed(creds[..i]) || n in EnvNames(creds[i].secret);
    }
    forall n | n in next ensures next[n] == want[n] {
      WrittenValue(creds, tokens, text, i, n);
    }
  }

  lemma {:induction false} WrittenValue(creds: seq<Credential>, tokens: seq<string>, text: string, i: nat, n: string)
    requires |tokens| == |creds| && i < |creds|
    requires n in Build(creds[..i + 1], tokens[..i + 1], text)
    ensures n !in EnvNames(creds[i].secret) ==> n in Build(creds[..i], tokens[..i], text)
    ensures Build(creds[..i + 1], tokens[..i + 1], text)[n] ==
            if n in EnvNames(creds[i].secret) then tokens[i] else Build(creds[..i], tokens[..i], text)[n]
  {
    ClaimedSnoc(creds, i);
    if n in Claimed(creds[..i + 1]) {
      OwnerSnoc(creds, i, n);
    }
  }

  /** The loop that writes the tokens, whatever the claims. */
  method WriteTokens(creds: seq<Credential>, tokens: seq<string>, text: string) returns (data: Data)
    requires |tokens| == |creds|
    ensures data == Build(creds, tokens, text)
  {
    data := map[CONFIG_KEY := text];
    for i := 0 to |creds|
      invariant Written(data, creds, tokens, text, i)
    {
      var next := WriteNames(EnvNames(creds[i].secret), tokens[i], data);
      WrittenStep(data, next, creds, tokens, text, i);
      data := next;
    }
    assert creds[..|creds|] == creds && tokens[..|tokens|] == tokens;
  }

  /** buildEgressSecret, for credentials the claim check accepted. The tokens live in a map keyed by Name,
      as Names are unique then. */
  method BuildEgressSecret(creds: seq<Credential>, existing: Option<Data>, minted: seq<string>, allowed: seq<string>, render: Proxy -> string)
    returns (data: Data)
    requires Distinct(Claimed(creds)) && |minted| == |creds| && Distinct(allowed)
    ensures var tokens := Tokens(creds, existing, minted);
            data == Build(creds, tokens, render(ProxyFor(creds, tokens, allowed)))
  {
    var tokens: map<string, string> := map[];
    for i := 0 to |creds|
      invariant forall j :: 0 <= j < i ==>
        creds[j].secret.name in tokens && tokens[creds[j].secret.name] == TokenOf(existing, creds[j].secret.name, minted[j])
    {
      var name := creds[i].secret.name;
      forall j | 0 <= j < i ensures creds[j].secret.name != name {
        if creds[j].secret.name == name {
          OneOwner(creds, i, j, name);
        }
      }
      if existing.Some? && name in existing.value && existing.value[name] != "" {
        tokens := tokens[name := existing.value[name]];
      } else {
        tokens := tokens[name := minted[i]];
      }
    }
    var inOrder := seq(|creds|, i requires 0 <= i < |creds| => tokens[creds[i].secret.name]);
    assert inOrder == Tokens(creds, existing, minted);
    var proxy := BuildProxy(creds, inOrder, allowed);
    data := WriteTokens(creds, inOrder, render(proxy));
  }

  // ---- What a built Secret says ----

  /** Every env var name holds exactly the proxy value of the one rule owning it. */
  lemma {:induction false} NamesHoldProxyValues(creds: seq<Credential>, tokens: seq<string>, text: string, allowed: seq<string>, i: nat, name: string)
    requires |tokens| == |creds| && Distinct(Claimed(creds)) && i < |creds| && name in EnvNames(creds[i].secret)
    ensures name in Build(creds, tokens, text)
    ensures Build(creds, tokens, text)[name] == ProxyFor(creds, tokens, allowed).secrets[i].proxyValue
    ensures forall j :: 0 <= j < |creds| && name in EnvNames(creds[j].secret) ==> j == i
  {
    OwnerOf(creds, i, name);
    forall j | 0 <= j < |creds| && name in EnvNames(creds[j].secret) ensures j == i {
      OneOwner(creds, i, j, name);
    }
  }

  /** The Secret holds the env var names of the credentials and, unless one of them is named so, the rendered
      configuration under proxy.yaml; nothing else. */
  lemma {:induction false} SecretKeysExactly(creds: seq<Credential>, tokens: seq<string>, text: string)
    requires |tokens| == |creds|
    ensures forall n :: n in Build(creds, tokens, text) <==> n == "proxy.yaml" || exists i :: 0 <= i < |creds| && n in EnvNames(creds[i].secret)
    ensures "proxy.yaml" !in Claimed(creds) ==> Build(creds, tokens, text)["proxy.yaml"] == text
  {
    forall n ensures n in Claimed(creds) <==> exists i :: 0 <= i < |creds| && n in EnvNames(creds[i].secret) {
      ClaimedExactly(creds, n);
    }
  }

  lemma {:induction false} ClaimedExactly(creds: seq<Credential>, name: string)
    ensures name in Claimed(creds) <==> exists i :: 0 <= i < |creds| && name in EnvNames(creds[i].secret)
  {
    if name in Claimed(creds) {
      var i := Owner(creds, name);
      assert name in EnvNames(creds[i].secret);
    }
    if exists i :: 0 <= i < |creds| && name in EnvNames(creds[i].secret) {
      var i :| 0 <= i < |creds| && name in EnvNames(creds[i].secret);
      ClaimedBy(creds, i, name);
    }
  }

  // ---- Which keys of the Secret are tokens ----

  /** The pod wiring and the .env script take a well-formed env var name for a token, and proxy.yaml for none. */
  lemma {:induction false} TokenKeysAgree(k: string)
    ensures ChangeDetection.EnvName(k) <==> EnvShaped(k)
    ensures EnvShaped(k) ==> DotEnv.KeyChars(k)
    ensures DotEnv.KeyChars(k) && k != "" && !('0' <= k[0] <= '9') ==> EnvShaped(k)
  {
  }

  lemma {:induction false} ConfigKeyIsNoToken()
    ensures !ChangeDetection.EnvName(CONFIG_KEY) && !DotEnv.KeyChars(CONFIG_KEY)
  {
    assert CONFIG_KEY[5] == '.';
  }

  predicate AllEnvShaped(creds: seq<Credential>) { forall n :: n in Claimed(creds) ==> EnvShaped(n) }

  /** Of a built Secret, the token names the pod gets are exactly the env var names of the credentials. */
  lemma {:induction false} TokenNamesExactly(creds: seq<Credential>, tokens: seq<string>, text: string, keys: seq<string>, name: string)
    requires |tokens| == |creds| && AllEnvShaped(creds)
    requires ChangeDetection.SortedKeysOf(keys, Build(creds, tokens, text))
    ensures name in ChangeDetection.TokenNames(keys) <==> name in Claimed(creds)
  {
    ConfigKeyIsNoToken();
  }

  /** And they are exactly the keys the .env script prints from the mounted Secret. */
  lemma {:induction false} TokenEntriesExactly(creds: seq<Credential>, tokens: seq<string>, text: string, mount: DotEnv.Mount, name: string)
    requires |tokens| == |creds| && AllEnvShaped(creds) && DotEnv.Keys(mount) == Build(creds, tokens, text).Keys
    ensures name in DotEnv.Keys(DotEnv.TokenEntries(mount)) <==> name in Claimed(creds)
  {
    DotEnv.TokenKeys(mount);
    ConfigKeyIsNoToken();
  }

  predicate NonEmpty(tokens: seq<string>) { forall i :: 0 <= i < |tokens| ==> tokens[i] != "" }

  /** Rebuilding from the previous result takes every token over, so the Secret is a fixpoint. */
  lemma {:induction false} RebuildIsFixpoint(creds: seq<Credential>, tokens: seq<string>, text: string, minted: seq<string>)
    requires |tokens| == |creds| == |minted| && Distinct(Claimed(creds)) && NonEmpty(tokens)
    ensures Tokens(creds, Some(Build(creds, tokens, text)), minted) == tokens
  {
    var data := Build(creds, tokens, text);
    forall i | 0 <= i < |creds| ensures TokenOf(Some(data), creds[i].secret.name, minted[i]) == tokens[i] {
      OwnerOf(creds, i, creds[i].secret.name);
    }
  }

  // ---- Runs of passes ----

  /** One pass: the credentials it resolved, the tokens it would mint, and the rendered proxy.yaml. */
  datatype Pass = Pass(creds: seq<Credential>, minted: seq<string>, text: string)

  ghost predicate Accepted(p: Pass)
  {
    |p.minted| == |p.creds| && Distinct(Claimed(p.creds)) && CONFIG_KEY !in Claimed(p.creds) && NonEmpty(p.minted)
  }

  predicate Sized(passes: seq<Pass>) { forall i :: 0 <= i < |passes| ==> |passes[i].minted| == |passes[i].creds| }

  ghost predicate AllAccepted(passes: seq<Pass>)
  {
    Sized(passes) && forall i :: 0 <= i < |passes| ==> Accepted(passes[i])
  }

  function PassTokens(existing: Option<Data>, p: Pass): seq<string>
    requires |p.minted| == |p.creds|
  {
    Tokens(p.creds, existing, p.minted)
  }

  function After(existing: Option<Data>, p: Pass): Option<Data>
    requires |p.minted| == |p.creds|
  {
    Some(Build(p.creds, PassTokens(existing, p), p.text))
  }

  /** The Secrets before the first pass and after each pass of a run from an empty cluster. */
  ghost predicate Trace(passes: seq<Pass>, secrets: seq<Option<Data>>)
  {
    && AllAccepted(passes) && |secrets| == |passes| + 1 && secrets[0] == None
    && forall k :: 0 <= k < |passes| ==> secrets[k + 1] == After(secrets[k], passes[k])
  }

  predicate IsName(creds: seq<Credential>, name: string)
  {
    exists i :: 0 <= i < |creds| && creds[i].secret.name == name
  }

  lemma {:induction false} PassKeepsToken(existing: Option<Data>, p: Pass, name: string)
    requires Accepted(p) && IsName(p.creds, name)
    ensures var data := Build(p.creds, PassTokens(existing, p), p.text);
            && name in data && data[name] != ""
            && (existing.Some? && name in existing.value && existing.value[name] != "" ==> data[name] == existing.value[name])
  {
    var i :| 0 <= i < |p.creds| && p.creds[i].secret.name == name;
    OwnerOf(p.creds, i, name);
    assert p.minted[i] != "";
  }

  predicate Holds(secret: Option<Data>, name: string)
  {
    secret.Some? && name in secret.value && secret.value[name] != ""
  }

  /** A Name present in every pass from the first to the last keeps its token. */
  lemma {:induction false} NameKeepsToken(passes: seq<Pass>, secrets: seq<Option<Data>>, name: string, first: nat, last: nat)
    requires Trace(passes, secrets) && first <= last < |passes|
    requires forall k :: first <= k <= last ==> IsName(passes[k].creds, name)
    ensures Holds(secrets[first + 1], name) && Holds(secrets[last + 1], name)
    ensures secrets[last + 1].value[name] == secrets[first + 1].value[name]
    decreases last
  {
    PassKeepsToken(secrets[last], passes[last], name);
    if first < last {
      NameKeepsToken(passes, secrets, name, first, last - 1);
    }
  }

  // ---- Distinct tokens ----

  /** Freshly minted: distinct from each other and from every token in use. */
  ghost predicate Fresh(minted: seq<string>, tokens: seq<string>)
  {
    Distinct(minted) && forall i, j :: 0 <= i < |minted| && 0 <= j < |tokens| ==> minted[i] != tokens[j]
  }

  /** Two Names of the new list that one credential of the old list owned under two env var names. */
  ghost predicate SplitOwner(was: seq<Credential>, creds: seq<Credential>)
  {
    exists i, j :: 0 <= i < j < |creds| && OwnedTogether(was, creds[i].secret.name, creds[j].secret.name)
  }

  predicate OwnedTogether(was: seq<Credential>, a: string, b: string)
  {
    a in Claimed(was) && b in Claimed(was) && Owner(was, a) == Owner(was, b)
  }

  /** With fresh minting, the tokens of the next pass are distinct exactly when no two of its credentials
      inherit from one credential of the pass before. */
  lemma {:induction false} DistinctExactly(was: seq<Credential>, tokens: seq<string>, text: string, p: Pass)
    requires |tokens| == |was| && NonEmpty(tokens) && Distinct(tokens) && Accepted(p) && Fresh(p.minted, tokens)
    ensures Distinct(PassTokens(Some(Build(was, tokens, text)), p)) <==> !SplitOwner(was, p.creds)
  {
    var next := PassTokens(Some(Build(was, tokens, text)), p);
    forall i, j | 0 <= i < j < |p.creds|
      ensures next[i] != next[j] <==> !OwnedTogether(was, p.creds[i].secret.name, p.creds[j].secret.name)
    {
      NotConfigKey(p, i);
      NotConfigKey(p, j);
    }
  }

  lemma {:induction false} NotConfigKey(p: Pass, i: nat)
    requires Accepted(p) && i < |p.creds|
    ensures p.creds[i].secret.name != CONFIG_KEY
  {
    ClaimedBy(p.creds, i, p.creds[i].secret.name);
  }

  /** No env var name is an alias in one pass and a Name in the next. */
  ghost predicate NoAliasBecomesName(was: seq<Credential>, creds: seq<Credential>)
  {
    forall i, k :: 0 <= i < |creds| && 0 <= k < |was| ==> creds[i].secret.name !in was[k].secret.aliases
  }

  lemma {:induction false} NoSplitOwner(was: seq<Credential>, p: Pass)
    requires NoAliasBecomesName(was, p.creds) && Accepted(p)
    ensures !SplitOwner(was, p.creds)
  {
    forall i, j | 0 <= i < j < |p.creds|
      ensures !OwnedTogether(was, p.creds[i].secret.name, p.creds[j].secret.name)
    {
      var a, b := p.creds[i].secret.name, p.creds[j].secret.name;
      if OwnedTogether(was, a, b) {
        assert was[Owner(was, a)].secret.name == a == b;
        OneOwner(p.creds, i, j, a);
      }
    }
  }

  lemma {:induction false} TokensNonEmpty(existing: Option<Data>, p: Pass)
    requires Accepted(p)
    ensures NonEmpty(PassTokens(existing, p))
  {
  }

  /** Every token minted in the first n passes is new: distinct from its companions and from the tokens
      of the pass before. */
  ghost predicate FreshRun(passes: seq<Pass>, secrets: seq<Option<Data>>, n: nat)
    requires Trace(passes, secrets) && n < |passes|
  {
    Distinct(passes[0].minted) && forall k :: 1 <= k <= n ==> Fresh(passes[k].minted, PassTokens(secrets[k - 1], passes[k - 1]))
  }

  ghost predicate DistinctUpTo(passes: seq<Pass>, secrets: seq<Option<Data>>, n: nat)
    requires Trace(passes, secrets) && n < |passes|
  {
    forall k :: 0 <= k <= n ==> Distinct(PassTokens(secrets[k], passes[k]))
  }

  /** Over every run with fresh minting, distinct credentials hold distinct tokens after every pass exactly
      when no pass splits the env var names of one credential between two Names of the next. */
  lemma {:induction false} TokensDistinctExactly(passes: seq<Pass>, secrets: seq<Option<Data>>, n: nat)
    requires Trace(passes, secrets) && n < |passes| && FreshRun(passes, secrets, n)
    ensures DistinctUpTo(passes, secrets, n) <==> forall k :: 1 <= k <= n ==> !SplitOwner(passes[k - 1].creds, passes[k].creds)
  {
    if n == 0 {
      assert PassTokens(secrets[0], passes[0]) == passes[0].minted;
    } else {
      TokensDistinctExactly(passes, secrets, n - 1);
      if DistinctUpTo(passes, secrets, n - 1) {
        var was := passes[n - 1];
        TokensNonEmpty(secrets[n - 1], was);
        DistinctExactly(was.creds, PassTokens(secrets[n - 1], was), was.text, passes[n]);
      }
    }
  }

  /** In particular they stay distinct as long as no alias becomes a Name. */
  lemma {:induction false} TokensStayDistinct(passes: seq<Pass>, secrets: seq<Option<Data>>, n: nat)
    requires Trace(passes, secrets) && n < |passes| && FreshRun(passes, secrets, n)
    requires forall k :: 1 <= k <= n ==> NoAliasBecomesName(passes[k - 1].creds, passes[k].creds)
    ensures DistinctUpTo(passes, secrets, n)
  {
    forall k | 1 <= k <= n ensures !SplitOwner(passes[k - 1].creds, passes[k].creds) {
      NoSplitOwner(passes[k - 1].creds, passes[k]);
    }
    TokensDistinctExactly(passes, secrets, n);
  }

  /** Gemini with its alias, and the same two env var names as credentials of their own. */
  const GEMINI := Credential(Secret("GEMINI_API_KEY", ["generativelanguage.googleapis.com"], [], ["GOOGLE_API_KEY"]), "GEMINI_API_KEY")
  const GEMINI_ONLY := Credential(Secret("GEMINI_API_KEY", ["generativelanguage.googleapis.com"], [], []), "GEMINI_API_KEY")
  const GOOGLE := Credential(Secret("GOOGLE_API_KEY", ["maps.googleapis.com"], [], []), "GOOGLE_API_KEY")

  lemma {:induction false} SplitPassesAccepted(first: Pass, second: Pass)
    requires first.creds == [GEMINI] && first.minted == ["t"] && second.creds == [GEMINI_ONLY, GOOGLE] && second.minted == ["u", "v"]
    ensures Accepted(first) && Accepted(second)
  {
    assert |CONFIG_KEY| == 10;
  }

  lemma {:induction false} SplitInherits(text: string, second: Pass)
    requires second.creds == [GEMINI_ONLY, GOOGLE] && second.minted == ["u", "v"]
    ensures PassTokens(Some(Build([GEMINI], ["t"], text)), second) == ["t", "t"]
  {
    assert |CONFIG_KEY| == 10;
    var names := Claimed([GEMINI]);
    assert names[0] in names && names[1] in names;
  }

  /** A run in which they do not stay distinct: the alias is split off as a Name of its own and takes the
      shared token along, though every list is accepted and every minted token is fresh. */
  lemma {:induction false} SplitAliasSharesToken(first: Pass, second: Pass) returns (secrets: seq<Option<Data>>)
    requires first.creds == [GEMINI] && first.minted == ["t"] && second.creds == [GEMINI_ONLY, GOOGLE] && second.minted == ["u", "v"]
    ensures Trace([first, second], secrets) && FreshRun([first, second], secrets, 1)
    ensures Unambiguous(first.creds) && Unambiguous(second.creds)
    ensures PassTokens(secrets[1], second) == ["t", "t"]
  {
    SplitPassesAccepted(first, second);
    secrets := [None, After(None, first), After(After(None, first), second)];
    TwoPasses(first, second, secrets);
    assert PassTokens(None, first) == ["t"];
    SplitInherits(first.text, second);
  }

  lemma {:induction false} TwoPasses(first: Pass, second: Pass, secrets: seq<Option<Data>>)
    requires Accepted(first) && Accepted(second) && |secrets| == 3 && secrets[0] == None
    requires secrets[1] == After(None, first) && secrets[2] == After(secrets[1], second)
    ensures Trace([first, second], secrets)
    ensures Distinct(first.minted) && Fresh(second.minted, PassTokens(None, first)) ==> FreshRun([first, second], secrets, 1)
  {
  }

  // ---- The reconciler ----

  datatype ApiCall = SecretGet | SecretDelete | SecretWrite | StatusWrite

  /** The call that would bring the Secret to its target is needed and fails. */
  predicate Blocked(secret: Option<Data>, target: Option<Data>, faults: set<ApiCall>)
  {
    secret != target && (if target.None? then SecretDelete else SecretWrite) in faults
  }

  /** What the Secret should be: gone while egress is disabled, else rebuilt from what is there. */
  function Target(creds: Option<seq<Credential>>, existing: Option<Data>, minted: seq<string>, allowed: seq<string>, render: Proxy -> string): Option<Data>
    requires creds.Some? ==> |minted| == |creds.value|
  {
    if creds.None? then None
    else
      var tokens := Tokens(creds.value, existing, minted);
      Some(Build(creds.value, tokens, render(ProxyFor(creds.value, tokens, allowed))))
  }

  /** The Secret in the cluster and the name recorded in the agent's status. */
  class Reconciler {
    const secretName: string
    var secret: Option<Data>
    var recorded: string
    var writes: nat

    constructor (name: string)
      ensures secretName == name && secret == None && recorded == "" && writes == 0
    {
      secretName, secret, recorded, writes := name, None, "", 0;
    }

    /** reconcileEgressSecret; `creds` is None when validation, a read or the resolution failed. */
    method Reconcile(enabled: bool, creds: Option<seq<Credential>>, minted: seq<string>, allowed: seq<string>, render: Proxy -> string,
                     faults: set<ApiCall>)
      returns (failed: bool)
      requires creds.Some? ==> Distinct(Claimed(creds.value)) && |minted| == |creds.value|
      requires Distinct(allowed)
      modifies this
      ensures var unusable := SecretGet in faults || (enabled && creds.None?);
              var target := Target(if enabled then creds else None, old(secret), minted, allowed, render);
              var name := if enabled then secretName else "";
              if unusable then failed && secret == old(secret) && recorded == old(recorded)
              else if Blocked(old(secret), target, faults) then failed && secret == old(secret) && recorded == old(recorded)
              else
                && secret == target
                && failed == (old(recorded) != name && StatusWrite in faults)
                && recorded == if failed then old(recorded) else name
      ensures !failed ==> if enabled then secret.Some? && recorded == secretName else secret.None? && recorded == ""
      ensures faults == {} ==> (failed <==> enabled && creds.None?)
      ensures writes == old(writes) + if secret == old(secret) then 0 else 1
    {
      if SecretGet in faults {
        return true;
      }
      if !enabled {
        if secret.Some? {
          if SecretDelete in faults {
            return true;
          }
          secret := None;
          writes := writes + 1;
        }
        failed := Record("", faults);
        return;
      }
      if creds.None? {
        return true;
      }
      var data := BuildEgressSecret(creds.value, secret, minted, allowed, render);
      if secret.None? || secret.value != data {
        if SecretWrite in faults {
          return true;
        }
        secret := Some(data);
        writes := writes + 1;
      }
      failed := Record(secretName, faults);
    }

    /** recordEgressSecret: the status is written only when the recorded name changes. */
    method Record(name: string, faults: set<ApiCall>) returns (failed: bool)
      modifies this
      ensures failed == (old(recorded) != name && StatusWrite in faults)
      ensures recorded == (if failed then old(recorded) else name) && secret == old(secret) && writes == old(writes)
    {
      if recorded == name {
        return false;
      }
      if StatusWrite in faults {
        return true;
      }
      recorded := name;
      failed := false;
    }
  }

  /** A second pass over the same credentials writes nothing, whatever it would have minted and whatever
      fails in either pass, unless the first could not write. */
  method ReconcileTwice(r: Reconciler, creds: seq<Credential>, minted: seq<string>, minted': seq<string>, allowed: seq<string>, render: Proxy -> string,
                        faults: set<ApiCall>, faults': set<ApiCall>)
    requires Distinct(Claimed(creds)) && |minted| == |minted'| == |creds| && NonEmpty(minted) && Distinct(allowed)
    modifies r
    ensures r.writes <= old(r.writes) + 1
  {
    ghost var before := r.secret;
    var _ := r.Reconcile(true, Some(creds), minted, allowed, render, faults);
    ghost var tokens := Tokens(creds, before, minted);
    RebuildIsFixpoint(creds, tokens, render(ProxyFor(creds, tokens, allowed)), minted');
    var _ := r.Reconcile(true, Some(creds), minted', allowed, render, faults');
  }
}
