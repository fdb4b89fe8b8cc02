/** The byte streams fed to the config hash and the egress hash: canonical (map iteration order does not
    matter) and injective, so that the hash annotations change exactly when the data does. */
module ChangeDetection {
  import opened Text

  type Data = map<string, string>

  // ---- Byte-lexicographic order and sorted keys ----

  predicate Less(a: string, b: string)
  {
    b != "" && (a == "" || a[0] < b[0] || (a[0] == b[0] && Less(a[1..], b[1..])))
  }

  lemma {:induction false} LessTransitive(a: string, b: string, c: string)
    requires Less(a, b) && Less(b, c)
    ensures Less(a, c)
    decreases |a|
  {
    if a != "" && a[0] == b[0] == c[0] {
      LessTransitive(a[1..], b[1..], c[1..]);
    }
  }

  lemma {:induction false} LessTotal(a: string, b: string)
    ensures !(Less(a, b) && Less(b, a)) && (a != b ==> Less(a, b) || Less(b, a)) && (a == b ==> !Less(a, b))
    decreases |a|
  {
    if a != "" && b != "" && a[0] == b[0] {
      LessTotal(a[1..], b[1..]);
      assert a == [a[0]] + a[1..] && b == [b[0]] + b[1..];
    }
  }

  predicate Sorted(keys: seq<string>)
  {
    forall i, j :: 0 <= i < j < |keys| ==> Less(keys[i], keys[j])
  }

  ghost predicate SortedKeysOf(keys: seq<string>, data: Data)
  {
    Sorted(keys) && forall k :: k in keys <==> k in data
  }

  /** Put a new key where it belongs. */
  method InsertKey(keys: seq<string>, key: string) returns (more: seq<string>)
    requires Sorted(keys) && key !in keys
    ensures Sorted(more) && forall k :: k in more <==> k == key || k in keys
  {
    var i := 0;
    while i < |keys| && Less(keys[i], key)
      invariant 0 <= i <= |keys|
      invariant forall j :: 0 <= j < i ==> Less(keys[j], key)
    {
      i := i + 1;
    }
    InsertSorted(keys, key, i);
    more := keys[..i] + [key] + keys[i..];
  }

  /** Collect the keys in whatever order the map gives them, keeping the list sorted. */
  method SortedKeys(data: Data) returns (keys: seq<string>)
    ensures SortedKeysOf(keys, data)
  {
    keys := [];
    var todo := data.Keys;
    while todo != {}
      invariant Sorted(keys) && todo <= data.Keys
      invariant forall k :: k in data ==> (k in keys <==> k !in todo)
      invariant forall k :: k in keys ==> k in data
    {
      var key :| key in todo;
      keys := InsertKey(keys, key);
      todo := todo - {key};
    }
  }

  lemma {:induction false} InsertSorted(keys: seq<string>, key: string, i: nat)
    requires Sorted(keys) && key !in keys && i <= |keys|
    requires forall j :: 0 <= j < i ==> Less(keys[j], key)
    requires i < |keys| ==> !Less(keys[i], key)
    ensures Sorted(keys[..i] + [key] + keys[i..])
    ensures forall k :: k in keys[..i] + [key] + keys[i..] <==> k == key || k in keys
  {
    forall j | i <= j < |keys| ensures Less(key, keys[j]) {
      LessTotal(keys[i], key);
      if i < j {
        LessTransitive(key, keys[i], keys[j]);
      }
    }
    assert keys == keys[..i] + keys[i..];
  }

  /** A sorted list is determined by its elements. */
  lemma {:induction false} SortedUnique(a: seq<string>, b: seq<string>)
    requires Sorted(a) && Sorted(b) && forall k :: k in a <==> k in b
    ensures a == b
    decreases |a|
  {
    assert |a| > 0 ==> a[0] in b;
    assert |b| > 0 ==> b[0] in a;
    if a != [] {
      var i :| 0 <= i < |b| && b[i] == a[0];
      var j :| 0 <= j < |a| && a[j] == b[0];
      if i != 0 { LessTotal(a[0], b[0]); }
      assert a[0] == b[0];
      forall k | k in a[1..] ensures k in b[1..] { TailMember(a, b, k); }
      forall k | k in b[1..] ensures k in a[1..] { TailMember(b, a, k); }
      SortedUnique(a[1..], b[1..]);
      assert a == [a[0]] + a[1..] && b == [b[0]] + b[1..];
    }
  }

  lemma {:induction false} TailMember(a: seq<string>, b: seq<string>, k: string)
    requires Sorted(a) && a != [] && b != [] && a[0] == b[0] && k in a[1..] && k in b
    ensures k in b[1..]
  {
    var i :| 0 <= i < |a[1..]| && a[1..][i] == k;
    assert Less(a[0], a[i + 1]);
    LessTotal(k, a[0]);
    assert b == [b[0]] + b[1..];
  }

  // ---- NUL-terminated fields ----

  predicate NulFree(s: string) { '\0' !in s }

  ghost predicate NulFreeData(data: Data)
  {
    forall k :: k in data ==> NulFree(k) && NulFree(data[k])
  }

  /** The first NUL splits the stream the same way on both sides. */
  lemma {:induction false} FieldInjective(a: string, x: string, b: string, y: string)
    requires NulFree(a) && NulFree(b) && a + "\0" + x == b + "\0" + y
    ensures a == b && x == y
    decreases |a|
  {
    var s, t := a + "\0" + x, b + "\0" + y;
    if a == "" {
      assert s[0] == '\0' && t[0] == '\0';
      assert b == "";
      assert s[1..] == x && t[1..] == y;
    } else {
      assert s[0] == a[0] && t[0] == s[0];
      assert b != "";
      assert s[1..] == a[1..] + "\0" + x && t[1..] == b[1..] + "\0" + y;
      FieldInjective(a[1..], x, b[1..], y);
      assert a == [a[0]] + a[1..] && b == [b[0]] + b[1..];
    }
  }

  // ---- The config hash ----

  /** `fmt.Fprintf(h, "%s\x00%s\x00", k, data[k])` for every key in turn. */
  function ConfigStream(keys: seq<string>, data: Data): string
    requires forall k :: k in keys ==> k in data
  {
    if keys == [] then ""
    else keys[0] + "\0" + (data[keys[0]] + "\0" + ConfigStream(keys[1..], data))
  }

  lemma {:induction false} ConfigStreamSnoc(keys: seq<string>, k: string, data: Data)
    requires k in data && forall l :: l in keys ==> l in data
    ensures ConfigStream(keys + [k], data) == ConfigStream(keys, data) + (k + "\0" + data[k] + "\0")
    decreases |keys|
  {
    if keys == [] {
      assert (keys + [k])[1..] == [];
      assert k + "\0" + (data[k] + "\0" + "") == "" + (k + "\0" + data[k] + "\0");
    } else {
      assert (keys + [k])[0] == keys[0] && (keys + [k])[1..] == keys[1..] + [k];
      ConfigStreamSnoc(keys[1..], k, data);
      var rest, row := ConfigStream(keys[1..], data), k + "\0" + data[k] + "\0";
      var head, v := keys[0], data[keys[0]];
      assert head + "\0" + (v + "\0" + (rest + row)) == head + "\0" + (v + "\0" + rest) + row;
    }
  }

  /** What configMapDataHash writes to the hash. */
  method ConfigMapStream(data: Data) returns (stream: string)
    ensures exists keys :: SortedKeysOf(keys, data)
    ensures forall keys :: SortedKeysOf(keys, data) ==> stream == ConfigStream(keys, data)
  {
    var sorted := SortedKeys(data);
    stream := "";
    for i := 0 to |sorted|
      invariant stream == ConfigStream(sorted[..i], data)
    {
      var k := sorted[i];
      assert k in sorted;
      ConfigStreamSnoc(sorted[..i], k, data);
      assert sorted[..i] + [k] == sorted[..i + 1];
      stream := stream + (k + "\0" + data[k] + "\0");
    }
    assert sorted[..|sorted|] == sorted;
    forall keys | SortedKeysOf(keys, data) ensures keys == sorted {
      SortedUnique(keys, sorted);
    }
  }

  lemma {:induction false} ConfigStreamInjective(keys: seq<string>, data: Data, keys': seq<string>, data': Data)
    requires (forall k :: k in keys ==> k in data) && (forall k :: k in keys' ==> k in data')
    requires NulFreeData(data) && NulFreeData(data')
    requires ConfigStream(keys, data) == ConfigStream(keys', data')
    ensures keys == keys' && forall k :: k in keys ==> data[k] == data'[k]
    decreases |keys|
  {
    if keys != [] && keys' != [] {
      var k, k' := keys[0], keys'[0];
      assert k in keys && k' in keys';
      var rest, rest' := ConfigStream(keys[1..], data), ConfigStream(keys'[1..], data');
      FieldInjective(k, data[k] + "\0" + rest, k', data'[k'] + "\0" + rest');
      FieldInjective(data[k], rest, data'[k'], rest');
      ConfigStreamInjective(keys[1..], data, keys'[1..], data');
      assert keys == [k] + keys[1..] && keys' == [k'] + keys'[1..];
    }
  }

  /** Whatever order the two maps are iterated in, and short of a collision on these two streams, the
      config hash differs exactly when the ConfigMap data differs. */
  lemma {:induction false} ConfigHashDetectsChange(digest: string -> string, keys: seq<string>, data: Data, keys': seq<string>, data': Data)
    requires SortedKeysOf(keys, data) && SortedKeysOf(keys', data')
    requires NulFreeData(data) && NulFreeData(data')
    requires var s, s' := ConfigStream(keys, data), ConfigStream(keys', data');
             digest(s) == digest(s') ==> s == s'
    ensures digest(ConfigStream(keys, data)) == digest(ConfigStream(keys', data')) <==> data == data'
  {
    if data == data' {
      SortedUnique(keys, keys');
    }
    if digest(ConfigStream(keys, data)) == digest(ConfigStream(keys', data')) {
      ConfigStreamInjective(keys, data, keys', data');
      assert data.Keys == data'.Keys;
      forall k | k in data ensures data[k] == data'[k] { assert k in keys; }
    }
  }

  /** With a NUL inside a value the stream no longer tells the entries apart. */
  lemma NulBreaksInjectivity()
    ensures var one, two := map["a" := "x\0b\0y"], map["a" := "x", "b" := "y"];
            one != two && ConfigStream(["a"], one) == ConfigStream(["a", "b"], two)
  {
    var one, two := map["a" := "x\0b\0y"], map["a" := "x", "b" := "y"];
    assert "b" !in one && "b" in two;
    assert ["a"][1..] == [] && ["a", "b"][1..] == ["b"] && ["b"][1..] == [];
    assert ConfigStream([], one) == "" && ConfigStream([], two) == "";
    assert ConfigStream(["a"], one) == "a" + "\0" + ("x\0b\0y" + "\0" + "");
    assert ConfigStream(["b"], two) == "b" + "\0" + ("y" + "\0" + "");
    assert ConfigStream(["a", "b"], two) == "a" + "\0" + ("x" + "\0" + ConfigStream(["b"], two));
  }

  // ---- The egress hash ----

  type Row = (string, string, string)

  /** `fmt.Fprintf(h, "%s\x00%s\x00%s\x00", src.name, k, secret.Data[k])`. */
  function RowText(r: Row): string { r.0 + "\0" + (r.1 + "\0" + (r.2 + "\0")) }

  function RowStream(rows: seq<Row>): string
  {
    if rows == [] then "" else RowText(rows[0]) + RowStream(rows[1..])
  }

  ghost predicate NulFreeRows(rows: seq<Row>)
  {
    forall i :: 0 <= i < |rows| ==> NulFree(rows[i].0) && NulFree(rows[i].1) && NulFree(rows[i].2)
  }

  lemma {:induction false} RowInjective(r: Row, x: string, r': Row, x': string)
    requires NulFree(r.0) && NulFree(r.1) && NulFree(r.2) && NulFree(r'.0) && NulFree(r'.1) && NulFree(r'.2)
    requires RowText(r) + x == RowText(r') + x'
    ensures r == r' && x == x'
  {
    assert RowText(r) + x == r.0 + "\0" + (r.1 + "\0" + (r.2 + "\0" + x));
    assert RowText(r') + x' == r'.0 + "\0" + (r'.1 + "\0" + (r'.2 + "\0" + x'));
    FieldInjective(r.0, r.1 + "\0" + (r.2 + "\0" + x), r'.0, r'.1 + "\0" + (r'.2 + "\0" + x'));
    FieldInjective(r.1, r.2 + "\0" + x, r'.1, r'.2 + "\0" + x');
    FieldInjective(r.2, x, r'.2, x');
  }

  lemma {:induction false} RowStreamInjective(rows: seq<Row>, rows': seq<Row>)
    requires NulFreeRows(rows) && NulFreeRows(rows') && RowStream(rows) == RowStream(rows')
    ensures rows == rows'
    decreases |rows|
  {
    if rows != [] && rows' != [] {
      RowInjective(rows[0], RowStream(rows[1..]), rows'[0], RowStream(rows'[1..]));
      RowStreamInjective(rows[1..], rows'[1..]);
      assert rows == [rows[0]] + rows[1..] && rows' == [rows'[0]] + rows'[1..];
    }
  }

  lemma {:induction false} RowStreamSnoc(rows: seq<Row>, r: Row)
    ensures RowStream(rows + [r]) == RowStream(rows) + RowText(r)
    decreases |rows|
  {
    if rows == [] {
      assert (rows + [r])[1..] == [];
      assert RowText(r) + "" == "" + RowText(r);
    } else {
      assert (rows + [r])[0] == rows[0] && (rows + [r])[1..] == rows[1..] + [r];
      RowStreamSnoc(rows[1..], r);
      assert RowText(rows[0]) + (RowStream(rows[1..]) + RowText(r)) == RowText(rows[0]) + RowStream(rows[1..]) + RowText(r);
    }
  }

  /** A Go map lookup: the empty value for a missing key. */
  function Lookup(data: Data, k: string): string { if k in data then data[k] else "" }

  function RowsOf(name: string, keys: seq<string>, data: Data): (rows: seq<Row>)
    ensures |rows| == |keys|
    ensures forall i :: 0 <= i < |rows| ==> rows[i] == (name, keys[i], Lookup(data, keys[i]))
  {
    seq(|keys|, i requires 0 <= i < |keys| => (name, keys[i], Lookup(data, keys[i])))
  }

  predicate Letter(c: char) { 'A' <= c <= 'Z' || 'a' <= c <= 'z' || c == '_' }

  /** `^[A-Za-z_][A-Za-z0-9_]*$`: the keys of the egress Secret that hold tokens. */
  predicate EnvName(k: string)
  {
    k != "" && Letter(k[0]) && forall i :: 0 <= i < |k| ==> Letter(k[i]) || '0' <= k[i] <= '9'
  }

  function TokenNames(keys: seq<string>): (names: seq<string>)
    ensures forall k :: k in names <==> k in keys && EnvName(k)
  {
    if keys == [] then []
    else TokenNames(keys[..|keys| - 1]) + if EnvName(keys[|keys| - 1]) then [keys[|keys| - 1]] else []
  }

  /** The Secrets the pod reads at start: the CA (one key of it), the egress Secret and, when one is
      named, the credentials Secret. */
  datatype Names = Names(ca: string, caKey: string, egress: string, credentials: string)

  datatype Inputs = Pending(missing: string) | Inputs(tokenNames: seq<string>, stream: string)

  /** The rows hashed from one source: the listed keys, or every key in order. */
  ghost predicate HashedRows(name: string, only: Option<string>, data: Data, keys: seq<string>)
  {
    if only.Some? then keys == [only.value] else SortedKeysOf(keys, data)
  }

  method HashSource(name: string, only: Option<string>, data: Data, before: string, ghost rows: seq<Row>)
    returns (stream: string, keys: seq<string>)
    requires before == RowStream(rows)
    ensures HashedRows(name, only, data, keys)
    ensures stream == RowStream(rows + RowsOf(name, keys, data))
  {
    if only.Some? {
      keys := [only.value];
    } else {
      keys := SortedKeys(data);
    }
    ghost var written := RowsOf(name, keys, data);
    var part := "";
    for i := 0 to |keys|
      invariant part == RowStream(written[..i])
    {
      RowStreamPrefix(written, i);
      part := part + RowText((name, keys[i], Lookup(data, keys[i])));
    }
    assert written[..|keys|] == written;
    stream := before + part;
    RowStreamAppend(rows, written);
  }

  lemma {:induction false} RowStreamPrefix(rows: seq<Row>, i: nat)
    requires i < |rows|
    ensures RowStream(rows[..i + 1]) == RowStream(rows[..i]) + RowText(rows[i])
  {
    RowStreamSnoc(rows[..i], rows[i]);
    assert rows[..i + 1] == rows[..i] + [rows[i]];
  }

  lemma {:induction false} RowStreamAppend(a: seq<Row>, b: seq<Row>)
    ensures RowStream(a + b) == RowStream(a) + RowStream(b)
    decreases |a|
  {
    if a == [] {
      assert a + b == b;
    } else {
      assert (a + b)[0] == a[0] && (a + b)[1..] == a[1..] + b;
      RowStreamAppend(a[1..], b);
      assert RowText(a[0]) + (RowStream(a[1..]) + RowStream(b)) == RowText(a[0]) + RowStream(a[1..]) + RowStream(b);
    }
  }

  /** The rows of all sources, for the sorted key lists of the two Secrets hashed whole. */
  function AllRows(n: Names, secrets: map<string, Data>, egressKeys: seq<string>, credentialKeys: seq<string>): seq<Row>
    requires n.ca in secrets && n.egress in secrets && (n.credentials != "" ==> n.credentials in secrets)
  {
    RowsOf(n.ca, [n.caKey], secrets[n.ca]) + RowsOf(n.egress, egressKeys, secrets[n.egress])
    + CredentialRows(n, secrets, credentialKeys)
  }

  function CredentialRows(n: Names, secrets: map<string, Data>, keys: seq<string>): seq<Row>
    requires n.credentials != "" ==> n.credentials in secrets
  {
    if n.credentials == "" then [] else RowsOf(n.credentials, keys, secrets[n.credentials])
  }

  /** A usable set of names: the CA and egress Secrets always have one, and validation keeps the credentials
      Secret apart from the operator's own. */
  predicate ValidNames(n: Names) { n.ca != "" && n.egress != "" && n.ca != n.egress && n.credentials != n.egress }

  ghost predicate Complete(n: Names, secrets: map<string, Data>)
  {
    n.ca in secrets && n.egress in secrets && (n.credentials != "" ==> n.credentials in secrets)
  }

  ghost predicate KeyLists(n: Names, secrets: map<string, Data>, ek: seq<string>, ck: seq<string>)
    requires Complete(n, secrets)
  {
    && SortedKeysOf(ek, secrets[n.egress])
    && if n.credentials == "" then ck == [] else SortedKeysOf(ck, secrets[n.credentials])
  }

  /** egressPodInputs: pending exactly while a named Secret is missing, else the token names and the stream. */
  method EgressPodInputs(n: Names, secrets: map<string, Data>) returns (r: Inputs)
    requires ValidNames(n)
    ensures r.Pending? <==> !Complete(n, secrets)
    ensures r.Pending? ==> r.missing !in secrets && r.missing in {n.ca, n.egress, n.credentials}
    ensures r.Inputs? ==> exists ek, ck :: KeyLists(n, secrets, ek, ck)
    ensures r.Inputs? ==> forall ek, ck :: KeyLists(n, secrets, ek, ck) ==>
              r.stream == RowStream(AllRows(n, secrets, ek, ck)) && r.tokenNames == TokenNames(ek)
  {
    if n.ca !in secrets {
      return Pending(n.ca);
    }
    if n.egress !in secrets {
      return Pending(n.egress);
    }
    if n.credentials != "" && n.credentials !in secrets {
      return Pending(n.credentials);
    }
    ghost var ek, ck;
    r, ek, ck := HashSources(n, secrets);
    forall ek', ck' | KeyLists(n, secrets, ek', ck') ensures ek' == ek && ck' == ck {
      KeyListsUnique(n, secrets, ek, ck, ek', ck');
    }
  }

  lemma {:induction false} KeyListsUnique(n: Names, secrets: map<string, Data>, ek: seq<string>, ck: seq<string>,
                                          ek': seq<string>, ck': seq<string>)
    requires Complete(n, secrets) && KeyLists(n, secrets, ek, ck) && KeyLists(n, secrets, ek', ck')
    ensures ek == ek' && ck == ck'
  {
    SortedUnique(ek, ek');
    if n.credentials != "" {
      SortedUnique(ck, ck');
    }
  }

  /** The loop over the sources, once they are all there. */
  method HashSources(n: Names, secrets: map<string, Data>) returns (r: Inputs, ghost ek: seq<string>, ghost ck: seq<string>)
    requires Complete(n, secrets)
    ensures KeyLists(n, secrets, ek, ck)
    ensures r == Inputs(TokenNames(ek), RowStream(AllRows(n, secrets, ek, ck)))
  {
    var first, _ := HashSource(n.ca, Some(n.caKey), secrets[n.ca], "", []);
    ghost var a := RowsOf(n.ca, [n.caKey], secrets[n.ca]);
    assert [] + a == a;
    var second, keys := HashSource(n.egress, None, secrets[n.egress], first, a);
    ek, ck := keys, [];
    ghost var b := a + RowsOf(n.egress, keys, secrets[n.egress]);
    var third := second;
    if n.credentials != "" {
      var more;
      third, more := HashSource(n.credentials, None, secrets[n.credentials], second, b);
      ck := more;
    } else {
      assert b + [] == b;
    }
    assert AllRows(n, secrets, ek, ck) == b + CredentialRows(n, secrets, ck);
    r := Inputs(TokenNames(keys), third);
  }

  lemma {:induction false} RowsDetermineData(name: string, keys: seq<string>, data: Data, keys': seq<string>, data': Data)
    requires SortedKeysOf(keys, data) && SortedKeysOf(keys', data')
    requires RowsOf(name, keys, data) == RowsOf(name, keys', data')
    ensures data == data'
  {
    var rows, rows' := RowsOf(name, keys, data), RowsOf(name, keys', data');
    forall i | 0 <= i < |keys| ensures keys[i] == keys'[i] && data[keys[i]] == data'[keys[i]] {
      assert rows[i] == rows'[i];
      assert keys[i] in data && keys'[i] in data';
    }
    assert keys == keys';
    assert data.Keys == data'.Keys;
    forall k | k in data ensures data[k] == data'[k] { assert k in keys; }
  }

  ghost predicate IsCut(rows: seq<Row>, n: nat, name: string)
  {
    n <= |rows| && forall i :: 0 <= i < |rows| ==> (rows[i].0 == name <==> i < n)
  }

  lemma {:induction false} CutUnique(rows: seq<Row>, n: nat, m: nat, name: string)
    requires IsCut(rows, n, name) && IsCut(rows, m, name)
    ensures n == m
  {
    assert n < |rows| ==> rows[n].0 != name;
    assert m < |rows| ==> rows[m].0 != name;
  }

  /** Row lists with a name change in the middle split at the same place. */
  lemma {:induction false} SplitByName(a: seq<Row>, b: seq<Row>, a': seq<Row>, b': seq<Row>, name: string)
    requires a + b == a' + b'
    requires (forall i :: 0 <= i < |a| ==> a[i].0 == name) && (forall i :: 0 <= i < |a'| ==> a'[i].0 == name)
    requires (forall i :: 0 <= i < |b| ==> b[i].0 != name) && (forall i :: 0 <= i < |b'| ==> b'[i].0 != name)
    ensures a == a' && b == b'
  {
    var all := a + b;
    assert IsCut(all, |a|, name) && IsCut(all, |a'|, name);
    CutUnique(all, |a|, |a'|, name);
    assert (a + b)[..|a|] == a && (a' + b')[..|a|] == a';
    assert (a + b)[|a|..] == b && (a' + b')[|a|..] == b';
  }

  ghost predicate SameInputs(n: Names, secrets: map<string, Data>, secrets': map<string, Data>)
    requires Complete(n, secrets) && Complete(n, secrets')
  {
    && Lookup(secrets[n.ca], n.caKey) == Lookup(secrets'[n.ca], n.caKey)
    && secrets[n.egress] == secrets'[n.egress]
    && (n.credentials != "" ==> secrets[n.credentials] == secrets'[n.credentials])
  }

  /** No NUL in what is hashed: the names, the CA certificate, and the two Secrets hashed whole. */
  ghost predicate NulFreeInputs(n: Names, secrets: map<string, Data>)
    requires Complete(n, secrets)
  {
    && NulFree(n.ca) && NulFree(n.caKey) && NulFree(n.egress) && NulFree(n.credentials)
    && NulFree(Lookup(secrets[n.ca], n.caKey)) && NulFreeData(secrets[n.egress])
    && (n.credentials != "" ==> NulFreeData(secrets[n.credentials]))
  }

  lemma {:induction false} AllRowsNulFree(n: Names, secrets: map<string, Data>, ek: seq<string>, ck: seq<string>)
    requires Complete(n, secrets) && KeyLists(n, secrets, ek, ck) && NulFreeInputs(n, secrets)
    ensures NulFreeRows(AllRows(n, secrets, ek, ck))
  {
    assert forall i :: 0 <= i < |ek| ==> ek[i] in secrets[n.egress];
    assert n.credentials != "" ==> forall i :: 0 <= i < |ck| ==> ck[i] in secrets[n.credentials];
  }

  /** Short of a collision, the egress hash differs exactly when the CA certificate, the egress Secret or
      the credentials Secret differs. */
  lemma {:induction false} EgressHashDetectsChange(digest: string -> string, n: Names,
      secrets: map<string, Data>, ek: seq<string>, ck: seq<string>,
      secrets': map<string, Data>, ek': seq<string>, ck': seq<string>)
    requires ValidNames(n) && Complete(n, secrets) && Complete(n, secrets')
    requires KeyLists(n, secrets, ek, ck) && KeyLists(n, secrets', ek', ck')
    requires NulFreeInputs(n, secrets) && NulFreeInputs(n, secrets')
    requires var s, s' := RowStream(AllRows(n, secrets, ek, ck)), RowStream(AllRows(n, secrets', ek', ck'));
             digest(s) == digest(s') ==> s == s'
    ensures digest(RowStream(AllRows(n, secrets, ek, ck))) == digest(RowStream(AllRows(n, secrets', ek', ck')))
            <==> SameInputs(n, secrets, secrets')
  {
    var rows, rows' := AllRows(n, secrets, ek, ck), AllRows(n, secrets', ek', ck');
    if SameInputs(n, secrets, secrets') {
      SortedUnique(ek, ek');
      if n.credentials != "" { SortedUnique(ck, ck'); }
      assert RowsOf(n.ca, [n.caKey], secrets[n.ca]) == RowsOf(n.ca, [n.caKey], secrets'[n.ca]);
      assert rows == rows';
    }
    if RowStream(rows) == RowStream(rows') {
      AllRowsNulFree(n, secrets, ek, ck);
      AllRowsNulFree(n, secrets', ek', ck');
      RowStreamInjective(rows, rows');
      EqualRowsEqualInputs(n, secrets, ek, ck, secrets', ek', ck');
    }
  }

  lemma {:induction false} AllRowsParts(n: Names, secrets: map<string, Data>, ek: seq<string>, ck: seq<string>)
    requires Complete(n, secrets)
    ensures var all := AllRows(n, secrets, ek, ck);
            && all != [] && all[0] == (n.ca, n.caKey, Lookup(secrets[n.ca], n.caKey))
            && all[1..] == RowsOf(n.egress, ek, secrets[n.egress]) + CredentialRows(n, secrets, ck)
  {
  }

  lemma {:induction false} EqualRowsEqualInputs(n: Names,
      secrets: map<string, Data>, ek: seq<string>, ck: seq<string>,
      secrets': map<string, Data>, ek': seq<string>, ck': seq<string>)
    requires ValidNames(n) && Complete(n, secrets) && Complete(n, secrets')
    requires KeyLists(n, secrets, ek, ck) && KeyLists(n, secrets', ek', ck')
    requires AllRows(n, secrets, ek, ck) == AllRows(n, secrets', ek', ck')
    ensures SameInputs(n, secrets, secrets')
  {
    var b, b' := RowsOf(n.egress, ek, secrets[n.egress]), RowsOf(n.egress, ek', secrets'[n.egress]);
    var c, c' := CredentialRows(n, secrets, ck), CredentialRows(n, secrets', ck');
    AllRowsParts(n, secrets, ek, ck);
    AllRowsParts(n, secrets', ek', ck');
    assert b == b' && c == c' by {
      SplitByName(b, c, b', c', n.egress);
    }
    assert secrets[n.egress] == secrets'[n.egress] by {
      RowsDetermineData(n.egress, ek, secrets[n.egress], ek', secrets'[n.egress]);
    }
    if n.credentials != "" {
      RowsDetermineData(n.credentials, ck, secrets[n.credentials], ck', secrets'[n.credentials]);
    }
  }
}
