/** The `.env` generated for a profile: what a last-wins reader gets out of it, and which source wins. */
module DotEnv {
  import opened Text

  /** One mounted ConfigMap or Secret: its files in glob order, as key and content. */
  type Mount = seq<(string, string)>

  /** The environment a list of entries stands for when later entries win. */
  function MapOf(entries: Mount): map<string, string>
  {
    if entries == [] then map[]
    else
      var e := entries[|entries| - 1];
      MapOf(entries[..|entries| - 1])[e.0 := Substitute(e.1)]
  }

  function Keys(entries: Mount): set<string> { set i | 0 <= i < |entries| :: entries[i].0 }

  /** The key characters `case "$key" in *[!A-Za-z0-9_]*)` lets through. */
  predicate KeyChars(k: string)
  {
    forall i :: 0 <= i < |k| ==> 'A' <= k[i] <= 'Z' || 'a' <= k[i] <= 'z' || '0' <= k[i] <= '9' || k[i] == '_'
  }

  /** Entries with env-var-shaped keys and values of one line, but for trailing newlines. */
  predicate Plain(entries: Mount)
  {
    forall i :: 0 <= i < |entries| ==> KeyChars(entries[i].0) && OneLine(Substitute(entries[i].1))
  }

  function Line(e: (string, string)): string { e.0 + "=" + Substitute(e.1) }

  function Lines(entries: Mount): (lines: seq<string>)
    ensures |lines| == |entries| && forall i :: 0 <= i < |lines| ==> lines[i] == Line(entries[i])
  {
    seq(|entries|, i requires 0 <= i < |entries| => Line(entries[i]))
  }

  /** The entries that get past `[ -f "$tokens/$key" ] && continue`. */
  function Without(entries: Mount, keys: set<string>): Mount
  {
    if entries == [] then []
    else Without(entries[..|entries| - 1], keys)
         + if entries[|entries| - 1].0 in keys then [] else [entries[|entries| - 1]]
  }

  /** The token files that are env var names; proxy.yaml is not. */
  function TokenEntries(tokens: Mount): Mount
  {
    if tokens == [] then []
    else TokenEntries(tokens[..|tokens| - 1])
         + if KeyChars(tokens[|tokens| - 1].0) then [tokens[|tokens| - 1]] else []
  }

  function Flatten(mounts: seq<Mount>): Mount
  {
    if mounts == [] then [] else Flatten(mounts[..|mounts| - 1]) + mounts[|mounts| - 1]
  }

  /** Everything the script prints, in order. */
  function Printed(mounts: seq<Mount>, tokens: Option<Mount>): Mount
  {
    if tokens.None? then Flatten(mounts)
    else Without(Flatten(mounts), Keys(tokens.value)) + TokenEntries(tokens.value)
  }

  lemma {:induction false} WithoutAppend(a: Mount, b: Mount, keys: set<string>)
    ensures Without(a + b, keys) == Without(a, keys) + Without(b, keys)
    decreases |b|
  {
    if b == [] {
      assert a + b == a && Without(a, keys) + [] == Without(a, keys);
    } else {
      var n := |b| - 1;
      assert (a + b)[..|a + b| - 1] == a + b[..n] && (a + b)[|a + b| - 1] == b[n];
      WithoutAppend(a, b[..n], keys);
    }
  }

  /** `printf '%s=%s\n' "$key" "$value"` once more. */
  lemma {:induction false} PrintOne(done: Mount, e: (string, string))
    ensures Unlines(Lines(done + [e])) == Unlines(Lines(done)) + (Line(e) + "\n")
  {
    assert Lines(done + [e]) == Lines(done) + [Line(e)];
    UnlinesSnoc(Lines(done), Line(e));
  }

  /** The loop over one mounted directory. */
  method PrintMount(mount: Mount, skip: set<string>, before: string, ghost done: Mount) returns (text: string)
    requires before == Unlines(Lines(done))
    ensures text == Unlines(Lines(done + Without(mount, skip)))
  {
    text := before;
    ghost var all := done;
    for i := 0 to |mount|
      invariant all == done + Without(mount[..i], skip) && text == Unlines(Lines(all))
    {
      WithoutPrefix(mount, skip, i);
      if mount[i].0 !in skip {
        PrintOne(all, mount[i]);
        all := all + [mount[i]];
        text := text + (Line(mount[i]) + "\n");
      }
    }
    assert mount[..|mount|] == mount;
  }

  lemma {:induction false} WithoutPrefix(mount: Mount, skip: set<string>, i: nat)
    requires i < |mount|
    ensures Without(mount[..i + 1], skip) == if mount[i].0 in skip then Without(mount[..i], skip) else Without(mount[..i], skip) + [mount[i]]
  {
    assert mount[..i + 1][..i] == mount[..i];
  }

  lemma {:induction false} TokenPrefix(tokens: Mount, i: nat)
    requires i < |tokens|
    ensures TokenEntries(tokens[..i + 1]) ==
            if KeyChars(tokens[i].0) then TokenEntries(tokens[..i]) + [tokens[i]] else TokenEntries(tokens[..i])
  {
    assert tokens[..i + 1][..i] == tokens[..i];
  }

  /** The loop over the tokens directory. */
  method PrintTokens(tokens: Mount, before: string, ghost done: Mount) returns (text: string)
    requires before == Unlines(Lines(done))
    ensures text == Unlines(Lines(done + TokenEntries(tokens)))
  {
    text := before;
    ghost var all := done;
    for i := 0 to |tokens|
      invariant all == done + TokenEntries(tokens[..i]) && text == Unlines(Lines(all))
    {
      TokenPrefix(tokens, i);
      if KeyChars(tokens[i].0) {
        PrintOne(all, tokens[i]);
        all := all + [tokens[i]];
        text := text + (Line(tokens[i]) + "\n");
      }
    }
    assert tokens[..|tokens|] == tokens;
  }

  lemma {:induction false} WithoutNone(entries: Mount)
    ensures Without(entries, {}) == entries
    decreases |entries|
  {
    if entries != [] {
      WithoutNone(entries[..|entries| - 1]);
      assert entries[..|entries| - 1] + [entries[|entries| - 1]] == entries;
    }
  }

  /** The generated script on its mounts. */
  method GenerateDotEnv(mounts: seq<Mount>, tokens: Option<Mount>) returns (text: string)
    ensures text == Unlines(Lines(Printed(mounts, tokens)))
  {
    var skip := if tokens.Some? then Keys(tokens.value) else {};
    text := "";
    ghost var done: Mount := [];
    for i := 0 to |mounts|
      invariant done == Without(Flatten(mounts[..i]), skip)
      invariant text == Unlines(Lines(done))
    {
      text := PrintMount(mounts[i], skip, text, done);
      assert mounts[..i + 1][..i] == mounts[..i];
      WithoutAppend(Flatten(mounts[..i]), mounts[i], skip);
      done := done + Without(mounts[i], skip);
    }
    assert mounts[..|mounts|] == mounts;
    if tokens.Some? {
      text := PrintTokens(tokens.value, text, done);
    } else {
      WithoutNone(Flatten(mounts));
    }
  }

  // ---- Reading it back ----

  /** A last-wins reader: each line with an `=` binds what precedes the first one to what follows it. */
  function ReadEnv(lines: seq<string>): map<string, string>
  {
    if lines == [] then map[]
    else
      var env, line := ReadEnv(lines[..|lines| - 1]), lines[|lines| - 1];
      var k := IndexOf(line, '=');
      if k == |line| then env else env[line[..k] := line[k + 1..]]
  }

  lemma {:induction false} SplitLine(e: (string, string))
    requires KeyChars(e.0)
    ensures IndexOf(Line(e), '=') == |e.0| && Line(e)[..|e.0|] == e.0 && Line(e)[|e.0| + 1..] == Substitute(e.1)
  {
    var k := IndexOf(Line(e), '=');
    assert Line(e)[|e.0|] == '=';
    assert forall i :: 0 <= i < |e.0| ==> Line(e)[i] == e.0[i];
  }

  lemma {:induction false} ReadEnvLines(entries: Mount)
    requires Plain(entries)
    ensures ReadEnv(Lines(entries)) == MapOf(entries)
    decreases |entries|
  {
    if entries != [] {
      var n := |entries| - 1;
      ReadEnvLines(entries[..n]);
      assert Lines(entries)[..n] == Lines(entries[..n]);
      SplitLine(entries[n]);
    }
  }

  lemma {:induction false} MapOfAppend(a: Mount, b: Mount)
    ensures MapOf(a + b) == MapOf(a) + MapOf(b)
    decreases |b|
  {
    if b == [] {
      assert a + b == a;
    } else {
      var n := |b| - 1;
      assert a + b == (a + b[..n]) + [b[n]] && b == b[..n] + [b[n]];
      MapOfAppend(a, b[..n]);
    }
  }

  lemma {:induction false} MapOfWithout(entries: Mount, keys: set<string>)
    ensures MapOf(Without(entries, keys)) == MapOf(entries) - keys
    decreases |entries|
  {
    if entries != [] {
      var n := |entries| - 1;
      var e, w := entries[n], Without(entries[..n], keys);
      MapOfWithout(entries[..n], keys);
      if e.0 in keys {
        assert Without(entries, keys) == w;
      } else {
        assert Without(entries, keys) == w + [e];
      }
    }
  }

  lemma {:induction false} PlainWithout(entries: Mount, keys: set<string>)
    requires Plain(entries)
    ensures Plain(Without(entries, keys))
    decreases |entries|
  {
    if entries != [] {
      PlainWithout(entries[..|entries| - 1], keys);
    }
  }

  lemma {:induction false} KeysSnoc(entries: Mount, e: (string, string))
    ensures Keys(entries + [e]) == Keys(entries) + {e.0}
  {
    forall k | k in Keys(entries) + {e.0} ensures k in Keys(entries + [e]) {
      if k == e.0 {
        assert (entries + [e])[|entries|].0 == k;
      } else {
        var i :| 0 <= i < |entries| && entries[i].0 == k;
        assert (entries + [e])[i].0 == k;
      }
    }
  }

  lemma {:induction false} MapOfKeys(entries: Mount)
    ensures MapOf(entries).Keys == Keys(entries)
    decreases |entries|
  {
    if entries != [] {
      var n := |entries| - 1;
      MapOfKeys(entries[..n]);
      assert entries == entries[..n] + [entries[n]];
      KeysSnoc(entries[..n], entries[n]);
    }
  }

  lemma {:induction false} TokenKeys(tokens: Mount)
    ensures Keys(TokenEntries(tokens)) == set k | k in Keys(tokens) && KeyChars(k)
    ensures forall i :: 0 <= i < |TokenEntries(tokens)| ==> TokenEntries(tokens)[i] in tokens && KeyChars(TokenEntries(tokens)[i].0)
    decreases |tokens|
  {
    if tokens != [] {
      var n := |tokens| - 1;
      TokenKeys(tokens[..n]);
      assert tokens == tokens[..n] + [tokens[n]];
      KeysSnoc(tokens[..n], tokens[n]);
      var t := TokenEntries(tokens[..n]);
      if KeyChars(tokens[n].0) {
        assert TokenEntries(tokens) == t + [tokens[n]];
        KeysSnoc(t, tokens[n]);
      } else {
        assert TokenEntries(tokens) == t;
      }
    }
  }

  /** The meaning of the sources: every mount in order, later ones winning, then the tokens. */
  function Meaning(mounts: seq<Mount>, tokens: Option<Mount>): map<string, string>
  {
    MapOf(Flatten(mounts)) + if tokens.None? then map[] else MapOf(TokenEntries(tokens.value))
  }

  lemma {:induction false} PrintedMeans(mounts: seq<Mount>, tokens: Option<Mount>)
    requires Plain(Flatten(mounts))
    ensures MapOf(Printed(mounts, tokens)) == Meaning(mounts, tokens)
  {
    if tokens.Some? {
      var all, keys, t := Flatten(mounts), Keys(tokens.value), TokenEntries(tokens.value);
      MapOfAppend(Without(all, keys), t);
      MapOfWithout(all, keys);
      TokenKeys(tokens.value);
      MapOfKeys(t);
      MapOfKeys(all);
      forall k | k in MapOf(all) && k in keys ensures k in MapOf(t) {
        assert k in Keys(all);
      }
      assert (MapOf(all) - keys) + MapOf(t) == MapOf(all) + MapOf(t);
    } else {
      assert MapOf(Flatten(mounts)) + map[] == MapOf(Flatten(mounts));
    }
  }

  /** Reading the generated file last-wins gives exactly that meaning: skipping a real value whose key has
      a token loses nothing. */
  lemma {:induction false} GeneratedFileMeans(mounts: seq<Mount>, tokens: Option<Mount>)
    requires Plain(Flatten(mounts)) && (tokens.Some? ==> Plain(TokenEntries(tokens.value)))
    ensures ReadEnv(ReadLines(Unlines(Lines(Printed(mounts, tokens))))) == Meaning(mounts, tokens)
  {
    var printed := Printed(mounts, tokens);
    if tokens.Some? {
      PlainWithout(Flatten(mounts), Keys(tokens.value));
    }
    assert Plain(printed);
    forall i | 0 <= i < |printed| ensures OneLine(Lines(printed)[i]) {
      assert OneLine(printed[i].0);
    }
    ReadUnlines(Lines(printed));
    ReadEnvLines(printed);
    PrintedMeans(mounts, tokens);
  }

  // ---- Real values never reach a key that has a token ----

  /** The file the script writes, as the lines a reader gets. */
  function FileLines(mounts: seq<Mount>, tokens: Mount): seq<string>
  {
    ReadLines(Unlines(Lines(Printed(mounts, Some(tokens)))))
  }

  /** A line that binds a key that has a token to anything but a token of that key. */
  predicate Leaks(line: string, tokens: Mount)
  {
    var k := IndexOf(line, '=');
    k < |line| && line[..k] in Keys(tokens) && forall t :: t in tokens && t.0 == line[..k] ==> line != Line(t)
  }

  /** The lines of a value after its first. */
  function LaterLines(value: string): seq<string>
  {
    var k := IndexOf(Substitute(value), '\n');
    if k == |Substitute(value)| then [] else ReadLines(Substitute(value)[k + 1..] + "\n")
  }

  function FirstLine(value: string): string { Substitute(value)[..IndexOf(Substitute(value), '\n')] }

  /** Keys are file names of a mounted volume: one line, and no `=` in it. */
  predicate FileNames(entries: Mount)
  {
    forall i :: 0 <= i < |entries| ==> OneLine(entries[i].0) && '=' !in entries[i].0
  }

  lemma {:induction false} EntryLines(e: (string, string))
    requires OneLine(e.0)
    ensures ReadLines(Line(e) + "\n") == [e.0 + "=" + FirstLine(e.1)] + LaterLines(e.1)
  {
    var v := Substitute(e.1);
    var k := IndexOf(v, '\n');
    var first := e.0 + "=" + v[..k];
    if k == |v| {
      assert Line(e) + "\n" == first + "\n" + "";
      ReadOne(first, "");
      assert ReadLines("") == [];
    } else {
      assert Line(e) + "\n" == first + "\n" + (v[k + 1..] + "\n");
      ReadOne(first, v[k + 1..] + "\n");
    }
  }

  // ---- Values of any number of lines ----

  lemma {:induction false} ReadEnvAppend(a: seq<string>, b: seq<string>)
    ensures ReadEnv(a + b) == ReadEnv(a) + ReadEnv(b)
    decreases |b|
  {
    if b == [] {
      assert a + b == a;
    } else {
      var n := |b| - 1;
      assert (a + b)[..|a + b| - 1] == a + b[..n] && (a + b)[|a + b| - 1] == b[n];
      ReadEnvAppend(a, b[..n]);
    }
  }

  /** What one printed entry binds: its key to the first line of its value, and then whatever the later lines
      of the value bind when they are read as lines of their own. */
  function EntryEnv(e: (string, string)): map<string, string>
  {
    map[e.0 := FirstLine(e.1)] + ReadEnv(LaterLines(e.1))
  }

  function EntriesEnv(entries: Mount): map<string, string>
  {
    if entries == [] then map[] else EntriesEnv(entries[..|entries| - 1]) + EntryEnv(entries[|entries| - 1])
  }

  lemma {:induction false} ReadEntry(e: (string, string))
    requires OneLine(e.0) && '=' !in e.0
    ensures ReadEnv(ReadLines(Line(e) + "\n")) == EntryEnv(e)
  {
    var first := e.0 + "=" + FirstLine(e.1);
    EntryLines(e);
    ReadEnvAppend([first], LaterLines(e.1));
    KeyOfLine(e.0, FirstLine(e.1));
    var none: seq<string> := [];
    assert [first][..0] == none && ReadEnv(none) == map[];
    assert first[|e.0| + 1..] == FirstLine(e.1);
  }

  /** Whatever the values, the file read last-wins is the entries bound one after the other in that way. */
  lemma {:induction false} FileMeansAnyValues(entries: Mount)
    requires FileNames(entries)
    ensures ReadEnv(ReadLines(Unlines(Lines(entries)))) == EntriesEnv(entries)
    decreases |entries|
  {
    if entries == [] {
      assert ReadLines("") == [];
    } else {
      var n := |entries| - 1;
      var before, e := entries[..n], entries[n];
      FileMeansAnyValues(before);
      assert entries == before + [e];
      PrintOne(before, e);
      ReadEntry(e);
      var text := Unlines(Lines(before));
      if before == [] {
        assert ReadLines("") == [] && text + (Line(e) + "\n") == Line(e) + "\n";
      } else {
        UnlinesEndsLine(Lines(before));
        ReadAppend(text, Line(e) + "\n");
        ReadEnvAppend(ReadLines(text), ReadLines(Line(e) + "\n"));
      }
    }
  }

  lemma {:induction false} LinesOfAll(lines: seq<string>, l: string)
    ensures l in ReadLines(Unlines(lines)) <==> exists i :: 0 <= i < |lines| && l in ReadLines(lines[i] + "\n")
    decreases |lines|
  {
    if lines == [] {
      assert ReadLines("") == [];
    } else {
      var a, rest := lines[0] + "\n", lines[1..];
      ReadAppend(a, Unlines(rest));
      LinesOfAll(rest, l);
      if l in ReadLines(Unlines(rest)) {
        var i :| 0 <= i < |rest| && l in ReadLines(rest[i] + "\n");
        assert lines[i + 1] == rest[i];
      }
      assert forall i :: 1 <= i < |lines| ==> lines[i] == rest[i - 1];
    }
  }

  /** A line is in the file exactly when it is the first or a later line of a printed entry. */
  lemma {:induction false} FileLineOf(mounts: seq<Mount>, tokens: Mount, l: string)
    requires FileNames(Printed(mounts, Some(tokens)))
    ensures var printed := Printed(mounts, Some(tokens));
            l in FileLines(mounts, tokens) <==>
            exists i :: 0 <= i < |printed| && (l == printed[i].0 + "=" + FirstLine(printed[i].1) || l in LaterLines(printed[i].1))
  {
    var printed := Printed(mounts, Some(tokens));
    LinesOfAll(Lines(printed), l);
    forall i | 0 <= i < |printed|
      ensures l in ReadLines(Lines(printed)[i] + "\n") <==>
              l == printed[i].0 + "=" + FirstLine(printed[i].1) || l in LaterLines(printed[i].1)
    {
      EntryLines(printed[i]);
    }
  }

  lemma {:induction false} PrintedIs(mounts: seq<Mount>, tokens: Mount, e: (string, string))
    ensures e in Printed(mounts, Some(tokens)) <==>
            (e in Flatten(mounts) && e.0 !in Keys(tokens)) || (e in tokens && KeyChars(e.0))
  {
    WithoutKeys(Flatten(mounts), Keys(tokens));
    TokenEntriesAre(tokens);
  }

  lemma {:induction false} TokenEntriesAre(tokens: Mount)
    ensures forall e :: e in TokenEntries(tokens) <==> e in tokens && KeyChars(e.0)
    decreases |tokens|
  {
    if tokens != [] {
      TokenEntriesAre(tokens[..|tokens| - 1]);
      assert tokens == tokens[..|tokens| - 1] + [tokens[|tokens| - 1]];
    }
  }

  /** An entry of a mount that is printed and has a later line that leaks. */
  ghost predicate CarriesLeak(mounts: seq<Mount>, tokens: Mount)
  {
    exists e, l :: e in Flatten(mounts) && e.0 !in Keys(tokens) && l in LaterLines(e.1) && Leaks(l, tokens)
  }

  lemma {:induction false} KeyOfLine(key: string, rest: string)
    requires '=' !in key
    ensures IndexOf(key + "=" + rest, '=') == |key| && (key + "=" + rest)[..|key|] == key
  {
    var line := key + "=" + rest;
    assert line[|key|] == '=';
    assert forall i :: 0 <= i < |key| ==> line[i] == key[i];
  }

  /** One-line tokens and the first line of every other entry are no leak. */
  lemma {:induction false} FirstLinesSafe(mounts: seq<Mount>, tokens: Mount, e: (string, string))
    requires e in Printed(mounts, Some(tokens)) && '=' !in e.0 && Plain(TokenEntries(tokens))
    ensures !Leaks(e.0 + "=" + FirstLine(e.1), tokens)
    ensures e in tokens && KeyChars(e.0) ==> LaterLines(e.1) == []
  {
    PrintedIs(mounts, tokens, e);
    KeyOfLine(e.0, FirstLine(e.1));
    if e in tokens && KeyChars(e.0) {
      TokenEntriesAre(tokens);
      var i :| 0 <= i < |TokenEntries(tokens)| && TokenEntries(tokens)[i] == e;
      assert OneLine(Substitute(e.1));
      assert FirstLine(e.1) == Substitute(e.1);
    }
  }

  /** No line of the file gives a key that has a token any other value, exactly when no printed value of a
      mount carries such a line inside it. */
  lemma {:induction false} NoLeakExactly(mounts: seq<Mount>, tokens: Mount)
    requires FileNames(Printed(mounts, Some(tokens))) && Plain(TokenEntries(tokens))
    ensures (exists l :: l in FileLines(mounts, tokens) && Leaks(l, tokens)) <==> CarriesLeak(mounts, tokens)
  {
    var printed := Printed(mounts, Some(tokens));
    if exists l :: l in FileLines(mounts, tokens) && Leaks(l, tokens) {
      var l :| l in FileLines(mounts, tokens) && Leaks(l, tokens);
      FileLineOf(mounts, tokens, l);
      var i :| 0 <= i < |printed| && (l == printed[i].0 + "=" + FirstLine(printed[i].1) || l in LaterLines(printed[i].1));
      FirstLinesSafe(mounts, tokens, printed[i]);
      PrintedIs(mounts, tokens, printed[i]);
    }
    if CarriesLeak(mounts, tokens) {
      var e, l :| e in Flatten(mounts) && e.0 !in Keys(tokens) && l in LaterLines(e.1) && Leaks(l, tokens);
      PrintedIs(mounts, tokens, e);
      var i :| 0 <= i < |printed| && printed[i] == e;
      FileLineOf(mounts, tokens, l);
    }
  }

  /** In particular none does when the values are one line each. */
  lemma {:induction false} RealKeysNeverPrinted(mounts: seq<Mount>, tokens: Mount, l: string)
    requires Plain(Flatten(mounts)) && Plain(TokenEntries(tokens)) && l in FileLines(mounts, tokens)
    ensures !Leaks(l, tokens)
  {
    var printed := Printed(mounts, Some(tokens));
    PlainWithout(Flatten(mounts), Keys(tokens));
    forall i | 0 <= i < |printed| ensures OneLine(printed[i].0) && '=' !in printed[i].0 {
      assert KeyChars(printed[i].0);
    }
    forall e | e in Flatten(mounts) ensures LaterLines(e.1) == [] {
      var i :| 0 <= i < |Flatten(mounts)| && Flatten(mounts)[i] == e;
      assert OneLine(Substitute(e.1));
    }
    NoLeakExactly(mounts, tokens);
  }

  lemma {:induction false} SmuggledLine()
    ensures LaterLines("x\nKEY=real") == ["KEY=real"]
  {
    var value := "x\nKEY=real";
    assert value[1] == '\n' && value[|value| - 1] == 'l';
    assert Substitute(value) == value && IndexOf(value, '\n') == 1;
    assert value[2..] + "\n" == "KEY=real" + "\n" + "";
    ReadOne("KEY=real", "");
    assert ReadLines("") == [];
  }

  lemma {:induction false} RealValueLeaks()
    ensures Leaks("KEY=real", [("KEY", "tok")])
  {
    KeyOfLine("KEY", "real");
    assert "KEY=real" == "KEY" + "=" + "real";
    var tokens := [("KEY", "tok")];
    assert tokens[0].0 in Keys(tokens);
    assert Substitute("tok") == "tok";
    assert Line(tokens[0])[4] == 't';
  }

  lemma {:induction false} OneEntryPrinted(e: (string, string), t: (string, string))
    requires e.0 != t.0 && KeyChars(t.0)
    ensures Printed([[e]], Some([t])) == [e, t]
  {
    assert [[e]][..0] == [] && Flatten([]) == [] && Flatten([[e]]) == [] + [e];
    var none: Mount := [];
    KeysSnoc(none, t);
    assert none + [t] == [t] && Keys(none) == {} && Keys([t]) == {t.0};
    assert [e][..0] == [] && [t][..0] == [];
    assert Without([], {t.0}) == [] && TokenEntries([]) == [];
    assert Without([e], {t.0}) == [e] && TokenEntries([t]) == [t];
    assert [e] + [t] == [e, t];
  }

  lemma {:induction false} LaterLineInFile(e: (string, string), t: (string, string), l: string)
    requires e.0 != t.0 && KeyChars(e.0) && KeyChars(t.0) && l in LaterLines(e.1)
    ensures l in FileLines([[e]], [t])
  {
    OneEntryPrinted(e, t);
    assert FileNames([e, t]);
    FileLineOf([[e]], [t], l);
    assert [e, t][0] == e;
  }

  /** A value of several lines can smuggle the real key in. */
  lemma {:induction false} EmbeddedLineLeaks()
    ensures var mounts, tokens := [[("NOTE", "x\nKEY=real")]], [("KEY", "tok")];
            "KEY=real" in FileLines(mounts, tokens) && Leaks("KEY=real", tokens)
  {
    SmuggledLine();
    RealValueLeaks();
    assert |"NOTE"| != |"KEY"|;
    LaterLineInFile(("NOTE", "x\nKEY=real"), ("KEY", "tok"), "KEY=real");
  }

  lemma {:induction false} WithoutKeys(entries: Mount, keys: set<string>)
    ensures forall e :: e in Without(entries, keys) <==> e in entries && e.0 !in keys
    decreases |entries|
  {
    if entries != [] {
      WithoutKeys(entries[..|entries| - 1], keys);
    }
  }

  // ---- Which source wins ----

  /** workspace.dotEnv: the singular references and the plural lists. */
  datatype Refs = Refs(configMapRef: Option<Mount>, configMapRefs: seq<Mount>, secretRef: Option<Mount>, secretRefs: seq<Mount>)

  function One(m: Option<Mount>): seq<Mount> { if m.Some? then [m.value] else [] }

  function Env(m: Option<Mount>): map<string, string> { if m.Some? then MapOf(m.value) else map[] }

  function MergeAll(mounts: seq<Mount>): map<string, string>
  {
    if mounts == [] then map[] else MergeAll(mounts[..|mounts| - 1]) + MapOf(mounts[|mounts| - 1])
  }

  /** The right-biased merge the mounts of a dotEnv section stand for: ConfigMaps before Secrets, the
      singular reference before the plural list. */
  function RefsEnv(refs: Option<Refs>): map<string, string>
  {
    if refs.None? then map[]
    else Env(refs.value.configMapRef) + MergeAll(refs.value.configMapRefs)
         + Env(refs.value.secretRef) + MergeAll(refs.value.secretRefs)
  }

  /** Key by key: the plural Secrets win over the singular one, that over the plural ConfigMaps, and those over
      the singular one; of a list the last that has the key wins. */
  lemma {:induction false} RefsPrecedence(r: Refs, k: string)
    ensures var env := RefsEnv(Some(r));
            if k in MergeAll(r.secretRefs) then k in env && env[k] == MergeAll(r.secretRefs)[k]
            else if k in Env(r.secretRef) then k in env && env[k] == Env(r.secretRef)[k]
            else if k in MergeAll(r.configMapRefs) then k in env && env[k] == MergeAll(r.configMapRefs)[k]
            else if k in Env(r.configMapRef) then k in env && env[k] == Env(r.configMapRef)[k]
            else k !in env
  {
  }

  lemma {:induction false} LaterRefWins(refs: seq<Mount>, i: nat, k: string)
    requires i < |refs| && k in MapOf(refs[i]) && forall j :: i < j < |refs| ==> k !in MapOf(refs[j])
    ensures k in MergeAll(refs) && MergeAll(refs)[k] == MapOf(refs[i])[k]
    decreases |refs|
  {
    if i < |refs| - 1 {
      LaterRefWins(refs[..|refs| - 1], i, k);
    }
  }

  /** The mount paths in the order the container builder appends them. */
  method BuildMounts(operatorConfig: Option<Mount>, operatorSecret: Option<Mount>, refs: Option<Refs>) returns (mounts: seq<Mount>)
    ensures MapOf(Flatten(mounts)) == Env(operatorConfig) + Env(operatorSecret) + RefsEnv(refs)
  {
    mounts := One(operatorConfig) + One(operatorSecret);
    OperatorMounts(operatorConfig, operatorSecret);
    ghost var env := Env(operatorConfig) + Env(operatorSecret);
    if refs.Some? {
      var r := refs.value;
      FlattenOne(mounts, r.configMapRef);
      mounts := mounts + One(r.configMapRef);
      mounts := AppendRefs(mounts, r.configMapRefs);
      FlattenOne(mounts, r.secretRef);
      mounts := mounts + One(r.secretRef);
      mounts := AppendRefs(mounts, r.secretRefs);
      MergeAssociates(env, Env(r.configMapRef), MergeAll(r.configMapRefs), Env(r.secretRef), MergeAll(r.secretRefs));
    } else {
      assert env + map[] == env;
    }
  }

  lemma {:induction false} OperatorMounts(operatorConfig: Option<Mount>, operatorSecret: Option<Mount>)
    ensures MapOf(Flatten(One(operatorConfig) + One(operatorSecret))) == Env(operatorConfig) + Env(operatorSecret)
  {
    FlattenSingle(operatorConfig);
    FlattenOne(One(operatorConfig), operatorSecret);
  }

  lemma {:induction false} FlattenSingle(m: Option<Mount>)
    ensures MapOf(Flatten(One(m))) == Env(m)
  {
    if m.Some? {
      assert [m.value][..0] == [] && Flatten([]) == [];
      assert [] + m.value == m.value;
    }
  }

  lemma {:induction false} MergeAssociates(a: map<string, string>, b: map<string, string>, c: map<string, string>,
                                           d: map<string, string>, e: map<string, string>)
    ensures a + b + c + d + e == a + (b + c + d + e)
  {
  }

  lemma {:induction false} MergeOneMore(env: map<string, string>, refs: seq<Mount>, i: nat)
    requires i < |refs|
    ensures env + MergeAll(refs[..i]) + MapOf(refs[i]) == env + MergeAll(refs[..i + 1])
  {
    assert refs[..i + 1][..i] == refs[..i];
    var a, b := MergeAll(refs[..i]), MapOf(refs[i]);
    assert MergeAll(refs[..i + 1]) == a + b;
    assert env + a + b == env + (a + b);
  }

  method AppendRefs(before: seq<Mount>, refs: seq<Mount>) returns (mounts: seq<Mount>)
    ensures MapOf(Flatten(mounts)) == MapOf(Flatten(before)) + MergeAll(refs)
  {
    mounts := before;
    ghost var env := MapOf(Flatten(before));
    assert env + map[] == env;
    for i := 0 to |refs|
      invariant MapOf(Flatten(mounts)) == env + MergeAll(refs[..i])
    {
      FlattenOne(mounts, Some(refs[i]));
      mounts := mounts + [refs[i]];
      MergeOneMore(env, refs, i);
    }
    assert refs[..|refs|] == refs;
  }

  lemma {:induction false} FlattenOne(mounts: seq<Mount>, m: Option<Mount>)
    ensures MapOf(Flatten(mounts + One(m))) == MapOf(Flatten(mounts)) + Env(m)
  {
    if m.Some? {
      assert (mounts + [m.value])[..|mounts|] == mounts;
      MapOfAppend(Flatten(mounts), m.value);
    } else {
      assert mounts + [] == mounts;
    }
  }
}
