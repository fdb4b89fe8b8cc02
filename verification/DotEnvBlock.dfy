/** The marked proxy block in a `.env` file: `sed -i '/^BEGIN$/,/^END$/d'` and the append that follows it. */
module DotEnvBlock {
  import opened Text
  import DotEnv

  /** The two marker lines of a block. */
  datatype Markers = Markers(begin: string, end: string)

  predicate Usable(m: Markers)
  {
    m.begin != m.end && OneLine(m.begin) && OneLine(m.end) && '=' !in m.begin && '=' !in m.end
  }

  const BEGIN: string := "# BEGIN hermes-agent-operator egress"
  const END: string := "# END hermes-agent-operator egress"

  lemma EgressMarkersUsable()
    ensures Usable(Markers(BEGIN, END))
  {
    BeginOneLine();
    EndOneLine();
    BeginHasNoEquals();
    EndHasNoEquals();
    MarkersDiffer();
  }

  lemma BeginOneLine()
    ensures OneLine(BEGIN)
  {
  }

  lemma EndOneLine()
    ensures OneLine(END)
  {
  }

  lemma BeginHasNoEquals()
    ensures '=' !in BEGIN
  {
  }

  lemma EndHasNoEquals()
    ensures '=' !in END
  {
  }

  lemma MarkersDiffer()
    ensures BEGIN != END
  {
    assert BEGIN[2] != END[2];
  }

  // ---- Lines with their terminators ----

  /** The lines of a text, each with its newline; the last one may lack it. */
  function Chunks(text: string): seq<string>
  {
    ChunksFrom("", text)
  }

  function ChunksFrom(start: string, text: string): seq<string>
    decreases |text|
  {
    if text == "" then (if start == "" then [] else [start])
    else if text[0] == '\n' then [start + "\n"] + ChunksFrom("", text[1..])
    else ChunksFrom(start + [text[0]], text[1..])
  }

  function Concat(chunks: seq<string>): string
  {
    if chunks == [] then "" else chunks[0] + Concat(chunks[1..])
  }

  /** A chunk without its newline: what a sed address is matched against. */
  function Line(chunk: string): string
  {
    if EndsLine(chunk) then chunk[..|chunk| - 1] else chunk
  }

  predicate IsChunk(chunk: string) { chunk != "" && OneLine(Line(chunk)) }

  /** Only the last chunk may lack its newline. */
  predicate AreChunks(chunks: seq<string>)
  {
    && (forall i :: 0 <= i < |chunks| ==> IsChunk(chunks[i]))
    && (forall i :: 0 <= i < |chunks| - 1 ==> EndsLine(chunks[i]))
  }

  lemma {:induction false} ConcatChunksFrom(start: string, text: string)
    requires OneLine(start)
    ensures Concat(ChunksFrom(start, text)) == start + text && AreChunks(ChunksFrom(start, text))
    decreases |text|
  {
    if text == "" {
      assert start + text == start;
      if start != "" {
        assert [start][1..] == [] && start + "" == start && Line(start) == start;
      }
    } else if text[0] == '\n' {
      ConcatChunksFrom("", text[1..]);
      var c, rest := start + "\n", ChunksFrom("", text[1..]);
      assert ([c] + rest)[1..] == rest && "" + text[1..] == text[1..];
      assert c + text[1..] == start + text;
      assert Line(c) == start;
    } else {
      ConcatChunksFrom(start + [text[0]], text[1..]);
      assert start + [text[0]] + text[1..] == start + text;
    }
  }

  lemma {:induction false} ChunksFromLine(start: string, line: string, rest: string)
    requires OneLine(line)
    ensures ChunksFrom(start, line + "\n" + rest) == [start + line + "\n"] + ChunksFrom("", rest)
    decreases |line|
  {
    var t := line + "\n" + rest;
    if line == "" {
      assert t[1..] == rest && start + line == start;
    } else {
      assert t[1..] == line[1..] + "\n" + rest;
      ChunksFromLine(start + [line[0]], line[1..], rest);
      assert start + [line[0]] + line[1..] == start + line;
    }
  }

  lemma {:induction false} ChunksFromLast(start: string, line: string)
    requires OneLine(line) && start + line != ""
    ensures ChunksFrom(start, line) == [start + line]
    decreases |line|
  {
    if line == "" {
      assert start + line == start;
    } else {
      ChunksFromLast(start + [line[0]], line[1..]);
      assert start + [line[0]] + line[1..] == start + line;
    }
  }

  /** Splitting what was put together from chunks gives those chunks back. */
  lemma {:induction false} ChunksConcat(chunks: seq<string>)
    requires AreChunks(chunks)
    ensures Chunks(Concat(chunks)) == chunks
    decreases |chunks|
  {
    if chunks != [] {
      var c, rest := chunks[0], Concat(chunks[1..]);
      if EndsLine(c) {
        ChunksConcat(chunks[1..]);
        assert c == Line(c) + "\n" && c + rest == Line(c) + "\n" + rest;
        ChunksFromLine("", Line(c), rest);
        assert "" + Line(c) + "\n" == c;
      } else {
        assert |chunks| == 1 && c + "" == c;
        ChunksFromLast("", c);
        assert "" + c == c;
      }
    }
  }

  lemma {:induction false} ConcatAppend(a: seq<string>, b: seq<string>)
    ensures Concat(a + b) == Concat(a) + Concat(b)
    decreases |a|
  {
    if a == [] {
      assert a + b == b;
    } else {
      assert (a + b)[0] == a[0] && (a + b)[1..] == a[1..] + b;
      ConcatAppend(a[1..], b);
      assert a[0] + (Concat(a[1..]) + Concat(b)) == (a[0] + Concat(a[1..])) + Concat(b);
    }
  }

  // ---- Strip ----

  /** The range deletion over chunks; `open` says whether a block is open. */
  function Keep(m: Markers, chunks: seq<string>, open: bool): seq<string>
  {
    if chunks == [] then []
    else if open then Keep(m, chunks[1..], Line(chunks[0]) != m.end)
    else if Line(chunks[0]) == m.begin then Keep(m, chunks[1..], true)
    else [chunks[0]] + Keep(m, chunks[1..], false)
  }

  function Strip(m: Markers, text: string): string
  {
    Concat(Keep(m, Chunks(text), false))
  }

  ghost predicate NoBegin(m: Markers, chunks: seq<string>)
  {
    forall i :: 0 <= i < |chunks| ==> Line(chunks[i]) != m.begin
  }

  lemma {:induction false} KeepAreChunks(m: Markers, chunks: seq<string>, open: bool)
    requires AreChunks(chunks)
    ensures AreChunks(Keep(m, chunks, open)) && |Keep(m, chunks, open)| <= |chunks|
    decreases |chunks|
  {
    if chunks != [] {
      var c, rest := chunks[0], chunks[1..];
      assert AreChunks(rest);
      if open {
        KeepAreChunks(m, rest, Line(c) != m.end);
      } else if Line(c) == m.begin {
        KeepAreChunks(m, rest, true);
      } else {
        KeepAreChunks(m, rest, false);
        var kept := Keep(m, rest, false);
        assert IsChunk(c) && (kept != [] ==> EndsLine(c));
        ChunksCons(c, kept);
      }
    }
  }

  lemma {:induction false} ChunksCons(c: string, rest: seq<string>)
    requires IsChunk(c) && AreChunks(rest) && (rest != [] ==> EndsLine(c))
    ensures AreChunks([c] + rest)
  {
  }

  lemma {:induction false} KeepNoBegin(m: Markers, chunks: seq<string>, open: bool)
    ensures NoBegin(m, Keep(m, chunks, open))
    decreases |chunks|
  {
    if chunks != [] {
      var rest := chunks[1..];
      if open {
        KeepNoBegin(m, rest, Line(chunks[0]) != m.end);
      } else if Line(chunks[0]) == m.begin {
        KeepNoBegin(m, rest, true);
      } else {
        KeepNoBegin(m, rest, false);
      }
    }
  }

  lemma {:induction false} KeepAfterClean(m: Markers, a: seq<string>, b: seq<string>)
    requires NoBegin(m, a)
    ensures Keep(m, a + b, false) == a + Keep(m, b, false)
    decreases |a|
  {
    if a == [] {
      assert a + b == b;
    } else {
      assert (a + b)[0] == a[0] && (a + b)[1..] == a[1..] + b;
      assert NoBegin(m, a[1..]);
      KeepAfterClean(m, a[1..], b);
    }
  }

  lemma {:induction false} StripChunks(m: Markers, text: string)
    ensures Chunks(Strip(m, text)) == Keep(m, Chunks(text), false)
    ensures AreChunks(Chunks(text)) && Concat(Chunks(text)) == text
  {
    ConcatChunksFrom("", text);
    KeepAreChunks(m, Chunks(text), false);
    ChunksConcat(Keep(m, Chunks(text), false));
    assert "" + text == text;
  }

  /** Strip is idempotent and leaves no begin marker, whatever the file holds. */
  lemma {:induction false} StripIdempotent(m: Markers, text: string)
    ensures Strip(m, Strip(m, text)) == Strip(m, text) && NoBegin(m, Chunks(Strip(m, text)))
  {
    StripChunks(m, text);
    var kept := Keep(m, Chunks(text), false);
    KeepNoBegin(m, Chunks(text), false);
    KeepAfterClean(m, kept, []);
    assert kept + [] == kept;
  }

  /** Before line n, a block is open: some begin marker precedes it with no end marker in between. */
  ghost predicate OpenAt(m: Markers, chunks: seq<string>, n: nat)
    requires n <= |chunks|
  {
    exists b :: 0 <= b < n && Line(chunks[b]) == m.begin && forall k :: b < k < n ==> Line(chunks[k]) != m.end
  }

  /** The lines outside every block, in order: line n is outside when no block is open before it and it
      opens none itself. */
  ghost function Outside(m: Markers, chunks: seq<string>, n: nat): seq<string>
    requires n <= |chunks|
    decreases |chunks| - n
  {
    if n == |chunks| then []
    else (if OpenAt(m, chunks, n) || Line(chunks[n]) == m.begin then [] else [chunks[n]]) + Outside(m, chunks, n + 1)
  }

  lemma {:induction false} OpenAtStep(m: Markers, chunks: seq<string>, n: nat)
    requires Usable(m)
    requires n < |chunks|
    ensures OpenAt(m, chunks, n + 1) <==>
            if OpenAt(m, chunks, n) then Line(chunks[n]) != m.end else Line(chunks[n]) == m.begin
  {
    if OpenAt(m, chunks, n + 1) {
      var b :| 0 <= b < n + 1 && Line(chunks[b]) == m.begin && forall k :: b < k < n + 1 ==> Line(chunks[k]) != m.end;
      assert b < n ==> OpenAt(m, chunks, n);
    }
  }

  lemma {:induction false} KeepIsOutside(m: Markers, chunks: seq<string>, n: nat)
    requires Usable(m)
    requires n <= |chunks|
    ensures Keep(m, chunks[n..], OpenAt(m, chunks, n)) == Outside(m, chunks, n)
    decreases |chunks| - n
  {
    if n < |chunks| {
      OpenAtStep(m, chunks, n);
      KeepIsOutside(m, chunks, n + 1);
      assert chunks[n..][1..] == chunks[n + 1..] && chunks[n..][0] == chunks[n];
    }
  }

  /** What strip keeps is exactly the lines outside the blocks, unchanged and in order, for files with
      several or unterminated blocks too. */
  lemma {:induction false} StripKeepsOutside(m: Markers, text: string)
    requires Usable(m)
    ensures Chunks(Strip(m, text)) == Outside(m, Chunks(text), 0)
  {
    StripChunks(m, text);
    KeepIsOutside(m, Chunks(text), 0);
    assert Chunks(text)[0..] == Chunks(text);
  }

  /** The sed run on one file. */
  method StripFile(m: Markers, text: string) returns (kept: string)
    ensures kept == Strip(m, text)
  {
    var chunks := Chunks(text);
    kept := "";
    var open := false;
    for i := 0 to |chunks|
      invariant kept + Concat(Keep(m, chunks[i..], open)) == Strip(m, text)
    {
      KeepStep(m, chunks, i, open, kept);
      var line := Line(chunks[i]);
      if open {
        open := line != m.end;
      } else if line == m.begin {
        open := true;
      } else {
        kept := kept + chunks[i];
      }
    }
    assert kept + "" == kept;
  }

  lemma {:induction false} KeepStep(m: Markers, chunks: seq<string>, i: nat, open: bool, kept: string)
    requires i < |chunks|
    ensures kept + Concat(Keep(m, chunks[i..], open)) ==
            if open then kept + Concat(Keep(m, chunks[i + 1..], Line(chunks[i]) != m.end))
            else if Line(chunks[i]) == m.begin then kept + Concat(Keep(m, chunks[i + 1..], true))
            else kept + chunks[i] + Concat(Keep(m, chunks[i + 1..], false))
  {
    assert chunks[i..][1..] == chunks[i + 1..] && chunks[i..][0] == chunks[i];
    if !open && Line(chunks[i]) != m.begin {
      var rest := Keep(m, chunks[i + 1..], false);
      assert ([chunks[i]] + rest)[1..] == rest;
      assert kept + (chunks[i] + Concat(rest)) == kept + chunks[i] + Concat(rest);
    }
  }

  // ---- Append ----

  /** `if [ -n "$(tail -c 1 "$f")" ]; then echo >> "$f"; fi`. */
  function Terminated(text: string): string
  {
    if text == "" || EndsLine(text) then text else text + "\n"
  }

  /** The block's lines: the markers around one KEY=value line per entry. */
  function BlockChunks(m: Markers, entries: seq<(string, string)>): seq<string>
  {
    [m.begin + "\n"] + EntryChunks(entries) + [m.end + "\n"]
  }

  function EntryChunks(entries: seq<(string, string)>): (chunks: seq<string>)
    ensures |chunks| == |entries|
    ensures forall i :: 0 <= i < |chunks| ==> chunks[i] == entries[i].0 + "=" + entries[i].1 + "\n"
  {
    seq(|entries|, i requires 0 <= i < |entries| => entries[i].0 + "=" + entries[i].1 + "\n")
  }

  function Append(m: Markers, text: string, entries: seq<(string, string)>): string
  {
    Terminated(Strip(m, text)) + Concat(BlockChunks(m, entries))
  }

  predicate OneLineEntries(entries: seq<(string, string)>)
  {
    forall i :: 0 <= i < |entries| ==> OneLine(entries[i].0) && OneLine(entries[i].1)
  }

  lemma {:induction false} EntryIsNoMarker(m: Markers, key: string, value: string)
    requires Usable(m)
    requires OneLine(key) && OneLine(value)
    ensures var c := key + "=" + value + "\n"; IsChunk(c) && EndsLine(c) && Line(c) != m.end
  {
    var line := key + "=" + value;
    assert Line(line + "\n") == line;
    assert line[|key|] == '=';
    assert '=' !in m.end;
  }

  lemma {:induction false} BlockIsChunks(m: Markers, entries: seq<(string, string)>)
    requires Usable(m)
    requires OneLineEntries(entries)
    ensures AreChunks(BlockChunks(m, entries))
    ensures forall i :: 0 <= i < |entries| ==> Line(EntryChunks(entries)[i]) != m.end
  {
    forall i | 0 <= i < |entries|
      ensures var c := EntryChunks(entries)[i]; IsChunk(c) && EndsLine(c) && Line(c) != m.end
    {
      EntryIsNoMarker(m, entries[i].0, entries[i].1);
    }
    assert Line(m.begin + "\n") == m.begin && Line(m.end + "\n") == m.end;
  }

  lemma {:induction false} KeepOpen(m: Markers, body: seq<string>)
    requires Usable(m)
    requires forall i :: 0 <= i < |body| ==> Line(body[i]) != m.end
    ensures Keep(m, body + [m.end + "\n"], true) == []
    decreases |body|
  {
    var all := body + [m.end + "\n"];
    assert Line(m.end + "\n") == m.end;
    if body == [] {
      assert all[0] == m.end + "\n" && all[1..] == [];
    } else {
      assert all[0] == body[0] && all[1..] == body[1..] + [m.end + "\n"];
      KeepOpen(m, body[1..]);
    }
  }

  lemma {:induction false} KeepBlock(m: Markers, entries: seq<(string, string)>)
    requires Usable(m)
    requires OneLineEntries(entries)
    ensures Keep(m, BlockChunks(m, entries), false) == []
  {
    BlockIsChunks(m, entries);
    var tail := EntryChunks(entries) + [m.end + "\n"];
    assert BlockChunks(m, entries) == [m.begin + "\n"] + tail;
    assert BlockChunks(m, entries)[0] == m.begin + "\n" && BlockChunks(m, entries)[1..] == tail;
    assert Line(m.begin + "\n") == m.begin;
    KeepOpen(m, EntryChunks(entries));
  }

  /** The chunks of a text once its last line has its newline: no marker appears that was not there. */
  lemma {:induction false} TerminatedChunks(m: Markers, cs: seq<string>, text: string) returns (ds: seq<string>)
    requires AreChunks(cs) && NoBegin(m, cs) && text == Concat(cs)
    ensures AreChunks(ds) && NoBegin(m, ds) && Concat(ds) == Terminated(text)
    ensures ds != [] ==> EndsLine(ds[|ds| - 1])
  {
    LastCharOfConcat(cs);
    if cs != [] && !EndsLine(cs[|cs| - 1]) {
      ds := TerminateLast(m, cs);
    } else {
      ds := cs;
    }
  }

  lemma {:induction false} TerminateLast(m: Markers, cs: seq<string>) returns (ds: seq<string>)
    requires AreChunks(cs) && NoBegin(m, cs) && cs != [] && !EndsLine(cs[|cs| - 1])
    ensures AreChunks(ds) && NoBegin(m, ds) && Concat(ds) == Concat(cs) + "\n"
    ensures ds != [] && EndsLine(ds[|ds| - 1])
  {
    var n := |cs| - 1;
    var last := cs[n] + "\n";
    assert Line(last) == cs[n];
    ds := cs[..n] + [last];
    assert Concat(ds) == Concat(cs) + "\n" by {
      ConcatSnoc(cs[..n], last);
      ConcatSnoc(cs[..n], cs[n]);
      assert cs[..n] + [cs[n]] == cs;
      assert Concat(cs[..n]) + (cs[n] + "\n") == Concat(cs[..n]) + cs[n] + "\n";
    }
  }

  lemma {:induction false} ConcatSnoc(chunks: seq<string>, c: string)
    ensures Concat(chunks + [c]) == Concat(chunks) + c
  {
    ConcatAppend(chunks, [c]);
    assert Concat([c]) == c + Concat([c][1..]);
    assert c + "" == c;
  }

  lemma {:induction false} LastCharOfConcat(chunks: seq<string>)
    requires AreChunks(chunks)
    ensures chunks == [] ==> Concat(chunks) == ""
    ensures chunks != [] ==> Concat(chunks) != "" && (EndsLine(Concat(chunks)) <==> EndsLine(chunks[|chunks| - 1]))
  {
    if chunks != [] {
      var n := |chunks| - 1;
      assert chunks == chunks[..n] + [chunks[n]];
      ConcatSnoc(chunks[..n], chunks[n]);
    }
  }

  /** Stripping what append wrote gives the stripped file back, with its last line terminated. */
  lemma {:induction false} StripAppend(m: Markers, text: string, entries: seq<(string, string)>)
    requires Usable(m)
    requires OneLineEntries(entries)
    ensures Strip(m, Append(m, text, entries)) == Terminated(Strip(m, text))
  {
    StripChunks(m, text);
    StripChunks(m, Strip(m, text));
    StripIdempotent(m, text);
    var cs := TerminatedChunks(m, Chunks(Strip(m, text)), Strip(m, text));
    var block := BlockChunks(m, entries);
    BlockIsChunks(m, entries);
    assert AreChunks(cs + block);
    ConcatAppend(cs, block);
    ChunksConcat(cs + block);
    KeepAfterClean(m, cs, block);
    KeepBlock(m, entries);
    assert cs + [] == cs;
  }

  /** A later append replaces the block of an earlier one, whatever either holds. */
  lemma AppendReplaces(m: Markers, text: string, before: seq<(string, string)>, entries: seq<(string, string)>)
    requires Usable(m)
    requires OneLineEntries(before)
    ensures Append(m, Append(m, text, before), entries) == Append(m, text, entries)
  {
    StripAppend(m, text, before);
  }

  /** In particular a retry never adds the block twice. */
  lemma AppendIdempotent(m: Markers, text: string, entries: seq<(string, string)>)
    requires Usable(m)
    requires OneLineEntries(entries)
    ensures Append(m, Append(m, text, entries), entries) == Append(m, text, entries)
  {
    AppendReplaces(m, text, entries, entries);
  }

  // ---- What the block says ----

  function EntryLines(entries: seq<(string, string)>): (lines: seq<string>)
    ensures |lines| == |entries| && forall i :: 0 <= i < |lines| ==> lines[i] == entries[i].0 + "=" + entries[i].1
  {
    seq(|entries|, i requires 0 <= i < |entries| => entries[i].0 + "=" + entries[i].1)
  }

  lemma {:induction false} ConcatUnlines(chunks: seq<string>, lines: seq<string>)
    requires |chunks| == |lines| && forall i :: 0 <= i < |lines| ==> chunks[i] == lines[i] + "\n"
    ensures Concat(chunks) == Unlines(lines)
    decreases |lines|
  {
    if lines != [] {
      ConcatUnlines(chunks[1..], lines[1..]);
    }
  }

  lemma {:induction false} BlockIsLines(m: Markers, entries: seq<(string, string)>)
    requires Usable(m) && OneLineEntries(entries)
    ensures ReadLines(Concat(BlockChunks(m, entries))) == [m.begin] + EntryLines(entries) + [m.end]
  {
    var lines := [m.begin] + EntryLines(entries) + [m.end];
    ConcatUnlines(BlockChunks(m, entries), lines);
    forall i | 0 <= i < |lines| ensures OneLine(lines[i]) {
      assert 0 < i < |lines| - 1 ==> lines[i] == entries[i - 1].0 + "=" + entries[i - 1].1;
    }
    ReadUnlines(lines);
  }

  /** The file ends with the begin marker, one KEY=value line per entry in order, and the end marker; before
      them stand the lines of the stripped file. */
  lemma {:induction false} AppendLines(m: Markers, text: string, entries: seq<(string, string)>)
    requires Usable(m) && OneLineEntries(entries)
    ensures ReadLines(Append(m, text, entries)) ==
            ReadLines(Terminated(Strip(m, text))) + ([m.begin] + EntryLines(entries) + [m.end])
  {
    var before, block := Terminated(Strip(m, text)), Concat(BlockChunks(m, entries));
    BlockIsLines(m, entries);
    if before == "" {
      assert before + block == block && ReadLines("") == [];
    } else {
      ReadAppend(before, block);
    }
  }

  predicate Keyed(entries: seq<(string, string)>)
  {
    && (forall i :: 0 <= i < |entries| ==> '=' !in entries[i].0)
    && (forall i, j :: 0 <= i < j < |entries| ==> entries[i].0 != entries[j].0)
  }

  lemma {:induction false} EntriesRead(entries: seq<(string, string)>, i: nat)
    requires Keyed(entries) && i < |entries|
    ensures var env := DotEnv.ReadEnv(EntryLines(entries)); entries[i].0 in env && env[entries[i].0] == entries[i].1
    decreases |entries|
  {
    var n := |entries| - 1;
    var lines := EntryLines(entries);
    DotEnv.KeyOfLine(entries[n].0, entries[n].1);
    assert lines[n][|entries[n].0| + 1..] == entries[n].1;
    if i < n {
      EntriesRead(entries[..n], i);
      assert lines[..n] == EntryLines(entries[..n]);
    }
  }

  lemma {:induction false} MarkerBindsNothing(lines: seq<string>, marker: string)
    requires '=' !in marker
    ensures DotEnv.ReadEnv(lines + [marker]) == DotEnv.ReadEnv(lines)
  {
    assert (lines + [marker])[..|lines|] == lines;
  }

  /** A last-wins reader gets every entry of the block, whatever the file held before. */
  lemma {:induction false} AppendBinds(m: Markers, text: string, entries: seq<(string, string)>, i: nat)
    requires Usable(m) && OneLineEntries(entries) && Keyed(entries) && i < |entries|
    ensures var env := DotEnv.ReadEnv(ReadLines(Append(m, text, entries)));
            entries[i].0 in env && env[entries[i].0] == entries[i].1
  {
    var before := ReadLines(Terminated(Strip(m, text)));
    var head := before + [m.begin];
    AppendLines(m, text, entries);
    assert before + ([m.begin] + EntryLines(entries) + [m.end]) == head + EntryLines(entries) + [m.end];
    MarkerBindsNothing(head + EntryLines(entries), m.end);
    DotEnv.ReadEnvAppend(head, EntryLines(entries));
    EntriesRead(entries, i);
  }
}
