/** Text as the POSIX shell sees it: printf of lines, the `read` loop, command substitution
    and the newline-delimited list test the init scripts use. */
module Text {

  datatype Option<+T> = None | Some(value: T)

  /** The position of the first `c` in `text`, or |text| when there is none. */
  function IndexOf(text: string, c: char): (k: nat)
    ensures k <= |text|
    ensures k < |text| ==> text[k] == c
    ensures forall i :: 0 <= i < k ==> text[i] != c
  {
    if text == "" || text[0] == c then 0 else 1 + IndexOf(text[1..], c)
  }

  /** `printf '%s\n' lines...`: every line followed by a newline. */
  function Unlines(lines: seq<string>): string
  {
    if lines == [] then "" else lines[0] + "\n" + Unlines(lines[1..])
  }

  /** `while IFS= read -r line`: the terminated lines of the text; an unterminated rest is not delivered. */
  function ReadLines(text: string): (lines: seq<string>)
  {
    ReadFrom("", text)
  }

  function ReadFrom(line: string, text: string): (lines: seq<string>)
    decreases |text|
  {
    if text == "" then []
    else if text[0] == '\n' then [line] + ReadFrom("", text[1..])
    else ReadFrom(line + [text[0]], text[1..])
  }

  /** `$(...)` drops every trailing newline (section 2.6.3 of the POSIX.1-2017 Shell Command Language). */
  function Substitute(text: string): string
  {
    if text != "" && text[|text| - 1] == '\n' then Substitute(text[..|text| - 1]) else text
  }

  function Elements(s: seq<string>): set<string> { set n | n in s }

  /** No string twice. */
  predicate Distinct(s: seq<string>) { forall i, j :: 0 <= i < j < |s| ==> s[i] != s[j] }

  predicate OneLine(s: string) { '\n' !in s }

  predicate AllOneLine(lines: seq<string>) { forall i :: 0 <= i < |lines| ==> OneLine(lines[i]) }

  /** The lines a loop keeps after `[ -z "$line" ] && continue`. */
  function NonBlank(lines: seq<string>): (r: seq<string>)
    ensures forall l :: l in r <==> l in lines && l != ""
  {
    if lines == [] then [] else (if lines[0] == "" then [] else [lines[0]]) + NonBlank(lines[1..])
  }

  lemma {:induction false} NonBlankAppend(a: seq<string>, b: seq<string>)
    ensures NonBlank(a + b) == NonBlank(a) + NonBlank(b)
  {
    if a == [] {
      assert a + b == b;
    } else {
      assert (a + b)[1..] == a[1..] + b;
      NonBlankAppend(a[1..], b);
    }
  }

  lemma {:induction false} NonBlankSame(lines: seq<string>)
    requires "" !in lines
    ensures NonBlank(lines) == lines
  {
    if lines != [] {
      NonBlankSame(lines[1..]);
    }
  }

  lemma {:induction false} ReadRest(start: string, line: string, rest: string)
    requires OneLine(line)
    ensures ReadFrom(start, line + "\n" + rest) == [start + line] + ReadFrom("", rest)
    decreases |line|
  {
    var t := line + "\n" + rest;
    if line == "" {
      assert t[1..] == rest && start + line == start;
    } else {
      assert t[1..] == line[1..] + "\n" + rest;
      ReadRest(start + [line[0]], line[1..], rest);
      assert start + [line[0]] + line[1..] == start + line;
    }
  }

  lemma {:induction false} ReadOne(line: string, rest: string)
    requires OneLine(line)
    ensures ReadLines(line + "\n" + rest) == [line] + ReadLines(rest)
  {
    ReadRest("", line, rest);
    assert "" + line == line;
  }

  predicate EndsLine(text: string) { text != "" && text[|text| - 1] == '\n' }

  /** Reading text whose first part ends a line reads the two parts one after the other. */
  lemma {:induction false} ReadAppend(a: string, b: string)
    requires EndsLine(a)
    ensures ReadLines(a + b) == ReadLines(a) + ReadLines(b)
  {
    ReadFromAppend("", a, b);
  }

  lemma {:induction false} ReadFromAppend(start: string, a: string, b: string)
    requires EndsLine(a)
    ensures ReadFrom(start, a + b) == ReadFrom(start, a) + ReadFrom("", b)
    decreases |a|
  {
    assert (a + b)[1..] == a[1..] + b;
    if |a| == 1 {
      assert a[1..] + b == b && ReadFrom("", a[1..]) == [];
    } else if a[0] == '\n' {
      ReadFromAppend("", a[1..], b);
    } else {
      ReadFromAppend(start + [a[0]], a[1..], b);
    }
  }

  /** Every delivered line is free of newlines. */
  lemma {:induction false} ReadFromOneLine(start: string, text: string)
    requires OneLine(start)
    ensures AllOneLine(ReadFrom(start, text))
    decreases |text|
  {
    if text != "" {
      ReadFromOneLine(if text[0] == '\n' then "" else start + [text[0]], text[1..]);
    }
  }

  /** Printing newline-free lines and reading them back is the identity. */
  lemma {:induction false} ReadUnlines(lines: seq<string>)
    requires AllOneLine(lines)
    ensures ReadLines(Unlines(lines)) == lines
  {
    if lines != [] {
      assert lines[0] + "\n" + Unlines(lines[1..]) == Unlines(lines);
      ReadOne(lines[0], Unlines(lines[1..]));
      ReadUnlines(lines[1..]);
    }
  }

  lemma {:induction false} ReadBlank(text: string)
    requires EndsLine(text)
    ensures NonBlank(ReadLines(text + "\n")) == NonBlank(ReadLines(text))
  {
    ReadAppend(text, "\n");
    ReadNewline();
    NonBlankAppend(ReadLines(text), [""]);
  }

  lemma {:induction false} ReadNewline()
    ensures ReadLines("\n") == [""] && NonBlank([""]) == []
  {
    assert "\n"[1..] == "" && "\n"[..0] == "";
    assert ReadLines("") == [];
    assert NonBlank([""]) == [] + NonBlank([""][1..]);
  }

  /** Command substitution takes off exactly the trailing newlines. */
  lemma {:induction false} SubstituteExactly(text: string)
    ensures !EndsLine(Substitute(text)) && |Substitute(text)| <= |text| && text[..|Substitute(text)|] == Substitute(text)
    ensures forall i :: |Substitute(text)| <= i < |text| ==> text[i] == '\n'
    decreases |text|
  {
    if EndsLine(text) {
      var shorter := text[..|text| - 1];
      SubstituteExactly(shorter);
      assert shorter[..|Substitute(shorter)|] == text[..|Substitute(shorter)|];
      assert forall i :: 0 <= i < |shorter| ==> shorter[i] == text[i];
    }
  }

  /** The loop does not see a last line without its newline. */
  lemma {:induction false} RestIsNotRead(start: string, rest: string)
    requires OneLine(rest)
    ensures ReadFrom(start, rest) == []
    decreases |rest|
  {
    if rest != "" {
      RestIsNotRead(start + [rest[0]], rest[1..]);
    }
  }

  /** A list survives `LIST=$(printf '%s\n' ...)` followed by `printf '%s\n' "$LIST" | while read`,
      but for its blank lines. */
  lemma {:induction false} ReadSubstitute(text: string)
    ensures NonBlank(ReadLines(Substitute(text) + "\n")) == NonBlank(ReadLines(text + "\n"))
    decreases |text|
  {
    if EndsLine(text) {
      var shorter := text[..|text| - 1];
      assert text == shorter + "\n";
      ReadBlank(text);
      ReadSubstitute(shorter);
    }
  }

  /** The names a loop over `LIST=$(printf '%s\n' names...)` visits. */
  lemma {:induction false} ListedNames(names: seq<string>)
    requires AllOneLine(names)
    ensures NonBlank(ReadLines(Substitute(Unlines(names)) + "\n")) == NonBlank(names)
  {
    var t := Unlines(names);
    ReadSubstitute(t);
    ReadUnlines(names);
    if names == [] {
      assert t + "\n" == "\n";
      ReadNewline();
    } else {
      UnlinesEndsLine(names);
      ReadBlank(t);
    }
  }

  lemma {:induction false} UnlinesSnoc(lines: seq<string>, line: string)
    ensures Unlines(lines + [line]) == Unlines(lines) + (line + "\n")
    decreases |lines|
  {
    if lines == [] {
      assert (lines + [line])[1..] == [];
      assert line + "\n" + "" == "" + (line + "\n");
    } else {
      assert (lines + [line])[0] == lines[0] && (lines + [line])[1..] == lines[1..] + [line];
      UnlinesSnoc(lines[1..], line);
      var t := Unlines(lines[1..]);
      assert lines[0] + "\n" + (t + (line + "\n")) == (lines[0] + "\n" + t) + (line + "\n");
    }
  }

  lemma {:induction false} UnlinesEndsLine(lines: seq<string>)
    requires lines != []
    ensures EndsLine(Unlines(lines))
  {
    if |lines| > 1 {
      UnlinesEndsLine(lines[1..]);
    }
  }

  predicate OccursAt(text: string, part: string, i: int)
  {
    0 <= i && i + |part| <= |text| && text[i..i + |part|] == part
  }

  /** `case "\n$list\n" in *"\n$name\n"*)`: the newline-delimited list test. */
  predicate InList(list: string, name: string)
  {
    exists i :: 0 <= i <= |list| + 2 && OccursAt("\n" + list + "\n", "\n" + name + "\n", i)
  }

  /** The substring test is exactly membership among the lines of the list. */
  lemma {:induction false} InListIsLine(list: string, name: string)
    requires OneLine(name)
    ensures InList(list, name) <==> name in ReadLines(list + "\n")
    decreases |list|
  {
    var k := IndexOf(list, '\n');
    var text, part := "\n" + list + "\n", "\n" + name + "\n";
    var line := list[..k];
    FirstLineOccurs(list, name, k);
    if k == |list| {
      assert list + "\n" == line + "\n" + "";
      ReadOne(line, "");
      forall i | OccursAt(text, part, i) ensures i == 0 {
        OccursAtNewline(text, part, i);
      }
    } else {
      var rest := list[k + 1..];
      assert list + "\n" == line + "\n" + (rest + "\n");
      ReadOne(line, rest + "\n");
      InListIsLine(rest, name);
      InListTail(list, name, k);
    }
  }

  lemma {:induction false} OccursAtNewline(text: string, part: string, i: int)
    requires OccursAt(text, part, i) && part != "" && part[0] == '\n'
    ensures text[i] == '\n'
  {
    assert text[i..i + |part|][0] == text[i];
  }

  lemma {:induction false} InListTail(list: string, name: string, k: nat)
    requires k == IndexOf(list, '\n') < |list|
    ensures InList(list, name) <==>
            OccursAt("\n" + list + "\n", "\n" + name + "\n", 0) || InList(list[k + 1..], name)
  {
    var text, part := "\n" + list + "\n", "\n" + name + "\n";
    var tail := "\n" + list[k + 1..] + "\n";
    var d := k + 1;
    assert tail == text[d..];
    assert forall q :: 1 <= q <= k ==> text[q] == list[q - 1];
    forall i | OccursAt(text, part, i) && i != 0 ensures OccursAt(tail, part, i - d) {
      OccursAtNewline(text, part, i);
      assert i >= d;
      SliceOfTail(text, d, i - d, |part|);
    }
    forall i | OccursAt(tail, part, i) ensures OccursAt(text, part, i + d) {
      SliceOfTail(text, d, i, |part|);
    }
  }

  lemma {:induction false} SliceOfTail(text: string, d: nat, i: nat, n: nat)
    requires d + i + n <= |text|
    ensures text[d..][i..i + n] == text[d + i..d + i + n]
  {
  }

  lemma {:induction false} FirstLineOccurs(list: string, name: string, k: nat)
    requires OneLine(name) && k == IndexOf(list, '\n')
    ensures OccursAt("\n" + list + "\n", "\n" + name + "\n", 0) <==> name == list[..k]
  {
    var text, part := "\n" + list + "\n", "\n" + name + "\n";
    if OccursAt(text, part, 0) {
      assert text[0..|part|] == part;
      forall i | 0 <= i < |part| ensures text[i] == part[i] { assert text[0..|part|][i] == part[i]; }
      assert part[|name| + 1] == '\n';
      assert forall i :: 0 <= i < |name| ==> part[i + 1] == name[i];
      assert forall i :: 0 <= i < |list| ==> text[i + 1] == list[i];
      assert |name| >= k;
      assert text[k + 1] == '\n';
      assert |name| <= k;
      assert name == list[..k];
    }
    if name == list[..k] {
      assert text[0..|part|] == part;
    }
  }

  /** in_list over a list of newline-free names decides membership of every nonempty newline-free name. */
  lemma {:induction false} InListOfNames(names: seq<string>, name: string)
    requires AllOneLine(names) && OneLine(name) && name != ""
    ensures InList(Substitute(Unlines(names)), name) <==> name in names
  {
    InListIsLine(Substitute(Unlines(names)), name);
    ListedNames(names);
    var read := ReadLines(Substitute(Unlines(names)) + "\n");
    assert name in read <==> name in NonBlank(read);
    assert name in names <==> name in NonBlank(names);
  }
}
