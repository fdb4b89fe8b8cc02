/** Rendering values as single-quoted shell words, against a tokenizer for sections 2.2.1 (escape
    character) and 2.2.2 (single-quotes) of the POSIX.1-2017 Shell Command Language. */
module Shell {
  import opened Text

  /** Where the tokenizer stands: between words, in a word, or inside single quotes. */
  datatype Mode = Between | InWord | InQuotes

  const METACHARACTERS: string := "|&;<>()$`\"*?[#~=%\t\n"

  /** The words the shell passes on, or None where it would do more than split words: an unterminated
      quote, a trailing backslash, or an unquoted metacharacter. */
  function Tokenize(text: string): Option<seq<string>>
  {
    Lex(text, Between, "", [])
  }

  function Lex(text: string, mode: Mode, word: string, words: seq<string>): Option<seq<string>>
    decreases |text|
  {
    if text == "" then
      match mode
      case Between => Some(words)
      case InWord => Some(words + [word])
      case InQuotes => None
    else if mode == InQuotes then
      if text[0] == '\'' then Lex(text[1..], InWord, word, words)
      else Lex(text[1..], InQuotes, word + [text[0]], words)
    else if text[0] == '\'' then Lex(text[1..], InQuotes, word, words)
    else if text[0] == '\\' then
      if |text| == 1 then None
      else if text[1] == '\n' then Lex(text[2..], mode, word, words)
      else Lex(text[2..], InWord, word + [text[1]], words)
    else if text[0] == ' ' then
      if mode == InWord then Lex(text[1..], Between, "", words + [word])
      else Lex(text[1..], Between, word, words)
    else if text[0] in METACHARACTERS then None
    else Lex(text[1..], InWord, word + [text[0]], words)
  }

  /** `strings.ReplaceAll(v, "'", `'\''`)`. */
  function Escape(v: string): string
  {
    if v == "" then "" else (if v[0] == '\'' then "'\\''" else [v[0]]) + Escape(v[1..])
  }

  function Quote(v: string): string
  {
    "'" + Escape(v) + "'"
  }

  /** `strings.Join(words, " ")`. */
  function JoinWords(words: seq<string>): string
  {
    if words == [] then "" else if |words| == 1 then words[0] else words[0] + " " + JoinWords(words[1..])
  }

  /** Leave the quotes, take a quote as it is, enter the quotes again. */
  lemma {:induction false} LexEscapedQuote(after: string, word: string, words: seq<string>)
    ensures Lex("'\\''" + after, InQuotes, word, words) == Lex(after, InQuotes, word + ['\''], words)
  {
    var one, two, three := "'" + after, "\\''" + after, "'\\''" + after;
    assert three[1..] == two && two[2..] == one && one[1..] == after;
    assert Lex(one, InWord, word + ['\''], words) == Lex(after, InQuotes, word + ['\''], words);
    assert Lex(two, InWord, word, words) == Lex(one, InWord, word + ['\''], words);
    assert Lex(three, InQuotes, word, words) == Lex(two, InWord, word, words);
  }

  /** Inside quotes, an escaped value is read back verbatim whatever it holds. */
  lemma {:induction false} LexEscaped(v: string, tail: string, word: string, words: seq<string>)
    ensures Lex(Escape(v) + ("'" + tail), InQuotes, word, words) == Lex(tail, InWord, word + v, words)
    decreases |v|
  {
    var rest := "'" + tail;
    if v == "" {
      assert Escape(v) + rest == rest && word + v == word;
    } else {
      var after := Escape(v[1..]) + rest;
      EscapeCons(v, rest);
      if v[0] == '\'' {
        LexEscapedQuote(after, word, words);
      }
      LexEscaped(v[1..], tail, word + [v[0]], words);
      WordCons(word, v);
    }
  }

  lemma {:induction false} WordCons(word: string, v: string)
    requires v != ""
    ensures word + [v[0]] + v[1..] == word + v
  {
  }

  lemma {:induction false} EscapeCons(v: string, rest: string)
    requires v != ""
    ensures Escape(v) + rest == (if v[0] == '\'' then "'\\''" else [v[0]]) + (Escape(v[1..]) + rest)
  {
  }

  lemma {:induction false} LexQuoted(v: string, tail: string, words: seq<string>)
    ensures Lex(Quote(v) + tail, Between, "", words) == Lex(tail, InWord, v, words)
  {
    var text := Quote(v) + tail;
    assert text[1..] == Escape(v) + ("'" + tail);
    LexEscaped(v, tail, "", words);
    assert "" + v == v;
  }

  lemma {:induction false} LexJoined(values: seq<string>, quoted: seq<string>, words: seq<string>)
    requires |quoted| == |values| && forall i :: 0 <= i < |values| ==> quoted[i] == Quote(values[i])
    ensures Lex(JoinWords(quoted), Between, "", words) == Some(words + values)
    decreases |values|
  {
    if values == [] {
      assert words + values == words;
    } else {
      var v := values[0];
      if |values| == 1 {
        LexQuoted(v, "", words);
        assert Quote(v) + "" == Quote(v) == JoinWords(quoted);
        assert words + [v] == words + values;
      } else {
        var rest := JoinWords(quoted[1..]);
        var tail := " " + rest;
        assert JoinWords(quoted) == Quote(v) + tail;
        LexQuoted(v, tail, words);
        assert tail[1..] == rest;
        LexJoined(values[1..], quoted[1..], words + [v]);
        assert words + [v] + values[1..] == words + values;
      }
    }
  }

  /** Every list of strings reaches the command as exactly that list of arguments. */
  method ShellWords(values: seq<string>) returns (text: string)
    ensures Tokenize(text) == Some(values)
  {
    var words := [];
    for i := 0 to |values|
      invariant |words| == i
      invariant forall j :: 0 <= j < i ==> words[j] == Quote(values[j])
    {
      words := words + [Quote(values[i])];
    }
    text := JoinWords(words);
    LexJoined(values, words, []);
    assert [] + values == values;
  }
}
