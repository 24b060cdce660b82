/**
  Shell quoting, `fleet-feed/src/calculations.rs:30-36`, against the shell's own reading.

  The reader follows the quoting rules of IEEE Std 1003.1-2017, Shell Command Language:
  backslash (section 2.2.1), single quotes (2.2.2) and double quotes (2.2.3), with blanks
  separating words. Characters that would start an expansion, an operator or a comment where
  they stand lead to `Special`: what the shell does with them is not modelled.
 */
module ShellQuote {

  function Replace(value: string): string {
    if value == "" then ""
    else (if value[0] == '\'' then "'\"'\"'" else [value[0]]) + Replace(value[1..])
  }

  function Quote(value: string): string {
    if value == "" then "''" else "'" + Replace(value) + "'"
  }

  // ----- the shell's reader

  datatype Mode = Unquoted | Escaped | InSingle | InDouble | EscapedInDouble

  /** Finished words, and the word being read if there is one. */
  datatype Reader = Reader(mode: Mode, words: seq<string>, current: seq<string>) | Special

  function Word(r: Reader): string
    requires r.Reader?
  {
    if r.current == [] then "" else r.current[0]
  }

  /** Adds text to the word being read, starting one if necessary. */
  function Add(r: Reader, text: string, mode: Mode): Reader
    requires r.Reader?
  {
    r.(mode := mode, current := [Word(r) + text])
  }

  predicate IsBlank(c: char) {
    c == ' ' || c == '\t'
  }

  /** Characters with a meaning of their own outside quotes. */
  predicate IsActive(c: char) {
    c in "|&;<>()$`*?[#~=%!{}\n"
  }

  function EndWord(r: Reader): Reader
    requires r.Reader?
  {
    r.(words := r.words + r.current, current := [])
  }

  function Step(r: Reader, c: char): Reader {
    if r.Special? then Special
    else
      match r.mode
      case Unquoted =>
        if c == '\'' then Add(r, "", InSingle)
        else if c == '"' then Add(r, "", InDouble)
        else if c == '\\' then r.(mode := Escaped)
        else if IsBlank(c) then EndWord(r)
        else if IsActive(c) then Special
        else Add(r, [c], Unquoted)
      case Escaped =>
        if c == '\n' then r.(mode := Unquoted) else Add(r, [c], Unquoted)
      case InSingle =>
        if c == '\'' then r.(mode := Unquoted) else Add(r, [c], InSingle)
      case InDouble =>
        if c == '"' then r.(mode := Unquoted)
        else if c == '\\' then r.(mode := EscapedInDouble)
        else if c == '$' || c == '`' then Special
        else Add(r, [c], InDouble)
      case EscapedInDouble =>
        if c == '\n' then r.(mode := InDouble)
        else if c in "$`\"\\" then Add(r, [c], InDouble)
        else Add(r, ['\\', c], InDouble)
  }

  function Read(r: Reader, text: string): Reader
    decreases |text|
  {
    if text == "" then r else Read(Step(r, text[0]), text[1..])
  }

  function Start(): Reader {
    Reader(Unquoted, [], [])
  }

  /** The words of a complete command line. */
  ghost predicate ReadsAs(text: string, words: seq<string>) {
    Ends(Read(Start(), text), words)
  }

  /** The reader ends outside quotes, with these words. */
  ghost predicate Ends(r: Reader, words: seq<string>) {
    r.Reader? && r.mode == Unquoted && EndWord(r).words == words
  }

  // ----- quoting is exact

  lemma {:induction false} ReadConcat(r: Reader, a: string, b: string)
    ensures Read(r, a + b) == Read(Read(r, a), b)
    decreases |a|
  {
    if a == "" {
      assert a + b == b;
    } else {
      assert (a + b)[0] == a[0] && (a + b)[1..] == a[1..] + b;
      ReadConcat(Step(r, a[0]), a[1..], b);
    }
  }

  /** The five characters that stand for a quote: close, a double-quoted quote, reopen. */
  lemma ReadEscapedQuote(words: seq<string>, word: string)
    ensures Read(Reader(InSingle, words, [word]), "'\"'\"'") == Reader(InSingle, words, [word + "'"])
  {
    var s := "'\"'\"'";
    var r0 := Reader(InSingle, words, [word]);
    var r1 := Reader(Unquoted, words, [word]);
    var r2 := Reader(InDouble, words, [word]);
    var r3 := Reader(InDouble, words, [word + "'"]);
    var r4 := Reader(Unquoted, words, [word + "'"]);
    var r5 := Reader(InSingle, words, [word + "'"]);
    assert Step(r0, '\'') == r1;
    assert word + "" == word && word + "'" + "" == word + "'";
    assert Step(r1, '"') == r2 && Step(r2, '\'') == r3 && Step(r3, '"') == r4 && Step(r4, '\'') == r5;
    assert s[1..] == "\"'\"'" && s[1..][1..] == "'\"'" && s[1..][1..][1..] == "\"'" && s[1..][1..][1..][1..] == "'";
    assert Read(r4, "'") == r5;
    assert Read(r3, "\"'") == r5;
    assert Read(r2, "'\"'") == r5;
    assert Read(r1, "\"'\"'") == r5;
  }

  lemma {:induction false} ReadReplaced(words: seq<string>, word: string, value: string)
    ensures Read(Reader(InSingle, words, [word]), Replace(value)) == Reader(InSingle, words, [word + value])
    decreases |value|
  {
    var r := Reader(InSingle, words, [word]);
    if value == "" {
      assert word + value == word;
    } else {
      var first := if value[0] == '\'' then "'\"'\"'" else [value[0]];
      ReadConcat(r, first, Replace(value[1..]));
      if value[0] == '\'' {
        ReadEscapedQuote(words, word);
      } else {
        assert first[1..] == "";
        assert Read(r, first) == Step(r, value[0]);
      }
      assert Read(r, first) == Reader(InSingle, words, [word + [value[0]]]);
      ReadReplaced(words, word + [value[0]], value[1..]);
      assert word + [value[0]] + value[1..] == word + value;
    }
  }

  /**
    Wherever it stands outside quotes, the quoted form of `value` adds exactly `value` to the
    word being read and leaves the reader outside quotes, so what follows is read on its own.
   */
  lemma QuoteIsExact(r: Reader, value: string, rest: string)
    requires r.Reader? && r.mode == Unquoted
    ensures Read(r, Quote(value) + rest) == Read(Add(r, value, Unquoted), rest)
  {
    var within := Reader(InSingle, r.words, [Word(r)]);
    assert Word(r) + "" == Word(r);
    assert Step(r, '\'') == within;
    assert Quote(value) + rest == "'" + (Replace(value) + ("'" + rest));
    ReadConcat(r, "'", Replace(value) + ("'" + rest));
    assert "'"[1..] == "";
    assert Read(r, "'") == within;
    ReadConcat(within, Replace(value), "'" + rest);
    ReadReplaced(r.words, Word(r), value);
    var filled := Reader(InSingle, r.words, [Word(r) + value]);
    assert ("'" + rest)[0] == '\'' && ("'" + rest)[1..] == rest;
    assert Step(filled, '\'') == Add(r, value, Unquoted);
  }

  /** A quoted value alone is one word, the value, for every string. */
  lemma QuoteReadsBack(value: string)
    ensures ReadsAs(Quote(value), [value])
  {
    QuoteIsExact(Start(), value, "");
    assert Quote(value) + "" == Quote(value);
    assert "" + value == value;
  }

  lemma QuoteInjective(a: string, b: string)
    ensures Quote(a) == Quote(b) <==> a == b
  {
    QuoteReadsBack(a);
    QuoteReadsBack(b);
    assert [a] == [b] <==> a == b by {
      assert [a][0] == a && [b][0] == b;
    }
  }

  // ----- whole command lines

  function CommandLine(values: seq<string>): string {
    if values == [] then ""
    else if |values| == 1 then Quote(values[0])
    else Quote(values[0]) + " " + CommandLine(values[1..])
  }

  /** A quoted value followed by a blank is one finished word. */
  lemma ReadOneMore(words: seq<string>, value: string, rest: string)
    ensures Read(Reader(Unquoted, words, []), Quote(value) + " " + rest)
         == Read(Reader(Unquoted, words + [value], []), rest)
  {
    var r := Reader(Unquoted, words, []);
    assert Quote(value) + " " + rest == Quote(value) + (" " + rest);
    QuoteIsExact(r, value, " " + rest);
    assert "" + value == value;
    assert (" " + rest)[0] == ' ' && (" " + rest)[1..] == rest;
    assert Step(Reader(Unquoted, words, [value]), ' ') == Reader(Unquoted, words + [value], []);
  }

  lemma ReadLast(words: seq<string>, value: string)
    ensures Ends(Read(Reader(Unquoted, words, []), Quote(value)), words + [value])
  {
    QuoteIsExact(Reader(Unquoted, words, []), value, "");
    assert Quote(value) + "" == Quote(value);
    assert "" + value == value;
  }

  lemma ReadFirst(words: seq<string>, values: seq<string>)
    requires |values| > 1
    ensures Read(Reader(Unquoted, words, []), CommandLine(values))
         == Read(Reader(Unquoted, words + [values[0]], []), CommandLine(values[1..]))
  {
    ReadOneMore(words, values[0], CommandLine(values[1..]));
  }

  lemma {:induction false} ReadCommandLine(all: seq<string>, n: nat)
    requires n < |all|
    ensures Ends(Read(Reader(Unquoted, all[..n], []), CommandLine(all[n..])), all)
    decreases |all| - n
  {
    if n == |all| - 1 {
      ReadLast(all[..n], all[n]);
      assert all[n..] == [all[n]] && all[..n] + [all[n]] == all;
    } else {
      ReadCommandLine(all, n + 1);
      ReadFirst(all[..n], all[n..]);
      assert all[..n] + [all[n..][0]] == all[..n + 1] && all[n..][1..] == all[n + 1..];
    }
  }

  /** Quoted values joined by blanks are read as exactly those values, in order. */
  lemma CommandLineReadsBack(values: seq<string>)
    ensures ReadsAs(CommandLine(values), values)
  {
    if values != [] {
      ReadCommandLine(values, 0);
      assert values[..0] == [] && values[0..] == values;
    }
  }
}
