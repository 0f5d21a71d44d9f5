/**
 Printing an argument list as a shell command, and reading one back. The reader follows the POSIX.1-2017
 Shell Command Language: section 2.2 for quoting and section 2.3 for token recognition.
 */
module ShellCommand {
  import opened Claims
  import Text

  // ---- The printer ----

  predicate IsPlain(c: char) {
    Text.IsAsciiAlphanumeric(c) || c == '_' || c == '-' || c == '.' || c == '/' || c == ':' || c == '@' || c == '+'
  }

  predicate AllPlain(value: string) {
    forall i :: 0 <= i < |value| ==> IsPlain(value[i])
  }

  /** Leave the single quotes, quote a single quote doubly, enter them again. */
  const QUOTED_QUOTE: string := "'\"'\"'"

  function ReplaceQuotes(value: string): string {
    if value == "" then ""
    else (if value[0] == '\'' then QUOTED_QUOTE else [value[0]]) + ReplaceQuotes(value[1..])
  }

  function ShellQuote(value: string): string {
    if value != "" && AllPlain(value) then value else "'" + ReplaceQuotes(value) + "'"
  }

  function RetryCommand(args: seq<string>): string {
    if args == [] then ""
    else if |args| == 1 then ShellQuote(args[0])
    else ShellQuote(args[0]) + " " + RetryCommand(args[1..])
  }

  // ---- The reader ----

  datatype Quoting = Unquoted | Backslash | InSingle | InDouble | BackslashInDouble

  /** The words read so far, the word being read if there is one, and the quoting in force. */
  datatype Reader = Reading(words: seq<string>, word: Option<string>, quoting: Quoting) | Refused
  {
    function With(c: char): Reader
      requires Reading?
    {
      this.(word := Some(if word.Some? then word.value + [c] else [c]))
    }

    function Opening(next: Quoting): Reader
      requires Reading?
    {
      Reading(words, Some(if word.Some? then word.value else ""), next)
    }

    function Ended(): Reader
      requires Reading?
    {
      if word.Some? then Reading(words + [word.value], None, quoting) else this
    }
  }

  /** The characters section 2.2 says need quoting to stand for themselves, now or under some condition. */
  predicate IsSpecial(c: char) {
    || c == '|' || c == '&' || c == ';' || c == '<' || c == '>' || c == '(' || c == ')' || c == '$' || c == '`'
    || c == '\\' || c == '"' || c == '\'' || c == ' ' || c == '\t' || c == '\n'
    || c == '*' || c == '?' || c == '[' || c == '#' || c == '~' || c == '=' || c == '%'
    || c == '{' || c == '}' || c == '!'
  }

  /** One more character. Anything but literal words (an operator, an expansion, a pattern) is refused. */
  function Read(r: Reader, c: char): Reader {
    if r.Refused? then Refused else
      match r.quoting
      case Unquoted =>
        if c == ' ' || c == '\t' then r.Ended()
        else if c == '\'' then r.Opening(InSingle)
        else if c == '"' then r.Opening(InDouble)
        else if c == '\\' then r.(quoting := Backslash)
        else if IsSpecial(c) then Refused
        else r.With(c)
      case Backslash =>
        var back := r.(quoting := Unquoted);
        if c == '\n' then back else back.With(c)
      case InSingle =>
        if c == '\'' then r.Opening(Unquoted) else r.With(c)
      case InDouble =>
        if c == '"' then r.Opening(Unquoted)
        else if c == '\\' then r.(quoting := BackslashInDouble)
        else if c == '$' || c == '`' then Refused
        else r.With(c)
      case BackslashInDouble =>
        var back := r.(quoting := InDouble);
        if c == '\n' then back
        else if c == '$' || c == '`' || c == '"' || c == '\\' then back.With(c)
        else back.With('\\').With(c)
  }

  function ReadAll(r: Reader, text: string): Reader
    decreases text
  {
    if text == "" then r else ReadAll(Read(r, text[0]), text[1..])
  }

  /** The literal words of a command line; nothing if it is unfinished or is more than words. */
  function Words(text: string): Option<seq<string>> {
    var r := ReadAll(Reading([], None, Unquoted), text);
    if r.Reading? && r.quoting == Unquoted then Some(r.Ended().words) else None
  }

  lemma {:induction false} ReadOn(r: Reader, first: string, second: string)
    ensures ReadAll(r, first + second) == ReadAll(ReadAll(r, first), second)
    decreases first
  {
    if first == "" {
      assert first + second == second;
    } else {
      assert (first + second)[1..] == first[1..] + second;
      ReadOn(Read(r, first[0]), first[1..], second);
    }
  }

  // ---- What is printed is read back ----

  lemma PlainCharacterIsRead(words: seq<string>, sofar: string, c: char)
    requires IsPlain(c)
    ensures Read(Reading(words, Some(sofar), Unquoted), c) == Reading(words, Some(sofar + [c]), Unquoted)
    ensures Read(Reading(words, None, Unquoted), c) == Reading(words, Some([c]), Unquoted)
  {
  }

  lemma {:induction false} PlainIsRead(words: seq<string>, sofar: string, value: string)
    requires AllPlain(value)
    ensures ReadAll(Reading(words, Some(sofar), Unquoted), value) == Reading(words, Some(sofar + value), Unquoted)
    decreases value
  {
    if value == "" {
      assert sofar + value == sofar;
    } else {
      PlainCharacterIsRead(words, sofar, value[0]);
      PlainIsRead(words, sofar + [value[0]], value[1..]);
      assert sofar + [value[0]] + value[1..] == sofar + value;
    }
  }

  /** Five characters that leave the quotes, read a single quote, and return. */
  lemma QuotedQuoteIsRead(words: seq<string>, sofar: string)
    ensures ReadAll(Reading(words, Some(sofar), InSingle), QUOTED_QUOTE)
         == Reading(words, Some(sofar + "'"), InSingle)
  {
  }

  lemma {:induction false} ReplacedIsRead(words: seq<string>, sofar: string, value: string)
    ensures ReadAll(Reading(words, Some(sofar), InSingle), ReplaceQuotes(value))
         == Reading(words, Some(sofar + value), InSingle)
    decreases value
  {
    if value == "" {
      assert sofar + value == sofar;
    } else {
      var r := Reading(words, Some(sofar), InSingle);
      var first := if value[0] == '\'' then QUOTED_QUOTE else [value[0]];
      ReadOn(r, first, ReplaceQuotes(value[1..]));
      if value[0] == '\'' {
        QuotedQuoteIsRead(words, sofar);
      } else {
        assert ReadAll(r, [value[0]]) == ReadAll(Read(r, value[0]), "");
      }
      ReplacedIsRead(words, sofar + [value[0]], value[1..]);
      assert sofar + [value[0]] + value[1..] == sofar + value;
    }
  }

  lemma QuotedIsRead(words: seq<string>, value: string)
    ensures ReadAll(Reading(words, None, Unquoted), ShellQuote(value)) == Reading(words, Some(value), Unquoted)
  {
    var r := Reading(words, None, Unquoted);
    if value != "" && AllPlain(value) {
      PlainCharacterIsRead(words, "", value[0]);
      PlainIsRead(words, [value[0]], value[1..]);
      assert [value[0]] + value[1..] == value;
    } else {
      var inside := ReplaceQuotes(value);
      assert "'" + inside + "'" == "'" + (inside + "'");
      ReadOn(r, "'", inside + "'");
      assert ReadAll(r, "'") == ReadAll(Read(r, '\''), "");
      ReplacedIsRead(words, "", value);
      assert "" + value == value;
      var inQuotes := Reading(words, Some(""), InSingle);
      ReadOn(inQuotes, inside, "'");
      var done := Reading(words, Some(value), InSingle);
      assert ReadAll(done, "'") == ReadAll(Read(done, '\''), "");
    }
  }

  lemma WordIsRead(words: seq<string>, value: string, rest: string)
    ensures ReadAll(Reading(words, None, Unquoted), ShellQuote(value) + " " + rest)
         == ReadAll(Reading(words + [value], None, Unquoted), rest)
  {
    var r := Reading(words, None, Unquoted);
    var done := Reading(words, Some(value), Unquoted);
    var text := ShellQuote(value);
    assert text + " " + rest == text + (" " + rest);
    QuotedIsRead(words, value);
    ReadOn(r, text, " " + rest);
    assert (" " + rest)[1..] == rest;
    assert ReadAll(done, " " + rest) == ReadAll(Read(done, ' '), rest);
  }

  lemma {:induction false} CommandIsRead(words: seq<string>, args: seq<string>)
    requires args != []
    ensures ReadAll(Reading(words, None, Unquoted), RetryCommand(args))
         == Reading(words + args[..|args| - 1], Some(args[|args| - 1]), Unquoted)
    decreases args
  {
    if |args| == 1 {
      QuotedIsRead(words, args[0]);
      assert words + args[..0] == words;
    } else {
      var value, rest := args[0], args[1..];
      WordIsRead(words, value, RetryCommand(rest));
      assert RetryCommand(args) == ShellQuote(value) + " " + RetryCommand(rest);
      CommandIsRead(words + [value], rest);
      WordsShift(words, args);
    }
  }

  lemma WordsShift(words: seq<string>, args: seq<string>)
    requires |args| > 1
    ensures words + [args[0]] + args[1..][..|args[1..]| - 1] == words + args[..|args| - 1]
    ensures args[1..][|args[1..]| - 1] == args[|args| - 1]
  {
  }

  lemma LastWordEnds(text: string, words: seq<string>, last: string)
    requires ReadAll(Reading([], None, Unquoted), text) == Reading(words, Some(last), Unquoted)
    ensures Words(text) == Some(words + [last])
  {
  }

  /** A shell reads the printed command as exactly the arguments it was made from. */
  lemma RetryCommandRoundTrip(args: seq<string>)
    ensures Words(RetryCommand(args)) == Some(args)
  {
    if args != [] {
      var words, last := args[..|args| - 1], args[|args| - 1];
      assert [] + words == words && words + [last] == args;
      CommandIsRead([], args);
      LastWordEnds(RetryCommand(args), words, last);
    }
  }

  /** Different argument lists are never printed alike. */
  lemma RetryCommandTellsApart(args: seq<string>, others: seq<string>)
    requires RetryCommand(args) == RetryCommand(others)
    ensures args == others
  {
    RetryCommandRoundTrip(args);
    RetryCommandRoundTrip(others);
  }

  /** A character that stands bare: a letter or digit of ASCII, or one of seven others. */
  ghost predicate StandsBare(c: char) {
    || '0' <= c <= '9' || 'A' <= c <= 'Z' || 'a' <= c <= 'z'
    || c == '_' || c == '-' || c == '.' || c == '/' || c == ':' || c == '@' || c == '+'
  }

  /** Quotes are spared exactly where every character stands bare and there is at least one. */
  lemma BareWhenPlain(value: string)
    ensures ShellQuote(value) == value <==> value != "" && forall i :: 0 <= i < |value| ==> StandsBare(value[i])
  {
    ReplacedNoShorter(value);
  }

  lemma {:induction false} ReplacedNoShorter(value: string)
    ensures |ReplaceQuotes(value)| >= |value|
  {
    if value != "" {
      ReplacedNoShorter(value[1..]);
    }
  }
}
