/**
 Quoting of command arguments, and the shell's token recognition and quote removal that undo it
 (sections 2.2.1 to 2.2.3 and 2.3 of the Shell Command Language volume of IEEE Std 1003.1-2017).
 */
module ShellQuote {
  import opened Text

  // ---------------------------------------------------------------------------
  // The printer
  // ---------------------------------------------------------------------------

  predicate IsSafe(c: char) {
    || 'a' <= c <= 'z' || 'A' <= c <= 'Z' || '0' <= c <= '9'
    || c == '.' || c == '/' || c == '-' || c == '_'
  }

  const QUOTED_QUOTE := "'\"'\"'"

  /** `value.replace('\'', "'\"'\"'")` */
  function ReplaceQuotes(s: string): string {
    if s == [] then [] else (if s[0] == '\'' then QUOTED_QUOTE else [s[0]]) + ReplaceQuotes(s[1..])
  }

  function ShellEscape(value: string): string {
    if value == [] then "''"
    else if forall c | c in value :: IsSafe(c) then value
    else "'" + ReplaceQuotes(value) + "'"
  }

  /** The command line handed to the remote shell. */
  function CommandLine(args: seq<string>): string {
    JoinWith(Escaped(args), " ")
  }

  function Escaped(args: seq<string>): (escaped: seq<string>)
    ensures |escaped| == |args| && forall i | 0 <= i < |args| :: escaped[i] == ShellEscape(args[i])
  {
    seq(|args|, i requires 0 <= i < |args| => ShellEscape(args[i]))
  }

  // ---------------------------------------------------------------------------
  // The shell
  // ---------------------------------------------------------------------------

  /** Either the words of a line, or a line that asks the shell for anything beyond plain words. */
  datatype Lexed = Words(words: seq<string>) | NotPlain

  /** The word being read, if one has begun. */
  type Pending = Option<string>

  function Extend(pending: Pending, s: string): string {
    if pending.Some? then pending.value + s else s
  }

  /** Every unquoted character the standard lists as special, outright or under some circumstances. */
  predicate IsSpecial(c: char) {
    || c == '|' || c == '&' || c == ';' || c == '<' || c == '>' || c == '(' || c == ')' || c == '$' || c == '`'
    || c == '*' || c == '?' || c == '[' || c == '#' || c == '~' || c == '=' || c == '%' || c == '\n'
  }

  predicate EscapableInDouble(c: char) {
    c == '$' || c == '`' || c == '"' || c == '\\'
  }

  /** The state of token recognition: outside quotes, or inside single or double quotes. */
  datatype Mode = Plain | Single | Double

  /** Read the rest of a line; `words` are complete, `pending` is the word being read. */
  function Lex(s: string, mode: Mode, words: seq<string>, pending: Pending): Lexed
    decreases |s|
  {
    match mode
    case Plain =>
      if s == [] then Words(if pending.Some? then words + [pending.value] else words)
      else if s[0] == ' ' || s[0] == '\t' then
        Lex(s[1..], Plain, if pending.Some? then words + [pending.value] else words, None)
      else if s[0] == '\'' then Lex(s[1..], Single, words, Some(Extend(pending, "")))
      else if s[0] == '"' then Lex(s[1..], Double, words, Some(Extend(pending, "")))
      else if s[0] == '\\' then
        if |s| == 1 then NotPlain
        else if s[1] == '\n' then Lex(s[2..], Plain, words, pending)
        else Lex(s[2..], Plain, words, Some(Extend(pending, [s[1]])))
      else if IsSpecial(s[0]) then NotPlain
      else Lex(s[1..], Plain, words, Some(Extend(pending, [s[0]])))
    case Single =>
      if s == [] then NotPlain
      else if s[0] == '\'' then Lex(s[1..], Plain, words, pending)
      else Lex(s[1..], Single, words, Some(Extend(pending, [s[0]])))
    case Double =>
      if s == [] then NotPlain
      else if s[0] == '"' then Lex(s[1..], Plain, words, pending)
      else if s[0] == '$' || s[0] == '`' then NotPlain
      else if s[0] == '\\' && |s| > 1 && EscapableInDouble(s[1]) then Lex(s[2..], Double, words, Some(Extend(pending, [s[1]])))
      else if s[0] == '\\' && |s| > 1 && s[1] == '\n' then Lex(s[2..], Double, words, pending)
      else Lex(s[1..], Double, words, Some(Extend(pending, [s[0]])))
  }

  function ShellWords(line: string): Lexed {
    Lex(line, Plain, [], None)
  }

  // ---------------------------------------------------------------------------
  // Round trip
  // ---------------------------------------------------------------------------

  lemma {:induction false} LexSafe(s: string, rest: string, words: seq<string>, word: string)
    requires forall c | c in s :: IsSafe(c)
    ensures Lex(s + rest, Plain, words, Some(word)) == Lex(rest, Plain, words, Some(word + s))
  {
    if s == [] {
      assert s + rest == rest && word + s == word;
    } else {
      assert (s + rest)[1..] == s[1..] + rest;
      assert IsSafe(s[0]);
      LexSafe(s[1..], rest, words, word + [s[0]]);
      assert word + [s[0]] + s[1..] == word + s;
    }
  }

  /** Inside single quotes every character stands for itself, and a replaced quote for a quote. */
  lemma {:induction false} LexQuoted(s: string, rest: string, words: seq<string>, word: string)
    ensures Lex(ReplaceQuotes(s) + "'" + rest, Single, words, Some(word)) == Lex(rest, Plain, words, Some(word + s))
  {
    var tail := ReplaceQuotes(s) + "'" + rest;
    if s == [] {
      assert tail == "'" + rest && tail[1..] == rest && word + s == word;
    } else {
      var more := ReplaceQuotes(s[1..]) + "'" + rest;
      LexQuoted(s[1..], rest, words, word + [s[0]]);
      assert word + [s[0]] + s[1..] == word + s;
      if s[0] == '\'' {
        assert tail == QUOTED_QUOTE + more;
        LexQuotedQuote(more, words, word);
      } else {
        assert tail == [s[0]] + more && tail[1..] == more;
      }
    }
  }

  lemma LexQuotedQuote(more: string, words: seq<string>, word: string)
    ensures Lex(QUOTED_QUOTE + more, Single, words, Some(word)) == Lex(more, Single, words, Some(word + "'"))
  {
    var s0 := QUOTED_QUOTE + more;
    var s1 := "\"'\"'" + more;
    var s2 := "'\"'" + more;
    var s3 := "\"'" + more;
    var s4 := "'" + more;
    assert s0[1..] == s1 && s1[1..] == s2 && s2[1..] == s3 && s3[1..] == s4 && s4[1..] == more;
    assert word + "" == word && word + "'" + "" == word + "'";
    calc {
      Lex(s0, Single, words, Some(word));
      Lex(s1, Plain, words, Some(word));
      Lex(s2, Double, words, Some(word));
      Lex(s3, Double, words, Some(word + "'"));
      Lex(s4, Plain, words, Some(word + "'"));
      Lex(more, Single, words, Some(word + "'"));
    }
  }

  /** One escaped argument reads back as one pending word. */
  lemma LexEscaped(arg: string, rest: string, words: seq<string>)
    ensures Lex(ShellEscape(arg) + rest, Plain, words, None) == Lex(rest, Plain, words, Some(arg))
  {
    if arg != [] && forall c | c in arg :: IsSafe(c) {
      LexSafeArgument(arg, rest, words);
    } else {
      assert ShellEscape(arg) == "'" + ReplaceQuotes(arg) + "'";
      LexQuotedArgument(arg, rest, words);
    }
  }

  lemma LexSafeArgument(arg: string, rest: string, words: seq<string>)
    requires arg != [] && forall c | c in arg :: IsSafe(c)
    ensures Lex(arg + rest, Plain, words, None) == Lex(rest, Plain, words, Some(arg))
  {
    assert [arg[0]] + (arg[1..] + rest) == arg + rest;
    LexSafeStart(arg[0], arg[1..] + rest, words);
    LexSafe(arg[1..], rest, words, [arg[0]]);
    assert [arg[0]] + arg[1..] == arg;
  }

  lemma LexSafeStart(c: char, rest: string, words: seq<string>)
    requires IsSafe(c)
    ensures Lex([c] + rest, Plain, words, None) == Lex(rest, Plain, words, Some([c]))
  {
    assert ([c] + rest)[0] == c && ([c] + rest)[1..] == rest;
  }

  lemma LexQuotedArgument(arg: string, rest: string, words: seq<string>)
    ensures Lex("'" + ReplaceQuotes(arg) + "'" + rest, Plain, words, None) == Lex(rest, Plain, words, Some(arg))
  {
    var s := "'" + ReplaceQuotes(arg) + "'" + rest;
    assert s[1..] == ReplaceQuotes(arg) + "'" + rest;
    LexQuoted(arg, rest, words, "");
    assert "" + arg == arg;
  }

  lemma {:induction false} LexCommandLine(args: seq<string>, words: seq<string>)
    ensures Lex(CommandLine(args), Plain, words, None) == Words(words + args)
  {
    if args == [] {
      assert words + args == words;
    } else if |args| == 1 {
      LexLastArgument(args[0], words);
      assert args == [args[0]];
      assert CommandLine(args) == ShellEscape(args[0]);
    } else {
      var rest := args[1..];
      CommandLineStep(args);
      LexArgument(args[0], CommandLine(rest), words);
      LexCommandLine(rest, words + [args[0]]);
      assert words + [args[0]] + rest == words + args;
    }
  }

  lemma CommandLineStep(args: seq<string>)
    requires |args| > 1
    ensures CommandLine(args) == ShellEscape(args[0]) + " " + CommandLine(args[1..])
  {
    assert Escaped(args)[1..] == Escaped(args[1..]);
  }

  /** An argument with more to come is one complete word. */
  lemma LexArgument(arg: string, more: string, words: seq<string>)
    ensures Lex(ShellEscape(arg) + " " + more, Plain, words, None) == Lex(more, Plain, words + [arg], None)
  {
    var tail := " " + more;
    Regroup(ShellEscape(arg), " ", more);
    LexEscaped(arg, tail, words);
    assert tail[0] == ' ' && tail[1..] == more;
  }

  lemma LexLastArgument(arg: string, words: seq<string>)
    ensures Lex(ShellEscape(arg), Plain, words, None) == Words(words + [arg])
  {
    LexEscaped(arg, "", words);
    assert ShellEscape(arg) + "" == ShellEscape(arg);
  }

  /** For every argument vector, the shell reads the command line back as exactly that vector. */
  lemma QuotingRoundTrip(args: seq<string>)
    ensures ShellWords(CommandLine(args)) == Words(args)
  {
    LexCommandLine(args, []);
    assert [] + args == args;
  }
}
