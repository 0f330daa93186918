/**
 Quoting a command line for `sh -c`, against a lexer that follows sections 2.2
 (Quoting) and 2.3 (Token Recognition) of the POSIX.1-2017 Shell Command Language.
 */
module ShellWords {
  import opened Base

  // ---------------------------------------------------------------------
  // The daemon's quoting
  // ---------------------------------------------------------------------

  predicate Safe(c: char) {
    'a' <= c <= 'z' || 'A' <= c <= 'Z' || '0' <= c <= '9' || c in "_-./:@+="
  }

  predicate AllSafe(s: string) {
    forall c | c in s :: Safe(c)
  }

  /** A single quote, outside quotes but inside double ones, and back. */
  const REQUOTED := "'\"'\"'"

  function EscapeQuotes(s: string): string {
    if s == "" then "" else (if s[0] == '\'' then REQUOTED else [s[0]]) + EscapeQuotes(s[1..])
  }

  function ShellQuote(value: string): string {
    if value == "" then "''"
    else if AllSafe(value) then value
    else "'" + EscapeQuotes(value) + "'"
  }

  lemma {:induction false} EscapedIsLonger(s: string)
    ensures |EscapeQuotes(s)| >= |s|
  {
    if s != "" {
      EscapedIsLonger(s[1..]);
    }
  }

  /** A word is left without quotes exactly when it is not empty and made of these characters. */
  lemma UnquotedIff(v: string)
    ensures ShellQuote(v) == v <==>
            v != "" && forall i | 0 <= i < |v| ::
              'a' <= v[i] <= 'z' || 'A' <= v[i] <= 'Z' || '0' <= v[i] <= '9' || v[i] in {'_', '-', '.', '/', ':', '@', '+', '='}
  {
    EscapedIsLonger(v);
    hide EscapeQuotes;
    if forall i | 0 <= i < |v| ::
         'a' <= v[i] <= 'z' || 'A' <= v[i] <= 'Z' || '0' <= v[i] <= '9' || v[i] in {'_', '-', '.', '/', ':', '@', '+', '='} {
      assert AllSafe(v);
    }
    if AllSafe(v) {
      assert forall i | 0 <= i < |v| :: v[i] in v && Safe(v[i]);
    }
  }

  function JoinQuoted(words: seq<string>): string {
    if words == [] then ""
    else if |words| == 1 then ShellQuote(words[0])
    else ShellQuote(words[0]) + " " + JoinQuoted(words[1..])
  }

  function JoinShellCommand(command: string, args: seq<string>): string {
    JoinQuoted([command] + args)
  }

  // ---------------------------------------------------------------------
  // The shell's lexer
  // ---------------------------------------------------------------------

  datatype Mode = Bare | InSingle | InDouble

  /** Characters that end a token or start an expansion when they are not quoted. */
  const ACTIVE := "|&;<>()\n$`*?[~"

  function Extended(token: Option<string>, c: char): Option<string> {
    match token case None => Some([c]) case Some(t) => Some(t + [c])
  }

  function Opened(token: Option<string>): Option<string> {
    match token case None => Some("") case Some(t) => Some(t)
  }

  function Delimited(words: seq<string>, token: Option<string>): seq<string> {
    match token case None => words case Some(t) => words + [t]
  }

  /**
   The words of a command line after quote removal; none when a quote is left open, or an operator, a comment
   or an expansion occurs.
   */
  function Lex(s: string, mode: Mode, token: Option<string>, words: seq<string>): Option<seq<string>>
    decreases |s|
  {
    if s == "" then if mode == Bare then Some(Delimited(words, token)) else None
    else
      match mode
      case InSingle =>
        if s[0] == '\'' then Lex(s[1..], Bare, token, words) else Lex(s[1..], InSingle, Extended(token, s[0]), words)
      case InDouble =>
        if s[0] == '"' then Lex(s[1..], Bare, token, words)
        else if s[0] == '$' || s[0] == '`' then None
        else if s[0] == '\\' && |s| > 1 && s[1] == '\n' then Lex(s[2..], InDouble, token, words)
        else if s[0] == '\\' && |s| > 1 && s[1] in "$`\"\\" then Lex(s[2..], InDouble, Extended(token, s[1]), words)
        else Lex(s[1..], InDouble, Extended(token, s[0]), words)
      case Bare =>
        if s[0] == '\'' then Lex(s[1..], InSingle, Opened(token), words)
        else if s[0] == '"' then Lex(s[1..], InDouble, Opened(token), words)
        else if s[0] == '\\' then
          if |s| == 1 then None
          else if s[1] == '\n' then Lex(s[2..], Bare, token, words)
          else Lex(s[2..], Bare, Extended(token, s[1]), words)
        else if s[0] == ' ' || s[0] == '\t' then Lex(s[1..], Bare, None, Delimited(words, token))
        else if s[0] in ACTIVE || (s[0] == '#' && token.None?) then None
        else Lex(s[1..], Bare, Extended(token, s[0]), words)
  }

  // ---------------------------------------------------------------------
  // The round trip
  // ---------------------------------------------------------------------

  function Appended(token: Option<string>, s: string): Option<string> {
    if s == "" then token else match token case None => Some(s) case Some(t) => Some(t + s)
  }

  lemma LexPlain(s: string, token: Option<string>, words: seq<string>)
    requires s != "" && Safe(s[0])
    ensures Lex(s, Bare, token, words) == Lex(s[1..], Bare, Extended(token, s[0]), words)
  {
  }

  lemma {:induction false} LexSafe(v: string, rest: string, token: Option<string>, words: seq<string>)
    requires AllSafe(v)
    ensures Lex(v + rest, Bare, token, words) == Lex(rest, Bare, Appended(token, v), words)
    decreases |v|
  {
    hide Lex, Safe, Extended;
    if v == "" {
      assert v + rest == rest;
    } else {
      assert v[0] in v && (v + rest)[0] == v[0] && (v + rest)[1..] == v[1..] + rest;
      LexPlain(v + rest, token, words);
      LexSafe(v[1..], rest, Extended(token, v[0]), words);
      AppendedTwice(token, v);
    }
  }

  lemma AppendedTwice(token: Option<string>, v: string)
    requires v != ""
    ensures Appended(Extended(token, v[0]), v[1..]) == Appended(token, v)
  {
    assert v == [v[0]] + v[1..];
    match token
    case None => assert v[1..] == "" ==> [v[0]] == v;
    case Some(t) =>
      assert t + v == t + [v[0]] + v[1..];
      assert v[1..] == "" ==> t + [v[0]] == t + v;
  }

  /** Leaving single quotes for one quoted quote and coming back. */
  lemma LexRequoted(rest: string, t: string, words: seq<string>)
    ensures Lex(REQUOTED + rest, InSingle, Some(t), words) == Lex(rest, InSingle, Some(t + "'"), words)
  {
    var a := "\"'\"'" + rest;
    var b := "'\"'" + rest;
    var c := "\"'" + rest;
    var d := "'" + rest;
    assert REQUOTED + rest == ['\''] + a && (REQUOTED + rest)[1..] == a;
    assert a[0] == '"' && a[1..] == b;
    assert b[0] == '\'' && b[1..] == c;
    assert c[0] == '"' && c[1..] == d;
    assert d[0] == '\'' && d[1..] == rest;
    assert Lex(REQUOTED + rest, InSingle, Some(t), words) == Lex(a, Bare, Some(t), words);
    assert Lex(a, Bare, Some(t), words) == Lex(b, InDouble, Some(t), words);
    assert Lex(b, InDouble, Some(t), words) == Lex(c, InDouble, Some(t + "'"), words);
    assert Lex(c, InDouble, Some(t + "'"), words) == Lex(d, Bare, Some(t + "'"), words);
  }

  lemma {:induction false} LexSingle(v: string, rest: string, t: string, words: seq<string>)
    ensures Lex(EscapeQuotes(v) + "'" + rest, InSingle, Some(t), words) == Lex(rest, Bare, Some(t + v), words)
    decreases |v|
  {
    var tail := "'" + rest;
    assert EscapeQuotes(v) + "'" + rest == EscapeQuotes(v) + tail;
    if v == "" {
      assert EscapeQuotes(v) + tail == tail && tail[1..] == rest;
      assert t + v == t;
    } else {
      var later := EscapeQuotes(v[1..]) + tail;
      assert later == EscapeQuotes(v[1..]) + "'" + rest;
      LexSingle(v[1..], rest, t + [v[0]], words);
      assert t + [v[0]] + v[1..] == t + v;
      if v[0] == '\'' {
        assert EscapeQuotes(v) + tail == REQUOTED + later;
        LexRequoted(later, t, words);
      } else {
        assert EscapeQuotes(v) + tail == [v[0]] + later;
        assert ([v[0]] + later)[1..] == later;
      }
    }
  }

  lemma LexOpens(rest: string, words: seq<string>)
    ensures Lex("'" + rest, Bare, None, words) == Lex(rest, InSingle, Some(""), words)
    ensures Lex("''" + rest, Bare, None, words) == Lex(rest, Bare, Some(""), words)
  {
    assert ("'" + rest)[1..] == rest;
    assert ("''" + rest)[1..] == "'" + rest;
    assert Lex("''" + rest, Bare, None, words) == Lex("'" + rest, InSingle, Some(""), words);
  }

  /** A quoted value is read as one token holding exactly the value, whatever follows. */
  lemma LexQuoted(v: string, rest: string, words: seq<string>)
    ensures Lex(ShellQuote(v) + rest, Bare, None, words) == Lex(rest, Bare, Some(v), words)
  {
    hide Lex, EscapeQuotes;
    if v == "" {
      LexOpens(rest, words);
    } else if AllSafe(v) {
      LexSafe(v, rest, None, words);
    } else {
      var inner := EscapeQuotes(v) + "'" + rest;
      assert ShellQuote(v) + rest == "'" + inner;
      LexOpens(inner, words);
      LexSingle(v, rest, "", words);
      assert "" + v == v;
    }
  }

  lemma {:induction false} LexJoined(vs: seq<string>, words: seq<string>)
    ensures Lex(JoinQuoted(vs), Bare, None, words) == Some(words + vs)
    decreases |vs|
  {
    if |vs| == 1 {
      LexQuoted(vs[0], "", words);
      assert ShellQuote(vs[0]) + "" == ShellQuote(vs[0]);
      assert [vs[0]] == vs;
    } else if |vs| > 1 {
      var rest := " " + JoinQuoted(vs[1..]);
      assert JoinQuoted(vs) == ShellQuote(vs[0]) + rest;
      LexQuoted(vs[0], rest, words);
      assert rest[1..] == JoinQuoted(vs[1..]);
      LexJoined(vs[1..], words + [vs[0]]);
      assert words + [vs[0]] + vs[1..] == words + vs;
    } else {
      assert words + vs == words;
    }
  }

  /** The shell reads a joined command line back as exactly the command and its arguments. */
  lemma QuotingRoundTrip(command: string, args: seq<string>)
    ensures Lex(JoinShellCommand(command, args), Bare, None, []) == Some([command] + args)
  {
    LexJoined([command] + args, []);
    assert [] + ([command] + args) == [command] + args;
  }

  /** So different command lines never look the same to the shell. */
  lemma QuotingInjective(command: string, args: seq<string>, command': string, args': seq<string>)
    requires JoinShellCommand(command, args) == JoinShellCommand(command', args')
    ensures command == command' && args == args'
  {
    QuotingRoundTrip(command, args);
    QuotingRoundTrip(command', args');
    assert ([command] + args)[0] == command && ([command] + args)[1..] == args;
    assert ([command'] + args')[0] == command' && ([command'] + args')[1..] == args';
  }

  // ---------------------------------------------------------------------
  // What the shell does with the first word
  // ---------------------------------------------------------------------

  /** Section 2.4 of the same standard. */
  const RESERVED: seq<string> := [
    "!", "{", "}", "case", "do", "done", "elif", "else", "esac", "fi", "for", "if", "in", "then", "until", "while"]

  /** Which characters stand outside quotes; the quoting characters themselves do not count. */
  function Marks(s: string, mode: Mode): (m: seq<bool>)
    ensures |m| == |s|
    decreases |s|
  {
    if s == "" then []
    else
      match mode
      case InSingle => [false] + Marks(s[1..], if s[0] == '\'' then Bare else InSingle)
      case InDouble =>
        if s[0] == '\\' && |s| > 1 then [false, false] + Marks(s[2..], InDouble)
        else [false] + Marks(s[1..], if s[0] == '"' then Bare else InDouble)
      case Bare =>
        if s[0] == '\\' && |s| > 1 then [false, false] + Marks(s[2..], Bare)
        else if s[0] == '\'' then [false] + Marks(s[1..], InSingle)
        else if s[0] == '"' then [false] + Marks(s[1..], InDouble)
        else [true] + Marks(s[1..], Bare)
  }

  /** The first marked character from `i` on that is one of `chars`, or the end. */
  function Find(s: string, m: seq<bool>, chars: string, i: nat): (r: nat)
    requires |m| == |s| && i <= |s|
    ensures i <= r <= |s|
    ensures forall k | i <= k < r :: !(m[k] && s[k] in chars)
    ensures r < |s| ==> m[r] && s[r] in chars
    decreases |s| - i
  {
    if i == |s| || (m[i] && s[i] in chars) then i else Find(s, m, chars, i + 1)
  }

  predicate NameCharacter(c: char) {
    'a' <= c <= 'z' || 'A' <= c <= 'Z' || '0' <= c <= '9' || c == '_'
  }

  predicate ShellName(s: string) {
    s != "" && !('0' <= s[0] <= '9') && forall c | c in s :: NameCharacter(c)
  }

  datatype FirstWord = CommandName | ReservedWord | Assignment | Unspecified

  /**
   How a line's first token is taken, by rules 1 and 7 of section 2.10.2: a reserved word, an assignment if a name
   precedes its first unquoted equals sign, and unspecified if something else does.
   */
  function Classified(token: string, m: seq<bool>): FirstWord
    requires |m| == |token|
  {
    var equals := Find(token, m, "=", 0);
    if token in RESERVED then ReservedWord
    else if equals == |token| || equals == 0 then CommandName
    else if ShellName(token[..equals]) then Assignment
    else Unspecified
  }

  const BOUNDARIES := " \t" + ACTIVE

  function FirstTokenEnd(line: string): (end: nat)
    ensures end <= |line|
  {
    Find(line, Marks(line, Bare), BOUNDARIES, 0)
  }

  function FirstWordOf(line: string): FirstWord {
    Classified(line[..FirstTokenEnd(line)], Marks(line, Bare)[..FirstTokenEnd(line)])
  }

  /** A name, an equals sign and whatever follows. */
  ghost predicate AssignmentForm(command: string) {
    exists k | 0 < k < |command| :: command[k] == '=' && ShellName(command[..k])
  }

  lemma MarksPlain(s: string)
    requires s != "" && Safe(s[0])
    ensures Marks(s, Bare) == [true] + Marks(s[1..], Bare)
  {
  }

  lemma {:induction false} MarksSafe(v: string, rest: string)
    requires AllSafe(v)
    ensures Marks(v + rest, Bare) == seq(|v|, _ => true) + Marks(rest, Bare)
  {
    hide Marks, Safe;
    if v == "" {
      assert v + rest == rest;
    } else {
      assert v[0] in v && (v + rest)[0] == v[0] && (v + rest)[1..] == v[1..] + rest;
      MarksPlain(v + rest);
      MarksSafe(v[1..], rest);
      assert seq(|v|, _ => true) == [true] + seq(|v[1..]|, _ => true);
    }
  }

  lemma MarksRequoted(rest: string)
    ensures Marks(REQUOTED + rest, InSingle) == [false, false, false, false, false] + Marks(rest, InSingle)
  {
    var a, b, c, d := "\"'\"'" + rest, "'\"'" + rest, "\"'" + rest, "'" + rest;
    assert (REQUOTED + rest)[0] == '\'' && (REQUOTED + rest)[1..] == a;
    assert a[0] == '"' && a[1..] == b;
    assert b[0] == '\'' && b[1..] == c;
    assert c[0] == '"' && c[1..] == d;
    assert d[0] == '\'' && d[1..] == rest;
    assert Marks(d, Bare) == [false] + Marks(rest, InSingle);
    assert Marks(c, InDouble) == [false] + Marks(d, Bare);
    assert Marks(b, InDouble) == [false] + Marks(c, InDouble);
    assert Marks(a, Bare) == [false] + Marks(b, InDouble);
  }

  lemma {:induction false} MarksSingle(v: string, rest: string)
    ensures Marks(EscapeQuotes(v) + "'" + rest, InSingle) == seq(|EscapeQuotes(v)| + 1, _ => false) + Marks(rest, Bare)
  {
    var tail := "'" + rest;
    assert EscapeQuotes(v) + "'" + rest == EscapeQuotes(v) + tail;
    if v == "" {
      assert EscapeQuotes(v) + tail == tail && tail[1..] == rest;
    } else {
      var later := EscapeQuotes(v[1..]) + tail;
      assert later == EscapeQuotes(v[1..]) + "'" + rest;
      MarksSingle(v[1..], rest);
      if v[0] == '\'' {
        assert EscapeQuotes(v) + tail == REQUOTED + later;
        MarksRequoted(later);
      } else {
        assert EscapeQuotes(v) + tail == [v[0]] + later;
        assert ([v[0]] + later)[1..] == later;
      }
    }
  }

  /** A word left bare is marked throughout, a quoted one nowhere. */
  lemma MarksQuoted(v: string, rest: string)
    ensures Marks(ShellQuote(v) + rest, Bare) == seq(|ShellQuote(v)|, _ => v != "" && AllSafe(v)) + Marks(rest, Bare)
  {
    if v == "" {
      assert ("''" + rest)[1..] == "'" + rest && ("'" + rest)[1..] == rest;
      assert Marks("'" + rest, InSingle) == [false] + Marks(rest, Bare);
    } else if AllSafe(v) {
      MarksSafe(v, rest);
    } else {
      var inner := EscapeQuotes(v) + "'" + rest;
      assert ShellQuote(v) + rest == ['\''] + inner;
      assert (['\''] + inner)[1..] == inner;
      MarksSingle(v, rest);
    }
  }

  lemma SafeIsNoBoundary(c: char)
    ensures Safe(c) ==> c !in BOUNDARIES
    ensures ' ' in BOUNDARIES
  {
  }

  lemma JoinedStarts(command: string, args: seq<string>) returns (rest: string)
    ensures JoinShellCommand(command, args) == ShellQuote(command) + rest
    ensures rest == "" || rest[0] == ' '
  {
    hide ShellQuote;
    var words := [command] + args;
    assert words[1..] == args;
    rest := if args == [] then "" else " " + JoinQuoted(args);
  }

  /** A token ends where its quoted word does. */
  lemma QuotedIsToken(v: string, rest: string)
    requires rest == "" || rest[0] == ' '
    ensures FirstTokenEnd(ShellQuote(v) + rest) == |ShellQuote(v)|
  {
    hide BOUNDARIES, ACTIVE, EscapeQuotes, Find;
    var line, n := ShellQuote(v) + rest, |ShellQuote(v)|;
    var m := Marks(line, Bare);
    MarksQuoted(v, rest);
    SafeIsNoBoundary(' ');
    if rest != "" {
      assert Marks(rest, Bare)[0];
      assert m[n] && line[n] == ' ';
    }
    forall k | 0 <= k < n
      ensures !(m[k] && line[k] in BOUNDARIES)
    {
      if m[k] {
        assert line[k] == v[k] && v[k] in v;
        SafeIsNoBoundary(v[k]);
      }
    }
  }

  /** The first token of a joined line is the quoted command. */
  lemma FirstTokenIsCommand(command: string, args: seq<string>)
    ensures var line, n := JoinShellCommand(command, args), |ShellQuote(command)|;
            FirstTokenEnd(line) == n && line[..n] == ShellQuote(command) &&
            Marks(line, Bare)[..n] == seq(n, _ => command != "" && AllSafe(command))
  {
    hide *;
    var rest := JoinedStarts(command, args);
    QuotedIsToken(command, rest);
    MarksQuoted(command, rest);
  }

  lemma QuotedIsNotReserved(command: string)
    requires command == "" || !AllSafe(command)
    ensures ShellQuote(command) !in RESERVED
  {
    assert ShellQuote(command)[0] == '\'';
    assert forall word | word in RESERVED :: word[0] != '\'';
  }

  lemma NoEqualsInName(s: string)
    requires ShellName(s)
    ensures forall i | 0 <= i < |s| :: s[i] != '='
  {
    forall i | 0 <= i < |s|
      ensures s[i] != '='
    {
      assert s[i] in s && NameCharacter(s[i]);
    }
  }

  /** The first equals sign, in a word without quotes. */
  lemma EqualsDecide(command: string, equals: nat)
    requires command != "" && equals <= |command| && (forall k | 0 <= k < equals :: command[k] != '=')
    requires equals < |command| ==> command[equals] == '='
    ensures '=' in command <==> equals < |command|
    ensures command[0] == '=' <==> equals == 0
    ensures AssignmentForm(command) <==> 0 < equals < |command| && ShellName(command[..equals])
  {
    if k: nat :| 0 < k < |command| && command[k] == '=' && ShellName(command[..k]) {
      NoEqualsInName(command[..k]);
      assert forall i | 0 <= i < k :: command[..k][i] == command[i] != '=';
      assert k == equals;
    }
  }

  /**
   A joined line runs its command exactly when quotes were put around it, or else it is no reserved word and has no
   equals sign after its first character.
   */
  lemma CommandRunsIff(command: string, args: seq<string>)
    ensures FirstWordOf(JoinShellCommand(command, args)) == CommandName <==>
            command == "" || !AllSafe(command) ||
            (command !in RESERVED && ('=' !in command || command[0] == '='))
    ensures FirstWordOf(JoinShellCommand(command, args)) == ReservedWord <==> AllSafe(command) && command in RESERVED
    ensures FirstWordOf(JoinShellCommand(command, args)) == Assignment <==> AllSafe(command) && AssignmentForm(command)
  {
    hide *;
    FirstTokenIsCommand(command, args);
    TokenDecides(JoinShellCommand(command, args));
    if command == "" || !AllSafe(command) {
      QuotedDecides(command);
    } else {
      BareDecides(command);
    }
  }

  lemma TokenDecides(line: string)
    ensures var n := FirstTokenEnd(line);
            FirstWordOf(line) == Classified(line[..n], Marks(line, Bare)[..n])
  {
  }

  lemma QuotedDecides(command: string)
    requires command == "" || !AllSafe(command)
    ensures Classified(ShellQuote(command), seq(|ShellQuote(command)|, _ => false)) == CommandName
    ensures (AllSafe(command) ==> command !in RESERVED && !AssignmentForm(command))
  {
    QuotedIsNotReserved(command);
    hide ShellQuote, Find;
  }

  lemma BareDecides(command: string)
    requires command != "" && AllSafe(command)
    ensures ShellQuote(command) == command
    ensures var word := Classified(command, seq(|command|, _ => true));
            (word == CommandName <==> command !in RESERVED && ('=' !in command || command[0] == '=')) &&
            (word == ReservedWord <==> command in RESERVED) && (word == Assignment <==> AssignmentForm(command))
  {
    var equals := Find(command, seq(|command|, _ => true), "=", 0);
    EqualsDecide(command, equals);
    ReservedIsPlain(command);
    hide Find, AssignmentForm, RESERVED, ShellName, AllSafe;
  }

  lemma ReservedIsPlain(command: string)
    ensures command in RESERVED ==> '=' !in command
  {
  }
}
