/** The copyable `curl` command, and a reader of POSIX shell words that says what arguments it stands for. */
module ShellCommand {
  import opened Basics

  type Env = map<string, string>

  // ---------------------------------------------------------------------------------------------
  // Shell words: sections 2.2.1 to 2.2.3 and 2.6.2 of the POSIX.1-2017 Shell Command Language
  // ---------------------------------------------------------------------------------------------

  datatype Mode = Plain | Single | Double

  /** Characters that mean something outside quotes, or may under conditions of which the reader keeps no
      account, other than the quotes, the backslash and blanks. */
  predicate Active(c: char) {
    || c == '|' || c == '&' || c == ';' || c == '<' || c == '>' || c == '(' || c == ')' || c == '$' || c == '`'
    || c == '\n' || c == '*' || c == '?' || c == '[' || c == '#' || c == '~' || c == '=' || c == '%' || c == '!'
    || c == '{' || c == '}'
  }

  predicate NameChar(c: char) {
    'a' <= c <= 'z' || 'A' <= c <= 'Z' || '0' <= c <= '9' || c == '_'
  }

  /** The length of the longest run of name characters at the start. */
  function RunLength(s: string): (n: nat)
    ensures n <= |s|
  {
    if s == "" || !NameChar(s[0]) then 0 else 1 + RunLength(s[1..])
  }

  predicate NameStart(s: string) {
    s != "" && NameChar(s[0]) && !('0' <= s[0] <= '9')
  }

  /** The length of the longest name at the start; names do not start with a digit. */
  function NameLength(s: string): (n: nat)
    ensures n <= |s|
  {
    if NameStart(s) then RunLength(s) else 0
  }

  function Lookup(env: Env, name: string): string {
    if name in env then env[name] else ""
  }

  /** Characters that a backslash escapes between double quotes. */
  predicate Escapable(c: char) {
    c == '$' || c == '`' || c == '"' || c == '\\'
  }

  /** The word in progress, `None` between words. */
  type Word = Option<string>

  function Text(w: Word): string {
    if w.None? then "" else w.value
  }

  function Finish(args: seq<string>, w: Word): seq<string> {
    if w.None? then args else args + [w.value]
  }

  /** Reads the rest of a simple command. There is no reading when a quote stays open, when an active
      character stands unquoted, when double quotes hold a back-quote or `!` (history expansion in
      interactive shells), or when a NUL character occurs, which no argument can hold. */
  function Read(s: string, mode: Mode, w: Word, args: seq<string>, env: Env): Option<seq<string>>
    decreases |s|
  {
    if s == "" then (if mode.Plain? then Some(Finish(args, w)) else None)
    else if s[0] == '\0' then None
    else
      var c, rest := s[0], s[1..];
      match mode
      case Plain =>
        if c == '\'' then Read(rest, Single, Some(Text(w)), args, env)
        else if c == '"' then Read(rest, Double, Some(Text(w)), args, env)
        else if c == ' ' || c == '\t' then Read(rest, Plain, None, Finish(args, w), env)
        else if c == '\\' then
          if rest == "" || rest[0] == '\0' then None
          else if rest[0] == '\n' then Read(rest[1..], Plain, w, args, env)
          else Read(rest[1..], Plain, Some(Text(w) + [rest[0]]), args, env)
        else if Active(c) then None
        else Read(rest, Plain, Some(Text(w) + [c]), args, env)
      case Single =>
        if c == '\'' then Read(rest, Plain, w, args, env)
        else Read(rest, Single, Some(Text(w) + [c]), args, env)
      case Double =>
        if c == '"' then Read(rest, Plain, w, args, env)
        else if c == '`' || c == '!' then None
        else if c == '$' then
          var n := NameLength(rest);
          if n == 0 then None
          else Read(rest[n..], Double, Some(Text(w) + Lookup(env, rest[..n])), args, env)
        else if c == '\\' then
          if rest != "" && rest[0] == '\n' then Read(rest[1..], Double, w, args, env)
          else if rest != "" && Escapable(rest[0]) then Read(rest[1..], Double, Some(Text(w) + [rest[0]]), args, env)
          else Read(rest, Double, Some(Text(w) + [c]), args, env)
        else Read(rest, Double, Some(Text(w) + [c]), args, env)
  }

  /** The argument vector a command line stands for. */
  function Arguments(command: string, env: Env): Option<seq<string>> {
    Read(command, Plain, None, [], env)
  }

  // ---------------------------------------------------------------------------------------------
  // The command builder
  // ---------------------------------------------------------------------------------------------

  datatype Request = Request(verb: string, url: string, body: Option<string>)

  const TOKEN_ENV := "WEFT_TOKEN"

  /** Every single quote closed, escaped and reopened. */
  function Escape(s: string): string {
    if s == "" then ""
    else (if s[0] == '\'' then "'\\''" else [s[0]]) + Escape(s[1..])
  }

  function Shq(s: string): string {
    "'" + Escape(s) + "'"
  }

  function UpperChar(c: char): char {
    if 'a' <= c <= 'z' then 'A' + (c - 'a') else c
  }

  function Upper(s: string): string {
    if s == "" then "" else [UpperChar(s[0])] + Upper(s[1..])
  }

  predicate HasMeta(token: string) {
    exists i :: 0 <= i < |token| && (Escapable(token[i]) || token[i] == '!')
  }

  predicate Given(x: Option<string>) {
    x.Some? && x.value != ""
  }

  const CONTINUATION := " \\\n  "

  const AUTH := "Authorization: Bearer "

  /** Words and a last piece, separated by single spaces. */
  function Spaced(words: seq<string>, last: string): string {
    if words == [] then last else words[0] + (" " + Spaced(words[1..], last))
  }

  function DoubleQuoted(s: string): string {
    "\"" + (s + "\"")
  }

  const KIND := "Content-Type: application/json"

  /** The token stands in the command itself. */
  predicate Inlined(token: Option<string>, masked: bool) {
    !masked && Given(token)
  }

  /** A line of the command: bare words and a single-quoted value, or the authorization header. */
  datatype Line = Quoted(words: seq<string>, value: string) | Auth(token: Option<string>, masked: bool)

  function AuthLine(token: Option<string>, masked: bool): string {
    if Inlined(token, masked) && HasMeta(token.value) then Spaced(["-H"], Shq(AUTH + token.value))
    else Spaced(["-H"], DoubleQuoted(AUTH + if Inlined(token, masked) then token.value else "$" + TOKEN_ENV))
  }

  function Render(l: Line): string {
    match l
    case Quoted(words, value) => Spaced(words, Shq(value))
    case Auth(token, masked) => AuthLine(token, masked)
  }

  function BodyLines(body: Option<string>): seq<Line> {
    if Given(body) then [Quoted(["-H"], KIND), Quoted(["--data-raw"], body.value)] else []
  }

  function Lines(req: Request, token: Option<string>, masked: bool): seq<Line> {
    [Quoted(["curl", "-sS", "-X", Upper(req.verb)], req.url), Auth(token, masked)] + BodyLines(req.body)
  }

  /** The rendered lines, joined by continuations. */
  function Join(lines: seq<Line>): string
    requires lines != []
  {
    if |lines| == 1 then Render(lines[0]) else Render(lines[0]) + (CONTINUATION + Join(lines[1..]))
  }

  function BuildCurl(req: Request, token: Option<string>, masked: bool): string {
    Join(Lines(req, token, masked))
  }

  // ---------------------------------------------------------------------------------------------
  // What the command reads back as
  // ---------------------------------------------------------------------------------------------

  predicate NulFree(s: string) {
    '\0' !in s
  }

  predicate Letter(c: char) {
    'a' <= c <= 'z' || 'A' <= c <= 'Z'
  }

  /** The bearer the server is to receive. */
  function Bearer(token: Option<string>, masked: bool, env: Env): string {
    if Inlined(token, masked) then token.value else Lookup(env, TOKEN_ENV)
  }

  function Intended(req: Request, bearer: string): seq<string> {
    ["curl", "-sS", "-X", Upper(req.verb)] + [req.url, "-H", AUTH + bearer]
    + if Given(req.body) then ["-H", KIND, "--data-raw", req.body.value] else []
  }

  /** A character that reads as itself outside quotes. */
  predicate Inert(c: char) {
    !Active(c) && c != '\'' && c != '"' && c != ' ' && c != '\t' && c != '\\' && c != '\0'
  }

  lemma {:induction false} ReadInert(s: string, rest: string, w: Word, args: seq<string>, env: Env)
    requires s != "" && forall i :: 0 <= i < |s| ==> Inert(s[i])
    ensures Read(s + rest, Plain, w, args, env) == Read(rest, Plain, Some(Text(w) + s), args, env)
    decreases |s|
  {
    assert (s + rest)[1..] == s[1..] + rest;
    if |s| == 1 {
      assert s[1..] + rest == rest && Text(w) + s == Text(w) + [s[0]];
    } else {
      ReadInert(s[1..], rest, Some(Text(w) + [s[0]]), args, env);
      assert Text(w) + [s[0]] + s[1..] == Text(w) + s;
    }
  }

  lemma {:induction false} ReadDouble(s: string, rest: string, v: string, args: seq<string>, env: Env)
    requires !HasMeta(s) && NulFree(s)
    ensures Read(s + rest, Double, Some(v), args, env) == Read(rest, Double, Some(v + s), args, env)
    decreases |s|
  {
    if s == "" {
      assert s + rest == rest && v + s == v;
    } else {
      assert (s + rest)[1..] == s[1..] + rest && s[0] in s;
      assert forall i :: 0 <= i < |s| - 1 ==> s[1..][i] == s[i + 1];
      ReadDouble(s[1..], rest, v + [s[0]], args, env);
      assert v + [s[0]] + s[1..] == v + s;
    }
  }

  lemma {:induction false} ReadDoubleNul(s: string, rest: string, v: string, args: seq<string>, env: Env)
    requires !HasMeta(s) && !NulFree(s)
    ensures Read(s + rest, Double, Some(v), args, env) == None
    decreases |s|
  {
    assert (s + rest)[1..] == s[1..] + rest;
    if s[0] != '\0' {
      assert forall i :: 0 <= i < |s| - 1 ==> s[1..][i] == s[i + 1];
      ReadDoubleNul(s[1..], rest, v + [s[0]], args, env);
    }
  }

  /** Inside single quotes an escaped string reads back verbatim, whatever it holds but NUL. */
  lemma {:induction false} ReadEscaped(s: string, rest: string, v: string, args: seq<string>, env: Env)
    ensures Read(Escape(s) + ("'" + rest), Single, Some(v), args, env) ==
            if NulFree(s) then Read(rest, Plain, Some(v + s), args, env) else None
    decreases |s|
  {
    var all := Escape(s) + ("'" + rest);
    if s == "" {
      assert all == "'" + rest && all[1..] == rest && v + s == v;
    } else {
      var more := Escape(s[1..]) + ("'" + rest);
      ReadEscaped(s[1..], rest, v + [s[0]], args, env);
      assert v + [s[0]] + s[1..] == v + s;
      assert NulFree(s) <==> s[0] != '\0' && NulFree(s[1..]);
      if s[0] == '\'' {
        assert all == "'\\''" + more;
        ReadQuoteQuote(more, v, args, env);
      } else {
        assert all == [s[0]] + more && all[1..] == more;
      }
    }
  }

  lemma ReadQuote(rest: string, w: Word, args: seq<string>, env: Env)
    ensures Read("'" + rest, Plain, w, args, env) == Read(rest, Single, Some(Text(w)), args, env)
    ensures Read("'" + rest, Single, w, args, env) == Read(rest, Plain, w, args, env)
  {
    assert ("'" + rest)[1..] == rest;
  }

  lemma ReadBackslash(c: char, rest: string, w: Word, args: seq<string>, env: Env)
    requires c != '\0'
    ensures Read("\\" + ([c] + rest), Plain, w, args, env) ==
            if c == '\n' then Read(rest, Plain, w, args, env) else Read(rest, Plain, Some(Text(w) + [c]), args, env)
  {
    assert ("\\" + ([c] + rest))[1..] == [c] + rest && ([c] + rest)[1..] == rest;
  }

  lemma ReadQuoteQuote(more: string, v: string, args: seq<string>, env: Env)
    ensures Read("'\\''" + more, Single, Some(v), args, env) == Read(more, Single, Some(v + "'"), args, env)
  {
    assert "'\\''" + more == "'" + ("\\" + (['\''] + ("'" + more)));
    ReadQuote("\\" + (['\''] + ("'" + more)), Some(v), args, env);
    ReadBackslash('\'', "'" + more, Some(v), args, env);
    ReadQuote(more, Some(v + "'"), args, env);
  }

  /** Quoting round trip: a quoted string adds exactly itself to the word in progress. */
  lemma ReadShq(s: string, rest: string, w: Word, args: seq<string>, env: Env)
    ensures Read(Shq(s) + rest, Plain, w, args, env) ==
            if NulFree(s) then Read(rest, Plain, Some(Text(w) + s), args, env) else None
  {
    var all := Shq(s) + rest;
    assert all[1..] == Escape(s) + ("'" + rest);
    ReadEscaped(s, rest, Text(w), args, env);
  }

  lemma ReadSpace(rest: string, w: Word, args: seq<string>, env: Env)
    ensures Read(" " + rest, Plain, w, args, env) == Read(rest, Plain, None, Finish(args, w), env)
  {
    assert (" " + rest)[1..] == rest;
  }

  lemma ReadContinuation(rest: string, w: Word, args: seq<string>, env: Env)
    ensures Read(CONTINUATION + rest, Plain, w, args, env) == Read(rest, Plain, None, Finish(args, w), env)
  {
    assert CONTINUATION + rest == " " + ("\\" + (['\n'] + (" " + (" " + rest))));
    ReadSpace("\\" + (['\n'] + (" " + (" " + rest))), w, args, env);
    ReadBackslash('\n', " " + (" " + rest), None, Finish(args, w), env);
    ReadSpace(" " + rest, None, Finish(args, w), env);
    ReadSpace(rest, None, Finish(args, w), env);
  }

  /** A word that needs no quoting. */
  predicate Bare(s: string) {
    s != "" && forall i :: 0 <= i < |s| ==> Inert(s[i])
  }

  lemma {:induction false} ReadSpaced(words: seq<string>, last: string, args: seq<string>, env: Env)
    requires forall i :: 0 <= i < |words| ==> Bare(words[i])
    ensures Read(Spaced(words, last), Plain, None, args, env) == Read(last, Plain, None, args + words, env)
    decreases |words|
  {
    if words == [] {
      assert args + words == args;
    } else {
      var rest := Spaced(words[1..], last);
      ReadInert(words[0], " " + rest, None, args, env);
      assert "" + words[0] == words[0];
      ReadSpace(rest, Some(words[0]), args, env);
      ReadSpaced(words[1..], last, args + [words[0]], env);
      assert args + [words[0]] + words[1..] == args + words;
    }
  }

  lemma {:induction false} SpacedAppend(words: seq<string>, last: string, rest: string)
    ensures Spaced(words, last) + rest == Spaced(words, last + rest)
    decreases |words|
  {
    if words != [] {
      SpacedAppend(words[1..], last, rest);
      var tail := Spaced(words[1..], last);
      assert words[0] + (" " + tail) + rest == words[0] + (" " + (tail + rest));
    }
  }

  lemma DashedIsBare(s: string)
    requires s != "" && forall i :: 0 <= i < |s| ==> Letter(s[i]) || s[i] == '-'
    ensures Bare(s)
  {
  }

  /** Bare words, then a quoted one: the shape of every line but the double-quoted header. */
  lemma ReadQuotedLine(words: seq<string>, s: string, rest: string, args: seq<string>, env: Env)
    requires forall i :: 0 <= i < |words| ==> Bare(words[i])
    ensures Read(Spaced(words, Shq(s)) + rest, Plain, None, args, env) ==
            if NulFree(s) then Read(rest, Plain, Some(s), args + words, env) else None
  {
    SpacedAppend(words, Shq(s), rest);
    ReadSpaced(words, Shq(s) + rest, args, env);
    ReadShq(s, rest, None, args + words, env);
    assert "" + s == s;
  }

  lemma ReadDoubleQuotes(rest: string, w: Word, args: seq<string>, env: Env)
    ensures Read("\"" + rest, Plain, w, args, env) == Read(rest, Double, Some(Text(w)), args, env)
    ensures Read("\"" + rest, Double, w, args, env) == Read(rest, Plain, w, args, env)
  {
    assert ("\"" + rest)[1..] == rest;
  }

  /** A double-quoted line whose text is a harmless prefix and then `value`. */
  lemma ReadDoubleLine(words: seq<string>, prefix: string, value: string, rest: string, args: seq<string>, env: Env)
    requires forall i :: 0 <= i < |words| ==> Bare(words[i])
    requires !HasMeta(prefix) && NulFree(prefix)
    ensures Read(Spaced(words, DoubleQuoted(prefix + value)) + rest, Plain, None, args, env) ==
            Read(value + ("\"" + rest), Double, Some(prefix), args + words, env)
  {
    var tail := value + ("\"" + rest);
    SpacedAppend(words, DoubleQuoted(prefix + value), rest);
    ReadSpaced(words, DoubleQuoted(prefix + value) + rest, args, env);
    assert DoubleQuoted(prefix + value) + rest == "\"" + (prefix + tail);
    ReadDoubleQuotes(prefix + tail, None, args + words, env);
    ReadDouble(prefix, tail, "", args + words, env);
    assert "" + prefix == prefix;
  }

  lemma {:induction false} NameRun(name: string, rest: string)
    requires forall i :: 0 <= i < |name| ==> NameChar(name[i])
    requires rest == "" || !NameChar(rest[0])
    ensures RunLength(name + rest) == |name|
  {
    if name == "" {
      assert name + rest == rest;
    } else {
      assert (name + rest)[1..] == name[1..] + rest;
      NameRun(name[1..], rest);
    }
  }

  /** `$NAME` before the closing quote expands to the variable's value, unsplit. */
  lemma ReadExpansion(name: string, rest: string, v: string, args: seq<string>, env: Env)
    requires NameStart(name) && forall i :: 0 <= i < |name| ==> NameChar(name[i])
    ensures Read("$" + name + ("\"" + rest), Double, Some(v), args, env) ==
            Read(rest, Plain, Some(v + Lookup(env, name)), args, env)
  {
    var tail := name + ("\"" + rest);
    NameRun(name, "\"" + rest);
    assert "$" + name + ("\"" + rest) == "$" + tail;
    assert ("$" + tail)[1..] == tail;
    assert tail[..|name|] == name && tail[|name|..] == "\"" + rest;
    ReadDoubleQuotes(rest, Some(v + Lookup(env, name)), args, env);
  }

  lemma ReadInlined(token: string, rest: string, v: string, args: seq<string>, env: Env)
    requires !HasMeta(token)
    ensures Read(token + ("\"" + rest), Double, Some(v), args, env) ==
            if NulFree(token) then Read(rest, Plain, Some(v + token), args, env) else None
  {
    if NulFree(token) {
      ReadDouble(token, "\"" + rest, v, args, env);
      ReadDoubleQuotes(rest, Some(v + token), args, env);
    } else {
      ReadDoubleNul(token, "\"" + rest, v, args, env);
    }
  }

  lemma OptionWords()
    ensures Bare("curl") && Bare("-sS") && Bare("-X") && Bare("-H") && Bare("--data-raw")
  {
    DashedIsBare("curl");
    DashedIsBare("-sS");
    DashedIsBare("-X");
    DashedIsBare("-H");
    DashedIsBare("--data-raw");
  }

  predicate Harmless(c: char) {
    Letter(c) || c == ':' || c == ' ' || c == '-' || c == '/'
  }

  /** Letters, blanks, colons, dashes and slashes are harmless between double quotes. */
  lemma HarmlessText(s: string)
    requires forall i :: 0 <= i < |s| ==> Harmless(s[i])
    ensures NulFree(s) && !HasMeta(s)
  {
  }

  lemma PlainText(s: string)
    requires forall i :: 0 <= i < |s| ==> Harmless(s[i])
    ensures '\'' !in s && forall i :: 0 <= i < |s| ==> s[i] == ' ' || Inert(s[i])
  {
    forall i | 0 <= i < |s|
      ensures s[i] != '\'' && (s[i] == ' ' || Inert(s[i]))
    {
      PlainChar(s[i]);
    }
  }

  lemma PlainChar(c: char)
    requires Harmless(c)
    ensures c != '\'' && (c == ' ' || Inert(c))
  {
  }

  lemma HeaderTexts()
    ensures NulFree(KIND) && NulFree(AUTH) && !HasMeta(AUTH)
    ensures NameStart(TOKEN_ENV) && forall i :: 0 <= i < |TOKEN_ENV| ==> NameChar(TOKEN_ENV[i])
  {
    HarmlessText(AUTH);
    HarmlessText(KIND);
  }

  lemma ReadAuthLine(token: Option<string>, masked: bool, rest: string, args: seq<string>, env: Env)
    ensures Read(AuthLine(token, masked) + rest, Plain, None, args, env) ==
            if Inlined(token, masked) && !NulFree(token.value) then None
            else Read(rest, Plain, Some(AUTH + Bearer(token, masked, env)), args + ["-H"], env)
  {
    OptionWords();
    HeaderTexts();
    if Inlined(token, masked) && HasMeta(token.value) {
      ReadQuotedLine(["-H"], AUTH + token.value, rest, args, env);
      assert NulFree(AUTH + token.value) <==> NulFree(token.value);
    } else if Inlined(token, masked) {
      ReadDoubleLine(["-H"], AUTH, token.value, rest, args, env);
      ReadInlined(token.value, rest, AUTH, args + ["-H"], env);
    } else {
      ReadDoubleLine(["-H"], AUTH, "$" + TOKEN_ENV, rest, args, env);
      ReadExpansion(TOKEN_ENV, rest, AUTH, args + ["-H"], env);
    }
  }

  /** The arguments a line is to stand for. */
  function Words(l: Line, env: Env): seq<string> {
    match l
    case Quoted(words, value) => words + [value]
    case Auth(token, masked) => ["-H"] + [AUTH + Bearer(token, masked, env)]
  }

  function AllWords(lines: seq<Line>, env: Env): seq<string> {
    if lines == [] then [] else Words(lines[0], env) + AllWords(lines[1..], env)
  }

  predicate LineOk(l: Line) {
    match l
    case Quoted(words, value) => NulFree(value)
    case Auth(token, masked) => Inlined(token, masked) ==> NulFree(token.value)
  }

  predicate AllOk(lines: seq<Line>) {
    lines == [] || (LineOk(lines[0]) && AllOk(lines[1..]))
  }

  predicate BareWords(l: Line) {
    l.Quoted? ==> forall i :: 0 <= i < |l.words| ==> Bare(l.words[i])
  }

  /** A line and whatever ends its last word: the end of the command or a continuation. */
  lemma ReadLine(l: Line, rest: string, args: seq<string>, env: Env) returns (w: string, before: seq<string>)
    requires BareWords(l)
    ensures Words(l, env) == before + [w]
    ensures Read(Render(l) + rest, Plain, None, args, env) ==
            if LineOk(l) then Read(rest, Plain, Some(w), args + before, env) else None
  {
    match l
    case Quoted(words, value) =>
      ReadQuotedLine(words, value, rest, args, env);
      w, before := value, words;
    case Auth(token, masked) =>
      ReadAuthLine(token, masked, rest, args, env);
      w, before := AUTH + Bearer(token, masked, env), ["-H"];
  }

  lemma ReadLastLine(l: Line, args: seq<string>, env: Env)
    requires BareWords(l)
    ensures Read(Render(l), Plain, None, args, env) == if LineOk(l) then Some(args + Words(l, env)) else None
  {
    var w, before := ReadLine(l, "", args, env);
    assert Render(l) + "" == Render(l);
    assert args + before + [w] == args + (before + [w]);
  }

  lemma ReadNextLine(l: Line, rest: string, args: seq<string>, env: Env)
    requires BareWords(l)
    ensures Read(Render(l) + (CONTINUATION + rest), Plain, None, args, env) ==
            if LineOk(l) then Read(rest, Plain, None, args + Words(l, env), env) else None
  {
    var w, before := ReadLine(l, CONTINUATION + rest, args, env);
    ReadContinuation(rest, Some(w), args + before, env);
    assert args + before + [w] == args + (before + [w]);
  }

  lemma UnfoldLines(l: Line, more: seq<Line>, env: Env)
    ensures Join([l] + more) == if more == [] then Render(l) else Render(l) + (CONTINUATION + Join(more))
    ensures AllWords([l] + more, env) == Words(l, env) + AllWords(more, env)
    ensures AllOk([l] + more) <==> LineOk(l) && AllOk(more)
  {
    assert ([l] + more)[1..] == more;
  }

  lemma ReadStep(l: Line, text: string, args: seq<string>, later: seq<string>, ok: bool, env: Env)
    requires BareWords(l)
    requires Read(text, Plain, None, args + Words(l, env), env) == if ok then Some(args + Words(l, env) + later) else None
    ensures Read(Render(l) + (CONTINUATION + text), Plain, None, args, env) ==
            if LineOk(l) && ok then Some(args + (Words(l, env) + later)) else None
  {
    ReadNextLine(l, text, args, env);
    assert args + Words(l, env) + later == args + (Words(l, env) + later);
  }

  /** Continued lines read as one command: the arguments of each line in turn. */
  lemma {:induction false} ReadLines(lines: seq<Line>, args: seq<string>, env: Env)
    requires lines != [] && forall i :: 0 <= i < |lines| ==> BareWords(lines[i])
    ensures Read(Join(lines), Plain, None, args, env) == if AllOk(lines) then Some(args + AllWords(lines, env)) else None
    decreases |lines|
  {
    var l, more := lines[0], lines[1..];
    var words := Words(l, env);
    UnfoldLines(l, more, env);
    assert [l] + more == lines;
    if more == [] {
      ReadLastLine(l, args, env);
      assert words + AllWords(more, env) == words;
    } else {
      ReadLines(more, args + words, env);
      ReadStep(l, Join(more), args, AllWords(more, env), AllOk(more), env);
    }
  }

  /** No NUL in what the command has to carry. */
  predicate Passable(req: Request, token: Option<string>, masked: bool) {
    && NulFree(req.url)
    && (Inlined(token, masked) ==> NulFree(token.value))
    && (Given(req.body) ==> NulFree(req.body.value))
  }

  lemma LinesAreBare(req: Request, token: Option<string>, masked: bool)
    requires Bare(Upper(req.verb))
    ensures forall i :: 0 <= i < |Lines(req, token, masked)| ==> BareWords(Lines(req, token, masked)[i])
  {
    OptionWords();
  }

  lemma LinesAreOk(req: Request, token: Option<string>, masked: bool, env: Env)
    ensures AllOk(Lines(req, token, masked)) <==> Passable(req, token, masked)
  {
    HeaderTexts();
    var first := Quoted(["curl", "-sS", "-X", Upper(req.verb)], req.url);
    UnfoldTwo(first, Auth(token, masked), BodyLines(req.body), env);
    if Given(req.body) {
      UnfoldBody(req.body.value, env);
    }
  }

  lemma UnfoldTwo(a: Line, b: Line, more: seq<Line>, env: Env)
    ensures AllWords([a, b] + more, env) == Words(a, env) + (Words(b, env) + AllWords(more, env))
    ensures AllOk([a, b] + more) <==> LineOk(a) && LineOk(b) && AllOk(more)
  {
    assert [a, b] + more == [a] + ([b] + more);
    UnfoldLines(a, [b] + more, env);
    UnfoldLines(b, more, env);
  }

  lemma UnfoldOptions(w1: string, v1: string, w2: string, v2: string, env: Env)
    ensures AllWords([Quoted([w1], v1), Quoted([w2], v2)], env) == [w1, v1, w2, v2]
    ensures AllOk([Quoted([w1], v1), Quoted([w2], v2)]) <==> NulFree(v1) && NulFree(v2)
  {
    var a, b := Quoted([w1], v1), Quoted([w2], v2);
    assert [a, b] + [] == [a, b];
    UnfoldTwo(a, b, [], env);
  }

  lemma UnfoldBody(body: string, env: Env)
    requires body != ""
    ensures AllWords(BodyLines(Some(body)), env) == ["-H", KIND, "--data-raw", body]
    ensures AllOk(BodyLines(Some(body))) <==> NulFree(KIND) && NulFree(body)
  {
    UnfoldOptions("-H", KIND, "--data-raw", body, env);
  }

  lemma Assemble(words: seq<string>, url: string, option: string, header: string, more: seq<string>)
    ensures words + [url] + ([option] + [header] + more) == words + [url, option, header] + more
  {
  }

  lemma LinesMean(req: Request, token: Option<string>, masked: bool, env: Env)
    ensures AllWords(Lines(req, token, masked), env) == Intended(req, Bearer(token, masked, env))
  {
    var first := Quoted(["curl", "-sS", "-X", Upper(req.verb)], req.url);
    UnfoldTwo(first, Auth(token, masked), BodyLines(req.body), env);
    Assemble(first.words, req.url, "-H", AUTH + Bearer(token, masked, env), AllWords(BodyLines(req.body), env));
    if Given(req.body) {
      UnfoldBody(req.body.value, env);
    }
  }

  /** The command stands for exactly the intended arguments, with URL, header and body verbatim,
      when nothing in it holds NUL, and for nothing otherwise. */
  lemma CurlReads(req: Request, token: Option<string>, masked: bool, env: Env)
    requires Bare(Upper(req.verb))
    ensures Arguments(BuildCurl(req, token, masked), env) ==
            if Passable(req, token, masked) then Some(Intended(req, Bearer(token, masked, env))) else None
  {
    var lines := Lines(req, token, masked);
    LinesAreBare(req, token, masked);
    LinesAreOk(req, token, masked, env);
    LinesMean(req, token, masked, env);
    ReadLines(lines, [], env);
    assert [] + AllWords(lines, env) == AllWords(lines, env);
  }

  /** Masking changes nothing: with the variable set to the token, the masked command stands for the
      same arguments as the one that inlines the token. */
  lemma MaskedEqualsUnmasked(req: Request, token: string, env: Env)
    requires Bare(Upper(req.verb)) && token != "" && NulFree(token)
    ensures Arguments(BuildCurl(req, Some(token), true), env[TOKEN_ENV := token]) ==
            Arguments(BuildCurl(req, Some(token), false), env)
  {
    CurlReads(req, Some(token), true, env[TOKEN_ENV := token]);
    CurlReads(req, Some(token), false, env);
  }

  // ---------------------------------------------------------------------------------------------
  // Which methods can stand unquoted
  // ---------------------------------------------------------------------------------------------

  /** Reading only ever adds arguments. */
  lemma {:induction false} ReadKeepsArgs(s: string, mode: Mode, w: Word, args: seq<string>, env: Env)
    ensures Extends(Read(s, mode, w, args, env), args)
    decreases |s|, 1
  {
    if s != "" {
      match mode
      case Plain => PlainKeepsArgs(s, w, args, env);
      case Single =>
        ReadKeepsArgs(s[1..], Plain, w, args, env);
        ReadKeepsArgs(s[1..], Single, Some(Text(w) + [s[0]]), args, env);
      case Double => DoubleKeepsArgs(s, w, args, env);
    }
  }

  predicate Extends(r: Option<seq<string>>, args: seq<string>) {
    r.Some? ==> args <= r.value
  }

  lemma {:induction false} PlainKeepsArgs(s: string, w: Word, args: seq<string>, env: Env)
    requires s != ""
    ensures Extends(Read(s, Plain, w, args, env), args)
    decreases |s|, 0
  {
    var c, rest := s[0], s[1..];
    if c == '\'' {
      ReadKeepsArgs(rest, Single, Some(Text(w)), args, env);
    } else if c == '"' {
      ReadKeepsArgs(rest, Double, Some(Text(w)), args, env);
    } else if c == ' ' || c == '\t' {
      ReadKeepsArgs(rest, Plain, None, Finish(args, w), env);
    } else if c != '\\' {
      ReadKeepsArgs(rest, Plain, Some(Text(w) + [c]), args, env);
    } else if rest != "" {
      ReadKeepsArgs(rest[1..], Plain, w, args, env);
      ReadKeepsArgs(rest[1..], Plain, Some(Text(w) + [rest[0]]), args, env);
    }
  }

  lemma {:induction false} DoubleKeepsArgs(s: string, w: Word, args: seq<string>, env: Env)
    requires s != ""
    ensures Extends(Read(s, Double, w, args, env), args)
    decreases |s|, 0
  {
    var c, rest := s[0], s[1..];
    if c == '"' {
      ReadKeepsArgs(rest, Plain, w, args, env);
    } else if c == '$' {
      var n := NameLength(rest);
      ReadKeepsArgs(rest[n..], Double, Some(Text(w) + Lookup(env, rest[..n])), args, env);
    } else {
      ReadKeepsArgs(rest, Double, Some(Text(w) + [c]), args, env);
      if c == '\\' && rest != "" {
        ReadKeepsArgs(rest[1..], Double, w, args, env);
        ReadKeepsArgs(rest[1..], Double, Some(Text(w) + [rest[0]]), args, env);
      }
    }
  }

  /** What follows the method in the command for an empty URL, no body and a masked token. */
  function Tail(): string {
    " " + (Shq("") + (CONTINUATION + AuthLine(None, true)))
  }

  /** How such a text is read after anything at all, in an empty environment. */
  ghost predicate TailLike(t: string) {
    && t != "" && t[0] == ' '
    && (forall w, args :: Read(t, Plain, w, args, map[]) == Some(Finish(args, w) + ["", "-H", AUTH]))
    && (forall w: Word, args :: w.Some? ==> Read(t, Single, w, args, map[]) == None)
    && (forall w: Word, args :: w.Some? ==> Read(t, Double, w, args, map[]) == None)
    && (forall w, args :: Read("\\" + t, Plain, w, args, map[]) == Some(args + [Text(w) + " ", "-H", AUTH]))
  }

  lemma {:induction false} ReadUnclosed(s: string, w: Word, args: seq<string>, env: Env)
    requires '\'' !in s
    ensures Read(s, Single, w, args, env) == None
    decreases |s|
  {
    if s != "" {
      ReadUnclosed(s[1..], Some(Text(w) + [s[0]]), args, env);
    }
  }

  lemma {:induction false} ReadRefused(s: string, rest: string, w: Word, args: seq<string>, env: Env)
    requires forall i :: 0 <= i < |s| ==> s[i] == ' ' || Inert(s[i])
    ensures Read(s + ("$" + rest), Plain, w, args, env) == None
    decreases |s|
  {
    if s == "" {
      assert s + ("$" + rest) == "$" + rest;
    } else {
      assert (s + ("$" + rest))[1..] == s[1..] + ("$" + rest);
      if s[0] == ' ' {
        ReadRefused(s[1..], rest, None, Finish(args, w), env);
      } else {
        ReadRefused(s[1..], rest, Some(Text(w) + [s[0]]), args, env);
      }
    }
  }

  lemma EndPlain(w: Word, args: seq<string>)
    ensures Read(Shq("") + (CONTINUATION + AuthLine(None, true)), Plain, w, args, map[]) ==
            Some(args + [Text(w), "-H", AUTH])
  {
    var line := AuthLine(None, true);
    ReadShq("", CONTINUATION + line, w, args, map[]);
    assert Text(w) + "" == Text(w);
    ReadContinuation(line, Some(Text(w)), args, map[]);
    ReadAuthLine(None, true, "", args + [Text(w)], map[]);
    assert line + "" == line && AUTH + "" == AUTH;
    assert args + [Text(w)] + ["-H"] + [AUTH] == args + [Text(w), "-H", AUTH];
  }

  lemma AuthText()
    ensures AuthLine(None, true) == "-H" + (" " + ("\"" + (AUTH + ("$" + (TOKEN_ENV + "\"")))))
  {
    var quoted := DoubleQuoted(AUTH + ("$" + TOKEN_ENV));
    assert ["-H"][1..] == [] && Spaced([], quoted) == quoted;
    assert AUTH + ("$" + TOKEN_ENV) + "\"" == AUTH + ("$" + (TOKEN_ENV + "\""));
  }

  lemma SingleEnd(line: string, w: Word, args: seq<string>)
    requires '\'' !in line
    ensures Read(" " + (Shq("") + (CONTINUATION + line)), Single, w, args, map[]) == None
  {
    var rest := "'" + (CONTINUATION + line);
    var all := " " + (Shq("") + (CONTINUATION + line));
    assert Shq("") == "'" + "'";
    assert all[1..] == "'" + rest;
    ReadQuote(rest, Some(Text(w) + " "), args, map[]);
    ReadQuote(CONTINUATION + line, Some(Text(w) + " "), args, map[]);
    ReadUnclosed(CONTINUATION + line, Some(Text(Some(Text(w) + " "))), args, map[]);
  }

  lemma {:induction false} NamesHaveNoQuote(name: string)
    requires forall i :: 0 <= i < |name| ==> NameChar(name[i])
    ensures '\'' !in name
  {
  }

  lemma QuoteFree(auth: string, name: string)
    requires '\'' !in auth && '\'' !in name
    ensures '\'' !in "-H" + (" " + ("\"" + (auth + ("$" + (name + "\"")))))
  {
  }

  lemma EndSingle(w: Word, args: seq<string>)
    ensures Read(Tail(), Single, w, args, map[]) == None
  {
    AuthText();
    PlainText(AUTH);
    NamesHaveNoQuote(TOKEN_ENV);
    QuoteFree(AUTH, TOKEN_ENV);
    SingleEnd(AuthLine(None, true), w, args);
  }

  lemma DoubleEnd(auth: string, name: string, v: string, args: seq<string>)
    requires forall i :: 0 <= i < |auth| ==> auth[i] == ' ' || Inert(auth[i])
    ensures Read(" '' " + ("\\" + ("\n" + ("  -H " + ("\"" + (auth + ("$" + name)))))), Double, Some(v), args, map[]) == None
  {
    var after := auth + ("$" + name);
    var next := "  -H " + ("\"" + after);
    var s := "\\" + ("\n" + next);
    ReadDouble(" '' ", s, v, args, map[]);
    assert s[1..] == "\n" + next && s[1..][1..] == next;
    ReadDouble("  -H ", "\"" + after, v + " '' ", args, map[]);
    ReadDoubleQuotes(after, Some(v + " '' " + "  -H "), args, map[]);
    ReadRefused(auth, name, Some(v + " '' " + "  -H "), args, map[]);
  }

  lemma EndText(more: string)
    ensures " " + (Shq("") + (CONTINUATION + ("-H" + (" " + more)))) == " '' " + ("\\" + ("\n" + ("  -H " + more)))
  {
    assert Shq("") == "''";
    assert CONTINUATION + ("-H" + (" " + more)) == " " + ("\\" + ("\n" + ("  -H " + more)));
  }

  lemma EndDouble(w: Word, args: seq<string>)
    requires w.Some?
    ensures Read(Tail(), Double, w, args, map[]) == None
  {
    AuthText();
    PlainText(AUTH);
    EndText("\"" + (AUTH + ("$" + (TOKEN_ENV + "\""))));
    DoubleEnd(AUTH, TOKEN_ENV + "\"", w.value, args);
  }

  lemma TailIsTailLike()
    ensures TailLike(Tail())
  {
    var rest := Shq("") + (CONTINUATION + AuthLine(None, true));
    forall w, args
      ensures Read(Tail(), Plain, w, args, map[]) == Some(Finish(args, w) + ["", "-H", AUTH])
      ensures Read("\\" + Tail(), Plain, w, args, map[]) == Some(args + [Text(w) + " ", "-H", AUTH])
    {
      ReadSpace(rest, w, args, map[]);
      EndPlain(None, Finish(args, w));
      assert Tail() == [' '] + rest;
      ReadBackslash(' ', rest, w, args, map[]);
      EndPlain(Some(Text(w) + " "), args);
    }
    forall w: Word, args | w.Some?
      ensures Read(Tail(), Single, w, args, map[]) == None && Read(Tail(), Double, w, args, map[]) == None
    {
      EndSingle(w, args);
      EndDouble(w, args);
    }
  }

  /** The reading failed, or its next argument has at most `n` characters. */
  predicate NextAtMost(r: Option<seq<string>>, args: seq<string>, n: int) {
    r.None? || (|args| < |r.value| && |r.value[|args|]| <= n)
  }

  lemma {:induction false} RunStops(v: string, t: string)
    requires t != "" && t[0] == ' '
    ensures RunLength(v + t) <= |v|
  {
    if v != "" {
      assert (v + t)[1..] == v[1..] + t;
      RunStops(v[1..], t);
    } else {
      assert v + t == t;
    }
  }

  lemma WordFinished(s: string, x: string, args: seq<string>, env: Env)
    ensures NextAtMost(Read(s, Plain, None, args + [x], env), args, |x|)
  {
    ReadKeepsArgs(s, Plain, None, args + [x], env);
    var r := Read(s, Plain, None, args + [x], env);
    assert r.Some? ==> r.value[|args|] == (args + [x])[|args|];
  }

  /** Without variables no word comes out longer than what it was read from. */
  lemma {:induction false} WordIsNoLonger(v: string, t: string, mode: Mode, w: Word, args: seq<string>)
    requires TailLike(t) && (mode.Plain? || w.Some?)
    ensures NextAtMost(Read(v + t, mode, w, args, map[]), args, |Text(w)| + |v|)
    decreases |v|, 2
  {
    if v == "" {
      assert v + t == t;
    } else {
      assert (v + t)[1..] == v[1..] + t;
      match mode
      case Plain => PlainIsNoLonger(v, t, w, args);
      case Single =>
        if v[0] == '\'' {
          WordIsNoLonger(v[1..], t, Plain, w, args);
        } else {
          WordIsNoLonger(v[1..], t, Single, Some(Text(w) + [v[0]]), args);
        }
      case Double => DoubleIsNoLonger(v, t, w, args);
    }
  }

  lemma {:induction false} PlainIsNoLonger(v: string, t: string, w: Word, args: seq<string>)
    requires TailLike(t) && v != ""
    ensures NextAtMost(Read(v + t, Plain, w, args, map[]), args, |Text(w)| + |v|)
    ensures !Inert(v[0]) && v != "\\" ==> NextAtMost(Read(v + t, Plain, w, args, map[]), args, |Text(w)| + |v| - 1)
    decreases |v|, 1
  {
    var c, rest := v[0], v[1..];
    assert (v + t)[1..] == rest + t;
    if c == '\'' {
      WordIsNoLonger(rest, t, Single, Some(Text(w)), args);
    } else if c == '"' {
      WordIsNoLonger(rest, t, Double, Some(Text(w)), args);
    } else if c == ' ' || c == '\t' {
      if w.None? {
        WordIsNoLonger(rest, t, Plain, None, args);
      } else {
        WordFinished(rest + t, w.value, args, map[]);
      }
    } else if c == '\\' {
      EscapedIsNoLonger(v, t, w, args);
    } else {
      WordIsNoLonger(rest, t, Plain, Some(Text(w) + [c]), args);
    }
  }

  lemma {:induction false} EscapedIsNoLonger(v: string, t: string, w: Word, args: seq<string>)
    requires TailLike(t) && v != "" && v[0] == '\\'
    ensures NextAtMost(Read(v + t, Plain, w, args, map[]), args, |Text(w)| + |v|)
    ensures v != "\\" ==> NextAtMost(Read(v + t, Plain, w, args, map[]), args, |Text(w)| + |v| - 1)
    decreases |v|, 0
  {
    var rest := v[1..];
    assert (v + t)[1..] == rest + t;
    if rest == "" {
      assert v + t == "\\" + t;
    } else {
      assert (rest + t)[1..] == rest[1..] + t;
      WordIsNoLonger(rest[1..], t, Plain, w, args);
      WordIsNoLonger(rest[1..], t, Plain, Some(Text(w) + [rest[0]]), args);
    }
  }

  lemma {:induction false} DoubleIsNoLonger(v: string, t: string, w: Word, args: seq<string>)
    requires TailLike(t) && v != "" && w.Some?
    ensures NextAtMost(Read(v + t, Double, w, args, map[]), args, |Text(w)| + |v|)
    decreases |v|, 1
  {
    var c, rest := v[0], v[1..];
    assert (v + t)[1..] == rest + t;
    if c == '"' {
      WordIsNoLonger(rest, t, Plain, w, args);
    } else if c == '$' {
      RunStops(rest, t);
      var n := NameLength(rest + t);
      assert (rest + t)[n..] == rest[n..] + t;
      WordIsNoLonger(rest[n..], t, Double, Some(Text(w) + Lookup(map[], (rest + t)[..n])), args);
    } else if c == '\\' {
      EscapedInDouble(v, t, w, args);
    } else {
      WordIsNoLonger(rest, t, Double, Some(Text(w) + [c]), args);
    }
  }

  lemma {:induction false} EscapedInDouble(v: string, t: string, w: Word, args: seq<string>)
    requires TailLike(t) && v != "" && v[0] == '\\' && w.Some?
    ensures NextAtMost(Read(v + t, Double, w, args, map[]), args, |Text(w)| + |v|)
    decreases |v|, 0
  {
    var rest := v[1..];
    assert (v + t)[1..] == rest + t;
    WordIsNoLonger(rest, t, Double, Some(Text(w) + [v[0]]), args);
    if rest != "" {
      assert (rest + t)[1..] == rest[1..] + t;
      WordIsNoLonger(rest[1..], t, Double, w, args);
      WordIsNoLonger(rest[1..], t, Double, Some(Text(w) + [rest[0]]), args);
    } else {
      assert rest + t == t;
    }
  }

  /** A word with a character that is not inert does not read as itself. */
  lemma {:induction false} OddWordChanges(v: string, t: string, w: Word, args: seq<string>)
    requires TailLike(t) && exists i :: 0 <= i < |v| && !Inert(v[i])
    ensures var r := Read(v + t, Plain, w, args, map[]);
            r.None? || (|args| < |r.value| && r.value[|args|] != Text(w) + v)
    decreases |v|
  {
    if Inert(v[0]) {
      var i :| 0 <= i < |v| && !Inert(v[i]);
      assert v[1..][i - 1] == v[i];
      InertFirst(v, t, w, args);
      OddWordChanges(v[1..], t, Some(Text(w) + [v[0]]), args);
      assert Text(w) + [v[0]] + v[1..] == Text(w) + v;
    } else if v == "\\" {
      BackslashChanges(t, w, args);
    } else {
      PlainIsNoLonger(v, t, w, args);
    }
  }

  lemma InertFirst(v: string, t: string, w: Word, args: seq<string>)
    requires v != "" && Inert(v[0])
    ensures Read(v + t, Plain, w, args, map[]) == Read(v[1..] + t, Plain, Some(Text(w) + [v[0]]), args, map[])
  {
    assert (v + t)[1..] == v[1..] + t;
  }

  lemma BackslashChanges(t: string, w: Word, args: seq<string>)
    requires TailLike(t)
    ensures var r := Read("\\" + t, Plain, w, args, map[]);
            r.Some? && |args| < |r.value| && r.value[|args|] != Text(w) + "\\"
  {
    assert (args + [Text(w) + " ", "-H", AUTH])[|args|] == Text(w) + " ";
    assert (Text(w) + " ")[|Text(w)|] != (Text(w) + "\\")[|Text(w)|];
  }

  lemma CommandWithTail(verb: string)
    ensures BuildCurl(Request(verb, "", None), None, true) == Spaced(["curl", "-sS", "-X"], Upper(verb) + Tail())
  {
    var words, v, line := ["curl", "-sS", "-X"], Upper(verb), AuthLine(None, true);
    var first, auth := Quoted(words + [v], ""), Auth(None, true);
    assert words + [v] == ["curl", "-sS", "-X", v];
    assert Lines(Request(verb, "", None), None, true) == [first] + [auth];
    UnfoldLines(first, [auth], map[]);
    assert Join([auth]) == line;
    SpacedSnoc(words, v, Shq(""));
    SpacedAppend(words, v + (" " + Shq("")), CONTINUATION + line);
    assert v + (" " + Shq("")) + (CONTINUATION + line) == v + Tail();
  }

  lemma {:induction false} SpacedSnoc(words: seq<string>, x: string, last: string)
    ensures Spaced(words + [x], last) == Spaced(words, x + (" " + last))
    decreases |words|
  {
    if words == [] {
      assert words + [x] == [x];
    } else {
      assert (words + [x])[1..] == words[1..] + [x];
      SpacedSnoc(words[1..], x, last);
    }
  }

  lemma NextDiffers(r: Option<seq<string>>, args: seq<string>, v: string, more: seq<string>)
    requires r.None? || (|args| < |r.value| && r.value[|args|] != v)
    ensures r != Some(args + [v] + more)
  {
    assert (args + [v] + more)[|args|] == v;
  }

  lemma OddMisreads(v: string, t: string, args: seq<string>)
    requires TailLike(t) && !Bare(v)
    ensures Read(v + t, Plain, None, args, map[]) != Some(args + [v] + ["", "-H", AUTH])
  {
    if v == "" {
      assert v + t == t;
      assert Read(t, Plain, None, args, map[]) == Some(args + ["", "-H", AUTH]);
      assert |args + ["", "-H", AUTH]| < |args + [v] + ["", "-H", AUTH]|;
    } else {
      OddWordChanges(v, t, None, args);
      assert "" + v == v;
      NextDiffers(Read(v + t, Plain, None, args, map[]), args, v, ["", "-H", AUTH]);
    }
  }

  lemma CommandReads(verb: string)
    ensures Arguments(BuildCurl(Request(verb, "", None), None, true), map[]) ==
            Read(Upper(verb) + Tail(), Plain, None, ["curl", "-sS", "-X"], map[])
  {
    var args := ["curl", "-sS", "-X"];
    CommandWithTail(verb);
    OptionWords();
    ReadSpaced(args, Upper(verb) + Tail(), [], map[]);
    assert [] + args == args;
  }

  lemma NotBareMisreads(verb: string)
    requires !Bare(Upper(verb))
    ensures var req := Request(verb, "", None);
            Arguments(BuildCurl(req, None, true), map[]) != Some(Intended(req, Bearer(None, true, map[])))
  {
    CommandReads(verb);
    TailIsTailLike();
    OddMisreads(Upper(verb), Tail(), ["curl", "-sS", "-X"]);
    assert AUTH + Bearer(None, true, map[]) == AUTH;
    assert Intended(Request(verb, "", None), "") == ["curl", "-sS", "-X"] + [Upper(verb)] + ["", "-H", AUTH];
  }

  /** With this method every request and token reads as intended, in every environment. */
  ghost predicate AlwaysReads(verb: string) {
    forall req: Request, token, masked, env :: req.verb == verb && Passable(req, token, masked) ==>
                                        Arguments(BuildCurl(req, token, masked), env) ==
                                        Some(Intended(req, Bearer(token, masked, env)))
  }

  /** A method can stand unquoted in the command exactly when it is not empty and all its characters
      read as themselves outside quotes. */
  lemma MethodsThatReadExactly(verb: string)
    ensures AlwaysReads(verb) <==> Bare(Upper(verb))
  {
    if Bare(Upper(verb)) {
      forall req: Request, token, masked, env | req.verb == verb && Passable(req, token, masked)
        ensures Arguments(BuildCurl(req, token, masked), env) == Some(Intended(req, Bearer(token, masked, env)))
      {
        CurlReads(req, token, masked, env);
      }
    } else {
      NotBareMisreads(verb);
      assert Passable(Request(verb, "", None), None, true);
    }
  }

  // ---------------------------------------------------------------------------------------------
  // Masking
  // ---------------------------------------------------------------------------------------------

  /** The masked command is the same whatever the token, and the same as the command without one. */
  lemma MaskedHidesToken(req: Request, t1: Option<string>, t2: Option<string>)
    ensures BuildCurl(req, t1, true) == BuildCurl(req, t2, true)
    ensures BuildCurl(req, t1, true) == BuildCurl(req, None, false) == BuildCurl(req, Some(""), false)
  {
    assert AuthLine(t1, true) == AuthLine(t2, true) == AuthLine(None, false) == AuthLine(Some(""), false);
    SameButAuth(req, t1, true, t2, true);
    SameButAuth(req, t1, true, None, false);
    SameButAuth(req, t1, true, Some(""), false);
  }

  lemma {:induction false} SameRendering(a: seq<Line>, b: seq<Line>)
    requires |a| == |b| && a != [] && forall i :: 0 <= i < |a| ==> Render(a[i]) == Render(b[i])
    ensures Join(a) == Join(b)
    decreases |a|
  {
    if |a| > 1 {
      SameRendering(a[1..], b[1..]);
    }
  }

  lemma SameButAuth(req: Request, t1: Option<string>, m1: bool, t2: Option<string>, m2: bool)
    requires AuthLine(t1, m1) == AuthLine(t2, m2)
    ensures BuildCurl(req, t1, m1) == BuildCurl(req, t2, m2)
  {
    SameRendering(Lines(req, t1, m1), Lines(req, t2, m2));
  }

  /** The arguments for a request and an authorization header, written out. */
  function CurlArguments(verb: string, url: string, header: string, body: Option<string>): seq<string> {
    ["curl", "-sS", "-X", verb, url, "-H", header]
    + if body.Some? && body.value != "" then ["-H", "Content-Type: application/json", "--data-raw", body.value] else []
  }

  lemma IntendedArguments(req: Request, bearer: string)
    ensures Intended(req, bearer) == CurlArguments(Upper(req.verb), req.url, "Authorization: Bearer " + bearer, req.body)
  {
  }

  /** Nothing but the token can hold NUL. */
  predicate CleanRequest(req: Request) {
    '\0' !in req.url && (req.body.Some? ==> '\0' !in req.body.value)
  }

  /** The masked command sends the value of the variable WEFT_TOKEN, whatever token is at hand. */
  lemma MaskedReads(req: Request, token: Option<string>, env: Env)
    requires Bare(Upper(req.verb)) && CleanRequest(req)
    ensures var value := if "WEFT_TOKEN" in env then env["WEFT_TOKEN"] else "";
            Arguments(BuildCurl(req, token, true), env) ==
            Some(CurlArguments(Upper(req.verb), req.url, "Authorization: Bearer " + value, req.body))
  {
    var value := if "WEFT_TOKEN" in env then env["WEFT_TOKEN"] else "";
    CurlReads(req, token, true, env);
    assert Bearer(token, true, env) == value;
    IntendedArguments(req, value);
  }

  /** The unmasked command sends exactly the token, in every environment. */
  lemma UnmaskedReads(req: Request, token: string, env: Env)
    requires Bare(Upper(req.verb)) && CleanRequest(req) && token != "" && '\0' !in token
    ensures Arguments(BuildCurl(req, Some(token), false), env) ==
            Some(CurlArguments(Upper(req.verb), req.url, "Authorization: Bearer " + token, req.body))
  {
    CurlReads(req, Some(token), false, env);
    IntendedArguments(req, token);
  }

  /** Upper case, letter by letter. */
  lemma {:induction false} UpperAt(s: string, i: nat)
    requires i < |s|
    ensures |Upper(s)| == |s|
    ensures Upper(s)[i] == if 'a' <= s[i] <= 'z' then s[i] - 'a' + 'A' else s[i]
  {
    if |s| > 1 {
      UpperAt(s[1..], if i > 0 then i - 1 else 0);
    }
  }
}
