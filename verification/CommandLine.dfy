/** Building one command line for a remote shell, and reading it back as a shell does. */
module CommandLine {
  import opened Wrappers
  import opened Text

  datatype EnvVar = EnvVar(name: string, value: string)

  /** The environment in key order. */
  datatype Request = Request(program: string, args: seq<string>, cwd: Option<string>, env: seq<EnvVar>)

  const SUDO := "/usr/bin/sudo"
  const SUDO_ARGS := ["-n", "-u", "root", "--"]
  const ENV := "/usr/bin/env"

  // ------------------------------------------------------------------- quoting

  function QuoteChars(s: string): string {
    if s == "" then "" else QuoteChar(s[0]) + QuoteChars(s[1..])
  }

  function QuoteChar(c: char): string { if c == '\'' then "'\\''" else [c] }

  function ShellQuote(s: string): string { if s == "" then "''" else "'" + QuoteChars(s) + "'" }

  method Quote(s: string) returns (out: string)
    ensures out == ShellQuote(s)
  {
    if s == "" { return "''"; }
    out := "'";
    assert "'" + QuoteChars(s[0..]) == "'" + QuoteChars(s);
    for i := 0 to |s|
      invariant out + QuoteChars(s[i..]) == "'" + QuoteChars(s)
    {
      assert s[i..][1..] == s[i + 1..];
      if s[i] == '\'' { out := out + "'\\''"; } else { out := out + [s[i]]; }
    }
    assert out == "'" + QuoteChars(s);
    out := out + "'";
  }

  // ------------------------------------------------------------------- building

  function EnvWords(env: seq<EnvVar>): seq<string> {
    seq(|env|, i requires 0 <= i < |env| => env[i].name + "=" + env[i].value)
  }

  function Quoted(words: seq<string>): seq<string> {
    seq(|words|, i requires 0 <= i < |words| => ShellQuote(words[i]))
  }

  function WorkingDir(req: Request, rootDefaults: bool, home: string): string {
    match req.cwd
    case Some(d) => d
    case None => if rootDefaults then "/root" else home
  }

  /** The argument vector the line has to stand for. */
  function Argv(req: Request, rootDefaults: bool, wrap: bool, home: string): seq<string> {
    (if wrap then [SUDO] + SUDO_ARGS else []) +
    [ENV, "-i", "-C", WorkingDir(req, rootDefaults, home)] + EnvWords(req.env) + [req.program] + req.args
  }

  function EnvParts(req: Request, rootDefaults: bool, home: string): seq<string> {
    [ShellQuote(ENV), "-i", "-C", ShellQuote(WorkingDir(req, rootDefaults, home))]
    + Quoted(EnvWords(req.env)) + [ShellQuote(req.program)] + Quoted(req.args)
  }

  function RemoteCommand(req: Request, rootDefaults: bool, wrap: bool, home: string): string {
    var envCmd := Join(EnvParts(req, rootDefaults, home), " ");
    if wrap then SUDO + " " + Join(SUDO_ARGS, " ") + " " + envCmd else envCmd
  }

  method BuildRemoteCommand(req: Request, rootDefaults: bool, wrap: bool, home: string) returns (line: string)
    ensures line == RemoteCommand(req, rootDefaults, wrap, home)
  {
    hide ShellQuote, Join;
    var q := Quote(ENV);
    var cwd := Quote(WorkingDir(req, rootDefaults, home));
    var parts := [q, "-i", "-C", cwd];
    ghost var head := parts;
    for i := 0 to |req.env|
      invariant parts == head + Quoted(EnvWords(req.env))[..i]
    {
      var part := Quote(req.env[i].name + "=" + req.env[i].value);
      parts := parts + [part];
    }
    var program := Quote(req.program);
    parts := parts + [program];
    head := parts;
    for i := 0 to |req.args|
      invariant parts == head + Quoted(req.args)[..i]
    {
      var part := Quote(req.args[i]);
      parts := parts + [part];
    }
    assert parts == EnvParts(req, rootDefaults, home);
    var envCmd := Join(parts, " ");
    line := if wrap then SUDO + " " + Join(SUDO_ARGS, " ") + " " + envCmd else envCmd;
  }

  /** The local executor starts a program with arguments directly. */
  method Wrap(req: Request, wrap: bool) returns (program: string, args: seq<string>)
    ensures wrap ==> [program] + args == Argv(req, true, true, "")
    ensures !wrap ==> program == req.program && args == req.args
  {
    if wrap {
      var cwd := if req.cwd.Some? then req.cwd.value else "/root";
      args := SUDO_ARGS + [ENV] + ["-i"] + ["-C"] + [cwd];
      ghost var head := args;
      for i := 0 to |req.env|
        invariant args == head + EnvWords(req.env)[..i]
      {
        args := args + [req.env[i].name + "=" + req.env[i].value];
      }
      args := args + [req.program] + req.args;
      program := SUDO;
    } else {
      program, args := req.program, req.args;
    }
  }

  // -------------------------------------------------------------------- reading

  /** Characters a shell takes literally outside quotes. */
  predicate Ordinary(c: char) {
    'a' <= c <= 'z' || 'A' <= c <= 'Z' || '0' <= c <= '9' || c == '/' || c == '-' || c == '_' || c == '.'
  }

  /** Word splitting with single quotes and backslash (XCU sections 2.2.1 and 2.2.2), given the
      word read so far. None: an unterminated quote or backslash, or with `strict` an unquoted
      character that could mean something else to the shell. */
  function Words(s: string, cur: string, inWord: bool, quoted: bool, strict: bool): Option<seq<string>>
    decreases |s|
  {
    if s == "" then
      if quoted then None else Some(if inWord then [cur] else [])
    else if quoted then
      if s[0] == '\'' then Words(s[1..], cur, inWord, false, strict)
      else Words(s[1..], cur + [s[0]], inWord, true, strict)
    else if s[0] == '\'' then Words(s[1..], cur, true, true, strict)
    else if s[0] == '\\' then
      if |s| == 1 || (strict && s[1] == '\n') then None else Words(s[2..], cur + [s[1]], true, false, strict)
    else if s[0] == ' ' then
      if inWord then
        match Words(s[1..], "", false, false, strict)
        case None => None
        case Some(more) => Some([cur] + more)
      else Words(s[1..], cur, false, false, strict)
    else if strict && !Ordinary(s[0]) then None
    else Words(s[1..], cur + [s[0]], true, false, strict)
  }

  /** What a POSIX shell makes of a line, as far as that is plain words. */
  function ShellWords(line: string): Option<seq<string>> { Words(line, "", false, false, true) }

  /** The splitter the repository's tests use. */
  method PosixWords(line: string) returns (r: Option<seq<string>>)
    ensures r == Words(line, "", false, false, false)
  {
    var words: seq<string> := [];
    var cur, inWord, quoted, i := "", false, false, 0;
    ghost var all := Words(line, "", false, false, false);
    assert line[0..] == line && (all.Some? ==> [] + all.value == all.value);
    while i < |line|
      invariant i <= |line|
      invariant match Words(line[i..], cur, inWord, quoted, false)
                case None => all == None
                case Some(more) => all == Some(words + more)
    {
      var c := line[i];
      assert line[i..][1..] == line[i + 1..];
      i := i + 1;
      if quoted {
        if c == '\'' { quoted := false; } else { cur := cur + [c]; }
      } else if c == '\'' {
        quoted, inWord := true, true;
      } else if c == '\\' {
        if i == |line| { return None; }
        assert line[i - 1..][2..] == line[i + 1..];
        cur, inWord, i := cur + [line[i]], true, i + 1;
      } else if c == ' ' {
        if inWord {
          ghost var more := Words(line[i..], "", false, false, false);
          assert more.Some? ==> words + ([cur] + more.value) == words + [cur] + more.value;
          words, cur, inWord := words + [cur], "", false;
        }
      } else {
        cur, inWord := cur + [c], true;
      }
    }
    if quoted { return None; }
    if inWord { words := words + [cur]; }
    assert inWord || words + [] == words;
    r := Some(words);
  }

  // ------------------------------------------------------------- reading undoes

  lemma QuotedCharReads(c: char, tail: string, cur: string, strict: bool)
    ensures Words(QuoteChar(c) + tail, cur, true, true, strict) == Words(tail, cur + [c], true, true, strict)
  {
    if c == '\'' {
      QuoteInside(tail, cur, strict);
    } else {
      assert ([c] + tail)[1..] == tail;
    }
  }

  lemma QuoteCharsCons(s: string, rest: string)
    requires s != ""
    ensures QuoteChars(s) + rest == QuoteChar(s[0]) + (QuoteChars(s[1..]) + rest)
  {
  }

  lemma ClosingReads(rest: string, cur: string, strict: bool)
    ensures Words("'" + rest, cur, true, true, strict) == Words(rest, cur, true, false, strict)
  {
    assert ("'" + rest)[1..] == rest;
  }

  lemma {:induction false} QuotedReads(s: string, rest: string, cur: string, strict: bool)
    ensures Words(QuoteChars(s) + ("'" + rest), cur, true, true, strict) == Words(rest, cur + s, true, false, strict)
    decreases |s|
  {
    hide Words, QuoteChar, QuoteChars;
    if s == "" {
      QuoteNothing();
      assert QuoteChars(s) + ("'" + rest) == "'" + rest && cur + s == cur;
      ClosingReads(rest, cur, strict);
    } else {
      QuotedReads(s[1..], rest, cur + [s[0]], strict);
      assert cur + [s[0]] + s[1..] == cur + s;
      QuotedCharReads(s[0], QuoteChars(s[1..]) + ("'" + rest), cur, strict);
      QuoteCharsCons(s, "'" + rest);
    }
  }

  /** `'\''` closes, escapes one quote, and opens again. */
  lemma QuoteInside(tail: string, cur: string, strict: bool)
    ensures Words("'\\''" + tail, cur, true, true, strict) == Words(tail, cur + ['\''], true, true, strict)
  {
    var s := "'\\''" + tail;
    var escaped, reopened := s[1..], "'" + tail;
    assert escaped == "\\''" + tail && escaped[2..] == reopened && reopened[1..] == tail;
    assert Words(reopened, cur + ['\''], true, false, strict) == Words(tail, cur + ['\''], true, true, strict);
    assert Words(escaped, cur, true, false, strict) == Words(reopened, cur + ['\''], true, false, strict);
  }

  /** A part of a line that reads as one word, whatever follows. */
  ghost predicate ReadsAs(part: string, word: string, strict: bool) {
    forall rest :: Words(part + rest, "", false, false, strict) == Words(rest, word, true, false, strict)
  }

  lemma QuoteReads(word: string, strict: bool)
    ensures ReadsAs(ShellQuote(word), word, strict)
  {
    forall rest
      ensures Words(ShellQuote(word) + rest, "", false, false, strict) == Words(rest, word, true, false, strict)
    {
      hide QuoteChars;
      var line := ShellQuote(word) + rest;
      assert line[1..] == QuoteChars(word) + ("'" + rest) by { QuoteNothing(); }
      QuotedReads(word, rest, "", strict);
      assert "" + word == word;
    }
  }

  lemma QuoteNothing()
    ensures QuoteChars("") == ""
  {
  }

  lemma {:induction false} OrdinaryReads(w: string, rest: string, cur: string, inWord: bool, strict: bool)
    requires forall i :: 0 <= i < |w| ==> Ordinary(w[i])
    requires w != "" || inWord
    ensures Words(w + rest, cur, inWord, false, strict) == Words(rest, cur + w, true, false, strict)
    decreases |w|
  {
    if w == "" {
      assert w + rest == rest && cur + w == cur;
    } else {
      OrdinaryReads(w[1..], rest, cur + [w[0]], true, strict);
      assert (w + rest)[1..] == w[1..] + rest;
      assert cur + [w[0]] + w[1..] == cur + w;
    }
  }

  lemma PlainReads(w: string, strict: bool)
    requires w != "" && forall i :: 0 <= i < |w| ==> Ordinary(w[i])
    ensures ReadsAs(w, w, strict)
  {
    forall rest
      ensures Words(w + rest, "", false, false, strict) == Words(rest, w, true, false, strict)
    {
      OrdinaryReads(w, rest, "", false, strict);
      assert "" + w == w;
    }
  }

  ghost predicate AllRead(parts: seq<string>, words: seq<string>, strict: bool) {
    |parts| == |words| && forall i :: 0 <= i < |parts| ==> ReadsAs(parts[i], words[i], strict)
  }

  lemma {:induction false} LineReads(parts: seq<string>, words: seq<string>, strict: bool)
    requires AllRead(parts, words, strict) && parts != []
    ensures Words(Join(parts, " "), "", false, false, strict) == Some(words)
  {
    hide ReadsAs;
    assert ReadsAs(parts[0], words[0], strict);
    if |parts| == 1 {
      ReadLast(parts[0], words[0], strict);
      assert words == [words[0]];
    } else {
      LineReads(parts[1..], words[1..], strict);
      ReadFirst(parts[0], words[0], Join(parts[1..], " "), words[1..], strict);
      assert Join(parts, " ") == parts[0] + (" " + Join(parts[1..], " "));
      assert words == [words[0]] + words[1..];
    }
  }

  lemma ReadLast(part: string, word: string, strict: bool)
    requires ReadsAs(part, word, strict)
    ensures Words(part, "", false, false, strict) == Some([word])
  {
    assert part + "" == part;
  }

  lemma ReadFirst(part: string, word: string, tail: string, more: seq<string>, strict: bool)
    requires ReadsAs(part, word, strict) && Words(tail, "", false, false, strict) == Some(more)
    ensures Words(part + (" " + tail), "", false, false, strict) == Some([word] + more)
  {
    assert (" " + tail)[1..] == tail;
  }

  lemma EnvPartsRead(req: Request, rootDefaults: bool, home: string, strict: bool)
    ensures AllRead(EnvParts(req, rootDefaults, home), Argv(req, rootDefaults, false, home), strict)
  {
    hide ShellQuote, ReadsAs;
    var parts, words := EnvParts(req, rootDefaults, home), Argv(req, rootDefaults, false, home);
    PlainReads("-i", strict);
    PlainReads("-C", strict);
    forall i | 0 <= i < |parts|
      ensures ReadsAs(parts[i], words[i], strict)
    {
      QuoteReads(words[i], strict);
      assert i != 1 && i != 2 ==> parts[i] == ShellQuote(words[i]);
    }
  }

  lemma SudoPartsRead(strict: bool)
    ensures AllRead(SUDO_PREFIX, SUDO_PREFIX, strict)
  {
    hide ReadsAs;
    PlainReads(SUDO, strict);
    PlainReads("-n", strict);
    PlainReads("-u", strict);
    PlainReads("root", strict);
    PlainReads("--", strict);
  }

  /** For every request, shell word splitting of the command line gives exactly the argument
      vector: sudo prefix when wrapped, env, `-i`, `-C`, directory, each `K=V`, program and
      arguments unchanged. Nothing outside quotes is special to the shell. */
  lemma CommandRoundTrip(req: Request, rootDefaults: bool, wrap: bool, home: string, strict: bool)
    ensures Words(RemoteCommand(req, rootDefaults, wrap, home), "", false, false, strict)
         == Some(Argv(req, rootDefaults, wrap, home))
  {
    hide ReadsAs, Words, EnvParts, Argv, Join;
    var parts, words := EnvParts(req, rootDefaults, home), Argv(req, rootDefaults, false, home);
    EnvPartsRead(req, rootDefaults, home, strict);
    Shapes(req, rootDefaults, wrap, home);
    if wrap {
      SudoPartsRead(strict);
      JoinConcat(SUDO_PREFIX, parts, " ");
      LineReads(SUDO_PREFIX + parts, SUDO_PREFIX + words, strict);
    } else {
      LineReads(parts, words, strict);
    }
  }

  const SUDO_PREFIX := [SUDO] + SUDO_ARGS

  lemma Shapes(req: Request, rootDefaults: bool, wrap: bool, home: string)
    ensures EnvParts(req, rootDefaults, home) != []
    ensures wrap ==> Argv(req, rootDefaults, wrap, home) == SUDO_PREFIX + Argv(req, rootDefaults, false, home)
    ensures RemoteCommand(req, rootDefaults, wrap, home) ==
      (if wrap then Join(SUDO_PREFIX, " ") + " " else "") + Join(EnvParts(req, rootDefaults, home), " ")
  {
    hide Join, ShellQuote;
    SudoJoin();
  }

  lemma SudoJoin()
    ensures Join(SUDO_PREFIX, " ") == SUDO + " " + Join(SUDO_ARGS, " ")
  {
    assert SUDO_PREFIX[1..] == SUDO_ARGS;
  }

  /** A wrapped remote command and the local wrapper run the same argument vector, exactly when
      the directory is given or both default to root's. */
  lemma WrapsAgree(req: Request, rootDefaults: bool, home: string)
    ensures ShellWords(RemoteCommand(req, rootDefaults, true, home)) == Some(Argv(req, true, true, ""))
        <==> req.cwd.Some? || rootDefaults || home == "/root"
  {
    hide Words, RemoteCommand;
    CommandRoundTrip(req, rootDefaults, true, home, true);
    var a, b := Argv(req, rootDefaults, true, home), Argv(req, true, true, "");
    assert a[8] == WorkingDir(req, rootDefaults, home) && b[8] == WorkingDir(req, true, "");
  }
}
