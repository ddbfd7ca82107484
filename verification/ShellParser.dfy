/** The command parser of user/sh.c. The text runs from the cursor to its terminating NUL; a
    token is a span of positions, and nulterminate writes NULs into the text afterwards. */
module ShellParser {

  const MAXARGS := 10
  const NUL := '\0'

  datatype Span = Span(q: nat, eq: nat)
  datatype Mode = ReadOnly | WriteCreate
  datatype Cmd =
    | Exec(argv: seq<Span>)
    | Redir(sub: Cmd, file: Span, mode: Mode, fd: nat)
    | Pipe(left: Cmd, right: Cmd)
    | List(left: Cmd, right: Cmd)
    | Back(sub: Cmd)

  datatype Why = MissingFile | Syntax | TooManyArgs | MissingParen | Leftovers
  datatype Parse = Ok(cmd: Cmd, pos: nat) | Panic(why: Why)

  /** kind is the character gettoken returns: NUL at the end, 'a' for a word, '+' for >>. */
  datatype Token = Token(kind: char, q: nat, eq: nat, next: nat)

  predicate White(c: char) {
    c == ' ' || c == '\t' || c == '\r' || c == '\n' || c == '\U{B}'
  }

  predicate Symbol(c: char) {
    c == '<' || c == '|' || c == '>' || c == '&' || c == ';' || c == '(' || c == ')'
  }

  predicate Delim(c: char) {
    White(c) || Symbol(c)
  }

  // ----- scanning -----

  function SkipWhite(t: string, i: nat): (j: nat)
    requires i <= |t|
    ensures i <= j <= |t| && (j < |t| ==> !White(t[j])) && (i < |t| && !White(t[i]) ==> j == i)
    decreases |t| - i
  {
    if i < |t| && White(t[i]) then SkipWhite(t, i + 1) else i
  }

  function SkipWord(t: string, i: nat): (j: nat)
    requires i <= |t|
    ensures i <= j <= |t| && (j < |t| ==> Delim(t[j])) && forall k :: i <= k < j ==> !Delim(t[k])
    decreases |t| - i
  {
    if i < |t| && !Delim(t[i]) then SkipWord(t, i + 1) else i
  }

  function CharAt(t: string, i: nat): char {
    if i < |t| then t[i] else NUL
  }

  /** The text holds no NUL: it was measured with strlen. */
  predicate Text(t: string) {
    forall i :: 0 <= i < |t| ==> t[i] != NUL
  }

  function GetToken(t: string, i: nat): (r: Token)
    requires i <= |t|
    ensures i <= r.q <= r.eq <= r.next <= |t|
    ensures CharAt(t, SkipWhite(t, i)) != NUL ==> i < r.next
    ensures r.kind != NUL ==> i < r.next
    ensures r.kind == 'a' ==> TokenSpan(t, Span(r.q, r.eq))
  {
    var q := SkipWhite(t, i);
    var c := CharAt(t, q);
    if c == NUL then Token(NUL, q, q, SkipWhite(t, q))
    else if c == '>' then
      if CharAt(t, q + 1) == '>' then Token('+', q, q + 2, SkipWhite(t, q + 2))
      else Token('>', q, q + 1, SkipWhite(t, q + 1))
    else if Symbol(c) then Token(c, q, q + 1, SkipWhite(t, q + 1))
    else Token('a', q, SkipWord(t, q), SkipWhite(t, SkipWord(t, q)))
  }

  /** The span is a whole word: no delimiter inside, and one (or the end) right after it. */
  predicate TokenSpan(t: string, s: Span) {
    && s.q < s.eq <= |t| && (forall k :: s.q <= k < s.eq ==> !Delim(t[k])) && (s.eq < |t| ==> Delim(t[s.eq]))
  }

  /** All words and file names of a command are whole words of the text. */
  predicate AllTokens(t: string, c: Cmd) {
    match c
    case Exec(argv) => forall i :: 0 <= i < |argv| ==> TokenSpan(t, argv[i])
    case Redir(sub, file, _, _) => AllTokens(t, sub) && TokenSpan(t, file)
    case Pipe(l, r) => AllTokens(t, l) && AllTokens(t, r)
    case List(l, r) => AllTokens(t, l) && AllTokens(t, r)
    case Back(sub) => AllTokens(t, sub)
  }

  /** peek moves the cursor over white space and looks at the next character. */
  predicate Peek(t: string, i: nat, toks: string)
    requires i <= |t|
  {
    var j := SkipWhite(t, i);
    CharAt(t, j) != NUL && CharAt(t, j) in toks
  }

  // ----- parsing -----

  function ParseCmd(t: string): (r: Parse)
    ensures r.Ok? ==> AllTokens(t, r.cmd)
  {
    match ParseLine(t, 0)
    case Panic(w) => Panic(w)
    case Ok(c, j) => if SkipWhite(t, j) != |t| then Panic(Leftovers) else Ok(c, |t|)
  }

  function ParseLine(t: string, i: nat): (r: Parse)
    requires i <= |t|
    ensures r.Ok? ==> i <= r.pos <= |t| && AllTokens(t, r.cmd)
    decreases |t| - i, 4
  {
    match ParsePipe(t, i)
    case Panic(w) => Panic(w)
    case Ok(c, j) =>
      var b := ParseBacks(t, c, j);
      if Peek(t, b.pos, ";") then
        match ParseLine(t, GetToken(t, b.pos).next)
        case Panic(w) => Panic(w)
        case Ok(c', k) => Ok(List(b.cmd, c'), k)
      else Ok(b.cmd, SkipWhite(t, b.pos))
  }

  /** Every "&" after a pipeline puts what was read so far into the background. */
  function ParseBacks(t: string, c: Cmd, i: nat): (r: Parse)
    requires i <= |t|
    ensures r.Ok? && i <= r.pos <= |t| && (AllTokens(t, c) ==> AllTokens(t, r.cmd))
    decreases |t| - i
  {
    if Peek(t, i, "&") then ParseBacks(t, Back(c), GetToken(t, i).next)
    else Ok(c, SkipWhite(t, i))
  }

  function ParsePipe(t: string, i: nat): (r: Parse)
    requires i <= |t|
    ensures r.Ok? ==> i <= r.pos <= |t| && AllTokens(t, r.cmd)
    decreases |t| - i, 3
  {
    match ParseExec(t, i)
    case Panic(w) => Panic(w)
    case Ok(c, j) =>
      if Peek(t, j, "|") then
        match ParsePipe(t, GetToken(t, j).next)
        case Panic(w) => Panic(w)
        case Ok(c', k) => Ok(Pipe(c, c'), k)
      else Ok(c, SkipWhite(t, j))
  }

  /** One redirection wrapped around a command; >> opens its file just as > does. */
  function Redirect(c: Cmd, kind: char, file: Span): Cmd {
    if kind == '<' then Redir(c, file, ReadOnly, 0) else Redir(c, file, WriteCreate, 1)
  }

  function ParseRedirs(t: string, c: Cmd, i: nat): (r: Parse)
    requires i <= |t|
    ensures r.Ok? ==> i <= r.pos <= |t| && (AllTokens(t, c) ==> AllTokens(t, r.cmd))
    decreases |t| - i
  {
    if Peek(t, i, "<>") then
      var op := GetToken(t, i);
      var file := GetToken(t, op.next);
      if file.kind != 'a' then Panic(MissingFile)
      else ParseRedirs(t, Redirect(c, op.kind, Span(file.q, file.eq)), file.next)
    else Ok(c, SkipWhite(t, i))
  }

  function ParseBlock(t: string, i: nat): (r: Parse)
    requires i <= |t| && Peek(t, i, "(")
    ensures r.Ok? ==> i <= r.pos <= |t| && AllTokens(t, r.cmd)
    decreases |t| - i, 1
  {
    match ParseLine(t, GetToken(t, i).next)
    case Panic(w) => Panic(w)
    case Ok(c, j) =>
      if !Peek(t, j, ")") then Panic(MissingParen)
      else ParseRedirs(t, c, GetToken(t, j).next)
  }

  function ParseExec(t: string, i: nat): (r: Parse)
    requires i <= |t|
    ensures r.Ok? ==> i <= r.pos <= |t| && AllTokens(t, r.cmd)
    decreases |t| - i, 2
  {
    if Peek(t, i, "(") then ParseBlock(t, i)
    else
      match ParseRedirs(t, Exec([]), SkipWhite(t, i))
      case Panic(w) => Panic(w)
      case Ok(c, j) => ParseArgs(t, c, 0, j)
  }

  /** A word is stored in the exec node, which the redirections read so far surround. */
  function AddArg(c: Cmd, arg: Span): (r: Cmd)
    ensures forall t: string :: AllTokens(t, c) && TokenSpan(t, arg) ==> AllTokens(t, r)
  {
    match c
    case Exec(argv) => Exec(argv + [arg])
    case Redir(sub, f, m, fd) => Redir(AddArg(sub, arg), f, m, fd)
    case _ => c
  }

  /** The argument loop of parseexec. */
  function ParseArgs(t: string, c: Cmd, argc: nat, i: nat): (r: Parse)
    requires i <= |t|
    ensures r.Ok? ==> i <= r.pos <= |t| && (AllTokens(t, c) ==> AllTokens(t, r.cmd))
    decreases |t| - i
  {
    if Peek(t, i, "|)&;") then Ok(c, SkipWhite(t, i))
    else
      var tok := GetToken(t, i);
      if tok.kind == NUL then Ok(c, tok.next)
      else if tok.kind != 'a' then Panic(Syntax)
      else if argc + 1 >= MAXARGS then Panic(TooManyArgs)
      else
        match ParseRedirs(t, AddArg(c, Span(tok.q, tok.eq)), tok.next)
        case Panic(w) => Panic(w)
        case Ok(c', j) => ParseArgs(t, c', argc + 1, j)
  }

  // ----- nulterminate -----

  /** NULs written at the ends of the first n words. */
  function NulSpans(s: string, argv: seq<Span>, n: nat): (r: string)
    requires n <= |argv| && forall i :: 0 <= i < |argv| ==> argv[i].eq < |s|
    ensures |r| == |s|
  {
    if n == 0 then s else NulSpans(s, argv, n - 1)[argv[n - 1].eq := NUL]
  }

  function NulAll(s: string, c: Cmd): (r: string)
    requires Ends(c, |s|)
    ensures |r| == |s|
    decreases c
  {
    match c
    case Exec(argv) => NulSpans(s, argv, |argv|)
    case Redir(sub, file, _, _) => NulAll(s, sub)[file.eq := NUL]
    case Pipe(l, r) => NulAll(NulAll(s, l), r)
    case List(l, r) => NulAll(NulAll(s, l), r)
    case Back(sub) => NulAll(s, sub)
  }

  /** Every end position lies below n. */
  predicate Ends(c: Cmd, n: nat) {
    match c
    case Exec(argv) => forall i :: 0 <= i < |argv| ==> argv[i].eq < n
    case Redir(sub, file, _, _) => Ends(sub, n) && file.eq < n
    case Pipe(l, r) => Ends(l, n) && Ends(r, n)
    case List(l, r) => Ends(l, n) && Ends(r, n)
    case Back(sub) => Ends(sub, n)
  }

  /** The span belongs to the command. */
  predicate HasSpan(c: Cmd, s: Span) {
    match c
    case Exec(argv) => s in argv
    case Redir(sub, file, _, _) => HasSpan(sub, s) || s == file
    case Pipe(l, r) => HasSpan(l, s) || HasSpan(r, s)
    case List(l, r) => HasSpan(l, s) || HasSpan(r, s)
    case Back(sub) => HasSpan(sub, s)
  }

  /** Termination changes the text only to NUL, and exactly at ends of spans. */
  lemma {:induction false} NulSpansAt(s: string, argv: seq<Span>, n: nat, k: nat)
    requires n <= |argv| && (forall i :: 0 <= i < |argv| ==> argv[i].eq < |s|) && k < |s|
    ensures NulSpans(s, argv, n)[k] == if exists i :: 0 <= i < n && argv[i].eq == k then NUL else s[k]
  {
    if n > 0 {
      NulSpansAt(s, argv, n - 1, k);
    }
  }

  lemma {:induction false} NulAllAt(s: string, c: Cmd, k: nat)
    requires Ends(c, |s|) && k < |s|
    ensures NulAll(s, c)[k] == s[k] || (NulAll(s, c)[k] == NUL && exists x :: HasSpan(c, x) && x.eq == k)
    ensures forall x :: HasSpan(c, x) && x.eq == k ==> NulAll(s, c)[k] == NUL
    decreases c
  {
    match c
    case Exec(argv) =>
      NulSpansAt(s, argv, |argv|, k);
      if i :| 0 <= i < |argv| && argv[i].eq == k {
        assert HasSpan(c, argv[i]);
      }
    case Redir(sub, file, _, _) =>
      NulAllAt(s, sub, k);
      assert HasSpan(c, file);
      if x :| HasSpan(sub, x) && x.eq == k {
        assert HasSpan(c, x);
      }
    case Pipe(l, r) =>
      NulAllAt(s, l, k);
      NulAllAt(NulAll(s, l), r, k);
      if x :| HasSpan(l, x) && x.eq == k {
        assert HasSpan(c, x);
      }
      if x :| HasSpan(r, x) && x.eq == k {
        assert HasSpan(c, x);
      }
    case List(l, r) =>
      NulAllAt(s, l, k);
      NulAllAt(NulAll(s, l), r, k);
      if x :| HasSpan(l, x) && x.eq == k {
        assert HasSpan(c, x);
      }
      if x :| HasSpan(r, x) && x.eq == k {
        assert HasSpan(c, x);
      }
    case Back(sub) =>
      NulAllAt(s, sub, k);
      if x :| HasSpan(sub, x) && x.eq == k {
        assert HasSpan(c, x);
      }
  }

  /** The C string that starts at position q. */
  function CString(s: string, q: nat): string
    requires q <= |s|
    decreases |s| - q
  {
    if q == |s| || s[q] == NUL then [] else [s[q]] + CString(s, q + 1)
  }

  lemma {:induction false} CStringIs(s: string, q: nat, e: nat)
    requires q <= e < |s| && s[e] == NUL && forall k :: q <= k < e ==> s[k] != NUL
    ensures CString(s, q) == s[q..e]
    decreases e - q
  {
    if q < e {
      CStringIs(s, q + 1, e);
      assert s[q..e] == [s[q]] + s[q + 1..e];
    }
  }

  lemma {:induction false} SpanOfTokens(t: string, c: Cmd, x: Span)
    requires AllTokens(t, c)
    ensures HasSpan(c, x) ==> TokenSpan(t, x)
    ensures Ends(c, |t| + 1)
  {
    match c
    case Exec(argv) =>
    case Redir(sub, _, _, _) => SpanOfTokens(t, sub, x);
    case Pipe(l, r) => SpanOfTokens(t, l, x); SpanOfTokens(t, r, x);
    case List(l, r) => SpanOfTokens(t, l, x); SpanOfTokens(t, r, x);
    case Back(sub) => SpanOfTokens(t, sub, x);
  }

  /** After parsing any text and terminating, every word and every file name of the command
      reads back, as a C string, as exactly the characters it had in the text. */
  lemma TerminatedReadsBack(t: string, c: Cmd, x: Span)
    requires Text(t) && ParseCmd(t) == Ok(c, |t|) && HasSpan(c, x)
    ensures TokenSpan(t, x) && Ends(c, |t| + 1)
    ensures CString(NulAll(t + [NUL], c), x.q) == t[x.q..x.eq]
  {
    SpanOfTokens(t, c, x);
    hide ParseCmd, AllTokens, Ends, HasSpan, NulAll, CString, Delim;
    var s := t + [NUL];
    var s' := NulAll(s, c);
    NulAllAt(s, c, x.eq);
    forall k | x.q <= k < x.eq ensures s'[k] == t[k] && s'[k] != NUL {
      InsideKept(t, c, x, k);
    }
    CStringIs(s', x.q, x.eq);
    assert s'[x.q..x.eq] == t[x.q..x.eq];
  }

  /** Inside a token nothing is overwritten. */
  lemma InsideKept(t: string, c: Cmd, x: Span, k: nat)
    requires Text(t) && AllTokens(t, c) && Ends(c, |t| + 1) && TokenSpan(t, x) && x.q <= k < x.eq
    ensures NulAll(t + [NUL], c)[k] == t[k] && t[k] != NUL
  {
    hide AllTokens, Ends, HasSpan, NulAll;
    NulAllAt(t + [NUL], c, k);
    forall y | HasSpan(c, y) ensures y.eq != k {
      SpanOfTokens(t, c, y);
    }
  }

  /** nulterminate, writing into the text buffer. */
  method NulTerminate(buf: array<char>, c: Cmd)
    requires Ends(c, buf.Length)
    modifies buf
    ensures buf[..] == NulAll(old(buf[..]), c)
    decreases c
  {
    match c
    case Exec(argv) =>
      var i := 0;
      while i < |argv|
        invariant 0 <= i <= |argv| && buf[..] == NulSpans(old(buf[..]), argv, i)
      {
        buf[argv[i].eq] := NUL;
        i := i + 1;
      }
    case Redir(sub, file, _, _) =>
      NulTerminate(buf, sub);
      buf[file.eq] := NUL;
    case Pipe(l, r) =>
      NulTerminate(buf, l);
      NulTerminate(buf, r);
    case List(l, r) =>
      NulTerminate(buf, l);
      NulTerminate(buf, r);
    case Back(sub) =>
      NulTerminate(buf, sub);
  }

  // ----- the scanning loops, and the parse loops with their cursor -----

  /** gettoken: returns the token character, the span, and the advanced cursor. */
  method GetTokenLoop(t: string, ps: nat) returns (kind: char, q: nat, eq: nat, next: nat)
    requires ps <= |t|
    ensures Token(kind, q, eq, next) == GetToken(t, ps)
  {
    var i := ps;
    while i < |t| && White(t[i])
      invariant ps <= i <= |t| && SkipWhite(t, i) == SkipWhite(t, ps)
    {
      i := i + 1;
    }
    q := i;
    kind := CharAt(t, i);
    if kind == NUL {
    } else if kind == '>' {
      i := i + 1;
      if CharAt(t, i) == '>' {
        kind := '+';
        i := i + 1;
      }
    } else if Symbol(kind) {
      i := i + 1;
    } else {
      kind := 'a';
      while i < |t| && !White(t[i]) && !Symbol(t[i])
        invariant q <= i <= |t| && SkipWord(t, i) == SkipWord(t, q)
      {
        i := i + 1;
      }
    }
    eq := i;
    while i < |t| && White(t[i])
      invariant eq <= i <= |t| && SkipWhite(t, i) == SkipWhite(t, eq)
    {
      i := i + 1;
    }
    next := i;
  }

  /** peek: advances the cursor over white space and tests the character there. */
  method PeekLoop(t: string, ps: nat, toks: string) returns (found: bool, next: nat)
    requires ps <= |t|
    ensures found == Peek(t, ps, toks) && next == SkipWhite(t, ps)
  {
    next := ps;
    while next < |t| && White(t[next])
      invariant ps <= next <= |t| && SkipWhite(t, next) == SkipWhite(t, ps)
    {
      next := next + 1;
    }
    found := CharAt(t, next) != NUL && CharAt(t, next) in toks;
  }

  /** White space before the cursor makes no difference. */
  lemma RedirsSkip(t: string, c: Cmd, i: nat)
    requires i <= |t|
    ensures ParseRedirs(t, c, i) == ParseRedirs(t, c, SkipWhite(t, i))
  {
    var j := SkipWhite(t, i);
    assert SkipWhite(t, j) == j;
    assert GetToken(t, i) == GetToken(t, j);
  }

  /** parseredirs. */
  method ParseRedirsLoop(t: string, c: Cmd, ps: nat) returns (r: Parse)
    requires ps <= |t|
    ensures r == ParseRedirs(t, c, ps)
  {
    var cmd, i := c, ps;
    var more;
    more, i := PeekLoop(t, i, "<>");
    RedirsSkip(t, cmd, ps);
    while more
      invariant ps <= i <= |t| && SkipWhite(t, i) == i && more == Peek(t, i, "<>")
      invariant ParseRedirs(t, cmd, i) == ParseRedirs(t, c, ps)
      decreases |t| - i
    {
      var tok, q, eq;
      tok, q, eq, i := GetTokenLoop(t, i);
      var kind;
      kind, q, eq, i := GetTokenLoop(t, i);
      if kind != 'a' {
        return Panic(MissingFile);
      }
      cmd := Redirect(cmd, tok, Span(q, eq));
      RedirsSkip(t, cmd, i);
      more, i := PeekLoop(t, i, "<>");
    }
    return Ok(cmd, i);
  }

  /** parseexec: the argument loop, with argc and the cursor as variables. */
  method ParseExecRun(t: string, ps: nat) returns (r: Parse)
    requires ps <= |t|
    ensures r == ParseExec(t, ps)
    decreases |t| - ps, 2
  {
    var paren, i := PeekLoop(t, ps, "(");
    if paren {
      r := ParseBlockRun(t, ps);
      return;
    }
    r := ParseRedirsLoop(t, Exec([]), i);
    if r.Panic? {
      return;
    }
    var argc := 0;
    while true
      invariant r.Ok? && i <= r.pos <= |t| && ParseArgs(t, r.cmd, argc, r.pos) == ParseExec(t, ps)
      decreases |t| - r.pos
    {
      var stop, at := PeekLoop(t, r.pos, "|)&;");
      if stop {
        return Ok(r.cmd, at);
      }
      var tok, q, eq, next := GetTokenLoop(t, r.pos);
      if tok == NUL {
        return Ok(r.cmd, next);
      }
      if tok != 'a' {
        return Panic(Syntax);
      }
      var cmd := AddArg(r.cmd, Span(q, eq));
      argc := argc + 1;
      if argc >= MAXARGS {
        return Panic(TooManyArgs);
      }
      r := ParseRedirsLoop(t, cmd, next);
      if r.Panic? {
        return;
      }
    }
  }

  method ParseBlockRun(t: string, ps: nat) returns (r: Parse)
    requires ps <= |t| && Peek(t, ps, "(")
    ensures r == ParseBlock(t, ps)
    decreases |t| - ps, 1
  {
    var tok, q, eq, i := GetTokenLoop(t, ps);
    r := ParseLineRun(t, i);
    if r.Panic? {
      return;
    }
    var closed, at := PeekLoop(t, r.pos, ")");
    if !closed {
      return Panic(MissingParen);
    }
    tok, q, eq, i := GetTokenLoop(t, r.pos);
    r := ParseRedirsLoop(t, r.cmd, i);
  }

  method ParsePipeRun(t: string, ps: nat) returns (r: Parse)
    requires ps <= |t|
    ensures r == ParsePipe(t, ps)
    decreases |t| - ps, 3
  {
    r := ParseExecRun(t, ps);
    if r.Panic? {
      return;
    }
    var bar, at := PeekLoop(t, r.pos, "|");
    if !bar {
      return Ok(r.cmd, at);
    }
    var tok, q, eq, i := GetTokenLoop(t, r.pos);
    var right := ParsePipeRun(t, i);
    r := if right.Panic? then right else Ok(Pipe(r.cmd, right.cmd), right.pos);
  }

  method ParseLineRun(t: string, ps: nat) returns (r: Parse)
    requires ps <= |t|
    ensures r == ParseLine(t, ps)
    decreases |t| - ps, 4
  {
    r := ParsePipeRun(t, ps);
    if r.Panic? {
      return;
    }
    var cmd, i := r.cmd, r.pos;
    var amp, at := PeekLoop(t, i, "&");
    while amp
      invariant ps <= i <= |t| && amp == Peek(t, i, "&") && at == SkipWhite(t, i)
      invariant ParseBacks(t, cmd, i) == ParseBacks(t, r.cmd, r.pos)
      decreases |t| - i
    {
      var tok, q, eq;
      tok, q, eq, i := GetTokenLoop(t, i);
      cmd := Back(cmd);
      amp, at := PeekLoop(t, i, "&");
    }
    var semi;
    semi, i := PeekLoop(t, at, ";");
    if !semi {
      return Ok(cmd, i);
    }
    var tok, q, eq, next := GetTokenLoop(t, i);
    var right := ParseLineRun(t, next);
    r := if right.Panic? then right else Ok(List(cmd, right.cmd), right.pos);
  }

  /** parsecmd: parse, check that nothing is left over, terminate the words in place. */
  method ParseCmdRun(buf: array<char>) returns (r: Parse)
    requires 0 < buf.Length && buf[buf.Length - 1] == NUL && Text(buf[..buf.Length - 1])
    modifies buf
    ensures r == ParseCmd(old(buf[..buf.Length - 1]))
    ensures r.Ok? ==> Ends(r.cmd, buf.Length) && buf[..] == NulAll(old(buf[..]), r.cmd)
    ensures r.Panic? ==> buf[..] == old(buf[..])
  {
    var t := buf[..buf.Length - 1];
    r := ParseLineRun(t, 0);
    if r.Panic? {
      return;
    }
    var found, i := PeekLoop(t, r.pos, "");
    if i != |t| {
      return Panic(Leftovers);
    }
    SpanOfTokens(t, r.cmd, Span(0, 0));
    NulTerminate(buf, r.cmd);
    r := Ok(r.cmd, i);
  }
}
