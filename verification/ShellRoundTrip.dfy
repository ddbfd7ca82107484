/** Printing a command tree and parsing the text gives the tree back. */
module ShellRoundTrip {
  import opened ShellParser

  /** A command tree with its words spelled out. */
  datatype Tree =
    | TExec(words: seq<string>)
    | TRedir(sub: Tree, file: string, mode: Mode)
    | TPipe(left: Tree, right: Tree)
    | TList(left: Tree, right: Tree)
    | TBack(sub: Tree)

  predicate GoodWord(w: string) {
    w != [] && forall i :: 0 <= i < |w| ==> w[i] !in " \t\r\n\U{B}" && w[i] !in "<|>&;()" && w[i] != '\0'
  }

  /** At most nine words a command; words and file names free of white space and symbols. */
  predicate Good(c: Tree) {
    match c
    case TExec(ws) => |ws| <= 9 && forall i :: 0 <= i < |ws| ==> GoodWord(ws[i])
    case TRedir(sub, f, _) => Good(sub) && GoodWord(f)
    case TPipe(l, r) => Good(l) && Good(r)
    case TList(l, r) => Good(l) && Good(r)
    case TBack(sub) => Good(sub)
  }

  // ----- canonical text -----

  datatype Tok = Word(w: string) | Sym(c: char)

  predicate GoodTok(k: Tok) {
    match k case Word(w) => GoodWord(w) case Sym(c) => Symbol(c)
  }

  function TokText(k: Tok): string {
    match k case Word(w) => w case Sym(c) => [c]
  }

  /** Every token followed by one blank. */
  function Render(ks: seq<Tok>): string {
    if ks == [] then [] else TokText(ks[0]) + [' '] + Render(ks[1..])
  }

  function WordToks(ws: seq<string>): (r: seq<Tok>)
    ensures |r| == |ws| && forall i :: 0 <= i < |ws| ==> r[i] == Word(ws[i])
  {
    seq(|ws|, i requires 0 <= i < |ws| => Word(ws[i]))
  }

  function Op(m: Mode): Tok {
    if m == ReadOnly then Sym('<') else Sym('>')
  }

  /** A pipeline, list or background command without parentheses around it. */
  function Body(c: Tree): seq<Tok>
    requires c.TPipe? || c.TList? || c.TBack?
    decreases c, 0
  {
    match c
    case TPipe(l, r) => ExecToks(l) + [Sym('|')] + PipeToks(r)
    case TList(l, r) => BackToks(l) + [Sym(';')] + LineToks(r)
    case TBack(sub) => BackToks(sub) + [Sym('&')]
  }

  /** Where parseexec reads: anything but a simple command goes into parentheses. */
  function ExecToks(c: Tree): seq<Tok>
    decreases c, 1
  {
    match c
    case TExec(ws) => WordToks(ws)
    case TRedir(sub, f, m) => ExecToks(sub) + [Op(m), Word(f)]
    case _ => [Sym('(')] + Body(c) + [Sym(')')]
  }

  function PipeToks(c: Tree): seq<Tok>
    decreases c, 2
  {
    if c.TPipe? then Body(c) else ExecToks(c)
  }

  function BackToks(c: Tree): seq<Tok>
    decreases c, 2
  {
    if c.TPipe? || c.TBack? then Body(c) else ExecToks(c)
  }

  function LineToks(c: Tree): seq<Tok>
    decreases c, 2
  {
    if c.TPipe? || c.TList? || c.TBack? then Body(c) else ExecToks(c)
  }

  /** The text of a command line. */
  function Print(c: Tree): string {
    Render(LineToks(c))
  }

  // ----- reading the parser's result -----

  function Spell(t: string, s: Span): string {
    if s.q <= s.eq <= |t| then t[s.q..s.eq] else []
  }

  function Spells(t: string, argv: seq<Span>): seq<string> {
    seq(|argv|, i requires 0 <= i < |argv| => Spell(t, argv[i]))
  }

  /** The tree that a parsed command denotes: redirections must carry the descriptor and mode
      that go together. */
  predicate Denotes(t: string, c: Cmd, tree: Tree) {
    match tree
    case TExec(ws) => c.Exec? && Spells(t, c.argv) == ws
    case TRedir(sub, f, m) =>
      c.Redir? && Denotes(t, c.sub, sub) && Spell(t, c.file) == f && c.mode == m && c.fd == (if m == ReadOnly then 0 else 1)
    case TPipe(l, r) => c.Pipe? && Denotes(t, c.left, l) && Denotes(t, c.right, r)
    case TList(l, r) => c.List? && Denotes(t, c.left, l) && Denotes(t, c.right, r)
    case TBack(sub) => c.Back? && Denotes(t, c.sub, sub)
  }

  // ----- tokens under the cursor -----

  ghost predicate GoodToks(ks: seq<Tok>) {
    forall i :: 0 <= i < |ks| ==> GoodTok(ks[i])
  }

  /** White space from i up to j. */
  ghost predicate Blanks(t: string, i: nat, j: nat) {
    i <= j <= |t| && forall k :: i <= k < j ==> t[k] in " \t\r\n\U{B}"
  }

  /** Token k stands at i, then white space up to j. A word goes on to the next delimiter; a ">"
      is not followed by another one. */
  ghost predicate TokAt(t: string, i: nat, k: Tok, j: nat) {
    var e := i + |TokText(k)|;
    && GoodTok(k) && Blanks(t, e, j) && t[i..e] == TokText(k)
    && (e < |t| && k.Word? ==> t[e] in " \t\r\n\U{B}" || t[e] in "<|>&;()")
    && (e < |t| && k == Sym('>') ==> t[e] != '>')
  }

  /** From i on the text spells these tokens, with any white space after each. */
  ghost predicate Laid(t: string, i: nat, ks: seq<Tok>)
    decreases |ks|
  {
    if ks == [] then i == |t| else exists j: nat :: TokAt(t, i, ks[0], j) && Laid(t, j, ks[1..])
  }

  /** The cursor stands at the first of exactly these tokens, or at the end. */
  ghost predicate AtToks(t: string, i: nat, ks: seq<Tok>) {
    i <= |t| && Laid(t, i, ks)
  }

  /** The first character of a token. */
  function Head(k: Tok): char
    requires GoodTok(k)
  {
    match k case Word(w) => w[0] case Sym(c) => c
  }

  function Kind(k: Tok): char {
    match k case Word(_) => 'a' case Sym(c) => c
  }

  lemma CursorAt(t: string, i: nat, ks: seq<Tok>)
    requires AtToks(t, i, ks)
    ensures SkipWhite(t, i) == i
    ensures ks == [] ==> i == |t|
    ensures ks != [] ==> GoodTok(ks[0]) && i < |t| && t[i] == Head(ks[0]) && t[i] != NUL
  {
    if ks != [] {
      assert GoodTok(ks[0]) && t[i..i + |TokText(ks[0])|][0] == t[i];
    }
  }

  lemma {:induction false} Skips(t: string, i: nat, j: nat)
    requires Blanks(t, i, j) && SkipWhite(t, j) == j
    ensures SkipWhite(t, i) == j
    decreases j - i
  {
    if i < j {
      Skips(t, i + 1, j);
    }
  }

  lemma LaidFirst(t: string, i: nat, ks: seq<Tok>) returns (j: nat)
    requires AtToks(t, i, ks) && ks != []
    ensures TokAt(t, i, ks[0], j) && AtToks(t, j, ks[1..])
  {
    j :| TokAt(t, i, ks[0], j) && Laid(t, j, ks[1..]);
  }

  /** The first token, the white space after it, and the rest. */
  lemma SplitsToken(t: string, i: nat, ks: seq<Tok>) returns (j: nat)
    requires AtToks(t, i, ks) && ks != []
    ensures TokAt(t, i, ks[0], j) && AtToks(t, j, ks[1..]) && SkipWhite(t, i + |TokText(ks[0])|) == j
  {
    hide Laid;
    j := LaidFirst(t, i, ks);
    CursorAt(t, j, ks[1..]);
    Skips(t, i + |TokText(ks[0])|, j);
  }

  lemma TakesWord(t: string, i: nat, k: Tok, j: nat)
    requires TokAt(t, i, k, j) && k.Word? && SkipWhite(t, i) == i && SkipWhite(t, i + |TokText(k)|) == j
    ensures GetToken(t, i) == Token('a', i, i + |TokText(k)|, j)
  {
    hide SkipWhite, SkipWord;
    var e := i + |TokText(k)|;
    forall n | i <= n < e ensures !Delim(t[n]) {
      assert t[n] == t[i..e][n - i];
    }
    WordEnds(t, i, e);
    assert t[i] == t[i..e][0];
  }

  lemma TakesSymbol(t: string, i: nat, k: Tok, j: nat)
    requires TokAt(t, i, k, j) && k.Sym? && SkipWhite(t, i) == i && SkipWhite(t, i + 1) == j
    ensures GetToken(t, i) == Token(k.c, i, i + 1, j)
  {
    hide SkipWhite, SkipWord, Blanks;
    assert t[i] == t[i..i + 1][0];
  }

  /** gettoken takes exactly the first token and leaves the cursor at the next. */
  lemma TakesToken(t: string, i: nat, ks: seq<Tok>)
    requires AtToks(t, i, ks) && ks != []
    ensures var r := GetToken(t, i);
      && r.kind == Kind(ks[0]) && Spell(t, Span(r.q, r.eq)) == TokText(ks[0])
      && AtToks(t, r.next, ks[1..]) && i < r.next
  {
    hide Laid, SkipWhite, SkipWord, GetToken;
    CursorAt(t, i, ks);
    var j := SplitsToken(t, i, ks);
    if ks[0].Word? {
      TakesWord(t, i, ks[0], j);
    } else {
      TakesSymbol(t, i, ks[0], j);
    }
  }

  lemma {:induction false} WordEnds(t: string, i: nat, e: nat)
    requires i <= e <= |t| && (e < |t| ==> Delim(t[e])) && forall j :: i <= j < e ==> !Delim(t[j])
    ensures SkipWord(t, i) == e
    decreases e - i
  {
    if i < e {
      WordEnds(t, i + 1, e);
    }
  }

  /** The first token, if any, starts with none of these characters. */
  ghost predicate HeadNotIn(ks: seq<Tok>, set0: string) {
    ks != [] && GoodTok(ks[0]) ==> Head(ks[0]) !in set0
  }

  lemma Peeks(t: string, i: nat, ks: seq<Tok>, toks: string)
    requires AtToks(t, i, ks)
    ensures Peek(t, i, toks) <==> ks != [] && Head(ks[0]) in toks
  {
    CursorAt(t, i, ks);
  }

  // ----- parsing what was printed -----

  predicate Simple(c: Tree) {
    match c case TExec(_) => true case TRedir(sub, _, _) => Simple(sub) case _ => false
  }

  /** Number of words of a simple command. */
  function Argc(c: Tree): nat {
    match c case TExec(ws) => |ws| case TRedir(sub, _, _) => Argc(sub) case _ => 0
  }

  /** parseexec between arguments: redirections, then the argument loop. */
  function After(t: string, c: Cmd, argc: nat, i: nat): Parse
    requires i <= |t|
  {
    match ParseRedirs(t, c, i)
    case Panic(w) => Panic(w)
    case Ok(c', j) => ParseArgs(t, c', argc, j)
  }

  lemma RedirsStop(t: string, c: Cmd, i: nat, ks: seq<Tok>)
    requires AtToks(t, i, ks) && HeadNotIn(ks, "<>")
    ensures ParseRedirs(t, c, i) == Ok(c, i)
  {
    hide Laid;
    CursorAt(t, i, ks);
    Peeks(t, i, ks, "<>");
    assert ks != [] ==> GoodTok(ks[0]);
  }

  /** One redirection in front of the cursor is absorbed. */
  lemma RedirsStep(t: string, c: Cmd, i: nat, m: Mode, f: string, ks: seq<Tok>) returns (c': Cmd, j: nat)
    requires AtToks(t, i, [Op(m), Word(f)] + ks)
    ensures AtToks(t, j, ks) && ParseRedirs(t, c, i) == ParseRedirs(t, c', j)
    ensures c'.Redir? && c'.sub == c && Spell(t, c'.file) == f && c'.mode == m && c'.fd == (if m == ReadOnly then 0 else 1)
  {
    hide Laid, GetToken;
    var all := [Op(m), Word(f)] + ks;
    CursorAt(t, i, all);
    Peeks(t, i, all, "<>");
    TakesToken(t, i, all);
    var op := GetToken(t, i);
    assert all[1..] == [Word(f)] + ks;
    TakesToken(t, op.next, all[1..]);
    var file := GetToken(t, op.next);
    assert all[1..][1..] == ks;
    c' := Redirect(c, op.kind, Span(file.q, file.eq));
    j := file.next;
  }

  /** The argument loop takes one word. */
  lemma WordStep(t: string, c: Cmd, i: nat, w: string, k: nat, ks: seq<Tok>) returns (c': Cmd, j: nat)
    requires c.Exec? && AtToks(t, i, [Word(w)] + ks)
    ensures AtToks(t, j, ks) && c'.Exec? && Spells(t, c'.argv) == Spells(t, c.argv) + [w]
    ensures After(t, c, k, i) == if k + 1 < 10 then After(t, c', k + 1, j) else Panic(TooManyArgs)
  {
    hide Laid, GetToken;
    var all := [Word(w)] + ks;
    CursorAt(t, i, all);
    assert all[1..] == ks && !Delim(Head(all[0]));
    RedirsStop(t, c, i, all);
    Peeks(t, i, all, "|)&;");
    TakesToken(t, i, all);
    var tok := GetToken(t, i);
    c', j := AddArg(c, Span(tok.q, tok.eq)), tok.next;
  }

  /** The words of a simple command, from the k-th on. */
  lemma {:induction false} WordSteps(t: string, c: Cmd, i: nat, ws: seq<string>, k: nat, ks: seq<Tok>) returns (c': Cmd, j: nat)
    requires k <= |ws| <= 9 && c.Exec? && Spells(t, c.argv) == ws[..k]
    requires AtToks(t, i, WordToks(ws[k..]) + ks)
    ensures AtToks(t, j, ks) && c'.Exec? && Spells(t, c'.argv) == ws
    ensures After(t, c, k, i) == After(t, c', |ws|, j)
    decreases |ws| - k
  {
    hide Laid, After;
    if k == |ws| {
      assert WordToks(ws[k..]) + ks == ks;
      assert ws[..k] == ws;
      c', j := c, i;
    } else {
      assert WordToks(ws[k..]) + ks == [Word(ws[k])] + (WordToks(ws[k + 1..]) + ks);
      var c1, j1 := WordStep(t, c, i, ws[k], k, WordToks(ws[k + 1..]) + ks);
      assert ws[..k] + [ws[k]] == ws[..k + 1];
      c', j := WordSteps(t, c1, j1, ws, k + 1, ks);
    }
  }

  /** The tenth word is one too many. */
  lemma {:induction false} TenthWord(t: string, c: Cmd, i: nat, ws: seq<string>, k: nat, ks: seq<Tok>)
    requires k < 10 <= |ws| && c.Exec? && AtToks(t, i, WordToks(ws[k..]) + ks)
    ensures After(t, c, k, i) == Panic(TooManyArgs)
    decreases 10 - k
  {
    hide Laid, After;
    assert WordToks(ws[k..]) + ks == [Word(ws[k])] + (WordToks(ws[k + 1..]) + ks);
    var c1, j1 := WordStep(t, c, i, ws[k], k, WordToks(ws[k + 1..]) + ks);
    if k < 9 {
      TenthWord(t, c1, j1, ws, k + 1, ks);
    }
  }

  /** A simple command is read up to the token after it. */
  lemma {:induction false} SimpleSteps(t: string, i: nat, c: Tree, ks: seq<Tok>) returns (c': Cmd, j: nat)
    requires Good(c) && Simple(c) && AtToks(t, i, ExecToks(c) + ks)
    ensures AtToks(t, j, ks) && Denotes(t, c', c) && After(t, Exec([]), 0, i) == After(t, c', Argc(c), j)
    decreases c
  {
    hide Laid, GetToken, After, ParseArgs;
    match c
    case TExec(ws) =>
      assert ws[..0] == [] && ws[0..] == ws;
      c', j := WordSteps(t, Exec([]), i, ws, 0, ks);
    case TRedir(sub, f, m) =>
      assert ExecToks(c) + ks == ExecToks(sub) + ([Op(m), Word(f)] + ks);
      var c0, j0 := SimpleSteps(t, i, sub, [Op(m), Word(f)] + ks);
      c', j := RedirsStep(t, c0, j0, m, f, ks);
      AfterSame(t, c0, j0, c', j, Argc(c));
  }

  lemma AfterSame(t: string, c: Cmd, i: nat, c': Cmd, j: nat, argc: nat)
    requires i <= |t| && j <= |t| && ParseRedirs(t, c, i) == ParseRedirs(t, c', j)
    ensures After(t, c, argc, i) == After(t, c', argc, j)
  {
  }

  ghost predicate StopsExec(ks: seq<Tok>) {
    ks == [] || ks[0] in [Sym(')'), Sym('&'), Sym(';'), Sym('|')]
  }

  ghost predicate StopsPipe(ks: seq<Tok>) {
    ks == [] || ks[0] in [Sym(')'), Sym('&'), Sym(';')]
  }

  ghost predicate StopsBack(ks: seq<Tok>) {
    ks == [] || ks[0] in [Sym(')'), Sym(';')]
  }

  ghost predicate StopsLine(ks: seq<Tok>) {
    ks == [] || ks[0] == Sym(')')
  }

  lemma SimpleStops(t: string, c: Cmd, argc: nat, i: nat, ks: seq<Tok>)
    requires AtToks(t, i, ks) && StopsExec(ks)
    ensures After(t, c, argc, i) == Ok(c, i)
  {
    hide Laid;
    RedirsStop(t, c, i, ks);
    CursorAt(t, i, ks);
    Peeks(t, i, ks, "|)&;");
  }

  lemma {:induction false} ExecParses(t: string, i: nat, c: Tree, ks: seq<Tok>) returns (c': Cmd, j: nat)
    requires Good(c) && StopsExec(ks) && AtToks(t, i, ExecToks(c) + ks)
    ensures ParseExec(t, i) == Ok(c', j) && Denotes(t, c', c) && AtToks(t, j, ks)
    decreases c, 3
  {
    hide Laid, GetToken, After, ParseArgs, ParseRedirs, ParseBlock, ParseLine;
    if Simple(c) {
      c', j := SimpleSteps(t, i, c, ks);
      SimpleStops(t, c', Argc(c), j, ks);
      NoParen(t, i, c, ks);
      SimpleEnters(t, i, c, ks);
    } else {
      c', j := BlockSteps(t, i, c, ks);
      RedirsStop(t, c', j, ks);
    }
  }

  /** A simple command, followed by something that ends it, does not begin with "(". */
  lemma {:induction false} FirstTok(c: Tree, ks: seq<Tok>)
    requires Good(c) && Simple(c)
    ensures var all := ExecToks(c) + ks; all == ks || (all != [] && all[0] != Sym('('))
    ensures var all := ExecToks(c) + ks; all != ks ==> all[0].Word? || all[0] == Sym('<') || all[0] == Sym('>')
  {
    match c
    case TExec(ws) =>
      assert ws == [] ==> ExecToks(c) + ks == ks;
    case TRedir(sub, f, m) =>
      FirstTok(sub, [Op(m), Word(f)] + ks);
      assert ExecToks(c) + ks == ExecToks(sub) + ([Op(m), Word(f)] + ks);
  }

  lemma NoParen(t: string, i: nat, c: Tree, ks: seq<Tok>)
    requires Good(c) && Simple(c) && StopsExec(ks) && AtToks(t, i, ExecToks(c) + ks)
    ensures !Peek(t, i, "(")
  {
    hide Laid, ExecToks;
    FirstTok(c, ks);
    var all := ExecToks(c) + ks;
    CursorAt(t, i, all);
    Peeks(t, i, all, "(");
  }

  lemma SimpleEnters(t: string, i: nat, c: Tree, ks: seq<Tok>)
    requires AtToks(t, i, ExecToks(c) + ks) && !Peek(t, i, "(")
    ensures ParseExec(t, i) == After(t, Exec([]), 0, i)
  {
    hide Laid;
    CursorAt(t, i, ExecToks(c) + ks);
  }

  /** A parenthesised command with redirections is read up to the token after it. */
  lemma {:induction false} BlockSteps(t: string, i: nat, c: Tree, ks: seq<Tok>) returns (c': Cmd, j: nat)
    requires Good(c) && !Simple(c) && AtToks(t, i, ExecToks(c) + ks)
    ensures AtToks(t, j, ks) && Denotes(t, c', c) && ParseExec(t, i) == ParseRedirs(t, c', j)
    decreases c, 2
  {
    hide Laid, GetToken, ParseRedirs, ParseLine, Body;
    if c.TRedir? {
      assert ExecToks(c) + ks == ExecToks(c.sub) + ([Op(c.mode), Word(c.file)] + ks);
      var c0, j0 := BlockSteps(t, i, c.sub, [Op(c.mode), Word(c.file)] + ks);
      c', j := RedirsStep(t, c0, j0, c.mode, c.file, ks);
    } else {
      var all := ExecToks(c) + ks;
      assert all == [Sym('(')] + (LineToks(c) + ([Sym(')')] + ks));
      Peeks(t, i, all, "(");
      TakesToken(t, i, all);
      var i1 := GetToken(t, i).next;
      assert all[1..] == LineToks(c) + ([Sym(')')] + ks);
      var j1;
      c', j1 := BodyParses(t, i1, c, [Sym(')')] + ks);
      Peeks(t, j1, [Sym(')')] + ks, ")");
      TakesToken(t, j1, [Sym(')')] + ks);
      assert ([Sym(')')] + ks)[1..] == ks;
      j := GetToken(t, j1).next;
    }
  }

  /** A compound command without its parentheses is read as a line. */
  lemma {:induction false} BodyParses(t: string, i: nat, c: Tree, ks: seq<Tok>) returns (c': Cmd, j: nat)
    requires Good(c) && (c.TPipe? || c.TList? || c.TBack?) && StopsLine(ks) && AtToks(t, i, Body(c) + ks)
    ensures ParseLine(t, i) == Ok(c', j) && Denotes(t, c', c) && AtToks(t, j, ks)
    decreases c, 1
  {
    hide Laid, GetToken, ParseLine, ParsePipe, ParseBacks, Body;
    match c
    case TPipe(_, _) =>
      c', j := PipeBody(t, i, c, ks);
      LineWrap(t, i, c', j, c', j, ks);
    case TBack(_) =>
      var p, j0;
      p, j0, c', j := BackBody(t, i, c, ks);
      LineWrap(t, i, p, j0, c', j, ks);
    case TList(_, _) =>
      c', j := ListBody(t, i, c, ks);
  }

  /** parseline when no ";" follows. */
  lemma LineWrap(t: string, i: nat, p: Cmd, j0: nat, c': Cmd, j: nat, ks: seq<Tok>)
    requires i <= |t| && ParsePipe(t, i) == Ok(p, j0) && AtToks(t, j, ks) && StopsLine(ks)
    requires ParseBacks(t, p, j0) == ParseBacks(t, c', j)
    ensures ParseLine(t, i) == Ok(c', j)
  {
    hide Laid, GetToken, ParsePipe;
    BacksStop(t, c', j, ks);
    CursorAt(t, j, ks);
    Peeks(t, j, ks, ";");
  }

  lemma BacksStop(t: string, c: Cmd, j: nat, ks: seq<Tok>)
    requires AtToks(t, j, ks) && StopsBack(ks)
    ensures ParseBacks(t, c, j) == Ok(c, j)
  {
    hide Laid, GetToken;
    CursorAt(t, j, ks);
    Peeks(t, j, ks, "&");
  }

  lemma {:induction false} PipeBody(t: string, i: nat, c: Tree, ks: seq<Tok>) returns (c': Cmd, j: nat)
    requires Good(c) && c.TPipe? && StopsPipe(ks) && AtToks(t, i, Body(c) + ks)
    ensures ParsePipe(t, i) == Ok(c', j) && Denotes(t, c', c) && AtToks(t, j, ks)
    decreases c, 0
  {
    hide Laid, GetToken, ParseExec, ExecToks, PipeToks;
    var rest := [Sym('|')] + (PipeToks(c.right) + ks);
    assert Body(c) + ks == ExecToks(c.left) + rest;
    var l, j0 := ExecParses(t, i, c.left, rest);
    Peeks(t, j0, rest, "|");
    TakesToken(t, j0, rest);
    assert rest[1..] == PipeToks(c.right) + ks;
    var r;
    r, j := PipeParses(t, GetToken(t, j0).next, c.right, ks);
    c' := Pipe(l, r);
  }

  lemma {:induction false} PipeParses(t: string, i: nat, c: Tree, ks: seq<Tok>) returns (c': Cmd, j: nat)
    requires Good(c) && StopsPipe(ks) && AtToks(t, i, PipeToks(c) + ks)
    ensures ParsePipe(t, i) == Ok(c', j) && Denotes(t, c', c) && AtToks(t, j, ks)
    decreases c, 4
  {
    hide Laid, GetToken, ParseExec, Body, ExecToks;
    if c.TPipe? {
      c', j := PipeBody(t, i, c, ks);
    } else {
      c', j := ExecParses(t, i, c, ks);
      CursorAt(t, j, ks);
      Peeks(t, j, ks, "|");
    }
  }

  lemma {:induction false} BackBody(t: string, i: nat, c: Tree, ks: seq<Tok>) returns (p: Cmd, j0: nat, c': Cmd, j: nat)
    requires Good(c) && c.TBack? && StopsPipe(ks) && AtToks(t, i, Body(c) + ks)
    ensures ParsePipe(t, i) == Ok(p, j0) && j0 <= |t| && AtToks(t, j, ks)
    ensures ParseBacks(t, p, j0) == ParseBacks(t, c', j) && Denotes(t, c', c)
    decreases c, 0
  {
    hide Laid, GetToken, ParsePipe, BackToks;
    var rest := [Sym('&')] + ks;
    assert Body(c) + ks == BackToks(c.sub) + rest;
    var s, j1;
    p, j0, s, j1 := BackSteps(t, i, c.sub, rest);
    Peeks(t, j1, rest, "&");
    TakesToken(t, j1, rest);
    assert rest[1..] == ks;
    c', j := Back(s), GetToken(t, j1).next;
  }

  /** parsepipe and the "&" loop take in a command that may run in the background. */
  lemma {:induction false} BackSteps(t: string, i: nat, c: Tree, ks: seq<Tok>) returns (p: Cmd, j0: nat, c': Cmd, j: nat)
    requires Good(c) && StopsPipe(ks) && AtToks(t, i, BackToks(c) + ks)
    ensures ParsePipe(t, i) == Ok(p, j0) && j0 <= |t| && AtToks(t, j, ks)
    ensures ParseBacks(t, p, j0) == ParseBacks(t, c', j) && Denotes(t, c', c)
    decreases c, 5
  {
    hide Laid, ParsePipe, ParseBacks, Body, ExecToks;
    if c.TBack? {
      p, j0, c', j := BackBody(t, i, c, ks);
    } else {
      c', j := PipeParses(t, i, c, ks);
      p, j0 := c', j;
    }
  }

  lemma {:induction false} ListBody(t: string, i: nat, c: Tree, ks: seq<Tok>) returns (c': Cmd, j: nat)
    requires Good(c) && c.TList? && StopsLine(ks) && AtToks(t, i, Body(c) + ks)
    ensures ParseLine(t, i) == Ok(c', j) && Denotes(t, c', c) && AtToks(t, j, ks)
    decreases c, 0
  {
    hide Laid, GetToken, ParsePipe, BackToks, LineToks, ParseBacks;
    var rest := [Sym(';')] + (LineToks(c.right) + ks);
    assert Body(c) + ks == BackToks(c.left) + rest;
    var p, j0, l, j1 := BackSteps(t, i, c.left, rest);
    BacksStop(t, l, j1, rest);
    Peeks(t, j1, rest, ";");
    TakesToken(t, j1, rest);
    assert rest[1..] == LineToks(c.right) + ks;
    var r;
    r, j := LineParses(t, GetToken(t, j1).next, c.right, ks);
    c' := List(l, r);
  }

  lemma {:induction false} LineParses(t: string, i: nat, c: Tree, ks: seq<Tok>) returns (c': Cmd, j: nat)
    requires Good(c) && StopsLine(ks) && AtToks(t, i, LineToks(c) + ks)
    ensures ParseLine(t, i) == Ok(c', j) && Denotes(t, c', c) && AtToks(t, j, ks)
    decreases c, 6
  {
    hide Laid, ParseLine, ParsePipe, ParseBacks, Body, ExecToks;
    if c.TList? {
      c', j := ListBody(t, i, c, ks);
    } else {
      assert LineToks(c) == BackToks(c);
      var p, j0;
      p, j0, c', j := BackSteps(t, i, c, ks);
      LineWrap(t, i, p, j0, c', j, ks);
    }
  }

  // ----- the round trip -----

  /** Good tokens around a separator. */
  lemma GoodAround(a: seq<Tok>, k: Tok, b: seq<Tok>)
    requires GoodToks(a) && GoodTok(k) && GoodToks(b)
    ensures GoodToks(a + [k] + b) && GoodToks(a + [k])
  {
  }

  lemma GoodLeaf(c: Tree)
    requires Good(c) && !c.TPipe? && !c.TList? && !c.TBack?
    requires c.TRedir? ==> GoodToks(ExecToks(c.sub))
    ensures GoodToks(ExecToks(c))
  {
  }

  lemma {:induction false} GoodLineToks(c: Tree)
    requires Good(c)
    ensures GoodToks(ExecToks(c)) && GoodToks(PipeToks(c)) && GoodToks(BackToks(c)) && GoodToks(LineToks(c))
    ensures c.TPipe? || c.TList? || c.TBack? ==> GoodToks(Body(c))
  {
    hide GoodToks, GoodWord;
    match c
    case TExec(ws) => GoodLeaf(c);
    case TRedir(sub, f, m) => GoodLineToks(sub); GoodLeaf(c);
    case TPipe(l, r) =>
      GoodLineToks(l);
      GoodLineToks(r);
      GoodAround(ExecToks(l), Sym('|'), PipeToks(r));
      Parenthesised(Body(c));
    case TList(l, r) =>
      GoodLineToks(l);
      GoodLineToks(r);
      GoodAround(BackToks(l), Sym(';'), LineToks(r));
      Parenthesised(Body(c));
    case TBack(sub) =>
      GoodLineToks(sub);
      GoodAround(BackToks(sub), Sym('&'), BackToks(sub));
      Parenthesised(Body(c));
  }

  lemma Parenthesised(ks: seq<Tok>)
    requires GoodToks(ks)
    ensures GoodToks([Sym('(')] + ks + [Sym(')')])
  {
  }

  /** White space in front of a line changes nothing. */
  lemma LeadingBlanks(t: string, i: nat, j: nat)
    requires i <= |t| && SkipWhite(t, i) == j
    ensures ParseLine(t, i) == ParseLine(t, j)
  {
    hide ParseRedirs, ParseArgs, ParseBacks;
    assert SkipWhite(t, j) == j && GetToken(t, i) == GetToken(t, j);
    assert ParseExec(t, i) == ParseExec(t, j);
    assert ParsePipe(t, i) == ParsePipe(t, j);
  }

  /** For every well-formed tree and every way to lay out its tokens with white space, the parser
      accepts the text to the last character and returns that very tree. */
  lemma ParseLaid(t: string, i: nat, c: Tree)
    requires Good(c) && Blanks(t, 0, i) && AtToks(t, i, LineToks(c))
    ensures ParseCmd(t).Ok? && Denotes(t, ParseCmd(t).cmd, c)
  {
    hide Laid, LineToks, ParseLine, Denotes;
    assert LineToks(c) + [] == LineToks(c);
    CursorAt(t, i, LineToks(c));
    Skips(t, 0, i);
    LeadingBlanks(t, 0, i);
    var c', j := LineParses(t, i, c, []);
    CursorAt(t, j, []);
  }

  /** A command of ten words or more is refused, whatever follows. */
  lemma TenWordsRefused(t: string, i: nat, ws: seq<string>, ks: seq<Tok>)
    requires Blanks(t, 0, i) && AtToks(t, i, WordToks(ws) + ks) && 10 <= |ws|
    ensures ParseCmd(t) == Panic(TooManyArgs)
  {
    hide Laid, ParseRedirs, ParseArgs;
    var all := WordToks(ws) + ks;
    CursorAt(t, i, all);
    Skips(t, 0, i);
    LeadingBlanks(t, 0, i);
    Peeks(t, i, all, "(");
    assert all[0].Word? && !Delim(Head(all[0])) && ws[0..] == ws;
    TenthWord(t, Exec([]), i, ws, 0, ks);
    assert ParseExec(t, i) == After(t, Exec([]), 0, i);
  }

  // ----- what is refused -----

  /** A whole line followed by a closing parenthesis leaves something over. */
  lemma LeftOver(t: string, i: nat, c: Tree, ks: seq<Tok>)
    requires Good(c) && Blanks(t, 0, i) && AtToks(t, i, LineToks(c) + ([Sym(')')] + ks))
    ensures ParseCmd(t) == Panic(Leftovers)
  {
    hide Laid, LineToks, ParseLine, Denotes;
    var all := LineToks(c) + ([Sym(')')] + ks);
    CursorAt(t, i, all);
    Skips(t, 0, i);
    LeadingBlanks(t, 0, i);
    var c', j := LineParses(t, i, c, [Sym(')')] + ks);
    CursorAt(t, j, [Sym(')')] + ks);
  }

  /** An opening parenthesis without its closing one. */
  lemma NotClosed(t: string, i: nat, c: Tree)
    requires Good(c) && Blanks(t, 0, i) && AtToks(t, i, [Sym('(')] + LineToks(c))
    ensures ParseCmd(t) == Panic(MissingParen)
  {
    hide Laid, LineToks, GetToken, ParseRedirs, ParseArgs;
    var all := [Sym('(')] + LineToks(c);
    CursorAt(t, i, all);
    Skips(t, 0, i);
    LeadingBlanks(t, 0, i);
    Peeks(t, i, all, "(");
    TakesToken(t, i, all);
    assert all[1..] == LineToks(c) + [];
    var i1 := GetToken(t, i).next;
    var c', j := LineParses(t, i1, c, []);
    CursorAt(t, j, []);
    BlockNotClosed(t, i, i1, c', j);
  }

  lemma BlockNotClosed(t: string, i: nat, i1: nat, c: Cmd, j: nat)
    requires i <= |t| && Peek(t, i, "(") && GetToken(t, i).next == i1 && ParseLine(t, i1) == Ok(c, j) && j == |t|
    ensures ParseLine(t, i) == Panic(MissingParen)
  {
    hide GetToken, ParseRedirs, ParseArgs;
    assert !Peek(t, j, ")");
    assert ParseBlock(t, i) == Panic(MissingParen) by {
      hide ParseExec, ParsePipe;
    }
    assert ParseExec(t, i) == Panic(MissingParen);
    assert ParsePipe(t, i) == Panic(MissingParen);
  }

  /** A redirection without a file name. */
  lemma NoFile(t: string, i: nat, m: Mode, c: Cmd, ks: seq<Tok>)
    requires AtToks(t, i, [Op(m)] + ks) && (ks != [] ==> ks[0].Sym?)
    ensures ParseRedirs(t, c, i) == Panic(MissingFile)
  {
    hide Laid, GetToken;
    var all := [Op(m)] + ks;
    Peeks(t, i, all, "<>");
    TakesToken(t, i, all);
    assert all[1..] == ks;
    var j := GetToken(t, i).next;
    CursorAt(t, j, ks);
    if ks == [] {
      AtEnd(t, j);
    } else {
      TakesToken(t, j, ks);
    }
  }

  lemma AtEnd(t: string, j: nat)
    requires j == |t|
    ensures GetToken(t, j).kind != 'a'
  {
  }

  /** A parenthesis among the words of a command. */
  lemma StrayParen(t: string, i: nat, c: Cmd, argc: nat, ks: seq<Tok>)
    requires AtToks(t, i, [Sym('(')] + ks)
    ensures ParseArgs(t, c, argc, i) == Panic(Syntax)
  {
    hide Laid, GetToken;
    var all := [Sym('(')] + ks;
    Peeks(t, i, all, "|)&;");
    TakesToken(t, i, all);
  }

  // ----- the canonical text -----

  lemma {:induction false} RenderLaid(t: string, i: nat, ks: seq<Tok>)
    requires i <= |t| && t[i..] == Render(ks) && GoodToks(ks)
    ensures AtToks(t, i, ks)
    decreases |ks|
  {
    hide Laid, Render, TokAt, GoodToks;
    if ks == [] {
      LaidNone(t, i);
    } else {
      var j := RenderFirst(t, i, ks);
      RenderLaid(t, j, ks[1..]);
      LaidBefore(t, i, ks, j);
    }
  }

  lemma LaidNone(t: string, i: nat)
    requires i <= |t| && t[i..] == Render([])
    ensures AtToks(t, i, [])
  {
  }

  lemma RenderFirst(t: string, i: nat, ks: seq<Tok>) returns (j: nat)
    requires i <= |t| && t[i..] == Render(ks) && GoodToks(ks) && ks != []
    ensures j <= |t| && TokAt(t, i, ks[0], j) && t[j..] == Render(ks[1..]) && GoodToks(ks[1..])
  {
    SplitsText(t, i, TokText(ks[0]), Render(ks[1..]));
    assert GoodTok(ks[0]);
    hide Render, GoodTok, TokText, TokAt;
    j := i + |TokText(ks[0])| + 1;
    BlankAfter(t, i, ks[0]);
  }

  lemma BlankAfter(t: string, i: nat, k: Tok)
    requires GoodTok(k) && i + |TokText(k)| < |t| && t[i..i + |TokText(k)|] == TokText(k) && t[i + |TokText(k)|] == ' '
    ensures TokAt(t, i, k, i + |TokText(k)| + 1)
  {
    hide GoodTok, TokText;
  }

  lemma LaidBefore(t: string, i: nat, ks: seq<Tok>, j: nat)
    requires i <= |t| && ks != [] && TokAt(t, i, ks[0], j) && AtToks(t, j, ks[1..])
    ensures AtToks(t, i, ks)
  {
  }

  lemma SplitsText(t: string, i: nat, a: string, b: string)
    requires i <= |t| && t[i..] == a + [' '] + b
    ensures i + |a| < |t| && t[i..i + |a|] == a && t[i + |a|] == ' ' && t[i + |a| + 1..] == b
  {
    assert t[i..][|a|] == ' ';
    assert t[i..i + |a|] == t[i..][..|a|];
    assert t[i + |a| + 1..] == t[i..][|a| + 1..];
  }

  /** The canonical text of a tree parses to that tree. */
  lemma ParsePrint(c: Tree)
    requires Good(c)
    ensures ParseCmd(Print(c)).Ok? && Denotes(Print(c), ParseCmd(Print(c)).cmd, c)
  {
    hide Laid, LineToks, ParseCmd, Denotes;
    GoodLineToks(c);
    assert Print(c)[0..] == Print(c);
    RenderLaid(Print(c), 0, LineToks(c));
    ParseLaid(Print(c), 0, c);
  }

  /** ">>" is one token, and the parser opens its file just as for ">". */
  lemma AppendIsWrite(t: string, i: nat, c: Cmd, f: Span)
    requires i + 1 < |t| && t[i] == '>' && t[i + 1] == '>'
    ensures GetToken(t, i).kind == '+' && GetToken(t, i).q == i && GetToken(t, i).eq == i + 2
    ensures Redirect(c, '+', f) == Redirect(c, '>', f) == Redir(c, f, WriteCreate, 1)
  {
  }

  /** Printing loses nothing: different trees have different texts. */
  lemma PrintInjective(a: Tree, b: Tree)
    requires Good(a) && Good(b) && Print(a) == Print(b)
    ensures a == b
  {
    hide Laid, LineToks, ParseLine, Denotes, Print;
    ParsePrint(a);
    ParsePrint(b);
    DenotesOne(Print(a), ParseCmd(Print(a)).cmd, a, b);
  }

  lemma {:induction false} DenotesOne(t: string, c: Cmd, a: Tree, b: Tree)
    requires Denotes(t, c, a) && Denotes(t, c, b)
    ensures a == b
  {
    match a
    case TExec(_) =>
    case TRedir(sub, f, m) => DenotesOne(t, c.sub, sub, b.sub);
    case TPipe(l, r) => DenotesOne(t, c.left, l, b.left); DenotesOne(t, c.right, r, b.right);
    case TList(l, r) => DenotesOne(t, c.left, l, b.left); DenotesOne(t, c.right, r, b.right);
    case TBack(sub) => DenotesOne(t, c.sub, sub, b.sub);
  }
}
