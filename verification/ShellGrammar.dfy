/** The grammar of the shell (xv6/sh.c) over its tokens: the parser accepts exactly the lines that the grammar
    derives, and builds the tree that goes with the derivation. */
module ShellGrammar {
  import opened ShellSpec

  // ---------------------------------------------------------------- tokens

  /** A word, a one-character symbol, or >>. */
  datatype Tok = W(text: string) | S(c: char) | A

  function TokOf(s: string, t: Token): Tok
    requires t.q <= t.eq <= |s|
  {
    match t.kind
    case Sym(c) => S(c)
    case Append => A
    case _ => W(s[t.q..t.eq])
  }

  /** The tokens from position i on. */
  function Toks(s: string, i: nat): seq<Tok>
    requires i <= |s|
    decreases |s| - i
  {
    var t := GetToken(s, i);
    if t.kind.End? then [] else [TokOf(s, t)] + Toks(s, t.next)
  }

  /** The first token of ts is the symbol c. */
  predicate Starts(ts: seq<Tok>, c: char) { ts != [] && ts[0] == S(c) }

  predicate IsRedir(t: Tok) { t == S('<') || t == S('>') || t == A }

  lemma SkipAgain(s: string, i: nat)
    requires i <= |s|
    ensures Skip(s, Skip(s, i)) == Skip(s, i) && GetToken(s, Skip(s, i)) == GetToken(s, i)
    ensures Toks(s, Skip(s, i)) == Toks(s, i)
  {
  }

  /** peek sees what the next token is. */
  lemma PeekIs(s: string, i: nat)
    requires i <= |s|
    ensures var k, ts := Skip(s, i), Toks(s, i);
      && (Sees(s, k, {'<', '>'}) <==> ts != [] && IsRedir(ts[0]))
      && (Sees(s, k, {'('}) <==> Starts(ts, '(')) && (Sees(s, k, {')'}) <==> Starts(ts, ')'))
      && (Sees(s, k, {'|'}) <==> Starts(ts, '|')) && (Sees(s, k, {'&'}) <==> Starts(ts, '&'))
      && (Sees(s, k, {';'}) <==> Starts(ts, ';'))
      && (Sees(s, k, {'|', ')', '&', ';'}) <==>
            Starts(ts, '|') || Starts(ts, ')') || Starts(ts, '&') || Starts(ts, ';'))
  {
  }

  /** gettoken takes the first token. */
  lemma TakeTok(s: string, i: nat)
    requires i <= |s|
    ensures var t, ts := GetToken(s, i), Toks(s, i);
      && (t.kind.End? <==> ts == [])
      && (ts != [] ==> ts[0] == TokOf(s, t) && Toks(s, t.next) == ts[1..])
      && (t.kind.Word? <==> ts != [] && ts[0].W?)
      && (t.kind.Word? ==> ts[0].text == TextOf(s, Span(t.q, t.eq)))
      && (ts != [] ==> i < t.next) && (ts == [] ==> Skip(s, i) == |s|)
  {
  }

  // ---------------------------------------------------------------- the grammar

  datatype Rd = Rd(op: Tok, file: string)

  datatype Arg = Arg(word: string, redirs: seq<Rd>)

  /** A simple command with its redirections anywhere, or a line in parentheses with redirections behind it. */
  datatype Unit = Simple(lead: seq<Rd>, args: seq<Arg>) | Group(line: Line, redirs: seq<Rd>)

  datatype Pipeline = Last(unit: Unit) | Bar(unit: Unit, rest: Pipeline)

  /** A pipeline, any number of ampersands, and what follows a semicolon. */
  datatype Line = Job(p: Pipeline, amps: nat) | Then(p: Pipeline, amps: nat, rest: Line)

  function FlatRds(rds: seq<Rd>): seq<Tok> {
    if rds == [] then [] else [rds[0].op, W(rds[0].file)] + FlatRds(rds[1..])
  }

  function FlatArgs(args: seq<Arg>): seq<Tok> {
    if args == [] then [] else [W(args[0].word)] + FlatRds(args[0].redirs) + FlatArgs(args[1..])
  }

  function FlatUnit(u: Unit): seq<Tok> {
    match u
    case Simple(lead, args) => FlatRds(lead) + FlatArgs(args)
    case Group(line, redirs) => [S('(')] + FlatLine(line) + [S(')')] + FlatRds(redirs)
  }

  function FlatPipe(p: Pipeline): seq<Tok> {
    match p
    case Last(u) => FlatUnit(u)
    case Bar(u, rest) => FlatUnit(u) + [S('|')] + FlatPipe(rest)
  }

  function Amps(n: nat): seq<Tok> {
    if n == 0 then [] else [S('&')] + Amps(n - 1)
  }

  /** The tokens of a line. */
  function FlatLine(x: Line): seq<Tok> {
    match x
    case Job(p, n) => FlatPipe(p) + Amps(n)
    case Then(p, n, rest) => FlatPipe(p) + Amps(n) + [S(';')] + FlatLine(rest)
  }

  function Dir(rd: Rd): Redirection<string> { Redirection(rd.file, rd.op != S('<')) }

  function Dirs(rds: seq<Rd>): (r: seq<Redirection<string>>)
    ensures |r| == |rds| && forall k :: 0 <= k < |rds| ==> r[k] == Dir(rds[k])
  {
    seq(|rds|, k requires 0 <= k < |rds| => Dir(rds[k]))
  }

  function Words(args: seq<Arg>): (r: seq<string>)
    ensures |r| == |args| && forall k :: 0 <= k < |args| ==> r[k] == args[k].word
  {
    seq(|args|, k requires 0 <= k < |args| => args[k].word)
  }

  function ArgDirs(args: seq<Arg>): seq<Redirection<string>> {
    if args == [] then [] else Dirs(args[0].redirs) + ArgDirs(args[1..])
  }

  /** The command of a unit: redirections apply in the order in which they are written, the first innermost. */
  function UnitTree(u: Unit): Cmd<string> {
    match u
    case Simple(lead, args) => Wrap(Exec(Words(args)), Dirs(lead) + ArgDirs(args))
    case Group(line, redirs) => Wrap(LineTree(line), Dirs(redirs))
  }

  /** | groups to the right. */
  function PipeTree(p: Pipeline): Cmd<string> {
    match p
    case Last(u) => UnitTree(u)
    case Bar(u, rest) => Pipe(UnitTree(u), PipeTree(rest))
  }

  function Backed<T>(c: Cmd<T>, n: nat): Cmd<T>
    decreases n
  {
    if n == 0 then c else Backed(Back(c), n - 1)
  }

  /** & binds the pipeline before it, ; groups to the right. */
  function LineTree(x: Line): Cmd<string> {
    match x
    case Job(p, n) => Backed(PipeTree(p), n)
    case Then(p, n, rest) => List(Backed(PipeTree(p), n), LineTree(rest))
  }

  predicate RdsOk(rds: seq<Rd>) {
    forall k :: 0 <= k < |rds| ==> IsRedir(rds[k].op)
  }

  predicate UnitOk(u: Unit) {
    match u
    case Simple(lead, args) => RdsOk(lead) && |args| < 10 && forall k :: 0 <= k < |args| ==> RdsOk(args[k].redirs)
    case Group(line, redirs) => LineOk(line) && RdsOk(redirs)
  }

  predicate PipeOk(p: Pipeline) {
    match p
    case Last(u) => UnitOk(u)
    case Bar(u, rest) => UnitOk(u) && PipeOk(rest)
  }

  /** A line of the grammar. */
  predicate LineOk(x: Line) {
    match x
    case Job(p, n) => PipeOk(p)
    case Then(p, n, rest) => PipeOk(p) && LineOk(rest)
  }

  // ---------------------------------------------------------------- derived lines parse

  function Files(s: string, w: seq<Redirection<Span>>): (r: seq<Redirection<string>>)
    ensures |r| == |w| && forall k :: 0 <= k < |w| ==> r[k] == Redirection(TextOf(s, w[k].file), w[k].out)
  {
    seq(|w|, k requires 0 <= k < |w| => Redirection(TextOf(s, w[k].file), w[k].out))
  }

  lemma {:induction false} WrapMeaning(s: string, c: Cmd<Span>, w: seq<Redirection<Span>>)
    ensures Meaning(s, Wrap(c, w)) == Wrap(Meaning(s, c), Files(s, w))
    decreases |w|
  {
    if w != [] {
      WrapMeaning(s, Redir(c, w[0]), w[1..]);
      assert Files(s, w)[1..] == Files(s, w[1..]);
    }
  }

  lemma {:induction false} RedirsParse(s: string, i: nat, rds: seq<Rd>, rest: seq<Tok>)
    returns (w: seq<Redirection<Span>>, p: nat)
    requires i <= |s| && RdsOk(rds) && Toks(s, i) == FlatRds(rds) + rest && (rest != [] ==> !IsRedir(rest[0]))
    ensures p <= |s| && ParseRedirs(s, i) == Ok(w, p) && Toks(s, p) == rest && Files(s, w) == Dirs(rds)
    decreases |rds|
  {
    hide GetToken, Skip, TextOf, Toks;
    PeekIs(s, i);
    SkipAgain(s, i);
    if rds == [] {
      assert FlatRds(rds) + rest == rest;
      w, p := [], Skip(s, i);
      assert Files(s, w) == Dirs(rds);
    } else {
      var t := GetToken(s, i);
      var f := GetToken(s, t.next);
      var ts := Toks(s, i);
      assert ts == [rds[0].op, W(rds[0].file)] + (FlatRds(rds[1..]) + rest);
      TakeTok(s, i);
      TakeTok(s, t.next);
      assert ts[1..][1..] == FlatRds(rds[1..]) + rest;
      var more;
      more, p := RedirsParse(s, f.next, rds[1..], rest);
      var one := Redirection(Span(f.q, f.eq), t.kind != Sym('<'));
      w := [one] + more;
      RedirsStep(s, i, t, f, more, p);
      OpIs(s, t);
      FilesMore(s, one, more, rds);
    }
  }

  lemma RedirsStep(s: string, i: nat, t: Token, f: Token, more: seq<Redirection<Span>>, p: nat)
    requires i <= |s| && t == GetToken(s, i) && f == GetToken(s, t.next) && f.kind.Word?
    requires Sees(s, Skip(s, i), {'<', '>'}) && GetToken(s, Skip(s, i)) == t && ParseRedirs(s, f.next) == Ok(more, p)
    ensures ParseRedirs(s, i) == Ok([Redirection(Span(f.q, f.eq), t.kind != Sym('<'))] + more, p)
  {
    hide GetToken, Skip;
  }

  lemma OpIs(s: string, t: Token)
    requires t.q <= t.eq <= |s|
    ensures t.kind == Sym('<') <==> TokOf(s, t) == S('<')
  {
  }

  lemma FilesMore(s: string, one: Redirection<Span>, more: seq<Redirection<Span>>, rds: seq<Rd>)
    requires rds != [] && Files(s, more) == Dirs(rds[1..]) && Redirection(TextOf(s, one.file), one.out) == Dir(rds[0])
    ensures Files(s, [one] + more) == Dirs(rds)
  {
    hide TextOf;
    var w := [one] + more;
    forall k | 0 <= k < |w| ensures Files(s, w)[k] == Dirs(rds)[k] {
      if k > 0 { assert Files(s, w)[k] == Files(s, more)[k - 1] && Dirs(rds)[k] == Dirs(rds[1..])[k - 1]; }
    }
  }

  /** What may follow a unit. */
  predicate EndsUnit(rest: seq<Tok>) {
    rest == [] || Starts(rest, '|') || Starts(rest, ')') || Starts(rest, '&') || Starts(rest, ';')
  }

  lemma ArgsEnd(s: string, i: nat, argv: seq<Span>, w: seq<Redirection<Span>>) returns (p: nat)
    requires i <= |s| && EndsUnit(Toks(s, i))
    ensures p <= |s| && ParseArgs(s, i, argv, w) == Ok(Wrap(Exec(argv), w), p) && Toks(s, p) == Toks(s, i)
  {
    hide Skip, Toks, Wrap;
    PeekIs(s, i);
    SkipAgain(s, i);
    TakeTok(s, i);
    AtEnd(s);
    p := if Toks(s, i) == [] then GetToken(s, i).next else Skip(s, i);
  }

  lemma AtEnd(s: string)
    ensures Toks(s, |s|) == []
  {
  }

  lemma ArgsStep(s: string, i: nat, argv: seq<Span>, w: seq<Redirection<Span>>, m: seq<Redirection<Span>>, p: nat)
    requires i <= |s| && Toks(s, i) != [] && Toks(s, i)[0].W? && |argv| + 1 < MAXARGS
    requires ParseRedirs(s, GetToken(s, i).next) == Ok(m, p)
    ensures p <= |s| && i < p
    ensures ParseArgs(s, i, argv, w) == ParseArgs(s, p, argv + [Span(GetToken(s, i).q, GetToken(s, i).eq)], w + m)
  {
    hide Skip, Toks, Wrap, GetToken, ParseRedirs;
    PeekIs(s, i);
    SkipAgain(s, i);
    TakeTok(s, i);
  }

  lemma {:induction false} ArgsParse(s: string, i: nat, args: seq<Arg>, argv: seq<Span>, w: seq<Redirection<Span>>,
    rest: seq<Tok>)
    returns (spans: seq<Span>, more: seq<Redirection<Span>>, p: nat)
    requires i <= |s| && Toks(s, i) == FlatArgs(args) + rest && EndsUnit(rest) && |argv| + |args| < MAXARGS
    requires forall k :: 0 <= k < |args| ==> RdsOk(args[k].redirs)
    ensures p <= |s| && ParseArgs(s, i, argv, w) == Ok(Wrap(Exec(argv + spans), w + more), p) && Toks(s, p) == rest
    ensures Texts(s, spans) == Words(args) && Files(s, more) == ArgDirs(args)
    decreases |args|
  {
    hide Skip, Toks, Wrap, GetToken, ParseRedirs, ParseArgs, TextOf, FlatRds, RdsOk;
    spans, more := [], [];
    if args == [] {
      assert FlatArgs(args) + rest == rest;
      p := ArgsEnd(s, i, argv, w);
      assert argv + spans == argv && w + more == w;
    } else {
      var tail := FlatArgs(args[1..]) + rest;
      assert Toks(s, i) == [W(args[0].word)] + (FlatRds(args[0].redirs) + tail);
      TakeTok(s, i);
      var t := GetToken(s, i);
      assert Toks(s, t.next) == FlatRds(args[0].redirs) + tail;
      TailStarts(args[1..], rest);
      var m, p1 := RedirsParse(s, t.next, args[0].redirs, tail);
      ArgsStep(s, i, argv, w, m, p1);
      var span := Span(t.q, t.eq);
      var spans', more';
      spans', more', p := ArgsParse(s, p1, args[1..], argv + [span], w + m, rest);
      spans, more := [span] + spans', m + more';
      assert argv + [span] + spans' == argv + spans && w + m + more' == w + more;
      TextsMore(s, span, spans', args);
      FilesBoth(s, m, more');
    }
  }

  lemma TailStarts(args: seq<Arg>, rest: seq<Tok>)
    requires EndsUnit(rest)
    ensures var tail := FlatArgs(args) + rest; tail != [] ==> !IsRedir(tail[0])
  {
  }

  lemma TextsMore(s: string, span: Span, spans: seq<Span>, args: seq<Arg>)
    requires args != [] && Texts(s, spans) == Words(args[1..]) && TextOf(s, span) == args[0].word
    ensures Texts(s, [span] + spans) == Words(args)
  {
    hide TextOf;
    var all := [span] + spans;
    assert |all| == |args|;
    forall k | 0 <= k < |all| ensures Texts(s, all)[k] == Words(args)[k] {
      if k > 0 { assert Texts(s, all)[k] == Texts(s, spans)[k - 1] && Words(args)[k] == Words(args[1..])[k - 1]; }
    }
  }

  lemma FilesBoth(s: string, a: seq<Redirection<Span>>, b: seq<Redirection<Span>>)
    ensures Files(s, a + b) == Files(s, a) + Files(s, b)
  {
  }

  lemma SimpleParse(s: string, i: nat, u: Unit, rest: seq<Tok>) returns (c: Cmd<Span>, p: nat)
    requires i <= |s| && u.Simple? && UnitOk(u) && Toks(s, i) == FlatUnit(u) + rest && EndsUnit(rest)
    ensures p <= |s| && ParseExec(s, i) == Ok(c, p) && Toks(s, p) == rest && Meaning(s, c) == UnitTree(u)
  {
    hide Skip, Toks, Wrap, GetToken, ParseRedirs, ParseArgs, TextOf, FlatRds, FlatArgs, RdsOk, UnitTree, Meaning;
    var k, tail := Skip(s, i), FlatArgs(u.args) + rest;
    SkipAgain(s, i);
    PeekIs(s, i);
    assert Toks(s, i) == FlatRds(u.lead) + tail;
    TailStarts(u.args, rest);
    NoParen(u.lead, u.args, rest);
    var w, p1 := RedirsParse(s, k, u.lead, tail);
    var spans, more;
    spans, more, p := ArgsParse(s, p1, u.args, [], w, rest);
    assert [] + spans == spans;
    c := Wrap(Exec(spans), w + more);
    SimpleMeaning(s, u, spans, w, more);
  }

  lemma SimpleMeaning(s: string, u: Unit, spans: seq<Span>, w: seq<Redirection<Span>>, more: seq<Redirection<Span>>)
    requires u.Simple? && Texts(s, spans) == Words(u.args) && Files(s, w) == Dirs(u.lead)
    requires Files(s, more) == ArgDirs(u.args)
    ensures Meaning(s, Wrap(Exec(spans), w + more)) == UnitTree(u)
  {
    hide Wrap, TextOf, Texts, Words;
    WrapMeaning(s, Exec(spans), w + more);
    FilesBoth(s, w, more);
  }

  lemma NoParen(lead: seq<Rd>, args: seq<Arg>, rest: seq<Tok>)
    requires RdsOk(lead) && EndsUnit(rest)
    ensures !Starts(FlatRds(lead) + (FlatArgs(args) + rest), '(')
  {
  }

  /** The shape of the parser's result for a block. */
  lemma BlockParse(s: string, i: nat, sub: Cmd<Span>, p: nat, w: seq<Redirection<Span>>, e: nat)
    requires i <= |s| && Starts(Toks(s, i), '(') && p <= |s| && Starts(Toks(s, p), ')')
    requires ParseLine(s, GetToken(s, i).next) == Ok(sub, p)
    requires ParseRedirs(s, GetToken(s, p).next) == Ok(w, e)
    ensures ParseExec(s, i) == Ok(Wrap(sub, w), e)
  {
    hide Skip, Toks, Wrap, GetToken, ParseRedirs, ParseLine, ParseArgs;
    SkipAgain(s, i);
    PeekIs(s, i);
    SkipAgain(s, Skip(s, i));
    PeekIs(s, Skip(s, i));
    SkipAgain(s, p);
    PeekIs(s, p);
  }

  lemma {:induction false} UnitParse(s: string, i: nat, u: Unit, rest: seq<Tok>) returns (c: Cmd<Span>, p: nat)
    requires i <= |s| && UnitOk(u) && Toks(s, i) == FlatUnit(u) + rest && EndsUnit(rest)
    ensures p <= |s| && ParseExec(s, i) == Ok(c, p) && Toks(s, p) == rest && Meaning(s, c) == UnitTree(u)
    decreases u
  {
    hide Skip, Toks, Wrap, GetToken, ParseRedirs, ParseLine, ParseExec, FlatRds, FlatLine, TextOf;
    match u
    case Simple(lead, args) =>
      c, p := SimpleParse(s, i, u, rest);
    case Group(line, redirs) =>
      var tail := FlatRds(redirs) + rest;
      assert Toks(s, i) == [S('(')] + (FlatLine(line) + ([S(')')] + tail));
      TakeTok(s, i);
      assert Toks(s, GetToken(s, i).next) == FlatLine(line) + ([S(')')] + tail);
      var sub, q := LineParse(s, GetToken(s, i).next, line, [S(')')] + tail);
      TakeTok(s, q);
      assert Toks(s, GetToken(s, q).next) == tail;
      var w;
      w, p := RedirsParse(s, GetToken(s, q).next, redirs, rest);
      BlockParse(s, i, sub, q, w, p);
      c := Wrap(sub, w);
      WrapMeaning(s, sub, w);
  }

  predicate EndsPipe(rest: seq<Tok>) { EndsUnit(rest) && !Starts(rest, '|') }

  lemma PipeEnd(s: string, i: nat, c: Cmd<Span>, p: nat) returns (e: nat)
    requires i <= |s| && p <= |s| && ParseExec(s, i) == Ok(c, p) && !Starts(Toks(s, p), '|')
    ensures e <= |s| && ParsePipe(s, i) == Ok(c, e) && Toks(s, e) == Toks(s, p)
  {
    hide Skip, Toks, GetToken, ParseExec;
    SkipAgain(s, p);
    PeekIs(s, p);
    e := Skip(s, p);
  }

  lemma PipeMore(s: string, i: nat, c: Cmd<Span>, p: nat, r: Cmd<Span>, e: nat)
    requires i <= |s| && p <= |s| && ParseExec(s, i) == Ok(c, p) && Starts(Toks(s, p), '|')
    requires ParsePipe(s, GetToken(s, p).next) == Ok(r, e)
    ensures ParsePipe(s, i) == Ok(Pipe(c, r), e)
  {
    hide Skip, Toks, GetToken, ParseExec;
    SkipAgain(s, p);
    PeekIs(s, p);
  }

  lemma {:induction false} PipeParse(s: string, i: nat, x: Pipeline, rest: seq<Tok>) returns (c: Cmd<Span>, p: nat)
    requires i <= |s| && PipeOk(x) && Toks(s, i) == FlatPipe(x) + rest && EndsPipe(rest)
    ensures p <= |s| && ParsePipe(s, i) == Ok(c, p) && Toks(s, p) == rest && Meaning(s, c) == PipeTree(x)
    decreases x
  {
    hide Skip, Toks, GetToken, ParseExec, ParsePipe, FlatUnit, TextOf;
    match x
    case Last(u) =>
      c, p := UnitParse(s, i, u, rest);
      p := PipeEnd(s, i, c, p);
    case Bar(u, more) =>
      var tail := FlatPipe(more) + rest;
      assert Toks(s, i) == FlatUnit(u) + ([S('|')] + tail);
      var left, q := UnitParse(s, i, u, [S('|')] + tail);
      TakeTok(s, q);
      assert Toks(s, GetToken(s, q).next) == tail;
      var right;
      right, p := PipeParse(s, GetToken(s, q).next, more, rest);
      PipeMore(s, i, left, q, right, p);
      c := Pipe(left, right);
  }

  lemma {:induction false} BacksParse(s: string, i: nat, c: Cmd<Span>, n: nat, rest: seq<Tok>) returns (p: nat)
    requires i <= |s| && Toks(s, i) == Amps(n) + rest && !Starts(rest, '&')
    ensures p <= |s| && Backs(s, i, c) == (Backed(c, n), p) && Toks(s, p) == rest
    decreases n
  {
    hide Skip, Toks, GetToken;
    SkipAgain(s, i);
    PeekIs(s, i);
    if n == 0 {
      assert Amps(n) + rest == rest;
      p := Skip(s, i);
    } else {
      assert Toks(s, i) == [S('&')] + (Amps(n - 1) + rest);
      TakeTok(s, i);
      assert Toks(s, GetToken(s, i).next) == Amps(n - 1) + rest;
      p := BacksParse(s, GetToken(s, i).next, Back(c), n - 1, rest);
    }
  }

  lemma {:induction false} BackedMeaning(s: string, c: Cmd<Span>, n: nat)
    ensures Meaning(s, Backed(c, n)) == Backed(Meaning(s, c), n)
    decreases n
  {
    if n > 0 { BackedMeaning(s, Back(c), n - 1); }
  }

  predicate EndsLine(rest: seq<Tok>) { rest == [] || Starts(rest, ')') }

  lemma LineEnd(s: string, i: nat, c: Cmd<Span>, p: nat, c': Cmd<Span>, q: nat) returns (e: nat)
    requires i <= |s| && p <= |s| && ParsePipe(s, i) == Ok(c, p) && Backs(s, p, c) == (c', q) && q <= |s|
    requires !Starts(Toks(s, q), ';')
    ensures e <= |s| && ParseLine(s, i) == Ok(c', e) && Toks(s, e) == Toks(s, q)
  {
    hide Skip, Toks, GetToken, ParsePipe, Backs;
    SkipAgain(s, q);
    PeekIs(s, q);
    e := Skip(s, q);
  }

  lemma LineMore(s: string, i: nat, c: Cmd<Span>, p: nat, c': Cmd<Span>, q: nat, r: Cmd<Span>, e: nat)
    requires i <= |s| && p <= |s| && ParsePipe(s, i) == Ok(c, p) && Backs(s, p, c) == (c', q) && q <= |s|
    requires Starts(Toks(s, q), ';') && ParseLine(s, GetToken(s, q).next) == Ok(r, e)
    ensures ParseLine(s, i) == Ok(List(c', r), e)
  {
    hide Skip, Toks, GetToken, ParsePipe, Backs;
    SkipAgain(s, q);
    PeekIs(s, q);
  }

  lemma {:induction false} LineParse(s: string, i: nat, x: Line, rest: seq<Tok>) returns (c: Cmd<Span>, p: nat)
    requires i <= |s| && LineOk(x) && Toks(s, i) == FlatLine(x) + rest && EndsLine(rest)
    ensures p <= |s| && ParseLine(s, i) == Ok(c, p) && Toks(s, p) == rest && Meaning(s, c) == LineTree(x)
    decreases x
  {
    hide Skip, Toks, GetToken, ParseLine, ParsePipe, Backs, FlatPipe, Amps, TextOf;
    var tail := if x.Job? then rest else [S(';')] + (FlatLine(x.rest) + rest);
    assert Toks(s, i) == FlatPipe(x.p) + (Amps(x.amps) + tail);
    AmpsEnd(x.amps, tail);
    var c0, p0 := PipeParse(s, i, x.p, Amps(x.amps) + tail);
    var q := BacksParse(s, p0, c0, x.amps, tail);
    BackedMeaning(s, c0, x.amps);
    if x.Job? {
      c := Backed(c0, x.amps);
      p := LineEnd(s, i, c0, p0, c, q);
    } else {
      TakeTok(s, q);
      assert Toks(s, GetToken(s, q).next) == FlatLine(x.rest) + rest;
      var right;
      right, p := LineParse(s, GetToken(s, q).next, x.rest, rest);
      c := List(Backed(c0, x.amps), right);
      LineMore(s, i, c0, p0, Backed(c0, x.amps), q, right, p);
    }
  }

  lemma AmpsEnd(n: nat, tail: seq<Tok>)
    requires EndsLine(tail) || Starts(tail, ';')
    ensures EndsPipe(Amps(n) + tail)
  {
    if n == 0 { assert Amps(n) + tail == tail; }
  }

  // ---------------------------------------------------------------- parsed lines are derived

  lemma {:induction false} RedirsDerived(s: string, i: nat) returns (rds: seq<Rd>)
    requires i <= |s| && ParseRedirs(s, i).Ok?
    ensures var r := ParseRedirs(s, i);
      RdsOk(rds) && Toks(s, i) == FlatRds(rds) + Toks(s, r.pos) && Files(s, r.value) == Dirs(rds)
    decreases |s| - i
  {
    hide GetToken, Skip, TextOf, Toks;
    var r := ParseRedirs(s, i);
    PeekIs(s, i);
    SkipAgain(s, i);
    if !Sees(s, Skip(s, i), {'<', '>'}) {
      rds := [];
      assert FlatRds(rds) + Toks(s, r.pos) == Toks(s, i) && Files(s, r.value) == Dirs(rds);
    } else {
      var t := GetToken(s, i);
      var f := GetToken(s, t.next);
      TakeTok(s, i);
      TakeTok(s, t.next);
      var more := RedirsDerived(s, f.next);
      var rest := ParseRedirs(s, f.next);
      rds := [Rd(TokOf(s, t), TextOf(s, Span(f.q, f.eq)))] + more;
      assert rds[1..] == more;
      RedirsStep(s, i, t, f, rest.value, rest.pos);
      OpIs(s, t);
      FilesMore(s, Redirection(Span(f.q, f.eq), t.kind != Sym('<')), rest.value, rds);
      TwoToks(Toks(s, i), rds, Toks(s, r.pos));
    }
  }

  lemma {:induction false} TwoToks(ts: seq<Tok>, rds: seq<Rd>, rest: seq<Tok>)
    requires rds != [] && |ts| >= 2 && ts[0] == rds[0].op && ts[1] == W(rds[0].file)
    requires ts[1..][1..] == FlatRds(rds[1..]) + rest
    ensures ts == FlatRds(rds) + rest
  {
    assert ts == [ts[0], ts[1]] + ts[1..][1..];
  }

  /** How parseexec's loop goes on. */
  lemma ArgsCases(s: string, i: nat, argv: seq<Span>, w: seq<Redirection<Span>>)
    requires i <= |s| && ParseArgs(s, i, argv, w).Ok?
    ensures EndsUnit(Toks(s, i)) || (Toks(s, i) != [] && Toks(s, i)[0].W? && |argv| + 1 < MAXARGS
      && ParseRedirs(s, GetToken(s, i).next).Ok?)
  {
    hide Skip, Toks, Wrap, GetToken, ParseRedirs;
    PeekIs(s, i);
    SkipAgain(s, i);
    TakeTok(s, i);
  }

  lemma {:induction false} ArgsDerived(s: string, i: nat, argv: seq<Span>, w: seq<Redirection<Span>>)
    returns (args: seq<Arg>, spans: seq<Span>, more: seq<Redirection<Span>>)
    requires i <= |s| && ParseArgs(s, i, argv, w).Ok? && |argv| < MAXARGS
    ensures var r := ParseArgs(s, i, argv, w);
      && Toks(s, i) == FlatArgs(args) + Toks(s, r.pos) && r.value == Wrap(Exec(argv + spans), w + more)
      && |argv| + |args| < MAXARGS && (forall k :: 0 <= k < |args| ==> RdsOk(args[k].redirs))
      && Texts(s, spans) == Words(args) && Files(s, more) == ArgDirs(args)
    decreases |s| - i
  {
    hide Skip, Toks, Wrap, GetToken, ParseRedirs, ParseArgs, TextOf, FlatRds, RdsOk;
    var r := ParseArgs(s, i, argv, w);
    ArgsCases(s, i, argv, w);
    args, spans, more := [], [], [];
    if EndsUnit(Toks(s, i)) {
      var p := ArgsEnd(s, i, argv, w);
      assert argv + spans == argv && w + more == w && FlatArgs(args) + Toks(s, p) == Toks(s, i);
    } else {
      var t := GetToken(s, i);
      TakeTok(s, i);
      var rds := RedirsDerived(s, t.next);
      var m := ParseRedirs(s, t.next);
      ArgsStep(s, i, argv, w, m.value, m.pos);
      var span := Span(t.q, t.eq);
      var args', spans', more' := ArgsDerived(s, m.pos, argv + [span], w + m.value);
      args, spans, more := [Arg(TextOf(s, span), rds)] + args', [span] + spans', m.value + more';
      assert args[1..] == args';
      assert argv + [span] + spans' == argv + spans && w + m.value + more' == w + more;
      TextsMore(s, span, spans', args);
      FilesBoth(s, m.value, more');
      OneArg(Toks(s, i), args, Toks(s, r.pos));
    }
  }

  lemma {:induction false} OneArg(ts: seq<Tok>, args: seq<Arg>, rest: seq<Tok>)
    requires args != [] && ts != [] && ts[0] == W(args[0].word)
    requires ts[1..] == FlatRds(args[0].redirs) + (FlatArgs(args[1..]) + rest)
    ensures ts == FlatArgs(args) + rest
  {
    hide FlatRds;
    assert ts == [ts[0]] + ts[1..];
  }

  lemma {:induction false} UnitDerived(s: string, i: nat) returns (u: Unit)
    requires i <= |s| && ParseExec(s, i).Ok?
    ensures var r := ParseExec(s, i);
      UnitOk(u) && Toks(s, i) == FlatUnit(u) + Toks(s, r.pos) && Meaning(s, r.value) == UnitTree(u)
    decreases |s| - i, 1
  {
    hide Skip, Toks, Wrap, GetToken, ParseRedirs, ParseLine, ParseArgs, FlatRds, FlatArgs, FlatLine, TextOf;
    var r, k := ParseExec(s, i), Skip(s, i);
    SkipAgain(s, i);
    PeekIs(s, i);
    if Starts(Toks(s, i), '(') {
      u := GroupDerived(s, i);
    } else {
      var lead := RedirsDerived(s, k);
      var w := ParseRedirs(s, k);
      var args, spans, more := ArgsDerived(s, w.pos, [], w.value);
      u := Simple(lead, args);
      assert [] + spans == spans;
      SimpleMeaning(s, u, spans, w.value, more);
      assert Toks(s, i) == FlatUnit(u) + Toks(s, r.pos);
    }
  }

  /** What a block that parses consists of. */
  lemma BlockCases(s: string, i: nat) returns (sub: Cmd<Span>, p: nat, w: seq<Redirection<Span>>, e: nat)
    requires i <= |s| && ParseExec(s, i).Ok? && Starts(Toks(s, i), '(')
    ensures ParseLine(s, GetToken(s, i).next) == Ok(sub, p) && p <= |s| && Starts(Toks(s, p), ')')
    ensures ParseRedirs(s, GetToken(s, p).next) == Ok(w, e)
    ensures i < GetToken(s, i).next
  {
    hide Skip, Toks, Wrap, GetToken, ParseRedirs, ParseLine, ParseArgs;
    SkipAgain(s, i);
    PeekIs(s, i);
    SkipAgain(s, Skip(s, i));
    PeekIs(s, Skip(s, i));
    TakeTok(s, i);
    var r := ParseLine(s, GetToken(s, i).next);
    sub, p := r.value, r.pos;
    SkipAgain(s, p);
    PeekIs(s, p);
    var f := ParseRedirs(s, GetToken(s, p).next);
    w, e := f.value, f.pos;
  }

  lemma {:induction false} GroupDerived(s: string, i: nat) returns (u: Unit)
    requires i <= |s| && ParseExec(s, i).Ok? && Starts(Toks(s, i), '(')
    ensures var r := ParseExec(s, i);
      UnitOk(u) && Toks(s, i) == FlatUnit(u) + Toks(s, r.pos) && Meaning(s, r.value) == UnitTree(u)
    decreases |s| - i, 0
  {
    hide Skip, Toks, Wrap, GetToken, ParseRedirs, ParseLine, ParseExec, FlatRds, FlatLine, TextOf;
    var sub, p, w, e := BlockCases(s, i);
    BlockParse(s, i, sub, p, w, e);
    TakeTok(s, i);
    TakeTok(s, p);
    var line := LineDerived(s, GetToken(s, i).next);
    var rds := RedirsDerived(s, GetToken(s, p).next);
    u := Group(line, rds);
    WrapMeaning(s, sub, w);
    var ts, tail := Toks(s, i), FlatRds(rds) + Toks(s, e);
    assert Toks(s, p) == [S(')')] + tail;
    assert ts == [S('(')] + (FlatLine(line) + ([S(')')] + tail));
    assert FlatUnit(u) + Toks(s, e) == [S('(')] + (FlatLine(line) + ([S(')')] + tail));
  }

  lemma PipeCases(s: string, i: nat)
    requires i <= |s| && ParsePipe(s, i).Ok?
    ensures ParseExec(s, i).Ok?
    ensures var p := ParseExec(s, i).pos;
      Starts(Toks(s, p), '|') ==> ParsePipe(s, GetToken(s, p).next).Ok? && i < GetToken(s, p).next
  {
    hide Skip, Toks, GetToken, ParseExec;
    var p := ParseExec(s, i).pos;
    SkipAgain(s, p);
    PeekIs(s, p);
    TakeTok(s, p);
  }

  lemma {:induction false} PipeDerived(s: string, i: nat) returns (x: Pipeline)
    requires i <= |s| && ParsePipe(s, i).Ok?
    ensures var r := ParsePipe(s, i);
      PipeOk(x) && Toks(s, i) == FlatPipe(x) + Toks(s, r.pos) && Meaning(s, r.value) == PipeTree(x)
    decreases |s| - i, 2
  {
    hide Skip, Toks, GetToken, ParseExec, ParsePipe, FlatUnit, TextOf;
    PipeCases(s, i);
    var l := ParseExec(s, i);
    var u := UnitDerived(s, i);
    if Starts(Toks(s, l.pos), '|') {
      TakeTok(s, l.pos);
      var next := GetToken(s, l.pos).next;
      var more := PipeDerived(s, next);
      var r := ParsePipe(s, next);
      PipeMore(s, i, l.value, l.pos, r.value, r.pos);
      x := Bar(u, more);
      assert Toks(s, l.pos) == [S('|')] + (FlatPipe(more) + Toks(s, r.pos));
      assert FlatPipe(x) + Toks(s, r.pos) == FlatUnit(u) + ([S('|')] + (FlatPipe(more) + Toks(s, r.pos)));
    } else {
      var e := PipeEnd(s, i, l.value, l.pos);
      x := Last(u);
    }
  }

  lemma {:induction false} BacksDerived(s: string, i: nat, c: Cmd<Span>) returns (n: nat)
    requires i <= |s|
    ensures var (c', p) := Backs(s, i, c); c' == Backed(c, n) && Toks(s, i) == Amps(n) + Toks(s, p)
    decreases |s| - i
  {
    hide Skip, Toks, GetToken;
    SkipAgain(s, i);
    PeekIs(s, i);
    if Starts(Toks(s, i), '&') {
      TakeTok(s, i);
      var next := GetToken(s, i).next;
      n := BacksDerived(s, next, Back(c));
      n := n + 1;
      var (c', p) := Backs(s, next, Back(c));
      assert Toks(s, i) == [S('&')] + (Amps(n - 1) + Toks(s, p));
      assert Amps(n) + Toks(s, p) == [S('&')] + (Amps(n - 1) + Toks(s, p));
    } else {
      n := 0;
      assert Amps(0) + Toks(s, Skip(s, i)) == Toks(s, i);
    }
  }

  lemma LineCases(s: string, i: nat)
    requires i <= |s| && ParseLine(s, i).Ok?
    ensures ParsePipe(s, i).Ok?
    ensures var q := Backs(s, ParsePipe(s, i).pos, ParsePipe(s, i).value).1;
      Starts(Toks(s, q), ';') ==> ParseLine(s, GetToken(s, q).next).Ok? && i < GetToken(s, q).next
  {
    hide Skip, Toks, GetToken, ParsePipe, Backs;
    var q := Backs(s, ParsePipe(s, i).pos, ParsePipe(s, i).value).1;
    SkipAgain(s, q);
    PeekIs(s, q);
    TakeTok(s, q);
  }

  lemma {:induction false} LineDerived(s: string, i: nat) returns (x: Line)
    requires i <= |s| && ParseLine(s, i).Ok?
    ensures var r := ParseLine(s, i);
      LineOk(x) && Toks(s, i) == FlatLine(x) + Toks(s, r.pos) && Meaning(s, r.value) == LineTree(x)
    decreases |s| - i, 3
  {
    hide Skip, Toks, GetToken, ParseLine, ParsePipe, Backs, FlatPipe, Amps, TextOf, Backed, FlatLine;
    LineCases(s, i);
    var l := ParsePipe(s, i);
    var p := PipeDerived(s, i);
    var n := BacksDerived(s, l.pos, l.value);
    BackedMeaning(s, l.value, n);
    var q := Backs(s, l.pos, l.value).1;
    if Starts(Toks(s, q), ';') {
      TakeTok(s, q);
      var next := GetToken(s, q).next;
      var rest := LineDerived(s, next);
      var r := ParseLine(s, next);
      LineMore(s, i, l.value, l.pos, Backed(l.value, n), q, r.value, r.pos);
      x := Then(p, n, rest);
      ThenToks(p, n, rest, Toks(s, q), Toks(s, r.pos));
    } else {
      var e := LineEnd(s, i, l.value, l.pos, Backed(l.value, n), q);
      x := Job(p, n);
      JobToks(p, n, Toks(s, e));
    }
  }

  lemma ThenToks(p: Pipeline, n: nat, rest: Line, ts: seq<Tok>, after: seq<Tok>)
    requires Starts(ts, ';') && ts[1..] == FlatLine(rest) + after
    ensures FlatLine(Then(p, n, rest)) + after == FlatPipe(p) + (Amps(n) + ts)
  {
    hide FlatPipe, Amps;
    assert ts == [S(';')] + (FlatLine(rest) + after);
    assert FlatLine(Then(p, n, rest)) == FlatPipe(p) + Amps(n) + [S(';')] + FlatLine(rest);
  }

  lemma JobToks(p: Pipeline, n: nat, after: seq<Tok>)
    ensures FlatLine(Job(p, n)) + after == FlatPipe(p) + (Amps(n) + after)
  {
    hide FlatPipe, Amps;
    assert FlatLine(Job(p, n)) == FlatPipe(p) + Amps(n);
  }

  // ---------------------------------------------------------------- the whole line

  lemma DoneIs(s: string, p: nat)
    requires p <= |s|
    ensures Skip(s, p) == |s| <==> Toks(s, p) == []
  {
  }

  /** The shell accepts a command line exactly when its tokens are a line of the grammar. */
  lemma AcceptsExactly(s: string)
    ensures ParseCmd(s).Ok? <==> exists x :: LineOk(x) && Toks(s, 0) == FlatLine(x)
  {
    hide Toks, ParseLine, FlatLine, LineOk, Skip;
    if ParseCmd(s).Ok? {
      var x := LineDerived(s, 0);
      DoneIs(s, ParseLine(s, 0).pos);
      assert FlatLine(x) + [] == FlatLine(x);
    }
    if x :| LineOk(x) && Toks(s, 0) == FlatLine(x) { Accepted(s, x); }
  }

  /** And the command it builds is the tree of that line, whichever derivation is taken. */
  lemma Accepted(s: string, x: Line)
    requires LineOk(x) && Toks(s, 0) == FlatLine(x)
    ensures ParseCmd(s).Ok? && Meaning(s, ParseCmd(s).value) == LineTree(x)
  {
    hide Toks, ParseLine, FlatLine, LineOk, Skip, Meaning, LineTree;
    assert FlatLine(x) + [] == FlatLine(x);
    var c, p := LineParse(s, 0, x, []);
    DoneIs(s, p);
  }

  /** The grammar is unambiguous up to the tree. */
  lemma Unambiguous(s: string, x: Line, y: Line)
    requires LineOk(x) && LineOk(y) && Toks(s, 0) == FlatLine(x) == FlatLine(y)
    ensures LineTree(x) == LineTree(y)
  {
    hide Toks, ParseLine, FlatLine, LineOk, Meaning, LineTree;
    Accepted(s, x);
    Accepted(s, y);
  }

  // ---------------------------------------------------------------- what tokens are

  /** The five blanks. */
  predicate Gap(c: char) { c == ' ' || c == '\t' || c == '\r' || c == '\n' || c == 11 as char }

  function Squeezed(t: string): string {
    if t == "" then "" else (if Gap(t[0]) then "" else [t[0]]) + Squeezed(t[1..])
  }

  function Spelled(ts: seq<Tok>): string {
    if ts == [] then "" else SpellTok(ts[0]) + Spelled(ts[1..])
  }

  lemma {:induction false} SqueezeBoth(a: string, b: string)
    ensures Squeezed(a + b) == Squeezed(a) + Squeezed(b)
    decreases |a|
  {
    if a == "" {
      assert a + b == b;
    } else {
      assert (a + b)[1..] == a[1..] + b;
      SqueezeBoth(a[1..], b);
    }
  }

  lemma {:induction false} SqueezeGaps(t: string, gaps: bool)
    requires forall k :: 0 <= k < |t| ==> Gap(t[k]) == gaps
    ensures Squeezed(t) == if gaps then "" else t
    decreases |t|
  {
    if t != "" { SqueezeGaps(t[1..], gaps); }
  }

  /** Blanks only separate: the tokens spell the line without its blanks, and words hold no symbol. */
  lemma {:induction false} ToksSpell(s: string, i: nat)
    requires i <= |s|
    ensures Spelled(Toks(s, i)) == Squeezed(s[i..])
    ensures forall k, c :: 0 <= k < |Toks(s, i)| && Toks(s, i)[k].W? && c in Toks(s, i)[k].text ==> c !in "<|>&;()"
    decreases |s| - i
  {
    hide Squeezed, Spelled;
    var t := GetToken(s, i);
    var q := Skip(s, i);
    assert s[i..] == s[i..q] + s[q..];
    SqueezeBoth(s[i..q], s[q..]);
    SqueezeGaps(s[i..q], true);
    if q == |s| {
      NothingSpelled();
    } else {
      ToksSpell(s, t.next);
      TokSpells(s, i);
      var ts := Toks(s, i);
      assert ts[1..] == Toks(s, t.next);
    }
  }

  lemma NothingSpelled()
    ensures Spelled([]) == "" && Squeezed("") == ""
  {
  }

  lemma TokSpells(s: string, i: nat)
    requires i <= |s| && Skip(s, i) < |s|
    requires Spelled(Toks(s, GetToken(s, i).next)) == Squeezed(s[GetToken(s, i).next..])
    ensures var t := GetToken(s, i);
      && Toks(s, i) == [TokOf(s, t)] + Toks(s, t.next) && Spelled(Toks(s, i)) == Squeezed(s[t.q..])
      && (TokOf(s, t).W? ==> forall c :: c in TokOf(s, t).text ==> c !in "<|>&;()")
  {
    hide Squeezed, Toks, Spelled, SpellTok, TokOf, Skip, GetToken;
    var t := GetToken(s, i);
    TakeTok(s, i);
    var ts := Toks(s, i);
    TextSpells(s, i);
    GapDrops(s, t.q, t.eq, t.next);
    SpellFirst(ts);
    assert ts == [ts[0]] + ts[1..];
  }

  lemma GapDrops(s: string, q: nat, e: nat, n: nat)
    requires q <= e <= n <= |s| && Squeezed(s[q..e]) == s[q..e] && forall k :: e <= k < n ==> Gap(s[k])
    ensures Squeezed(s[q..]) == s[q..e] + Squeezed(s[n..])
  {
    hide Squeezed, Gap;
    var text, gap, rest := s[q..e], s[e..n], s[n..];
    assert s[q..] == text + (gap + rest);
    SqueezeBoth(text, gap + rest);
    SqueezeBoth(gap, rest);
    SqueezeGaps(gap, true);
    assert "" + Squeezed(rest) == Squeezed(rest);
  }

  function SpellTok(t: Tok): string {
    match t
    case W(text) => text
    case S(c) => [c]
    case A => ">>"
  }

  lemma SpellFirst(ts: seq<Tok>)
    requires ts != []
    ensures Spelled(ts) == SpellTok(ts[0]) + Spelled(ts[1..])
  {
  }

  /** A token holds no blank, and a word no symbol. */
  lemma TextSpells(s: string, i: nat)
    requires i <= |s| && Skip(s, i) < |s|
    ensures var t := GetToken(s, i);
      && SpellTok(TokOf(s, t)) == s[t.q..t.eq] == Squeezed(s[t.q..t.eq])
      && (forall k :: t.eq <= k < t.next ==> Gap(s[k]))
      && (TokOf(s, t).W? ==> forall c :: c in TokOf(s, t).text ==> c !in "<|>&;()")
  {
    hide Squeezed, Skip, WordEnd;
    var t := GetToken(s, i);
    var text := s[t.q..t.eq];
    NoGaps(s, i);
    SqueezeGaps(text, false);
  }

  lemma NoGaps(s: string, i: nat)
    requires i <= |s| && Skip(s, i) < |s|
    ensures var t := GetToken(s, i); forall k :: t.q <= k < t.eq ==> !Gap(s[k])
  {
    hide Skip, WordEnd;
  }
}
