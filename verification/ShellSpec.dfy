/** The shell's grammar (xv6/sh.c) as functions from positions to positions, the printed form
    of a command, and their round trip. */
module ShellSpec {

  const MAXARGS: nat := 10
  const NUL: char := '\0'

  predicate Blank(c: char) { c == ' ' || c == '\t' || c == '\r' || c == '\n' || c == 11 as char }

  predicate Symbol(c: char) { c == '<' || c == '|' || c == '>' || c == '&' || c == ';' || c == '(' || c == ')' }

  predicate WordChar(c: char) { c != NUL && !Blank(c) && !Symbol(c) }

  predicate NulFree(s: string) { forall k :: 0 <= k < |s| ==> s[k] != NUL }

  /** A pointer pair q, eq into the command line. */
  datatype Span = Span(q: nat, eq: nat)

  /** File and direction: `out` is fd 1, written (both > and >>); otherwise fd 0, read. */
  datatype Redirection<T> = Redirection(file: T, out: bool)

  datatype Cmd<T> =
    | Exec(argv: seq<T>)
    | Redir(cmd: Cmd<T>, to: Redirection<T>)
    | Pipe(left: Cmd<T>, right: Cmd<T>)
    | List(left: Cmd<T>, right: Cmd<T>)
    | Back(cmd: Cmd<T>)

  datatype Panic = MissingFile | NotBlock | MissingParen | Syntax | TooManyArgs | Leftovers

  datatype Result<T> = Ok(value: T, pos: nat) | Err(panic: Panic)

  // ---------------------------------------------------------------- tokens

  function Skip(s: string, i: nat): (r: nat)
    requires i <= |s|
    ensures i <= r <= |s| && (r < |s| ==> !Blank(s[r])) && forall k :: i <= k < r ==> Blank(s[k])
    decreases |s| - i
  {
    if i < |s| && Blank(s[i]) then Skip(s, i + 1) else i
  }

  function WordEnd(s: string, i: nat): (r: nat)
    requires i <= |s|
    ensures i <= r <= |s| && (r < |s| ==> Blank(s[r]) || Symbol(s[r])) && forall k :: i <= k < r ==>
      !Blank(s[k]) && !Symbol(s[k])
    decreases |s| - i
  {
    if i < |s| && !Blank(s[i]) && !Symbol(s[i]) then WordEnd(s, i + 1) else i
  }

  datatype Kind = End | Sym(c: char) | Append | Word

  datatype Token = Token(kind: Kind, q: nat, eq: nat, next: nat)

  /** gettoken: kind, extent and where scanning goes on. */
  function GetToken(s: string, i: nat): (t: Token)
    requires i <= |s|
    ensures i <= t.q <= t.eq <= t.next <= |s| && (t.kind.End? <==> t.q == |s|) && (!t.kind.End? ==> t.q < t.eq)
    ensures t.next == Skip(s, t.eq)
    ensures t.kind.Word? ==> !Symbol(s[t.q]) && t.eq == WordEnd(s, t.q)
    ensures t.kind.Sym? ==> t.kind.c == s[t.q] && Symbol(s[t.q])
  {
    var q := Skip(s, i);
    if q == |s| then Token(End, q, q, q)
    else if s[q] == '>' && q + 1 < |s| && s[q + 1] == '>' then Token(Append, q, q + 2, Skip(s, q + 2))
    else if Symbol(s[q]) then Token(Sym(s[q]), q, q + 1, Skip(s, q + 1))
    else
      var e := WordEnd(s, q);
      Token(Word, q, e, Skip(s, e))
  }

  /** peek, once blanks are skipped. */
  predicate Sees(s: string, j: nat, toks: set<char>)
    requires j <= |s|
  {
    j < |s| && s[j] in toks
  }

  // ---------------------------------------------------------------- the parser

  /** Redirections wrap a command from the inside out. */
  function Wrap<T>(c: Cmd<T>, w: seq<Redirection<T>>): Cmd<T>
    decreases |w|
  {
    if w == [] then c else Wrap(Redir(c, w[0]), w[1..])
  }

  function ParseRedirs(s: string, i: nat): (r: Result<seq<Redirection<Span>>>)
    requires i <= |s|
    ensures r.Ok? ==> i <= r.pos <= |s|
    decreases |s| - i
  {
    var j := Skip(s, i);
    if !Sees(s, j, {'<', '>'}) then Ok([], j)
    else
      var t := GetToken(s, j);
      var f := GetToken(s, t.next);
      if !f.kind.Word? then Err(MissingFile)
      else
        match ParseRedirs(s, f.next)
        case Err(e) => Err(e)
        case Ok(rest, p) => Ok([Redirection(Span(f.q, f.eq), t.kind != Sym('<'))] + rest, p)
  }

  /** A block with the redirections behind it. */
  function Redirected(s: string, i: nat, c: Cmd<Span>): (r: Result<Cmd<Span>>)
    requires i <= |s|
    ensures r.Ok? ==> i <= r.pos <= |s|
  {
    match ParseRedirs(s, i)
    case Err(e) => Err(e)
    case Ok(w, p) => Ok(Wrap(c, w), p)
  }

  function ParseArgs(s: string, i: nat, argv: seq<Span>, w: seq<Redirection<Span>>): (r: Result<Cmd<Span>>)
    requires i <= |s|
    ensures r.Ok? ==> i <= r.pos <= |s|
    decreases |s| - i
  {
    var j := Skip(s, i);
    if Sees(s, j, {'|', ')', '&', ';'}) then Ok(Wrap(Exec(argv), w), j)
    else
      var t := GetToken(s, j);
      if t.kind.End? then Ok(Wrap(Exec(argv), w), t.next)
      else if !t.kind.Word? then Err(Syntax)
      else if |argv| + 1 >= MAXARGS then Err(TooManyArgs)
      else
        match ParseRedirs(s, t.next)
        case Err(e) => Err(e)
        case Ok(more, p) => ParseArgs(s, p, argv + [Span(t.q, t.eq)], w + more)
  }

  function ParseExec(s: string, i: nat): (r: Result<Cmd<Span>>)
    requires i <= |s|
    ensures r.Ok? ==> i <= r.pos <= |s|
    decreases |s| - i, 1
  {
    var j := Skip(s, i);
    if Sees(s, j, {'('}) then ParseBlock(s, j)
    else
      match ParseRedirs(s, j)
      case Err(e) => Err(e)
      case Ok(w, p) => ParseArgs(s, p, [], w)
  }

  function ParseBlock(s: string, i: nat): (r: Result<Cmd<Span>>)
    requires i <= |s|
    ensures r.Ok? ==> i <= r.pos <= |s|
    decreases |s| - i, 0
  {
    if !Sees(s, Skip(s, i), {'('}) then Err(NotBlock)
    else
      match ParseLine(s, GetToken(s, i).next)
      case Err(e) => Err(e)
      case Ok(c, p) =>
        var k := Skip(s, p);
        if !Sees(s, k, {')'}) then Err(MissingParen)
        else Redirected(s, GetToken(s, k).next, c)
  }

  function ParsePipe(s: string, i: nat): (r: Result<Cmd<Span>>)
    requires i <= |s|
    ensures r.Ok? ==> i <= r.pos <= |s|
    decreases |s| - i, 2
  {
    match ParseExec(s, i)
    case Err(e) => Err(e)
    case Ok(c, p) =>
      var k := Skip(s, p);
      if !Sees(s, k, {'|'}) then Ok(c, k)
      else
        match ParsePipe(s, GetToken(s, k).next)
        case Err(e) => Err(e)
        case Ok(right, p') => Ok(Pipe(c, right), p')
  }

  /** The run of & after a pipeline. */
  function Backs(s: string, i: nat, c: Cmd<Span>): (r: (Cmd<Span>, nat))
    requires i <= |s|
    ensures i <= r.1 <= |s|
    decreases |s| - i
  {
    var k := Skip(s, i);
    if Sees(s, k, {'&'}) then Backs(s, GetToken(s, k).next, Back(c)) else (c, k)
  }

  function ParseLine(s: string, i: nat): (r: Result<Cmd<Span>>)
    requires i <= |s|
    ensures r.Ok? ==> i <= r.pos <= |s|
    decreases |s| - i, 3
  {
    match ParsePipe(s, i)
    case Err(e) => Err(e)
    case Ok(c, p) =>
      var (c', p') := Backs(s, p, c);
      var k := Skip(s, p');
      if !Sees(s, k, {';'}) then Ok(c', k)
      else
        match ParseLine(s, GetToken(s, k).next)
        case Err(e) => Err(e)
        case Ok(right, p'') => Ok(List(c', right), p'')
  }

  function ParseCmd(s: string): Result<Cmd<Span>> {
    match ParseLine(s, 0)
    case Err(e) => Err(e)
    case Ok(c, p) => if Skip(s, p) == |s| then Ok(c, |s|) else Err(Leftovers)
  }

  // ---------------------------------------------------------------- texts

  function TextOf(s: string, sp: Span): string {
    if sp.q <= sp.eq <= |s| then s[sp.q..sp.eq] else ""
  }

  function Texts(s: string, argv: seq<Span>): (r: seq<string>)
    ensures |r| == |argv|
  {
    seq(|argv|, k requires 0 <= k < |argv| => TextOf(s, argv[k]))
  }

  /** The command with the words it points to. */
  function Meaning(s: string, c: Cmd<Span>): Cmd<string> {
    match c
    case Exec(argv) => Exec(Texts(s, argv))
    case Redir(sub, to) => Redir(Meaning(s, sub), Redirection(TextOf(s, to.file), to.out))
    case Pipe(l, r) => Pipe(Meaning(s, l), Meaning(s, r))
    case List(l, r) => List(Meaning(s, l), Meaning(s, r))
    case Back(sub) => Back(Meaning(s, sub))
  }

  predicate IsWord(w: string) {
    w != [] && forall k :: 0 <= k < |w| ==> WordChar(w[k])
  }

  /** Trees that a command line can denote. */
  predicate WellFormed(c: Cmd<string>) {
    match c
    case Exec(argv) => |argv| < MAXARGS && forall k :: 0 <= k < |argv| ==> IsWord(argv[k])
    case Redir(sub, to) => WellFormed(sub) && IsWord(to.file)
    case Pipe(l, r) => WellFormed(l) && WellFormed(r)
    case List(l, r) => WellFormed(l) && WellFormed(r)
    case Back(sub) => WellFormed(sub)
  }

  // ---------------------------------------------------------------- printing

  function Join(words: seq<string>): string {
    if words == [] then "" else if |words| == 1 then words[0] else words[0] + " " + Join(words[1..])
  }

  function Paren(t: string): string {
    "(" + t + ")"
  }

  function Operator(to: Redirection<string>): string {
    if to.out then ">" else "<"
  }

  function Print(c: Cmd<string>): string {
    match c
    case Exec(argv) => Join(argv)
    case Redir(sub, to) => Paren(Print(sub)) + (Operator(to) + to.file)
    case Pipe(l, r) => Paren(Print(l)) + ("|" + Paren(Print(r)))
    case List(l, r) => Paren(Print(l)) + (";" + Paren(Print(r)))
    case Back(sub) => Paren(Print(sub)) + "&"
  }

  // ---------------------------------------------------------------- scanning a known text

  predicate At(s: string, i: nat, t: string) {
    i + |t| <= |s| && forall k :: 0 <= k < |t| ==> s[i + k] == t[k]
  }

  lemma AtSplit(s: string, i: nat, a: string, b: string)
    requires At(s, i, a + b)
    ensures At(s, i, a) && At(s, i + |a|, b)
  {
    forall k | 0 <= k < |a| ensures s[i + k] == a[k] { assert (a + b)[k] == a[k]; }
    forall k | 0 <= k < |b| ensures s[i + |a| + k] == b[k] { assert (a + b)[|a| + k] == b[k]; }
  }

  /** What may follow a printed command: the end, or the parenthesis around it. */
  predicate Stop(s: string, j: nat) {
    j == |s| || (j < |s| && s[j] == ')')
  }

  lemma WordAt(s: string, i: nat, w: string)
    requires IsWord(w) && At(s, i, w) && (i + |w| == |s| || Blank(s[i + |w|]) || Symbol(s[i + |w|]))
    ensures WordEnd(s, i) == i + |w| && GetToken(s, i).kind == Word && GetToken(s, i).q == i
      && GetToken(s, i).eq == i + |w|
    ensures TextOf(s, Span(i, i + |w|)) == w
  {
    assert s[i] == w[0];
    assert forall k :: i <= k < i + |w| ==> s[k] == w[k - i];
    assert s[i..i + |w|] == w;
  }

  /** A symbol followed by something that is no blank. */
  lemma SymbolAt(s: string, i: nat, c: char)
    requires i < |s| && s[i] == c && Symbol(c) && (i + 1 == |s| || !Blank(s[i + 1]))
      && (c == '>' ==> i + 1 == |s| || s[i + 1] != '>')
    ensures Skip(s, i) == i && GetToken(s, i) == Token(Sym(c), i, i + 1, i + 1)
  {
  }

  /** Printed commands start with a word or a parenthesis, or are empty. */
  lemma PrintStarts(c: Cmd<string>)
    requires WellFormed(c)
    ensures Print(c) != [] ==> WordChar(Print(c)[0]) || Print(c)[0] == '('
  {
    if c.Exec? && c.argv != [] {
      assert IsWord(c.argv[0]);
      assert Print(c)[0] == c.argv[0][0];
    }
  }

  // ---------------------------------------------------------------- single steps of the parser

  lemma NoRedirs(s: string, i: nat)
    requires i == |s| || (i < |s| && !Blank(s[i]) && s[i] != '<' && s[i] != '>')
    ensures ParseRedirs(s, i) == Ok([], i)
  {
  }

  lemma StopSkip(s: string, j: nat)
    requires Stop(s, j)
    ensures Skip(s, j) == j && ParseRedirs(s, j) == Ok([], j)
    ensures !Sees(s, j, {'|'}) && !Sees(s, j, {'&'}) && !Sees(s, j, {';'}) && !Sees(s, j, {'('})
  {
  }

  lemma ArgsStop(s: string, i: nat, argv: seq<Span>, w: seq<Redirection<Span>>)
    requires Stop(s, i)
    ensures ParseArgs(s, i, argv, w) == Ok(Wrap(Exec(argv), w), i)
  {
    assert Skip(s, i) == i;
  }

  lemma ArgsWord(s: string, i: nat, argv: seq<Span>, t: Token)
    requires i < |s| && t == GetToken(s, i) && t.kind == Word && t.q == i && WordChar(s[i]) && |argv| + 1 < MAXARGS
    requires ParseRedirs(s, t.next) == Ok([], t.next)
    ensures ParseArgs(s, i, argv, []) == ParseArgs(s, t.next, argv + [Span(i, t.eq)], [])
  {
    assert Skip(s, i) == i;
    var none: seq<Redirection<Span>> := [];
    assert none + none == none;
  }

  lemma ExecStep(s: string, i: nat)
    requires i <= |s| && Skip(s, i) == i && !Sees(s, i, {'('}) && ParseRedirs(s, i) == Ok([], i)
    ensures ParseExec(s, i) == ParseArgs(s, i, [], [])
  {
  }

  lemma BlockStep(s: string, i: nat, sub: Cmd<Span>, p: nat)
    requires i < p < |s| && s[i] == '(' && s[p] == ')' && !Blank(s[i + 1]) && (p + 1 == |s| || !Blank(s[p + 1]))
    requires ParseLine(s, i + 1) == Ok(sub, p)
    ensures ParseExec(s, i) == Redirected(s, p + 1, sub)
  {
    hide ParseLine, Redirected;
    SymbolAt(s, i, '(');
    SymbolAt(s, p, ')');
  }

  lemma PipeBare(s: string, i: nat, c: Cmd<Span>, p: nat)
    requires i <= |s| && ParseExec(s, i) == Ok(c, p) && p <= |s| && Skip(s, p) == p && !Sees(s, p, {'|'})
    ensures ParsePipe(s, i) == Ok(c, p)
  {
    hide ParseExec;
  }

  /** At a stop the command before it is the whole line. */
  lemma LineEnds(s: string, i: nat, c: Cmd<Span>, p: nat)
    requires i <= |s| && ParseExec(s, i) == Ok(c, p) && Stop(s, p)
    ensures ParsePipe(s, i) == Ok(c, p) && ParseLine(s, i) == Ok(c, p)
  {
    hide ParseExec, ParsePipe, ParseLine;
    StopSkip(s, p);
    PipeBare(s, i, c, p);
    LineStop(s, i, c, p);
  }

  lemma LineStop(s: string, i: nat, c: Cmd<Span>, p: nat)
    requires i <= |s| && ParsePipe(s, i) == Ok(c, p) && Stop(s, p)
    ensures ParseLine(s, i) == Ok(c, p)
  {
    hide ParsePipe;
    StopSkip(s, p);
    assert Backs(s, p, c) == (c, p);
  }

  lemma PipeStep(s: string, i: nat, c: Cmd<Span>, p: nat, r: Cmd<Span>, e: nat)
    requires i <= |s| && ParseExec(s, i) == Ok(c, p) && p < |s| && s[p] == '|' && (p + 1 == |s| || !Blank(s[p + 1]))
    requires ParsePipe(s, p + 1) == Ok(r, e)
    ensures ParsePipe(s, i) == Ok(Pipe(c, r), e)
  {
    hide ParseExec;
    SymbolAt(s, p, '|');
  }

  lemma ListStep(s: string, i: nat, c: Cmd<Span>, p: nat, r: Cmd<Span>, e: nat)
    requires i <= |s| && ParseExec(s, i) == Ok(c, p) && p < |s| && s[p] == ';' && (p + 1 == |s| || !Blank(s[p + 1]))
    requires ParseLine(s, p + 1) == Ok(r, e)
    ensures ParseLine(s, i) == Ok(List(c, r), e)
  {
    hide ParseExec, ParsePipe;
    SymbolAt(s, p, ';');
    PipeBare(s, i, c, p);
    assert Backs(s, p, c) == (c, p);
  }

  lemma BackStep(s: string, i: nat, c: Cmd<Span>, p: nat)
    requires i <= |s| && ParseExec(s, i) == Ok(c, p) && p < |s| && s[p] == '&' && Stop(s, p + 1)
    ensures ParseLine(s, i) == Ok(Back(c), p + 1)
  {
    hide ParseExec, ParsePipe;
    SymbolAt(s, p, '&');
    PipeBare(s, i, c, p);
    StopSkip(s, p + 1);
    assert Backs(s, p + 1, Back(c)) == (Back(c), p + 1);
    assert Backs(s, p, c) == (Back(c), p + 1);
  }

  // ---------------------------------------------------------------- the round trip

  /** The loop of parseexec reads back the words that Join wrote. */
  lemma {:induction false} ArgsRoundTrip(s: string, i: nat, argv: seq<Span>, words: seq<string>)
    returns (spans: seq<Span>)
    requires At(s, i, Join(words)) && Stop(s, i + |Join(words)|) && |argv| + |words| < MAXARGS
    requires forall k :: 0 <= k < |words| ==> IsWord(words[k])
    ensures ParseArgs(s, i, argv, []) == Ok(Exec(argv + spans), i + |Join(words)|) && Texts(s, spans) == words
    decreases |words|
  {
    hide ParseArgs, ParseRedirs, Skip, GetToken, TextOf;
    if words == [] {
      ArgsStop(s, i, argv, []);
      spans := [];
      assert argv + spans == argv;
    } else {
      var t, next := WordStep(s, i, words);
      ArgsWord(s, i, argv, t);
      var more := ArgsRoundTrip(s, next, argv + [Span(i, t.eq)], words[1..]);
      spans := [Span(i, t.eq)] + more;
      assert argv + spans == argv + [Span(i, t.eq)] + more;
      assert Texts(s, spans) == [TextOf(s, Span(i, t.eq))] + Texts(s, more);
    }
  }

  /** Scanning the first of several joined words leads to the next one. */
  lemma WordStep(s: string, i: nat, words: seq<string>) returns (t: Token, next: nat)
    requires words != [] && At(s, i, Join(words)) && Stop(s, i + |Join(words)|)
    requires forall k :: 0 <= k < |words| ==> IsWord(words[k])
    ensures i < |s| && WordChar(s[i]) && t == GetToken(s, i) && t.kind == Word && t.q == i && t.next == next
      && TextOf(s, Span(i, t.eq)) == words[0]
    ensures next <= |s| && ParseRedirs(s, next) == Ok([], next)
    ensures At(s, next, Join(words[1..])) && next + |Join(words[1..])| == i + |Join(words)|
  {
    hide ParseRedirs, GetToken, Skip, TextOf;
    var w, rest := words[0], words[1..];
    assert IsWord(w);
    if rest == [] {
      next := i + |w|;
      StopSkip(s, next);
    } else {
      assert Join(words) == w + (" " + Join(rest));
      AtSplit(s, i, w, " " + Join(rest));
      AtSplit(s, i + |w|, " ", Join(rest));
      next := i + |w| + 1;
      assert s[i + |w| + 0] == " "[0];
      JoinStarts(rest);
      assert s[next + 0] == Join(rest)[0];
      NoRedirs(s, next);
      SkipOne(s, i + |w|);
    }
    assert s[i + 0] == w[0];
    WordAt(s, i, w);
    t := GetToken(s, i);
  }

  lemma SkipOne(s: string, i: nat)
    requires i + 1 < |s| && Blank(s[i]) && !Blank(s[i + 1])
    ensures Skip(s, i) == i + 1
  {
    assert Skip(s, i + 1) == i + 1;
  }

  lemma JoinStarts(words: seq<string>)
    requires words != [] && forall k :: 0 <= k < |words| ==> IsWord(words[k])
    ensures Join(words) != [] && WordChar(Join(words)[0])
  {
    assert IsWord(words[0]);
    assert Join(words)[0] == words[0][0];
  }

  lemma ExecRoundTrip(s: string, i: nat, argv: seq<string>) returns (r: Cmd<Span>)
    requires WellFormed(Exec(argv)) && At(s, i, Join(argv)) && Stop(s, i + |Join(argv)|)
    ensures ParseExec(s, i) == Ok(r, i + |Join(argv)|) && Meaning(s, r) == Exec(argv)
  {
    hide ParseExec, ParseRedirs, ParseArgs, TextOf;
    if argv != [] {
      JoinStarts(argv);
      assert s[i + 0] == Join(argv)[0];
    }
    assert Skip(s, i) == i;
    NoRedirs(s, i);
    var spans := ArgsRoundTrip(s, i, [], argv);
    assert [] + spans == spans;
    ExecStep(s, i);
    r := Exec(spans);
  }

  lemma OneRedir(s: string, j: nat, to: Redirection<string>, c: Cmd<Span>)
    requires IsWord(to.file) && At(s, j, Operator(to) + to.file) && Stop(s, j + 1 + |to.file|)
    ensures var e := j + 1 + |to.file|;
      Redirected(s, j, c) == Ok(Redir(c, Redirection(Span(j + 1, e), to.out)), e)
        && TextOf(s, Span(j + 1, e)) == to.file
  {
    hide GetToken, TextOf;
    var e := j + 1 + |to.file|;
    AtSplit(s, j, Operator(to), to.file);
    assert s[j + 0] == Operator(to)[0] && s[j + 1 + 0] == to.file[0];
    SymbolAt(s, j, Operator(to)[0]);
    WordAt(s, j + 1, to.file);
    StopSkip(s, e);
    var w := [Redirection(Span(j + 1, e), to.out)];
    var none: seq<Redirection<Span>> := [];
    assert w + none == w && w[1..] == none;
    assert Wrap(Redir(c, w[0]), none) == Redir(c, w[0]);
  }

  /** The main induction: a printed command inside a longer line parses back to itself. */
  lemma {:induction false} LineRoundTrip(s: string, i: nat, c: Cmd<string>) returns (r: Cmd<Span>)
    requires WellFormed(c) && At(s, i, Print(c)) && Stop(s, i + |Print(c)|)
    ensures ParseLine(s, i) == Ok(r, i + |Print(c)|) && Meaning(s, r) == c
    decreases c, 1
  {
    hide ParseLine, ParsePipe, ParseExec, Redirected, Skip, At, Stop, WellFormed, TextOf, Texts;
    PrintIs(c);
    match c
    case Exec(argv) =>
      r := ExecRoundTrip(s, i, argv);
      LineEnds(s, i, r, i + |Print(c)|);
    case Redir(sub, to) =>
      var inner, j := BlockRoundTrip(s, i, sub, Operator(to) + to.file);
      OneRedir(s, j, to, inner);
      r := Redir(inner, Redirection(Span(j + 1, j + 1 + |to.file|), to.out));
      LineEnds(s, i, r, i + |Print(c)|);
    case Pipe(left, right) =>
      var a, j := BlockRoundTrip(s, i, left, "|" + Paren(Print(right)));
      var b, e := LastBlock(s, j, '|', right);
      Bare(s, j, a, '|');
      PipeStep(s, i, a, j, b, e);
      r := Pipe(a, b);
      LineStop(s, i, r, e);
    case List(left, right) =>
      var a, j := BlockRoundTrip(s, i, left, ";" + Paren(Print(right)));
      var b, e := LastBlock(s, j, ';', right);
      Bare(s, j, a, ';');
      ListStep(s, i, a, j, b, e);
      r := List(a, b);
    case Back(sub) =>
      var a, j := BlockRoundTrip(s, i, sub, "&");
      AtSymbol(s, j, "&");
      Bare(s, j, a, '&');
      BackStep(s, i, a, j);
      r := Back(a);
  }

  lemma PrintIs(c: Cmd<string>)
    requires WellFormed(c)
    ensures match c
      case Exec(argv) => Print(c) == Join(argv)
      case Redir(sub, to) => Print(c) == Paren(Print(sub)) + (Operator(to) + to.file) && IsWord(to.file)
      case Pipe(l, r) => Print(c) == Paren(Print(l)) + ("|" + Paren(Print(r)))
      case List(l, r) => Print(c) == Paren(Print(l)) + (";" + Paren(Print(r)))
      case Back(sub) => Print(c) == Paren(Print(sub)) + "&"
    ensures c.Redir? || c.Back? ==> WellFormed(c.cmd)
    ensures c.Pipe? || c.List? ==> WellFormed(c.left) && WellFormed(c.right)
  {
  }

  lemma AtSymbol(s: string, j: nat, t: string)
    requires At(s, j, t) && t != []
    ensures j < |s| && s[j] == t[0]
  {
    assert s[j + 0] == t[0];
  }

  /** A block that no redirection follows. */
  lemma Bare(s: string, j: nat, c: Cmd<Span>, next: char)
    requires j < |s| && s[j] == next && !Blank(next) && next != '<' && next != '>'
    ensures Redirected(s, j, c) == Ok(c, j)
  {
    NoRedirs(s, j);
  }

  /** (c) and whatever symbol comes next: c is parsed, then its redirections. */
  lemma {:induction false} BlockRoundTrip(s: string, i: nat, c: Cmd<string>, tail: string)
    returns (r: Cmd<Span>, j: nat)
    requires WellFormed(c) && At(s, i, Paren(Print(c)) + tail) && tail != [] && Symbol(tail[0])
    ensures j == i + |Paren(Print(c))| && At(s, j, tail) && ParseExec(s, i) == Redirected(s, j, r) && Meaning(s, r) == c
    decreases c, 3
  {
    hide ParseLine, ParseExec, Redirected, Print, Meaning, WellFormed;
    AtSplit(s, i, Paren(Print(c)), tail);
    AtSymbol(s, i + |Paren(Print(c))|, tail);
    r, j := ParenRoundTrip(s, i, c);
  }

  lemma {:induction false} ParenRoundTrip(s: string, i: nat, c: Cmd<string>) returns (r: Cmd<Span>, j: nat)
    requires WellFormed(c) && At(s, i, Paren(Print(c)))
    requires var j := i + |Paren(Print(c))|; j == |s| || !Blank(s[j])
    ensures j == i + |Paren(Print(c))| && ParseExec(s, i) == Redirected(s, j, r) && Meaning(s, r) == c
    decreases c, 2
  {
    hide ParseLine, ParseExec, Redirected, Print, Meaning, WellFormed;
    var t := Print(c);
    assert Paren(t) == "(" + (t + ")");
    AtSplit(s, i, "(", t + ")");
    AtSplit(s, i + 1, t, ")");
    AtSymbol(s, i, "(");
    AtSymbol(s, i + 1 + |t|, ")");
    AtSymbol(s, i + 1, t + ")");
    PrintStarts(c);
    r := LineRoundTrip(s, i + 1, c);
    j := i + |Paren(t)|;
    BlockStep(s, i, r, j - 1);
  }

  /** The right-hand side of | or ; is the last thing before the stop. */
  lemma {:induction false} LastBlock(s: string, j: nat, op: char, c: Cmd<string>) returns (r: Cmd<Span>, e: nat)
    requires WellFormed(c) && At(s, j, [op] + Paren(Print(c))) && Stop(s, j + 1 + |Paren(Print(c))|)
    ensures j + 1 < |s| && s[j] == op && s[j + 1] == '(' && e == j + 1 + |Paren(Print(c))|
    ensures ParsePipe(s, j + 1) == Ok(r, e) && ParseLine(s, j + 1) == Ok(r, e) && Meaning(s, r) == c
    decreases c, 3
  {
    hide ParseLine, ParsePipe, ParseExec, Print, Meaning, WellFormed, Redirected, ParseRedirs;
    AtSplit(s, j, [op], Paren(Print(c)));
    AtSymbol(s, j, [op]);
    AtSymbol(s, j + 1, Paren(Print(c)));
    r, e := ParenRoundTrip(s, j + 1, c);
    StopSkip(s, e);
    RedirectedStop(s, e, r);
    LineEnds(s, j + 1, r, e);
  }

  lemma RedirectedStop(s: string, e: nat, c: Cmd<Span>)
    requires Stop(s, e)
    ensures Redirected(s, e, c) == Ok(c, e)
  {
    StopSkip(s, e);
  }

  /** parsecmd undoes printing. */
  lemma RoundTrip(c: Cmd<string>)
    requires WellFormed(c)
    ensures var s := Print(c); ParseCmd(s).Ok? && Meaning(s, ParseCmd(s).value) == c
  {
    hide ParseLine, Print, Meaning;
    var r := LineRoundTrip(Print(c), 0, c);
    assert Skip(Print(c), |Print(c)|) == |Print(c)|;
  }

  /** Different commands are printed differently. */
  lemma PrintInjective(c: Cmd<string>, d: Cmd<string>)
    requires WellFormed(c) && WellFormed(d) && Print(c) == Print(d)
    ensures c == d
  {
    RoundTrip(c);
    RoundTrip(d);
  }

  // ---------------------------------------------------------------- where the pointers of a parsed tree point

  /** A maximal run of word characters. */
  predicate GoodSpan(s: string, sp: Span) {
    && sp.q < sp.eq <= |s| && (forall k :: sp.q <= k < sp.eq ==> WordChar(s[k]))
    && (sp.eq == |s| || !WordChar(s[sp.eq]))
  }

  predicate GoodCmd(s: string, c: Cmd<Span>) {
    match c
    case Exec(argv) => |argv| < MAXARGS && forall k :: 0 <= k < |argv| ==> GoodSpan(s, argv[k])
    case Redir(sub, to) => GoodCmd(s, sub) && GoodSpan(s, to.file)
    case Pipe(l, r) => GoodCmd(s, l) && GoodCmd(s, r)
    case List(l, r) => GoodCmd(s, l) && GoodCmd(s, r)
    case Back(sub) => GoodCmd(s, sub)
  }

  lemma TokenGood(s: string, i: nat)
    requires i <= |s| && NulFree(s) && GetToken(s, i).kind == Word
    ensures var t := GetToken(s, i); GoodSpan(s, Span(t.q, t.eq))
  {
  }

  predicate GoodRedirs(s: string, w: seq<Redirection<Span>>) {
    forall k :: 0 <= k < |w| ==> GoodSpan(s, w[k].file)
  }

  lemma {:induction false} RedirsGood(s: string, i: nat)
    requires i <= |s| && NulFree(s) && ParseRedirs(s, i).Ok?
    ensures GoodRedirs(s, ParseRedirs(s, i).value)
    decreases |s| - i
  {
    hide GoodSpan, Skip;
    var j := Skip(s, i);
    if Sees(s, j, {'<', '>'}) {
      var f := GetToken(s, GetToken(s, j).next);
      TokenGood(s, GetToken(s, j).next);
      RedirsGood(s, f.next);
    }
  }

  lemma {:induction false} WrapGood(s: string, c: Cmd<Span>, w: seq<Redirection<Span>>)
    requires GoodCmd(s, c) && GoodRedirs(s, w)
    ensures GoodCmd(s, Wrap(c, w))
    decreases |w|
  {
    hide GoodSpan;
    if w != [] {
      WrapGood(s, Redir(c, w[0]), w[1..]);
    }
  }

  lemma {:induction false} ArgsGood(s: string, i: nat, argv: seq<Span>, w: seq<Redirection<Span>>)
    requires i <= |s| && NulFree(s) && ParseArgs(s, i, argv, w).Ok? && GoodCmd(s, Exec(argv)) && GoodRedirs(s, w)
    ensures GoodCmd(s, ParseArgs(s, i, argv, w).value)
    decreases |s| - i
  {
    hide GoodSpan, Skip, ParseRedirs, Wrap;
    var j := Skip(s, i);
    var t := GetToken(s, j);
    if Sees(s, j, {'|', ')', '&', ';'}) || t.kind.End? {
      WrapGood(s, Exec(argv), w);
    } else {
      TokenGood(s, j);
      RedirsGood(s, t.next);
      ArgsGood(s, ParseRedirs(s, t.next).pos, argv + [Span(t.q, t.eq)], w + ParseRedirs(s, t.next).value);
    }
  }

  lemma {:induction false} ExecGood(s: string, i: nat)
    requires i <= |s| && NulFree(s) && ParseExec(s, i).Ok?
    ensures GoodCmd(s, ParseExec(s, i).value)
    decreases |s| - i, 1
  {
    hide GoodSpan, Skip, ParseRedirs, ParseLine, Wrap, ParseArgs;
    var j := Skip(s, i);
    if Sees(s, j, {'('}) {
      BlockGood(s, j);
    } else {
      RedirsGood(s, j);
      ArgsGood(s, ParseRedirs(s, j).pos, [], ParseRedirs(s, j).value);
    }
  }

  lemma {:induction false} BlockGood(s: string, i: nat)
    requires i <= |s| && NulFree(s) && ParseBlock(s, i).Ok?
    ensures GoodCmd(s, ParseBlock(s, i).value)
    decreases |s| - i, 0
  {
    hide GoodSpan, Skip, ParseRedirs, ParseLine, Wrap, GoodCmd;
    var l := ParseLine(s, GetToken(s, i).next);
    LineGood(s, GetToken(s, i).next);
    var k := Skip(s, l.pos);
    RedirsGood(s, GetToken(s, k).next);
    WrapGood(s, l.value, ParseRedirs(s, GetToken(s, k).next).value);
  }

  lemma {:induction false} PipeGood(s: string, i: nat)
    requires i <= |s| && NulFree(s) && ParsePipe(s, i).Ok?
    ensures GoodCmd(s, ParsePipe(s, i).value)
    decreases |s| - i, 2
  {
    hide GoodSpan, Skip, ParseExec;
    ExecGood(s, i);
    var k := Skip(s, ParseExec(s, i).pos);
    if Sees(s, k, {'|'}) {
      PipeGood(s, GetToken(s, k).next);
    }
  }

  lemma {:induction false} BacksGood(s: string, i: nat, c: Cmd<Span>)
    requires i <= |s| && GoodCmd(s, c)
    ensures GoodCmd(s, Backs(s, i, c).0)
    decreases |s| - i
  {
    hide GoodSpan, Skip;
    var k := Skip(s, i);
    if Sees(s, k, {'&'}) {
      BacksGood(s, GetToken(s, k).next, Back(c));
    }
  }

  lemma {:induction false} LineGood(s: string, i: nat)
    requires i <= |s| && NulFree(s) && ParseLine(s, i).Ok?
    ensures GoodCmd(s, ParseLine(s, i).value)
    decreases |s| - i, 3
  {
    hide GoodSpan, Skip, ParsePipe, Backs;
    PipeGood(s, i);
    var p := ParsePipe(s, i);
    BacksGood(s, p.pos, p.value);
    var k := Skip(s, Backs(s, p.pos, p.value).1);
    if Sees(s, k, {';'}) {
      LineGood(s, GetToken(s, k).next);
    }
  }

  lemma {:induction false} MeaningWellFormed(s: string, c: Cmd<Span>)
    requires GoodCmd(s, c)
    ensures WellFormed(Meaning(s, c))
    decreases c
  {
    match c
    case Exec(argv) =>
      forall k | 0 <= k < |argv| ensures IsWord(Texts(s, argv)[k]) { GoodText(s, argv[k]); }
    case Redir(sub, to) =>
      GoodText(s, to.file);
      MeaningWellFormed(s, sub);
    case Pipe(l, r) =>
      MeaningWellFormed(s, l);
      MeaningWellFormed(s, r);
    case List(l, r) =>
      MeaningWellFormed(s, l);
      MeaningWellFormed(s, r);
    case Back(sub) =>
      MeaningWellFormed(s, sub);
  }

  lemma GoodText(s: string, sp: Span)
    requires GoodSpan(s, sp)
    ensures IsWord(TextOf(s, sp))
  {
  }

  /** Whatever line parses, printing its tree and parsing that gives the same command. */
  lemma Reparse(s: string)
    requires NulFree(s) && ParseCmd(s).Ok?
    ensures var c := Meaning(s, ParseCmd(s).value);
      WellFormed(c) && ParseCmd(Print(c)).Ok? && Meaning(Print(c), ParseCmd(Print(c)).value) == c
  {
    hide ParseLine, Meaning, Print;
    LineGood(s, 0);
    MeaningWellFormed(s, ParseCmd(s).value);
    RoundTrip(Meaning(s, ParseCmd(s).value));
  }

  // ---------------------------------------------------------------- nulterminate

  ghost function Spans(c: Cmd<Span>): set<Span> {
    match c
    case Exec(argv) => set sp | sp in argv
    case Redir(sub, to) => Spans(sub) + {to.file}
    case Pipe(l, r) => Spans(l) + Spans(r)
    case List(l, r) => Spans(l) + Spans(r)
    case Back(sub) => Spans(sub)
  }

  /** A NUL at the end of every span, and no other change. */
  ghost predicate Terminated(b: seq<char>, b': seq<char>, spans: set<Span>) {
    && |b'| == |b|
    && (forall sp :: sp in spans && sp.eq < |b| ==> b'[sp.eq] == NUL)
    && forall k :: 0 <= k < |b| && b'[k] != b[k] ==> exists sp :: sp in spans && sp.eq == k
  }

  /** The C string that starts at q. */
  function CString(b: seq<char>, q: nat): string
    decreases |b| - q
  {
    if q >= |b| || b[q] == NUL then "" else [b[q]] + CString(b, q + 1)
  }

  lemma {:induction false} SpansGood(s: string, c: Cmd<Span>, sp: Span)
    requires GoodCmd(s, c) && sp in Spans(c)
    ensures GoodSpan(s, sp)
    decreases c
  {
    match c
    case Exec(argv) =>
    case Redir(sub, to) => if sp in Spans(sub) { SpansGood(s, sub, sp); }
    case Pipe(l, r) => if sp in Spans(l) { SpansGood(s, l, sp); } else { SpansGood(s, r, sp); }
    case List(l, r) => if sp in Spans(l) { SpansGood(s, l, sp); } else { SpansGood(s, r, sp); }
    case Back(sub) => SpansGood(s, sub, sp);
  }

  lemma {:induction false} CStringIs(b: seq<char>, q: nat, e: nat)
    requires q <= e < |b| && b[e] == NUL && forall k :: q <= k < e ==> b[k] != NUL
    ensures CString(b, q) == b[q..e]
    decreases e - q
  {
    if q < e {
      CStringIs(b, q + 1, e);
      assert b[q..e] == [b[q]] + b[q + 1..e];
    }
  }

  /** After nulterminate each pointer of the tree reads as the token that was scanned. */
  lemma ReadsBack(s: string, c: Cmd<Span>, b: seq<char>, sp: Span)
    requires GoodCmd(s, c) && Terminated(s + [NUL], b, Spans(c)) && sp in Spans(c)
    ensures sp.eq <= |s| && CString(b, sp.q) == TextOf(s, sp)
  {
    SpansGood(s, c, sp);
    forall k | sp.q <= k < sp.eq ensures b[k] == s[k] && b[k] != NUL {
      if b[k] != (s + [NUL])[k] {
        var other :| other in Spans(c) && other.eq == k;
        SpansGood(s, c, other);
      }
      assert WordChar(s[k]);
    }
    CStringIs(b, sp.q, sp.eq);
    assert b[sp.q..sp.eq] == s[sp.q..sp.eq];
  }
}
