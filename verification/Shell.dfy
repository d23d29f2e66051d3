/** xv6/sh.c: the scanner and parser as loops that advance a position, and nulterminate,
    which overwrites the line buffer. */
module Shell {
  import opened ShellSpec

  /** gettoken */
  method Gettoken(s: string, i: nat) returns (t: Token)
    requires i <= |s| && NulFree(s)
    ensures t == GetToken(s, i)
  {
    var q := Blanks(s, i);
    var p, kind := q, End;
    if q < |s| {
      if s[q] == '|' || s[q] == '(' || s[q] == ')' || s[q] == ';' || s[q] == '&' || s[q] == '<' {
        kind := Sym(s[q]);
        p := q + 1;
      } else if s[q] == '>' {
        kind := Sym('>');
        p := q + 1;
        if p < |s| && s[p] == '>' {
          kind := Append;
          p := p + 1;
        }
      } else {
        kind := Word;
        while p < |s| && !Blank(s[p]) && !Symbol(s[p])
          invariant q <= p <= |s| && WordEnd(s, q) == WordEnd(s, p)
        {
          p := p + 1;
        }
      }
    }
    var next := Blanks(s, p);
    t := Token(kind, q, p, next);
  }

  method Blanks(s: string, i: nat) returns (r: nat)
    requires i <= |s|
    ensures r == Skip(s, i)
  {
    r := i;
    while r < |s| && Blank(s[r])
      invariant i <= r <= |s| && Skip(s, i) == Skip(s, r)
    {
      r := r + 1;
    }
  }

  /** peek */
  method Peek(s: string, i: nat, toks: set<char>) returns (next: nat, seen: bool)
    requires i <= |s| && NulFree(s)
    ensures next == Skip(s, i) && seen == Sees(s, next, toks)
  {
    next := Blanks(s, i);
    seen := next < |s| && s[next] in toks;
  }

  /** parseredirs, without the command it wraps; the caller applies the list. */
  method Parseredirs(s: string, i: nat) returns (r: Result<seq<Redirection<Span>>>)
    requires i <= |s| && NulFree(s)
    ensures r == ParseRedirs(s, i)
  {
    hide GetToken, Skip;
    var w: seq<Redirection<Span>> := [];
    var p, seen := Peek(s, i, {'<', '>'});
    NoneBefore(s, i);
    while seen
      invariant p <= |s| && p == Skip(s, p) && seen == Sees(s, p, {'<', '>'})
      invariant ParseRedirs(s, i) == Prefixed(w, ParseRedirs(s, p))
      decreases |s| - p
    {
      var t := Gettoken(s, p);
      var f := Gettoken(s, t.next);
      if f.kind != Word {
        return Err(MissingFile);
      }
      PrefixedMore(s, p, w, t, f);
      w := w + [Redirection(Span(f.q, f.eq), t.kind != Sym('<'))];
      p, seen := Peek(s, f.next, {'<', '>'});
      SkipTwice(s, f.next);
    }
    assert w + [] == w;
    return Ok(w, p);
  }

  /** What the loop still has to prepend. */
  function Prefixed(w: seq<Redirection<Span>>, r: Result<seq<Redirection<Span>>>): Result<seq<Redirection<Span>>> {
    match r
    case Err(e) => Err(e)
    case Ok(rest, p) => Ok(w + rest, p)
  }

  lemma SkipTwice(s: string, i: nat)
    requires i <= |s|
    ensures Skip(s, Skip(s, i)) == Skip(s, i) && ParseRedirs(s, Skip(s, i)) == ParseRedirs(s, i)
  {
  }

  lemma NoneBefore(s: string, i: nat)
    requires i <= |s|
    ensures Skip(s, Skip(s, i)) == Skip(s, i) && ParseRedirs(s, i) == Prefixed([], ParseRedirs(s, Skip(s, i)))
  {
    hide ParseRedirs;
    SkipTwice(s, i);
    var r := ParseRedirs(s, i);
    assert r.Ok? ==> [] + r.value == r.value;
  }

  lemma PrefixedMore(s: string, p: nat, w: seq<Redirection<Span>>, t: Token, f: Token)
    requires p <= |s| && Skip(s, p) == p && Sees(s, p, {'<', '>'}) && t == GetToken(s, p) && f == GetToken(s, t.next)
      && f.kind == Word
    ensures Prefixed(w, ParseRedirs(s, p)) ==
      Prefixed(w + [Redirection(Span(f.q, f.eq), t.kind != Sym('<'))], ParseRedirs(s, f.next))
  {
    hide GetToken;
    var one := [Redirection(Span(f.q, f.eq), t.kind != Sym('<'))];
    var r := ParseRedirs(s, f.next);
    if r.Ok? {
      assert w + (one + r.value) == w + one + r.value;
    }
  }

  /** parseexec */
  method Parseexec(s: string, i: nat) returns (r: Result<Cmd<Span>>)
    requires i <= |s| && NulFree(s)
    ensures r == ParseExec(s, i)
    decreases |s| - i, 1
  {
    hide GetToken, ParseLine, ParseBlock, ParseRedirs, ParseArgs;
    var p, block := Peek(s, i, {'('});
    if block {
      SkipTwice(s, i);
      r := Parseblock(s, p);
      return;
    }
    var w := Parseredirs(s, p);
    if w.Err? {
      return Err(w.panic);
    }
    r := Parsewords(s, w.pos, w.value);
  }

  /** parseexec's loop over the words of a command. */
  method Parsewords(s: string, i: nat, w0: seq<Redirection<Span>>) returns (r: Result<Cmd<Span>>)
    requires i <= |s| && NulFree(s)
    ensures r == ParseArgs(s, i, [], w0)
  {
    hide GetToken, ParseRedirs;
    var argv: seq<Span>, w := [], w0;
    var p, stop := Peek(s, i, {'|', ')', '&', ';'});
    ArgsSkip(s, i, argv, w);
    while !stop
      invariant p <= |s| && p == Skip(s, p) && stop == Sees(s, p, {'|', ')', '&', ';'})
      invariant ParseArgs(s, i, [], w0) == ParseArgs(s, p, argv, w)
      decreases |s| - p
    {
      var t := Gettoken(s, p);
      if t.kind == End {
        return Ok(Wrap(Exec(argv), w), t.next);
      }
      if t.kind != Word {
        return Err(Syntax);
      }
      argv := argv + [Span(t.q, t.eq)];
      if |argv| >= MAXARGS {
        return Err(TooManyArgs);
      }
      var more := Parseredirs(s, t.next);
      if more.Err? {
        return Err(more.panic);
      }
      w := w + more.value;
      p, stop := Peek(s, more.pos, {'|', ')', '&', ';'});
      ArgsSkip(s, more.pos, argv, w);
    }
    return Ok(Wrap(Exec(argv), w), p);
  }

  lemma ArgsSkip(s: string, i: nat, argv: seq<Span>, w: seq<Redirection<Span>>)
    requires i <= |s|
    ensures Skip(s, Skip(s, i)) == Skip(s, i) && ParseArgs(s, Skip(s, i), argv, w) == ParseArgs(s, i, argv, w)
  {
  }

  /** parseblock */
  method Parseblock(s: string, i: nat) returns (r: Result<Cmd<Span>>)
    requires i <= |s| && NulFree(s)
    ensures r == ParseBlock(s, i)
    decreases |s| - i, 0
  {
    hide ParseLine, ParseRedirs, Wrap, Skip;
    var j, open := Peek(s, i, {'('});
    if !open {
      return Err(NotBlock);
    }
    TokenAfterBlanks(s, i);
    var t := Gettoken(s, j);
    var c := Parseline(s, t.next);
    if c.Err? {
      return c;
    }
    var k, close := Peek(s, c.pos, {')'});
    if !close {
      return Err(MissingParen);
    }
    t := Gettoken(s, k);
    var w := Parseredirs(s, t.next);
    if w.Err? {
      return Err(w.panic);
    }
    return Ok(Wrap(c.value, w.value), w.pos);
  }

  lemma TokenAfterBlanks(s: string, i: nat)
    requires i <= |s|
    ensures GetToken(s, Skip(s, i)) == GetToken(s, i)
  {
    hide Skip, WordEnd, ParseRedirs, Symbol, Blank;
    SkipTwice(s, i);
  }

  /** parsepipe */
  method Parsepipe(s: string, i: nat) returns (r: Result<Cmd<Span>>)
    requires i <= |s| && NulFree(s)
    ensures r == ParsePipe(s, i)
    decreases |s| - i, 2
  {
    hide ParseExec, Skip;
    r := Parseexec(s, i);
    if r.Err? {
      return;
    }
    var k, bar := Peek(s, r.pos, {'|'});
    if !bar {
      return Ok(r.value, k);
    }
    var t := Gettoken(s, k);
    var right := Parsepipe(s, t.next);
    if right.Err? {
      return right;
    }
    return Ok(Pipe(r.value, right.value), right.pos);
  }

  /** parseline */
  method Parseline(s: string, i: nat) returns (r: Result<Cmd<Span>>)
    requires i <= |s| && NulFree(s)
    ensures r == ParseLine(s, i)
    decreases |s| - i, 3
  {
    hide ParsePipe, Skip, GetToken;
    r := Parsepipe(s, i);
    if r.Err? {
      return;
    }
    var cmd := r.value;
    var k, amp := Peek(s, r.pos, {'&'});
    BacksSkip(s, r.pos, cmd);
    while amp
      invariant r.pos <= k <= |s| && Skip(s, k) == k && amp == Sees(s, k, {'&'})
      invariant Backs(s, r.pos, r.value) == Backs(s, k, cmd)
      decreases |s| - k
    {
      var t := Gettoken(s, k);
      cmd := Back(cmd);
      k, amp := Peek(s, t.next, {'&'});
      BacksSkip(s, t.next, cmd);
    }
    assert Backs(s, r.pos, r.value) == (cmd, k);
    var p, semi := Peek(s, k, {';'});
    if !semi {
      return Ok(cmd, p);
    }
    var t := Gettoken(s, p);
    var right := Parseline(s, t.next);
    if right.Err? {
      return right;
    }
    return Ok(List(cmd, right.value), right.pos);
  }

  lemma BacksSkip(s: string, i: nat, c: Cmd<Span>)
    requires i <= |s|
    ensures Skip(s, Skip(s, i)) == Skip(s, i) && Backs(s, Skip(s, i), c) == Backs(s, i, c)
  {
  }

  /** nulterminate */
  method Nulterminate(buf: array<char>, c: Cmd<Span>)
    requires forall sp :: sp in Spans(c) ==> sp.eq < buf.Length
    modifies buf
    ensures Terminated(old(buf[..]), buf[..], Spans(c))
    decreases c
  {
    ghost var b0 := buf[..];
    match c
    case Exec(argv) =>
      for k := 0 to |argv|
        invariant forall m :: 0 <= m < k ==> buf[argv[m].eq] == NUL
        invariant forall p :: 0 <= p < buf.Length && buf[p] != b0[p] ==> exists sp :: sp in Spans(c) && sp.eq == p
      {
        assert argv[k] in Spans(c);
        buf[argv[k].eq] := NUL;
      }
    case Redir(sub, to) =>
      Nulterminate(buf, sub);
      ghost var b1 := buf[..];
      buf[to.file.eq] := NUL;
      OneMore(b0, b1, buf[..], Spans(sub), to.file);
    case Pipe(l, r) =>
      Nulterminate(buf, l);
      ghost var b1 := buf[..];
      Nulterminate(buf, r);
      Both(b0, b1, buf[..], Spans(l), Spans(r));
    case List(l, r) =>
      Nulterminate(buf, l);
      ghost var b1 := buf[..];
      Nulterminate(buf, r);
      Both(b0, b1, buf[..], Spans(l), Spans(r));
    case Back(sub) =>
      Nulterminate(buf, sub);
  }

  lemma OneMore(a: seq<char>, b: seq<char>, c: seq<char>, x: set<Span>, sp: Span)
    requires Terminated(a, b, x) && sp.eq < |b| && c == b[sp.eq := NUL]
    ensures Terminated(a, c, x + {sp})
  {
    forall k | 0 <= k < |a| && c[k] != a[k] ensures exists t :: t in x + {sp} && t.eq == k {
      if k != sp.eq {
        var t :| t in x && t.eq == k;
        assert t in x + {sp};
      } else {
        assert sp in x + {sp};
      }
    }
  }

  lemma Both(a: seq<char>, b: seq<char>, c: seq<char>, x: set<Span>, y: set<Span>)
    requires Terminated(a, b, x) && Terminated(b, c, y)
    ensures Terminated(a, c, x + y)
  {
    forall k | 0 <= k < |a| && c[k] != a[k] ensures exists t :: t in x + y && t.eq == k {
      if c[k] != b[k] {
        var t :| t in y && t.eq == k;
        assert t in x + y;
      } else {
        var t :| t in x && t.eq == k;
        assert t in x + y;
      }
    }
  }

  /** parsecmd on a NUL-terminated line: the tree, whose pointers then read as the scanned tokens. */
  method Parsecmd(buf: array<char>) returns (r: Result<Cmd<Span>>)
    requires buf.Length > 0 && buf[buf.Length - 1] == NUL && NulFree(buf[..buf.Length - 1])
    modifies buf
    ensures r == ParseCmd(old(buf[..buf.Length - 1]))
    ensures r.Err? ==> buf[..] == old(buf[..])
    ensures r.Ok? ==> forall sp :: sp in Spans(r.value) ==>
      CString(buf[..], sp.q) == TextOf(old(buf[..buf.Length - 1]), sp)
  {
    hide ParseLine, CString, TextOf, GoodCmd;
    var s := buf[..buf.Length - 1];
    r := Parseline(s, 0);
    if r.Err? {
      return;
    }
    var p, _ := Peek(s, r.pos, {});
    if p != |s| {
      return Err(Leftovers);
    }
    LineGood(s, 0);
    ghost var b0 := buf[..];
    assert b0 == s + [NUL];
    forall sp | sp in Spans(r.value) ensures sp.eq < buf.Length { SpansGood(s, r.value, sp); }
    Nulterminate(buf, r.value);
    forall sp | sp in Spans(r.value) ensures CString(buf[..], sp.q) == TextOf(s, sp) {
      ReadsBack(s, r.value, buf[..], sp);
    }
    return Ok(r.value, |s|);
  }
}
