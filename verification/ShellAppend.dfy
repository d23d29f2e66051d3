/** The shell (xv6/sh.c) opens the file after >> like the file after >, from its start: replacing one
    by the other changes no command. */
module ShellAppend {
  import opened ShellSpec

  /** t is s with the >> at k replaced by > and a blank; k is not the second half of another >>. */
  ghost predicate Replaced(s: string, t: string, k: nat) {
    && k + 1 < |s| && s[k] == '>' && s[k + 1] == '>' && (k > 0 ==> s[k - 1] != '>')
    && t == s[k + 1 := ' ']
  }

  // ---------------------------------------------------------------- tokens

  lemma {:induction false} SkipSame(s: string, t: string, k: nat, i: nat)
    requires Replaced(s, t, k) && i <= |s| && i != k + 1
    ensures Skip(t, i) == Skip(s, i) != k + 1
    decreases |s| - i
  {
    if i < |s| && Blank(s[i]) { SkipSame(s, t, k, i + 1); }
  }

  lemma {:induction false} WordEndSame(s: string, t: string, k: nat, i: nat)
    requires Replaced(s, t, k) && i <= |s| && i != k + 1
    ensures WordEnd(t, i) == WordEnd(s, i) != k + 1
    decreases |s| - i
  {
    if i < |s| && !Blank(s[i]) && !Symbol(s[i]) { WordEndSame(s, t, k, i + 1); }
  }

  /** The same tokens with the same continuations, but for the one at k. */
  lemma TokenSame(s: string, t: string, k: nat, i: nat)
    requires Replaced(s, t, k) && i <= |s| && i != k + 1
    ensures var x, y := GetToken(s, i), GetToken(t, i);
      && x.next == y.next != k + 1 && (x.q != k ==> x == y)
      && (x.q == k ==> x.kind == Append && y.kind == Sym('>'))
  {
    hide Skip, WordEnd, GetToken;
    SkipSame(s, t, k, i);
    TokenAt(s, i);
    if Skip(s, i) == k {
      AppendToken(s, t, k, i);
    } else if Skip(s, i) < |s| && Symbol(s[Skip(s, i)]) {
      SymbolToken(s, t, k, i);
    } else {
      WordToken(s, t, k, i);
    }
  }

  lemma AppendToken(s: string, t: string, k: nat, i: nat)
    requires Replaced(s, t, k) && i <= |s| && i != k + 1 && Skip(s, i) == Skip(t, i) == k
    ensures var x, y := GetToken(s, i), GetToken(t, i);
      x.next == y.next != k + 1 && x.kind == Append && y.kind == Sym('>')
  {
    hide Skip, WordEnd;
    SkipSame(s, t, k, k + 2);
    BlankSkipped(t, k + 1);
  }

  predicate Double(s: string, q: nat) {
    q + 1 < |s| && s[q] == '>' && s[q + 1] == '>'
  }

  lemma SymbolIs(s: string, i: nat)
    requires i <= |s| && Skip(s, i) < |s| && Symbol(s[Skip(s, i)])
    ensures var q := Skip(s, i);
      GetToken(s, i) ==
        if Double(s, q) then Token(Append, q, q + 2, Skip(s, q + 2)) else Token(Sym(s[q]), q, q + 1, Skip(s, q + 1))
  {
    hide Skip, WordEnd;
  }

  lemma SymbolToken(s: string, t: string, k: nat, i: nat)
    requires Replaced(s, t, k) && i <= |s| && i != k + 1
    requires Skip(s, i) == Skip(t, i) < |s| && Skip(s, i) != k && Skip(s, i) != k + 1 && Symbol(s[Skip(s, i)])
    ensures GetToken(s, i) == GetToken(t, i) && GetToken(s, i).next != k + 1
  {
    hide Skip, WordEnd, GetToken, Symbol;
    var q := Skip(s, i);
    assert t[q] == s[q];
    SymbolIs(s, i);
    SymbolIs(t, i);
    if Double(s, q) {
      assert q + 1 != k && t[q + 1] == s[q + 1];
      SkipSame(s, t, k, q + 2);
    } else {
      assert !Double(t, q);
      SkipSame(s, t, k, q + 1);
    }
  }

  lemma WordToken(s: string, t: string, k: nat, i: nat)
    requires Replaced(s, t, k) && i <= |s| && i != k + 1
    requires Skip(s, i) == Skip(t, i) != k + 1 && (Skip(s, i) < |s| ==> !Symbol(s[Skip(s, i)]))
    ensures GetToken(s, i) == GetToken(t, i) && GetToken(s, i).next != k + 1
  {
    hide Skip, WordEnd;
    var q := Skip(s, i);
    WordEndSame(s, t, k, q);
    SkipSame(s, t, k, WordEnd(s, q));
  }

  lemma BlankSkipped(t: string, i: nat)
    requires i < |t| && Blank(t[i])
    ensures Skip(t, i) == Skip(t, i + 1)
  {
  }

  // ---------------------------------------------------------------- the parser

  lemma {:induction false} RedirsSame(s: string, t: string, k: nat, i: nat)
    requires Replaced(s, t, k) && i <= |s| && i != k + 1
    ensures ParseRedirs(t, i) == ParseRedirs(s, i)
    ensures ParseRedirs(s, i).Ok? ==> ParseRedirs(s, i).pos != k + 1
    decreases |s| - i
  {
    hide Skip, GetToken;
    SkipSame(s, t, k, i);
    var j := Skip(s, i);
    if Sees(s, j, {'<', '>'}) {
      TokenSame(s, t, k, j);
      TokenAt(s, j);
      var next := GetToken(s, j).next;
      TokenSame(s, t, k, next);
      TokenAt(s, next);
      if GetToken(s, next).kind.Word? { RedirsSame(s, t, k, GetToken(s, next).next); }
    }
  }

  lemma TokenAt(s: string, i: nat)
    requires i <= |s|
    ensures GetToken(s, i).q == Skip(s, i) && (GetToken(s, i).kind.End? ==> GetToken(s, i).next == |s|)
    ensures GetToken(s, i).kind.Word? ==> s[GetToken(s, i).q] != '>'
  {
    hide Skip, WordEnd;
  }

  lemma RedirectedSame(s: string, t: string, k: nat, i: nat, c: Cmd<Span>)
    requires Replaced(s, t, k) && i <= |s| && i != k + 1
    ensures Redirected(t, i, c) == Redirected(s, i, c)
    ensures Redirected(s, i, c).Ok? ==> Redirected(s, i, c).pos != k + 1
  {
    hide ParseRedirs;
    RedirsSame(s, t, k, i);
  }

  lemma {:induction false} ArgsSame(s: string, t: string, k: nat, i: nat, argv: seq<Span>, w: seq<Redirection<Span>>)
    requires Replaced(s, t, k) && i <= |s| && i != k + 1
    ensures ParseArgs(t, i, argv, w) == ParseArgs(s, i, argv, w)
    ensures ParseArgs(s, i, argv, w).Ok? ==> ParseArgs(s, i, argv, w).pos != k + 1
    decreases |s| - i
  {
    hide Skip, GetToken, ParseRedirs, Wrap;
    SkipSame(s, t, k, i);
    var j := Skip(s, i);
    if !Sees(s, j, {'|', ')', '&', ';'}) {
      TokenSame(s, t, k, j);
      TokenAt(s, j);
      var x := GetToken(s, j);
      if x.kind.Word? && |argv| + 1 < MAXARGS {
        RedirsSame(s, t, k, x.next);
        var r := ParseRedirs(s, x.next);
        if r.Ok? { ArgsSame(s, t, k, r.pos, argv + [Span(x.q, x.eq)], w + r.value); }
      }
    }
  }

  lemma {:induction false} ExecSame(s: string, t: string, k: nat, i: nat)
    requires Replaced(s, t, k) && i <= |s| && i != k + 1
    ensures ParseExec(t, i) == ParseExec(s, i)
    ensures ParseExec(s, i).Ok? ==> ParseExec(s, i).pos != k + 1
    decreases |s| - i, 1
  {
    hide Skip, ParseRedirs, ParseArgs, ParseBlock;
    SkipSame(s, t, k, i);
    var j := Skip(s, i);
    if Sees(s, j, {'('}) {
      BlockSame(s, t, k, j);
    } else {
      RedirsSame(s, t, k, j);
      var r := ParseRedirs(s, j);
      if r.Ok? { ArgsSame(s, t, k, r.pos, [], r.value); }
    }
  }

  lemma {:induction false} BlockSame(s: string, t: string, k: nat, i: nat)
    requires Replaced(s, t, k) && i <= |s| && i != k + 1
    ensures ParseBlock(t, i) == ParseBlock(s, i)
    ensures ParseBlock(s, i).Ok? ==> ParseBlock(s, i).pos != k + 1
    decreases |s| - i, 0
  {
    hide Skip, GetToken, ParseLine, Redirected;
    SkipSame(s, t, k, i);
    TokenSame(s, t, k, i);
    if Sees(s, Skip(s, i), {'('}) {
      var l := ParseLine(s, GetToken(s, i).next);
      LineSame(s, t, k, GetToken(s, i).next);
      if l.Ok? {
        SkipSame(s, t, k, l.pos);
        TokenSame(s, t, k, Skip(s, l.pos));
        RedirectedSame(s, t, k, GetToken(s, Skip(s, l.pos)).next, l.value);
      }
    }
  }

  lemma {:induction false} PipeSame(s: string, t: string, k: nat, i: nat)
    requires Replaced(s, t, k) && i <= |s| && i != k + 1
    ensures ParsePipe(t, i) == ParsePipe(s, i)
    ensures ParsePipe(s, i).Ok? ==> ParsePipe(s, i).pos != k + 1
    decreases |s| - i, 2
  {
    hide Skip, GetToken, ParseExec;
    ExecSame(s, t, k, i);
    var c := ParseExec(s, i);
    if c.Ok? {
      SkipSame(s, t, k, c.pos);
      var j := Skip(s, c.pos);
      TokenSame(s, t, k, j);
      if Sees(s, j, {'|'}) { PipeSame(s, t, k, GetToken(s, j).next); }
    }
  }

  lemma {:induction false} BacksSame(s: string, t: string, k: nat, i: nat, c: Cmd<Span>)
    requires Replaced(s, t, k) && i <= |s| && i != k + 1
    ensures Backs(t, i, c) == Backs(s, i, c) && Backs(s, i, c).1 != k + 1
    decreases |s| - i
  {
    hide Skip, GetToken;
    SkipSame(s, t, k, i);
    var j := Skip(s, i);
    TokenSame(s, t, k, j);
    if Sees(s, j, {'&'}) { BacksSame(s, t, k, GetToken(s, j).next, Back(c)); }
  }

  lemma {:induction false} LineSame(s: string, t: string, k: nat, i: nat)
    requires Replaced(s, t, k) && i <= |s| && i != k + 1
    ensures ParseLine(t, i) == ParseLine(s, i)
    ensures ParseLine(s, i).Ok? ==> ParseLine(s, i).pos != k + 1
    decreases |s| - i, 3
  {
    hide Skip, GetToken, ParsePipe, Backs;
    PipeSame(s, t, k, i);
    var c := ParsePipe(s, i);
    if c.Ok? {
      BacksSame(s, t, k, c.pos, c.value);
      var p := Backs(s, c.pos, c.value).1;
      SkipSame(s, t, k, p);
      var j := Skip(s, p);
      TokenSame(s, t, k, j);
      if Sees(s, j, {';'}) { LineSame(s, t, k, GetToken(s, j).next); }
    }
  }

  /** Every command line parses to the same command, or the same panic, with > in the place of >>. */
  lemma AppendIsOutput(s: string, t: string, k: nat)
    requires Replaced(s, t, k)
    ensures ParseCmd(t) == ParseCmd(s)
  {
    hide Skip, ParseLine;
    LineSame(s, t, k, 0);
    if ParseLine(s, 0).Ok? { SkipSame(s, t, k, ParseLine(s, 0).pos); }
  }
}
