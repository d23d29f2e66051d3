/** The regular-expression matcher of xv6/grep.c against the language its patterns denote. */
module Grep {

  /** One character, or any number of them; '.' stands for every character. */
  datatype Item = One(c: char) | Star(c: char)

  /** A pattern: its items, and whether a final $ anchors it at the end. */
  datatype Regex = Regex(items: seq<Item>, end: bool)

  predicate CharMatches(c: char, x: char) { c == '.' || c == x }

  /** How a pattern reads: a character before * repeats, $ anchors only as the last character. */
  function Compile(re: string): Regex {
    if re == "" then Regex([], false)
    else if |re| > 1 && re[1] == '*' then
      var rest := Compile(re[2..]);
      Regex([Star(re[0])] + rest.items, rest.end)
    else if re == "$" then Regex([], true)
    else
      var rest := Compile(re[1..]);
      Regex([One(re[0])] + rest.items, rest.end)
  }

  // ---------------------------------------------------------------- the language

  predicate ItemMatches(item: Item, t: string) {
    match item
    case One(c) => |t| == 1 && CharMatches(c, t[0])
    case Star(c) => forall k :: 0 <= k < |t| ==> CharMatches(c, t[k])
  }

  function Concat(pieces: seq<string>): string {
    if pieces == [] then "" else pieces[0] + Concat(pieces[1..])
  }

  /** The pieces, one per item, make up a prefix of text, or all of it under $. */
  predicate Splits(rx: Regex, text: string, pieces: seq<string>) {
    && |pieces| == |rx.items| && (forall k :: 0 <= k < |pieces| ==> ItemMatches(rx.items[k], pieces[k]))
    && Concat(pieces) <= text && (rx.end ==> Concat(pieces) == text)
  }

  /** Some prefix of text, the whole text under $, is in the language of rx. */
  ghost predicate Accepts(rx: Regex, text: string) {
    exists pieces :: Splits(rx, text, pieces)
  }

  /** Some suffix is accepted; only the whole text under ^. */
  ghost predicate Finds(re: string, text: string) {
    if re != "" && re[0] == '^' then Accepts(Compile(re[1..]), text)
    else exists i :: 0 <= i <= |text| && Accepts(Compile(re), text[i..])
  }

  // ---------------------------------------------------------------- the matcher

  predicate MatchHere(re: string, text: string)
    decreases |re|, 0
  {
    if re == "" then true
    else if |re| > 1 && re[1] == '*' then MatchStar(re[0], re[2..], text)
    else if re == "$" then text == ""
    else text != "" && CharMatches(re[0], text[0]) && MatchHere(re[1..], text[1..])
  }

  predicate MatchStar(c: char, re: string, text: string)
    decreases |re|, 1 + |text|
  {
    MatchHere(re, text) || (text != "" && CharMatches(c, text[0]) && MatchStar(c, re, text[1..]))
  }

  // ---------------------------------------------------------------- sound and complete

  lemma AcceptsNothing(rx: Regex, text: string)
    requires rx.items == []
    ensures Accepts(rx, text) <==> (rx.end ==> text == "")
  {
    if rx.end ==> text == "" {
      assert Splits(rx, text, []);
    }
  }

  lemma PrefixTail(a: string, b: string, text: string)
    ensures a + b <= text <==> a <= text && b <= text[|a|..]
    ensures a <= text ==> (a + b == text <==> b == text[|a|..])
  {
    if a <= text {
      assert text == a + text[|a|..];
      if b <= text[|a|..] {
        assert text == a + b + text[|a| + |b|..];
      }
    }
    if a + b <= text {
      assert a == text[..|a|] by { assert text[..|a|] == (a + b)[..|a|]; }
      assert b == text[|a|..][..|b|];
    }
  }

  /** The first item takes k characters, the others the rest. */
  lemma FirstPiece(rx: Regex, text: string)
    requires rx.items != []
    ensures Accepts(rx, text) <==>
      exists k :: 0 <= k <= |text| && ItemMatches(rx.items[0], text[..k])
        && Accepts(Regex(rx.items[1..], rx.end), text[k..])
  {
    hide ItemMatches;
    var tail := Regex(rx.items[1..], rx.end);
    if Accepts(rx, text) {
      var pieces :| Splits(rx, text, pieces);
      PrefixTail(pieces[0], Concat(pieces[1..]), text);
      assert Splits(tail, text[|pieces[0]|..], pieces[1..]);
      assert text[..|pieces[0]|] == pieces[0];
    }
    if k :| 0 <= k <= |text| && ItemMatches(rx.items[0], text[..k]) && Accepts(tail, text[k..]) {
      var more :| Splits(tail, text[k..], more);
      PrefixTail(text[..k], Concat(more), text);
      var pieces := [text[..k]] + more;
      assert pieces[1..] == more && Concat(pieces) == text[..k] + Concat(more);
      assert forall j :: 0 < j < |pieces| ==> pieces[j] == more[j - 1] && rx.items[j] == tail.items[j - 1];
      assert Splits(rx, text, pieces);
    }
  }

  lemma AcceptsOne(c: char, rx: Regex, text: string)
    ensures Accepts(Regex([One(c)] + rx.items, rx.end), text) <==>
      text != "" && CharMatches(c, text[0]) && Accepts(rx, text[1..])
  {
    hide Accepts;
    var whole := Regex([One(c)] + rx.items, rx.end);
    assert whole.items[1..] == rx.items;
    FirstPiece(whole, text);
    if text != "" && CharMatches(c, text[0]) && Accepts(rx, text[1..]) {
      assert ItemMatches(whole.items[0], text[..1]);
    }
  }

  lemma AcceptsStar(c: char, rx: Regex, text: string)
    ensures Accepts(Regex([Star(c)] + rx.items, rx.end), text) <==>
      exists k :: 0 <= k <= |text| && ItemMatches(Star(c), text[..k]) && Accepts(rx, text[k..])
  {
    hide Accepts;
    var whole := Regex([Star(c)] + rx.items, rx.end);
    assert whole.items[1..] == rx.items;
    FirstPiece(whole, text);
  }

  /** matchhere decides the language. */
  lemma {:induction false} MatchHereDecides(re: string, text: string)
    ensures MatchHere(re, text) <==> Accepts(Compile(re), text)
    decreases |re|, 0
  {
    hide Accepts, CharMatches;
    if re == "" || (re == "$" && !(|re| > 1)) {
      AcceptsNothing(Compile(re), text);
    } else if |re| > 1 && re[1] == '*' {
      AcceptsStar(re[0], Compile(re[2..]), text);
      MatchStarDecides(re[0], re[2..], text);
    } else {
      AcceptsOne(re[0], Compile(re[1..]), text);
      if text != "" {
        MatchHereDecides(re[1..], text[1..]);
      }
    }
  }

  lemma {:induction false} MatchStarDecides(c: char, re: string, text: string)
    ensures MatchStar(c, re, text) <==> exists k ::
      0 <= k <= |text| && ItemMatches(Star(c), text[..k]) && Accepts(Compile(re), text[k..])
    decreases |re|, 1 + |text|
  {
    hide Accepts, CharMatches, MatchHere, Compile;
    MatchHereDecides(re, text);
    assert text[0..] == text && ItemMatches(Star(c), text[..0]);
    if text != "" {
      MatchStarDecides(c, re, text[1..]);
      StarShift(c, re, text);
    }
  }

  /** A repetition is empty, or one character and a repetition of what follows. */
  lemma StarShift(c: char, re: string, text: string)
    requires text != ""
    ensures (exists k :: 0 <= k <= |text| && ItemMatches(Star(c), text[..k]) && Accepts(Compile(re), text[k..])) <==>
      (|| Accepts(Compile(re), text)
       || (CharMatches(c, text[0]) && exists k ::
            0 <= k <= |text[1..]| && ItemMatches(Star(c), text[1..][..k]) && Accepts(Compile(re), text[1..][k..])))
  {
    hide Accepts, Compile, CharMatches;
    assert text[0..] == text && ItemMatches(Star(c), text[..0]);
    if k :| 0 < k <= |text| && ItemMatches(Star(c), text[..k]) && Accepts(Compile(re), text[k..]) {
      assert text[..k][0] == text[0];
      assert text[1..][..k - 1] == text[..k][1..];
      assert text[1..][k - 1..] == text[k..];
      assert ItemMatches(Star(c), text[1..][..k - 1]);
    }
    if CharMatches(c, text[0]) {
      if k :| 0 <= k <= |text[1..]| && ItemMatches(Star(c), text[1..][..k]) && Accepts(Compile(re), text[1..][k..]) {
        assert text[..k + 1] == [text[0]] + text[1..][..k];
        assert text[k + 1..] == text[1..][k..];
        assert ItemMatches(Star(c), text[..k + 1]);
      }
    }
  }

  // ---------------------------------------------------------------- what patterns mean

  /** A pattern of ordinary characters. */
  predicate Literal(re: string) {
    forall k :: 0 <= k < |re| ==> re[k] != '^' && re[k] != '$' && re[k] != '*' && re[k] != '.'
  }

  lemma {:induction false} HereLiteral(re: string, text: string)
    requires Literal(re)
    ensures MatchHere(re, text) <==> re <= text
    ensures MatchHere(re + "$", text) <==> re == text
    decreases |re|
  {
    if re == "" {
      assert re + "$" == "$";
    } else {
      assert (re + "$")[1..] == re[1..] + "$";
      assert |re| > 1 ==> re[1] != '*';
      assert re == [re[0]] + re[1..];
      if text != "" {
        assert text == [text[0]] + text[1..];
        HereLiteral(re[1..], text[1..]);
      }
    }
  }

  /** A literal is found in exactly the texts that contain it. */
  lemma FindsLiteral(re: string, text: string)
    requires Literal(re)
    ensures Finds(re, text) <==> exists i :: 0 <= i <= |text| && re <= text[i..]
  {
    hide Accepts, Compile, MatchHere;
    forall i | 0 <= i <= |text| ensures Accepts(Compile(re), text[i..]) <==> re <= text[i..] {
      MatchHereDecides(re, text[i..]);
      HereLiteral(re, text[i..]);
    }
  }

  /** Between ^ and $ it is found in itself alone. */
  lemma FindsWholeLine(re: string, text: string)
    requires Literal(re)
    ensures Finds("^" + re + "$", text) <==> text == re
  {
    hide Accepts, Compile, MatchHere;
    assert ("^" + re + "$")[1..] == re + "$";
    MatchHereDecides(re + "$", text);
    HereLiteral(re, text);
  }

  function Dots(n: nat): string { seq(n, i => '.') }

  lemma {:induction false} HereDots(n: nat, text: string)
    ensures MatchHere(Dots(n), text) <==> |text| >= n
    decreases n
  {
    if n > 0 {
      var re := Dots(n);
      assert re[0] == '.' && (|re| > 1 ==> re[1] == '.') && re[1..] == Dots(n - 1);
      if text != "" { HereDots(n - 1, text[1..]); }
    }
  }

  /** A dot stands for any one character, whichever it is. */
  lemma FindsDots(n: nat, text: string)
    ensures Finds(Dots(n), text) <==> |text| >= n
  {
    hide Accepts, Compile, MatchHere;
    forall i | 0 <= i <= |text| ensures Accepts(Compile(Dots(n)), text[i..]) <==> |text| - i >= n {
      MatchHereDecides(Dots(n), text[i..]);
      HereDots(n, text[i..]);
    }
    assert text[0..] == text;
  }

  lemma {:induction false} StarDollar(c: char, text: string)
    ensures MatchStar(c, "$", text) <==> c == '.' || forall k :: 0 <= k < |text| ==> text[k] == c
    decreases |text|
  {
    if text != "" {
      StarDollar(c, text[1..]);
      assert text == [text[0]] + text[1..];
    }
  }

  /** ^c*$ is found in the texts of c alone, ^.*$ in all. */
  lemma FindsRepetition(c: char, text: string)
    ensures Finds("^" + [c] + "*$", text) <==> c == '.' || forall k :: 0 <= k < |text| ==> text[k] == c
  {
    hide Accepts, Compile;
    var re := [c] + "*$";
    assert ("^" + [c] + "*$")[1..] == re && re[2..] == "$";
    MatchHereDecides(re, text);
    StarDollar(c, text);
  }

  // ---------------------------------------------------------------- the loops

  /** match; strings without their NUL. */
  method Match(re: string, text: string) returns (found: bool)
    ensures found <==> Finds(re, text)
  {
    hide Accepts, Compile, MatchHere;
    if re != "" && re[0] == '^' {
      MatchHereDecides(re[1..], text);
      found := Matchhere(re[1..], text);
      return;
    }
    var i := 0;
    while true
      invariant i <= |text| && forall k :: 0 <= k < i ==> !Accepts(Compile(re), text[k..])
      decreases |text| - i
    {
      MatchHereDecides(re, text[i..]);
      var m := Matchhere(re, text[i..]);
      if m {
        return true;
      }
      if i == |text| {
        return false;
      }
      i := i + 1;
    }
  }

  /** matchhere */
  method Matchhere(re: string, text: string) returns (m: bool)
    ensures m == MatchHere(re, text)
    decreases |re|, 0
  {
    if re == "" {
      return true;
    }
    if |re| > 1 && re[1] == '*' {
      m := Matchstar(re[0], re[2..], text);
      return;
    }
    if re[0] == '$' && |re| == 1 {
      return text == "";
    }
    if text != "" && (re[0] == '.' || re[0] == text[0]) {
      m := Matchhere(re[1..], text[1..]);
      return;
    }
    return false;
  }

  /** matchstar */
  method Matchstar(c: char, re: string, text: string) returns (m: bool)
    ensures m == MatchStar(c, re, text)
    decreases |re|, 1 + |text|
  {
    var i := 0;
    assert text[0..] == text;
    while true
      invariant i <= |text| && MatchStar(c, re, text) == MatchStar(c, re, text[i..])
      decreases |text| - i
    {
      m := Matchhere(re, text[i..]);
      if m {
        return;
      }
      if i == |text| || !(text[i] == c || c == '.') {
        return;
      }
      assert text[i..][1..] == text[i + 1..];
      i := i + 1;
    }
  }
}
