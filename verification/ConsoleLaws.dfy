/** What a user at the console sees (xv6/console.c): keys type, erase and commit a line, and a read returns it. */
module ConsoleLaws {
  import opened Commons
  import opened Blocks
  import opened ConsoleSpec

  /** A key that only adds itself: not 0, ^D, ^H, newline, return, ^P, ^U or delete. */
  predicate Ordinary(c: byte) {
    c != 0 && c != 4 && c != 8 && c != 10 && c != 13 && c != 16 && c != 21 && c != 127
  }

  predicate AllOrdinary(keys: seq<byte>) {
    forall k :: 0 <= k < |keys| ==> Ordinary(keys[k])
  }

  /** The keys one after another. */
  function Keys(s: Con, keys: seq<byte>): (r: Con)
    requires s.taken <= s.done <= |s.line|
    ensures r.taken <= r.done <= |r.line|
    decreases |keys|
  {
    if keys == [] then s else KeyOf(Keys(s, keys[..|keys| - 1]), keys[|keys| - 1])
  }

  /** Ordinary keys with room for more only lengthen the line. */
  lemma {:induction false} KeysType(s: Con, keys: seq<byte>)
    requires s.taken <= s.done <= |s.line| && AllOrdinary(keys) && |s.line| + |keys| - s.taken < INPUT_BUF
    ensures Keys(s, keys) == s.(line := s.line + keys)
    decreases |keys|
  {
    var last := |keys| - 1;
    if keys == [] {
      assert s.line + [] == s.line;
    } else {
      KeysType(s, keys[..last]);
      assert s.line + keys[..last] + [keys[last]] == s.line + keys;
    }
  }

  /** Backspace takes back an ordinary key, and nothing that is committed. */
  lemma BackspaceUndoes(s: Con, c: byte, back: byte)
    requires s.taken <= s.done <= |s.line| && Ordinary(c) && |s.line| + 1 - s.taken < INPUT_BUF
    requires back == 8 || back == 127
    ensures KeyOf(KeyOf(s, c), back) == s
    ensures |s.line| == s.done ==> KeyOf(s, back) == s
  {
    assert (s.line + [c])[..|s.line|] == s.line;
  }

  /** ^U takes back everything that is not committed. */
  lemma KillUndoes(s: Con, keys: seq<byte>)
    requires Inv(s) && |s.line| == s.done && AllOrdinary(keys) && |s.line| + |keys| - s.taken < INPUT_BUF
    ensures KeyOf(Keys(s, keys), 21) == s
  {
    hide NoEof;
    KeysType(s, keys);
    KillLineEmpties(s.line + keys, s.done);
    assert (s.line + keys)[..s.done] == s.line;
  }

  /** Enter, as return or newline, ends the line with a newline, commits it and wakes all readers; ^D commits it
      as well, with itself at the end. */
  lemma EnterCommits(s: Con, keys: seq<byte>, enter: byte)
    requires s.taken <= s.done <= |s.line| && AllOrdinary(keys) && |s.line| + |keys| - s.taken < INPUT_BUF
    requires enter == 10 || enter == 13 || enter == 4
    ensures var u, last := Keys(s, keys + [enter]), if enter == 4 then 4 else 10;
      && u.line == s.line + keys + [last] && u.done == |u.line| && u.taken == s.taken
      && u.readers.Keys == s.readers.Keys && forall p :: p in u.readers ==> !u.readers[p].asleep
  {
    KeysType(s, keys);
    assert (keys + [enter])[..|keys|] == keys;
  }

  // ---------------------------------------------------------------- reading

  /** Input that begins with plain bytes. */
  lemma {:induction false} ConsumePlain(plain: seq<byte>, rest: seq<byte>, target: nat, got: nat)
    requires (forall k :: 0 <= k < |plain| ==> Plain(plain[k])) && got + |plain| <= target
    ensures var t := Consume(rest, target, got + |plain|);
      Consume(plain + rest, target, got) == Taken(plain + t.bytes, |plain| + t.used, t.over)
    decreases |plain|
  {
    hide Consume;
    var t := Consume(rest, target, got + |plain|);
    if plain == [] {
      assert plain + rest == rest && plain + t.bytes == t.bytes;
    } else {
      assert plain + rest == [plain[0]] + (plain[1..] + rest);
      ConsumePlain(plain[1..], rest, target, got + 1);
      ConsumeOne(plain[0], plain[1..] + rest, target, got);
      assert plain + t.bytes == [plain[0]] + (plain[1..] + t.bytes);
    }
  }

  lemma ConsumeOne(c: byte, rest: seq<byte>, target: nat, got: nat)
    requires Plain(c) && got < target
    ensures var t := Consume(rest, target, got + 1);
      Consume([c] + rest, target, got) == Taken([c] + t.bytes, 1 + t.used, t.over)
  {
    assert ([c] + rest)[1..] == rest;
  }

  /** How far the bytes go that a read may take: to the target, to the end, or to a newline or ^D. */
  ghost predicate Reach(input: seq<byte>, room: nat, k: nat) {
    && k <= |input| && k <= room && (forall j :: 0 <= j < k ==> Plain(input[j]))
    && (k == room || k == |input| || !Plain(input[k]))
  }

  /** A read takes the bytes up to the first newline, newline included, or to the first ^D, or its target; a ^D
      is used up only by a read that has nothing else; and the read waits exactly when it has seen neither and has
      room left. */
  lemma ConsumeExactly(input: seq<byte>, target: nat, got: nat, k: nat)
    requires got <= target && Reach(input, target - got, k)
    ensures var t := Consume(input, target, got);
      var newline := k < target - got && k < |input| && input[k] == 10;
      var eof := k < target - got && k < |input| && input[k] == 4;
      && t.bytes == input[..if newline then k + 1 else k]
      && t.used == (if newline || (eof && got + k == 0) then k + 1 else k)
      && (t.over <==> newline || eof || k == target - got)
  {
    hide Consume;
    ConsumePlain(input[..k], input[k..], target, got);
    assert input[..k] + input[k..] == input;
    ConsumeStop(input[k..], target, got + k);
    if k < |input| { assert input[k..][0] == input[k] && input[..k] + [input[k]] == input[..k + 1]; }
    assert input[..k] + [] == input[..k];
  }

  /** A read that cannot take a plain byte. */
  lemma ConsumeStop(rest: seq<byte>, target: nat, got: nat)
    requires got <= target && (got == target || rest == [] || !Plain(rest[0]))
    ensures var newline, eof := got < target && rest != [] && rest[0] == 10, got < target && rest != [] && rest[0] == 4;
      Consume(rest, target, got) ==
        Taken(if newline then [10] else [], if newline || (eof && got == 0) then 1 else 0,
              newline || eof || got == target)
  {
  }

  /** What is typed is read: a line of ordinary keys and Enter, typed when all before has been read, comes back
      from a read of n bytes as its first n bytes, or with its newline if n is large enough. */
  lemma TypedIsRead(s: Con, keys: seq<byte>, enter: byte, p: nat, n: nat)
    requires Inv(s) && s.taken == s.done == |s.line| && s.lock.None? && AllOrdinary(keys) && |keys| < INPUT_BUF
    requires (enter == 10 || enter == 13) && p in s.readers && s.readers[p].target == n && s.readers[p].got == []
    ensures var u := Keys(s, keys + [enter]);
      && p in u.readers && !u.readers[p].asleep
      && var v := ReadOf(u, p);
         p !in v.readers && v.delivered == s.delivered + (keys + [10])[..Min(n, |keys| + 1)]
  {
    hide Inv, Consume, Keys, AllOrdinary, ReadOf;
    EnterCommits(s, keys, enter);
    var u := Keys(s, keys + [enter]);
    TypedRest(s, keys, enter);
    assert u.line == s.line + (keys + [10]);
    assert u.line[u.taken..u.done] == keys + [10];
    LineIsRead(u, p, keys, n);
  }

  /** A reader that has nothing yet finds one line of ordinary keys. */
  lemma LineIsRead(u: Con, p: nat, keys: seq<byte>, n: nat)
    requires u.taken <= u.done <= |u.line| && u.line[u.taken..u.done] == keys + [10] && AllOrdinary(keys)
    requires p in u.readers && u.readers[p].target == n && u.readers[p].got == []
    ensures var v := ReadOf(u, p);
      p !in v.readers && v.delivered == u.delivered + (keys + [10])[..Min(n, |keys| + 1)]
  {
    hide Consume;
    var input, k := keys + [10], Min(n, |keys|);
    forall j | 0 <= j < k ensures Plain(input[j]) { assert input[j] == keys[j]; }
    ConsumeExactly(input, n, 0, k);
  }

  /** Keys change nothing but the line, the commit index and who sleeps. */
  lemma TypedRest(s: Con, keys: seq<byte>, enter: byte)
    requires s.taken <= s.done <= |s.line| && AllOrdinary(keys) && |s.line| + |keys| - s.taken < INPUT_BUF
    requires enter == 10 || enter == 13
    ensures var u := Keys(s, keys + [enter]);
      u.delivered == s.delivered && u.killed == s.killed && u.readers == Wake(s.readers)
  {
    KeysType(s, keys);
    assert (keys + [enter])[..|keys|] == keys;
  }
}
