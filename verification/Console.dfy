/** xv6/console.c in place: the 128-byte ring input.buf with indices r, w, e that wrap at 2^32. */
module Console {
  import opened Commons
  import opened Blocks
  import opened ConsoleSpec

  /** Unsigned differences of wrapped indices that are close together. */
  lemma Distance(a: nat, b: nat)
    requires 0 <= a - b <= INPUT_BUF
    ensures (a % U32 - b % U32) % U32 == a - b
    ensures a % U32 == b % U32 <==> a == b
    ensures a % U32 == (b % U32 + INPUT_BUF) % U32 <==> a - b == INPUT_BUF
  {
    var qa, qb := a / 0x1_0000_0000, b / 0x1_0000_0000;
    assert a % U32 - b % U32 == a - b - (qa - qb) * 0x1_0000_0000;
    assert qa == qb || qa == qb + 1;
  }

  lemma Before(a: nat)
    requires a > 0
    ensures (a % U32 + U32 - 1) % U32 == (a - 1) % U32
  {
  }

  class Console {
    const buf: array<byte>
    var r: u32
    var w: u32
    var e: u32
    /** Processes inside consoleread: the kernel's process table. */
    var readers: map<nat, Reader>
    var killed: set<nat>
    var lock: Option<nat>
    ghost var line: seq<byte>
    ghost var done: nat
    ghost var taken: nat
    ghost var delivered: seq<byte>

    ghost function State(): Con
      reads this
    {
      Con(line, done, taken, delivered, readers, killed, lock)
    }

    ghost predicate Ring()
      reads `r, `w, `e, `line, `done, `taken, buf
    {
      && buf.Length == INPUT_BUF && taken <= done <= |line| <= taken + INPUT_BUF
      && r == taken % U32 && w == done % U32 && e == |line| % U32
      && forall k :: taken <= k < |line| ==> buf[k % INPUT_BUF] == line[k]
    }

    ghost predicate Valid()
      reads this, buf
    {
      Ring() && Inv(State())
    }

    constructor ()
      ensures Valid() && State() == BOOT
    {
      buf := new byte[INPUT_BUF](_ => 0);
      r, w, e, readers, killed, lock := 0, 0, 0, map[], {}, None;
      line, done, taken, delivered := [], 0, 0, [];
      new;
      assert NoEof([]) == [];
    }

    /** One key of consoleintr: ^P and 0 change nothing; ^U erases all that is not committed, ^H and delete one
        byte of it; any other key enters, if the ring has room, with a newline in place of a return; a newline, ^D
        or a full ring commits. */
    method Consoleintr(c: byte)
      requires Valid() && lock.None?
      modifies this, buf
      ensures Valid() && Next(old(State()), Key(c), State())
      ensures taken == old(taken) && delivered == old(delivered)
      ensures c == 16 || c == 0 ==> State() == old(State())
      ensures c == 21 ==> line == old(line)[..done]
      ensures c == 8 || c == 127 ==> line == old(line)[..if |old(line)| == done then done else |old(line)| - 1]
      ensures c != 16 && c != 0 && c != 21 && c != 8 && c != 127 ==>
        if |old(line)| - taken >= 128 then State() == old(State())
        else
          && line == old(line) + [if c == 13 then 10 else c]
          && done == (if c == 13 || c == 10 || c == 4 || |line| - taken == 128 then |line| else old(done))
      ensures done == old(done) ==> readers == old(readers)
      ensures done != old(done) ==> forall p :: p in readers ==> !readers[p].asleep
    {
      hide Inv, NoEof;
      ghost var s0 := State();
      ErasedLine(s0);
      if c == LISTING {
      } else if c == KILL {
        Erase();
      } else if Backspace(c) {
        Distance(|line|, done);
        if e != w {
          Back();
        }
      } else {
        Distance(|line|, taken);
        if c != 0 && (e - r) % U32 < INPUT_BUF {
          Type(Echoed(c));
          Distance(|line|, taken);
          if Echoed(c) == NEWLINE || Echoed(c) == EOF || e == (r + INPUT_BUF) % U32 {
            w, done := e, |line|;
            readers := Wake(readers);
          }
        }
      }
      StepKeepsInv(s0, Key(c), State());
    }

    /** input.e-- */
    method Back()
      requires Ring() && |line| > done
      modifies this`e, this`line
      ensures Ring() && line == old(line)[..|old(line)| - 1]
    {
      Before(|line|);
      e := (e + U32 - 1) % U32;
      line := line[..|line| - 1];
    }

    /** input.buf[input.e++ % INPUT_BUF] = c */
    method Type(c: byte)
      requires Ring() && |line| - taken < INPUT_BUF
      modifies this`e, this`line, buf
      ensures Ring() && line == old(line) + [c]
    {
      SlotOf(|line|, INPUT_BUF);
      buf[e % INPUT_BUF] := c;
      NextWord(|line|);
      e := (e + 1) % U32;
      line := line + [c];
      forall k | taken <= k < |line| ensures buf[k % INPUT_BUF] == line[k] {
        if k < |line| - 1 { Slots(k, |line| - 1, INPUT_BUF); }
      }
    }

    /** The loop of ^U. */
    method Erase()
      requires Ring()
      modifies this`e, this`line
      ensures Ring() && line == KillLine(old(line), done)
    {
      Distance(|line|, done);
      LastByte();
      while e != w && buf[(e + U32 - 1) % U32 % INPUT_BUF] != NEWLINE
        invariant Ring() && KillLine(old(line), done) == KillLine(line, done)
        invariant (e != w <==> |line| > done)
          && (|line| > done ==> buf[(e + U32 - 1) % U32 % INPUT_BUF] == line[|line| - 1])
        decreases |line|
      {
        Back();
        Distance(|line|, done);
        LastByte();
      }
    }

    lemma LastByte()
      requires Ring()
      ensures |line| > done ==> buf[(e + U32 - 1) % U32 % INPUT_BUF] == line[|line| - 1]
    {
      if |line| > done {
        Before(|line|);
        SlotOf(|line| - 1, INPUT_BUF);
      }
    }

    /** kill, as far as the console sees it. */
    method KillProc(p: nat)
      requires Valid()
      modifies this`killed, this`readers
      ensures Valid() && Next(old(State()), Kill(p), State())
    {
      hide Inv, NoEof;
      ghost var s0 := State();
      killed := killed + {p};
      if p in readers {
        readers := readers[p := readers[p].(asleep := false)];
      }
      StepKeepsInv(s0, Kill(p), State());
    }

    /** The sleep of consoleread. */
    method SleepRead(p: nat)
      requires Valid() && lock == Some(p)
      modifies this`readers, this`lock
      ensures Valid() && Next(old(State()), Sleep(p), State())
    {
      hide NoEof;
      ghost var s0 := State();
      readers, lock := readers[p := readers[p].(asleep := true)], None;
      StepKeepsInv(s0, Sleep(p), State());
    }

    /** consoleread of process p, from taking the lock until it returns or is about to sleep. */
    method Consoleread(p: nat) returns (result: ReadResult)
      requires Valid() && lock.None? && p in readers && !readers[p].asleep
      modifies this
      ensures Valid() && Next(old(State()), RunRead(p), State())
      ensures result == Waits <==> lock == Some(p)
      ensures result == Waits <==> p in readers
      ensures result == Failed ==> p in killed && taken == done
      ensures result.Got? ==>
        old(readers)[p].got <= result.bytes && delivered == old(delivered) + result.bytes[|old(readers)[p].got|..]
    {
      hide Inv, NoEof, Consume, Ring;
      ghost var s0 := State();
      var reader := readers[p];
      ReaderFits(s0, p);
      RingFacts();
      UsesAll(line[taken..done], reader.target, |reader.got|);
      var over, more := ReadLoop(reader.target, reader.got);
      if over {
        readers := readers - {p};
        result := Got(more);
      } else if p in killed {
        readers := readers - {p};
        result := Failed;
      } else {
        readers, lock := readers[p := Reader(reader.target, more, false)], Some(p);
        result := Waits;
      }
      StepKeepsInv(s0, RunRead(p), State());
    }

    /** The loop of consoleread; dst is the caller's buffer so far. */
    method ReadLoop(target: nat, got: seq<byte>) returns (over: bool, dst: seq<byte>)
      requires Ring() && |got| <= target
      modifies this`r, this`taken, this`delivered
      ensures Ring()
      ensures var t := Consume(line[old(taken)..done], target, |got|);
        over == t.over && dst == got + t.bytes && taken == old(taken) + t.used && delivered == old(delivered) + t.bytes
    {
      hide Consume, Ring;
      RingFacts();
      dst := got;
      over := true;
      var n := target - |got|;
      ghost var sofar: seq<byte> := [];
      ghost var all := Consume(line[taken..done], target, |got|);
      while n > 0
        invariant Ring() && taken <= done <= |line| && over && old(taken) <= taken && n == target - |dst|
        invariant dst == got + sofar && delivered == old(delivered) + sofar
        invariant all == After(sofar, taken - old(taken), Consume(line[taken..done], target, |dst|))
        decreases n
      {
        ghost var input, used := line[taken..done], taken - old(taken);
        ConsumeStep(input, target, |dst|);
        RingFacts();
        if r == w {
          over := false;
          break;
        }
        var c := Take();
        FirstOf(line, taken - 1, done);
        if c == EOF {
          if n < target {
            PutBack();
          }
          break;
        }
        AfterByte(sofar, used, c, Consume(input[1..], target, |dst| + 1));
        Associative(got, sofar, [c]);
        Associative(old(delivered), sofar, [c]);
        dst, n := dst + [c], n - 1;
        sofar, delivered := sofar + [c], delivered + [c];
        if c == NEWLINE {
          break;
        }
      }
      ConsumeStep(line[taken..done], target, |dst|);
    }

    lemma RingFacts()
      requires Ring()
      ensures buf.Length == INPUT_BUF && taken <= done <= |line| && (r == w <==> taken == done)
    {
      Distance(done, taken);
    }

    /** input.buf[input.r++ % INPUT_BUF] */
    method Take() returns (c: byte)
      requires Ring() && taken < done
      modifies this`r, this`taken
      ensures Ring() && taken == old(taken) + 1 <= done <= |line| < taken + INPUT_BUF && c == line[old(taken)]
      ensures buf[(taken - 1) % INPUT_BUF] == line[taken - 1]
    {
      SlotOf(taken, INPUT_BUF);
      c := buf[r % INPUT_BUF];
      NextWord(taken);
      r, taken := (r + 1) % U32, taken + 1;
    }

    /** input.r--, right after a byte was taken from a slot that still holds it. */
    method PutBack()
      requires Ring() && buf.Length == INPUT_BUF && 0 < taken <= |line| && |line| < taken + INPUT_BUF
        && buf[(taken - 1) % INPUT_BUF] == line[taken - 1]
      modifies this`r, this`taken
      ensures Ring() && taken == old(taken) - 1
    {
      Before(taken);
      r, taken := (r + U32 - 1) % U32, taken - 1;
    }
  }

  lemma ErasedLine(s: Con)
    requires Inv(s)
    ensures KillLine(s.line, s.done) == s.line[..s.done]
  {
    hide NoEof;
    KillLineEmpties(s.line, s.done);
  }

  /** What a loop that has delivered `sofar` will have done in the end. */
  function After(sofar: seq<byte>, used: nat, t: Taken): Taken {
    Taken(sofar + t.bytes, used + t.used, t.over)
  }

  lemma FirstOf(line: seq<byte>, t: nat, done: nat)
    requires t < done <= |line|
    ensures line[t..done][0] == line[t] && line[t..done][1..] == line[t + 1..done]
  {
  }

  lemma AfterByte(sofar: seq<byte>, used: nat, c: byte, t: Taken)
    ensures After(sofar, used, After([c], 1, t)) == After(sofar + [c], used + 1, t)
  {
    Associative(sofar, [c], t.bytes);
  }

  lemma Associative(s: seq<byte>, t: seq<byte>, u: seq<byte>)
    ensures s + (t + u) == s + t + u
  {
  }

  lemma ConsumeStep(input: seq<byte>, target: nat, got: nat)
    ensures var t := Consume(input, target, got);
      && (got >= target ==> t == Taken([], 0, true))
      && (got < target && input == [] ==> t == Taken([], 0, false))
      && (got < target && input != [] && input[0] == EOF ==> t == Taken([], if got > 0 then 0 else 1, true))
      && (got < target && input != [] && input[0] == NEWLINE ==> t == Taken([NEWLINE], 1, true))
      && (got < target && input != [] && Plain(input[0]) ==>
           t == After([input[0]], 1, Consume(input[1..], target, got + 1)))
  {
  }

  lemma UsesAll(input: seq<byte>, target: nat, got: nat)
    requires got <= target
    ensures var t := Consume(input, target, got); !t.over ==> t.used == |input|
  {
    ConsumeDelivers(input, target, got, []);
  }

  lemma ReaderFits(s: Con, p: nat)
    requires Inv(s) && p in s.readers
    ensures |s.readers[p].got| <= s.readers[p].target
  {
    assert ReaderOk(s, p);
  }
}
