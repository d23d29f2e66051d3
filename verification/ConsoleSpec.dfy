/** The console line discipline of xv6/console.c over every sequence of keys, reads by any number
    of processes, and kills, which may also fall between a reader's test of `killed` and its sleep:
    kill takes ptable.lock alone. */
module ConsoleSpec {
  import opened Commons
  import opened Blocks

  const INPUT_BUF: nat := 128
  const NEWLINE: byte := 10
  const EOF: byte := 4        // ^D
  const KILL: byte := 21      // ^U
  const LISTING: byte := 16   // ^P

  /** A consoleread in progress: its n, the bytes it has, and whether it sleeps on &input.r. */
  datatype Reader = Reader(target: nat, got: seq<byte>, asleep: bool)

  /** line is everything typed and not erased since boot; the first `done` bytes are committed (input.w),
      the first `taken` consumed (input.r); delivered is what reads have copied out, in order, also for a call that
      fails later; killed are the processes that kill has marked; lock is the process, if any, that
      holds cons.lock between its test of `killed` and its sleep. */
  datatype Con = Con(line: seq<byte>, done: nat, taken: nat, delivered: seq<byte>, readers: map<nat, Reader>,
    killed: set<nat>, lock: Option<nat>)

  const BOOT: Con := Con([], 0, 0, [], map[], {}, None)

  datatype Step = Key(c: byte) | StartRead(p: nat, n: nat) | RunRead(p: nat) | Sleep(p: nat) | Kill(p: nat)

  function Wake(readers: map<nat, Reader>): (r: map<nat, Reader>)
    ensures r.Keys == readers.Keys
  {
    map p | p in readers :: readers[p].(asleep := false)
  }

  /** ^U: erase back to the last committed byte or newline. */
  function KillLine(line: seq<byte>, done: nat): (r: seq<byte>)
    requires done <= |line|
    ensures done <= |r| <= |line| && r == line[..|r|]
    decreases |line|
  {
    if |line| > done && line[|line| - 1] != NEWLINE then KillLine(line[..|line| - 1], done) else line
  }

  predicate Backspace(c: byte) { c == 8 || c == 0x7f }

  function Echoed(c: byte): byte { if c == 13 then NEWLINE else c }

  /** One key in consoleintr. */
  function KeyOf(s: Con, c: byte): Con
    requires s.taken <= s.done <= |s.line|
  {
    if c == LISTING then s
    else if c == KILL then s.(line := KillLine(s.line, s.done))
    else if Backspace(c) then (if |s.line| == s.done then s else s.(line := s.line[..|s.line| - 1]))
    else if c == 0 || |s.line| - s.taken >= INPUT_BUF then s
    else
      var line := s.line + [Echoed(c)];
      if Echoed(c) == NEWLINE || Echoed(c) == EOF || |line| == s.taken + INPUT_BUF
      then s.(line := line, done := |line|, readers := Wake(s.readers))
      else s.(line := line)
  }

  /** How consoleread's loop goes on from `got`: bytes delivered now, how many input bytes they used,
      and whether the call is over. */
  datatype Taken = Taken(bytes: seq<byte>, used: nat, over: bool)

  function Consume(input: seq<byte>, target: nat, got: nat): (t: Taken)
    ensures t.used <= |input|
    decreases |input|
  {
    if got >= target then Taken([], 0, true)
    else if input == [] then Taken([], 0, false)
    else if input[0] == EOF then Taken([], if got > 0 then 0 else 1, true)
    else if input[0] == NEWLINE then Taken([NEWLINE], 1, true)
    else
      var t := Consume(input[1..], target, got + 1);
      Taken([input[0]] + t.bytes, 1 + t.used, t.over)
  }

  /** consoleread from the point where it holds the lock until it returns or passes the test for the sleep. */
  function ReadOf(s: Con, p: nat): Con
    requires s.taken <= s.done <= |s.line| && p in s.readers
  {
    var r := s.readers[p];
    var t := Consume(s.line[s.taken..s.done], r.target, |r.got|);
    var after := s.(taken := s.taken + t.used, delivered := s.delivered + t.bytes);
    if t.over || p in s.killed then after.(readers := s.readers - {p})
    else after.(readers := s.readers[p := Reader(r.target, r.got + t.bytes, false)], lock := Some(p))
  }

  /** sleep: under ptable.lock it gives up cons.lock and looks at nothing else. */
  function SleepOf(s: Con, p: nat): Con
    requires p in s.readers
  {
    s.(readers := s.readers[p := s.readers[p].(asleep := true)], lock := None)
  }

  /** kill marks the process and ends its sleep. */
  function KillOf(s: Con, p: nat): Con {
    s.(killed := s.killed + {p},
      readers := if p in s.readers then s.readers[p := s.readers[p].(asleep := false)] else s.readers)
  }

  ghost predicate Next(s: Con, step: Step, s': Con) {
    match step
    case Key(c) => s.lock.None? && s.taken <= s.done <= |s.line| && s' == KeyOf(s, c)
    case StartRead(p, n) => p !in s.readers && s' == s.(readers := s.readers[p := Reader(n, [], false)])
    case RunRead(p) =>
      && s.lock.None? && s.taken <= s.done <= |s.line| && p in s.readers && !s.readers[p].asleep
      && s' == ReadOf(s, p)
    case Sleep(p) => s.lock == Some(p) && p in s.readers && s' == SleepOf(s, p)
    case Kill(p) => s' == KillOf(s, p)
  }

  // ---------------------------------------------------------------- what every step keeps

  /** The stream without end-of-file marks. */
  function NoEof(s: seq<byte>): seq<byte> {
    if s == [] then [] else NoEof(s[..|s| - 1]) + if s[|s| - 1] == EOF then [] else [s[|s| - 1]]
  }

  predicate Plain(c: byte) { c != NEWLINE && c != EOF }

  ghost predicate ReaderOk(s: Con, p: nat)
    requires p in s.readers
  {
    var r := s.readers[p];
    && |r.got| <= r.target && (forall k :: 0 <= k < |r.got| ==> Plain(r.got[k]))
    && (r.asleep ==> s.taken == s.done)
  }

  /** The edit region is plain, a full ring is committed, reads are the committed stream without ^D,
      and whoever sleeps or is about to has nothing to read. */
  ghost predicate Inv(s: Con) {
    && s.taken <= s.done <= |s.line| && |s.line| - s.taken <= INPUT_BUF
    && (forall k :: s.done <= k < |s.line| ==> Plain(s.line[k]))
    && (|s.line| - s.taken == INPUT_BUF ==> s.done == |s.line|)
    && s.delivered == NoEof(s.line[..s.taken])
    && (s.lock.Some? ==> s.lock.value in s.readers && !s.readers[s.lock.value].asleep && s.taken == s.done)
    && forall p :: p in s.readers ==> ReaderOk(s, p)
  }

  lemma {:induction false} KillLineEmpties(line: seq<byte>, done: nat)
    requires done <= |line| && forall k :: done <= k < |line| ==> Plain(line[k])
    ensures KillLine(line, done) == line[..done]
    decreases |line|
  {
    if |line| > done {
      KillLineEmpties(line[..|line| - 1], done);
      assert line[..|line| - 1][..done] == line[..done];
    }
  }

  lemma KeyKeepsInv(s: Con, c: byte)
    requires Inv(s) && s.lock.None?
    ensures Inv(KeyOf(s, c)) && KeyOf(s, c).taken == s.taken && s.done <= KeyOf(s, c).done
      && s.line[..s.done] <= KeyOf(s, c).line
  {
    hide NoEof;
    var s' := KeyOf(s, c);
    KillLineEmpties(s.line, s.done);
    assert s'.line[..s.taken] == s.line[..s.taken];
    assert s'.line[..s.done] == s.line[..s.done];
    forall p | p in s'.readers ensures ReaderOk(s', p) { assert ReaderOk(s, p); }
  }

  lemma {:induction false} ConsumeDelivers(input: seq<byte>, target: nat, got: nat, before: seq<byte>)
    requires got <= target
    ensures var t := Consume(input, target, got);
      && NoEof(before + input[..t.used]) == NoEof(before) + t.bytes
      && got + |t.bytes| <= target
      && (!t.over ==> t.used == |input| && forall k :: 0 <= k < |t.bytes| ==> Plain(t.bytes[k]))
      && forall k :: 0 <= k < |t.bytes| - 1 ==> Plain(t.bytes[k])
    decreases |input|
  {
    var t := Consume(input, target, got);
    if got >= target || input == [] || (input[0] == EOF && got > 0) {
      assert before + input[..0] == before;
    } else if input[0] == EOF || input[0] == NEWLINE {
      NoEofMore(before, input[0]);
      assert input[..1] == [input[0]];
    } else {
      ConsumeDelivers(input[1..], target, got + 1, before + [input[0]]);
      NoEofMore(before, input[0]);
      var u := Consume(input[1..], target, got + 1);
      assert before + input[..t.used] == before + [input[0]] + input[1..][..u.used];
      assert NoEof(before) + [input[0]] + u.bytes == NoEof(before) + t.bytes;
    }
  }

  lemma NoEofMore(s: seq<byte>, c: byte)
    ensures NoEof(s + [c]) == NoEof(s) + if c == EOF then [] else [c]
  {
    assert (s + [c])[..|s|] == s;
  }

  lemma ReadKeepsInv(s: Con, p: nat)
    requires Inv(s) && s.lock.None? && p in s.readers && !s.readers[p].asleep
    ensures Inv(ReadOf(s, p))
  {
    hide NoEof, Consume;
    var s', r := ReadOf(s, p), s.readers[p];
    var input := s.line[s.taken..s.done];
    var t := Consume(input, r.target, |r.got|);
    assert ReaderOk(s, p);
    ConsumeDelivers(input, r.target, |r.got|, s.line[..s.taken]);
    assert s.line[..s.taken] + input[..t.used] == s.line[..s'.taken];
    forall q | q in s'.readers ensures ReaderOk(s', q) {
      if q != p { assert ReaderOk(s, q); }
    }
  }

  lemma StepKeepsInv(s: Con, step: Step, s': Con)
    requires Inv(s) && Next(s, step, s')
    ensures Inv(s')
  {
    hide NoEof, ReadOf, KeyOf;
    match step
    case Key(c) => KeyKeepsInv(s, c);
    case RunRead(p) => ReadKeepsInv(s, p);
    case _ =>
      forall q | q in s'.readers ensures ReaderOk(s', q) {
        if q in s.readers { assert ReaderOk(s, q); }
      }
  }

  ghost predicate IsRun(states: seq<Con>, steps: seq<Step>) {
    && |states| == |steps| + 1 && states[0] == BOOT
    && forall k :: 0 <= k < |steps| ==> Next(states[k], steps[k], states[k + 1])
  }

  lemma {:induction false} RunKeepsInv(states: seq<Con>, steps: seq<Step>, k: nat)
    requires IsRun(states, steps) && k < |states|
    ensures Inv(states[k])
  {
    if k > 0 {
      RunKeepsInv(states, steps, k - 1);
      StepKeepsInv(states[k - 1], steps[k - 1], states[k]);
    } else {
      assert [][..0] == NoEof([]);
    }
  }

  /** In every run: bytes once committed stay as they are, so what all reads together return is always
      a prefix of the committed stream with ^D left out. */
  lemma {:induction false} ReadsFollowCommits(states: seq<Con>, steps: seq<Step>, j: nat, k: nat)
    requires IsRun(states, steps) && j <= k < |states|
    ensures Inv(states[j]) && Inv(states[k])
    ensures states[j].done <= states[k].done && states[j].line[..states[j].done] == states[k].line[..states[j].done]
    ensures states[j].delivered == NoEof(states[k].line[..states[j].taken])
    decreases k - j
  {
    hide NoEof, KeyOf, ReadOf;
    RunKeepsInv(states, steps, j);
    RunKeepsInv(states, steps, k);
    if j < k {
      ReadsFollowCommits(states, steps, j, k - 1);
      var s, s', d := states[k - 1], states[k], states[j].done;
      assert Next(s, steps[k - 1], s');
      CommitsStay(s, steps[k - 1], s');
      assert s'.line[..s.done][..d] == s'.line[..d] && s.line[..s.done][..d] == s.line[..d];
      assert s'.line[..d][..states[j].taken] == s'.line[..states[j].taken];
    }
    assert states[j].line[..states[j].done][..states[j].taken] == states[j].line[..states[j].taken];
    assert states[k].line[..states[j].done][..states[j].taken] == states[k].line[..states[j].taken];
  }

  lemma CommitsStay(s: Con, step: Step, s': Con)
    requires Inv(s) && Next(s, step, s')
    ensures s.done <= s'.done <= |s'.line| && s'.line[..s.done] == s.line[..s.done]
  {
    hide NoEof;
    if step.Key? {
      KeyKeepsInv(s, step.c);
    }
  }

  /** A call that returns hands out at most one line: a newline can only be its last byte. */
  lemma AtMostOneLine(s: Con, p: nat)
    requires Inv(s) && p in s.readers && !s.readers[p].asleep
    ensures var r := s.readers[p];
      var t := Consume(s.line[s.taken..s.done], r.target, |r.got|);
      var all := r.got + t.bytes;
      |all| <= r.target && forall k :: 0 <= k < |all| - 1 ==> Plain(all[k])
  {
    assert ReaderOk(s, p);
    ConsumeDelivers(s.line[s.taken..s.done], s.readers[p].target, |s.readers[p].got|, []);
  }

  // ---------------------------------------------------------------- sleep and kill

  ghost predicate NoKilledSleeper(s: Con) {
    forall p :: p in s.readers && s.readers[p].asleep ==> p !in s.killed
  }

  /** A reader killed between its test and its sleep: kill finds it running and wakes nobody. */
  predicate SleepsKilled(s: Con, step: Step) {
    step.Sleep? && step.p in s.killed
  }

  /** Exactly that step puts a killed reader to sleep. */
  lemma StepKeepsKilledAwake(s: Con, step: Step, s': Con)
    requires Inv(s) && NoKilledSleeper(s) && Next(s, step, s')
    ensures NoKilledSleeper(s') <==> !SleepsKilled(s, step)
  {
    hide NoEof, Consume, KillLine;
  }

  lemma {:induction false} RunKeepsKilledAwake(states: seq<Con>, steps: seq<Step>, k: nat)
    requires IsRun(states, steps) && k < |states|
    requires forall j :: 0 <= j < k ==> !SleepsKilled(states[j], steps[j])
    ensures NoKilledSleeper(states[k])
  {
    if k > 0 {
      RunKeepsKilledAwake(states, steps, k - 1);
      RunKeepsInv(states, steps, k - 1);
      assert Next(states[k - 1], steps[k - 1], states[k - 1 + 1]);
      StepKeepsKilledAwake(states[k - 1], steps[k - 1], states[k]);
    }
  }

  lemma LockStep(s: Con, step: Step, s': Con, p: nat)
    requires Next(s, step, s') && s'.lock == Some(p)
    ensures s.lock != Some(p) ==> step == RunRead(p) && p !in s.killed && s'.killed == s.killed
    ensures p in s'.killed && p !in s.killed ==> step == Kill(p)
  {
    hide NoEof, Consume, KillLine;
  }

  /** Who is about to sleep passed the test, unkilled, and has held the lock since then: a killed one
      was killed in between. */
  lemma {:induction false} KilledAfterTest(states: seq<Con>, steps: seq<Step>, k: nat, p: nat)
    returns (test: nat, kill: nat)
    requires IsRun(states, steps) && k < |states| && states[k].lock == Some(p)
    ensures test < k && steps[test] == RunRead(p) && p !in states[test].killed
    ensures forall j :: test < j <= k ==> states[j].lock == Some(p)
    ensures p in states[k].killed ==> test < kill < k && steps[kill] == Kill(p)
  {
    hide Next;
    assert k > 0;
    LockStep(states[k - 1], steps[k - 1], states[k], p);
    if states[k - 1].lock == Some(p) {
      test, kill := KilledAfterTest(states, steps, k - 1, p);
      if p !in states[k - 1].killed { kill := k - 1; }
    } else {
      test, kill := k - 1, k - 1;
    }
  }

  /** A reader killed in between sleeps on, marked. */
  lemma KilledReaderSleeps() returns (states: seq<Con>, steps: seq<Step>)
    ensures IsRun(states, steps) && |steps| == 4
    ensures 0 in states[4].readers && states[4].readers[0].asleep && 0 in states[4].killed
  {
    var s1 := BOOT.(readers := map[0 := Reader(1, [], false)]);
    var s2 := s1.(lock := Some(0));
    var s3 := s2.(killed := {0});
    var s4 := SleepOf(s3, 0);
    steps := [StartRead(0, 1), RunRead(0), Kill(0), Sleep(0)];
    states := [BOOT, s1, s2, s3, s4];
    assert s2.readers[0 := Reader(1, [], false)] == s2.readers;
    assert s1.line[0..0] == [] && Consume([], 1, 0) == Taken([], 0, false);
    assert ReadOf(s1, 0) == s2;
    assert Next(BOOT, steps[0], s1) && Next(s1, steps[1], s2) && Next(s2, steps[2], s3) && Next(s3, steps[3], s4);
  }
}
