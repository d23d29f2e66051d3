/** xv6/pipe.c as a step system: any number of readers and writers inside a pipe, each step what
    one of them does under p->lock.  Processes may be killed at any time, also between a call's
    test of `killed` and its sleep, because kill takes ptable.lock alone; an end is closed only when
    no call on that end is in progress. */
module PipeSpec {
  import opened Commons
  import opened Blocks

  const PIPESIZE: nat := 512

  type Stream = seq<byte>

  /** A call in progress: what is left to write (from index i) or how much to read; and whether
      it is asleep, on &nwrite or on &nread. */
  datatype Call =
    | Writing(addr: Stream, i: nat, asleep: bool)
    | Reading(n: nat, asleep: bool)

  /** All bytes ever stored, all bytes ever handed to readers, the open ends, the calls by process,
      the processes that kill has marked, and the process, if any, that holds p->lock between its
      test of `killed` and its sleep. */
  datatype PipeState = PipeState(written: Stream, read: Stream, readopen: bool, writeopen: bool,
    calls: map<nat, Call>, killed: set<nat>, lock: Option<nat>)

  const FRESH: PipeState := PipeState([], [], true, true, map[], {}, None)

  datatype Step =
    | StartWrite(p: nat, addr: Stream)
    | StartRead(p: nat, n: nat)
    | RunWrite(p: nat)
    | RunRead(p: nat)
    | Sleep(p: nat)
    | CloseWrite
    | CloseRead
    | Kill(p: nat)

  function Occupied(s: PipeState): int { |s.written| - |s.read| }

  /** wakeup(&p->nread) */
  function WakeReaders(calls: map<nat, Call>): (r: map<nat, Call>)
    ensures r.Keys == calls.Keys
  {
    map p | p in calls :: if calls[p].Reading? then Reading(calls[p].n, false) else calls[p]
  }

  /** wakeup(&p->nwrite) */
  function WakeWriters(calls: map<nat, Call>): (r: map<nat, Call>)
    ensures r.Keys == calls.Keys
  {
    map p | p in calls :: if calls[p].Writing? then Writing(calls[p].addr, calls[p].i, false) else calls[p]
  }

  /** How many bytes a writer at index i can store before the pipe is full. */
  function Room(s: PipeState, addr: Stream, i: nat): nat
    requires i <= |addr| && Occupied(s) <= PIPESIZE
  {
    if |addr| - i <= PIPESIZE - Occupied(s) then |addr| - i else PIPESIZE - Occupied(s)
  }

  /** pipewrite from the point where it holds the lock: store, then return, fail, or pass the test
      for the sleep and wake the readers. */
  function RunWriteOf(s: PipeState, p: nat): PipeState
    requires p in s.calls && s.calls[p].Writing? && s.calls[p].i <= |s.calls[p].addr| && Occupied(s) <= PIPESIZE
  {
    var c := s.calls[p];
    var j := c.i + Room(s, c.addr, c.i);
    var stored := s.(written := s.written + c.addr[c.i..j]);
    if j == |c.addr| then stored.(calls := WakeReaders(s.calls - {p}))
    else if !s.readopen || p in s.killed then stored.(calls := s.calls - {p})
    else stored.(calls := WakeReaders(s.calls)[p := Writing(c.addr, j, false)], lock := Some(p))
  }

  /** How many bytes a reader gets. */
  function Taken(s: PipeState, n: nat): nat
    requires 0 <= Occupied(s)
  {
    if n <= Occupied(s) then n else Occupied(s)
  }

  /** piperead from the point where it holds the lock. */
  function RunReadOf(s: PipeState, p: nat): PipeState
    requires p in s.calls && s.calls[p].Reading? && 0 <= Occupied(s)
  {
    var n := s.calls[p].n;
    if Occupied(s) == 0 && s.writeopen then
      if p in s.killed then s.(calls := s.calls - {p}) else s.(lock := Some(p))
    else
      var got := s.written[|s.read|..|s.read| + Taken(s, n)];
      s.(read := s.read + got, calls := WakeWriters(s.calls - {p}))
  }

  /** sleep: under ptable.lock it gives up p->lock and looks at nothing else. */
  function SleepOf(s: PipeState, p: nat): PipeState
    requires p in s.calls
  {
    s.(calls := s.calls[p := s.calls[p].(asleep := true)], lock := None)
  }

  /** kill marks the process and ends its sleep. */
  function KillOf(s: PipeState, p: nat): PipeState {
    s.(killed := s.killed + {p}, calls := if p in s.calls then s.calls[p := s.calls[p].(asleep := false)] else s.calls)
  }

  /** What process p is doing inside the pipe, if anything. */
  predicate Inside(s: PipeState, p: nat, writer: bool) {
    p in s.calls && s.calls[p].Writing? == writer
  }

  /** One step from s to s', if it can be taken in s. */
  ghost predicate Next(s: PipeState, step: Step, s': PipeState) {
    match step
    case StartWrite(p, addr) => p !in s.calls && s.writeopen && s' == s.(calls := s.calls[p := Writing(addr, 0, false)])
    case StartRead(p, n) => p !in s.calls && s.readopen && s' == s.(calls := s.calls[p := Reading(n, false)])
    case RunWrite(p) =>
      && s.lock.None? && Inside(s, p, true) && !s.calls[p].asleep && s.calls[p].i <= |s.calls[p].addr|
      && Occupied(s) <= PIPESIZE && s' == RunWriteOf(s, p)
    case RunRead(p) =>
      && s.lock.None? && Inside(s, p, false) && !s.calls[p].asleep && 0 <= Occupied(s)
      && s' == RunReadOf(s, p)
    case Sleep(p) => s.lock == Some(p) && p in s.calls && s' == SleepOf(s, p)
    case CloseWrite =>
      && s.lock.None? && s.writeopen && (forall p :: !Inside(s, p, true))
      && s' == s.(writeopen := false, calls := WakeReaders(s.calls))
    case CloseRead =>
      && s.lock.None? && s.readopen && (forall p :: !Inside(s, p, false))
      && s' == s.(readopen := false, calls := WakeWriters(s.calls))
    case Kill(p) => s' == KillOf(s, p)
  }

  // ---------------------------------------------------------------- what every step keeps

  ghost predicate CallOk(s: PipeState, p: nat)
    requires p in s.calls
  {
    match s.calls[p]
    case Writing(addr, i, asleep) =>
      i <= |addr| && s.writeopen && (asleep ==> Occupied(s) == PIPESIZE && s.readopen && i < |addr|)
    case Reading(n, asleep) => s.readopen && (asleep ==> s.writeopen)
  }

  predicate Sleeps(s: PipeState, p: nat, writer: bool) {
    Inside(s, p, writer) && s.calls[p].asleep
  }

  /** Whoever is about to sleep has reason to: a writer a full pipe and readers that are awake, a
      reader an empty pipe. */
  ghost predicate HolderOk(s: PipeState, p: nat) {
    && p in s.calls && !s.calls[p].asleep
    && match s.calls[p]
       case Writing(addr, i, asleep) =>
         Occupied(s) == PIPESIZE && s.readopen && i < |addr| && forall q :: !Sleeps(s, q, false)
       case Reading(n, asleep) => Occupied(s) == 0 && s.writeopen
  }

  /** Reads so far are a prefix of the writes so far; a sleeping writer means full; readers and
      writers never sleep at the same time. */
  ghost predicate Inv(s: PipeState) {
    && s.read <= s.written && Occupied(s) <= PIPESIZE
    && (forall p :: p in s.calls ==> CallOk(s, p))
    && (s.lock.Some? ==> HolderOk(s, s.lock.value))
    && forall p, q :: !(Sleeps(s, p, false) && Sleeps(s, q, true))
  }

  lemma WriteKeepsInv(s: PipeState, p: nat)
    requires Inv(s) && s.lock.None? && p in s.calls && s.calls[p].Writing? && !s.calls[p].asleep && CallOk(s, p)
    ensures Inv(RunWriteOf(s, p))
  {
    var s' := RunWriteOf(s, p);
    forall q | q in s'.calls ensures CallOk(s', q) {
      assert CallOk(s, q);
    }
    forall x, y ensures !(Sleeps(s', x, false) && Sleeps(s', y, true)) {
      assert !(Sleeps(s, x, false) && Sleeps(s, y, true));
    }
  }

  lemma ReadKeepsInv(s: PipeState, p: nat)
    requires Inv(s) && s.lock.None? && p in s.calls && s.calls[p].Reading? && !s.calls[p].asleep && CallOk(s, p)
    ensures Inv(RunReadOf(s, p))
  {
    var s' := RunReadOf(s, p);
    forall q | q in s'.calls ensures CallOk(s', q) {
      assert CallOk(s, q);
    }
    assert s'.read == s.written[..|s'.read|];
    forall x, y ensures !(Sleeps(s', x, false) && Sleeps(s', y, true)) {
      assert !(Sleeps(s, x, false) && Sleeps(s, y, true));
      if y in s.calls { assert CallOk(s, y); }
    }
  }

  lemma OtherKeepsInv(s: PipeState, step: Step, s': PipeState)
    requires Inv(s) && Next(s, step, s') && !step.RunWrite? && !step.RunRead?
    ensures Inv(s')
  {
    forall q | q in s'.calls ensures CallOk(s', q) {
      if q in s.calls {
        assert CallOk(s, q) && (Inside(s, q, true) || Inside(s, q, false));
      }
    }
    forall x, y ensures !(Sleeps(s', x, false) && Sleeps(s', y, true)) {
      assert !(Sleeps(s, x, false) && Sleeps(s, y, true));
    }
    assert s'.lock.Some? ==> forall q :: Sleeps(s', q, false) ==> Sleeps(s, q, false);
  }

  lemma StepKeepsInv(s: PipeState, step: Step, s': PipeState)
    requires Inv(s) && Next(s, step, s')
    ensures Inv(s')
  {
    if step.RunWrite? {
      assert CallOk(s, step.p);
      WriteKeepsInv(s, step.p);
    } else if step.RunRead? {
      assert CallOk(s, step.p);
      ReadKeepsInv(s, step.p);
    } else {
      OtherKeepsInv(s, step, s');
    }
  }

  /** A run of the pipe from its creation. */
  ghost predicate IsRun(states: seq<PipeState>, steps: seq<Step>) {
    && |states| == |steps| + 1 && states[0] == FRESH
    && forall k :: 0 <= k < |steps| ==> Next(states[k], steps[k], states[k + 1])
  }

  lemma {:induction false} RunKeepsInv(states: seq<PipeState>, steps: seq<Step>, k: nat)
    requires IsRun(states, steps) && k < |states|
    ensures Inv(states[k])
  {
    if k > 0 {
      RunKeepsInv(states, steps, k - 1);
      StepKeepsInv(states[k - 1], steps[k - 1], states[k]);
    }
  }

  /** In every state of every run: bytes come out as they went in, at most PIPESIZE are in flight, a
      sleeping writer means full, and readers and writers never sleep at the same time. */
  lemma PipeSafety(states: seq<PipeState>, steps: seq<Step>, k: nat, p: nat, q: nat)
    requires IsRun(states, steps) && k < |states|
    ensures var s := states[k];
      && s.read <= s.written && Occupied(s) <= PIPESIZE
      && (Sleeps(s, p, false) ==> s.writeopen)
      && (Sleeps(s, q, true) ==> Occupied(s) == PIPESIZE && s.readopen)
      && !(Sleeps(s, p, false) && Sleeps(s, q, true))
  {
    RunKeepsInv(states, steps, k);
    var s := states[k];
    if p in s.calls { assert CallOk(s, p); }
    if q in s.calls { assert CallOk(s, q); }
  }

  // ---------------------------------------------------------------- sleeping readers

  /** Whoever waits to read has nothing to read. */
  ghost predicate NoneMissed(s: PipeState) {
    forall p :: Sleeps(s, p, false) ==> Occupied(s) == 0
  }

  /** A killed writer that fills an empty pipe while somebody waits to read: pipewrite returns -1
      from its full-pipe loop before the wakeup. */
  ghost predicate LosesWakeup(s: PipeState, step: Step) {
    && step.RunWrite? && Inside(s, step.p, true) && step.p in s.killed && Occupied(s) == 0
    && |s.calls[step.p].addr| - s.calls[step.p].i > PIPESIZE
    && exists q :: Sleeps(s, q, false)
  }

  /** Exactly that step leaves a reader asleep in front of a full pipe. */
  lemma StepKeepsNoneMissed(s: PipeState, step: Step, s': PipeState)
    requires Inv(s) && NoneMissed(s) && Next(s, step, s')
    ensures NoneMissed(s') <==> !LosesWakeup(s, step)
  {
    forall q ensures Sleeps(s', q, false) && !LosesWakeup(s, step) ==> Occupied(s') == 0 {
      if q in s.calls { assert CallOk(s, q); }
      assert Sleeps(s, q, false) ==> Occupied(s) == 0;
    }
    if LosesWakeup(s, step) {
      var q :| Sleeps(s, q, false);
      assert CallOk(s, q) && Sleeps(s', q, false);
    }
  }

  lemma {:induction false} RunKeepsNoneMissed(states: seq<PipeState>, steps: seq<Step>, k: nat)
    requires IsRun(states, steps) && k < |states|
    requires forall j :: 0 <= j < k ==> !LosesWakeup(states[j], steps[j])
    ensures NoneMissed(states[k])
  {
    if k > 0 {
      RunKeepsNoneMissed(states, steps, k - 1);
      RunKeepsInv(states, steps, k - 1);
      assert Next(states[k - 1], steps[k - 1], states[k - 1 + 1]);
      StepKeepsNoneMissed(states[k - 1], steps[k - 1], states[k]);
    }
  }

  lemma ReaderWaits() returns (s1: PipeState, s2: PipeState, s3: PipeState)
    ensures Next(FRESH, StartRead(0, 1), s1) && Next(s1, RunRead(0), s2) && Next(s2, Sleep(0), s3)
    ensures s3 == FRESH.(calls := map[0 := Reading(1, true)])
  {
    s1 := FRESH.(calls := map[0 := Reading(1, false)]);
    s2 := s1.(lock := Some(0));
    s3 := FRESH.(calls := map[0 := Reading(1, true)]);
  }

  lemma WriterFails(addr: Stream, s3: PipeState) returns (s4: PipeState, s5: PipeState, s6: PipeState)
    requires |addr| == PIPESIZE + 1 && s3 == FRESH.(calls := map[0 := Reading(1, true)])
    ensures Next(s3, StartWrite(1, addr), s4) && Next(s4, Kill(1), s5) && Next(s5, RunWrite(1), s6)
    ensures s6.calls == s3.calls && Occupied(s6) == PIPESIZE
  {
    s4 := s3.(calls := s3.calls[1 := Writing(addr, 0, false)]);
    s5 := s4.(killed := {1});
    s6 := RunWriteOf(s5, 1);
    assert s4.calls[1 := Writing(addr, 0, false)] == s4.calls;
    assert s4.calls - {1} == s3.calls;
  }

  /** Such a run: process 0 waits to read, process 1 writes one byte more than fits and is killed. */
  lemma LostWakeup(addr: Stream) returns (states: seq<PipeState>, steps: seq<Step>)
    requires |addr| == PIPESIZE + 1
    ensures IsRun(states, steps) && |steps| == 6
    ensures var s := states[6]; Sleeps(s, 0, false) && Occupied(s) == PIPESIZE && s.calls.Keys == {0}
  {
    hide Next;
    var s1, s2, s3 := ReaderWaits();
    var s4, s5, s6 := WriterFails(addr, s3);
    steps := [StartRead(0, 1), RunRead(0), Sleep(0), StartWrite(1, addr), Kill(1), RunWrite(1)];
    states := [FRESH, s1, s2, s3, s4, s5, s6];
  }

  // ---------------------------------------------------------------- sleep and kill

  ghost predicate NoKilledSleeper(s: PipeState) {
    forall p :: p in s.calls && s.calls[p].asleep ==> p !in s.killed
  }

  /** A process killed between its test and its sleep: kill finds it running and wakes nobody. */
  predicate SleepsKilled(s: PipeState, step: Step) {
    step.Sleep? && step.p in s.killed
  }

  /** Exactly that step puts a killed process to sleep. */
  lemma StepKeepsKilledAwake(s: PipeState, step: Step, s': PipeState)
    requires Inv(s) && NoKilledSleeper(s) && Next(s, step, s')
    ensures NoKilledSleeper(s') <==> !SleepsKilled(s, step)
  {
  }

  lemma {:induction false} RunKeepsKilledAwake(states: seq<PipeState>, steps: seq<Step>, k: nat)
    requires IsRun(states, steps) && k < |states|
    requires forall j :: 0 <= j < k ==> !SleepsKilled(states[j], steps[j])
    ensures NoKilledSleeper(states[k])
  {
    if k > 0 {
      RunKeepsKilledAwake(states, steps, k - 1);
      RunKeepsInv(states, steps, k - 1);
      assert Next(states[k - 1], steps[k - 1], states[k - 1 + 1]);
      StepKeepsKilledAwake(states[k - 1], steps[k - 1], states[k]);
    }
  }

  lemma LockStep(s: PipeState, step: Step, s': PipeState, p: nat)
    requires Next(s, step, s') && s'.lock == Some(p)
    ensures s.lock != Some(p) ==> (step == RunWrite(p) || step == RunRead(p)) && p !in s.killed && s'.killed == s.killed
    ensures p in s'.killed && p !in s.killed ==> step == Kill(p)
  {
  }

  /** Who is about to sleep passed the test, unkilled, and has held the lock since then: a killed one
      was killed in between. */
  lemma {:induction false} KilledAfterTest(states: seq<PipeState>, steps: seq<Step>, k: nat, p: nat)
    returns (test: nat, kill: nat)
    requires IsRun(states, steps) && k < |states| && states[k].lock == Some(p)
    ensures test < k && (steps[test] == RunWrite(p) || steps[test] == RunRead(p)) && p !in states[test].killed
    ensures forall j :: test < j <= k ==> states[j].lock == Some(p)
    ensures p in states[k].killed ==> test < kill < k && steps[kill] == Kill(p)
  {
    hide Next;
    assert k > 0;
    LockStep(states[k - 1], steps[k - 1], states[k], p);
    if states[k - 1].lock == Some(p) {
      test, kill := KilledAfterTest(states, steps, k - 1, p);
      if p !in states[k - 1].killed { kill := k - 1; }
    } else {
      test, kill := k - 1, k - 1;
    }
  }

  /** A reader killed in between sleeps on, marked. */
  lemma KilledReaderSleeps() returns (states: seq<PipeState>, steps: seq<Step>)
    ensures IsRun(states, steps) && |steps| == 4
    ensures Sleeps(states[4], 0, false) && 0 in states[4].killed
  {
    var s1 := FRESH.(calls := map[0 := Reading(1, false)]);
    var s2 := s1.(lock := Some(0));
    var s3 := s2.(killed := {0});
    var s4 := SleepOf(s3, 0);
    steps := [StartRead(0, 1), RunRead(0), Kill(0), Sleep(0)];
    states := [FRESH, s1, s2, s3, s4];
    assert s2.calls[0 := Reading(1, false)] == s2.calls;
    assert Next(FRESH, steps[0], s1) && Next(s1, steps[1], s2) && Next(s2, steps[2], s3) && Next(s3, steps[3], s4);
  }

  /** So does a writer. */
  lemma KilledWriterSleeps(addr: Stream) returns (states: seq<PipeState>, steps: seq<Step>)
    requires |addr| == PIPESIZE + 1
    ensures IsRun(states, steps) && |steps| == 4
    ensures Sleeps(states[4], 1, true) && 1 in states[4].killed
  {
    var s1 := FRESH.(calls := map[1 := Writing(addr, 0, false)]);
    var s2 := RunWriteOf(s1, 1);
    var s3 := KillOf(s2, 1);
    var s4 := SleepOf(s3, 1);
    steps := [StartWrite(1, addr), RunWrite(1), Kill(1), Sleep(1)];
    states := [FRESH, s1, s2, s3, s4];
    assert Next(FRESH, steps[0], s1) && Next(s1, steps[1], s2) && Next(s2, steps[2], s3) && Next(s3, steps[3], s4);
  }

  /** Streams only grow, and later reads continue where earlier ones stopped. */
  lemma {:induction false} StreamsGrow(states: seq<PipeState>, steps: seq<Step>, j: nat, k: nat)
    requires IsRun(states, steps) && j <= k < |states|
    ensures states[j].written <= states[k].written && states[j].read <= states[k].read
    decreases k - j
  {
    if j < k {
      StreamsGrow(states, steps, j, k - 1);
      assert Next(states[k - 1], steps[k - 1], states[k]);
    }
  }

  // ---------------------------------------------------------------- what a call gets

  /** A read waits exactly when the pipe is empty and can still be written to, unless it is killed; otherwise it
      takes the next bytes in order, n of them or all there are. */
  lemma ReadExactly(s: PipeState, p: nat, s': PipeState)
    requires Inv(s) && Next(s, RunRead(p), s')
    ensures var n, there := s.calls[p].n, |s.written| - |s.read|;
      && (p in s'.calls <==> there == 0 && s.writeopen && p !in s.killed)
      && s'.read == s.written[..|s.read| + if there == 0 then 0 else Min(n, there)] && s'.written == s.written
  {
    assert s.written[..|s.read|] == s.read;
    assert s'.read == s.written[..|s'.read|];
  }

  /** A write stores the next bytes of its buffer, up to its end or until the pipe is full; it goes on waiting
      exactly when bytes are left, the pipe can still be read from and the writer is not killed. */
  lemma WriteExactly(s: PipeState, p: nat, s': PipeState)
    requires Inv(s) && Next(s, RunWrite(p), s')
    ensures var addr, i := s.calls[p].addr, s.calls[p].i;
      && 0 <= |s'.written| - |s.written| == Min(|addr| - i, 512 - (|s.written| - |s.read|))
      && s'.written == s.written + addr[i..i + |s'.written| - |s.written|] && s'.read == s.read
      && (p in s'.calls <==> i + |s'.written| - |s.written| < |addr| && s.readopen && p !in s.killed)
      && (p in s'.calls ==> s'.calls[p] == Writing(addr, i + |s'.written| - |s.written|, false))
  {
  }

  /** Nothing is written once the write end is closed. */
  lemma {:induction false} ClosedIsFinal(states: seq<PipeState>, steps: seq<Step>, j: nat, k: nat)
    requires IsRun(states, steps) && j <= k < |states| && !states[j].writeopen
    ensures !states[k].writeopen && states[k].written == states[j].written
    decreases k - j
  {
    if j < k {
      ClosedIsFinal(states, steps, j, k - 1);
      RunKeepsInv(states, steps, k - 1);
      NoWriterInside(states[k - 1]);
      assert Next(states[k - 1], steps[k - 1], states[k]);
    }
  }

  lemma NoWriterInside(s: PipeState)
    requires Inv(s)
    ensures forall p :: Inside(s, p, true) ==> s.writeopen
  {
    forall p ensures Inside(s, p, true) ==> s.writeopen { assert p in s.calls ==> CallOk(s, p); }
  }

  /** A read of n > 0 bytes that returns none to a process that is not killed means end of file, in every run:
      all that was ever written, before or after, has been read. */
  lemma EofMeansAllRead(states: seq<PipeState>, steps: seq<Step>, j: nat, k: nat, p: nat)
    requires IsRun(states, steps) && j < k < |states| && steps[j] == RunRead(p) && p !in states[j].killed
    requires p !in states[j + 1].calls && states[j].calls[p].n > 0 && states[j + 1].read == states[j].read
    ensures states[k].written == states[j].read == states[k].read
  {
    hide Next, Inv;
    RunKeepsInv(states, steps, j);
    assert Next(states[j], steps[j], states[j + 1]);
    ReadExactly(states[j], p, states[j + 1]);
    AllTaken(states[j]);
    ClosedIsFinal(states, steps, j, k);
    StreamsGrow(states, steps, j, k);
    RunKeepsInv(states, steps, k);
    AllTaken(states[k]);
  }

  lemma AllTaken(s: PipeState)
    requires Inv(s)
    ensures s.read <= s.written && (|s.written| == |s.read| ==> s.written == s.read)
  {
  }

  /** A call that waits can be served: with a sleeping reader the next write of a process that is not
      killed wakes it, with a sleeping writer the next read does. */
  lemma RunsWake(s: PipeState, p: nat, s': PipeState, q: nat)
    requires Inv(s) && q in s'.calls
    requires (Next(s, RunWrite(p), s') && s.readopen && p !in s.killed && s'.calls[q].Reading?)
      || (Next(s, RunRead(p), s') && |s'.read| > |s.read| && s'.calls[q].Writing?)
    ensures !s'.calls[q].asleep
  {
    assert CallOk(s, p);
  }
}
