/** begin_op's test (xv6/log.c) against what it is for: it sees only how many blocks are logged and how many
    operations run, and of all tests that see no more it is the one that admits the most without letting a run
    reach the panic "too big a transaction" in an operation with budget left. */
module LogAdmission {
  import opened Commons
  import opened Blocks
  import opened LogRecovery
  import opened LogReservation

  /** The state with one more running operation, whatever begin_op says. */
  function Admitted(s: LogState): LogState {
    s.(ops := s.ops + [Op(true, {}, false)])
  }

  /** Operation op is about to log a block that its budget allows, and panics. */
  predicate Hurt(size: nat, s: LogState, op: nat) {
    Running(s, op, false) && |s.ops[op].logged| < MAXOPBLOCKS && Do(size, s, Check(op)) == Panic
  }

  /** From s, no operation is ever hurt. */
  ghost predicate Safe(size: nat, s: LogState) {
    forall steps: seq<Step>, op: nat :: Run(size, s, steps).Next? ==> !Hurt(size, Run(size, s, steps).s, op)
  }

  /** Some run ends in s, outside a commit, with n blocks logged and k operations running. */
  ghost predicate Reaches(size: nat, s: LogState, n: nat, k: nat) {
    && (exists steps :: Run(size, IDLE, steps) == Next(s))
    && !s.committing && |s.blocks| == n && Outstanding(s.ops) == k
  }

  // ---------------------------------------------------------------- what every run keeps

  lemma {:induction false} RunKeepsReserved(size: nat, s: LogState, steps: seq<Step>)
    requires Reserved(s)
    ensures Run(size, s, steps).Next? ==> Reserved(Run(size, s, steps).s)
    decreases |steps|
  {
    hide Reserved;
    if steps != [] {
      var before := Run(size, s, steps[..|steps| - 1]);
      RunKeepsReserved(size, s, steps[..|steps| - 1]);
      if before.Next? { StepKeepsReserved(size, before.s, steps[|steps| - 1]); }
    }
  }

  /** At most three operations run at once, and between transactions the log is empty. */
  lemma {:induction false} RunShape(size: nat, steps: seq<Step>)
    requires Run(size, IDLE, steps).Next?
    ensures var s := Run(size, IDLE, steps).s;
      Outstanding(s.ops) <= LOGSIZE / MAXOPBLOCKS && (Outstanding(s.ops) == 0 && !s.committing ==> s.blocks == [])
    decreases |steps|
  {
    hide Outstanding;
    if steps == [] {
      NoOps();
    } else {
      RunShape(size, steps[..|steps| - 1]);
      var s, step := Run(size, IDLE, steps[..|steps| - 1]).s, steps[|steps| - 1];
      if Do(size, s, step).Next? { ShapeStep(size, s, step); }
    }
  }

  lemma NoOps()
    ensures Outstanding([]) == 0
  {
  }

  lemma ShapeStep(size: nat, s: LogState, step: Step)
    requires Outstanding(s.ops) <= LOGSIZE / MAXOPBLOCKS
      && (Outstanding(s.ops) == 0 && !s.committing ==> s.blocks == [])
    requires Do(size, s, step).Next?
    ensures var t := Do(size, s, step).s;
      Outstanding(t.ops) <= LOGSIZE / MAXOPBLOCKS && (Outstanding(t.ops) == 0 && !t.committing ==> t.blocks == [])
  {
    hide Outstanding;
    match step
    case Begin => CountAppend(s.ops, Op(true, {}, false));
    case Check(op) => CountUpdate(s.ops, op, s.ops[op].(passed := true));
    case Append(op, b) =>
      CountUpdate(s.ops, op, Op(true, s.ops[op].logged + {b}, false));
      NoneOutstanding(s.ops, op);
    case End(op) => CountUpdate(s.ops, op, Op(false, s.ops[op].logged, false));
    case CommitEnd =>
  }

  // ---------------------------------------------------------------- when one more operation is safe

  /** An operation that may still log, if there is budget at all. */
  lemma {:induction false} SomeBudget(ops: seq<Op>) returns (op: nat)
    requires Unused(ops) > 0
    ensures op < |ops| && ops[op].active && |ops[op].logged| < MAXOPBLOCKS
  {
    op := |ops| - 1;
    if Budget(ops[op]) <= 0 { op := SomeBudget(ops[..op]); }
  }

  /** A block that is not logged yet. */
  lemma {:induction false} FreshBlock(blocks: seq<nat>) returns (b: nat)
    ensures forall c :: c in blocks ==> c < b
  {
    if blocks == [] {
      b := 0;
    } else {
      b := FreshBlock(blocks[..|blocks| - 1]);
      b := Max(b, blocks[|blocks| - 1] + 1);
      assert blocks == blocks[..|blocks| - 1] + [blocks[|blocks| - 1]];
    }
  }

  /** No operation is inside log_write, and what the running ones logged is listed. */
  ghost predicate Quiet(s: LogState) {
    !s.committing && forall i :: 0 <= i < |s.ops| && s.ops[i].active ==> !s.ops[i].passed && Listed(s.ops[i], s.blocks)
  }

  ghost predicate Listed(op: Op, blocks: seq<nat>) {
    forall b :: b in op.logged ==> b in blocks
  }

  lemma RunTwoMore(size: nat, s: LogState, steps: seq<Step>, t: LogState, op: nat, b: nat, u: LogState)
    requires Run(size, s, steps) == Next(t) && Quiet(t) && op < |t.ops| && t.ops[op].active
    requires |t.blocks| < LOGSIZE < size && |t.ops[op].logged| < MAXOPBLOCKS && b !in t.blocks
    requires u == t.(blocks := t.blocks + [b], ops := t.ops[op := Op(true, t.ops[op].logged + {b}, false)])
    ensures Run(size, s, steps + [Check(op)] + [Append(op, b)]) == Next(u) && Quiet(u)
    ensures Unused(u.ops) == Unused(t.ops) - 1 && Outstanding(u.ops) == Outstanding(t.ops)
    ensures |u.ops[op].logged| == |t.ops[op].logged| + 1
  {
    hide Run, Outstanding, Unused;
    NoneOutstanding(t.ops, op);
    assert Listed(t.ops[op], t.blocks);
    assert b !in t.ops[op].logged;
    var m := t.(ops := t.ops[op := t.ops[op].(passed := true)]);
    RunOneMore(size, s, steps, t, Check(op), m);
    assert m.ops[op := Op(true, t.ops[op].logged + {b}, false)] == u.ops;
    RunOneMore(size, s, steps + [Check(op)], m, Append(op, b), u);
    CountUpdate(t.ops, op, u.ops[op]);
    forall i | 0 <= i < |u.ops| && u.ops[i].active ensures !u.ops[i].passed && Listed(u.ops[i], u.blocks) {
      assert i != op ==> Listed(t.ops[i], t.blocks);
    }
  }

  /** If more may still be logged than there is room for, some run hurts an operation. */
  lemma {:induction false} RunHurts(size: nat, s: LogState, steps: seq<Step>, t: LogState)
    returns (more: seq<Step>, op: nat)
    requires size > LOGSIZE && Run(size, s, steps) == Next(t) && Quiet(t) && |t.blocks| <= LOGSIZE
    requires |t.blocks| + Unused(t.ops) > LOGSIZE
    ensures Run(size, s, more).Next? && Hurt(size, Run(size, s, more).s, op)
    decreases LOGSIZE - |t.blocks|
  {
    hide Run, Unused, Outstanding;
    op := SomeBudget(t.ops);
    if |t.blocks| == LOGSIZE {
      more := steps;
    } else {
      var b := FreshBlock(t.blocks);
      var u := t.(blocks := t.blocks + [b], ops := t.ops[op := Op(true, t.ops[op].logged + {b}, false)]);
      RunTwoMore(size, s, steps, t, op, b, u);
      more, op := RunHurts(size, s, steps + [Check(op)] + [Append(op, b)], u);
    }
  }

  /** One more operation is safe exactly when its budget fits behind what is logged and what the running
      operations may still log. */
  lemma SafeExactly(size: nat, s: LogState)
    requires size > LOGSIZE && Reserved(s) && Quiet(s)
    ensures Safe(size, Admitted(s)) <==> |s.blocks| + Unused(s.ops) + MAXOPBLOCKS <= LOGSIZE
  {
    hide Outstanding, Unused, Do;
    var t := Admitted(s);
    CountAppend(s.ops, Op(true, {}, false));
    if |s.blocks| + Unused(s.ops) + MAXOPBLOCKS <= LOGSIZE {
      forall steps: seq<Step>, op: nat | Run(size, t, steps).Next? ensures !Hurt(size, Run(size, t, steps).s, op) {
        RunKeepsReserved(size, t, steps);
        var u := Run(size, t, steps).s;
        if Running(u, op, false) && |u.ops[op].logged| < MAXOPBLOCKS { NotHurt(size, u, op); }
      }
    } else {
      AtMostLogsize(s);
      assert Quiet(t);
      var more, op := RunHurts(size, t, [], t);
    }
  }

  lemma NotHurt(size: nat, s: LogState, op: nat)
    requires size > LOGSIZE && Reserved(s) && Running(s, op, false) && |s.ops[op].logged| < MAXOPBLOCKS
    ensures Do(size, s, Check(op)) != Panic
  {
    hide Outstanding, Unused;
    assert |s.ops[op].logged + {0}| <= |s.ops[op].logged| + 1;
    WritePanicsExactly(size, s, op, 0);
  }

  // ---------------------------------------------------------------- runs to every count

  /** Three running operations outside log_write have logged a, b and c blocks. */
  ghost predicate Three(s: LogState, a: nat, b: nat, c: nat) {
    && Quiet(s) && |s.ops| == 3 && s.ops[0].active && s.ops[1].active && s.ops[2].active
    && |s.ops[0].logged| == a && |s.ops[1].logged| == b && |s.ops[2].logged| == c && |s.blocks| == a + b + c
  }

  lemma ThreeCounts(ops: seq<Op>)
    requires |ops| == 3
    ensures Outstanding(ops) == (if ops[0].active then 1 else 0) + (if ops[1].active then 1 else 0)
      + if ops[2].active then 1 else 0
    ensures Unused(ops) == Budget(ops[0]) + Budget(ops[1]) + Budget(ops[2])
  {
    CountAppend([], ops[0]);
    CountAppend([ops[0]], ops[1]);
    CountAppend([ops[0], ops[1]], ops[2]);
    assert [] + [ops[0]] == [ops[0]] && [ops[0]] + [ops[1]] == [ops[0], ops[1]] && [ops[0], ops[1]] + [ops[2]] == ops;
  }

  /** Operation op logs m fresh blocks. */
  lemma {:induction false} LogBy(size: nat, steps: seq<Step>, s: LogState, op: nat, m: nat)
    returns (steps': seq<Step>, t: LogState)
    requires Run(size, IDLE, steps) == Next(s) && Quiet(s) && op < |s.ops| && s.ops[op].active
    requires |s.ops[op].logged| + m <= MAXOPBLOCKS && |s.blocks| + m <= LOGSIZE < size
    ensures Run(size, IDLE, steps') == Next(t) && Quiet(t) && |t.blocks| == |s.blocks| + m
    ensures |t.ops| == |s.ops| && t.ops == s.ops[op := t.ops[op]]
    ensures t.ops[op].active && |t.ops[op].logged| == |s.ops[op].logged| + m
  {
    hide Run, Outstanding, Unused;
    steps', t := steps, s;
    if m > 0 {
      steps', t := LogBy(size, steps, s, op, m - 1);
      var b := FreshBlock(t.blocks);
      var u := t.(blocks := t.blocks + [b], ops := t.ops[op := Op(true, t.ops[op].logged + {b}, false)]);
      RunTwoMore(size, IDLE, steps', t, op, b, u);
      steps', t := steps' + [Check(op)] + [Append(op, b)], u;
    }
  }

  lemma LogThree(size: nat, a: nat, b: nat, c: nat) returns (steps: seq<Step>, s: LogState)
    requires size > LOGSIZE && a <= MAXOPBLOCKS && b <= MAXOPBLOCKS && c <= MAXOPBLOCKS
    ensures Run(size, IDLE, steps) == Next(s) && Three(s, a, b, c)
  {
    hide Run, Outstanding, Unused;
    steps, s := ThreeBegun(size);
    forall i | 0 <= i < 3 ensures s.ops[i].active && !s.ops[i].passed && s.ops[i].logged == {} {
      assert FilledOp(s.ops[i], i, 0);
    }
    steps, s := LogBy(size, steps, s, 2, c);
    steps, s := LogBy(size, steps, s, 1, b);
    steps, s := LogBy(size, steps, s, 0, a);
  }

  /** An operation that is not the last one ends. */
  lemma EndOne(size: nat, steps: seq<Step>, s: LogState, op: nat) returns (steps': seq<Step>, t: LogState)
    requires Run(size, IDLE, steps) == Next(s) && Quiet(s) && op < |s.ops| && s.ops[op].active
    requires Outstanding(s.ops) > 1
    ensures Run(size, IDLE, steps') == Next(t) && Quiet(t)
    ensures t == s.(ops := s.ops[op := Op(false, s.ops[op].logged, false)])
  {
    hide Run, Outstanding, Unused;
    t := s.(ops := s.ops[op := Op(false, s.ops[op].logged, false)]);
    CountUpdate(s.ops, op, t.ops[op]);
    RunOneMore(size, IDLE, steps, s, End(op), t);
    steps' := steps + [End(op)];
  }

  /** The first k of three operations are left running. */
  lemma KeepFirst(size: nat, a: nat, b: nat, c: nat, k: nat) returns (s: LogState)
    requires size > LOGSIZE && a <= MAXOPBLOCKS && b <= MAXOPBLOCKS && c <= MAXOPBLOCKS && 1 <= k <= 3
    ensures Reaches(size, s, a + b + c, k) && Quiet(s)
    ensures Unused(s.ops) ==
      MAXOPBLOCKS - a + (if k > 1 then MAXOPBLOCKS - b else 0) + if k > 2 then MAXOPBLOCKS - c else 0
  {
    hide Run, Outstanding, Unused;
    var steps;
    steps, s := LogThree(size, a, b, c);
    ThreeCounts(s.ops);
    if k < 3 {
      steps, s := EndOne(size, steps, s, 2);
      ThreeCounts(s.ops);
    }
    if k < 2 {
      steps, s := EndOne(size, steps, s, 1);
      ThreeCounts(s.ops);
    }
  }

  /** Ten blocks logged by one operation and one by another: begin_op lets nobody in, although a third operation
      would be safe, because what the running operations have logged is counted twice. */
  lemma CountedTwice(size: nat) returns (s: LogState)
    requires size > LOGSIZE
    ensures Reaches(size, s, 11, 2) && Do(size, s, Begin) == Blocked && Safe(size, Admitted(s))
  {
    hide Run, Outstanding, Unused, Safe;
    s := KeepFirst(size, 10, 1, 0, 2);
    var steps :| Run(size, IDLE, steps) == Next(s);
    ReservationHolds(size, steps);
    SafeExactly(size, s);
  }

  /** Wherever the sum of begin_op's test is too large, some run with these counts is not safe to add to. */
  lemma UnsafeAt(size: nat, n: nat, k: nat) returns (s: LogState)
    requires size > LOGSIZE && 1 <= k <= 3 && n <= LOGSIZE && n + (k + 1) * MAXOPBLOCKS > LOGSIZE
    ensures Reaches(size, s, n, k) && !Safe(size, Admitted(s))
  {
    hide Run, Outstanding, Unused, Safe;
    var c := Min(n, MAXOPBLOCKS);
    var b := Min(n - c, MAXOPBLOCKS);
    s := KeepFirst(size, n - c - b, b, c, k);
    var steps :| Run(size, IDLE, steps) == Next(s);
    ReservationHolds(size, steps);
    SafeExactly(size, s);
  }

  /** begin_op is told only n and k.  It admits an operation in the states with these counts exactly when all of
      them are safe to add to: a test that admits more hurts some run, one that admits less makes callers
      sleep that no run would hurt. */
  lemma BeginExactly(size: nat, n: nat, k: nat, s: LogState)
    requires size > LOGSIZE && Reaches(size, s, n, k)
    ensures Do(size, s, Begin).Next? <==> forall t :: Reaches(size, t, n, k) ==> Safe(size, Admitted(t))
  {
    hide Run, Outstanding, Unused, Safe, Hurt;
    var steps :| Run(size, IDLE, steps) == Next(s);
    ReservationHolds(size, steps);
    RunShape(size, steps);
    AtMostLogsize(s);
    if Do(size, s, Begin).Next? {
      forall t | Reaches(size, t, n, k) ensures Safe(size, Admitted(t)) { AdmittedSafe(size, n, k, t); }
    } else {
      var t := UnsafeAt(size, n, k);
    }
  }

  lemma AdmittedSafe(size: nat, n: nat, k: nat, s: LogState)
    requires size > LOGSIZE && Reaches(size, s, n, k) && n + (k + 1) * MAXOPBLOCKS <= LOGSIZE
    ensures Safe(size, Admitted(s))
  {
    hide Outstanding, Unused, Do;
    var before :| Run(size, IDLE, before) == Next(s);
    ReservationHolds(size, before);
    UnusedBound(s.ops);
    CountAppend(s.ops, Op(true, {}, false));
    var t := Admitted(s);
    assert Reserved(t);
    forall steps: seq<Step>, op: nat | Run(size, t, steps).Next? ensures !Hurt(size, Run(size, t, steps).s, op) {
      RunKeepsReserved(size, t, steps);
      var u := Run(size, t, steps).s;
      if Running(u, op, false) && |u.ops[op].logged| < MAXOPBLOCKS { NotHurt(size, u, op); }
    }
  }

  // ---------------------------------------------------------------- sleepers

  /** How many callers sleep in begin_op after a step: it puts the caller to sleep that it turns away; end_op
      wakes all unless it goes on to commit, and again after its commit. */
  function Asleep(size: nat, s: LogState, n: nat, step: Step): nat {
    match step
    case Begin => if Admits(s) then n else n + 1
    case End(op) => if Do(size, s, step).Next? && !Do(size, s, step).s.committing then 0 else n
    case CommitEnd => if s.committing then 0 else n
    case _ => n
  }

  function Sleepers(size: nat, steps: seq<Step>): nat
    decreases |steps|
  {
    if steps == [] then 0 else
    var rest := steps[..|steps| - 1];
    match Run(size, IDLE, rest)
    case Next(s) => Asleep(size, s, Sleepers(size, rest), steps[|steps| - 1])
    case _ => Sleepers(size, rest)
  }

  /** Nobody sleeps in vain: while a caller sleeps in begin_op, a commit runs or an operation does, whose end
      wakes it, and begin_op would turn it away now. */
  lemma {:induction false} SleepersTurnedAway(size: nat, steps: seq<Step>)
    ensures Run(size, IDLE, steps).Next? && Sleepers(size, steps) > 0 ==>
      var s := Run(size, IDLE, steps).s;
      Do(size, s, Begin) == Blocked && (s.committing || Outstanding(s.ops) > 0)
    decreases |steps|
  {
    hide Outstanding;
    if steps != [] {
      var rest, step := steps[..|steps| - 1], steps[|steps| - 1];
      SleepersTurnedAway(size, rest);
      if Run(size, IDLE, steps).Next? {
        RunShape(size, steps);
        StillTurnedAway(size, Run(size, IDLE, rest).s, Sleepers(size, rest), step);
      }
    }
  }

  lemma StillTurnedAway(size: nat, s: LogState, n: nat, step: Step)
    requires n > 0 ==> Do(size, s, Begin) == Blocked
    ensures Asleep(size, s, n, step) > 0 ==>
      var t := match Do(size, s, step) case Next(t) => t case _ => s;
      Do(size, t, Begin) == Blocked
  {
    hide Outstanding;
    match step
    case Begin => CountAppend(s.ops, Op(true, {}, false));
    case Check(op) => if Running(s, op, false) { CountUpdate(s.ops, op, s.ops[op].(passed := true)); }
    case Append(op, b) =>
      if Running(s, op, true) { CountUpdate(s.ops, op, Op(true, s.ops[op].logged + {b}, false)); }
    case End(op) => if Running(s, op, false) { CountUpdate(s.ops, op, Op(false, s.ops[op].logged, false)); }
    case CommitEnd =>
  }
}
