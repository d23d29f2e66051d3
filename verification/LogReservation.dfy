/** Admission control of the log (begin_op, log_write, end_op in xv6/log.c) as a
    step system: any interleaving of operations that each log at most MAXOPBLOCKS
    distinct blocks stays within the space that begin_op reserved.  log_write tests
    the size before it takes the lock, so its test and its append are two steps. */
module LogReservation {
  import opened Commons
  import opened Blocks
  import opened LogRecovery

  /** One file-system operation: still between begin_op and end_op, the distinct blocks it
      logged, and whether it is inside log_write, past the tests. */
  datatype Op = Op(active: bool, logged: set<nat>, passed: bool)

  datatype LogState = LogState(blocks: seq<nat>, committing: bool, ops: seq<Op>)

  datatype Step = Begin | Check(op: nat) | Append(op: nat, b: nat) | End(op: nat) | CommitEnd

  /** Blocked is a step its caller may not take now: sleeping in begin_op, not being at that
      point, or breaking its budget. */
  datatype Outcome = Next(s: LogState) | Blocked | Panic

  const IDLE := LogState([], false, [])

  function Outstanding(ops: seq<Op>): nat {
    if ops == [] then 0 else Outstanding(ops[..|ops| - 1]) + if ops[|ops| - 1].active then 1 else 0
  }

  /** Blocks that running operations may still log. */
  function Unused(ops: seq<Op>): int {
    if ops == [] then 0 else Unused(ops[..|ops| - 1]) + Budget(ops[|ops| - 1])
  }

  function Budget(op: Op): int {
    if op.active then MAXOPBLOCKS - |op.logged| else 0
  }

  predicate Admits(s: LogState) {
    !s.committing && |s.blocks| + (Outstanding(s.ops) + 1) * MAXOPBLOCKS <= LOGSIZE
  }

  predicate LogFull(size: nat, n: nat) {
    n >= LOGSIZE || n >= size - 1
  }

  /** Operation op runs and is not inside log_write, or is inside it past the tests. */
  predicate Running(s: LogState, op: nat, passed: bool) {
    op < |s.ops| && s.ops[op].active && s.ops[op].passed == passed
  }

  /** Logging b keeps operation op within its budget. */
  predicate MayWrite(s: LogState, op: nat, b: nat) {
    op < |s.ops| && s.ops[op].active && |s.ops[op].logged + {b}| <= MAXOPBLOCKS
  }

  function Absorb(blocks: seq<nat>, b: nat): seq<nat> {
    if b in blocks then blocks else blocks + [b]
  }

  function Do(size: nat, s: LogState, step: Step): Outcome {
    match step
    case Begin =>
      if Admits(s) then Next(s.(ops := s.ops + [Op(true, {}, false)])) else Blocked
    case Check(op) =>
      if LogFull(size, |s.blocks|) || Outstanding(s.ops) < 1 then Panic
      else if !Running(s, op, false) then Blocked
      else Next(s.(ops := s.ops[op := s.ops[op].(passed := true)]))
    case Append(op, b) =>
      if !Running(s, op, true) || !MayWrite(s, op, b) then Blocked
      else Next(s.(blocks := Absorb(s.blocks, b), ops := s.ops[op := Op(true, s.ops[op].logged + {b}, false)]))
    case End(op) =>
      if !Running(s, op, false) then Blocked
      else if s.committing then Panic
      else
        var ops := s.ops[op := Op(false, s.ops[op].logged, false)];
        Next(s.(ops := ops, committing := Outstanding(ops) == 0))
    case CommitEnd =>
      if s.committing then Next(s.(blocks := [], committing := false)) else Blocked
  }

  /** The steps taken one after another; a blocked step is retried later, so it changes nothing. */
  function Run(size: nat, s: LogState, steps: seq<Step>): Outcome
    decreases |steps|
  {
    if steps == [] then Next(s) else
    match Run(size, s, steps[..|steps| - 1])
    case Next(t) => (match Do(size, t, steps[|steps| - 1]) case Blocked => Next(t) case o => o)
    case o => o
  }

  // ---------------------------------------------------------------- invariant

  ghost predicate Reserved(s: LogState) {
    && |s.blocks| + Unused(s.ops) <= LOGSIZE
    && Distinct(s.blocks)
    && (s.committing ==> Outstanding(s.ops) == 0)
    && forall i :: 0 <= i < |s.ops| && s.ops[i].active ==> WithinBudget(s.ops[i], s.blocks)
  }

  ghost predicate WithinBudget(op: Op, blocks: seq<nat>) {
    |op.logged| <= MAXOPBLOCKS && forall b :: b in op.logged ==> b in blocks
  }

  lemma {:induction false} CountUpdate(ops: seq<Op>, i: nat, op: Op)
    requires i < |ops|
    ensures Unused(ops[i := op]) == Unused(ops) - Budget(ops[i]) + Budget(op)
    ensures Outstanding(ops[i := op]) ==
            Outstanding(ops) - (if ops[i].active then 1 else 0) + (if op.active then 1 else 0)
  {
    var last := |ops| - 1;
    if i == last {
      assert ops[i := op][..last] == ops[..last];
    } else {
      assert ops[i := op][..last] == ops[..last][i := op];
      CountUpdate(ops[..last], i, op);
    }
  }

  lemma CountAppend(ops: seq<Op>, op: Op)
    ensures Unused(ops + [op]) == Unused(ops) + Budget(op)
    ensures Outstanding(ops + [op]) == Outstanding(ops) + if op.active then 1 else 0
  {
    assert (ops + [op])[..|ops|] == ops;
  }

  lemma {:induction false} UnusedBound(ops: seq<Op>)
    ensures Unused(ops) <= Outstanding(ops) * MAXOPBLOCKS
  {
    if ops != [] {
      UnusedBound(ops[..|ops| - 1]);
    }
  }

  lemma {:induction false} NoneOutstanding(ops: seq<Op>, i: nat)
    requires i < |ops| && ops[i].active
    ensures Outstanding(ops) > 0
  {
    if i < |ops| - 1 {
      NoneOutstanding(ops[..|ops| - 1], i);
    }
  }

  lemma AppendKeepsReserved(size: nat, s: LogState, op: nat, b: nat)
    requires Reserved(s)
    ensures Do(size, s, Append(op, b)).Next? ==> Reserved(Do(size, s, Append(op, b)).s)
  {
    if Do(size, s, Append(op, b)).Next? {
      CountUpdate(s.ops, op, Op(true, s.ops[op].logged + {b}, false));
      if b !in s.blocks {
        assert b !in s.ops[op].logged;
      } else {
        SupersetNoSmaller(s.ops[op].logged, b);
      }
    }
  }

  /** Every step of the protocol keeps the reservation. */
  lemma StepKeepsReserved(size: nat, s: LogState, step: Step)
    requires Reserved(s)
    ensures Do(size, s, step).Next? ==> Reserved(Do(size, s, step).s)
  {
    match step
    case Begin =>
      if Admits(s) {
        CountAppend(s.ops, Op(true, {}, false));
        UnusedBound(s.ops);
      }
    case Check(op) =>
      if Do(size, s, step).Next? {
        CountUpdate(s.ops, op, s.ops[op].(passed := true));
      }
    case Append(op, b) =>
      AppendKeepsReserved(size, s, op, b);
    case End(op) =>
      if op < |s.ops| {
        CountUpdate(s.ops, op, Op(false, s.ops[op].logged, false));
      }
    case CommitEnd =>
      if s.committing {
        forall i | 0 <= i < |s.ops| ensures !s.ops[i].active {
          if s.ops[i].active { NoneOutstanding(s.ops, i); }
        }
      }
  }

  /** While a commit runs, emptying the list of blocks keeps the reservation. */
  lemma EmptiedStaysReserved(s: LogState)
    requires Reserved(s) && s.committing
    ensures Reserved(s.(blocks := []))
  {
    StepKeepsReserved(1, s, CommitEnd);
  }

  lemma SupersetNoSmaller(s: set<nat>, b: nat)
    ensures |s| <= |s + {b}|
  {
    if b in s { assert s + {b} == s; }
  }

  /** Over every interleaving: the log never holds more than the running operations
      left room for, no block is logged twice, and a commit starts only when no
      operation is running. */
  lemma {:induction false} ReservationHolds(size: nat, steps: seq<Step>)
    ensures Run(size, IDLE, steps).Next? ==> Reserved(Run(size, IDLE, steps).s)
    decreases |steps|
  {
    if steps != [] {
      ReservationHolds(size, steps[..|steps| - 1]);
      var before := Run(size, IDLE, steps[..|steps| - 1]);
      if before.Next? {
        StepKeepsReserved(size, before.s, steps[|steps| - 1]);
      }
    }
  }

  /** end_op never finds a commit under way. */
  lemma EndNeverPanics(size: nat, s: LogState, op: nat)
    requires Reserved(s)
    ensures Do(size, s, End(op)) != Panic
  {
    if op < |s.ops| && s.ops[op].active {
      NoneOutstanding(s.ops, op);
    }
  }

  /** The list of logged blocks is never longer than LOGSIZE, and when it is that long no
      running operation has budget left. */
  lemma AtMostLogsize(s: LogState)
    requires Reserved(s)
    ensures |s.blocks| <= LOGSIZE
    ensures |s.blocks| == LOGSIZE ==> forall i :: 0 <= i < |s.ops| && s.ops[i].active ==>
      |s.ops[i].logged| == MAXOPBLOCKS
  {
    BudgetsNonNegative(s.ops);
    if |s.blocks| == LOGSIZE {
      forall i | 0 <= i < |s.ops| && s.ops[i].active ensures |s.ops[i].logged| == MAXOPBLOCKS {
        CountUpdate(s.ops, i, Op(false, {}, false));
        OthersWithinBudget(s, i);
      }
    }
  }

  /** A running operation about to log b within its budget panics in log_write exactly when LOGSIZE
      blocks are logged or the region has no slot left.  In the first case the operation has used up
      its budget and b is logged already: the test comes before the look for absorption. */
  lemma WritePanicsExactly(size: nat, s: LogState, op: nat, b: nat)
    requires Reserved(s) && Running(s, op, false) && MayWrite(s, op, b)
    ensures Do(size, s, Check(op)) == Panic <==> |s.blocks| == LOGSIZE || |s.blocks| + 1 >= size
    ensures |s.blocks| == LOGSIZE ==> |s.ops[op].logged| == MAXOPBLOCKS && b in s.ops[op].logged && b in s.blocks
    ensures size > LOGSIZE && |s.ops[op].logged| < MAXOPBLOCKS ==> Do(size, s, Check(op)) != Panic
  {
    NoneOutstanding(s.ops, op);
    AtMostLogsize(s);
  }

  lemma OthersWithinBudget(s: LogState, op: nat)
    requires Reserved(s) && op < |s.ops|
    ensures Unused(s.ops[op := Op(false, {}, false)]) >= 0
  {
    var ops := s.ops[op := Op(false, {}, false)];
    forall i | 0 <= i < |ops| && ops[i].active ensures |ops[i].logged| <= MAXOPBLOCKS {
      assert s.ops[i].active;
    }
    BudgetsNonNegative(ops);
  }

  lemma {:induction false} BudgetsNonNegative(ops: seq<Op>)
    requires forall i :: 0 <= i < |ops| && ops[i].active ==> |ops[i].logged| <= MAXOPBLOCKS
    ensures Unused(ops) >= 0
  {
    if ops != [] {
      BudgetsNonNegative(ops[..|ops| - 1]);
    }
  }

  // ---------------------------------------------------------------- runs that fill the log

  lemma RunOneMore(size: nat, s: LogState, steps: seq<Step>, t: LogState, step: Step, u: LogState)
    requires Run(size, s, steps) == Next(t) && Do(size, t, step) == Next(u)
    ensures Run(size, s, steps + [step]) == Next(u)
  {
    assert (steps + [step])[..|steps|] == steps;
  }

  /** Three running operations outside log_write have logged the blocks below k in turn. */
  ghost predicate Filled(s: LogState, k: nat) {
    && !s.committing && |s.ops| == 3 && |s.blocks| == k && (forall b :: b in s.blocks ==> b < k)
    && forall i :: 0 <= i < 3 ==> FilledOp(s.ops[i], i, k)
  }

  ghost predicate FilledOp(op: Op, i: nat, k: nat) {
    && op.active && !op.passed && |op.logged| == (k + 2 - i) / 3
    && forall b: nat :: b in op.logged <==> b < k && b % 3 == i
  }

  lemma ThreeBegun(size: nat) returns (steps: seq<Step>, s: LogState)
    ensures Run(size, IDLE, steps) == Next(s) && Filled(s, 0)
  {
    var o := Op(true, {}, false);
    assert [o, o][..1] == [o];
    RunOneMore(size, IDLE, [], IDLE, Begin, LogState([], false, [o]));
    RunOneMore(size, IDLE, [] + [Begin], LogState([], false, [o]), Begin, LogState([], false, [o, o]));
    s := LogState([], false, [o, o, o]);
    RunOneMore(size, IDLE, [] + [Begin] + [Begin], LogState([], false, [o, o]), Begin, s);
    steps := [] + [Begin] + [Begin] + [Begin];
  }

  /** Any k up to LOGSIZE that leaves a slot free is reached. */
  lemma {:induction false} Fill(size: nat, k: nat) returns (steps: seq<Step>, s: LogState)
    requires k <= LOGSIZE && k < size
    ensures Run(size, IDLE, steps) == Next(s) && Filled(s, k)
  {
    if k == 0 {
      steps, s := ThreeBegun(size);
    } else {
      var steps0, s0 := Fill(size, k - 1);
      var op := (k - 1) % 3;
      var t := Checked(size, s0, k - 1, op);
      s := Appended(size, t, s0, k - 1);
      RunOneMore(size, IDLE, steps0, s0, Check(op), t);
      RunOneMore(size, IDLE, steps0 + [Check(op)], t, Append(op, k - 1), s);
      steps := steps0 + [Check(op)] + [Append(op, k - 1)];
    }
  }

  lemma Checked(size: nat, s: LogState, k: nat, op: nat) returns (t: LogState)
    requires Filled(s, k) && k < LOGSIZE && k + 1 < size && op < 3
    ensures t == s.(ops := s.ops[op := s.ops[op].(passed := true)]) && Do(size, s, Check(op)) == Next(t)
  {
    hide Outstanding;
    assert FilledOp(s.ops[op], op, k);
    NoneOutstanding(s.ops, op);
    t := s.(ops := s.ops[op := s.ops[op].(passed := true)]);
  }

  lemma Appended(size: nat, t: LogState, s: LogState, k: nat) returns (u: LogState)
    requires Filled(s, k) && k < LOGSIZE && t == s.(ops := s.ops[k % 3 := s.ops[k % 3].(passed := true)])
    ensures Do(size, t, Append(k % 3, k)) == Next(u) && Filled(u, k + 1)
  {
    var op := k % 3;
    assert FilledOp(s.ops[op], op, k);
    u := LogState(s.blocks + [k], false, t.ops[op := Op(true, t.ops[op].logged + {k}, false)]);
    forall i | 0 <= i < 3 ensures FilledOp(u.ops[i], i, k + 1) {
      assert FilledOp(s.ops[i], i, k);
    }
  }

  /** With the log region that mkfs lays out (size == LOGSIZE), an operation with budget left
      reaches a panic in log_write. */
  lemma MkfsLogPanics() returns (steps: seq<Step>, s: LogState)
    ensures Run(LOGSIZE, IDLE, steps) == Next(s)
    ensures Running(s, 2, false) && MayWrite(s, 2, 29) && |s.ops[2].logged| < MAXOPBLOCKS
    ensures Do(LOGSIZE, s, Check(2)) == Panic
  {
    steps, s := Fill(LOGSIZE, LOGSIZE - 1);
    assert FilledOp(s.ops[2], 2, 29);
  }

  /** With a header block and LOGSIZE more, or any larger log, an operation that logs one of its ten
      blocks once again can panic: the write would be absorbed, but the size is tested first. */
  lemma AbsorbingWritePanics(size: nat) returns (steps: seq<Step>, s: LogState)
    requires size > LOGSIZE
    ensures Run(size, IDLE, steps) == Next(s)
    ensures Running(s, 0, false) && MayWrite(s, 0, 0) && 0 in s.blocks && |s.ops[0].logged| == MAXOPBLOCKS
    ensures Do(size, s, Check(0)) == Panic
  {
    steps, s := Fill(size, LOGSIZE);
    assert FilledOp(s.ops[0], 0, 30);
    assert s.ops[0].logged + {0} == s.ops[0].logged;
    ReservationHolds(size, steps);
    assert WithinBudget(s.ops[0], s.blocks);
  }

  // ---------------------------------------------------------------- two operations past the test

  /** Two operations pass the test on the last free slot but one and both append: the list then
      has as many blocks as the region, header included. */
  lemma RacingWrites(size: nat) returns (steps: seq<Step>, s: LogState)
    requires 2 <= size <= LOGSIZE
    ensures Run(size, IDLE, steps) == Next(s) && |s.blocks| == size
  {
    hide Run, Do, Filled;
    var k := size - 2;
    var steps0, s0 := Fill(size, k);
    var a, b := k % 3, (k + 1) % 3;
    var s1 := Checked(size, s0, k, a);
    var s2, s3 := SecondPasses(size, s0, s1, k);
    s := SecondAppends(size, s0, s3, k);
    RunOneMore(size, IDLE, steps0, s0, Check(a), s1);
    RunOneMore(size, IDLE, steps0 + [Check(a)], s1, Check(b), s2);
    RunOneMore(size, IDLE, steps0 + [Check(a)] + [Check(b)], s2, Append(a, k), s3);
    RunOneMore(size, IDLE, steps0 + [Check(a)] + [Check(b)] + [Append(a, k)], s3, Append(b, k + 1), s);
    steps := steps0 + [Check(a)] + [Check(b)] + [Append(a, k)] + [Append(b, k + 1)];
  }

  /** After the first has passed: the second passes, too, and the first appends. */
  lemma SecondPasses(size: nat, s0: LogState, s1: LogState, k: nat) returns (s2: LogState, s3: LogState)
    requires Filled(s0, k) && k + 2 == size <= LOGSIZE
    requires s1 == s0.(ops := s0.ops[k % 3 := s0.ops[k % 3].(passed := true)])
    ensures Do(size, s1, Check((k + 1) % 3)) == Next(s2) && Do(size, s2, Append(k % 3, k)) == Next(s3)
    ensures |s3.ops| == 3 && |s3.blocks| == k + 1 && !s3.committing && (forall b :: b in s3.blocks ==> b <= k)
    ensures s3.ops[(k + 1) % 3] == s0.ops[(k + 1) % 3].(passed := true)
  {
    var a, b := k % 3, (k + 1) % 3;
    assert FilledOp(s0.ops[a], a, k) && FilledOp(s0.ops[b], b, k);
    NoneOutstanding(s1.ops, a);
    s2 := s1.(ops := s1.ops[b := s1.ops[b].(passed := true)]);
    s3 := LogState(s2.blocks + [k], false, s2.ops[a := Op(true, s2.ops[a].logged + {k}, false)]);
  }

  lemma SecondAppends(size: nat, s0: LogState, s3: LogState, k: nat) returns (s: LogState)
    requires Filled(s0, k) && k + 2 <= LOGSIZE && |s3.ops| == 3 && |s3.blocks| == k + 1
      && (forall b :: b in s3.blocks ==> b <= k)
    requires s3.ops[(k + 1) % 3] == s0.ops[(k + 1) % 3].(passed := true)
    ensures Do(size, s3, Append((k + 1) % 3, k + 1)) == Next(s) && |s.blocks| == k + 2
  {
    var b := (k + 1) % 3;
    assert FilledOp(s0.ops[b], b, k);
    s := s3.(blocks := s3.blocks + [k + 1], ops := s3.ops[b := Op(true, s3.ops[b].logged + {k + 1}, false)]);
  }

  /** The blocks to be committed have a slot each in every run. */
  ghost predicate AlwaysFits(size: nat) {
    forall steps :: Run(size, IDLE, steps).Next? ==> |Run(size, IDLE, steps).s.blocks| < size
  }

  /** That is so exactly when the region has a header block and LOGSIZE more, or is too small for
      any block at all. */
  lemma FitsExactly(size: nat)
    requires size > 0
    ensures AlwaysFits(size) <==> size > LOGSIZE || size == 1
  {
    if 1 < size <= LOGSIZE {
      var steps, s := RacingWrites(size);
    } else {
      forall steps | Run(size, IDLE, steps).Next? ensures |Run(size, IDLE, steps).s.blocks| < size {
        ReservationHolds(size, steps);
        AtMostLogsize(Run(size, IDLE, steps).s);
        if size == 1 {
          NothingLogged(steps);
        }
      }
    }
  }

  /** In a region of one block every log_write panics. */
  lemma {:induction false} NothingLogged(steps: seq<Step>)
    requires Run(1, IDLE, steps).Next?
    ensures var s := Run(1, IDLE, steps).s; s.blocks == [] && forall i :: 0 <= i < |s.ops| ==> !s.ops[i].passed
    decreases |steps|
  {
    if steps != [] {
      NothingLogged(steps[..|steps| - 1]);
    }
  }

  /** write_log stays inside the region exactly when the list leaves a block for the header. */
  lemma SlotsInRegion(l: Layout, n: nat)
    requires n > 0
    ensures (forall b :: l.start < b <= l.start + n ==> l.InLog(b)) <==> n < l.size
  {
    if n >= l.size {
      assert !l.InLog(l.start + n);
    }
  }
}
