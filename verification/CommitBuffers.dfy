/** The log against the size of the buffer cache (xv6/log.c, xv6/bio.c, xv6/param.h): while lh.n blocks
    are pinned, write_log still needs a buffer for each log block. */
module CommitBuffers {
  import opened Commons
  import opened Blocks
  import opened LogRecovery
  import opened LogReservation
  import CacheSpec
  import CacheLog

  const NBUF: nat := 30

  // ---------------------------------------------------------------- a full cache

  ghost function Dirty(c: CacheSpec.Cache): (r: set<nat>)
    ensures forall b: nat :: b in r <==> b < |c.bufs| && c.bufs[b].dirty
  {
    set b: nat | b < |c.bufs| && c.bufs[b].dirty
  }

  /** Clean buffers that somebody uses. */
  ghost function Busy(c: CacheSpec.Cache): (r: set<nat>)
    ensures forall b: nat :: b in r <==> b < |c.bufs| && !c.bufs[b].dirty && c.bufs[b].refcnt > 0
  {
    set b: nat | b < |c.bufs| && !c.bufs[b].dirty && c.bufs[b].refcnt > 0
  }

  ghost predicate Uncached(c: CacheSpec.Cache, n: nat) {
    forall b :: 0 <= b < |c.bufs| ==> !(c.bufs[b].dev == CacheSpec.DISKDEV && c.bufs[b].blockno == n)
  }

  lemma FullSet(s: set<nat>, n: nat)
    requires forall x :: x in s ==> x < n
    ensures |s| <= n && (|s| == n <==> forall x: nat :: x < n ==> x in s)
  {
    var rest := Range(0, n) - s;
    assert Range(0, n) == s + rest;
    if |s| == n { assert rest == {}; }
    if forall x: nat :: x < n ==> x in s { assert rest == {}; }
  }

  /** bread of a block that is not cached panics exactly when pinned and used buffers are all there are. */
  lemma GetPanicsByCount(c: CacheSpec.Cache, n: nat)
    requires CacheSpec.Inv(c) && Uncached(c, n)
    ensures CacheSpec.Do(c, CacheSpec.Get(CacheSpec.DISKDEV, n)).None? <==> |Dirty(c)| + |Busy(c)| == |c.bufs|
  {
    hide CacheSpec.Do, CacheSpec.Inv;
    CacheSpec.BufsOk(c);
    CacheSpec.GetPanicsExactly(c, CacheSpec.DISKDEV, n);
    assert Dirty(c) * Busy(c) == {};
    FullSet(Dirty(c) + Busy(c), |c.bufs|);
    if forall x: nat :: x < |c.bufs| ==> x in Dirty(c) + Busy(c) {
      forall b | 0 <= b < |c.bufs| ensures !CacheSpec.Recyclable(c.bufs[b]) { assert b in Dirty(c) + Busy(c); }
    } else {
      var b: nat :| b < |c.bufs| && b !in Dirty(c) + Busy(c);
      assert CacheSpec.Recyclable(c.bufs[b]);
    }
  }

  // ---------------------------------------------------------------- pinned blocks and listed blocks

  ghost function BlocksOf(c: CacheSpec.Cache, s: set<nat>): set<nat>
    requires forall b :: b in s ==> b < |c.bufs|
  {
    set b | b in s :: c.bufs[b].blockno
  }

  /** Distinct dirty buffers hold distinct blocks. */
  lemma {:induction false} BlocksOfSize(c: CacheSpec.Cache, s: set<nat>)
    requires CacheSpec.Inv(c) && forall b :: b in s ==> b < |c.bufs| && c.bufs[b].valid
    ensures |BlocksOf(c, s)| == |s|
    decreases |s|
  {
    hide CacheSpec.Inv;
    if s == {} {
      assert BlocksOf(c, s) == {};
    } else {
      var x :| x in s;
      var rest := s - {x};
      BlocksOfSize(c, rest);
      forall y | y in rest ensures c.bufs[y].blockno != c.bufs[x].blockno { CacheLog.OneOther(c, x, y); }
      assert BlocksOf(c, s) == BlocksOf(c, rest) + {c.bufs[x].blockno};
    }
  }

  /** As many buffers are dirty as blocks are listed, when these are the pinned ones. */
  lemma DirtyCount(c: CacheSpec.Cache, blocks: seq<nat>)
    requires CacheSpec.Inv(c) && Distinct(blocks) && forall n :: n in blocks <==> n in CacheLog.Pinned(c)
    ensures |Dirty(c)| == |blocks|
  {
    hide CacheSpec.Inv, CacheLog.Pinned;
    CacheSpec.BufsOk(c);
    forall b | b in Dirty(c) ensures c.bufs[b].valid && c.bufs[b].blockno in blocks {
      assert CacheSpec.BufOk(c.bufs[b], c.disk);
      CacheLog.PinnedIs(c, b);
    }
    forall n | n in blocks ensures n in BlocksOf(c, Dirty(c)) {
      var b := PinHolder(c, n);
      assert b in Dirty(c);
    }
    BlocksOfSize(c, Dirty(c));
    ListLength(blocks, BlocksOf(c, Dirty(c)));
  }

  lemma PinHolder(c: CacheSpec.Cache, n: nat) returns (b: nat)
    requires n in CacheLog.Pinned(c)
    ensures b < |c.bufs| && c.bufs[b].dirty && c.bufs[b].blockno == n
  {
    b :| 0 <= b < |c.bufs| && CacheLog.Pins(c.bufs[b], n);
  }

  /** write_log's bread of a log block, while the listed blocks are the pinned ones: it panics exactly
      when these and the buffers that others use fill the cache; when nobody uses a buffer, exactly when
      NBUF blocks are listed. */
  lemma CommitPanicsExactly(c: CacheSpec.Cache, blocks: seq<nat>, n: nat)
    requires CacheSpec.Inv(c) && |c.bufs| == NBUF && Uncached(c, n)
    requires Distinct(blocks) && forall b :: b in blocks <==> b in CacheLog.Pinned(c)
    ensures CacheSpec.Do(c, CacheSpec.Get(CacheSpec.DISKDEV, n)).None? <==> |blocks| + |Busy(c)| == NBUF
    ensures (forall b :: 0 <= b < NBUF ==> c.bufs[b].refcnt == 0) ==> |Busy(c)| == 0
  {
    hide CacheSpec.Do, CacheSpec.Inv, CacheLog.Pinned;
    CacheSpec.BufsOk(c);
    DirtyCount(c, blocks);
    GetPanicsByCount(c, n);
    if forall b :: 0 <= b < NBUF ==> c.bufs[b].refcnt == 0 { assert Busy(c) == {}; }
  }

  // ---------------------------------------------------------------- how many blocks can be listed

  /** Operations past the tests of log_write. */
  function Inside(ops: seq<Op>): nat {
    if ops == [] then 0 else Inside(ops[..|ops| - 1]) + One(ops[|ops| - 1])
  }

  function One(op: Op): nat { if op.active && op.passed then 1 else 0 }

  lemma {:induction false} InsideUpdate(ops: seq<Op>, i: nat, op: Op)
    requires i < |ops|
    ensures Inside(ops[i := op]) == Inside(ops) - One(ops[i]) + One(op)
  {
    var last := |ops| - 1;
    if i == last {
      assert ops[i := op][..last] == ops[..last];
    } else {
      assert ops[i := op][..last] == ops[..last][i := op];
      InsideUpdate(ops[..last], i, op);
    }
  }

  lemma InsideAppend(ops: seq<Op>, op: Op)
    ensures Inside(ops + [op]) == Inside(ops) + One(op)
  {
    assert (ops + [op])[..|ops|] == ops;
  }

  lemma {:induction false} InsideBound(ops: seq<Op>)
    ensures Inside(ops) <= Outstanding(ops)
  {
    if ops != [] { InsideBound(ops[..|ops| - 1]); }
  }

  /** At most three operations run, and those past the tests fit one block beyond the region. */
  ghost predicate Bounded(size: nat, s: LogState) {
    Outstanding(s.ops) <= 3 && |s.blocks| + Inside(s.ops) <= size + 1
  }

  lemma StepKeepsBounded(size: nat, s: LogState, step: Step)
    requires Bounded(size, s) && Reserved(s) && size > 0
    ensures Do(size, s, step).Next? ==> Bounded(size, Do(size, s, step).s)
  {
    hide Reserved, Outstanding, Inside;
    if Do(size, s, step).Next? {
      var t := Do(size, s, step).s;
      InsideBound(t.ops);
      match step
      case Begin =>
        CountAppend(s.ops, Op(true, {}, false));
        InsideAppend(s.ops, Op(true, {}, false));
      case CommitEnd =>
        CommitIsAlone(s);
      case _ =>
        CountUpdate(s.ops, step.op, t.ops[step.op]);
        InsideUpdate(s.ops, step.op, t.ops[step.op]);
    }
  }

  lemma CommitIsAlone(s: LogState)
    requires Reserved(s) && s.committing
    ensures Outstanding(s.ops) == 0
  {
  }

  lemma {:induction false} RunBounded(size: nat, steps: seq<Step>)
    requires size > 0 && Run(size, IDLE, steps).Next?
    ensures Bounded(size, Run(size, IDLE, steps).s)
    decreases |steps|
  {
    if steps != [] {
      RunBounded(size, steps[..|steps| - 1]);
      ReservationHolds(size, steps[..|steps| - 1]);
      StepKeepsBounded(size, Run(size, IDLE, steps[..|steps| - 1]).s, steps[|steps| - 1]);
    }
  }

  lemma Passes(size: nat, s: LogState, op: nat) returns (t: LogState)
    requires Running(s, op, false) && !LogFull(size, |s.blocks|)
    ensures Do(size, s, Check(op)) == Next(t) && t == s.(ops := s.ops[op := s.ops[op].(passed := true)])
  {
    NoneOutstanding(s.ops, op);
    t := s.(ops := s.ops[op := s.ops[op].(passed := true)]);
  }

  lemma Appends(size: nat, s: LogState, op: nat, b: nat) returns (t: LogState)
    requires Running(s, op, true) && |s.ops[op].logged| < MAXOPBLOCKS && b !in s.blocks
    ensures Do(size, s, Append(op, b)) == Next(t) && t.blocks == s.blocks + [b] && !t.ops[op].passed
    ensures |t.ops| == |s.ops| && forall i :: 0 <= i < |s.ops| && i != op ==> t.ops[i] == s.ops[i]
  {
    t := s.(blocks := s.blocks + [b], ops := s.ops[op := Op(true, s.ops[op].logged + {b}, false)]);
  }

  /** Three operations pass the tests on the last slot but one: the list ends up with one block more
      than the region has. */
  lemma ThreeRace(size: nat) returns (steps: seq<Step>, s: LogState)
    requires 2 <= size < LOGSIZE
    ensures Run(size, IDLE, steps) == Next(s) && |s.blocks| == size + 1
  {
    hide Run, Do, Outstanding;
    var k := size - 2;
    var steps0, s0 := Fill(size, k);
    assert FilledOp(s0.ops[0], 0, k) && FilledOp(s0.ops[1], 1, k) && FilledOp(s0.ops[2], 2, k);
    var s1 := Passes(size, s0, 0);
    var s2 := Passes(size, s1, 1);
    var s3 := Passes(size, s2, 2);
    var s4 := Appends(size, s3, 0, k);
    var s5 := Appends(size, s4, 1, k + 1);
    s := Appends(size, s5, 2, k + 2);
    RunOneMore(size, IDLE, steps0, s0, Check(0), s1);
    RunOneMore(size, IDLE, steps0 + [Check(0)], s1, Check(1), s2);
    var steps2 := steps0 + [Check(0)] + [Check(1)];
    RunOneMore(size, IDLE, steps2, s2, Check(2), s3);
    RunOneMore(size, IDLE, steps2 + [Check(2)], s3, Append(0, k), s4);
    var steps4 := steps2 + [Check(2)] + [Append(0, k)];
    RunOneMore(size, IDLE, steps4, s4, Append(1, k + 1), s5);
    RunOneMore(size, IDLE, steps4 + [Append(1, k + 1)], s5, Append(2, k + 2), s);
    steps := steps4 + [Append(1, k + 1)] + [Append(2, k + 2)];
  }

  /** In every run a commit leaves a buffer unpinned. */
  ghost predicate AlwaysSpare(size: nat) {
    forall steps :: Run(size, IDLE, steps).Next? ==> |Run(size, IDLE, steps).s.blocks| < NBUF
  }

  /** That is so exactly when the log region has at most LOGSIZE - 2 blocks. */
  lemma SpareExactly(size: nat)
    requires size > 0
    ensures AlwaysSpare(size) <==> size <= LOGSIZE - 2
  {
    hide Run;
    if size <= LOGSIZE - 2 {
      forall steps | Run(size, IDLE, steps).Next? ensures |Run(size, IDLE, steps).s.blocks| < NBUF {
        RunBounded(size, steps);
      }
    } else if size == LOGSIZE - 1 {
      var steps, s := ThreeRace(size);
    } else if size == LOGSIZE {
      var steps, s := RacingWrites(size);
    } else {
      var steps, s := Fill(size, LOGSIZE);
    }
  }
}
