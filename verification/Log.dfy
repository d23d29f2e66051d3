/** xv6/log.c: the in-memory log, updated in place over a disk and its buffer cache. */
module Log {
  import opened Blocks
  import opened LogRecovery
  import opened LogReservation

  /** The disk with the pending buffers laid over it. */
  ghost function Overlay(d: Disk, dirty: map<nat, Block>): (v: Disk)
    ensures |v| == |d|
    ensures forall b :: 0 <= b < |d| ==> v[b] == if b in dirty then dirty[b] else d[b]
  {
    seq(|d|, b requires 0 <= b < |d| => if b in dirty then dirty[b] else d[b])
  }

  lemma OverlayPut(d: Disk, dirty: map<nat, Block>, b: nat, data: Block)
    requires b < |d|
    ensures Overlay(d, dirty[b := data]) == Overlay(d, dirty)[b := data]
  {
  }

  lemma Regroup<T>(s: seq<T>, w: seq<T>, c: T, i: seq<T>, e: T)
    ensures (((s + w) + [c]) + i) + [e] == s + (w + [c] + i + [e])
  {
  }

  /** Writing the entry found, or the first unused one, is absorption. */
  lemma SlotAbsorbs(blocks: seq<nat>, b: nat, i: nat)
    requires i <= |blocks| && b !in blocks[..i] && (i < |blocks| ==> blocks[i] == b)
    ensures (if i == |blocks| then blocks + [b] else blocks[i := b]) == Absorb(blocks, b)
  {
    if i == |blocks| {
      assert blocks[..i] == blocks;
    }
  }

  lemma AbsorbIn(blocks: seq<nat>, b: nat)
    ensures forall x :: x in Absorb(blocks, b) <==> x == b || x in blocks
  {
  }

  /** Within the budget the array lh.block has room for the entry. */
  lemma RoomToAppend(s: LogState, op: nat, b: nat)
    requires Reserved(s) && (MayWrite(s, op, b) || |s.blocks| < LOGSIZE)
    ensures |Absorb(s.blocks, b)| <= LOGSIZE
  {
    AtMostLogsize(s);
    if MayWrite(s, op, b) {
      assert WithinBudget(s.ops[op], s.blocks);
      assert b !in s.blocks ==> |s.ops[op].logged + {b}| == |s.ops[op].logged| + 1;
    }
  }

  /** What log_write's locked part does to the reservation. */
  lemma AppendIs(size: nat, s: LogState, t: LogState, op: nat, b: nat)
    requires Reserved(s) && Running(s, op, true)
    requires t == LogState(Absorb(s.blocks, b), s.committing, s.ops[op := Op(true, s.ops[op].logged + {b}, false)])
    ensures Outstanding(t.ops) == Outstanding(s.ops)
    ensures MayWrite(s, op, b) ==> Do(size, s, Append(op, b)) == Next(t) && Reserved(t)
  {
    hide Reserved, Outstanding;
    CountUpdate(s.ops, op, t.ops[op]);
    StepKeepsReserved(size, s, Append(op, b));
  }

  class Log {
    const layout: Layout
    var disk: Disk                  // what iderw has made durable
    var dirty: map<nat, Block>      // cached blocks pinned by B_DIRTY
    var block: seq<nat>             // log.lh.block[0..log.lh.n]
    var outstanding: nat
    var committing: bool
    ghost var ops: seq<Op>          // the operations begun so far
    ghost var images: seq<Disk>     // the disk after each block write, in order

    /** The log lies on the disk, and neither lists nor pins a block of its own. */
    ghost predicate Shape()
      reads this
    {
      && layout.Fits(disk) && |block| <= LOGSIZE
      && (forall i :: 0 <= i < |block| ==> block[i] < |disk| && !layout.InLog(block[i]))
      && forall b :: b in dirty ==> b < |disk| && !layout.InLog(b)
    }

    /** The region has a slot for each listed block.  LogReservation.FitsExactly says when that is
        sure; begin_op and log_write alone do not guarantee it. */
    ghost predicate Fits()
      reads this
    {
      |block| < layout.size
    }

    lemma FitsInLargeLog()
      requires Valid() && layout.size > LOGSIZE
      ensures Fits()
    {
    }

    /** What holds whenever no commit is writing. */
    ghost predicate Valid()
      reads this
    {
      && Shape()
      && LogEmpty(layout, disk)
      && outstanding == Outstanding(ops)
      && Reserved(State())
      && forall b :: b in dirty <==> b in block
    }

    ghost function State(): LogState
      reads this
    {
      LogState(block, committing, ops)
    }

    /** What bread returns for each block. */
    ghost function View(): (v: Disk)
      reads this
      ensures |v| == |disk|
    {
      Overlay(disk, dirty)
    }

    constructor (l: Layout, d: Disk)
      requires l.Fits(d)
      ensures layout == l && disk == d && dirty == map[] && images == []
      ensures Shape() && Fits() && block == [] && outstanding == 0 && !committing && ops == []
    {
      layout, disk, dirty, images, block := l, d, map[], [], [];
      outstanding, committing, ops := 0, false, [];
    }

    method Bread(b: nat) returns (data: Block)
      requires b < |disk|
      ensures data == View()[b]
    {
      data := if b in dirty then dirty[b] else disk[b];
    }

    /** bwrite: one durable block write; iderw clears B_DIRTY. */
    method Bwrite(b: nat, data: Block)
      requires b < |disk|
      modifies this`disk, this`dirty, this`images
      ensures disk == old(disk)[b := data]
      ensures dirty == old(dirty) - {b}
      ensures images == old(images) + [disk]
    {
      disk := disk[b := data];
      dirty := dirty - {b};
      images := images + [disk];
    }

    method InstallTrans()
      requires Shape() && Fits()
      modifies this`disk, this`dirty, this`images
      ensures disk == Install(layout, old(disk), block, |block|)
      ensures forall b :: b in dirty <==> b in old(dirty) && b !in block
      ensures forall b :: b in dirty ==> dirty[b] == old(dirty)[b]
      ensures images == old(images) + InstallTrace(layout, old(disk), block, |block|)
    {
      for tail := 0 to |block|
        invariant disk == Install(layout, old(disk), block, tail)
        invariant forall b :: b in dirty <==> b in old(dirty) && b !in block[..tail]
        invariant forall b :: b in dirty ==> dirty[b] == old(dirty)[b]
        invariant images == old(images) + InstallTrace(layout, old(disk), block, tail)
      {
        assert layout.InLog(layout.start + tail + 1);
        var data := Bread(layout.start + tail + 1);
        Bwrite(block[tail], data);
        assert block[..tail + 1] == block[..tail] + [block[tail]];
      }
      assert block[..|block|] == block;
    }

    method ReadHead()
      requires Shape() && Recoverable(layout, disk)
      modifies this`block
      ensures Shape() && Fits() && block == Head(layout, disk)
    {
      assert layout.InLog(layout.start);
      var hb := Bread(layout.start);
      assert hb == disk[layout.start];
      block := [];
      for i := 0 to GetWord(hb, 0)
        invariant |block| == i && forall k :: 0 <= k < i ==> block[k] == GetWord(hb, k + 1)
      {
        block := block + [GetWord(hb, i + 1)];
      }
      assert block == Head(layout, disk);
    }

    method WriteHead()
      requires Shape() && Fits()
      modifies this`disk, this`dirty, this`images
      ensures disk == PutHead(layout, old(disk), block)
      ensures dirty == old(dirty) && images == old(images) + [disk]
    {
      assert layout.InLog(layout.start);
      var hb := Bread(layout.start);
      assert hb == disk[layout.start];
      hb := PutWord(hb, 0, |block|);
      for i := 0 to |block|
        invariant hb == PutBlocks(PutWord(disk[layout.start], 0, |block|), block, i)
      {
        hb := PutWord(hb, i + 1, block[i]);
      }
      Bwrite(layout.start, hb);
      assert dirty == old(dirty);
    }

    /** Its block writes are exactly the recovery images of the disk it started on. */
    method RecoverFromLog()
      requires Shape() && dirty == map[] && Recoverable(layout, disk)
      requires outstanding == 0 && !committing && ops == []
      modifies this
      ensures Valid() && block == [] && outstanding == 0 && ops == []
      ensures disk == Recover(layout, old(disk))
      ensures images == old(images) + RecoveryTrace(layout, old(disk))
    {
      hide GetWord, PutWord, DecodeHead, EncodeHead, PutBlocks, Install;
      ghost var d := disk;
      ReadHead();
      InstallTrans();
      RecoveryImageOk(layout, d, |block| + 1);
      block := [];
      WriteHead();
    }

    method WriteLogBlocks()
      requires Shape() && Fits()
      modifies this`disk, this`dirty, this`images
      ensures disk == WriteLog(layout, old(disk), block, old(View()), |block|)
      ensures dirty == old(dirty)
      ensures images == old(images) + WriteLogTrace(layout, old(disk), block, old(View()), |block|)
    {
      hide Overlay, EncodeHead;
      ghost var view := View();
      for tail := 0 to |block|
        invariant disk == WriteLog(layout, old(disk), block, view, tail)
        invariant dirty == old(dirty)
        invariant images == old(images) + WriteLogTrace(layout, old(disk), block, view, tail)
      {
        WriteLogAt(layout, old(disk), block, view, tail, block[tail]);
        assert !layout.InLog(block[tail]);
        var data := Bread(block[tail]);
        assert layout.InLog(layout.start + tail + 1);
        Bwrite(layout.start + tail + 1, data);
        assert dirty == old(dirty);
      }
    }

    /** commit(): its block writes are exactly the commit images, so CrashAtomicity
        applies to a crash after any of them. */
    method Commit()
      requires Valid() && committing && Fits()
      modifies this`disk, this`dirty, this`images, this`block
      ensures Valid() && block == [] && dirty == map[]
      ensures layout.SameHome(disk, Committed(old(disk), old(block), old(View())))
      ensures images == old(images) + CommitTrace(layout, old(disk), old(block), old(View()))
    {
      hide Reserved, LogEmpty, WriteLog, Install, PutHead, Committed, WriteLogTrace, InstallTrace, Overlay;
      ghost var blocks, view, s := block, View(), State();
      CommitInstalls(layout, disk, blocks, view);
      StepKeepsReserved(layout.size, s, CommitEnd);
      if |block| > 0 {
        WriteLogBlocks();
        WriteHead();
        ghost var c := disk;
        InstallTrans();
        block := [];
        WriteHead();
        Regroup(old(images), WriteLogTrace(layout, old(disk), blocks, view, |blocks|), c,
                InstallTrace(layout, c, blocks, |blocks|), disk);
      }
      assert dirty == map[];
      assert Reserved(State()) by { EmptiedStaysReserved(s); }
    }

    /** One pass of begin_op's loop under log.lock; false means the caller sleeps.  It is let in exactly when no
        commit runs and its MAXOPBLOCKS and those of all running operations fit behind the logged blocks. */
    method TryBegin() returns (granted: bool)
      requires Valid()
      modifies this`outstanding, this`ops
      ensures Valid()
      ensures granted <==> !committing && |block| + (old(outstanding) + 1) * MAXOPBLOCKS <= LOGSIZE
      ensures outstanding == old(outstanding) + if granted then 1 else 0
      ensures if granted then Do(layout.size, old(State()), Begin) == Next(State())
              else Do(layout.size, old(State()), Begin) == Blocked && State() == old(State())
    {
      hide Reserved, Outstanding;
      ghost var s := State();
      if committing {
        granted := false;
      } else if |block| + (outstanding + 1) * MAXOPBLOCKS > LOGSIZE {
        granted := false;
      } else {
        outstanding := outstanding + 1;
        ops := ops + [Op(true, {}, false)];
        granted := true;
        CountAppend(s.ops, Op(true, {}, false));
        StepKeepsReserved(layout.size, s, Begin);
      }
    }

    /** The entry of block b in the header, or the first unused one. */
    method Slot(b: nat) returns (i: nat)
      ensures i <= |block| && b !in block[..i] && (i < |block| ==> block[i] == b)
    {
      i := 0;
      while i < |block| && block[i] != b
        invariant 0 <= i <= |block| && b !in block[..i]
      {
        i := i + 1;
      }
    }

    /** The two tests at the start of log_write, made without the lock.  False is a panic. */
    method LogCheck(ghost op: nat) returns (ok: bool)
      requires Valid() && (outstanding > 0 ==> Running(State(), op, false))
      modifies this`ops
      ensures Valid()
      ensures ok <==> |block| < LOGSIZE && |block| + 1 < layout.size && outstanding > 0
      ensures if ok then Do(layout.size, old(State()), Check(op)) == Next(State())
              else Do(layout.size, old(State()), Check(op)) == Panic && State() == old(State())
    {
      hide Reserved, Outstanding, LogEmpty;
      ok := !(|block| >= LOGSIZE || |block| >= layout.size - 1) && !(outstanding < 1);
      if ok {
        ghost var s := State();
        ops := ops[op := ops[op].(passed := true)];
        CountUpdate(s.ops, op, ops[op]);
        StepKeepsReserved(layout.size, s, Check(op));
      }
    }

    /** The part of log_write under the lock: the caller has changed block b to data.  An operation
        within its budget takes the step Append; beyond it, only the list and the view are described,
        while the array has room. */
    method LogAppend(b: nat, data: Block, ghost op: nat)
      requires Valid() && b < |disk| && !layout.InLog(b) && Running(State(), op, true)
      requires MayWrite(State(), op, b) || |block| < LOGSIZE
      modifies this`block, this`dirty, this`ops
      ensures Shape() && block == Absorb(old(block), b) && View() == old(View())[b := data]
      ensures MayWrite(old(State()), op, b) ==> Valid() && Do(layout.size, old(State()), Append(op, b)) == Next(State())
    {
      hide Reserved, Outstanding, LogEmpty, Overlay, Absorb, Do, MayWrite;
      ghost var s := State();
      AbsorbIn(s.blocks, b);
      RoomToAppend(s, op, b);
      var i := Slot(b);
      block := if i == |block| then block + [b] else block[i := b];
      SlotAbsorbs(s.blocks, b, i);
      dirty := dirty[b := data];
      ops := ops[op := Op(true, ops[op].logged + {b}, false)];
      AppendIs(layout.size, s, State(), op, b);
      OverlayPut(disk, old(dirty), b, data);
    }

    /** end_op up to the release of log.lock; the caller commits when told to. */
    method EndOp(ghost op: nat) returns (doCommit: bool)
      requires Valid() && Running(State(), op, false)
      modifies this`outstanding, this`ops, this`committing
      ensures Valid() && Do(layout.size, old(State()), End(op)) == Next(State())
      ensures outstanding == old(outstanding) - 1 && doCommit == committing == (outstanding == 0)
    {
      StepKeepsReserved(layout.size, State(), End(op));
      NoneOutstanding(ops, op);
      outstanding := outstanding - 1;
      ops := ops[op := Op(false, ops[op].logged, false)];
      CountUpdate(old(ops), op, ops[op]);
      assert !committing;
      doCommit := outstanding == 0;
      if doCommit {
        committing := true;
      }
    }

    /** The last lines of end_op, after its commit. */
    method CommitDone()
      requires Valid() && committing && block == []
      modifies this`committing
      ensures Valid() && Do(layout.size, old(State()), CommitEnd) == Next(State())
    {
      committing := false;
    }

    /** end_op as a whole: the last operation out commits, for which each listed block needs a slot. */
    method FinishOp(ghost op: nat)
      requires Valid() && Running(State(), op, false) && (layout.size > LOGSIZE || Fits())
      modifies this
      ensures Valid() && !committing && outstanding == old(outstanding) - 1
      ensures outstanding > 0 ==>
        disk == old(disk) && dirty == old(dirty) && block == old(block) && images == old(images)
      ensures outstanding == 0 ==>
        && block == [] && dirty == map[]
        && layout.SameHome(disk, Committed(old(disk), old(block), old(View())))
        && images == old(images) + CommitTrace(layout, old(disk), old(block), old(View()))
    {
      hide Reserved, LogEmpty, Committed, CommitTrace, Outstanding;
      if layout.size > LOGSIZE { FitsInLargeLog(); }
      var doCommit := EndOp(op);
      if doCommit {
        Commit();
        CommitDone();
      }
    }
  }
}
