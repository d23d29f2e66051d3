/** How many blocks each of several concurrent writei calls logs (xv6/fs.c, xv6/file.c): the bound that
    begin_op reserves holds for every interleaving. */
module InterleavedLog {
  import opened Commons
  import opened Blocks
  import opened FsLayout
  import opened FsState
  import opened FsAlloc
  import opened FsFile
  import opened FsWrite
  import opened CrashSafety
  import opened Interleaved

  /** The slots of the file blocks that the call writes, and the indirect slot. */
  ghost function CallSlots(op: Op): (r: set<nat>)
    ensures forall t: nat :: t in r <==> t == IND || exists n: nat :: Covers(op, n) && t == FileSlot(n)
  {
    (set n: nat | n < op.off + |op.src| && Covers(op, n) :: FileSlot(n)) + {IND}
  }

  /** File block n holds some of the bytes to write. */
  predicate Covers(op: Op, n: nat) {
    op.src != [] && op.off / BSIZE <= n && n * BSIZE < op.off + |op.src|
  }

  /** The block in slot t, or on its way there. */
  function BlockIn(fs: Fs, op: Op, t: nat): nat
    requires Wf(fs) && op.i < fs.sb.ninodes && t < SLOTS
  {
    if op.stage.Zeroed? && op.stage.t == t then op.stage.b else Slot(fs, op.i, t)
  }

  /** The blocks in those slots. */
  ghost function Reach(fs: Fs, op: Op): set<nat>
    requires Wf(fs) && op.i < fs.sb.ninodes
  {
    set t: nat | t in CallSlots(op) && t < SLOTS && BlockIn(fs, op, t) != 0 :: BlockIn(fs, op, t)
  }

  /** The slots that the call has filled or is about to fill. */
  ghost function NewSlots(fs0: Fs, fs: Fs, op: Op): (r: set<nat>)
    requires Wf(fs0) && Wf(fs) && fs.sb == fs0.sb && op.i < fs.sb.ninodes
    ensures forall t: nat :: t in r <==>
      t < SLOTS && Slot(fs0, op.i, t) == 0 && (Slot(fs, op.i, t) != 0 || (!op.stage.Idle? && op.stage.t == t))
  {
    set t: nat |
      t < SLOTS && Slot(fs0, op.i, t) == 0 && (Slot(fs, op.i, t) != 0 || (!op.stage.Idle? && op.stage.t == t))
  }

  /** What the call has logged: bitmap blocks, one per slot at most, blocks of its file, the inode block. */
  ghost predicate LogOk(fs0: Fs, fs: Fs, op: Op, bits: set<nat>)
    requires Wf(fs0) && Wf(fs) && fs.sb == fs0.sb && op.i < fs.sb.ninodes
  {
    op.logged <= bits + Reach(fs, op) + {fs.sb.IBlock(op.i)} && |bits| <= |NewSlots(fs0, fs, op)|
  }

  // ---------------------------------------------------------------- one step

  /** Slots stay filled, so what was reached stays reached. */
  lemma ReachGrows(fs: Fs, op: Op, gs: Fs, op': Op)
    requires Wf(fs) && Wf(gs) && gs.sb == fs.sb && op.i < fs.sb.ninodes
    requires op'.i == op.i && op'.off == op.off && op'.src == op.src
    requires forall t: nat :: t < SLOTS && BlockIn(fs, op, t) != 0 ==> BlockIn(gs, op', t) == BlockIn(fs, op, t)
    ensures Reach(fs, op) <= Reach(gs, op')
  {
    hide Slot, BlockIn;
    assert CallSlots(op') == CallSlots(op) by {
      forall t: nat ensures t in CallSlots(op') <==> t in CallSlots(op) { SameSlotsOf(op, op', t); }
    }
  }

  lemma SameSlotsOf(op: Op, op': Op, t: nat)
    requires op'.i == op.i && op'.off == op.off && op'.src == op.src
    ensures t in CallSlots(op') <==> t in CallSlots(op)
  {
    forall n: nat ensures Covers(op', n) <==> Covers(op, n) {}
  }

  lemma Reached(fs: Fs, op: Op, t: nat)
    requires Wf(fs) && op.i < fs.sb.ninodes && t in CallSlots(op) && t < SLOTS && BlockIn(fs, op, t) != 0
    ensures BlockIn(fs, op, t) in Reach(fs, op)
  {
  }

  /** The slot that bmap looks at is one of the call's. */
  lemma NextInCall(fs: Fs, op: Op)
    requires Wf(fs) && op.i < fs.sb.ninodes && Writes(op)
    ensures NextSlot(fs, op) in CallSlots(op) && FileSlot(At(op)) in CallSlots(op)
  {
    hide Slot;
    AtCovered(op);
  }

  lemma AtCovered(op: Op)
    requires op.done < |op.src|
    ensures Covers(op, At(op))
  {
    var x := op.off + op.done;
    assert x / 512 * 512 <= x;
    assert op.off / 512 <= x / 512;
  }

  /** A missing slot that the call asks for was missing from the start. */
  lemma NextWasMissing(fs0: Fs, fs: Fs, op: Op)
    requires Wf(fs0) && Wf(fs) && fs.sb == fs0.sb && Begun(fs0, op) && op.i in fs.mem
      && Interleaved.Running(fs0, fs, op)
    requires Writes(op) && Slot(fs, op.i, NextSlot(fs, op)) == 0
    ensures Slot(fs0, op.i, NextSlot(fs, op)) == 0
  {
    hide Slot, DInode, FileBytes, Splice, Solid;
    NextIsExtra(fs0, fs, op);
    var len := fs0.mem[op.i].size;
    CeilMax(len, op.off + op.done);
    assert Slot(fs0, op.i, FileSlot(At(op))) == 0;
  }

  lemma MarkLogs(fs0: Fs, fs: Fs, gs: Fs, op: Op, b: nat, bits: set<nat>)
    requires Wf(fs0) && Wf(fs) && Wf(gs) && fs0.sb == fs.sb == gs.sb && OpOk(fs0, fs, op) && LogOk(fs0, fs, op, bits)
    requires Writes(op) && op.stage.Idle? && Slot(fs, op.i, NextSlot(fs, op)) == 0
    requires forall t: nat :: t < SLOTS ==> Slot(gs, op.i, t) == Slot(fs, op.i, t)
    ensures LogOk(fs0, gs, MarkedOp(fs, op, b), bits + {fs.sb.BBlock(b)})
  {
    hide Slot, Reach, Interleaved.Running;
    var op', t := MarkedOp(fs, op, b), NextSlot(fs, op);
    OpInode(fs0, fs, op);
    NextWasMissing(fs0, fs, op);
    ReachGrows(fs, op, gs, op');
    assert NewSlots(fs0, gs, op') == NewSlots(fs0, fs, op) + {t};
  }

  lemma ZeroLogs(fs0: Fs, fs: Fs, gs: Fs, op: Op, bits: set<nat>)
    requires Wf(fs0) && Wf(fs) && Wf(gs) && fs0.sb == fs.sb == gs.sb && OpOk(fs0, fs, op) && LogOk(fs0, fs, op, bits)
    requires op.stage.Marked? && op.stage.b > 0
    requires forall t: nat :: t < SLOTS ==> Slot(gs, op.i, t) == Slot(fs, op.i, t)
    ensures LogOk(fs0, gs, ZeroedOp(op), bits)
  {
    hide Slot, Reach, Interleaved.Running, NextSlot;
    var op' := ZeroedOp(op);
    OpInode(fs0, fs, op);
    ReachGrows(fs, op, gs, op');
    NextInCall(fs, op);
    SameSlotsOf(op, op', op.stage.t);
    Reached(gs, op', op.stage.t);
    assert NewSlots(fs0, gs, op') == NewSlots(fs0, fs, op);
  }

  lemma LinkLogs(fs0: Fs, fs: Fs, gs: Fs, op: Op, bits: set<nat>)
    requires Wf(fs0) && Wf(fs) && Wf(gs) && fs0.sb == fs.sb == gs.sb && OpOk(fs0, fs, op) && LogOk(fs0, fs, op, bits)
    requires op.stage.Zeroed? && op.i in fs.mem && op.i in gs.mem && op.stage.t < SLOTS
    requires Slot(gs, op.i, op.stage.t) == op.stage.b != 0
    requires forall t: nat :: t < SLOTS && t != op.stage.t ==> Slot(gs, op.i, t) == Slot(fs, op.i, t)
    ensures LogOk(fs0, gs, LinkedOp(fs, op), bits)
  {
    hide Slot, Reach, Interleaved.Running, NextSlot;
    var op' := LinkedOp(fs, op);
    OpInode(fs0, fs, op);
    ReachGrows(fs, op, gs, op');
    IndIsSlot(fs, op.i);
    if op.stage.t > IND {
      assert Slot(fs, op.i, IND) != 0;
      Reached(gs, op', IND);
    }
    assert NewSlots(fs0, gs, op') == NewSlots(fs0, fs, op);
  }

  lemma PutLogs(fs0: Fs, fs: Fs, gs: Fs, op: Op, bits: set<nat>)
    requires Wf(fs0) && Wf(fs) && Wf(gs) && fs0.sb == fs.sb == gs.sb && op.i < fs.sb.ninodes && LogOk(fs0, fs, op, bits)
    requires op.stage.Idle? && Writes(op) && Slot(fs, op.i, FileSlot(At(op))) != 0
    requires forall t: nat :: t < SLOTS ==> Slot(gs, op.i, t) == Slot(fs, op.i, t)
    ensures LogOk(fs0, gs, WroteOp(fs, op), bits)
  {
    hide Slot, Reach, NextSlot, At;
    var op' := WroteOp(fs, op);
    ReachGrows(fs, op, gs, op');
    NextInCall(fs, op);
    SameSlotsOf(op, op', FileSlot(At(op)));
    Reached(gs, op', FileSlot(At(op)));
    assert NewSlots(fs0, gs, op') == NewSlots(fs0, fs, op);
  }

  /** A step that leaves the call's slots alone and adds at most the inode block to what it logged. */
  lemma QuietLogs(fs0: Fs, fs: Fs, gs: Fs, op: Op, op': Op, bits: set<nat>)
    requires Wf(fs0) && Wf(fs) && Wf(gs) && fs0.sb == fs.sb == gs.sb && op.i < fs.sb.ninodes && LogOk(fs0, fs, op, bits)
    requires op'.i == op.i && op'.off == op.off && op'.src == op.src && op'.stage == op.stage
    requires op'.logged <= op.logged + {fs.sb.IBlock(op.i)}
    requires forall t: nat :: t < SLOTS ==> Slot(gs, op.i, t) == Slot(fs, op.i, t)
    ensures LogOk(fs0, gs, op', bits)
  {
    hide Slot, Reach;
    ReachGrows(fs, op, gs, op');
    assert NewSlots(fs0, gs, op') == NewSlots(fs0, fs, op);
  }

  /** The step of the call itself. */
  lemma OwnStepLogs(fs0: Fs, g: State, owner: Owner, step: Step, g': State, bits: set<nat>) returns (bits': set<nat>)
    requires Wf(fs0) && Wf(g.fs) && Wf(g'.fs) && fs0.sb == g.fs.sb == g'.fs.sb && step.k < |g.ops| == |g'.ops|
    requires g.ops[step.k].i < g.fs.sb.ninodes && LogOk(fs0, g.fs, g.ops[step.k], bits)
    requires Inv(fs0, g, owner) && Next(g, step, g')
    ensures g'.ops[step.k].i < g'.fs.sb.ninodes && LogOk(fs0, g'.fs, g'.ops[step.k], bits')
  {
    hide Slot, SlotsOwned, OpOk, OnlyLogged, OthersKept, Used, BitsOk, LogOk, SetBit, ZeroOut, SetSlot, PutFs, Extend;
    hide NextSlot, At, FileByte, DInode;
    var op := g.ops[step.k];
    OpInode(fs0, g.fs, op);
    PendingInData(g.fs, owner, g.ops);
    bits' := bits;
    match step
    case Mark(k, b) =>
      SetBitKeeps(g.fs, owner, b);
      assert SameFile(g.fs, g'.fs, op.i);
      MarkLogs(fs0, g.fs, g'.fs, op, b, bits);
      bits' := bits + {g.fs.sb.BBlock(b)};
    case Zero(k) =>
      ZeroOutKeeps(g.fs, owner, op.stage.b);
      assert SameFile(g.fs, g'.fs, op.i);
      ZeroLogs(fs0, g.fs, g'.fs, op, bits);
    case Link(k) =>
      LinkSlots(g.fs, owner, op);
      LinkLogs(fs0, g.fs, g'.fs, op, bits);
    case Put(k) =>
      PutSlots(g.fs, owner, op);
      PutLogs(fs0, g.fs, g'.fs, op, bits);
    case Finish(k) =>
      ExtendKeeps(g.fs, owner, op.i, op.off + |op.src|);
      QuietLogs(fs0, g.fs, g'.fs, op, g'.ops[k], bits);
  }

  lemma LinkSlots(fs: Fs, owner: Owner, op: Op)
    requires Wf(fs) && SlotsOwned(fs, owner) && op.i in fs.mem && op.stage.Zeroed? && StageOk(fs, op)
    requires fs.sb.datastart <= op.stage.b && op.stage.b !in owner
    ensures op.stage.t < SLOTS && (op.stage.t > IND ==> fs.mem[op.i].addrs[IND] < fs.sb.size) && op.stage.b != 0
    ensures var gs := SetSlot(fs, op.i, op.stage.t, op.stage.b);
      && Wf(gs) && gs.sb == fs.sb && op.i in gs.mem && Slot(gs, op.i, op.stage.t) == op.stage.b
      && forall t: nat :: t < SLOTS && t != op.stage.t ==> Slot(gs, op.i, t) == Slot(fs, op.i, t)
  {
    hide Slot, SlotsOwned, SetSlot;
    SetSlotKeeps(fs, owner, op.i, op.stage.t, op.stage.b);
    SetSlotShape(fs, op.i, op.stage.t, op.stage.b);
    Regions(fs.sb, op.i, 0);
  }

  lemma PutSlots(fs: Fs, owner: Owner, op: Op)
    requires Wf(fs) && SlotsOwned(fs, owner) && op.i in fs.mem && Writes(op)
    requires 0 < Slot(fs, op.i, FileSlot(At(op))) < fs.sb.size
    ensures var gs := PutFs(fs, op);
      Wf(gs) && gs.sb == fs.sb && forall t: nat :: t < SLOTS ==> Slot(gs, op.i, t) == Slot(fs, op.i, t)
  {
    hide Slot, SlotsOwned, FileByte, At, Within, Chunk, SameFile, Used, OnlyLogged;
    PutKeeps(fs, owner, op.i, At(op), Within(op), Chunk(op));
  }

  // ---------------------------------------------------------------- the bound

  lemma RangeSlots(op: Op)
    ensures |CallSlots(op)| <= Chunks(op.off, |op.src|) + 1
  {
    var lo, n := op.off / BSIZE, Chunks(op.off, |op.src|);
    var r := Range(lo, n);
    forall t | t in CallSlots(op) && t != IND ensures t in Images(r) {
      var m: nat :| Covers(op, m) && t == FileSlot(m);
      CoversIn(op, m);
    }
    ImagesSize(r);
    SubsetSize(CallSlots(op), Images(r) + {IND});
    UnionSize(Images(r), {IND});
  }

  lemma CoversIn(op: Op, m: nat)
    requires Covers(op, m)
    ensures m in Range(op.off / BSIZE, Chunks(op.off, |op.src|))
  {
    assert m <= (op.off + |op.src| - 1) / 512;
  }

  ghost function Images(r: set<nat>): set<nat> {
    set n | n in r :: FileSlot(n)
  }

  lemma {:induction false} ImagesSize(r: set<nat>)
    ensures |Images(r)| <= |r|
    decreases |r|
  {
    if r == {} {
      assert Images(r) == {};
    } else {
      var x :| x in r;
      ImagesSize(r - {x});
      assert Images(r) == Images(r - {x}) + {FileSlot(x)};
      UnionSize(Images(r - {x}), {FileSlot(x)});
    }
  }

  ghost function BlocksIn(fs: Fs, op: Op, ts: set<nat>): set<nat>
    requires Wf(fs) && op.i < fs.sb.ninodes
  {
    set t | t in ts && t < SLOTS && BlockIn(fs, op, t) != 0 :: BlockIn(fs, op, t)
  }

  lemma {:induction false} BlocksInSize(fs: Fs, op: Op, ts: set<nat>)
    requires Wf(fs) && op.i < fs.sb.ninodes
    ensures |BlocksIn(fs, op, ts)| <= |ts|
    decreases |ts|
  {
    hide Slot, BlockIn;
    if ts == {} {
      assert BlocksIn(fs, op, ts) == {};
    } else {
      var x :| x in ts;
      var rest := BlocksIn(fs, op, ts - {x});
      BlocksInSize(fs, op, ts - {x});
      var one := if x < SLOTS && BlockIn(fs, op, x) != 0 then {BlockIn(fs, op, x)} else {};
      assert BlocksIn(fs, op, ts) == rest + one;
      UnionSize(rest, one);
    }
  }

  /** A call fills at most the slots that its file grows by. */
  lemma NewSlotsBound(fs0: Fs, fs: Fs, op: Op)
    requires Wf(fs0) && Wf(fs) && fs.sb == fs0.sb && OpOk(fs0, fs, op)
    ensures var len := fs0.mem[op.i].size;
      && Ceil(len) <= Ceil(Max(len, op.off + |op.src|))
      && |NewSlots(fs0, fs, op)| <= NewBlocks(Ceil(len), Ceil(Max(len, op.off + |op.src|)))
  {
    hide Slot, DInode, FileByte, Splice, Ceil, Images, Running, Finished, NewSlots;
    var len := fs0.mem[op.i].size;
    var k, k' := Ceil(len), Ceil(Max(len, op.off + |op.src|));
    CeilMax(len, op.off + |op.src|);
    var r := Range(k, k' - k);
    var ind: set<nat> := if k <= NDIRECT < k' then {IND} else {};
    forall t | t in NewSlots(fs0, fs, op) ensures t in Images(r) + ind { NewSlotIn(fs0, fs, op, t); }
    ImagesSize(r);
    SubsetSize(NewSlots(fs0, fs, op), Images(r) + ind);
    UnionSize(Images(r), ind);
  }

  /** The file block of a slot. */
  function BlockNo(t: nat): nat { if t < IND then t else t - 1 }

  lemma NewSlotIn(fs0: Fs, fs: Fs, op: Op, t: nat)
    requires Wf(fs0) && Wf(fs) && fs.sb == fs0.sb && OpOk(fs0, fs, op) && t in NewSlots(fs0, fs, op)
    ensures var len := fs0.mem[op.i].size;
      var k, k' := Ceil(len), Ceil(Max(len, op.off + |op.src|));
      && k <= k' && (t == IND ==> k <= NDIRECT < k')
      && (t != IND ==> k <= BlockNo(t) < k' && t in Images(Range(k, k' - k)))
  {
    hide Slot, DInode, FileByte, Splice, Ceil, NewSlots;
    var len := fs0.mem[op.i].size;
    CeilMax(len, op.off + |op.src|);
    var n := PresentBlocks(fs0, fs, op);
    NewSlotIs(fs0, fs, op, t);
    if t != IND {
      assert FileSlot(BlockNo(t)) == t;
      assert Slot(fs0, op.i, FileSlot(BlockNo(t))) == 0;
      assert BlockNo(t) >= n ==> Slot(fs, op.i, FileSlot(BlockNo(t))) == 0 || BlockNo(t) == n;
    }
  }

  lemma NewSlotIs(fs0: Fs, fs: Fs, op: Op, t: nat)
    requires Wf(fs0) && Wf(fs) && fs.sb == fs0.sb && op.i < fs.sb.ninodes && t in NewSlots(fs0, fs, op)
    ensures t < SLOTS && Slot(fs0, op.i, t) == 0 && (Slot(fs, op.i, t) != 0 || (!op.stage.Idle? && op.stage.t == t))
  {
  }

  /** How far the present blocks of the call's file go: up to n, or including n if the call needs it. */
  lemma PresentBlocks(fs0: Fs, fs: Fs, op: Op) returns (n: nat)
    requires Wf(fs0) && Wf(fs) && fs.sb == fs0.sb && OpOk(fs0, fs, op)
    ensures var k' := Ceil(Max(fs0.mem[op.i].size, op.off + |op.src|));
      && n <= k' && Solid(fs, op.i, n, n < k')
      && (!op.stage.Idle? ==> n < k' && (op.stage.t == FileSlot(n) || (op.stage.t == IND && n == NDIRECT)))
  {
    hide Slot, DInode, FileByte, Splice, Ceil;
    var len := fs0.mem[op.i].size;
    if op.finished {
      n := Ceil(Max(len, op.off + |op.src|));
      assert |Splice(Contents(fs0, op.i), op.off, op.src)| == Max(len, op.off + |op.src|) by {
        SpliceTwice(Contents(fs0, op.i), op.off, op.src, []);
      }
    } else {
      n := Ceil(Cur(len, op));
      CeilMax(len, op.off + op.done);
      CeilMax(len, op.off + |op.src|);
      ExtraBelow(len, op);
      if !op.stage.Idle? { NextIsExtra(fs0, fs, op); }
    }
  }

  lemma ExtraBelow(len: nat, op: Op)
    requires op.done <= |op.src|
    ensures Ceil(Cur(len, op)) <= Ceil(Max(len, op.off + |op.src|))
    ensures Extra(len, op) ==> Ceil(Cur(len, op)) < Ceil(Max(len, op.off + |op.src|))
  {
    var x, y := op.off + op.done, op.off + |op.src|;
    assert (x + 511) / 512 <= (y + 511) / 512;
    CeilMax(len, x);
    CeilMax(len, y);
    if Extra(len, op) {
      assert x / 512 <= (y - 1) / 512 && (y + 511) / 512 == (y - 1) / 512 + 1;
    }
  }

  lemma BudgetHolds(fs0: Fs, fs: Fs, op: Op, bits: set<nat>)
    requires Wf(fs0) && Wf(fs) && fs.sb == fs0.sb && OpOk(fs0, fs, op) && LogOk(fs0, fs, op, bits)
    requires |op.src| <= WRITEMAX
    ensures |op.logged| <= MAXOPBLOCKS
  {
    hide Slot, Ceil, Chunks, NewBlocks, OpOk, NewSlots, CallSlots;
    OpInode(fs0, fs, op);
    var len := fs0.mem[op.i].size;
    NewSlotsBound(fs0, fs, op);
    RangeSlots(op);
    BlocksInSize(fs, op, CallSlots(op));
    assert BlocksIn(fs, op, CallSlots(op)) == Reach(fs, op);
    TransactionArithmetic(len, op.off, |op.src|);
    UnionSize(bits, Reach(fs, op));
    UnionSize(bits + Reach(fs, op), {fs.sb.IBlock(op.i)});
    SubsetSize(op.logged, bits + Reach(fs, op) + {fs.sb.IBlock(op.i)});
  }

  // ---------------------------------------------------------------- runs

  lemma {:induction false} RunLogs(fs: Fs, owner: Owner, gs: seq<State>, steps: seq<Step>, n: nat, k: nat)
    returns (owner': Owner, bits: set<nat>)
    requires Owned(fs, owner) && InSync(fs) && IsRun(gs, steps) && gs[0].fs == fs && Starts(fs, gs[0].ops)
    requires n < |gs| && k < |gs[0].ops|
    ensures Inv(fs, gs[n], owner') && k < |gs[n].ops| && gs[n].ops[k].i < gs[n].fs.sb.ninodes
    ensures LogOk(fs, gs[n].fs, gs[n].ops[k], bits) && gs[n].ops[k].src == gs[0].ops[k].src
  {
    hide SlotsOwned, BitsMatch, InSync, Next, LogOk, Inv, Starts;
    if n == 0 {
      InitialInv(fs, owner, gs[0].ops);
      StartLogs(fs, gs[0].ops, k);
      owner', bits := owner, {};
    } else {
      var owner1, bits1 := RunLogs(fs, owner, gs, steps, n - 1, k);
      owner' := StepKeepsInv(fs, gs[n - 1], owner1, steps[n - 1], gs[n]);
      bits := StepLogs(fs, gs[n - 1], owner1, steps[n - 1], gs[n], owner', k, bits1);
    }
  }

  lemma StartLogs(fs: Fs, ops: seq<Op>, k: nat)
    requires Wf(fs) && Starts(fs, ops) && k < |ops|
    ensures ops[k].i < fs.sb.ninodes && LogOk(fs, fs, ops[k], {})
  {
    hide FileOk;
  }

  lemma StepLogs(fs0: Fs, g: State, owner: Owner, step: Step, g': State, owner': Owner, k: nat, bits: set<nat>)
    returns (bits': set<nat>)
    requires Inv(fs0, g, owner) && Next(g, step, g') && Inv(fs0, g', owner')
    requires step.k < |g.ops| == |g'.ops| && SameBut(g.fs, g'.fs, g.ops[step.k].i)
    requires forall l :: 0 <= l < |g.ops| && l != step.k ==> g'.ops[l] == g.ops[l]
    requires k < |g.ops| && g.ops[k].i < g.fs.sb.ninodes && LogOk(fs0, g.fs, g.ops[k], bits)
    ensures g'.ops[k].i < g'.fs.sb.ninodes && LogOk(fs0, g'.fs, g'.ops[k], bits') && g'.ops[k].src == g.ops[k].src
  {
    hide LogOk, SlotsOwned, BitsOk, OpOk, OthersKept, OnlyLogged, Slot;
    bits' := bits;
    SameSource(g, step, g');
    if k == step.k {
      bits' := OwnStepLogs(fs0, g, owner, step, g', bits);
    } else {
      assert g.ops[k].i != g.ops[step.k].i;
      assert SameFile(g.fs, g'.fs, g.ops[k].i);
      QuietLogs(fs0, g.fs, g'.fs, g.ops[k], g'.ops[k], bits);
    }
  }

  lemma SameSource(g: State, step: Step, g': State)
    requires Next(g, step, g')
    ensures step.k < |g.ops| == |g'.ops| && g'.ops[step.k].src == g.ops[step.k].src
  {
    hide Slot, Used;
  }

  /** In every interleaving each call of filewrite size logs at most MAXOPBLOCKS distinct blocks, at every
      moment: what begin_op has reserved for it. */
  lemma InterleavedBudget(fs: Fs, owner: Owner, gs: seq<State>, steps: seq<Step>, n: nat, k: nat)
    requires Owned(fs, owner) && InSync(fs) && IsRun(gs, steps) && gs[0].fs == fs && Starts(fs, gs[0].ops)
    requires n < |gs| && k < |gs[0].ops| && |gs[0].ops[k].src| <= WRITEMAX
    ensures k < |gs[n].ops| && |gs[n].ops[k].logged| <= MAXOPBLOCKS
  {
    hide Next, Starts, LogOk, Owned, InSync, OpOk;
    var owner', bits := RunLogs(fs, owner, gs, steps, n, k);
    BudgetHolds(fs, gs[n].fs, gs[n].ops[k], bits);
  }

  // ---------------------------------------------------------------- the whole transaction

  function AllLogged(ops: seq<Op>): (r: set<nat>)
    ensures forall k :: 0 <= k < |ops| ==> ops[k].logged <= r
  {
    if ops == [] then {} else AllLogged(ops[..|ops| - 1]) + ops[|ops| - 1].logged
  }

  lemma {:induction false} AllLoggedIn(ops: seq<Op>, x: nat) returns (k: nat)
    requires x in AllLogged(ops)
    ensures k < |ops| && x in ops[k].logged
  {
    if x in ops[|ops| - 1].logged {
      k := |ops| - 1;
    } else {
      k := AllLoggedIn(ops[..|ops| - 1], x);
    }
  }

  lemma {:induction false} AllLoggedSize(ops: seq<Op>)
    requires forall k :: 0 <= k < |ops| ==> |ops[k].logged| <= MAXOPBLOCKS
    ensures |AllLogged(ops)| <= |ops| * MAXOPBLOCKS
  {
    if ops != [] {
      var rest := ops[..|ops| - 1];
      AllLoggedSize(rest);
      UnionSize(AllLogged(rest), ops[|ops| - 1].logged);
    }
  }

  /** What a step passes to log_write is on its call's account. */
  lemma StepAccounts(g: State, step: Step, g': State)
    requires Next(g, step, g')
    ensures step.k < |g.ops| == |g'.ops|
    ensures g.ops[step.k].logged <= g'.ops[step.k].logged && g'.fs.logged <= g.fs.logged + g'.ops[step.k].logged
  {
    hide Slot, Used, PutBit, PutWord, PutInode, PutBytes, At, Within, Chunk, NextSlot;
  }

  lemma {:induction false} RunAccounts(gs: seq<State>, steps: seq<Step>, n: nat)
    requires IsRun(gs, steps) && n < |gs|
    ensures gs[n].fs.logged <= gs[0].fs.logged + AllLogged(gs[n].ops) && |gs[n].ops| == |gs[0].ops|
  {
    hide Next, AllLogged;
    if n > 0 {
      RunAccounts(gs, steps, n - 1);
      var g, g', step := gs[n - 1], gs[n], steps[n - 1];
      StepAccounts(g, step, g');
      StepShape(g, step, g');
      forall x | x in g'.fs.logged ensures x in gs[0].fs.logged + AllLogged(g'.ops) {
        if x !in g'.ops[step.k].logged && x !in gs[0].fs.logged {
          var k := AllLoggedIn(g.ops, x);
          assert x in g'.ops[k].logged;
        }
      }
    }
  }

  /** So a transaction of n calls of filewrite size logs at most n times MAXOPBLOCKS blocks. */
  lemma InterleavedLogs(fs: Fs, owner: Owner, gs: seq<State>, steps: seq<Step>, n: nat)
    requires Owned(fs, owner) && InSync(fs) && IsRun(gs, steps) && gs[0].fs == fs && Starts(fs, gs[0].ops) && n < |gs|
    requires fs.logged == {} && forall k :: 0 <= k < |gs[0].ops| ==> |gs[0].ops[k].src| <= WRITEMAX
    ensures |gs[n].fs.logged| <= |gs[0].ops| * MAXOPBLOCKS
  {
    hide Next, Starts, SlotsOwned, BitsMatch, InSync, AllLogged;
    RunAccounts(gs, steps, n);
    forall k | 0 <= k < |gs[n].ops| ensures |gs[n].ops[k].logged| <= MAXOPBLOCKS {
      InterleavedBudget(fs, owner, gs, steps, n, k);
    }
    AllLoggedSize(gs[n].ops);
    SubsetSize(gs[n].fs.logged, AllLogged(gs[n].ops));
  }
}
