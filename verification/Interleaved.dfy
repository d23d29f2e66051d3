/** Concurrent writei calls on different inodes inside one transaction (xv6/fs.c, xv6/log.c): each
    buffer is locked for one step at a time, so steps of the calls interleave on the bitmap and inode
    blocks that they share.  Whatever the order, and whichever free block each balloc finds, the
    calls end as if each had run alone. */
module Interleaved {
  import opened Commons
  import opened Blocks
  import opened LogRecovery
  import opened FsLayout
  import opened FsState
  import opened FsAlloc
  import opened FsFile
  import opened FsWrite
  import opened CrashSafety

  /** Where a call is inside balloc: block b has its bit set, or is zeroed as well, and will go into
      slot t. */
  datatype Stage = Idle | Marked(b: nat, t: nat) | Zeroed(b: nat, t: nat)

  /** A writei in progress: `done` bytes of src are written; at the end the size is updated; logged are
      the blocks that the call itself has passed to log_write. */
  datatype Op = Op(i: nat, off: nat, src: seq<byte>, done: nat, stage: Stage, finished: bool, logged: set<nat>)

  datatype State = State(fs: Fs, ops: seq<Op>)

  datatype Step = Mark(k: nat, b: nat) | Zero(k: nat) | Link(k: nat) | Put(k: nat) | Finish(k: nat)

  // ---------------------------------------------------------------- steps

  /** The file block that the call writes next. */
  function At(op: Op): nat { (op.off + op.done) / BSIZE }

  /** And where in it. */
  function Within(op: Op): (o: nat)
    ensures o < BSIZE
  {
    (op.off + op.done) % BSIZE
  }

  predicate Writes(op: Op) {
    !op.finished && op.done < |op.src| && At(op) < MAXFILE
  }

  /** The slot that bmap looks at: the indirect block comes first. */
  function NextSlot(fs: Fs, op: Op): (t: nat)
    requires Wf(fs) && op.i < fs.sb.ninodes && At(op) < MAXFILE
    ensures t < SLOTS && (t > IND ==> Slot(fs, op.i, IND) != 0)
  {
    if At(op) < NDIRECT then At(op) else if Slot(fs, op.i, IND) == 0 then IND else At(op) + 1
  }

  function SetBit(fs: Fs, b: nat): Fs
    requires Wf(fs) && b < fs.sb.size
  {
    var bb := fs.sb.BBlock(b);
    fs.(blk := fs.blk[bb := PutBit(fs.blk[bb], b % BPB, 1)], logged := fs.logged + {bb})
  }

  function ZeroOut(fs: Fs, b: nat): Fs
    requires Wf(fs) && b < fs.sb.size
  {
    fs.(blk := fs.blk[b := ZeroBlock()], logged := fs.logged + {b})
  }

  /** The bytes of src that go into the next file block. */
  function Chunk(op: Op): (c: seq<byte>)
    requires op.done < |op.src|
    ensures 0 < |c| && Within(op) + |c| <= BSIZE && op.done + |c| <= |op.src|
    ensures c == op.src[op.done..op.done + |c|]
  {
    op.src[op.done..op.done + Min(|op.src| - op.done, BSIZE - Within(op))]
  }

  function PutFs(fs: Fs, op: Op): Fs
    requires Wf(fs) && op.i < fs.sb.ninodes && Writes(op) && Slot(fs, op.i, FileSlot(At(op))) < fs.sb.size
  {
    WriteBlock(fs, Slot(fs, op.i, FileSlot(At(op))), Within(op), Chunk(op))
  }

  function MarkedOp(fs: Fs, op: Op, b: nat): Op
    requires Wf(fs) && op.i < fs.sb.ninodes && At(op) < MAXFILE
  {
    op.(stage := Marked(b, NextSlot(fs, op)), logged := op.logged + {fs.sb.BBlock(b)})
  }

  function ZeroedOp(op: Op): Op
    requires op.stage.Marked?
  {
    op.(stage := Zeroed(op.stage.b, op.stage.t), logged := op.logged + {op.stage.b})
  }

  function LinkedOp(fs: Fs, op: Op): Op
    requires op.i in fs.mem && op.stage.Zeroed?
  {
    op.(stage := Idle, logged := op.logged + if op.stage.t > IND then {fs.mem[op.i].addrs[IND]} else {})
  }

  function WroteOp(fs: Fs, op: Op): Op
    requires Wf(fs) && op.i < fs.sb.ninodes && Writes(op)
  {
    op.(done := op.done + |Chunk(op)|, logged := op.logged + {Slot(fs, op.i, FileSlot(At(op)))})
  }

  function FinishedOp(fs: Fs, op: Op): Op
    requires op.i in fs.mem
  {
    var grows := |op.src| > 0 && op.off + |op.src| > fs.mem[op.i].size;
    op.(finished := true, logged := op.logged + if grows then {fs.sb.IBlock(op.i)} else {})
  }

  ghost predicate Next(g: State, step: Step, g': State) {
    && Wf(g.fs) && step.k < |g.ops| && g.ops[step.k].i in g.fs.mem
    && var op := g.ops[step.k];
       match step
       case Mark(k, b) =>
         && Writes(op) && op.stage.Idle? && Slot(g.fs, op.i, NextSlot(g.fs, op)) == 0
         && b < g.fs.sb.size && !Used(g.fs, b)
         && g' == State(SetBit(g.fs, b), g.ops[k := MarkedOp(g.fs, op, b)])
       case Zero(k) =>
         && op.stage.Marked? && op.stage.b < g.fs.sb.size
         && g' == State(ZeroOut(g.fs, op.stage.b), g.ops[k := ZeroedOp(op)])
       case Link(k) =>
         && op.stage.Zeroed? && op.stage.t < SLOTS && op.stage.b < U32
         && (op.stage.t > IND ==> g.fs.mem[op.i].addrs[IND] < g.fs.sb.size)
         && g' == State(SetSlot(g.fs, op.i, op.stage.t, op.stage.b), g.ops[k := LinkedOp(g.fs, op)])
       case Put(k) =>
         && Writes(op) && op.stage.Idle? && 0 < Slot(g.fs, op.i, FileSlot(At(op))) < g.fs.sb.size
         && g' == State(PutFs(g.fs, op), g.ops[k := WroteOp(g.fs, op)])
       case Finish(k) =>
         && !op.finished && op.done == |op.src| && op.stage.Idle? && op.off + |op.src| < U32
         && g' == State(if |op.src| > 0 then Extend(g.fs, op.i, op.off + |op.src|) else g.fs,
                        g.ops[k := FinishedOp(g.fs, op)])
  }

  // ---------------------------------------------------------------- invariant

  /** Bytes of the file that mean something, when it had len at first. */
  function Cur(len: nat, op: Op): nat { Max(len, op.off + op.done) }

  /** The block behind the present ones may be there already, because the call is about to write it. */
  predicate Extra(len: nat, op: Op) {
    op.done < |op.src| && At(op) == Ceil(Cur(len, op))
  }

  /** Exactly the first n blocks are there, and the indirect block when needed; block n may be, if extra. */
  ghost predicate Solid(fs: Fs, i: nat, n: nat, extra: bool)
    requires Wf(fs) && i < fs.sb.ninodes
  {
    && n <= MAXFILE
    && (forall m: nat :: m < MAXFILE && !(extra && m == n) ==> (Slot(fs, i, FileSlot(m)) != 0 <==> m < n))
    && (n > NDIRECT ==> Slot(fs, i, IND) != 0)
    && (Slot(fs, i, IND) != 0 ==> n > NDIRECT || (extra && n == NDIRECT))
  }

  ghost predicate StageOk(fs: Fs, op: Op)
    requires Wf(fs) && op.i < fs.sb.ninodes
  {
    !op.stage.Idle? ==>
      && Writes(op) && op.stage.t == NextSlot(fs, op) && Slot(fs, op.i, op.stage.t) == 0
      && op.stage.b < fs.sb.size && (op.stage.Zeroed? ==> fs.blk[op.stage.b] == ZeroBlock())
  }

  /** The call began on a whole file. */
  ghost predicate Begun(fs0: Fs, op: Op)
    requires Wf(fs0)
  {
    && op.i in fs0.mem && FileOk(fs0, op.i) && DInode(fs0, op.i) == fs0.mem[op.i]
    && op.off <= fs0.mem[op.i].size && op.off + |op.src| <= MAXBYTES && op.done <= |op.src|
  }

  ghost predicate Running(fs0: Fs, fs: Fs, op: Op)
    requires Wf(fs0) && Wf(fs) && fs.sb == fs0.sb && Begun(fs0, op) && op.i in fs.mem
  {
    var i, len := op.i, fs0.mem[op.i].size;
    && fs.mem[i].size == len && SameKind(fs0.mem[i], fs.mem[i]) && DInode(fs, i) == DInode(fs0, i)
    && (op.off + |op.src| <= len ==> fs.mem[i] == fs0.mem[i])
    && Solid(fs, i, Ceil(Cur(len, op)), Extra(len, op)) && Cur(len, op) <= MAXBYTES
    && FileBytes(fs, i, Cur(len, op)) == Splice(FileBytes(fs0, i, len), op.off, op.src[..op.done])
    && StageOk(fs, op)
  }

  ghost predicate Finished(fs0: Fs, fs: Fs, op: Op)
    requires Wf(fs0) && Wf(fs) && fs.sb == fs0.sb && Begun(fs0, op) && op.i in fs.mem
  {
    && op.done == |op.src| && op.stage.Idle? && FileOk(fs, op.i) && DInode(fs, op.i) == fs.mem[op.i]
    && Contents(fs, op.i) == Splice(Contents(fs0, op.i), op.off, op.src) && SameKind(fs0.mem[op.i], fs.mem[op.i])
  }

  ghost predicate OpOk(fs0: Fs, fs: Fs, op: Op)
    requires Wf(fs0) && Wf(fs) && fs.sb == fs0.sb
  {
    && Begun(fs0, op) && op.i in fs.mem
    && if op.finished then Finished(fs0, fs, op) else Running(fs0, fs, op)
  }

  ghost predicate Pends(ops: seq<Op>, b: nat) {
    exists k :: 0 <= k < |ops| && PendsOp(ops[k], b)
  }

  predicate PendsOp(op: Op, b: nat) {
    !op.stage.Idle? && op.stage.b == b
  }

  /** Bits are set for metadata, owned blocks, and blocks on their way into a slot; these are nobody's yet. */
  ghost predicate BitsOk(fs: Fs, owner: Owner, ops: seq<Op>)
    requires Wf(fs)
  {
    && (forall b: nat :: b < fs.sb.size ==> (Used(fs, b) <==> b < fs.sb.datastart || b in owner || Pends(ops, b)))
    && (forall k :: 0 <= k < |ops| && !ops[k].stage.Idle? ==>
          fs.sb.datastart <= ops[k].stage.b < fs.sb.size && ops[k].stage.b !in owner)
    && forall k, l :: 0 <= k < l < |ops| && !ops[k].stage.Idle? && !ops[l].stage.Idle? ==>
         ops[k].stage.b != ops[l].stage.b
  }

  ghost predicate Inodes(ops: seq<Op>) {
    forall k, l :: 0 <= k < l < |ops| ==> ops[k].i != ops[l].i
  }

  /** Record, blocks and bytes of inode j are the same. */
  ghost predicate SameFile(fs: Fs, gs: Fs, j: nat)
    requires Wf(fs) && Wf(gs) && gs.sb == fs.sb && j < fs.sb.ninodes
  {
    && Node(gs, j) == Node(fs, j) && DInode(gs, j) == DInode(fs, j) && (j in gs.mem <==> j in fs.mem)
    && (forall t: nat :: t < SLOTS ==> Slot(gs, j, t) == Slot(fs, j, t))
    && forall p: nat :: p < MAXBYTES ==> FileByte(gs, j, p) == FileByte(fs, j, p)
  }

  ghost predicate Outside(ops: seq<Op>, j: nat) {
    forall k :: 0 <= k < |ops| ==> ops[k].i != j
  }

  ghost predicate OthersKept(fs0: Fs, fs: Fs, ops: seq<Op>)
    requires Wf(fs0) && Wf(fs) && fs.sb == fs0.sb
  {
    forall j: nat :: j < fs.sb.ninodes && Outside(ops, j) ==> SameFile(fs0, fs, j)
  }

  ghost predicate Inv(fs0: Fs, g: State, owner: Owner) {
    && Wf(fs0) && Wf(g.fs) && g.fs.sb == fs0.sb && g.fs.mem.Keys == fs0.mem.Keys
    && SlotsOwned(g.fs, owner) && BitsOk(g.fs, owner, g.ops) && Inodes(g.ops)
    && (forall k :: 0 <= k < |g.ops| ==> OpOk(fs0, g.fs, g.ops[k]))
    && OthersKept(fs0, g.fs, g.ops) && OnlyLogged(fs0, g.fs)
  }

  // ---------------------------------------------------------------- what one step does to the blocks

  ghost predicate SameBut(fs: Fs, gs: Fs, i: nat)
    requires Wf(fs) && Wf(gs) && gs.sb == fs.sb
  {
    forall j: nat :: j < fs.sb.ninodes && j != i ==> SameFile(fs, gs, j)
  }

  /** Setting a bit in the bitmap. */
  lemma SetBitKeeps(fs: Fs, owner: Owner, b: nat)
    requires Wf(fs) && SlotsOwned(fs, owner) && b < fs.sb.size && 0 < fs.sb.ninodes
    ensures var gs := SetBit(fs, b);
      && gs.sb == fs.sb && Wf(gs) && SlotsOwned(gs, owner) && gs.mem == fs.mem && OnlyLogged(fs, gs)
      && (forall j: nat :: j < fs.sb.ninodes ==> SameFile(fs, gs, j))
      && (forall c: nat :: c < fs.sb.size ==> (Used(gs, c) <==> c == b || Used(fs, c)))
      && (forall c: nat :: fs.sb.datastart <= c < fs.sb.size ==> gs.blk[c] == fs.blk[c])
  {
    hide PutBit, Slot, DInode, BitAt, FileByte;
    var gs, bb := SetBit(fs, b), fs.sb.BBlock(b);
    Regions(fs.sb, 0, b);
    OwnedInData(fs, owner);
    ChangeData(fs, owner, gs, bb);
    StillOwned(fs, owner, gs);
    forall c: nat | c < fs.sb.size ensures Used(gs, c) <==> c == b || Used(fs, c) { BitFrame(fs, b, c, 1); }
    forall j: nat, p: nat | j < fs.sb.ninodes && p < MAXBYTES ensures FileByte(gs, j, p) == FileByte(fs, j, p) {
      MetaByte(fs, owner, gs, bb, j, p);
    }
  }

  /** Zeroing a block that nobody owns. */
  lemma ZeroOutKeeps(fs: Fs, owner: Owner, b: nat)
    requires Wf(fs) && SlotsOwned(fs, owner) && fs.sb.datastart <= b < fs.sb.size && b !in owner && 0 < fs.sb.ninodes
    ensures var gs := ZeroOut(fs, b);
      && gs.sb == fs.sb && Wf(gs) && SlotsOwned(gs, owner) && gs.mem == fs.mem && OnlyLogged(fs, gs)
      && (forall j: nat :: j < fs.sb.ninodes ==> SameFile(fs, gs, j))
      && (forall c: nat :: c < fs.sb.size ==> Used(gs, c) == Used(fs, c))
      && (forall c: nat :: c < fs.sb.size && c != b ==> gs.blk[c] == fs.blk[c]) && gs.blk[b] == ZeroBlock()
  {
    hide Slot, DInode, BitAt, FileByte;
    var gs := ZeroOut(fs, b);
    Regions(fs.sb, 0, b);
    ChangeData(fs, owner, gs, b);
    StillOwned(fs, owner, gs);
    forall c: nat | c < fs.sb.size ensures Used(gs, c) == Used(fs, c) { assert fs.sb.BBlock(c) < fs.sb.datastart; }
    forall j: nat, p: nat | j < fs.sb.ninodes && p < MAXBYTES ensures FileByte(gs, j, p) == FileByte(fs, j, p) {
      UnownedByte(fs, owner, gs, b, j, p);
    }
  }

  lemma UnownedByte(fs: Fs, owner: Owner, gs: Fs, b: nat, j: nat, p: nat)
    requires Wf(fs) && Wf(gs) && gs.sb == fs.sb && SlotsOwned(fs, owner) && SameSlots(fs, gs)
    requires b !in owner && forall c :: 0 <= c < fs.sb.size && c != b ==> gs.blk[c] == fs.blk[c]
    requires j < fs.sb.ninodes && p < MAXBYTES
    ensures FileByte(gs, j, p) == FileByte(fs, j, p)
  {
    hide Slot;
    var a := Slot(fs, j, FileSlot(p / BSIZE));
    if a != 0 { assert a in owner; }
  }

  /** Storing a fresh block in a missing slot of inode i. */
  lemma LinkKeeps(fs: Fs, owner: Owner, i: nat, t: nat, b: nat)
    requires Wf(fs) && SlotsOwned(fs, owner) && i in fs.mem && t < SLOTS && (t > IND ==> Slot(fs, i, IND) != 0)
    requires Slot(fs, i, t) == 0 && fs.sb.datastart <= b < fs.sb.size && b !in owner
    requires t == IND ==> fs.blk[b] == ZeroBlock()
    ensures t > IND ==> fs.mem[i].addrs[IND] < fs.sb.size
    ensures var gs := SetSlot(fs, i, t, b);
      && gs.sb == fs.sb && Wf(gs) && gs.mem.Keys == fs.mem.Keys && SlotsOwned(gs, owner[b := (i, t)])
      && OnlyLogged(fs, gs) && SameBut(fs, gs, i) && FillFrame(fs, gs, i, t)
      && (forall c: nat :: c < fs.sb.size ==> Used(gs, c) == Used(fs, c))
      && (forall c: nat :: c < fs.sb.size && c !in owner ==> gs.blk[c] == fs.blk[c])
  {
    hide Slot, SetSlot, DInode, BitAt, FileByte, SlotsOwned;
    SetFresh(fs, owner, i, t, b);
    SetSlotShape(fs, i, t, b);
    var gs := SetSlot(fs, i, t, b);
    IndInData(fs, owner, i);
    LinkLogged(fs, i, t, b);
    forall c: nat | c < fs.sb.size ensures Used(gs, c) == Used(fs, c) {
      LinkMeta(fs, owner, i, t, b);
      assert fs.sb.BBlock(c) < fs.sb.datastart;
    }
    forall j: nat | j < fs.sb.ninodes && j != i ensures SameFile(fs, gs, j) {
      forall p: nat | p < MAXBYTES ensures FileByte(gs, j, p) == FileByte(fs, j, p) {
        FillByte(fs, gs, i, t, j, p);
      }
    }
  }

  lemma LinkLogged(fs: Fs, i: nat, t: nat, b: nat)
    requires Wf(fs) && i in fs.mem && t < SLOTS && b < U32
    requires t > IND ==> fs.sb.datastart <= fs.mem[i].addrs[IND] < fs.sb.size
    ensures OnlyLogged(fs, SetSlot(fs, i, t, b))
  {
    hide PutWord;
    Regions(fs.sb, i, 0);
  }

  lemma LinkMeta(fs: Fs, owner: Owner, i: nat, t: nat, b: nat)
    requires Wf(fs) && i in fs.mem && t < SLOTS && b < U32
    requires t > IND ==> fs.sb.datastart <= fs.mem[i].addrs[IND] < fs.sb.size
    ensures forall c: nat :: c < fs.sb.datastart ==> SetSlot(fs, i, t, b).blk[c] == fs.blk[c]
  {
    hide PutWord;
  }

  /** Filling a slot moves no byte of a block that was there. */
  lemma FillByte(fs: Fs, gs: Fs, i: nat, t: nat, j: nat, p: nat)
    requires Wf(fs) && Wf(gs) && gs.sb == fs.sb && i in fs.mem && i in gs.mem && t < SLOTS && FillFrame(fs, gs, i, t)
    requires j < fs.sb.ninodes && p < MAXBYTES && (j, FileSlot(p / BSIZE)) != (i, t)
    ensures FileByte(gs, j, p) == FileByte(fs, j, p)
  {
    hide Slot, DInode;
    assert Slot(gs, j, FileSlot(p / BSIZE)) == Slot(fs, j, FileSlot(p / BSIZE));
  }

  /** The bytes of file i differ by data, from byte o of block n on. */
  ghost predicate BytesPut(fs: Fs, gs: Fs, i: nat, n: nat, o: nat, data: seq<byte>)
    requires Wf(fs) && Wf(gs) && gs.sb == fs.sb && i < fs.sb.ninodes
  {
    forall p: nat :: p < MAXBYTES ==>
      FileByte(gs, i, p) ==
        if n * BSIZE + o <= p < n * BSIZE + o + |data| then data[p - n * BSIZE - o] else FileByte(fs, i, p)
  }

  /** Writing into a block of file i. */
  lemma PutKeeps(fs: Fs, owner: Owner, i: nat, n: nat, o: nat, data: seq<byte>)
    requires Wf(fs) && SlotsOwned(fs, owner) && i in fs.mem && n < MAXFILE && o + |data| <= BSIZE
    requires 0 < Slot(fs, i, FileSlot(n)) < fs.sb.size
    ensures var gs := WriteBlock(fs, Slot(fs, i, FileSlot(n)), o, data);
      && gs.sb == fs.sb && Wf(gs) && SlotsOwned(gs, owner)
      && SameTree(fs, gs) && OnlyLogged(fs, gs) && SameBut(fs, gs, i)
      && (forall c: nat :: c < fs.sb.size ==> Used(gs, c) == Used(fs, c))
      && (forall c: nat :: c < fs.sb.size && c !in owner ==> gs.blk[c] == fs.blk[c])
      && BytesPut(fs, gs, i, n, o, data)
  {
    hide Slot, DInode, PutBytes, BitAt, FileByte;
    WriteBlockKeeps(fs, owner, i, n, o, data);
    var a := Slot(fs, i, FileSlot(n));
    assert OwnedAt(fs, a, i, FileSlot(n));
    Regions(fs.sb, i, 0);
    assert a in owner;
  }

  /** The end of writei: size and inode block. */
  lemma ExtendKeeps(fs: Fs, owner: Owner, i: nat, end: nat)
    requires Wf(fs) && SlotsOwned(fs, owner) && i in fs.mem && end < U32
    ensures var gs := Extend(fs, i, end);
      && Wf(gs) && gs.sb == fs.sb && gs.mem.Keys == fs.mem.Keys && SlotsOwned(gs, owner) && SameSlots(fs, gs)
      && OnlyLogged(fs, gs) && SameBut(fs, gs, i) && SameKind(fs.mem[i], gs.mem[i])
      && (end > fs.mem[i].size ==> gs.mem[i].size == end && DInode(gs, i) == gs.mem[i])
      && (end <= fs.mem[i].size ==> gs == fs)
      && (forall p: nat :: p < MAXBYTES ==> FileByte(gs, i, p) == FileByte(fs, i, p))
      && (forall c: nat :: c < fs.sb.size ==> Used(gs, c) == Used(fs, c))
      && (forall c: nat :: fs.sb.datastart <= c < fs.sb.size ==> gs.blk[c] == fs.blk[c])
  {
    hide Slot, DInode, SlotsOwned, Used, FileByte, PutInode;
    if end > fs.mem[i].size {
      ResizeKeeps(fs, owner, i, end);
      var rs := fs.(mem := fs.mem[i := fs.mem[i].(size := end)]);
      IupdateKeeps(rs, owner, i);
      Regions(fs.sb, i, 0);
    }
  }

  // ---------------------------------------------------------------- what one step does to a call

  /** A call is not disturbed by steps that leave its file and its pending block alone. */
  lemma OpStays(fs0: Fs, fs: Fs, gs: Fs, op: Op)
    requires Wf(fs0) && Wf(fs) && Wf(gs) && fs0.sb == fs.sb == gs.sb && OpOk(fs0, fs, op) && SameFile(fs, gs, op.i)
    requires op.stage.Zeroed? && op.stage.b < fs.sb.size ==> gs.blk[op.stage.b] == fs.blk[op.stage.b]
    ensures OpOk(fs0, gs, op)
  {
    hide Slot, DInode, FileByte, Splice;
    if op.finished {
      FinishedStays(fs0, fs, gs, op);
    } else {
      RunningStays(fs0, fs, gs, op);
    }
  }

  lemma FinishedStays(fs0: Fs, fs: Fs, gs: Fs, op: Op)
    requires Wf(fs0) && Wf(fs) && Wf(gs) && fs0.sb == fs.sb == gs.sb && Begun(fs0, op) && op.i in fs.mem
      && op.i in gs.mem
    requires Finished(fs0, fs, op) && SameFile(fs, gs, op.i)
    ensures Finished(fs0, gs, op)
  {
    hide Slot, DInode, FileByte, Splice;
    SolidStays(fs, gs, op.i, Ceil(Node(fs, op.i).size), false);
    assert FileBytes(gs, op.i, Node(fs, op.i).size) == FileBytes(fs, op.i, Node(fs, op.i).size);
  }

  lemma RunningStays(fs0: Fs, fs: Fs, gs: Fs, op: Op)
    requires Wf(fs0) && Wf(fs) && Wf(gs) && fs0.sb == fs.sb == gs.sb && Begun(fs0, op) && op.i in fs.mem
      && op.i in gs.mem
    requires Running(fs0, fs, op) && SameFile(fs, gs, op.i)
    requires op.stage.Zeroed? && op.stage.b < fs.sb.size ==> gs.blk[op.stage.b] == fs.blk[op.stage.b]
    ensures Running(fs0, gs, op)
  {
    hide Slot, DInode, FileByte, Splice, Solid;
    var len := fs0.mem[op.i].size;
    SolidStays(fs, gs, op.i, Ceil(Cur(len, op)), Extra(len, op));
    assert FileBytes(gs, op.i, Cur(len, op)) == FileBytes(fs, op.i, Cur(len, op));
  }

  lemma SolidStays(fs: Fs, gs: Fs, i: nat, n: nat, extra: bool)
    requires Wf(fs) && Wf(gs) && fs.sb == gs.sb && i < fs.sb.ninodes
    requires forall t: nat :: t < SLOTS ==> Slot(gs, i, t) == Slot(fs, i, t)
    ensures Solid(fs, i, n, extra) ==> Solid(gs, i, n, extra)
    ensures NoHoles(fs, i, n) ==> NoHoles(gs, i, n)
  {
    hide Slot;
    assert forall m: nat :: m < MAXFILE ==> Slot(gs, i, FileSlot(m)) == Slot(fs, i, FileSlot(m));
  }

  /** The call asks for the block right behind the present ones. */
  lemma NextIsExtra(fs0: Fs, fs: Fs, op: Op)
    requires Wf(fs0) && Wf(fs) && fs.sb == fs0.sb && Begun(fs0, op) && op.i in fs.mem && Running(fs0, fs, op)
      && Writes(op)
    requires Slot(fs, op.i, NextSlot(fs, op)) == 0
    ensures var len := fs0.mem[op.i].size;
      && At(op) == Ceil(Cur(len, op)) && Extra(len, op) && op.off + |op.src| > len
      && (NextSlot(fs, op) == IND ==> At(op) == NDIRECT)
  {
    hide Slot, DInode, FileBytes, Splice;
    var len := fs0.mem[op.i].size;
    AtBound(len, op);
    Present(fs, op.i, Ceil(Cur(len, op)), Extra(len, op), At(op));
  }

  lemma Present(fs: Fs, i: nat, n: nat, extra: bool, m: nat)
    requires Wf(fs) && i < fs.sb.ninodes && Solid(fs, i, n, extra) && m < MAXFILE
    ensures m < n ==> Slot(fs, i, FileSlot(m)) != 0 && (m >= NDIRECT ==> Slot(fs, i, IND) != 0)
  {
    hide Slot;
  }

  lemma AtBound(len: nat, op: Op)
    ensures At(op) <= Ceil(Cur(len, op))
    ensures op.done < |op.src| && op.off + |op.src| <= len ==> At(op) < Ceil(Cur(len, op))
  {
    var x, y := op.off + op.done, Cur(len, op);
    assert x / 512 <= y / 512;
    assert x < y ==> x / 512 <= (y - 1) / 512;
  }

  lemma LinkOp(fs0: Fs, fs: Fs, gs: Fs, op: Op)
    requires Wf(fs0) && Wf(fs) && Wf(gs) && fs0.sb == fs.sb == gs.sb && Begun(fs0, op) && op.i in fs.mem
      && op.i in gs.mem
    requires Running(fs0, fs, op) && op.stage.Zeroed? && FillFrame(fs, gs, op.i, op.stage.t)
    ensures Running(fs0, gs, LinkedOp(fs, op))
  {
    hide Slot, DInode, FileByte, Splice, Ceil, Cur;
    NextIsExtra(fs0, fs, op);
    var i, len, t := op.i, fs0.mem[op.i].size, op.stage.t;
    var n := Ceil(Cur(len, op));
    forall m: nat | m < MAXFILE && m != n ensures Slot(gs, i, FileSlot(m)) == Slot(fs, i, FileSlot(m)) {
      assert FileSlot(m) != t;
    }
    SameProgress(len, op, LinkedOp(fs, op));
    forall p: nat | p < Cur(len, op) ensures FileByte(gs, i, p) == FileByte(fs, i, p) {
      BlockOf(p, Cur(len, op));
      FillByte(fs, gs, i, t, i, p);
    }
    assert FileBytes(gs, i, Cur(len, op)) == FileBytes(fs, i, Cur(len, op));
  }

  lemma SameProgress(len: nat, op: Op, op': Op)
    requires op'.i == op.i && op'.off == op.off && op'.src == op.src && op'.done == op.done
    ensures Cur(len, op') == Cur(len, op) && Extra(len, op') == Extra(len, op) && At(op') == At(op)
  {
  }

  lemma BlockOf(p: nat, len: nat)
    requires p < len
    ensures p / BSIZE < Ceil(len)
  {
  }

  lemma PutOp(fs0: Fs, fs: Fs, gs: Fs, op: Op)
    requires Wf(fs0) && Wf(fs) && Wf(gs) && fs0.sb == fs.sb == gs.sb && Begun(fs0, op) && op.i in fs.mem
      && op.i in gs.mem
    requires Running(fs0, fs, op) && op.stage.Idle? && Writes(op) && SameTree(fs, gs)
    requires Slot(fs, op.i, FileSlot(At(op))) != 0
    requires BytesPut(fs, gs, op.i, At(op), Within(op), Chunk(op))
    ensures Running(fs0, gs, WroteOp(fs, op))
  {
    hide Slot, DInode, FileByte, Splice, Ceil, Solid, Extra, Chunk;
    var i, len, c := op.i, fs0.mem[op.i].size, Chunk(op);
    var op', w := op.(done := op.done + |c|), WroteOp(fs, op);
    SameProgress(len, op', w);
    PutBytesAre(fs0, fs, gs, op);
    PutSolid(fs, len, op);
    SolidStays(fs, gs, i, Ceil(Cur(len, w)), Extra(len, w));
  }

  /** The bytes: one more chunk of src is spliced in. */
  lemma PutBytesAre(fs0: Fs, fs: Fs, gs: Fs, op: Op)
    requires Wf(fs0) && Wf(fs) && Wf(gs) && fs0.sb == fs.sb == gs.sb && Begun(fs0, op) && op.i in fs.mem
      && op.i in gs.mem
    requires Running(fs0, fs, op) && Writes(op)
    requires BytesPut(fs, gs, op.i, At(op), Within(op), Chunk(op))
    ensures var op' := op.(done := op.done + |Chunk(op)|);
      var len := fs0.mem[op.i].size;
      && Cur(len, op') <= MAXBYTES
      && FileBytes(gs, op.i, Cur(len, op')) == Splice(FileBytes(fs0, op.i, len), op.off, op.src[..op'.done])
  {
    hide Slot, DInode, FileByte, Splice, Ceil, Solid, Extra, Chunk, StageOk;
    var i, len, c := op.i, fs0.mem[op.i].size, Chunk(op);
    var op', x := op.(done := op.done + |c|), op.off + op.done;
    assert At(op) * 512 + x % 512 == x;
    SpliceAt(FileBytes(fs, i, Cur(len, op)), x, c, FileBytes(gs, i, Cur(len, op')));
    SpliceTwice(FileBytes(fs0, i, len), op.off, op.src[..op.done], c);
    assert op.src[..op.done] + c == op.src[..op'.done];
  }

  /** The blocks: the one written counts as present from now on. */
  lemma PutSolid(fs: Fs, len: nat, op: Op)
    requires Wf(fs) && op.i < fs.sb.ninodes && Writes(op) && Slot(fs, op.i, FileSlot(At(op))) != 0
    requires Solid(fs, op.i, Ceil(Cur(len, op)), Extra(len, op))
    ensures var op' := op.(done := op.done + |Chunk(op)|);
      Solid(fs, op.i, Ceil(Cur(len, op')), Extra(len, op'))
  {
    hide Slot, Ceil, Chunk, Cur, Extra;
    PutArithmetic(len, op);
    IndNeeded(fs, op.i);
  }

  lemma IndNeeded(fs: Fs, i: nat)
    requires Wf(fs) && i < fs.sb.ninodes
    ensures forall m: nat :: NDIRECT <= m < MAXFILE && Slot(fs, i, FileSlot(m)) != 0 ==> Slot(fs, i, IND) != 0
  {
    hide GetWord, DInode;
  }

  lemma PutArithmetic(len: nat, op: Op)
    requires Writes(op)
    ensures var op' := op.(done := op.done + |Chunk(op)|);
      var n := Ceil(Cur(len, op));
      && At(op) <= n && Ceil(Cur(len, op')) == (if At(op) == n then n + 1 else n)
      && (At(op) == n <==> Extra(len, op))
  {
    hide Chunk;
    AtBound(len, op);
    var x, c := op.off + op.done, |Chunk(op)|;
    assert (x + c - 1) / 512 == x / 512;
    assert Ceil(x + c) == x / 512 + 1;
    CeilMax(len, x);
    CeilMax(len, x + c);
    CeilStep(x);
  }

  lemma CeilMax(a: nat, b: nat)
    ensures Ceil(Max(a, b)) == Max(Ceil(a), Ceil(b))
  {
    assert a <= b ==> (a + 511) / 512 <= (b + 511) / 512;
    assert b <= a ==> (b + 511) / 512 <= (a + 511) / 512;
  }

  lemma CeilStep(x: nat)
    ensures x / BSIZE <= Ceil(x) <= x / BSIZE + 1
  {
  }

  lemma FinishOp(fs0: Fs, fs: Fs, gs: Fs, op: Op)
    requires Wf(fs0) && Wf(fs) && Wf(gs) && fs0.sb == fs.sb == gs.sb && Begun(fs0, op) && op.i in fs.mem
      && op.i in gs.mem
    requires Running(fs0, fs, op) && op.done == |op.src| && op.stage.Idle? && SameSlots(fs, gs)
      && SameKind(fs.mem[op.i], gs.mem[op.i])
    requires op.off + |op.src| > fs.mem[op.i].size ==>
      gs.mem[op.i].size == op.off + |op.src| && DInode(gs, op.i) == gs.mem[op.i]
    requires op.off + |op.src| <= fs.mem[op.i].size ==> gs == fs
    requires forall p: nat :: p < MAXBYTES ==> FileByte(gs, op.i, p) == FileByte(fs, op.i, p)
    ensures Finished(fs0, gs, op)
  {
    hide Slot, DInode, FileByte, Splice, Ceil, NoHoles;
    var i, len := op.i, fs0.mem[op.i].size;
    assert op.src[..op.done] == op.src;
    SolidNoHoles(fs, i, Ceil(Cur(len, op)));
    SolidStays(fs, gs, i, Ceil(Cur(len, op)), false);
    assert FileBytes(gs, i, Cur(len, op)) == FileBytes(fs, i, Cur(len, op));
  }

  lemma SolidNoHoles(fs: Fs, i: nat, n: nat)
    requires Wf(fs) && i < fs.sb.ninodes && Solid(fs, i, n, false)
    ensures NoHoles(fs, i, n)
  {
    hide Slot;
  }

  // ---------------------------------------------------------------- bits

  /** The same bits and the same pending blocks. */
  lemma BitsSame(fs: Fs, gs: Fs, owner: Owner, ops: seq<Op>, ops': seq<Op>)
    requires Wf(fs) && Wf(gs) && gs.sb == fs.sb && BitsOk(fs, owner, ops) && |ops'| == |ops|
    requires forall c: nat :: c < fs.sb.size ==> Used(gs, c) == Used(fs, c)
    requires forall k :: 0 <= k < |ops| ==> ops'[k].stage.Idle? == ops[k].stage.Idle?
    requires forall k :: 0 <= k < |ops| && !ops[k].stage.Idle? ==> ops'[k].stage.b == ops[k].stage.b
    ensures BitsOk(gs, owner, ops')
  {
    hide Used;
    forall b: nat ensures Pends(ops', b) <==> Pends(ops, b) {
      if k :| 0 <= k < |ops| && PendsOp(ops[k], b) { assert PendsOp(ops'[k], b); }
      if k :| 0 <= k < |ops| && PendsOp(ops'[k], b) { assert PendsOp(ops[k], b); }
    }
  }

  lemma BitsMark(fs: Fs, gs: Fs, owner: Owner, ops: seq<Op>, k: nat, b: nat, op: Op)
    requires Wf(fs) && Wf(gs) && gs.sb == fs.sb && BitsOk(fs, owner, ops) && k < |ops| && ops[k].stage.Idle?
    requires b < fs.sb.size && !Used(fs, b) && op.stage.Marked? && op.stage.b == b
    requires forall c: nat :: c < fs.sb.size ==> (Used(gs, c) <==> c == b || Used(fs, c))
    ensures fs.sb.datastart <= b && b !in owner && !Pends(ops, b)
    ensures BitsOk(gs, owner, ops[k := op])
  {
    hide Used;
    var ops' := ops[k := op];
    assert PendsOp(ops'[k], b);
    forall c: nat ensures Pends(ops', c) <==> c == b || Pends(ops, c) {
      if l :| 0 <= l < |ops| && PendsOp(ops[l], c) { assert PendsOp(ops'[l], c); }
      if l :| 0 <= l < |ops| && PendsOp(ops'[l], c) { assert l != k ==> PendsOp(ops[l], c); }
    }
    forall l | 0 <= l < |ops| && !ops[l].stage.Idle? ensures ops[l].stage.b != b {
      assert PendsOp(ops[l], ops[l].stage.b);
    }
  }

  lemma BitsLink(fs: Fs, gs: Fs, owner: Owner, ops: seq<Op>, k: nat, op: Op)
    requires Wf(fs) && Wf(gs) && gs.sb == fs.sb && BitsOk(fs, owner, ops) && k < |ops| && !ops[k].stage.Idle?
    requires op.stage.Idle? && forall c: nat :: c < fs.sb.size ==> Used(gs, c) == Used(fs, c)
    ensures BitsOk(gs, owner[ops[k].stage.b := (ops[k].i, ops[k].stage.t)], ops[k := op])
  {
    hide Used;
    var b := ops[k].stage.b;
    var ops' := ops[k := op];
    forall c: nat ensures Pends(ops, c) <==> c == b || Pends(ops', c) {
      assert c == b ==> PendsOp(ops[k], c);
      if l :| 0 <= l < |ops| && PendsOp(ops'[l], c) { assert PendsOp(ops[l], c); }
      if l :| 0 <= l < |ops| && PendsOp(ops[l], c) { assert l != k ==> PendsOp(ops'[l], c); }
    }
  }

  // ---------------------------------------------------------------- every step keeps the invariant

  /** A step of call k alone, put together. */
  lemma Assemble(fs0: Fs, g: State, g': State, owner: Owner, owner': Owner, k: nat)
    requires Wf(fs0) && Wf(g.fs) && Wf(g'.fs) && fs0.sb == g.fs.sb == g'.fs.sb && k < |g.ops| == |g'.ops|
    requires g'.ops == g.ops[k := g'.ops[k]] && g'.ops[k].i == g.ops[k].i && g'.fs.mem.Keys == g.fs.mem.Keys
    requires SameBut(g.fs, g'.fs, g.ops[k].i) && OnlyLogged(g.fs, g'.fs)
    requires SlotsOwned(g'.fs, owner') && BitsOk(g'.fs, owner', g'.ops) && OpOk(fs0, g'.fs, g'.ops[k])
    requires forall l :: 0 <= l < |g.ops| && l != k && g.ops[l].stage.Zeroed? && g.ops[l].stage.b < g.fs.sb.size ==>
      g'.fs.blk[g.ops[l].stage.b] == g.fs.blk[g.ops[l].stage.b]
    requires Inv(fs0, g, owner)
    ensures Inv(fs0, g', owner')
  {
    hide Slot, SlotsOwned, BitsOk, OpOk, SameFile, OnlyLogged;
    OnlyLoggedTwice(fs0, g.fs, g'.fs);
    forall l | 0 <= l < |g.ops| ensures OpOk(fs0, g'.fs, g'.ops[l]) {
      if l != k {
        OpInode(fs0, g.fs, g.ops[l]);
        assert g.ops[l].i != g.ops[k].i;
        OpStays(fs0, g.fs, g'.fs, g.ops[l]);
      }
    }
    forall j: nat | j < fs0.sb.ninodes && Outside(g'.ops, j) ensures SameFile(fs0, g'.fs, j) {
      assert g'.ops[k].i != j;
      assert Outside(g.ops, j) by {
        forall l | 0 <= l < |g.ops| ensures g.ops[l].i != j { assert g'.ops[l].i != j; }
      }
      SameFileTwice(fs0, g.fs, g'.fs, j);
    }
  }

  lemma OpInode(fs0: Fs, fs: Fs, op: Op)
    requires Wf(fs0) && Wf(fs) && fs.sb == fs0.sb && OpOk(fs0, fs, op)
    ensures op.i in fs.mem && op.i < fs.sb.ninodes && Begun(fs0, op)
    ensures !op.finished ==> Running(fs0, fs, op)
    ensures !op.stage.Idle? ==> !op.finished && StageOk(fs, op)
  {
    hide Slot, DInode, FileByte, Splice, Solid;
  }

  lemma SameFileTwice(fs: Fs, ms: Fs, gs: Fs, j: nat)
    requires Wf(fs) && Wf(ms) && Wf(gs) && fs.sb == ms.sb == gs.sb && j < fs.sb.ninodes
    requires SameFile(fs, ms, j) && SameFile(ms, gs, j)
    ensures SameFile(fs, gs, j)
  {
    hide Slot, DInode, FileByte;
  }

  lemma MarkKeepsInv(fs0: Fs, g: State, owner: Owner, k: nat, b: nat, g': State)
    requires Inv(fs0, g, owner) && Next(g, Mark(k, b), g')
    ensures Inv(fs0, g', owner) && SameBut(g.fs, g'.fs, g.ops[k].i)
  {
    hide Slot, SlotsOwned, OpOk, SameFile, OnlyLogged, OthersKept, SetBit, Used, BitsOk, NextSlot, Solid;
    var op := g.ops[k];
    OpInode(fs0, g.fs, op);
    SetBitKeeps(g.fs, owner, b);
    BitsMark(g.fs, g'.fs, owner, g.ops, k, b, g'.ops[k]);
    MarkOp(fs0, g.fs, g'.fs, op, b);
    PendingInData(g.fs, owner, g.ops);
    Assemble(fs0, g, g', owner, owner, k);
  }

  lemma PendingInData(fs: Fs, owner: Owner, ops: seq<Op>)
    requires Wf(fs) && BitsOk(fs, owner, ops)
    ensures forall l :: 0 <= l < |ops| && !ops[l].stage.Idle? ==>
      fs.sb.datastart <= ops[l].stage.b < fs.sb.size && ops[l].stage.b !in owner
    ensures forall k, l :: 0 <= k < |ops| && 0 <= l < |ops| && k != l && !ops[k].stage.Idle? && !ops[l].stage.Idle? ==>
      ops[k].stage.b != ops[l].stage.b
  {
    hide Used, Pends;
  }

  lemma MarkOp(fs0: Fs, fs: Fs, gs: Fs, op: Op, b: nat)
    requires Wf(fs0) && Wf(fs) && Wf(gs) && fs0.sb == fs.sb == gs.sb && OpOk(fs0, fs, op) && SameFile(fs, gs, op.i)
    requires !op.finished && Writes(op) && op.stage.Idle? && Slot(fs, op.i, NextSlot(fs, op)) == 0 && b < fs.sb.size
    ensures OpOk(fs0, gs, MarkedOp(fs, op, b))
  {
    hide Slot, DInode, FileByte, Splice, Solid, Ceil;
    OpStays(fs0, fs, gs, op);
  }

  lemma ZeroKeepsInv(fs0: Fs, g: State, owner: Owner, k: nat, g': State)
    requires Inv(fs0, g, owner) && Next(g, Zero(k), g')
    ensures Inv(fs0, g', owner) && SameBut(g.fs, g'.fs, g.ops[k].i)
  {
    hide Slot, SlotsOwned, OpOk, SameFile, OnlyLogged, OthersKept, ZeroOut, Used, BitsOk, NextSlot, Solid;
    var op := g.ops[k];
    OpInode(fs0, g.fs, op);
    PendingInData(g.fs, owner, g.ops);
    ZeroOutKeeps(g.fs, owner, op.stage.b);
    BitsSame(g.fs, g'.fs, owner, g.ops, g'.ops);
    ZeroOp(fs0, g.fs, g'.fs, op);
    Assemble(fs0, g, g', owner, owner, k);
  }

  lemma ZeroOp(fs0: Fs, fs: Fs, gs: Fs, op: Op)
    requires Wf(fs0) && Wf(fs) && Wf(gs) && fs0.sb == fs.sb == gs.sb && OpOk(fs0, fs, op) && SameFile(fs, gs, op.i)
    requires op.stage.Marked? && op.stage.b < fs.sb.size && gs.blk[op.stage.b] == ZeroBlock()
    ensures OpOk(fs0, gs, ZeroedOp(op))
  {
    hide Slot, DInode, FileByte, Splice, Solid, Ceil;
    OpStays(fs0, fs, gs, op);
  }

  lemma LinkKeepsInv(fs0: Fs, g: State, owner: Owner, k: nat, g': State) returns (owner': Owner)
    requires Inv(fs0, g, owner) && Next(g, Link(k), g')
    ensures Inv(fs0, g', owner') && SameBut(g.fs, g'.fs, g.ops[k].i)
  {
    hide Slot, SlotsOwned, OpOk, SameFile, OnlyLogged, OthersKept, SetSlot, Used, BitsOk, Solid, Running, FillFrame;
    var op := g.ops[k];
    OpInode(fs0, g.fs, op);
    PendingInData(g.fs, owner, g.ops);
    LinkKeeps(g.fs, owner, op.i, op.stage.t, op.stage.b);
    owner' := owner[op.stage.b := (op.i, op.stage.t)];
    BitsLink(g.fs, g'.fs, owner, g.ops, k, g'.ops[k]);
    LinkOp(fs0, g.fs, g'.fs, op);
    BegunStays(fs0, op, g'.ops[k]);
    StillRunning(fs0, g'.fs, g'.ops[k]);
    Assemble(fs0, g, g', owner, owner', k);
  }

  lemma BegunStays(fs0: Fs, op: Op, op': Op)
    requires Wf(fs0) && Begun(fs0, op) && op'.i == op.i && op'.off == op.off && op'.src == op.src
      && op'.done <= |op.src|
    ensures Begun(fs0, op')
  {
    hide DInode, FileOk;
  }

  lemma StillRunning(fs0: Fs, fs: Fs, op: Op)
    requires Wf(fs0) && Wf(fs) && fs.sb == fs0.sb && Begun(fs0, op) && op.i in fs.mem && !op.finished
    requires Running(fs0, fs, op)
    ensures OpOk(fs0, fs, op)
  {
    hide Running;
  }

  lemma PutIs(g: State, k: nat, g': State)
    requires Next(g, Put(k), g')
    ensures k < |g.ops| && Wf(g.fs)
    ensures var op := g.ops[k];
      && op.i in g.fs.mem && Writes(op) && op.stage.Idle? && 0 < Slot(g.fs, op.i, FileSlot(At(op))) < g.fs.sb.size
      && g' == State(PutFs(g.fs, op), g.ops[k := WroteOp(g.fs, op)])
  {
    hide Slot, WriteBlock, At, Within, Chunk;
  }

  lemma PutOpOk(fs0: Fs, fs: Fs, owner: Owner, op: Op)
    requires Wf(fs0) && Wf(fs) && fs.sb == fs0.sb && SlotsOwned(fs, owner) && OpOk(fs0, fs, op)
    requires op.i in fs.mem && Writes(op) && op.stage.Idle? && 0 < Slot(fs, op.i, FileSlot(At(op))) < fs.sb.size
    ensures var gs := PutFs(fs, op);
      && gs.sb == fs.sb && Wf(gs) && gs.mem == fs.mem && SlotsOwned(gs, owner) && OnlyLogged(fs, gs)
         && SameBut(fs, gs, op.i)
      && (forall c: nat :: c < fs.sb.size ==> Used(gs, c) == Used(fs, c))
      && (forall c: nat :: c < fs.sb.size && c !in owner ==> gs.blk[c] == fs.blk[c])
      && OpOk(fs0, gs, WroteOp(fs, op))
  {
    hide Slot, SlotsOwned, OpOk, SameFile, OnlyLogged, WriteBlock, Used, Solid, Running, Chunk;
    hide SameTree, FileByte, At, Within, BytesPut, SameBut, Begun;
    OpInode(fs0, fs, op);
    PutKeeps(fs, owner, op.i, At(op), Within(op), Chunk(op));
    var gs, op' := PutFs(fs, op), WroteOp(fs, op);
    TreeShape(fs, gs);
    PutOp(fs0, fs, gs, op);
    BegunStays(fs0, op, op');
    StillRunning(fs0, gs, op');
  }

  lemma PutKeepsInv(fs0: Fs, g: State, owner: Owner, k: nat, g': State)
    requires Inv(fs0, g, owner) && Next(g, Put(k), g')
    ensures Inv(fs0, g', owner) && SameBut(g.fs, g'.fs, g.ops[k].i)
  {
    hide Slot, SlotsOwned, OpOk, SameFile, OnlyLogged, OthersKept, PutFs, Used, BitsOk, Chunk, At, Within, Next;
    PutIs(g, k, g');
    PendingInData(g.fs, owner, g.ops);
    PutOpOk(fs0, g.fs, owner, g.ops[k]);
    BitsSame(g.fs, g'.fs, owner, g.ops, g'.ops);
    Assemble(fs0, g, g', owner, owner, k);
  }

  lemma TreeShape(fs: Fs, gs: Fs)
    requires Wf(fs) && Wf(gs) && gs.sb == fs.sb && SameTree(fs, gs)
    ensures gs.mem == fs.mem
  {
  }

  lemma FinishKeepsInv(fs0: Fs, g: State, owner: Owner, k: nat, g': State)
    requires Inv(fs0, g, owner) && Next(g, Finish(k), g')
    ensures Inv(fs0, g', owner) && SameBut(g.fs, g'.fs, g.ops[k].i)
  {
    hide Slot, SlotsOwned, SameFile, OnlyLogged, OthersKept, Extend, Used, BitsOk, Solid, FileByte, DInode;
    var op := g.ops[k];
    OpInode(fs0, g.fs, op);
    PendingInData(g.fs, owner, g.ops);
    ExtendKeeps(g.fs, owner, op.i, op.off + |op.src|);
    BitsSame(g.fs, g'.fs, owner, g.ops, g'.ops);
    FinishOp(fs0, g.fs, g'.fs, op);
    Assemble(fs0, g, g', owner, owner, k);
  }

  lemma StepKeepsInv(fs0: Fs, g: State, owner: Owner, step: Step, g': State) returns (owner': Owner)
    requires Inv(fs0, g, owner) && Next(g, step, g')
    ensures Inv(fs0, g', owner') && step.k < |g.ops| && SameBut(g.fs, g'.fs, g.ops[step.k].i)
    ensures |g'.ops| == |g.ops| && forall k :: 0 <= k < |g.ops| && k != step.k ==> g'.ops[k] == g.ops[k]
  {
    StepShape(g, step, g');
    hide Inv, Next, SameBut;
    owner' := owner;
    match step
    case Mark(k, b) => MarkKeepsInv(fs0, g, owner, k, b, g');
    case Zero(k) => ZeroKeepsInv(fs0, g, owner, k, g');
    case Link(k) => owner' := LinkKeepsInv(fs0, g, owner, k, g');
    case Put(k) => PutKeepsInv(fs0, g, owner, k, g');
    case Finish(k) => FinishKeepsInv(fs0, g, owner, k, g');
  }

  lemma StepShape(g: State, step: Step, g': State)
    requires Next(g, step, g')
    ensures step.k < |g.ops| == |g'.ops| && forall k :: 0 <= k < |g.ops| && k != step.k ==> g'.ops[k] == g.ops[k]
  {
    hide Slot, Used;
  }

  // ---------------------------------------------------------------- runs

  /** Calls that writei does not refuse, on different whole files, about to begin. */
  ghost predicate Starts(fs: Fs, ops: seq<Op>)
    requires Wf(fs)
  {
    && Inodes(ops)
    && forall k :: 0 <= k < |ops| ==>
         var op := ops[k];
         && op.i in fs.mem && FileOk(fs, op.i) && !WriteRefused(fs, op.i, op.off, |op.src|)
         && op.done == 0 && op.stage.Idle? && !op.finished && op.logged == {}
  }

  lemma StartOk(fs: Fs, op: Op)
    requires Wf(fs) && op.i in fs.mem && FileOk(fs, op.i) && !WriteRefused(fs, op.i, op.off, |op.src|)
    requires op.done == 0 && op.stage.Idle? && !op.finished && op.logged == {} && DInode(fs, op.i) == fs.mem[op.i]
    ensures OpOk(fs, fs, op)
  {
    hide Slot, DInode, FileByte, Splice, Ceil;
    var len := fs.mem[op.i].size;
    assert Cur(len, op) == len && op.src[..0] == [];
    SpliceAt(FileBytes(fs, op.i, len), op.off, [], FileBytes(fs, op.i, len));
  }

  lemma InitialInv(fs: Fs, owner: Owner, ops: seq<Op>)
    requires Owned(fs, owner) && InSync(fs) && Starts(fs, ops)
    ensures Inv(fs, State(fs, ops), owner)
  {
    hide Slot, SlotsOwned, DInode, FileByte, OpOk, Used, FileOk;
    forall k | 0 <= k < |ops| ensures OpOk(fs, fs, ops[k]) { StartOk(fs, ops[k]); }
    forall b: nat ensures !Pends(ops, b) {}
  }

  /** gs is the state before each step and after the last. */
  ghost predicate IsRun(gs: seq<State>, steps: seq<Step>) {
    |gs| == |steps| + 1 && forall i :: 0 <= i < |steps| ==> Next(gs[i], steps[i], gs[i + 1])
  }

  lemma {:induction false} RunKeepsInv(fs: Fs, owner: Owner, gs: seq<State>, steps: seq<Step>, i: nat)
    returns (owner': Owner)
    requires Owned(fs, owner) && InSync(fs) && IsRun(gs, steps) && gs[0].fs == fs && Starts(fs, gs[0].ops) && i < |gs|
    ensures Inv(fs, gs[i], owner')
  {
    hide Inv, Next, Owned, InSync, Starts;
    if i == 0 {
      InitialInv(fs, owner, gs[0].ops);
      owner' := owner;
    } else {
      var owner1 := RunKeepsInv(fs, owner, gs, steps, i - 1);
      owner' := StepKeepsInv(fs, gs[i - 1], owner1, steps[i - 1], gs[i]);
    }
  }

  /** No call ever waits for another: an unfinished call can take a step, unless every block is in use. */
  lemma Progress(fs0: Fs, g: State, owner: Owner, k: nat) returns (step: Step, g': State)
    requires Inv(fs0, g, owner) && k < |g.ops| && !g.ops[k].finished
    ensures (step.k == k && Next(g, step, g'))
      || (g.ops[k].stage.Idle? && g.ops[k].done < |g.ops[k].src| && forall b: nat :: b < g.fs.sb.size ==> Used(g.fs, b))
  {
    hide Slot, DInode, FileByte, Splice, Used, OthersKept, OnlyLogged, Solid, BitsOk;
    var op := g.ops[k];
    assert OpOk(fs0, g.fs, op);
    step, g' := Finish(k), g;
    IndInData(g.fs, owner, op.i);
    match op.stage
    case Marked(b, t) =>
      step, g' := Zero(k), State(ZeroOut(g.fs, b), g.ops[k := ZeroedOp(op)]);
    case Zeroed(b, t) =>
      step, g' := Link(k), State(SetSlot(g.fs, op.i, t, b), g.ops[k := LinkedOp(g.fs, op)]);
    case Idle =>
      if op.done == |op.src| {
        g' := State(if |op.src| > 0 then Extend(g.fs, op.i, op.off + |op.src|) else g.fs,
                    g.ops[k := FinishedOp(g.fs, op)]);
      } else if Slot(g.fs, op.i, NextSlot(g.fs, op)) == 0 {
        if b: nat :| b < g.fs.sb.size && !Used(g.fs, b) {
          step, g' := Mark(k, b), State(SetBit(g.fs, b), g.ops[k := MarkedOp(g.fs, op, b)]);
        }
      } else {
        SlotInData(g.fs, owner, op.i, NextSlot(g.fs, op));
        step, g' := Put(k), State(PutFs(g.fs, op), g.ops[k := WroteOp(g.fs, op)]);
      }
  }

  lemma SlotInData(fs: Fs, owner: Owner, i: nat, s: nat)
    requires Wf(fs) && SlotsOwned(fs, owner) && i < fs.sb.ninodes && s < SLOTS && Slot(fs, i, s) != 0
    ensures Slot(fs, i, s) < fs.sb.size
  {
    hide Slot;
    assert OwnedAt(fs, Slot(fs, i, s), i, s);
  }

  predicate AllFinished(ops: seq<Op>) {
    forall k :: 0 <= k < |ops| ==> ops[k].finished
  }

  /** Each call has spliced its bytes into its file, whose kind and links stay; all other files are as they were. */
  ghost predicate AllWritten(fs: Fs, gs: Fs, ops: seq<Op>)
    requires Wf(fs) && Wf(gs) && gs.sb == fs.sb
  {
    && (forall k :: 0 <= k < |ops| ==>
          var op := ops[k];
          && op.i < fs.sb.ninodes && op.i in fs.mem && FileOk(fs, op.i) && op.off <= |Contents(fs, op.i)|
          && FileOk(gs, op.i) && Contents(gs, op.i) == Splice(Contents(fs, op.i), op.off, op.src)
          && SameKind(fs.mem[op.i], Node(gs, op.i)))
    && (forall j: nat :: j < fs.sb.ninodes && Outside(ops, j) ==> Node(gs, j) == Node(fs, j))
    && forall j: nat :: j < fs.sb.ninodes && Outside(ops, j) && FileOk(fs, j) ==>
         FileOk(gs, j) && Contents(gs, j) == Contents(fs, j)
  }

  lemma DoneIs(fs: Fs, g: State, owner: Owner)
    requires Inv(fs, g, owner) && AllFinished(g.ops) && InSync(fs)
    ensures Owned(g.fs, owner) && InSync(g.fs) && OnlyLogged(fs, g.fs) && AllWritten(fs, g.fs, g.ops)
  {
    hide Slot, SlotsOwned, DInode, FileByte, Used, Splice, OnlyLogged;
    forall k | 0 <= k < |g.ops| ensures Finished(fs, g.fs, g.ops[k]) { assert OpOk(fs, g.fs, g.ops[k]); }
    forall b: nat ensures !Pends(g.ops, b) {}
    forall j | j in g.fs.mem ensures DInode(g.fs, j) == g.fs.mem[j] {
      if Outside(g.ops, j) {
        assert SameFile(fs, g.fs, j);
      } else {
        var k :| 0 <= k < |g.ops| && g.ops[k].i == j;
        assert Finished(fs, g.fs, g.ops[k]);
      }
    }
    forall j: nat | j < fs.sb.ninodes && Outside(g.ops, j) && FileOk(fs, j)
      ensures FileOk(g.fs, j) && Contents(g.fs, j) == Contents(fs, j)
    {
      OutsideKeeps(fs, g.fs, j);
    }
  }

  lemma OutsideKeeps(fs: Fs, gs: Fs, j: nat)
    requires Wf(fs) && Wf(gs) && gs.sb == fs.sb && j < fs.sb.ninodes && SameFile(fs, gs, j) && FileOk(fs, j)
    ensures FileOk(gs, j) && Contents(gs, j) == Contents(fs, j)
  {
    hide Slot, DInode, FileByte;
    SolidStays(fs, gs, j, Ceil(Node(fs, j).size), false);
    assert FileBytes(gs, j, Node(fs, j).size) == FileBytes(fs, j, Node(fs, j).size);
  }

  /** Any interleaving of writei calls on different inodes, run to its end: block ownership holds, each
      file has its bytes spliced as if its call had run alone, and only logged blocks changed. */
  lemma InterleavingRefines(fs: Fs, owner: Owner, gs: seq<State>, steps: seq<Step>) returns (owner': Owner)
    requires Owned(fs, owner) && InSync(fs) && IsRun(gs, steps) && gs[0].fs == fs && Starts(fs, gs[0].ops)
    requires AllFinished(gs[|steps|].ops)
    ensures var g := gs[|steps|];
      && Owned(g.fs, owner') && g.fs.sb == fs.sb && InSync(g.fs) && OnlyLogged(fs, g.fs) && AllWritten(fs, g.fs, g.ops)
  {
    hide Next, Owned, InSync, Starts, AllWritten, OnlyLogged;
    owner' := RunKeepsInv(fs, owner, gs, steps, |steps|);
    DoneIs(fs, gs[|steps|], owner');
  }

  /** And its commit is atomic: after a crash anywhere in it, any crashes while recovering, and mounting,
      all files are as before the first call, or all are as after the last. */
  lemma CrashSafeInterleaving(l: Layout, fs: Fs, owner: Owner, gs: seq<State>, steps: seq<Step>, blocks: seq<nat>,
    step: nat, ks: seq<nat>)
    returns (owner': Owner)
    requires Owned(fs, owner) && InSync(fs) && fs.logged == {} && fs.sb.ninodes > 0
    requires IsRun(gs, steps) && gs[0].fs == fs && Starts(fs, gs[0].ops) && AllFinished(gs[|steps|].ops)
    requires l.start + l.size <= fs.sb.inodestart && 0 < l.size && LogEmpty(l, fs.blk)
    requires Lists(blocks, gs[|steps|].fs.logged) && |blocks| <= LOGSIZE && |blocks| < l.size
    requires step <= CommitWrites(blocks)
    ensures var g := gs[|steps|];
      && |g.fs.blk| == |fs.blk| && l.Loggable(fs.blk, blocks)
      && Recoverable(l, CommitImage(l, fs.blk, blocks, g.fs.blk, step))
      && var crashed := CrashedRecoveries(l, CommitImage(l, fs.blk, blocks, g.fs.blk, step), ks);
         && Recoverable(l, crashed)
         && var m := Mount(fs.sb, Recover(l, crashed));
            && Owned(m, owner')
            && if step <= |blocks| then SameFiles(fs, m) else AllWritten(fs, m, g.ops)
  {
    hide Next, InSync, Starts, CommitImage, CrashedRecoveries, Recover, Recoverable, LogEmpty, SlotsOwned, BitsMatch;
    hide SameFiles, AllWritten;
    var g := gs[|steps|];
    var owner1 := InterleavingRefines(fs, owner, gs, steps);
    CrashSafeChange(l, fs, owner, g.fs, owner1, blocks, step, ks);
    owner' := if step <= |blocks| then owner else owner1;
    var m := Mount(fs.sb, Recover(l, CrashedRecoveries(l, CommitImage(l, fs.blk, blocks, g.fs.blk, step), ks)));
    if step > |blocks| { WrittenMounted(fs, g.fs, m, g.ops); }
  }

  lemma WrittenMounted(fs: Fs, gs: Fs, m: Fs, ops: seq<Op>)
    requires Wf(fs) && Wf(gs) && Wf(m) && fs.sb == gs.sb == m.sb && AllWritten(fs, gs, ops) && SameFiles(gs, m)
    ensures AllWritten(fs, m, ops)
  {
    hide FileOk, FileByte, DInode, Splice;
  }
}
