/** The log bound of a filewrite transaction is met, and a file with a hole would exceed it:
    what writei logs on a disk whose few free blocks lie under different bitmap blocks. */
module FsTight {
  import opened Commons
  import opened Blocks
  import opened FsLayout
  import opened FsState
  import opened FsAlloc
  import opened FsFile
  import opened FsWrite

  /** The free blocks, in order, each under its own bitmap block. */
  ghost predicate Spread(fs: Fs, owner: Owner, i: nat, free: seq<nat>) {
    && Owned(fs, owner) && i in fs.mem
    && (forall k :: 0 <= k < |free| ==> free[k] < fs.sb.size && !Used(fs, free[k]))
    && (forall j, k :: 0 <= j < k < |free| ==> free[j] / BPB < free[k] / BPB)
    && forall b: nat :: b < fs.sb.size && !Used(fs, b) ==> b in free
  }

  lemma FirstIs(fs: Fs, owner: Owner, i: nat, free: seq<nat>)
    requires Spread(fs, owner, i, free) && free != []
    ensures FirstFree(fs, 0) == Some(free[0])
  {
    hide BitAt, SlotsOwned, BitsMatch;
    var r := FirstFree(fs, 0);
    assert !Used(fs, free[0]);
    assert r.Some? && r.value <= free[0];
    assert r.value in free;
    var k :| 0 <= k < |free| && free[k] == r.value;
  }

  /** Filling an absent slot takes the first free block and logs it with its bitmap block. */
  lemma FillTakes(fs: Fs, owner: Owner, i: nat, s: nat, free: seq<nat>) returns (owner': Owner)
    requires Spread(fs, owner, i, free) && free != [] && s < SLOTS && (s > IND ==> Slot(fs, i, IND) != 0)
      && Slot(fs, i, s) == 0
    ensures s > IND ==> Slot(fs, i, IND) < fs.sb.size
    ensures Fill(fs, i, s).Some?
    ensures var gs := Fill(fs, i, s).value;
      && Spread(gs, owner', i, free[1..]) && FillFrame(fs, gs, i, s) && Slot(gs, i, s) == free[0]
      && gs.logged == fs.logged + {fs.sb.BBlock(free[0]), free[0]} + if s > IND then {Slot(fs, i, IND)} else {}
  {
    hide Slot, SetSlot, DInode, BitAt, SlotsOwned;
    FirstIs(fs, owner, i, free);
    PresentInRange(fs, owner);
    var b := free[0];
    owner' := owner[b := (i, s)];
    FillFresh(fs, owner, i, s, b);
    var gs := SetSlot(Mark(fs, b), i, s, b);
    assert Fill(fs, i, s) == Some(gs);
    IndIsSlot(fs, i);
    SetSlotLogs(Mark(fs, b), i, s, b);
    forall c: nat | c < fs.sb.size ensures Used(gs, c) <==> c == b || Used(fs, c) {
    }
    StillSpread(fs, owner, gs, owner', i, free);
  }

  lemma StillSpread(fs: Fs, owner: Owner, gs: Fs, owner': Owner, i: nat, free: seq<nat>)
    requires Spread(fs, owner, i, free) && free != [] && Owned(gs, owner') && gs.sb == fs.sb && i in gs.mem
    requires forall c: nat :: c < fs.sb.size ==> (Used(gs, c) <==> c == free[0] || Used(fs, c))
    ensures Spread(gs, owner', i, free[1..])
  {
    hide BitAt, SlotsOwned, BitsMatch, Slot, Used;
    forall k | 0 <= k < |free[1..]| ensures free[1..][k] < gs.sb.size && !Used(gs, free[1..][k]) {
      assert free[0] / BPB < free[k + 1] / BPB;
    }
    forall b: nat | b < gs.sb.size && !Used(gs, b) ensures b in free[1..] {
      assert b in free;
      var k :| 0 <= k < |free| && free[k] == b;
      assert free[1..][k - 1] == b;
    }
  }

  // ---------------------------------------------------------------- chunks

  /** A block and its bitmap block. */
  function Pair(fs: Fs, b: nat): set<nat> {
    {fs.sb.BBlock(b), b}
  }

  /** What writing one chunk of file i did: the slots it filled and the blocks it logged. */
  ghost predicate Wrote(fs: Fs, gs: Fs, i: nat, filled: set<nat>, blocks: set<nat>)
    requires Wf(fs) && i < fs.sb.ninodes
  {
    && Wf(gs) && gs.sb == fs.sb && i in gs.mem && i in fs.mem && gs.mem[i].size == fs.mem[i].size
    && gs.logged == fs.logged + blocks
    && forall t: nat :: t < SLOTS && t !in filled ==> Slot(gs, i, t) == Slot(fs, i, t)
  }

  /** Bytes written into a block that the file has. */
  lemma PutTakes(fs: Fs, owner: Owner, i: nat, n: nat, o: nat, data: seq<byte>, free: seq<nat>)
    requires Spread(fs, owner, i, free) && n < MAXFILE && o + |data| <= BSIZE && Slot(fs, i, FileSlot(n)) != 0
    ensures Slot(fs, i, FileSlot(n)) < fs.sb.size
    ensures var gs := WriteBlock(fs, Slot(fs, i, FileSlot(n)), o, data);
      Spread(gs, owner, i, free) && Wrote(fs, gs, i, {}, {Slot(fs, i, FileSlot(n))})
  {
    hide Slot, DInode, BitAt, SlotsOwned, PutBytes, FileByte;
    PresentInRange(fs, owner);
    WriteBlockKeeps(fs, owner, i, n, o, data);
  }

  /** A chunk in a block that is there. */
  lemma PresentChunk(fs: Fs, owner: Owner, i: nat, off: nat, data: seq<byte>, free: seq<nat>)
    requires Spread(fs, owner, i, free) && off % BSIZE + |data| <= BSIZE && off / BSIZE < NDIRECT
      && Slot(fs, i, off / BSIZE) != 0
    ensures WriteChunk(fs, i, off, data).Some?
    ensures var gs := WriteChunk(fs, i, off, data).value;
      Spread(gs, owner, i, free) && Wrote(fs, gs, i, {}, {Slot(fs, i, off / BSIZE)})
  {
    hide Slot, DInode, BitAt, SlotsOwned, BitsMatch, FirstFree, WriteBlock;
    PutTakes(fs, owner, i, off / BSIZE, off % BSIZE, data, free);
    assert Bmap(fs, i, off / BSIZE) == Some(fs);
  }

  /** A chunk in a direct block that is missing. */
  lemma DirectChunk(fs: Fs, owner: Owner, i: nat, off: nat, data: seq<byte>, free: seq<nat>) returns (owner': Owner)
    requires Spread(fs, owner, i, free) && free != [] && off % BSIZE + |data| <= BSIZE && off / BSIZE < NDIRECT
      && Slot(fs, i, off / BSIZE) == 0
    ensures WriteChunk(fs, i, off, data).Some?
    ensures var gs := WriteChunk(fs, i, off, data).value;
      Spread(gs, owner', i, free[1..]) && Wrote(fs, gs, i, {off / BSIZE}, {fs.sb.BBlock(free[0]), free[0]})
  {
    hide Slot, DInode, BitAt, SlotsOwned, BitsMatch, FirstFree, WriteBlock, Fill, Used;
    var n := off / BSIZE;
    owner' := FillTakes(fs, owner, i, n, free);
    var ms := Fill(fs, i, n).value;
    PutTakes(ms, owner', i, n, off % BSIZE, data, free[1..]);
    assert Bmap(fs, i, n) == Some(ms);
  }

  /** A chunk in a missing block behind the indirect block. */
  lemma IndirectChunk(fs: Fs, owner: Owner, i: nat, off: nat, data: seq<byte>, free: seq<nat>) returns (owner': Owner)
    requires Spread(fs, owner, i, free) && free != [] && off % BSIZE + |data| <= BSIZE
      && NDIRECT <= off / BSIZE < MAXFILE
    requires Slot(fs, i, IND) != 0 && Slot(fs, i, off / BSIZE + 1) == 0
    ensures WriteChunk(fs, i, off, data).Some?
    ensures var gs := WriteChunk(fs, i, off, data).value;
      && Spread(gs, owner', i, free[1..])
      && Wrote(fs, gs, i, {off / BSIZE + 1}, {fs.sb.BBlock(free[0]), free[0], Slot(fs, i, IND)})
  {
    hide Slot, DInode, BitAt, SlotsOwned, BitsMatch, FirstFree, WriteBlock, Fill, Used;
    var n := off / BSIZE;
    PresentInRange(fs, owner);
    FillPresent(fs, i);
    owner' := FillTakes(fs, owner, i, n + 1, free);
    var ms := Fill(fs, i, n + 1).value;
    PutTakes(ms, owner', i, n, off % BSIZE, data, free[1..]);
    assert Bmap(fs, i, n) == Some(ms);
  }

  /** The first chunk behind the direct blocks: the indirect block is allocated, too. */
  lemma FirstIndirectChunk(fs: Fs, owner: Owner, i: nat, off: nat, data: seq<byte>, free: seq<nat>)
    returns (owner': Owner, gs: Fs)
    requires Spread(fs, owner, i, free) && |free| > 1 && off % BSIZE + |data| <= BSIZE
      && NDIRECT <= off / BSIZE < MAXFILE
    requires Slot(fs, i, IND) == 0 && Slot(fs, i, off / BSIZE + 1) == 0
    ensures Spread(gs, owner', i, free[2..]) && gs.sb == fs.sb && Slot(gs, i, IND) == free[0] != 0
    ensures Wrote(fs, gs, i, {IND, off / BSIZE + 1}, Pair(fs, free[0]) + Pair(fs, free[1]))
    ensures WriteChunk(fs, i, off, data) == Some(gs)
  {
    hide Slot, DInode, BitAt, SlotsOwned, BitsMatch, FirstFree, WriteBlock, Fill, Used;
    var n := off / BSIZE;
    var owner1 := FillTakes(fs, owner, i, IND, free);
    var ms := Fill(fs, i, IND).value;
    PresentInRange(ms, owner1);
    owner' := FillTakes(ms, owner1, i, n + 1, free[1..]);
    var hs := Fill(ms, i, n + 1).value;
    assert free[1..][1..] == free[2..];
    PutTakes(hs, owner', i, n, off % BSIZE, data, free[2..]);
    assert Bmap(fs, i, n) == Some(hs);
    gs := WriteBlock(hs, Slot(hs, i, n + 1), off % BSIZE, data);
  }

  // ---------------------------------------------------------------- the whole write

  /** The part behind the direct blocks: four blocks are allocated, and each is logged with its bitmap block. */
  lemma TailLogs(fs: Fs, owner: Owner, i: nat, src: seq<byte>, free: seq<nat>)
    requires Spread(fs, owner, i, free) && |free| >= 4 && |src| == 2 * BSIZE + 1
    requires forall t: nat :: IND <= t <= 15 ==> Slot(fs, i, t) == 0
    ensures WriteLoop(fs, i, 12 * BSIZE, src).Some?
    ensures var gs := WriteLoop(fs, i, 12 * BSIZE, src).value;
      && gs.mem[i].size == fs.mem[i].size
      && gs.logged == fs.logged + Pair(fs, free[0]) + Pair(fs, free[1]) + Pair(fs, free[2]) + Pair(fs, free[3])
  {
    hide Slot, DInode, BitAt, SlotsOwned, BitsMatch, WriteChunk, Used, Spread, WriteLoop;
    SpreadWf(fs, owner, i, free);
    var off := 12 * BSIZE;
    var owner1, fs1 := FirstIndirectChunk(fs, owner, i, off, src[..BSIZE], free);
    LoopStep(fs, i, off, src, BSIZE, fs1);
    var src1 := src[BSIZE..];
    var owner2 := IndirectChunk(fs1, owner1, i, off + BSIZE, src1[..BSIZE], free[2..]);
    var fs2 := WriteChunk(fs1, i, off + BSIZE, src1[..BSIZE]).value;
    LoopStep(fs1, i, off + BSIZE, src1, BSIZE, fs2);
    var src2 := src1[BSIZE..];
    assert free[2..][1..] == free[3..];
    var owner3 := IndirectChunk(fs2, owner2, i, off + 2 * BSIZE, src2[..1], free[3..]);
    var fs3 := WriteChunk(fs2, i, off + 2 * BSIZE, src2[..1]).value;
    LoopStep(fs2, i, off + 2 * BSIZE, src2, 1, fs3);
    LoopEnds(fs3, i, off + 2 * BSIZE + 1, src2[1..]);
  }

  lemma SpreadWf(fs: Fs, owner: Owner, i: nat, free: seq<nat>)
    requires Spread(fs, owner, i, free)
    ensures Wf(fs) && i in fs.mem
  {
  }

  const START: nat := 11 * BSIZE + 1

  /** After the loop writei updates the size, which logs the inode block. */
  lemma SizeLogs(fs: Fs, i: nat, src: seq<byte>, gs: Fs)
    requires Wf(fs) && i in fs.mem && fs.mem[i].size == START && |src| == WRITEMAX
    requires WriteLoop(fs, i, START, src) == Some(gs) && gs.mem[i].size == START
    ensures !WriteRefused(fs, i, START, |src|) && Writei(fs, i, START, src).Some?
    ensures Writei(fs, i, START, src).value.logged == gs.logged + {fs.sb.IBlock(i)}
  {
    hide WriteLoop, PutInode;
  }

  /** What the loop logs when block 11 is there. */
  lemma LoopLogsNoHole(fs: Fs, owner: Owner, i: nat, src: seq<byte>, free: seq<nat>)
    requires Spread(fs, owner, i, free) && |free| >= 4 && |src| == WRITEMAX && NoHoles(fs, i, 12)
    ensures WriteLoop(fs, i, START, src).Some? && Slot(fs, i, 11) != 0
    ensures var gs := WriteLoop(fs, i, START, src).value;
      && gs.mem[i].size == fs.mem[i].size
      && gs.logged == fs.logged + {Slot(fs, i, 11)} + Pair(fs, free[0]) + Pair(fs, free[1]) + Pair(fs, free[2])
           + Pair(fs, free[3])
  {
    hide Slot, DInode, BitAt, SlotsOwned, BitsMatch, WriteChunk, Used, WriteLoop, Spread;
    SpreadWf(fs, owner, i, free);
    assert Slot(fs, i, FileSlot(11)) != 0;
    forall t: nat | IND <= t <= 15 ensures Slot(fs, i, t) == 0 {
      assert t > IND ==> Slot(fs, i, FileSlot(t - 1)) == 0;
    }
    PresentChunk(fs, owner, i, START, src[..511], free);
    var ms := WriteChunk(fs, i, START, src[..511]).value;
    LoopStep(fs, i, START, src, 511, ms);
    TailLogs(ms, owner, i, src[511..], free);
  }

  /** What it logs when block 11 is a hole. */
  lemma LoopLogsHole(fs: Fs, owner: Owner, i: nat, src: seq<byte>, free: seq<nat>)
    requires Spread(fs, owner, i, free) && |free| >= 5 && |src| == WRITEMAX && NoHoles(fs, i, 11)
    ensures WriteLoop(fs, i, START, src).Some?
    ensures var gs := WriteLoop(fs, i, START, src).value;
      && gs.mem[i].size == fs.mem[i].size
      && gs.logged == fs.logged + Pair(fs, free[0]) + Pair(fs, free[1]) + Pair(fs, free[2]) + Pair(fs, free[3])
           + Pair(fs, free[4])
  {
    hide Slot, DInode, BitAt, SlotsOwned, BitsMatch, WriteChunk, Used, WriteLoop, Spread;
    SpreadWf(fs, owner, i, free);
    assert Slot(fs, i, FileSlot(11)) == 0;
    forall t: nat | IND <= t <= 15 ensures Slot(fs, i, t) == 0 {
      assert t > IND ==> Slot(fs, i, FileSlot(t - 1)) == 0;
    }
    var owner1 := DirectChunk(fs, owner, i, START, src[..511], free);
    var ms := WriteChunk(fs, i, START, src[..511]).value;
    LoopStep(fs, i, START, src, 511, ms);
    TailLogs(ms, owner1, i, src[511..], free[1..]);
  }

  /** With no hole the transaction logs exactly MAXOPBLOCKS blocks. */
  lemma BoundIsMet(fs: Fs, owner: Owner, i: nat, src: seq<byte>, free: seq<nat>)
    requires Spread(fs, owner, i, free) && |free| == 4 && fs.logged == {} && |src| == WRITEMAX
    requires fs.mem[i].size == START && FileOk(fs, i)
    ensures !WriteRefused(fs, i, START, |src|) && Writei(fs, i, START, src).Some?
    ensures |Writei(fs, i, START, src).value.logged| == MAXOPBLOCKS
  {
    hide Slot, Writei, WriteLoop, Spread, NoHoles, Pair;
    SpreadWf(fs, owner, i, free);
    LoopLogsNoHole(fs, owner, i, src, free);
    SizeLogs(fs, i, src, WriteLoop(fs, i, START, src).value);
    var first := {Slot(fs, i, 11)};
    assert fs.logged + first == first;
    DistinctPairs(fs, owner, i, free);
    AOutside(fs, owner, i, 11, free);
    CountAll(fs, i, first, free);
  }

  /** With block 11 missing although the size covers it, the same write logs one block too many. */
  lemma HoleExceedsBound(fs: Fs, owner: Owner, i: nat, src: seq<byte>, free: seq<nat>)
    requires Spread(fs, owner, i, free) && |free| == 5 && fs.logged == {} && |src| == WRITEMAX
    requires fs.mem[i].size == START && NoHoles(fs, i, 11)
    ensures !WriteRefused(fs, i, START, |src|) && Writei(fs, i, START, src).Some?
    ensures |Writei(fs, i, START, src).value.logged| == MAXOPBLOCKS + 1
  {
    hide Slot, Writei, WriteLoop, Spread, NoHoles, Pair;
    SpreadWf(fs, owner, i, free);
    LoopLogsHole(fs, owner, i, src, free);
    SizeLogs(fs, i, src, WriteLoop(fs, i, START, src).value);
    var first := Pair(fs, free[0]);
    assert fs.logged + first == first;
    DistinctPairs(fs, owner, i, free);
    CountAll(fs, i, first, free[1..]);
  }

  /** The inode block, the blocks of `first` and the four pairs are all different. */
  lemma CountAll(fs: Fs, i: nat, first: set<nat>, free: seq<nat>)
    requires Wf(fs) && i < fs.sb.ninodes && |free| == 4
    requires forall j, k :: 0 <= j < k < 4 ==> Pair(fs, free[j]) !! Pair(fs, free[k])
    requires forall k :: 0 <= k < 4 ==>
      first !! Pair(fs, free[k]) && |Pair(fs, free[k])| == 2 && fs.sb.IBlock(i) !in Pair(fs, free[k])
    requires fs.sb.IBlock(i) !in first
    ensures |first + Pair(fs, free[0]) + Pair(fs, free[1]) + Pair(fs, free[2]) + Pair(fs, free[3])
      + {fs.sb.IBlock(i)}| == |first| + 9
  {
    hide Pair;
    var p0, p1, p2, p3 := Pair(fs, free[0]), Pair(fs, free[1]), Pair(fs, free[2]), Pair(fs, free[3]);
    assert first !! p0 && (first + p0) !! p1 && (first + p0 + p1) !! p2 && (first + p0 + p1 + p2) !! p3;
    assert |first + p0| == |first| + 2;
    assert |first + p0 + p1| == |first| + 4;
    assert |first + p0 + p1 + p2| == |first| + 6;
    assert |first + p0 + p1 + p2 + p3| == |first| + 8;
  }

  lemma DistinctPairs(fs: Fs, owner: Owner, i: nat, free: seq<nat>)
    requires Spread(fs, owner, i, free)
    ensures forall j, k :: 0 <= j < k < |free| ==> Pair(fs, free[j]) !! Pair(fs, free[k])
    ensures forall k :: 0 <= k < |free| ==> |Pair(fs, free[k])| == 2 && fs.sb.IBlock(i) !in Pair(fs, free[k])
  {
    hide Slot, DInode, BitAt, SlotsOwned;
    forall k | 0 <= k < |free|
      ensures fs.sb.datastart <= free[k] && fs.sb.IBlock(i) < fs.sb.BBlock(free[k]) < fs.sb.datastart
    {
      Regions(fs.sb, i, free[k]);
    }
  }

  lemma AOutside(fs: Fs, owner: Owner, i: nat, s: nat, free: seq<nat>)
    requires Spread(fs, owner, i, free) && s < SLOTS && Slot(fs, i, s) != 0
    ensures fs.sb.IBlock(i) != Slot(fs, i, s) && forall k :: 0 <= k < |free| ==> Slot(fs, i, s) !in Pair(fs, free[k])
  {
    hide Slot, DInode, BitAt;
    var a := Slot(fs, i, s);
    assert OwnedAt(fs, a, i, s);
    Regions(fs.sb, i, a);
    forall k | 0 <= k < |free| ensures a !in Pair(fs, free[k]) { Regions(fs.sb, i, free[k]); }
  }
}
