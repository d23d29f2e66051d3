/** How much disk space writei needs: it panics in balloc exactly when the free blocks do not suffice. */
module FsSpace {
  import opened Commons
  import opened Blocks
  import opened FsLayout
  import opened FsState
  import opened FsAlloc
  import opened FsFile
  import opened FsWrite

  /** The blocks whose bitmap bit is clear. */
  ghost function FreeSet(fs: Fs): set<nat>
    requires Wf(fs)
  {
    set b: nat | b < fs.sb.size && !Used(fs, b)
  }

  lemma FillSpace(fs: Fs, owner: Owner, i: nat, s: nat)
    requires Owned(fs, owner) && i in fs.mem && s < SLOTS && (s > IND ==> Slot(fs, i, IND) != 0) && Slot(fs, i, s) == 0
    ensures s > IND ==> Slot(fs, i, IND) < fs.sb.size
    ensures Fill(fs, i, s).Some? <==> FreeSet(fs) != {}
    ensures Fill(fs, i, s).Some? ==> |FreeSet(Fill(fs, i, s).value)| == |FreeSet(fs)| - 1
  {
    hide Slot, SetSlot, DInode, BitAt, SlotsOwned;
    PresentInRange(fs, owner);
    var r := FirstFree(fs, 0);
    if r.Some? {
      var b := r.value;
      assert b in FreeSet(fs);
      FillFresh(fs, owner, i, s, b);
      var gs := Fill(fs, i, s).value;
      assert FreeSet(gs) == FreeSet(fs) - {b};
    }
  }

  /** Blocks that bmap has to allocate for block bn of file i. */
  function Missing(fs: Fs, i: nat, bn: nat): nat
    requires Wf(fs) && i < fs.sb.ninodes && bn < MAXFILE
  {
    (if Slot(fs, i, FileSlot(bn)) == 0 then 1 else 0) + (if bn >= NDIRECT && Slot(fs, i, IND) == 0 then 1 else 0)
  }

  /** bmap of any block of any file, holes or not: it panics exactly when fewer blocks are free than are
      missing; else the block is there and no other slot of any file is filled, emptied or moved, except that
      the indirect block may have been added. */
  lemma BmapAny(fs: Fs, owner: Owner, i: nat, bn: nat) returns (owner': Owner)
    requires Owned(fs, owner) && i in fs.mem && bn < MAXFILE
    ensures Bmap(fs, i, bn).None? <==> |FreeSet(fs)| < Missing(fs, i, bn)
    ensures Bmap(fs, i, bn).Some? ==>
      var gs := Bmap(fs, i, bn).value;
      && Owned(gs, owner') && Frame(fs, gs, i) && SameData(fs, gs) && Slot(gs, i, FileSlot(bn)) != 0
      && |FreeSet(gs)| == |FreeSet(fs)| - Missing(fs, i, bn)
      && forall t: nat :: t < SLOTS && t != FileSlot(bn) && (t == IND ==> bn < NDIRECT) ==>
           Slot(gs, i, t) == Slot(fs, i, t)
  {
    hide Slot, Fill, DInode, SlotsOwned, BitsMatch, Used, FreeSet;
    PresentInRange(fs, owner);
    FillPresent(fs, i);
    var s := if bn < NDIRECT then bn else IND;
    owner' := FillKeeps(fs, owner, i, s);
    if Slot(fs, i, s) == 0 { FillSpace(fs, owner, i, s); }
    if bn >= NDIRECT {
      if Slot(fs, i, IND) == 0 { NoEntry(fs, i, bn + 1); }
      if Fill(fs, i, IND).Some? {
        var gs := Fill(fs, i, IND).value;
        PresentInRange(gs, owner');
        FillPresent(gs, i);
        assert Slot(gs, i, bn + 1) == Slot(fs, i, bn + 1);
        if Slot(gs, i, bn + 1) == 0 { FillSpace(gs, owner', i, bn + 1); }
        owner' := FillKeeps(gs, owner', i, bn + 1);
        if Fill(gs, i, bn + 1).Some? { FilledBoth(fs, i, bn + 1, gs, Fill(gs, i, bn + 1).value); }
      }
    }
  }

  lemma NoEntry(fs: Fs, i: nat, s: nat)
    requires Wf(fs) && i in fs.mem && IND < s < SLOTS && Slot(fs, i, IND) == 0
    ensures Slot(fs, i, s) == 0
  {
  }

  /** The indirect block, then the entry s. */
  lemma FilledBoth(fs: Fs, i: nat, s: nat, gs: Fs, hs: Fs)
    requires Wf(fs) && Wf(gs) && Wf(hs) && fs.sb == gs.sb == hs.sb && i in fs.mem && i in gs.mem && i in hs.mem
    requires IND < s < SLOTS && FillFrame(fs, gs, i, IND) && FillFrame(gs, hs, i, s)
    requires Slot(fs, i, IND) != 0 ==> gs == fs
    requires Slot(gs, i, s) != 0 ==> hs == gs
    ensures Frame(fs, hs, i) && SameData(fs, hs)
  {
    hide Slot, DInode;
    forall j: nat, t: nat | j < fs.sb.ninodes && t < SLOTS && (j != i || Slot(fs, j, t) != 0)
      ensures Slot(hs, j, t) == Slot(fs, j, t)
    {
      if (j, t) != (i, IND) { assert Slot(gs, j, t) == Slot(fs, j, t); }
      if (j, t) != (i, s) { assert Slot(hs, j, t) == Slot(gs, j, t); }
    }
    forall j: nat, t: nat | j < fs.sb.ninodes && t < SLOTS && t != IND && Slot(fs, j, t) != 0
      ensures Slot(fs, j, t) < fs.sb.size && hs.blk[Slot(fs, j, t)] == fs.blk[Slot(fs, j, t)]
    {
      assert Slot(gs, j, t) == Slot(fs, j, t);
    }
  }

  /** bmap of the next block of a file without holes. */
  lemma BmapSpace(fs: Fs, owner: Owner, i: nat, k: nat, bn: nat)
    requires Owned(fs, owner) && i in fs.mem && NoHoles(fs, i, k) && bn <= k && bn < MAXFILE
    ensures Bmap(fs, i, bn).Some? <==> |FreeSet(fs)| >= NewBlocks(k, Max(k, bn + 1))
    ensures Bmap(fs, i, bn).Some? ==> |FreeSet(Bmap(fs, i, bn).value)| == |FreeSet(fs)| - NewBlocks(k, Max(k, bn + 1))
  {
    hide Slot, Fill, DInode, SlotsOwned, BitsMatch, Used, FreeSet;
    if bn < k {
      BmapPresent(fs, owner, i, k, bn);
    } else if bn < NDIRECT {
      assert Slot(fs, i, FileSlot(bn)) == 0;
      FillSpace(fs, owner, i, bn);
    } else {
      IndirectSpace(fs, owner, i, k);
    }
  }

  lemma IndirectSpace(fs: Fs, owner: Owner, i: nat, k: nat)
    requires Owned(fs, owner) && i in fs.mem && NoHoles(fs, i, k) && NDIRECT <= k < MAXFILE
    ensures Bmap(fs, i, k).Some? <==> |FreeSet(fs)| >= NewBlocks(k, k + 1)
    ensures Bmap(fs, i, k).Some? ==> |FreeSet(Bmap(fs, i, k).value)| == |FreeSet(fs)| - NewBlocks(k, k + 1)
  {
    hide Slot, Fill, DInode, SlotsOwned, BitsMatch, Used, FreeSet;
    PresentInRange(fs, owner);
    assert Slot(fs, i, FileSlot(k)) == 0;
    var owner1 := FillKeeps(fs, owner, i, IND);
    if k == NDIRECT {
      FillSpace(fs, owner, i, IND);
    } else {
      FillPresent(fs, i);
    }
    if Fill(fs, i, IND).Some? {
      var gs := Fill(fs, i, IND).value;
      PresentInRange(gs, owner1);
      assert Slot(gs, i, k + 1) == 0;
      FillSpace(gs, owner1, i, k + 1);
    }
  }

  lemma ChunkSpace(fs: Fs, owner: Owner, i: nat, len: nat, off: nat, data: seq<byte>)
    requires Owned(fs, owner) && i in fs.mem && off <= len <= MAXBYTES && NoHoles(fs, i, Ceil(len))
    requires 0 < |data| && off % BSIZE + |data| <= BSIZE && off + |data| <= MAXBYTES
    ensures var need := NewBlocks(Ceil(len), Max(Ceil(len), off / BSIZE + 1));
      && (WriteChunk(fs, i, off, data).Some? <==> |FreeSet(fs)| >= need)
      && (WriteChunk(fs, i, off, data).Some? ==> |FreeSet(WriteChunk(fs, i, off, data).value)| == |FreeSet(fs)| - need)
  {
    hide Slot, Bmap, DInode, BitsMatch, SlotsOwned, Used, FreeSet;
    var bn := off / BSIZE;
    BmapSpace(fs, owner, i, Ceil(len), bn);
    var owner' := BmapKeeps(fs, owner, i, Ceil(len), bn);
    if Bmap(fs, i, bn).Some? {
      var ms := Bmap(fs, i, bn).value;
      PresentInRange(ms, owner');
      assert Slot(ms, i, FileSlot(bn)) != 0;
      WriteBlockKeeps(ms, owner', i, bn, off % BSIZE, data);
      SameFreeSet(ms, WriteBlock(ms, Slot(ms, i, FileSlot(bn)), off % BSIZE, data));
    }
  }

  lemma SameFreeSet(fs: Fs, gs: Fs)
    requires Wf(fs) && Wf(gs) && gs.sb == fs.sb && forall b: nat :: b < fs.sb.size ==> Used(gs, b) == Used(fs, b)
    ensures FreeSet(gs) == FreeSet(fs)
  {
    hide Used;
  }

  lemma NeedAddsUp(len: nat, off: nat, n: nat)
    requires off <= len && n > 0
    ensures var m := Min(n, BSIZE - off % BSIZE); Max(Ceil(len), off / BSIZE + 1) == Ceil(Max(len, off + m))
  {
  }

  lemma {:induction false} LoopSpace(fs: Fs, owner: Owner, i: nat, len: nat, off: nat, src: seq<byte>)
    requires Owned(fs, owner) && i in fs.mem && off <= len <= MAXBYTES && NoHoles(fs, i, Ceil(len))
      && off + |src| <= MAXBYTES
    ensures Ceil(len) <= Ceil(Max(len, off + |src|))
    ensures var need := NewBlocks(Ceil(len), Ceil(Max(len, off + |src|)));
      && (WriteLoop(fs, i, off, src).Some? <==> |FreeSet(fs)| >= need)
      && (WriteLoop(fs, i, off, src).Some? ==> |FreeSet(WriteLoop(fs, i, off, src).value)| == |FreeSet(fs)| - need)
    decreases |src|
  {
    hide Slot, DInode, SlotsOwned, BitsMatch, WriteChunk, WriteLoop, NoHoles, FileBytes, FileByte, Splice, Frame, Ceil,
      Chunks, NewBlocks, FreeSet;
    LoopEnds(fs, i, off, src);
    LogArithmetic(len, off, |src|);
    NoneNeeded(Ceil(len));
    if src != [] {
      var m := Min(|src|, BSIZE - off % BSIZE);
      NeedAddsUp(len, off, |src|);
      ChunkSpace(fs, owner, i, len, off, src[..m]);
      if WriteChunk(fs, i, off, src[..m]).Some? {
        var ms := WriteChunk(fs, i, off, src[..m]).value;
        var owner1 := ChunkWrites(fs, owner, i, len, off, src[..m]);
        LoopStep(fs, i, off, src, m, ms);
        LoopSpace(ms, owner1, i, Max(len, off + m), off + m, src[m..]);
      }
    }
  }

  lemma NoneNeeded(k: nat)
    ensures NewBlocks(k, k) == 0
  {
  }

  /** On a call that writei accepts, balloc's panic "out of blocks" happens exactly when fewer blocks are free
      than the file grows by, its indirect block included; otherwise it takes exactly that many. */
  lemma WriteiPanicsExactly(fs: Fs, owner: Owner, i: nat, off: nat, src: seq<byte>)
    requires Owned(fs, owner) && i in fs.mem && FileOk(fs, i) && off <= fs.mem[i].size && off + |src| <= MAXBYTES
    ensures !WriteRefused(fs, i, off, |src|)
    ensures Ceil(fs.mem[i].size) <= Ceil(Max(fs.mem[i].size, off + |src|))
    ensures var need := NewBlocks(Ceil(fs.mem[i].size), Ceil(Max(fs.mem[i].size, off + |src|)));
      && (Writei(fs, i, off, src).None? <==> |FreeSet(fs)| < need)
      && (Writei(fs, i, off, src).Some? ==>
            Wf(Writei(fs, i, off, src).value) && |FreeSet(Writei(fs, i, off, src).value)| == |FreeSet(fs)| - need)
  {
    hide Slot, DInode, SlotsOwned, BitsMatch, WriteLoop, NoHoles, Ceil, NewBlocks, FreeSet, Used, Extend;
    LoopSpace(fs, owner, i, fs.mem[i].size, off, src);
    var r := WriteLoop(fs, i, off, src);
    if r.Some? {
      var owner' := LoopWrites(fs, owner, i, fs.mem[i].size, off, src);
      ExtendSpace(r.value, owner', i, off + |src|);
    }
  }

  lemma ExtendSpace(fs: Fs, owner: Owner, i: nat, end: u32)
    requires Wf(fs) && SlotsOwned(fs, owner) && i in fs.mem
    ensures Wf(Extend(fs, i, end)) && FreeSet(Extend(fs, i, end)) == FreeSet(fs)
  {
    hide Slot, DInode, SlotsOwned, Used, PutInode;
    if end > fs.mem[i].size {
      ResizeKeeps(fs, owner, i, end);
      var rs := fs.(mem := fs.mem[i := fs.mem[i].(size := end)]);
      IupdateKeeps(rs, owner, i);
      SameFreeSet(fs, Iupdate(rs, i));
    }
  }
}
