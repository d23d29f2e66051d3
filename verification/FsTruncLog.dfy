/** How many blocks itrunc of xv6/fs.c logs: the inode block, and the bitmap block of each block that
    the file has. */
module FsTruncLog {
  import opened Commons
  import opened Blocks
  import opened FsLayout
  import opened FsState
  import opened FsAlloc
  import opened FsFile
  import opened FsWrite
  import opened FsTrunc
  import Mkfs

  /** The bitmap blocks over the blocks in slots lo..hi-1 of inode i. */
  ghost function Touched(fs: Fs, i: nat, lo: nat, hi: nat): set<nat>
    requires Wf(fs) && i < fs.sb.ninodes && hi <= SLOTS
  {
    set s: nat | lo <= s < hi && Slot(fs, i, s) != 0 :: fs.sb.BBlock(Slot(fs, i, s))
  }

  /** The same over the first k entries of an indirect block. */
  ghost function TouchedEntries(sb: Super, a: Block, k: nat): set<nat>
    requires k <= NINDIRECT
  {
    set j: nat | j < k && GetWord(a, j) != 0 :: sb.BBlock(GetWord(a, j))
  }

  // ---------------------------------------------------------------- the loops

  lemma FreeOneLogs(fs: Fs, i: nat, s: nat)
    requires Wf(fs) && i in fs.mem && s <= IND && FreeOne(fs, i, s).Some?
    ensures FreeOne(fs, i, s).value.logged ==
      fs.logged + if Slot(fs, i, s) == 0 then {} else {fs.sb.BBlock(Slot(fs, i, s))}
  {
    hide PutBit, BitAt;
  }

  lemma TouchedMore(fs: Fs, i: nat, lo: nat, s: nat)
    requires Wf(fs) && i < fs.sb.ninodes && lo <= s < SLOTS
    ensures Touched(fs, i, lo, s + 1) ==
      Touched(fs, i, lo, s) + if Slot(fs, i, s) == 0 then {} else {fs.sb.BBlock(Slot(fs, i, s))}
  {
    hide Slot;
  }

  lemma {:induction false} FreeDirectLogs(fs: Fs, owner: Owner, i: nat, k: nat)
    requires Owned(fs, owner) && i in fs.mem && k <= NDIRECT
    ensures FreeDirect(fs, i, k).Some? && FreeDirect(fs, i, k).value.logged == fs.logged + Touched(fs, i, 0, k)
  {
    hide Slot, DInode, SlotsOwned, BitsMatch, FreeOne, Minus, Touched, TruncFrame;
    FreeDirectKeeps(fs, owner, i, k);
    if k == 0 {
      NoneTouched(fs, i, 0, 0);
    } else {
      FreeDirectLogs(fs, owner, i, k - 1);
      FreeDirectKeeps(fs, owner, i, k - 1);
      FreeOneLogs(FreeDirect(fs, i, k - 1).value, i, k - 1);
      TouchedMore(fs, i, 0, k - 1);
    }
  }

  lemma EntriesMore(sb: Super, a: Block, k: nat)
    requires k < NINDIRECT
    ensures TouchedEntries(sb, a, k + 1) ==
      TouchedEntries(sb, a, k) + if GetWord(a, k) == 0 then {} else {sb.BBlock(GetWord(a, k))}
  {
    hide GetWord;
  }

  lemma {:induction false} FreeEntriesLogs(fs: Fs, a: Block, k: nat)
    requires Wf(fs) && k <= NINDIRECT && FreeEntries(fs, a, k).Some?
    ensures FreeEntries(fs, a, k).value.logged == fs.logged + TouchedEntries(fs.sb, a, k)
  {
    hide GetWord, PutBit, BitAt;
    if k > 0 {
      FreeEntriesLogs(fs, a, k - 1);
      EntriesMore(fs.sb, a, k - 1);
    }
  }

  lemma EntriesAreSlots(fs: Fs, i: nat)
    requires Wf(fs) && i in fs.mem && 0 < fs.mem[i].addrs[IND] < fs.sb.size
    ensures TouchedEntries(fs.sb, fs.blk[fs.mem[i].addrs[IND]], NINDIRECT) == Touched(fs, i, IND + 1, SLOTS)
  {
    hide GetWord;
    var a := fs.blk[fs.mem[i].addrs[IND]];
    forall j: nat | j < NINDIRECT ensures GetWord(a, j) == Slot(fs, i, IND + 1 + j) {}
    forall s: nat | IND + 1 <= s < SLOTS ensures Slot(fs, i, s) == GetWord(a, s - IND - 1) {}
    forall x | x in TouchedEntries(fs.sb, a, NINDIRECT) ensures x in Touched(fs, i, IND + 1, SLOTS) {
      var j: nat :| j < NINDIRECT && GetWord(a, j) != 0 && x == fs.sb.BBlock(GetWord(a, j));
      assert x == fs.sb.BBlock(Slot(fs, i, IND + 1 + j));
    }
  }

  lemma FreeIndirectLogs(fs: Fs, owner: Owner, i: nat)
    requires Owned(fs, owner) && i in fs.mem
    ensures FreeIndirect(fs, i).Some? && FreeIndirect(fs, i).value.logged == fs.logged + Touched(fs, i, IND, SLOTS)
  {
    hide Slot, DInode, SlotsOwned, BitsMatch, FreeOne, Minus, FreeEntries, Touched, TouchedEntries;
    FreeIndirectKeeps(fs, owner, i);
    IndIsSlot(fs, i);
    var ind := fs.mem[i].addrs[IND];
    if ind == 0 {
      NoIndirect(fs, i);
      assert Touched(fs, i, IND, SLOTS) == {} by { NoneTouched(fs, i, IND, SLOTS); }
    } else {
      var gs := FreeEntries(fs, fs.blk[ind], NINDIRECT).value;
      FreeEntriesLogs(fs, fs.blk[ind], NINDIRECT);
      EntriesAreSlots(fs, i);
      IndIsSlot(gs, i);
      FreeOneLogs(gs, i, IND);
      TouchedFirst(fs, i);
    }
  }

  lemma NoneTouched(fs: Fs, i: nat, lo: nat, hi: nat)
    requires Wf(fs) && i < fs.sb.ninodes && hi <= SLOTS && forall t: nat :: lo <= t < hi ==> Slot(fs, i, t) == 0
    ensures Touched(fs, i, lo, hi) == {}
  {
    hide Slot;
  }

  lemma TouchedFirst(fs: Fs, i: nat)
    requires Wf(fs) && i < fs.sb.ninodes && Slot(fs, i, IND) != 0
    ensures Touched(fs, i, IND, SLOTS) == Touched(fs, i, IND + 1, SLOTS) + {fs.sb.BBlock(Slot(fs, i, IND))}
  {
    hide Slot;
  }

  lemma TouchedAll(fs: Fs, ds: Fs, i: nat)
    requires Wf(fs) && Wf(ds) && ds.sb == fs.sb && i < fs.sb.ninodes
    requires forall t: nat :: IND <= t < SLOTS ==> Slot(ds, i, t) == Slot(fs, i, t)
    ensures Touched(fs, i, 0, SLOTS) == Touched(fs, i, 0, NDIRECT) + Touched(ds, i, IND, SLOTS)
  {
    hide Slot;
    assert Touched(ds, i, IND, SLOTS) == Touched(fs, i, IND, SLOTS);
  }

  /** itrunc logs exactly the inode block and one bitmap block for each part of the bitmap that covers a
      block of the file. */
  lemma ItruncLogs(fs: Fs, owner: Owner, i: nat)
    requires Owned(fs, owner) && i in fs.mem
    ensures Itrunc(fs, i).Some?
    ensures Itrunc(fs, i).value.logged == fs.logged + Touched(fs, i, 0, SLOTS) + {fs.sb.IBlock(i)}
    ensures fs.logged == {} ==> |Itrunc(fs, i).value.logged| == |Touched(fs, i, 0, SLOTS)| + 1
  {
    hide Slot, DInode, SlotsOwned, BitsMatch, FreeDirect, FreeIndirect, PutInode, Minus, Touched;
    FreeDirectLogs(fs, owner, i, NDIRECT);
    FreeDirectKeeps(fs, owner, i, NDIRECT);
    var ds := FreeDirect(fs, i, NDIRECT).value;
    FreeIndirectLogs(ds, Minus(owner, i, 0, NDIRECT), i);
    TouchedAll(fs, ds, i);
    TouchedAbove(fs, owner, i);
  }

  lemma TouchedAbove(fs: Fs, owner: Owner, i: nat)
    requires Owned(fs, owner) && i < fs.sb.ninodes
    ensures fs.sb.IBlock(i) !in Touched(fs, i, 0, SLOTS)
  {
    hide Slot;
    PresentInRange(fs, owner);
    forall s: nat | s < SLOTS ensures fs.sb.IBlock(i) != fs.sb.BBlock(Slot(fs, i, s)) {
      Regions(fs.sb, i, Slot(fs, i, s));
    }
  }

  // ---------------------------------------------------------------- exactly when the bound holds

  /** Parts of the bitmap that cover data blocks. */
  function Parts(sb: Super): nat
    requires sb.datastart < sb.size
  {
    (sb.size - 1) / BPB - sb.datastart / BPB + 1
  }

  lemma TouchedWithin(fs: Fs, owner: Owner, i: nat)
    requires Owned(fs, owner) && i < fs.sb.ninodes && fs.sb.datastart < fs.sb.size
    ensures |Touched(fs, i, 0, SLOTS)| <= Parts(fs.sb)
  {
    hide Slot;
    var sb := fs.sb;
    var all := Range(sb.BBlock(sb.datastart), Parts(sb));
    forall s: nat | s < SLOTS && Slot(fs, i, s) != 0 ensures sb.BBlock(Slot(fs, i, s)) in all {
      assert OwnedAt(fs, Slot(fs, i, s), i, s);
      PartOf(sb, Slot(fs, i, s));
    }
    SubsetSize(Touched(fs, i, 0, SLOTS), all);
  }

  lemma PartOf(sb: Super, b: nat)
    requires sb.datastart <= b < sb.size
    ensures sb.datastart / BPB <= b / BPB <= (sb.size - 1) / BPB
  {
  }

  /** Every truncation stays within the budget of one operation. */
  ghost predicate AlwaysWithin(sb: Super) {
    forall fs: Fs, owner: Owner, i: nat ::
      Owned(fs, owner) && fs.sb == sb && fs.logged == {} && i in fs.mem && FileOk(fs, i) && Itrunc(fs, i).Some? ==>
        |Itrunc(fs, i).value.logged| <= MAXOPBLOCKS
  }

  /** That is so exactly when fewer than MAXOPBLOCKS bitmap blocks cover data blocks. */
  lemma TruncWithinExactly(sb: Super)
    requires sb.Ok() && sb.ninodes > 0 && sb.datastart < sb.size
    ensures AlwaysWithin(sb) <==> Parts(sb) < MAXOPBLOCKS
  {
    hide Slot, SlotsOwned, BitsMatch, Itrunc, Touched, FileOk, Parts;
    if Parts(sb) < MAXOPBLOCKS {
      forall fs: Fs, owner: Owner, i: nat |
        Owned(fs, owner) && fs.sb == sb && fs.logged == {} && i in fs.mem && FileOk(fs, i) && Itrunc(fs, i).Some?
        ensures |Itrunc(fs, i).value.logged| <= MAXOPBLOCKS
      {
        ItruncLogs(fs, owner, i);
        TouchedWithin(fs, owner, i);
      }
    } else {
      var fs, owner := SpreadFile(sb);
      ItruncLogs(fs, owner, 0);
      assert Owned(fs, owner) && 0 in fs.mem;
    }
  }

  // ---------------------------------------------------------------- a file under ten bitmap blocks

  /** Its block number k: the first data block under the k-th bitmap block that covers any. */
  function FileBlock(sb: Super, k: nat): nat {
    if k == 0 then sb.datastart else (sb.datastart / BPB + k) * BPB
  }

  /** How many leading bits of bitmap block number r are set. */
  function BitCount(sb: Super, r: nat): (n: nat)
    ensures n <= BPB
  {
    var q := sb.datastart / BPB;
    if r < q then BPB else if r == q then sb.datastart % BPB + 1 else if r < q + MAXOPBLOCKS then 1 else 0
  }

  function FirstBits(n: nat): Block
    requires n <= BPB
  {
    if n == 0 then ZeroBlock() else PutBit(FirstBits(n - 1), n - 1, 1)
  }

  lemma {:induction false} FirstBitsAt(n: nat, j: nat)
    requires n <= BPB && j < BPB
    ensures BitAt(FirstBits(n), j) <==> j < n
  {
    hide BitAt, PutBit;
    if n == 0 {
      Mkfs.ZeroBits();
    } else {
      FirstBitsAt(n - 1, j);
      PutBitAt(FirstBits(n - 1), n - 1, 1, j);
    }
  }

  function SpreadDisk(sb: Super): (d: Disk)
    ensures |d| == sb.size
  {
    seq(sb.size, b requires 0 <= b < sb.size =>
      if sb.bmapstart <= b < sb.datastart then FirstBits(BitCount(sb, b - sb.bmapstart)) else ZeroBlock())
  }

  lemma FileBlockPart(sb: Super, k: nat)
    requires sb.Ok() && sb.datastart < sb.size && k < MAXOPBLOCKS <= Parts(sb)
    ensures 0 < sb.datastart <= FileBlock(sb, k) < sb.size && FileBlock(sb, k) / BPB == sb.datastart / BPB + k
  {
    var q, last := sb.datastart / 4096, (sb.size - 1) / 4096;
    assert sb.datastart == 4096 * q + sb.datastart % 4096 && sb.size - 1 == 4096 * last + (sb.size - 1) % 4096;
    if k > 0 {
      assert ((q + k) * 4096) / 4096 == q + k;
    }
  }

  function SpreadAddrs(sb: Super): Addrs
    requires sb.Ok() && sb.datastart < sb.size && MAXOPBLOCKS <= Parts(sb)
  {
    seq<u32>(NADDRS, s requires 0 <= s < NADDRS =>
      if s < MAXOPBLOCKS then FileBlockPart(sb, s); FileBlock(sb, s) else 0)
  }

  function SpreadFs(sb: Super): Fs
    requires sb.Ok() && sb.datastart < sb.size && MAXOPBLOCKS <= Parts(sb)
  {
    Fs(sb, SpreadDisk(sb), map[0 := Inode(2, 0, 0, 1, MAXOPBLOCKS * BSIZE, SpreadAddrs(sb))], {})
  }

  lemma SpreadSlots(sb: Super, i: nat, s: nat)
    requires sb.Ok() && sb.datastart < sb.size && MAXOPBLOCKS <= Parts(sb) && i < sb.ninodes && s < SLOTS
    ensures Wf(SpreadFs(sb))
    ensures Slot(SpreadFs(sb), i, s) == if i == 0 && s < MAXOPBLOCKS then FileBlock(sb, s) else 0
  {
    hide GetInode, FirstBits, Parts, FileBlock;
    var fs := SpreadFs(sb);
    if i > 0 {
      Mkfs.ZeroInode();
      Regions(sb, i, 0);
      assert fs.blk[sb.IBlock(i)] == ZeroBlock();
      Mkfs.NoSlots(fs, i, s);
    }
  }

  ghost function SpreadOwner(sb: Super): Owner
    requires sb.datastart < sb.size
  {
    map b: nat | b < sb.size && IsFileBlock(sb, b) :: (0, b / BPB - sb.datastart / BPB)
  }

  /** Block b is one of the ten. */
  predicate IsFileBlock(sb: Super, b: nat) {
    var q := sb.datastart / BPB;
    q <= b / BPB < q + MAXOPBLOCKS && b == FileBlock(sb, b / BPB - q)
  }

  lemma SpreadUsed(sb: Super, b: nat)
    requires sb.Ok() && sb.datastart < sb.size && MAXOPBLOCKS <= Parts(sb) && b < sb.size && 0 < sb.ninodes
    ensures Wf(SpreadFs(sb))
    ensures Used(SpreadFs(sb), b) <==> b < sb.datastart || IsFileBlock(sb, b)
  {
    hide BitAt, FirstBits, Parts;
    SpreadSlots(sb, 0, 0);
    Regions(sb, 0, b);
    FirstBitsAt(BitCount(sb, b / BPB), b % BPB);
    CountedBits(sb, b);
  }

  lemma CountedBits(sb: Super, b: nat)
    ensures b % BPB < BitCount(sb, b / BPB) <==> b < sb.datastart || IsFileBlock(sb, b)
  {
    var q, r := sb.datastart / 4096, b / 4096;
    assert sb.datastart == 4096 * q + sb.datastart % 4096 && b == 4096 * r + b % 4096;
  }

  /** A file system in good order whose file 0 has ten blocks under ten bitmap blocks. */
  lemma SpreadFile(sb: Super) returns (fs: Fs, owner: Owner)
    requires sb.Ok() && sb.ninodes > 0 && sb.datastart < sb.size && MAXOPBLOCKS <= Parts(sb)
    ensures Owned(fs, owner) && fs.sb == sb && fs.logged == {} && 0 in fs.mem && FileOk(fs, 0)
    ensures |Touched(fs, 0, 0, SLOTS)| == MAXOPBLOCKS
  {
    hide Slot, BitAt, SpreadFs, Parts, FileBlock;
    fs, owner := SpreadFs(sb), SpreadOwner(sb);
    SpreadShape(sb);
    forall i: nat, s: nat | i < sb.ninodes && s < SLOTS
      ensures Slot(fs, i, s) == if i == 0 && s < MAXOPBLOCKS then FileBlock(sb, s) else 0
    {
      SpreadSlots(sb, i, s);
    }
    forall k: nat | k < MAXOPBLOCKS
      ensures 0 < sb.datastart <= FileBlock(sb, k) < sb.size && FileBlock(sb, k) / BPB == sb.datastart / BPB + k
    {
      FileBlockPart(sb, k);
    }
    forall b: nat | b < sb.size ensures Used(fs, b) <==> b < sb.datastart || b in owner { SpreadUsed(sb, b); }
    SpreadOwned(fs, owner);
    SpreadTouched(fs);
  }

  lemma SpreadShape(sb: Super)
    requires sb.Ok() && sb.ninodes > 0 && sb.datastart < sb.size && MAXOPBLOCKS <= Parts(sb)
    ensures var fs := SpreadFs(sb);
      Wf(fs) && fs.sb == sb && fs.logged == {} && 0 in fs.mem && fs.mem[0].size == MAXOPBLOCKS * BSIZE
  {
  }

  /** What the two lemmas below share. */
  ghost predicate IsSpread(fs: Fs) {
    && Wf(fs) && fs.sb.ninodes > 0
    && (forall i: nat, s: nat :: i < fs.sb.ninodes && s < SLOTS ==>
          Slot(fs, i, s) == if i == 0 && s < MAXOPBLOCKS then FileBlock(fs.sb, s) else 0)
    && forall k: nat :: k < MAXOPBLOCKS ==>
         && 0 < fs.sb.datastart <= FileBlock(fs.sb, k) < fs.sb.size
         && FileBlock(fs.sb, k) / BPB == fs.sb.datastart / BPB + k
  }

  lemma SpreadOwns(fs: Fs, k: nat)
    requires IsSpread(fs) && fs.sb.datastart < fs.sb.size && k < MAXOPBLOCKS
    ensures var b, owner := FileBlock(fs.sb, k), SpreadOwner(fs.sb); b in owner && owner[b] == (0, k)
  {
    hide Slot, FileBlock;
    assert IsFileBlock(fs.sb, FileBlock(fs.sb, k));
  }

  lemma SpreadOwnedAt(fs: Fs, b: nat)
    requires IsSpread(fs) && fs.sb.datastart < fs.sb.size && b in SpreadOwner(fs.sb)
    ensures var k := SpreadOwner(fs.sb)[b].1;
      SpreadOwner(fs.sb)[b] == (0, k) && k < MAXOPBLOCKS && b == FileBlock(fs.sb, k)
  {
    hide Slot, FileBlock;
    assert IsFileBlock(fs.sb, b);
  }

  lemma SpreadOwned(fs: Fs, owner: Owner)
    requires IsSpread(fs) && fs.sb.datastart < fs.sb.size && owner == SpreadOwner(fs.sb)
    requires 0 in fs.mem && fs.mem[0].size == MAXOPBLOCKS * BSIZE
    ensures SlotsOwned(fs, owner) && FileOk(fs, 0)
  {
    hide Slot, FileBlock, Ceil, NoHoles, SpreadOwner, IsFileBlock;
    forall i: nat, s: nat | i < fs.sb.ninodes && s < SLOTS && Slot(fs, i, s) != 0
      ensures Slot(fs, i, s) in owner && owner[Slot(fs, i, s)] == (i, s)
    {
      SpreadOwns(fs, s);
    }
    forall b | b in owner ensures OwnedAt(fs, b, owner[b].0, owner[b].1) { SpreadOwnedAt(fs, b); }
    SpreadSolid(fs);
  }

  lemma SpreadSolid(fs: Fs)
    requires IsSpread(fs)
    ensures Ceil(MAXOPBLOCKS * BSIZE) == MAXOPBLOCKS && NoHoles(fs, 0, MAXOPBLOCKS)
  {
    hide Slot, FileBlock;
    forall n: nat | n < MAXFILE ensures Slot(fs, 0, FileSlot(n)) != 0 <==> n < MAXOPBLOCKS {
      assert FileSlot(n) < MAXOPBLOCKS <==> n < MAXOPBLOCKS;
    }
  }

  lemma SpreadTouched(fs: Fs)
    requires IsSpread(fs)
    ensures |Touched(fs, 0, 0, SLOTS)| == MAXOPBLOCKS
  {
    hide Slot, FileBlock;
    var first := fs.sb.BBlock(fs.sb.datastart);
    forall x | x in Range(first, MAXOPBLOCKS) ensures x in Touched(fs, 0, 0, SLOTS) {
      assert fs.sb.BBlock(Slot(fs, 0, x - first)) == x;
    }
    assert Touched(fs, 0, 0, SLOTS) == Range(first, MAXOPBLOCKS);
  }
}
