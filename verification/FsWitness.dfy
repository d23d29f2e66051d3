/** Concrete disks that meet and exceed the log bound: all data blocks are in use except one under
    each bitmap block.  File 0 has `direct` blocks; further files own the rest. */
module FsWitness {
  import opened Commons
  import opened Blocks
  import opened FsLayout
  import opened FsState
  import opened FsAlloc
  import opened FsFile
  import opened FsWrite
  import opened FsTight

  /** Number of bitmap blocks, and direct blocks of file 0. */
  datatype Shape = Shape(bitmaps: nat, direct: nat) {
    predicate Ok() { 4 <= bitmaps <= 5 && 11 <= direct <= NDIRECT }
  }

  /** Where data blocks start: a legal layout, but not one that mkfs makes, whose single bitmap block
      covers all of its disk. */
  const DATA: nat := 4095

  function SizeOf(sh: Shape): nat { BPB * sh.bitmaps + 1 - if sh.bitmaps == 0 then 0 else BPB }

  /** How many data blocks are in use. */
  function InUse(sh: Shape): nat
    requires sh.Ok()
  {
    4095 * (sh.bitmaps - 2)
  }

  function Files(sh: Shape): nat
    requires sh.Ok()
  {
    1 + (InUse(sh) - sh.direct + SLOTS - 1) / SLOTS
  }

  function SuperOf(sh: Shape): Super
    requires sh.Ok()
  {
    Super(SizeOf(sh), Files(sh), 32, 32 + Files(sh) / IPB + 1, DATA)
  }

  /** The free blocks: the last under the first bitmap block, the first under each other one. */
  predicate IsFree(b: nat) { b == 4095 || (b >= 4096 && b % 4096 == 0) }

  predicate IsTaken(sh: Shape, b: nat) { DATA <= b < SizeOf(sh) && !IsFree(b) }

  /** The taken data blocks in order, and their numbers. */
  function Place(idx: nat): nat { 4097 + idx + idx / 4095 }

  function IndexOf(b: nat): int { b - 4096 - b / 4096 }

  lemma PlaceIndex(sh: Shape, idx: nat)
    requires sh.Ok() && idx < InUse(sh)
    ensures IsTaken(sh, Place(idx)) && IndexOf(Place(idx)) == idx && Place(idx) < U32
  {
    var q, r := idx / 4095, idx % 4095;
    assert idx == q * 4095 + r;
    assert Place(idx) == (q + 1) * 4096 + (r + 1);
  }

  lemma IndexPlace(sh: Shape, b: nat)
    requires sh.Ok() && IsTaken(sh, b)
    ensures 0 <= IndexOf(b) < InUse(sh) && Place(IndexOf(b)) == b
  {
    var q, r := b / 4096, b % 4096;
    assert b == q * 4096 + r;
    assert IndexOf(b) == (q - 1) * 4095 + (r - 1);
    assert 1 <= r <= 4095 && q >= 1;
  }

  /** Slot s of file i. */
  function SlotIndex(sh: Shape, i: nat, s: nat): nat
    requires sh.Ok() && i > 0
  {
    sh.direct + (i - 1) * SLOTS + s
  }

  function SlotAt(sh: Shape, i: nat, s: nat): u32
    requires sh.Ok() && s < SLOTS
  {
    if i == 0 then (if s < sh.direct then Place(s) else 0)
    else if SlotIndex(sh, i, s) < InUse(sh) then PlaceIndex(sh, SlotIndex(sh, i, s)); Place(SlotIndex(sh, i, s))
    else 0
  }

  function OwnerAt(sh: Shape, b: nat): (nat, nat)
    requires sh.Ok() && IsTaken(sh, b)
  {
    IndexPlace(sh, b);
    var idx := IndexOf(b);
    if idx < sh.direct then (0, idx) else (1 + (idx - sh.direct) / SLOTS, (idx - sh.direct) % SLOTS)
  }

  /** Slots and owners are inverse to each other. */
  lemma OwnerOfSlot(sh: Shape, i: nat, s: nat)
    requires sh.Ok() && s < SLOTS && SlotAt(sh, i, s) != 0
    ensures IsTaken(sh, SlotAt(sh, i, s)) && OwnerAt(sh, SlotAt(sh, i, s)) == (i, s)
  {
    var idx := if i == 0 then s else SlotIndex(sh, i, s);
    PlaceIndex(sh, idx);
    if i > 0 {
      assert (idx - sh.direct) / 141 == i - 1 && (idx - sh.direct) % 141 == s;
    }
  }

  lemma SlotOfOwner(sh: Shape, b: nat)
    requires sh.Ok() && IsTaken(sh, b)
    ensures var (i, s) := OwnerAt(sh, b); i < Files(sh) && s < SLOTS && SlotAt(sh, i, s) == b
  {
    IndexPlace(sh, b);
    var idx := IndexOf(b);
    if idx >= sh.direct {
      var k := idx - sh.direct;
      assert k == k / 141 * 141 + k % 141;
      assert k / 141 <= (InUse(sh) - sh.direct - 1) / 141;
    }
  }

  // ---------------------------------------------------------------- the blocks

  function AddrsAt(sh: Shape, i: nat): Addrs
    requires sh.Ok()
  {
    seq<u32>(NADDRS, s requires 0 <= s < NADDRS => SlotAt(sh, i, s))
  }

  /** File 0 ends one byte into block 11; the other files are full. */
  function InodeAt(sh: Shape, i: nat): Inode
    requires sh.Ok()
  {
    Inode(2, 0, 0, 1, if i == 0 then START else MAXBYTES, AddrsAt(sh, i))
  }

  function InodeBlock(sh: Shape, k: nat, n: nat): Block
    requires sh.Ok() && n <= IPB
  {
    if n == 0 then ZeroBlock() else PutInode(InodeBlock(sh, k, n - 1), n - 1, InodeAt(sh, k * IPB + n - 1))
  }

  lemma {:induction false} InodeBlockAt(sh: Shape, k: nat, n: nat, t: nat)
    requires sh.Ok() && t < n <= IPB
    ensures GetInode(InodeBlock(sh, k, n), t) == InodeAt(sh, k * IPB + t)
  {
    hide GetInode, PutInode, InodeAt;
    GetPutInode(InodeBlock(sh, k, n - 1), n - 1, InodeAt(sh, k * IPB + n - 1), t);
    if t < n - 1 {
      InodeBlockAt(sh, k, n - 1, t);
    }
  }

  function Entries(sh: Shape, i: nat): (ws: seq<u32>)
    requires sh.Ok()
    ensures |ws| == NINDIRECT
  {
    seq<u32>(NINDIRECT, j requires 0 <= j < NINDIRECT => SlotAt(sh, i, IND + 1 + j))
  }

  function IndirectBlock(sh: Shape, i: nat): Block
    requires sh.Ok()
  {
    PutWords(ZeroBlock(), 0, Entries(sh, i), NINDIRECT)
  }

  function BitmapBlock(k: nat): Block {
    PutBit(Block(seq(BSIZE, j => 255)), if k == 0 then 4095 else 0, 0)
  }

  /** 2^n - 1 */
  function Ones(n: nat): nat {
    if n == 0 then 0 else 2 * Ones(n - 1) + 1
  }

  lemma {:induction false} OnesBits(n: nat, k: nat)
    requires k < n
    ensures HasBit(Ones(n), k)
  {
    var x := Ones(n - 1);
    assert (2 * x + 1) % 2 == 1 && (2 * x + 1) / 2 == x;
    if k > 0 {
      OnesBits(n - 1, k - 1);
    }
  }

  lemma BitmapBit(k: nat, j: nat)
    requires j < BPB
    ensures BitAt(BitmapBlock(k), j) <==> j != if k == 0 then 4095 else 0
  {
    hide PutBit;
    var ones := Block(seq(BSIZE, j => 255));
    PutBitAt(ones, if k == 0 then 4095 else 0, 0, j);
    assert Ones(4) == 15;
    assert Ones(8) == 255;
    OnesBits(8, j % 8);
  }

  /** Block b of the disk. */
  function BlockAt(sh: Shape, b: nat): Block
    requires sh.Ok()
  {
    var sb := SuperOf(sh);
    if sb.inodestart <= b < sb.bmapstart then InodeBlock(sh, b - sb.inodestart, IPB)
    else if sb.bmapstart <= b < sb.bmapstart + sh.bitmaps then BitmapBlock(b - sb.bmapstart)
    else if IsTaken(sh, b) && OwnerAt(sh, b).1 == IND then IndirectBlock(sh, OwnerAt(sh, b).0)
    else ZeroBlock()
  }

  /** The state before the write: file 0 is open and locked. */
  function FsOf(sh: Shape): Fs
    requires sh.Ok()
  {
    Fs(SuperOf(sh), seq(SizeOf(sh), b requires 0 <= b < SizeOf(sh) => BlockAt(sh, b)), map[0 := InodeAt(sh, 0)], {})
  }

  lemma FsOfWf(sh: Shape)
    requires sh.Ok()
    ensures Wf(FsOf(sh)) && 2 <= Files(sh) <= 100 && SuperOf(sh).bmapstart + sh.bitmaps < DATA
  {
    hide BlockAt;
  }

  lemma UsedIs(sh: Shape, b: nat)
    requires sh.Ok() && b < SizeOf(sh)
    ensures Wf(FsOf(sh)) && (Used(FsOf(sh), b) <==> !IsFree(b))
  {
    hide BitAt, BitmapBlock, InodeBlock, IndirectBlock;
    FsOfWf(sh);
    var sb := SuperOf(sh);
    assert b / 4096 < sh.bitmaps;
    assert FsOf(sh).blk[sb.BBlock(b)] == BitmapBlock(b / BPB);
    BitmapBit(b / BPB, b % BPB);
  }

  lemma NodeIs(sh: Shape, i: nat)
    requires sh.Ok() && i < Files(sh)
    ensures Wf(FsOf(sh)) && Node(FsOf(sh), i) == InodeAt(sh, i)
  {
    hide GetInode, InodeBlock, InodeAt, BitmapBlock, IndirectBlock;
    FsOfWf(sh);
    var sb := SuperOf(sh);
    var ib := sb.IBlock(i);
    assert sb.inodestart <= ib < sb.bmapstart;
    assert FsOf(sh).blk[ib] == InodeBlock(sh, i / IPB, IPB);
    InodeBlockAt(sh, i / IPB, IPB, i % IPB);
    assert i / IPB * IPB + i % IPB == i;
  }

  lemma SlotIs(sh: Shape, i: nat, s: nat)
    requires sh.Ok() && i < Files(sh) && s < SLOTS
    ensures Wf(FsOf(sh)) && Slot(FsOf(sh), i, s) == SlotAt(sh, i, s)
  {
    hide GetWord, GetInode, InodeBlock, BitmapBlock, SlotAt, PutWords, IsTaken, OwnerAt;
    NodeIs(sh, i);
    var fs := FsOf(sh);
    var ind := SlotAt(sh, i, IND);
    assert Node(fs, i).addrs[IND] == ind;
    if s > IND {
      if ind != 0 {
        OwnerOfSlot(sh, i, IND);
        TakenIsData(sh, ind);
        assert fs.blk[ind] == IndirectBlock(sh, i);
        PutWordsAt(ZeroBlock(), 0, Entries(sh, i), NINDIRECT, s - IND - 1);
      } else {
        NoIndirect(sh, i, s);
      }
    }
  }

  lemma TakenIsData(sh: Shape, b: nat)
    requires sh.Ok() && IsTaken(sh, b)
    ensures SuperOf(sh).bmapstart + sh.bitmaps < DATA <= b < SizeOf(sh)
  {
    FsOfWf(sh);
  }

  lemma NoIndirect(sh: Shape, i: nat, s: nat)
    requires sh.Ok() && IND < s < SLOTS && SlotAt(sh, i, IND) == 0
    ensures SlotAt(sh, i, s) == 0
  {
  }

  // ---------------------------------------------------------------- its invariants

  ghost function OwnerOf(sh: Shape): Owner
    requires sh.Ok()
  {
    map b: nat | b < SizeOf(sh) && IsTaken(sh, b) :: OwnerAt(sh, b)
  }

  lemma WitnessOwned(sh: Shape)
    requires sh.Ok()
    ensures Owned(FsOf(sh), OwnerOf(sh))
  {
    hide Slot, SlotAt, OwnerAt, Used, BlockAt;
    FsOfWf(sh);
    var fs, owner := FsOf(sh), OwnerOf(sh);
    forall i: nat, s: nat | i < fs.sb.ninodes && s < SLOTS && Slot(fs, i, s) != 0
      ensures Slot(fs, i, s) in owner && owner[Slot(fs, i, s)] == (i, s)
    {
      SlotIs(sh, i, s);
      OwnerOfSlot(sh, i, s);
    }
    forall b | b in owner ensures OwnedAt(fs, b, owner[b].0, owner[b].1) {
      SlotOfOwner(sh, b);
      SlotIs(sh, owner[b].0, owner[b].1);
    }
    forall b: nat | b < fs.sb.size ensures Used(fs, b) <==> b < fs.sb.datastart || b in owner {
      UsedIs(sh, b);
    }
  }

  function FreeBlocks(sh: Shape): seq<nat> {
    if sh.bitmaps == 4 then [4095, 4096, 8192, 12288] else [4095, 4096, 8192, 12288, 16384]
  }

  lemma WitnessSpread(sh: Shape)
    requires sh.Ok()
    ensures Spread(FsOf(sh), OwnerOf(sh), 0, FreeBlocks(sh))
  {
    hide Slot, Used, BlockAt, OwnerOf, Owned;
    FsOfWf(sh);
    WitnessOwned(sh);
    var fs, free := FsOf(sh), FreeBlocks(sh);
    forall k | 0 <= k < |free| ensures free[k] < fs.sb.size && !Used(fs, free[k]) {
      UsedIs(sh, free[k]);
    }
    forall b: nat | b < fs.sb.size && !Used(fs, b) ensures b in free {
      UsedIs(sh, b);
      FreeIsListed(sh, b);
    }
  }

  lemma FreeIsListed(sh: Shape, b: nat)
    requires sh.Ok() && b < SizeOf(sh) && IsFree(b)
    ensures b in FreeBlocks(sh)
  {
    if b != 4095 {
      var q := b / 4096;
      assert b == q * 4096 && 1 <= q <= 4;
      assert q == 1 || q == 2 || q == 3 || q == 4;
      var free := FreeBlocks(sh);
      assert free[q] == b;
    }
  }

  lemma WitnessFile(sh: Shape)
    requires sh.Ok()
    ensures Wf(FsOf(sh)) && NoHoles(FsOf(sh), 0, sh.direct)
  {
    hide Slot, BlockAt;
    FsOfWf(sh);
    forall s: nat | s < SLOTS ensures Slot(FsOf(sh), 0, s) != 0 <==> s < sh.direct {
      SlotIs(sh, 0, s);
    }
  }

  /** The bound of WriteiLogs is tight: a file system in good order, and a write that logs MAXOPBLOCKS blocks. */
  lemma TransactionBoundTight(src: seq<byte>) returns (fs: Fs, owner: Owner)
    requires |src| == WRITEMAX
    ensures Owned(fs, owner) && 0 in fs.mem && FileOk(fs, 0) && fs.logged == {} && !WriteRefused(fs, 0, START, |src|)
    ensures Writei(fs, 0, START, src).Some? && |Writei(fs, 0, START, src).value.logged| == MAXOPBLOCKS
  {
    hide Slot, Writei, BlockAt, NoHoles, Spread;
    var sh := Shape(4, 12);
    fs, owner := FsOf(sh), OwnerOf(sh);
    FsOfWf(sh);
    WitnessOwned(sh);
    WitnessSpread(sh);
    WitnessFile(sh);
    NodeIs(sh, 0);
    BoundIsMet(fs, owner, 0, src, FreeBlocks(sh));
  }

  /** It needs the no-holes invariant: the same write into a file whose last block is missing logs one more. */
  lemma HolesBreakBound(src: seq<byte>) returns (fs: Fs, owner: Owner)
    requires |src| == WRITEMAX
    ensures Owned(fs, owner) && 0 in fs.mem && NoHoles(fs, 0, 11) && fs.mem[0].size == START && fs.logged == {}
    ensures !WriteRefused(fs, 0, START, |src|)
    ensures Writei(fs, 0, START, src).Some? && |Writei(fs, 0, START, src).value.logged| == MAXOPBLOCKS + 1
  {
    hide Slot, Writei, BlockAt, NoHoles, Spread;
    var sh := Shape(5, 11);
    fs, owner := FsOf(sh), OwnerOf(sh);
    FsOfWf(sh);
    WitnessOwned(sh);
    WitnessSpread(sh);
    WitnessFile(sh);
    HoleExceedsBound(fs, owner, 0, src, FreeBlocks(sh));
  }
}
