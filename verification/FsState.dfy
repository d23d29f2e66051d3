/** The file system's logical state (what bread and the inode cache show), the
    slots of its inodes, and block ownership. */
module FsState {
  import opened Blocks
  import opened FsLayout

  /** Slots of an inode: 0..11 direct, 12 the indirect block, 13.. the entries of the indirect block. */
  const SLOTS: nat := 141
  const IND: nat := 12

  /** blk: the blocks as bread shows them; mem: locked in-memory inodes;
      logged: the distinct blocks passed to log_write by the running operation. */
  datatype Fs = Fs(sb: Super, blk: Disk, mem: map<nat, Inode>, logged: set<nat>)

  ghost predicate Wf(fs: Fs) {
    && fs.sb.Ok() && |fs.blk| == fs.sb.size
    && forall i :: i in fs.mem ==> i < fs.sb.ninodes
  }

  /** The inode as it is on disk. */
  function DInode(fs: Fs, i: nat): Inode
    requires Wf(fs) && i < fs.sb.ninodes
  {
    GetInode(fs.blk[fs.sb.IBlock(i)], i % IPB)
  }

  /** The inode as the kernel sees it. */
  function Node(fs: Fs, i: nat): Inode
    requires Wf(fs) && i < fs.sb.ninodes
  {
    if i in fs.mem then fs.mem[i] else DInode(fs, i)
  }

  predicate Used(fs: Fs, b: nat)
    requires Wf(fs) && b < fs.sb.size
  {
    BitAt(fs.blk[fs.sb.BBlock(b)], b % BPB)
  }

  /** The block number in slot s of inode i; 0 means absent. */
  function Slot(fs: Fs, i: nat, s: nat): u32
    requires Wf(fs) && i < fs.sb.ninodes && s < SLOTS
  {
    var a := Node(fs, i).addrs;
    if s <= IND then a[s] else Entry(fs.blk, a[IND], s - IND - 1)
  }

  function Entry(blk: Disk, ind: nat, j: nat): u32
    requires j < NINDIRECT
  {
    if ind == 0 || ind >= |blk| then 0 else GetWord(blk[ind], j)
  }

  type Owner = map<nat, (nat, nat)>

  /** Every filled slot names a data block that it alone owns. */
  ghost predicate SlotsOwned(fs: Fs, owner: Owner)
    requires Wf(fs)
  {
    && (forall i: nat, s: nat :: i < fs.sb.ninodes && s < SLOTS && Slot(fs, i, s) != 0 ==>
          Slot(fs, i, s) in owner && owner[Slot(fs, i, s)] == (i, s))
    && forall b :: b in owner ==> OwnedAt(fs, b, owner[b].0, owner[b].1)
  }

  ghost predicate OwnedAt(fs: Fs, b: nat, i: nat, s: nat)
    requires Wf(fs)
  {
    fs.sb.datastart <= b < fs.sb.size && i < fs.sb.ninodes && s < SLOTS && Slot(fs, i, s) == b
  }

  /** The bitmap marks the metadata and the owned blocks, nothing else. */
  ghost predicate BitsMatch(fs: Fs, owner: Owner)
    requires Wf(fs)
  {
    forall b: nat :: b < fs.sb.size ==> (Used(fs, b) <==> b < fs.sb.datastart || b in owner)
  }

  ghost predicate Owned(fs: Fs, owner: Owner) {
    Wf(fs) && SlotsOwned(fs, owner) && BitsMatch(fs, owner)
  }

  /** Block ownership: no block is in two slots, and the bitmap agrees. */
  lemma NoSharing(fs: Fs, owner: Owner, i: nat, s: nat, j: nat, t: nat)
    requires Owned(fs, owner) && i < fs.sb.ninodes && j < fs.sb.ninodes && s < SLOTS && t < SLOTS
    requires Slot(fs, i, s) != 0 && Slot(fs, i, s) == Slot(fs, j, t)
    ensures (i, s) == (j, t) && fs.sb.datastart <= Slot(fs, i, s) < fs.sb.size && Used(fs, Slot(fs, i, s))
  {
    assert owner[Slot(fs, i, s)] == (i, s);
    assert owner[Slot(fs, j, t)] == (j, t);
    assert OwnedAt(fs, Slot(fs, i, s), i, s);
  }

  // ---------------------------------------------------------------- frames

  /** The two states have the same inodes and the same indirect blocks, hence the same slots. */
  ghost predicate SameSlots(fs: Fs, gs: Fs)
    requires Wf(fs) && Wf(gs) && fs.sb == gs.sb
  {
    forall i: nat, s: nat :: i < fs.sb.ninodes && s < SLOTS ==> Slot(gs, i, s) == Slot(fs, i, s)
  }

  lemma Regions(sb: Super, i: nat, b: nat)
    requires sb.Ok() && i < sb.ninodes && b < sb.size
    ensures 0 < sb.IBlock(i) < sb.bmapstart <= sb.BBlock(b) < sb.datastart
  {
  }

  /** A block that no inode block and no indirect block is can change freely. */
  lemma ChangeData(fs: Fs, owner: Owner, gs: Fs, b: nat)
    requires Wf(fs) && SlotsOwned(fs, owner) && Wf(gs) && gs.sb == fs.sb && gs.mem == fs.mem
    requires fs.sb.bmapstart <= b < fs.sb.size && forall c :: 0 <= c < fs.sb.size && c != b ==> gs.blk[c] == fs.blk[c]
    requires b in owner ==> owner[b].1 != IND
    ensures SameSlots(fs, gs)
    ensures forall i: nat :: i < fs.sb.ninodes ==> DInode(gs, i) == DInode(fs, i) && Node(gs, i) == Node(fs, i)
  {
    hide Slot, GetInode;
    forall i: nat | i < fs.sb.ninodes ensures DInode(gs, i) == DInode(fs, i) {
      Regions(fs.sb, i, 0);
    }
    forall i: nat, s: nat | i < fs.sb.ninodes && s < SLOTS
      ensures Slot(gs, i, s) == Slot(fs, i, s)
    {
      SlotFrame(fs, owner, gs, b, i, s);
    }
  }

  lemma SlotFrame(fs: Fs, owner: Owner, gs: Fs, b: nat, i: nat, s: nat)
    requires Wf(fs) && SlotsOwned(fs, owner) && Wf(gs) && gs.sb == fs.sb
    requires i < fs.sb.ninodes && s < SLOTS && b < fs.sb.size && Node(gs, i) == Node(fs, i)
    requires forall c :: 0 <= c < fs.sb.size && c != b ==> gs.blk[c] == fs.blk[c]
    requires b in owner ==> owner[b].1 != IND
    requires b != 0
    ensures Slot(gs, i, s) == Slot(fs, i, s)
  {
    hide GetWord, GetInode;
    assert Slot(fs, i, IND) == Node(fs, i).addrs[IND];
  }
}
