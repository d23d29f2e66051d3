/** xv6/mkfs.c: the image it builds satisfies the kernel's block-ownership invariant. */
module Mkfs {
  import opened Commons
  import opened Blocks
  import opened FsLayout
  import opened FsState
  import opened FsAlloc
  import opened FsFile
  import opened FsWrite

  const FSSIZE: nat := 1000
  const NINODES: nat := 200
  const NLOG: nat := 30

  /** The layout that mkfs computes. */
  const LAYOUT := Super(FSSIZE, NINODES, 2 + NLOG, 2 + NLOG + (NINODES / IPB + 1),
                        2 + NLOG + (NINODES / IPB + 1) + (FSSIZE / BPB + 1))

  lemma LayoutOk()
    ensures LAYOUT.Ok() && LAYOUT.datastart == 59
  {
  }

  /** Blocks nmeta..freeblock-1 are owned, one slot each; the rest of the disk is
      still zero; no bitmap bit is set yet. */
  ghost predicate Building(fs: Fs, freeblock: nat, owner: Owner) {
    && Wf(fs) && SlotsOwned(fs, owner)
    && fs.sb.datastart <= freeblock <= fs.sb.size
    && (forall b: nat :: b in owner <==> fs.sb.datastart <= b < freeblock)
    && (forall b: nat :: freeblock <= b < fs.sb.size ==> fs.blk[b] == ZeroBlock())
    && (forall b: nat :: b < fs.sb.size ==> !Used(fs, b))
  }

  /** Inodes from `first` on have not been handed out. */
  ghost predicate Blank(fs: Fs, first: nat)
    requires Wf(fs)
  {
    forall i: nat :: first <= i < fs.sb.ninodes ==> DInode(fs, i) == EmptyInode()
  }

  ghost predicate AllFilesOk(fs: Fs)
    requires Wf(fs)
  {
    forall i: nat :: i < fs.sb.ninodes ==> FileOk(fs, i)
  }

  function EmptyInode(): Inode { Inode(0, 0, 0, 0, 0, seq(NADDRS, i => 0)) }

  /** The all-zero disk with a superblock in block 1. */
  lemma ZeroDisk(sb: Super, b1: Block)
    requires sb.Ok() && 1 < sb.inodestart
    ensures var fs := Fs(sb, seq(sb.size, i => ZeroBlock())[1 := b1], map[], {});
      Building(fs, sb.datastart, map[]) && AllFilesOk(fs) && Blank(fs, 0)
  {
    hide BitAt, GetInode, Slot;
    var fs := Fs(sb, seq(sb.size, i => ZeroBlock())[1 := b1], map[], {});
    ZeroInode();
    ZeroBits();
    forall i: nat | i < sb.ninodes ensures Node(fs, i) == EmptyInode() {
      Regions(sb, i, 0);
    }
    forall i: nat, s: nat | i < sb.ninodes && s < SLOTS ensures Slot(fs, i, s) == 0 {
      NoSlots(fs, i, s);
    }
  }

  lemma NoSlots(fs: Fs, i: nat, s: nat)
    requires Wf(fs) && i < fs.sb.ninodes && s < SLOTS && Node(fs, i).addrs == EmptyInode().addrs
    ensures Slot(fs, i, s) == 0
  {
  }

  lemma ZeroInode()
    ensures forall t: nat :: t < IPB ==> GetInode(ZeroBlock(), t) == EmptyInode()
  {
    hide GetWord, ZeroBlock;
    forall t: nat | t < IPB ensures GetInode(ZeroBlock(), t) == EmptyInode() {
      forall j: nat | j < WORDS ensures GetWord(ZeroBlock(), j) == 0 { ZeroWord(j); }
      assert GetAddrs(ZeroBlock(), t * INODEWORDS + 3) == EmptyInode().addrs;
    }
  }

  lemma ZeroBits()
    ensures forall j: nat :: j < BPB ==> !BitAt(ZeroBlock(), j)
  {
    forall j: nat | j < BPB ensures !BitAt(ZeroBlock(), j) { ZeroHasNoBit(j % 8); }
  }

  lemma {:induction false} ZeroHasNoBit(k: nat)
    ensures !HasBit(0, k)
  {
    if k > 0 { ZeroHasNoBit(k - 1); }
  }

  // ---------------------------------------------------------------- root directory

  lemma {:induction false} BlocksDetermined(fs: Fs, i: nat, k: nat, k': nat)
    requires Wf(fs) && i < fs.sb.ninodes && NoHoles(fs, i, k) && k' <= MAXFILE
    ensures NoHoles(fs, i, k') <==> k == k'
  {
    hide Slot;
    if k < k' {
      assert Slot(fs, i, FileSlot(k)) == 0;
    } else if k' < k {
      assert Slot(fs, i, FileSlot(k')) != 0;
    }
  }

  /** The size that main() gives the root directory at the end. */
  function RootSize(size: nat): nat {
    (size / BSIZE + 1) * BSIZE
  }

  lemma RootCeil(size: nat)
    ensures Ceil(RootSize(size)) == size / BSIZE + 1
    ensures Ceil(size) == size / BSIZE + if size % BSIZE == 0 then 0 else 1
    ensures RootSize(size) <= MAXBYTES <==> size / BSIZE + 1 <= MAXFILE
  {
    assert RootSize(size) == (size / 512 + 1) * 512;
  }

  /** Rounding a file's size up leaves it whole exactly when its size was not a multiple of BSIZE. */
  lemma RootSizeHoles(fs: Fs, gs: Fs, i: nat)
    requires Wf(fs) && Wf(gs) && gs.sb == fs.sb && SameSlots(fs, gs) && i < fs.sb.ninodes && FileOk(fs, i)
    requires Node(gs, i).size == RootSize(Node(fs, i).size)
    ensures FileOk(gs, i) <==> Node(fs, i).size % BSIZE != 0
  {
    hide Slot, NoHoles, DInode, Ceil, RootSize;
    var size := Node(fs, i).size;
    RootCeil(size);
    SameNoHoles(fs, gs, i, Ceil(size));
    if RootSize(size) <= MAXBYTES { BlocksDetermined(gs, i, Ceil(size), Ceil(RootSize(size))); }
  }

  // ---------------------------------------------------------------- mkfs

  class Image {
    var fs: Fs                  // fs.mem holds the dinode that is being edited
    var freeblock: nat
    var freeinode: nat
    ghost var owner: Owner

    /** The state between two calls. */
    ghost predicate Valid()
      reads this
    {
      && Building(fs, freeblock, owner) && AllFilesOk(fs) && fs.mem == map[]
      && freeinode > 0 && Blank(fs, freeinode)
    }

    constructor (sb: Super, b1: Block)
      requires sb.Ok() && 1 < sb.inodestart
      ensures Valid() && fs.sb == sb && freeblock == sb.datastart && freeinode == 1
    {
      fs := Fs(sb, seq(sb.size, i => ZeroBlock())[1 := b1], map[], {});
      freeblock, freeinode, owner := sb.datastart, 1, map[];
      new;
      ZeroDisk(sb, b1);
    }

    /** rinode: edit inode i. */
    method Open(i: nat)
      requires Building(fs, freeblock, owner) && AllFilesOk(fs) && fs.mem == map[] && i < fs.sb.ninodes
      modifies this`fs
      ensures fs == old(fs).(mem := map[i := DInode(old(fs), i)])
      ensures Building(fs, freeblock, owner) && AllFilesOk(fs) && OthersSame(old(fs), fs, i)
      ensures FileOk(old(fs), i) && FileOk(fs, i) && SameSlots(old(fs), fs)
      ensures Node(fs, i) == Node(old(fs), i) && Contents(fs, i) == Contents(old(fs), i)
      ensures forall p: nat :: p < MAXBYTES ==> FileByte(fs, i, p) == FileByte(old(fs), i, p)
    {
      hide GetInode, Slot, SlotsOwned, NoHoles, Used, FileByte;
      fs := fs.(mem := map[i := GetInode(fs.blk[fs.sb.IBlock(i)], i % IPB)]);
      EditView(old(fs), fs, owner, freeblock);
      FilesStillOk(old(fs), fs);
      SameContents(old(fs), fs, i);
    }

    /** winode: write the edited inode back. */
    method Winode(i: nat)
      requires Building(fs, freeblock, owner) && fs.mem.Keys == {i}
      modifies this`fs
      ensures Building(fs, freeblock, owner) && fs.sb == old(fs).sb && fs.mem == map[] && SameSlots(old(fs), fs)
      ensures forall j: nat :: j < fs.sb.ninodes ==> Node(fs, j) == Node(old(fs), j)
      ensures forall j: nat :: j < fs.sb.ninodes && j != i ==> DInode(fs, j) == DInode(old(fs), j)
      ensures forall j: nat, p: nat :: j < fs.sb.ninodes && p < MAXBYTES ==>
        FileByte(fs, j, p) == FileByte(old(fs), j, p)
    {
      hide PutInode, GetInode, SlotsOwned, Slot, Used, NoHoles, FileByte;
      IupdateKeeps(fs, owner, i);
      var ib := fs.sb.IBlock(i);
      ghost var us := FsFile.Iupdate(fs, i);
      fs := fs.(blk := fs.blk[ib := PutInode(fs.blk[ib], i % IPB, fs.mem[i])], logged := fs.logged + {ib});
      Regions(fs.sb, i, 0);
      fs := fs.(mem := map[]);
      EditView(us, fs, owner, freeblock);
    }

    /** winode of an inode whose file is whole. */
    method Close(i: nat)
      requires Building(fs, freeblock, owner) && AllFilesOk(fs) && fs.mem.Keys == {i} && i < freeinode
        && Blank(fs, freeinode)
      modifies this`fs
      ensures Valid() && fs.sb == old(fs).sb && OthersSame(old(fs), fs, i)
      ensures FileOk(old(fs), i) && FileOk(fs, i)
      ensures Node(fs, i) == old(fs).mem[i] && Contents(fs, i) == Contents(old(fs), i)
    {
      hide DInode, SlotsOwned, Slot, Used, NoHoles, FileByte;
      Winode(i);
      FilesStillOk(old(fs), fs);
      SameContents(old(fs), fs, i);
    }

    /** ialloc */
    method Ialloc(kind: u16) returns (inum: nat)
      requires Valid() && freeinode < fs.sb.ninodes
      modifies this`fs, this`freeinode
      ensures Valid() && fs.sb == old(fs).sb && OthersSame(old(fs), fs, inum)
      ensures inum == old(freeinode) && freeinode == inum + 1
      ensures Node(fs, inum) == EmptyInode().(kind := kind, nlink := 1)
    {
      hide GetInode, PutInode, Slot, SlotsOwned, Used, NoHoles, FileByte;
      inum := freeinode;
      freeinode := freeinode + 1;
      Open(inum);
      ghost var os := fs;
      fs := fs.(mem := map[inum := EmptyInode().(kind := kind, nlink := 1)]);
      EditView(os, fs, owner, freeblock);
      FilesStillOk(os, fs);
      Close(inum);
    }

    /** An absent slot of the edited inode gets the next free block. */
    method FillSlot(i: nat, s: nat)
      requires Building(fs, freeblock, owner) && fs.mem.Keys == {i} && s < SLOTS && (s > IND ==> Slot(fs, i, IND) != 0)
      requires Slot(fs, i, s) == 0 ==> freeblock < fs.sb.size
      modifies this
      ensures Building(fs, freeblock, owner) && fs.sb == old(fs).sb && fs.mem.Keys == {i} && freeinode == old(freeinode)
      ensures Slot(old(fs), i, s) != 0 ==> fs == old(fs) && freeblock == old(freeblock)
      ensures Slot(old(fs), i, s) == 0 ==> freeblock == old(freeblock) + 1
      ensures FillFrame(old(fs), fs, i, s) && SameKind(old(fs).mem[i], fs.mem[i])
    {
      hide Slot, SetSlot, DInode, BitAt;
      ghost var os := fs;
      OwnedRange(fs, owner);
      if SlotNow(s, i) == 0 {
        SetFresh(fs, owner, i, s, freeblock);
        SetSlotShape(fs, i, s, freeblock);
        fs := SetSlot(fs, i, s, freeblock);
        owner := owner[freeblock := (i, s)];
        freeblock := freeblock + 1;
        BitsStayClear(os, fs, i);
      }
    }

    function SlotNow(s: nat, i: nat): u32
      reads this
      requires Wf(fs) && i < fs.sb.ninodes && s < SLOTS
    {
      Slot(fs, i, s)
    }

    /** The block of file block bn of the edited inode, allocated if need be. */
    method FindBlock(i: nat, bn: nat, ghost k: nat) returns (x: nat)
      requires Building(fs, freeblock, owner) && fs.mem.Keys == {i} && bn < MAXFILE && bn <= k && NoHoles(fs, i, k)
      requires freeblock + NewBlocks(k, Max(k, bn + 1)) <= fs.sb.size
      modifies this
      ensures Building(fs, freeblock, owner) && fs.sb == old(fs).sb && fs.mem.Keys == {i} && freeinode == old(freeinode)
      ensures x == Slot(fs, i, FileSlot(bn)) && SameKind(old(fs).mem[i], fs.mem[i])
      ensures NoHoles(fs, i, Max(k, bn + 1)) && Frame(old(fs), fs, i) && SameData(old(fs), fs)
        && (bn < k ==> fs == old(fs))
      ensures old(freeblock) <= freeblock <= old(freeblock) + NewBlocks(k, Max(k, bn + 1))
    {
      hide Slot, SlotsOwned, DInode, Used, Building, FillFrame;
      ghost var os := fs;
      BuildingBasics(fs, freeblock, owner);
      SameFrame(fs, owner, i);
      assert Slot(fs, i, FileSlot(bn)) == 0 <==> bn == k;
      if bn < NDIRECT {
        FillSlot(i, bn);
        BuildingBasics(fs, freeblock, owner);
        if bn == k { FilledOne(os, i, k, fs); }
      } else {
        FillSlot(i, IND);
        BuildingBasics(fs, freeblock, owner);
        ghost var ms := fs;
        EntryAbsent(os, ms, i, k, bn);
        FillSlot(i, bn + 1);
        BuildingBasics(fs, freeblock, owner);
        if bn == k { FilledTwo(os, i, k, ms, fs); }
      }
      x := SlotNow(FileSlot(bn), i);
    }

    /** iappend */
    method Iappend(i: nat, data: seq<byte>)
      requires Valid() && i < fs.sb.ninodes && i < freeinode && Node(fs, i).size + |data| <= MAXBYTES
      requires freeblock + NewBlocks(Ceil(Node(fs, i).size), Ceil(Node(fs, i).size + |data|)) <= fs.sb.size
      modifies this
      ensures Valid() && fs.sb == old(fs).sb && freeinode == old(freeinode) && OthersSame(old(fs), fs, i)
      ensures FileOk(old(fs), i) && FileOk(fs, i) && Contents(fs, i) == Contents(old(fs), i) + data
      ensures SameKind(Node(old(fs), i), Node(fs, i))
      ensures freeblock <= old(freeblock) + NewBlocks(Ceil(Node(old(fs), i).size), Ceil(Node(old(fs), i).size + |data|))
    {
      hide Slot, SlotsOwned, DInode, Used, NoHoles, FileByte, Building, Frame, Written, NewBlocks, Ceil;
      Open(i);
      ghost var os, fb := fs, freeblock;
      var size := fs.mem[i].size;
      var off, tot := size, 0;
      BuildingBasics(fs, freeblock, owner);
      WrittenNothing(os, i, size);
      assert data[..0] == [];
      while tot < |data|
        invariant tot <= |data| && off == size + tot && fs.sb == old(fs).sb && fs.mem.Keys == {i}
          && freeinode == old(freeinode)
        invariant Building(fs, freeblock, owner) && Wf(fs) && Written(os, fs, i, size, size, data[..tot])
        invariant SameKind(os.mem[i], fs.mem[i])
        invariant Ceil(size) <= Ceil(off) && fb <= freeblock <= fb + NewBlocks(Ceil(size), Ceil(off))
      {
        ghost var bs := fs;
        var n1 := Min(|data| - tot, BSIZE - off % BSIZE);
        AppendArithmetic(size, off, n1, size + |data|);
        WrittenSolid(os, fs, i, size, data[..tot]);
        AppendChunk(i, off, data[tot..tot + n1]);
        BuildingBasics(fs, freeblock, owner);
        assert data[..tot + n1][..tot] == data[..tot] && data[..tot + n1][tot..] == data[tot..tot + n1];
        WrittenTwice(os, bs, fs, i, size, size, data[..tot + n1], tot);
        off, tot := off + n1, tot + n1;
      }
      assert data[..tot] == data;
      Resized(os, fs, owner, freeblock, i, size, off, data);
      fs := fs.(mem := map[i := fs.mem[i].(size := off)]);
      ghost var rs := fs;
      BuildingBasics(fs, freeblock, owner);
      Close(i);
      BuildingBasics(fs, freeblock, owner);
      AppendDone(old(fs), os, rs, fs, i);
    }

    /** The body of iappend's loop. */
    method AppendChunk(i: nat, off: nat, data: seq<byte>)
      requires Building(fs, freeblock, owner) && fs.mem.Keys == {i} && NoHoles(fs, i, Ceil(off))
      requires 0 < |data| && off % BSIZE + |data| <= BSIZE && off + |data| <= MAXBYTES
      requires Ceil(off) <= Ceil(off + |data|) && freeblock + NewBlocks(Ceil(off), Ceil(off + |data|)) <= fs.sb.size
      modifies this
      ensures Building(fs, freeblock, owner) && fs.sb == old(fs).sb && fs.mem.Keys == {i} && freeinode == old(freeinode)
      ensures Written(old(fs), fs, i, off, off, data) && SameKind(old(fs).mem[i], fs.mem[i])
      ensures old(freeblock) <= freeblock <= old(freeblock) + NewBlocks(Ceil(off), Ceil(off + |data|))
    {
      hide Slot, SlotsOwned, DInode, Used, NoHoles, FileByte, Building, Frame, SameData, Written, PutBytes;
      ghost var bs := fs;
      BuildingBasics(fs, freeblock, owner);
      AppendArithmetic(off, off, |data|, off + |data|);
      var x := FindBlock(i, off / BSIZE, Ceil(off));
      BuildingBasics(fs, freeblock, owner);
      ghost var ms := fs;
      ChunkLands(bs, owner, fs, i, off, off, data);
      fs := fs.(blk := fs.blk[x := PutBytes(fs.blk[x], off % BSIZE, data)], logged := fs.logged + {x});
      StillBuilding(ms, fs, freeblock, owner, i, off / BSIZE);
    }

    /** The last lines of main(): the root directory's size is rounded up.  That leaves the
        file whole exactly when its size was not a multiple of BSIZE. */
    method FixRootSize(i: nat)
      requires Valid() && i < fs.sb.ninodes
      modifies this`fs
      ensures Building(fs, freeblock, owner) && fs.sb == old(fs).sb && fs.mem == map[] && OthersSame(old(fs), fs, i)
      ensures FileOk(old(fs), i) && Node(fs, i) == Node(old(fs), i).(size := RootSize(Node(old(fs), i).size))
      ensures forall p: nat :: p < MAXBYTES ==> FileByte(fs, i, p) == FileByte(old(fs), i, p)
      ensures FileOk(fs, i) <==> Node(old(fs), i).size % BSIZE != 0
      ensures NoHoles(fs, i, Ceil(Node(old(fs), i).size))
    {
      hide GetInode, Slot, SlotsOwned, NoHoles, Used, FileByte;
      Open(i);
      ghost var os := fs;
      fs := fs.(mem := map[i := fs.mem[i].(size := RootSize(fs.mem[i].size))]);
      EditView(os, fs, owner, freeblock);
      Winode(i);
      RootSizeHoles(old(fs), fs, i);
      SameNoHoles(old(fs), fs, i, Ceil(Node(old(fs), i).size));
    }

    /** balloc(used) of mkfs.c: marks the first `used` blocks.  The kernel's invariant holds. */
    method Balloc()
      requires Building(fs, freeblock, owner) && freeblock < BPB
      modifies this`fs
      ensures fs.sb == old(fs).sb && fs.mem == old(fs).mem && Owned(fs, owner) && SameSlots(old(fs), fs)
      ensures forall i: nat :: i < fs.sb.ninodes ==> Node(fs, i) == Node(old(fs), i)
      ensures forall i: nat, p: nat :: i < fs.sb.ninodes && p < MAXBYTES ==>
        FileByte(fs, i, p) == FileByte(old(fs), i, p)
    {
      hide BitAt, PutBit, Slot, SlotsOwned, DInode, FileOk, FileByte, Used;
      var buf := ZeroBlock();
      ZeroBits();
      for k := 0 to freeblock
        invariant forall j: nat :: j < BPB ==> (BitAt(buf, j) <==> j < k)
      {
        ghost var was := buf;
        buf := PutBit(buf, k, 1);
        forall j: nat | j < BPB ensures BitAt(buf, j) <==> j < k + 1 { PutBitAt(was, k, 1, j); }
      }
      ghost var os := fs;
      fs := fs.(blk := fs.blk[fs.sb.bmapstart := buf]);
      BitmapWritten(os, fs, owner, freeblock, buf);
    }
  }

  // ---------------------------------------------------------------- lemmas for the methods

  lemma BuildingBasics(fs: Fs, freeblock: nat, owner: Owner)
    requires Building(fs, freeblock, owner)
    ensures Wf(fs) && SlotsOwned(fs, owner)
  {
  }

  lemma SameFrame(fs: Fs, owner: Owner, i: nat)
    requires Wf(fs) && SlotsOwned(fs, owner) && i in fs.mem
    ensures Frame(fs, fs, i) && SameData(fs, fs)
  {
    hide Slot, DInode;
    OwnedInData(fs, owner);
  }

  /** Filling the indirect slot does not fill its entries. */
  lemma EntryAbsent(fs: Fs, gs: Fs, i: nat, k: nat, bn: nat)
    requires Wf(fs) && Wf(gs) && gs.sb == fs.sb && i in fs.mem && i in gs.mem && NoHoles(fs, i, k) && NDIRECT <= bn <= k
      && bn < MAXFILE
    requires FillFrame(fs, gs, i, IND)
    ensures Slot(gs, i, bn + 1) == Slot(fs, i, bn + 1) && Slot(gs, i, IND) != 0
    ensures Slot(fs, i, bn + 1) == 0 <==> bn == k
    ensures Slot(fs, i, IND) == 0 <==> k == NDIRECT
  {
    hide Slot, DInode;
    assert Slot(fs, i, FileSlot(bn)) == Slot(fs, i, bn + 1);
  }

  lemma WrittenNothing(fs: Fs, i: nat, size: nat)
    requires Wf(fs) && i in fs.mem && size <= MAXBYTES && NoHoles(fs, i, Ceil(size))
    ensures Written(fs, fs, i, size, size, [])
  {
    hide Slot, DInode, NoHoles, FileByte;
    SpliceAt(FileBytes(fs, i, size), size, [], FileBytes(fs, i, size));
  }

  /** Blocks needed to append, one chunk at a time. */
  lemma AppendArithmetic(size: nat, off: nat, n: nat, end: nat)
    requires size <= off && 0 < n && off % BSIZE + n <= BSIZE && off + n <= end
    ensures Ceil(size) <= Ceil(off) <= Ceil(off + n) <= Ceil(end) && off / BSIZE <= Ceil(off)
    ensures Max(Ceil(off), off / BSIZE + 1) == Ceil(off + n)
    ensures NewBlocks(Ceil(size), Ceil(off)) + NewBlocks(Ceil(off), Ceil(off + n)) ==
      NewBlocks(Ceil(size), Ceil(off + n))
    ensures NewBlocks(Ceil(size), Ceil(off + n)) <= NewBlocks(Ceil(size), Ceil(end))
  {
  }

  lemma StillBuilding(fs: Fs, gs: Fs, freeblock: nat, owner: Owner, i: nat, n: nat)
    requires Building(fs, freeblock, owner) && Wf(gs) && gs.sb == fs.sb && SlotsOwned(gs, owner)
    requires i < fs.sb.ninodes && n < MAXFILE && 0 < Slot(fs, i, FileSlot(n)) < fs.sb.size
    requires forall b: nat :: b < fs.sb.size && b != Slot(fs, i, FileSlot(n)) ==> gs.blk[b] == fs.blk[b]
    requires forall b: nat :: b < fs.sb.size ==> Used(gs, b) == Used(fs, b)
    ensures Building(gs, freeblock, owner)
  {
    hide Slot, BitAt;
    assert Slot(fs, i, FileSlot(n)) in owner;
  }

  /** Setting the size to what was written makes the file whole again. */
  lemma Resized(os: Fs, fs: Fs, owner: Owner, freeblock: nat, i: nat, size: nat, off: nat, data: seq<byte>)
    requires Wf(os) && AllFilesOk(os) && os.mem.Keys == {i} && size == os.mem[i].size
      && off == size + |data| <= MAXBYTES
    requires Building(fs, freeblock, owner) && fs.sb == os.sb && fs.mem.Keys == {i}
      && Written(os, fs, i, size, size, data)
    ensures var gs := fs.(mem := map[i := fs.mem[i].(size := off)]);
      && Building(gs, freeblock, owner) && AllFilesOk(gs) && OthersSame(os, gs, i)
      && Contents(gs, i) == Contents(os, i) + data
  {
    hide Slot, SlotsOwned, DInode, Used, NoHoles, FileByte;
    var gs := fs.(mem := map[i := fs.mem[i].(size := off)]);
    assert gs.mem == fs.mem[i := fs.mem[i].(size := off)];
    ResizeKeeps(fs, owner, i, off);
    SameNoHoles(fs, gs, i, Ceil(off));
    forall j: nat | j < os.sb.ninodes ensures FileOk(gs, j) {
      assert FileOk(os, j);
      if j != i { OtherNoHoles(os, gs, j, Ceil(Node(os, j).size)); }
    }
    assert FileBytes(gs, i, off) == FileBytes(fs, i, off);
  }

  lemma OtherNoHoles(fs: Fs, gs: Fs, j: nat, k: nat)
    requires Wf(fs) && Wf(gs) && gs.sb == fs.sb && j < fs.sb.ninodes && NoHoles(fs, j, k)
    requires forall t: nat :: t < SLOTS ==> Slot(gs, j, t) == Slot(fs, j, t)
    ensures NoHoles(gs, j, k)
  {
    hide Slot;
    forall n: nat | n < MAXFILE ensures Slot(gs, j, FileSlot(n)) != 0 <==> n < k {
      assert Slot(gs, j, FileSlot(n)) == Slot(fs, j, FileSlot(n));
    }
  }

  lemma AppendDone(a: Fs, b: Fs, c: Fs, d: Fs, i: nat)
    requires Wf(a) && Wf(b) && Wf(c) && Wf(d) && a.sb == b.sb == c.sb == d.sb
    requires OthersSame(a, b, i) && OthersSame(b, c, i) && OthersSame(c, d, i)
    ensures OthersSame(a, d, i)
  {
    hide Slot, DInode, FileByte, Node;
  }

  lemma BitmapWritten(fs: Fs, gs: Fs, owner: Owner, freeblock: nat, buf: Block)
    requires Building(fs, freeblock, owner) && freeblock < BPB
    requires gs == fs.(blk := fs.blk[fs.sb.bmapstart := buf])
    requires forall j: nat :: j < BPB ==> (BitAt(buf, j) <==> j < freeblock)
    ensures Owned(gs, owner) && SameSlots(fs, gs)
    ensures forall i: nat :: i < fs.sb.ninodes ==> Node(gs, i) == Node(fs, i)
    ensures forall i: nat, p: nat :: i < fs.sb.ninodes && p < MAXBYTES ==> FileByte(gs, i, p) == FileByte(fs, i, p)
  {
    hide BitAt, Slot, DInode, NoHoles, FileByte;
    OwnedInData(fs, owner);
    ChangeData(fs, owner, gs, fs.sb.bmapstart);
    StillOwned(fs, owner, gs);
    forall b: nat | b < fs.sb.size ensures Used(gs, b) <==> b < fs.sb.datastart || b in owner {
      assert !Used(fs, b);
      if b < BPB { assert fs.sb.BBlock(b) == fs.sb.bmapstart && b % BPB == b; }
    }
    forall i: nat, p: nat | i < fs.sb.ninodes && p < MAXBYTES ensures FileByte(gs, i, p) == FileByte(fs, i, p) {
      MetaByte(fs, owner, gs, fs.sb.bmapstart, i, p);
    }
  }

  /** Editing an inode's other fields in fs.mem, or dropping the edited copy, leaves blocks and bytes alone. */
  lemma EditView(fs: Fs, gs: Fs, owner: Owner, freeblock: nat)
    requires Building(fs, freeblock, owner) && gs.sb == fs.sb && gs.blk == fs.blk && Wf(gs)
    requires forall i: nat :: i < fs.sb.ninodes ==> Node(gs, i).addrs == Node(fs, i).addrs
    ensures Building(gs, freeblock, owner) && SameSlots(fs, gs)
    ensures forall i: nat :: i < fs.sb.ninodes ==> DInode(gs, i) == DInode(fs, i)
    ensures forall i: nat, p: nat :: i < fs.sb.ninodes && p < MAXBYTES ==> FileByte(gs, i, p) == FileByte(fs, i, p)
  {
    hide GetWord, GetInode, BitAt, FileByte;
    SameSlotsView(fs, gs);
    StillOwned(fs, owner, gs);
    assert forall b: nat :: b < fs.sb.size ==> Used(gs, b) == Used(fs, b);
    forall i: nat, p: nat | i < fs.sb.ninodes && p < MAXBYTES ensures FileByte(gs, i, p) == FileByte(fs, i, p) {
      SameByteView(fs, gs, i, p);
    }
  }

  lemma SameSlotsView(fs: Fs, gs: Fs)
    requires Wf(fs) && Wf(gs) && gs.sb == fs.sb && gs.blk == fs.blk
    requires forall i: nat :: i < fs.sb.ninodes ==> Node(gs, i).addrs == Node(fs, i).addrs
    ensures SameSlots(fs, gs)
  {
    hide GetWord, DInode;
  }

  lemma SameByteView(fs: Fs, gs: Fs, i: nat, p: nat)
    requires Wf(fs) && Wf(gs) && gs.sb == fs.sb && gs.blk == fs.blk && SameSlots(fs, gs) && i < fs.sb.ninodes
      && p < MAXBYTES
    ensures FileByte(gs, i, p) == FileByte(fs, i, p)
  {
    hide Slot;
  }

  lemma SameContents(fs: Fs, gs: Fs, i: nat)
    requires Wf(fs) && Wf(gs) && gs.sb == fs.sb && AllFilesOk(fs) && AllFilesOk(gs) && i < fs.sb.ninodes
    requires Node(gs, i).size == Node(fs, i).size
    requires forall p: nat :: p < MAXBYTES ==> FileByte(gs, i, p) == FileByte(fs, i, p)
    ensures FileOk(fs, i) && FileOk(gs, i) && Contents(gs, i) == Contents(fs, i)
  {
    hide NoHoles, FileByte, DInode;
    assert FileOk(fs, i) && FileOk(gs, i);
  }

  lemma WrittenSolid(fs: Fs, gs: Fs, i: nat, size: nat, data: seq<byte>)
    requires Wf(fs) && Wf(gs) && gs.sb == fs.sb && i in fs.mem && i in gs.mem && size + |data| <= MAXBYTES
    requires Written(fs, gs, i, size, size, data)
    ensures NoHoles(gs, i, Ceil(size + |data|))
  {
  }

  lemma FilesStillOk(fs: Fs, gs: Fs)
    requires Wf(fs) && Wf(gs) && gs.sb == fs.sb && SameSlots(fs, gs) && AllFilesOk(fs)
    requires forall i: nat :: i < fs.sb.ninodes ==> Node(gs, i).size == Node(fs, i).size
    ensures AllFilesOk(gs)
  {
    hide Slot, DInode, NoHoles;
    forall i: nat | i < fs.sb.ninodes ensures FileOk(gs, i) {
      assert FileOk(fs, i);
      SameNoHoles(fs, gs, i, Ceil(Node(fs, i).size));
    }
  }

  lemma OwnedRange(fs: Fs, owner: Owner)
    requires Wf(fs) && SlotsOwned(fs, owner)
    ensures forall i: nat :: i in fs.mem && Slot(fs, i, IND) != 0 ==>
      Slot(fs, i, IND) in owner && Slot(fs, i, IND) < fs.sb.size
  {
    hide Slot;
    OwnedInData(fs, owner);
  }

  lemma BitsStayClear(fs: Fs, gs: Fs, i: nat)
    requires Wf(fs) && Wf(gs) && gs.sb == fs.sb && forall b: nat :: b < fs.sb.size ==> !Used(fs, b)
    requires forall c: nat :: c < fs.sb.datastart ==> gs.blk[c] == fs.blk[c]
    ensures forall b: nat :: b < fs.sb.size ==> !Used(gs, b)
  {
    hide BitAt;
    forall b: nat | b < fs.sb.size ensures !Used(gs, b) {
      assert !Used(fs, b) && fs.sb.BBlock(b) < fs.sb.datastart;
    }
  }
}
