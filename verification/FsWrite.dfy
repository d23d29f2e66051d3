/** writei and readi of xv6/fs.c as operations on byte sequences, and the
    number of distinct blocks a filewrite transaction logs (xv6/file.c). */
module FsWrite {
  import opened Commons
  import opened Blocks
  import opened FsLayout
  import opened FsState
  import opened FsAlloc
  import opened FsFile

  lemma OwnedInData(fs: Fs, owner: Owner)
    requires Wf(fs) && SlotsOwned(fs, owner)
    ensures forall b :: b in owner ==> fs.sb.datastart <= b < fs.sb.size
  {
    forall b | b in owner ensures fs.sb.datastart <= b < fs.sb.size {
      assert OwnedAt(fs, b, owner[b].0, owner[b].1);
    }
  }

  // ---------------------------------------------------------------- iupdate

  lemma IupdateInodes(fs: Fs, i: nat)
    requires Wf(fs) && i in fs.mem
    ensures var gs := Iupdate(fs, i);
      Wf(gs) && forall j: nat :: j < fs.sb.ninodes ==> DInode(gs, j) == if j == i then fs.mem[i] else DInode(fs, j)
  {
    hide GetInode, PutInode;
    var gs := Iupdate(fs, i);
    forall j: nat | j < fs.sb.ninodes ensures DInode(gs, j) == if j == i then fs.mem[i] else DInode(fs, j) {
      GetPutInode(fs.blk[fs.sb.IBlock(i)], i % IPB, fs.mem[i], j % IPB);
    }
  }

  /** iupdate makes the disk copy equal to the in-memory inode and disturbs nothing else. */
  lemma IupdateKeeps(fs: Fs, owner: Owner, i: nat)
    requires Wf(fs) && SlotsOwned(fs, owner) && i in fs.mem
    ensures var gs := Iupdate(fs, i);
      && Wf(gs) && SlotsOwned(gs, owner) && (forall b: nat :: b < fs.sb.size ==> Used(gs, b) == Used(fs, b))
      && SameSlots(fs, gs) && gs.mem == fs.mem
      && DInode(gs, i) == fs.mem[i]
      && (forall j: nat :: j < fs.sb.ninodes && j != i ==> DInode(gs, j) == DInode(fs, j))
      && (forall j: nat :: j < fs.sb.ninodes ==> Node(gs, j) == Node(fs, j))
      && (forall j: nat, p: nat :: j < fs.sb.ninodes && p < MAXBYTES ==> FileByte(gs, j, p) == FileByte(fs, j, p))
  {
    hide Slot, GetInode, PutInode, BitAt, FileByte;
    var ib := fs.sb.IBlock(i);
    var gs := Iupdate(fs, i);
    Regions(fs.sb, i, 0);
    IupdateInodes(fs, i);
    OwnedInData(fs, owner);
    forall j: nat, t: nat | j < fs.sb.ninodes && t < SLOTS ensures Slot(gs, j, t) == Slot(fs, j, t) {
      SlotFrame(fs, owner, gs, ib, j, t);
    }
    StillOwned(fs, owner, gs);
    forall b: nat | b < fs.sb.size ensures Used(gs, b) == Used(fs, b) {
      Regions(fs.sb, i, b);
    }
    forall j: nat, p: nat | j < fs.sb.ninodes && p < MAXBYTES ensures FileByte(gs, j, p) == FileByte(fs, j, p) {
      MetaByte(fs, owner, gs, ib, j, p);
    }
  }

  lemma MetaByte(fs: Fs, owner: Owner, gs: Fs, ib: nat, j: nat, p: nat)
    requires Wf(fs) && Wf(gs) && gs.sb == fs.sb && SlotsOwned(fs, owner) && SameSlots(fs, gs)
    requires ib < fs.sb.datastart && forall c :: 0 <= c < fs.sb.size && c != ib ==> gs.blk[c] == fs.blk[c]
    requires j < fs.sb.ninodes && p < MAXBYTES
    ensures FileByte(gs, j, p) == FileByte(fs, j, p)
  {
    hide Slot;
    var a := Slot(fs, j, FileSlot(p / BSIZE));
    if a != 0 { assert OwnedAt(fs, a, j, FileSlot(p / BSIZE)); }
  }

  /** A change of size alone moves no block. */
  lemma ResizeKeeps(fs: Fs, owner: Owner, i: nat, size: u32)
    requires Wf(fs) && SlotsOwned(fs, owner) && i in fs.mem
    ensures var gs := fs.(mem := fs.mem[i := fs.mem[i].(size := size)]);
      && Wf(gs) && SlotsOwned(gs, owner) && (forall b: nat :: b < fs.sb.size ==> Used(gs, b) == Used(fs, b))
      && SameSlots(fs, gs)
      && (forall j: nat :: j < fs.sb.ninodes ==> DInode(gs, j) == DInode(fs, j))
      && (forall j: nat :: j < fs.sb.ninodes && j != i ==> Node(gs, j) == Node(fs, j))
      && (forall j: nat, p: nat :: j < fs.sb.ninodes && p < MAXBYTES ==> FileByte(gs, j, p) == FileByte(fs, j, p))
  {
    hide GetInode, BitAt;
    var gs := fs.(mem := fs.mem[i := fs.mem[i].(size := size)]);
    forall j: nat, t: nat | j < fs.sb.ninodes && t < SLOTS ensures Slot(gs, j, t) == Slot(fs, j, t) {
      assert Node(gs, j).addrs == Node(fs, j).addrs;
    }
    StillOwned(fs, owner, gs);
    assert forall b: nat :: b < fs.sb.size ==> Used(gs, b) == Used(fs, b);
  }

  // ---------------------------------------------------------------- writei

  /** Nothing of any other inode changes: neither its record, nor its blocks, nor its bytes. */
  ghost predicate OthersSame(fs: Fs, gs: Fs, i: nat)
    requires Wf(fs) && Wf(gs) && gs.sb == fs.sb
  {
    && (forall j: nat :: j < fs.sb.ninodes && j != i ==> Node(gs, j) == Node(fs, j) && DInode(gs, j) == DInode(fs, j))
    && (forall j: nat, t: nat :: j < fs.sb.ninodes && j != i && t < SLOTS ==> Slot(gs, j, t) == Slot(fs, j, t))
    && (forall j: nat, p: nat :: j < fs.sb.ninodes && j != i && p < MAXBYTES ==>
         FileByte(gs, j, p) == FileByte(fs, j, p))
  }

  /** writei at off <= size is a splice of the file's bytes; block ownership and
      the absence of holes are kept, other files are untouched, and the disk
      inode equals the in-memory one afterwards if it did before. */
  lemma WriteiRefines(fs: Fs, owner: Owner, i: nat, off: nat, src: seq<byte>) returns (owner': Owner)
    requires Owned(fs, owner) && i in fs.mem && FileOk(fs, i) && off <= fs.mem[i].size && off + |src| <= MAXBYTES
    ensures !WriteRefused(fs, i, off, |src|)
    ensures Writei(fs, i, off, src).Some? ==>
      var gs := Writei(fs, i, off, src).value;
      && Owned(gs, owner') && gs.sb == fs.sb && gs.mem.Keys == fs.mem.Keys && FileOk(gs, i)
      && Contents(gs, i) == Splice(Contents(fs, i), off, src)
      && OthersSame(fs, gs, i) && SameKind(fs.mem[i], gs.mem[i])
      && (DInode(fs, i) == fs.mem[i] ==> DInode(gs, i) == gs.mem[i])
  {
    hide Slot, DInode, SlotsOwned, Used, WriteLoop, Splice, NoHoles, FileByte, PutInode;
    var len := fs.mem[i].size;
    owner' := LoopWrites(fs, owner, i, len, off, src);
    if WriteLoop(fs, i, off, src).Some? {
      var ms := WriteLoop(fs, i, off, src).value;
      var end := off + |src|;
      if end > len {
        ResizeKeeps(ms, owner', i, end);
        var rs := ms.(mem := ms.mem[i := ms.mem[i].(size := end)]);
        SameNoHoles(ms, rs, i, Ceil(end));
        IupdateKeeps(rs, owner', i);
        SameNoHoles(rs, Iupdate(rs, i), i, Ceil(end));
        assert FileBytes(Iupdate(rs, i), i, end) == FileBytes(ms, i, end);
      }
    }
  }

  lemma SameNoHoles(fs: Fs, gs: Fs, i: nat, k: nat)
    requires Wf(fs) && Wf(gs) && gs.sb == fs.sb && SameSlots(fs, gs) && i < fs.sb.ninodes && NoHoles(fs, i, k)
    ensures NoHoles(gs, i, k)
  {
    hide Slot;
    forall n: nat | n < MAXFILE ensures Slot(gs, i, FileSlot(n)) != 0 <==> n < k {
      assert Slot(gs, i, FileSlot(n)) == Slot(fs, i, FileSlot(n));
    }
  }

  // ---------------------------------------------------------------- readi

  /** readi's loop; the state is returned because bmap may allocate. */
  function ReadLoop(fs: Fs, i: nat, off: nat, n: nat): (r: Option<(Fs, seq<byte>)>)
    requires Wf(fs) && i in fs.mem
    ensures r.Some? ==> Wf(r.value.0) && i in r.value.0.mem && r.value.0.mem[i].size == fs.mem[i].size
    decreases n
  {
    if n == 0 then Some((fs, [])) else
    match Bmap(fs, i, off / BSIZE)
    case None => None
    case Some(gs) =>
      if off / BSIZE >= MAXFILE then None else
      var a := Slot(gs, i, FileSlot(off / BSIZE));
      if a >= gs.sb.size then None else
      var m := Min(n, BSIZE - off % BSIZE);
      match ReadLoop(gs, i, off + m, n - m)
      case None => None
      case Some((hs, rest)) => Some((hs, gs.blk[a].bytes[off % BSIZE..off % BSIZE + m] + rest))
  }

  predicate ReadRefused(fs: Fs, i: nat, off: nat, n: nat)
    requires i in fs.mem
  {
    off > fs.mem[i].size || off + n >= U32
  }

  /** readi on a call it does not refuse. */
  function Readi(fs: Fs, i: nat, off: nat, n: nat): Option<(Fs, seq<byte>)>
    requires Wf(fs) && i in fs.mem && !ReadRefused(fs, i, off, n)
  {
    ReadLoop(fs, i, off, Min(n, fs.mem[i].size - off))
  }

  lemma {:induction false} LoopReads(fs: Fs, owner: Owner, i: nat, len: nat, off: nat, n: nat)
    requires Owned(fs, owner) && i in fs.mem && len <= MAXBYTES && NoHoles(fs, i, Ceil(len)) && off + n <= len
    ensures ReadLoop(fs, i, off, n) == Some((fs, FileBytes(fs, i, len)[off..off + n]))
    decreases n
  {
    hide Slot, Bmap, SlotsOwned, BitsMatch, FileByte, NoHoles, FileBytes;
    if n > 0 {
      var m := Min(n, BSIZE - off % BSIZE);
      PresentAt(fs, owner, i, len, off);
      LoopReads(fs, owner, i, len, off + m, n - m);
      ReadChunk(fs, i, len, off, m);
      SliceSplit(FileBytes(fs, i, len), off, m, n);
    } else {
      assert FileBytes(fs, i, len)[off..off] == [];
    }
  }

  lemma SliceSplit(s: seq<byte>, off: nat, m: nat, n: nat)
    requires m <= n && off + n <= |s|
    ensures s[off..off + m] + s[off + m..off + n] == s[off..off + n]
  {
  }

  lemma PresentAt(fs: Fs, owner: Owner, i: nat, len: nat, off: nat)
    requires Owned(fs, owner) && i in fs.mem && len <= MAXBYTES && NoHoles(fs, i, Ceil(len)) && off < len
    ensures off / BSIZE < MAXFILE && Bmap(fs, i, off / BSIZE) == Some(fs)
    ensures 0 < Slot(fs, i, FileSlot(off / BSIZE)) < fs.sb.size
  {
    hide Slot, Bmap, SlotsOwned, BitsMatch;
    BmapPresent(fs, owner, i, Ceil(len), off / BSIZE);
    PresentInRange(fs, owner);
    assert Slot(fs, i, FileSlot(off / BSIZE)) != 0;
  }

  /** The bytes that one round copies out of its buffer. */
  lemma ReadChunk(fs: Fs, i: nat, len: nat, off: nat, m: nat)
    requires Wf(fs) && i < fs.sb.ninodes && len <= MAXBYTES && off + m <= len && off % BSIZE + m <= BSIZE && m > 0
    requires 0 < Slot(fs, i, FileSlot(off / BSIZE)) < fs.sb.size
    ensures fs.blk[Slot(fs, i, FileSlot(off / BSIZE))].bytes[off % BSIZE..off % BSIZE + m] ==
      FileBytes(fs, i, len)[off..off + m]
  {
    hide Slot;
    var data := fs.blk[Slot(fs, i, FileSlot(off / BSIZE))].bytes[off % BSIZE..off % BSIZE + m];
    forall p | 0 <= p < m ensures data[p] == FileBytes(fs, i, len)[off + p] {
      assert (off + p) / BSIZE == off / BSIZE && (off + p) % BSIZE == off % BSIZE + p;
    }
  }

  /** readi returns the slice of the file that the call asks for, clipped at its end, and changes nothing. */
  lemma ReadiRefines(fs: Fs, owner: Owner, i: nat, off: nat, n: nat)
    requires Owned(fs, owner) && i in fs.mem && FileOk(fs, i) && off <= fs.mem[i].size && off + n < U32
    ensures !ReadRefused(fs, i, off, n)
    ensures Readi(fs, i, off, n) == Some((fs, Contents(fs, i)[off..Min(off + n, fs.mem[i].size)]))
  {
    hide Slot, ReadLoop, NoHoles, SlotsOwned, BitsMatch;
    LoopReads(fs, owner, i, fs.mem[i].size, off, Min(n, fs.mem[i].size - off));
  }

  /** The same for a part of the file in front of its first hole. */
  lemma ReadPart(fs: Fs, owner: Owner, i: nat, len: nat, off: nat, n: nat)
    requires Owned(fs, owner) && i in fs.mem && len <= MAXBYTES && NoHoles(fs, i, Ceil(len))
    requires off <= fs.mem[i].size && off + n < U32 && off + Min(n, fs.mem[i].size - off) <= len
    ensures !ReadRefused(fs, i, off, n)
    ensures Readi(fs, i, off, n) ==
      Some((fs, FileBytes(fs, i, len)[off..off + Min(n, fs.mem[i].size - off)]))
  {
    hide Slot, ReadLoop, NoHoles, SlotsOwned, BitsMatch;
    LoopReads(fs, owner, i, len, off, Min(n, fs.mem[i].size - off));
  }

  /** What was written is read back. */
  lemma ReadAfterWrite(fs: Fs, owner: Owner, i: nat, off: nat, src: seq<byte>)
    requires Owned(fs, owner) && i in fs.mem && FileOk(fs, i) && off <= fs.mem[i].size && off + |src| <= MAXBYTES
    ensures !WriteRefused(fs, i, off, |src|)
    ensures Writei(fs, i, off, src).Some? ==>
      var gs := Writei(fs, i, off, src).value;
      Wf(gs) && i in gs.mem && !ReadRefused(gs, i, off, |src|) && Readi(gs, i, off, |src|) == Some((gs, src))
  {
    hide Slot, Writei, Readi, NoHoles, SlotsOwned, BitsMatch, DInode;
    var owner' := WriteiRefines(fs, owner, i, off, src);
    if Writei(fs, i, off, src).Some? {
      var gs := Writei(fs, i, off, src).value;
      ReadiRefines(gs, owner', i, off, |src|);
      assert |Contents(gs, i)| == gs.mem[i].size;
      assert Contents(gs, i)[off..off + |src|] == src;
    }
  }

  // ---------------------------------------------------------------- blocks logged by one write

  /** Blocks of the file that n bytes at off touch. */
  function Chunks(off: nat, n: nat): nat {
    if n == 0 then 0 else (off + n - 1) / BSIZE - off / BSIZE + 1
  }

  /** Blocks that balloc hands out when a file grows from k to k' blocks. */
  function NewBlocks(k: nat, k': nat): nat
    requires k <= k'
  {
    k' - k + if k <= NDIRECT < k' then 1 else 0
  }

  /** The indirect block, if there is one. */
  function Indirect(fs: Fs, i: nat): set<nat>
    requires Wf(fs) && i < fs.sb.ninodes
  {
    if Slot(fs, i, IND) == 0 then {} else {Slot(fs, i, IND)}
  }

  lemma FillLogs(fs: Fs, owner: Owner, i: nat, s: nat) returns (bm: set<nat>)
    requires Owned(fs, owner) && i in fs.mem && s < SLOTS && (s > IND ==> Slot(fs, i, IND) != 0) && Slot(fs, i, s) == 0
    ensures s > IND ==> Slot(fs, i, IND) < fs.sb.size
    ensures |bm| <= 1
    ensures Fill(fs, i, s).Some? ==>
      var gs := Fill(fs, i, s).value;
      gs.logged <= fs.logged + bm + {Slot(gs, i, s)} + Indirect(gs, i)
  {
    hide Slot, SetSlot, BitsMatch, SlotsOwned, DInode, BitAt;
    bm := {};
    PresentInRange(fs, owner);
    IndIsSlot(fs, i);
    if FirstFree(fs, 0).Some? {
      var b := FirstFree(fs, 0).value;
      bm := {fs.sb.BBlock(b)};
      FillFresh(fs, owner, i, s, b);
      var gs := SetSlot(Mark(fs, b), i, s, b);
      assert gs.logged <= fs.logged + bm + {b} + Indirect(gs, i) by {
        SetSlotLogs(Mark(fs, b), i, s, b);
        IndIsSlot(gs, i);
      }
    }
  }

  lemma SetSlotLogs(fs: Fs, i: nat, s: nat, b: u32)
    requires Wf(fs) && i in fs.mem && s < SLOTS && (s > IND ==> fs.mem[i].addrs[IND] < fs.sb.size)
    ensures var gs := SetSlot(fs, i, s, b);
      if s <= IND then gs.logged == fs.logged
      else gs.logged == fs.logged + {fs.mem[i].addrs[IND]} && gs.mem == fs.mem
  {
  }

  /** bmap logs the block it returns, the indirect block, and one bitmap block per block allocated. */
  lemma BmapLogs(fs: Fs, owner: Owner, i: nat, k: nat, bn: nat) returns (bm: set<nat>)
    requires Owned(fs, owner) && i in fs.mem && NoHoles(fs, i, k) && bn <= k && bn < MAXFILE
    ensures |bm| <= NewBlocks(k, Max(k, bn + 1))
    ensures Bmap(fs, i, bn).Some? ==>
      var gs := Bmap(fs, i, bn).value;
      gs.logged <= fs.logged + bm + {Slot(gs, i, FileSlot(bn))} + Indirect(gs, i)
  {
    hide Slot, Fill, BitsMatch, SlotsOwned, DInode;
    bm := {};
    if bn < k {
      BmapPresent(fs, owner, i, k, bn);
    } else if bn < NDIRECT {
      assert Slot(fs, i, FileSlot(bn)) == 0;
      bm := FillLogs(fs, owner, i, bn);
    } else {
      bm := BmapIndirectLogs(fs, owner, i, bn);
    }
  }

  lemma BmapIndirectLogs(fs: Fs, owner: Owner, i: nat, k: nat) returns (bm: set<nat>)
    requires Owned(fs, owner) && i in fs.mem && NoHoles(fs, i, k) && NDIRECT <= k < MAXFILE
    ensures |bm| <= NewBlocks(k, k + 1)
    ensures Bmap(fs, i, k).Some? ==>
      var gs := Bmap(fs, i, k).value;
      gs.logged <= fs.logged + bm + {Slot(gs, i, FileSlot(k))} + Indirect(gs, i)
  {
    hide Slot, Fill, BitsMatch, SlotsOwned, DInode;
    bm := {};
    var owner1 := FillKeeps(fs, owner, i, IND);
    PresentInRange(fs, owner);
    FillPresent(fs, i);
    assert Slot(fs, i, FileSlot(k)) == 0;
    if k == NDIRECT {
      bm := FillLogs(fs, owner, i, IND);
    }
    if Fill(fs, i, IND).Some? {
      var gs := Fill(fs, i, IND).value;
      PresentInRange(gs, owner1);
      assert Slot(gs, i, k + 1) == 0;
      var bm2 := FillLogs(gs, owner1, i, k + 1);
      var owner2 := FillKeeps(gs, owner1, i, k + 1);
      UnionSize(bm, bm2);
      bm := bm + bm2;
    }
  }

  lemma UnionSize<T>(a: set<T>, b: set<T>)
    ensures |a + b| <= |a| + |b|
  {
    assert a + b == a + (b - a);
    SubsetSize(b - a, b);
  }

  lemma SubsetSize<T>(a: set<T>, b: set<T>)
    requires a <= b
    ensures |a| <= |b|
  {
    assert b == a + (b - a);
  }

  lemma ChunkLogs(fs: Fs, owner: Owner, i: nat, len: nat, off: nat, data: seq<byte>) returns (a: nat, bm: set<nat>)
    requires Owned(fs, owner) && i in fs.mem && off <= len <= MAXBYTES && NoHoles(fs, i, Ceil(len))
    requires 0 < |data| && off % BSIZE + |data| <= BSIZE && off + |data| <= MAXBYTES
    ensures |bm| <= NewBlocks(Ceil(len), Ceil(Max(len, off + |data|)))
    ensures WriteChunk(fs, i, off, data).Some? ==>
      var gs := WriteChunk(fs, i, off, data).value;
      gs.logged <= fs.logged + bm + {a} + Indirect(gs, i)
  {
    hide Slot, Bmap, BitsMatch, SlotsOwned, DInode;
    a := 0;
    bm := BmapLogs(fs, owner, i, Ceil(len), off / BSIZE);
    var owner' := BmapKeeps(fs, owner, i, Ceil(len), off / BSIZE);
    if Bmap(fs, i, off / BSIZE).Some? {
      var ms := Bmap(fs, i, off / BSIZE).value;
      PresentInRange(ms, owner');
      a := Slot(ms, i, FileSlot(off / BSIZE));
      assert a != 0;
      WriteBlockKeeps(ms, owner', i, off / BSIZE, off % BSIZE, data);
    }
  }

  lemma IndirectStays(fs: Fs, gs: Fs, i: nat)
    requires Wf(fs) && Wf(gs) && gs.sb == fs.sb && i in fs.mem && i in gs.mem && Frame(fs, gs, i)
    ensures Indirect(fs, i) <= Indirect(gs, i)
  {
    hide Slot, DInode;
  }

  /** The counts of the first chunk and of the rest add up. */
  lemma LogArithmetic(len: nat, off: nat, n: nat)
    requires off <= len
    ensures Ceil(len) <= Ceil(Max(len, off + n))
    ensures n > 0 ==>
      var m := Min(n, BSIZE - off % BSIZE);
      && Ceil(len) <= Ceil(Max(len, off + m)) <= Ceil(Max(len, off + n))
         && Max(Max(len, off + m), off + n) == Max(len, off + n)
      && 1 + Chunks(off + m, n - m) == Chunks(off, n)
      && NewBlocks(Ceil(len), Ceil(Max(len, off + m))) + NewBlocks(Ceil(Max(len, off + m)), Ceil(Max(len, off + n)))
         == NewBlocks(Ceil(len), Ceil(Max(len, off + n)))
  {
  }

  lemma LoopStep(fs: Fs, i: nat, off: nat, src: seq<byte>, m: nat, gs: Fs)
    requires Wf(fs) && i in fs.mem && src != [] && m == Min(|src|, BSIZE - off % BSIZE)
      && WriteChunk(fs, i, off, src[..m]) == Some(gs)
    ensures WriteLoop(fs, i, off, src) == WriteLoop(gs, i, off + m, src[m..])
  {
    hide WriteChunk;
  }

  lemma LoopEnds(fs: Fs, i: nat, off: nat, src: seq<byte>)
    requires Wf(fs) && i in fs.mem
    ensures src == [] ==> WriteLoop(fs, i, off, src) == Some(fs)
    ensures src != [] && WriteChunk(fs, i, off, src[..Min(|src|, BSIZE - off % BSIZE)]).None? ==>
      WriteLoop(fs, i, off, src).None?
  {
    hide WriteChunk;
  }

  lemma LogsAddUp(l0: set<nat>, l1: set<nat>, l2: set<nat>, a: nat, d: set<nat>, bm1: set<nat>, bm2: set<nat>,
    ind1: set<nat>, ind2: set<nat>)
    requires l1 <= l0 + bm1 + {a} + ind1 && l2 <= l1 + d + bm2 + ind2 && ind1 <= ind2
    ensures l2 <= l0 + ({a} + d) + (bm1 + bm2) + ind2
  {
  }

  /** writei's loop logs one block per chunk, the indirect block, and one bitmap block per block allocated. */
  lemma {:induction false} LoopLogs(fs: Fs, owner: Owner, i: nat, len: nat, off: nat, src: seq<byte>)
    returns (d: set<nat>, bm: set<nat>)
    requires Owned(fs, owner) && i in fs.mem && off <= len <= MAXBYTES && NoHoles(fs, i, Ceil(len))
    requires off + |src| <= MAXBYTES
    ensures |d| <= Chunks(off, |src|) && |bm| <= NewBlocks(Ceil(len), Ceil(Max(len, off + |src|)))
    ensures WriteLoop(fs, i, off, src).Some? ==>
      var gs := WriteLoop(fs, i, off, src).value;
      gs.logged <= fs.logged + d + bm + Indirect(gs, i)
    decreases |src|
  {
    hide Slot, DInode, SlotsOwned, BitsMatch, WriteChunk, WriteLoop, NoHoles, FileBytes, FileByte, Splice, Frame, Ceil,
      Chunks, NewBlocks, Indirect;
    d, bm := {}, {};
    LoopEnds(fs, i, off, src);
    LogArithmetic(len, off, |src|);
    if src != [] {
      var m := Min(|src|, BSIZE - off % BSIZE);
      var owner1 := ChunkWrites(fs, owner, i, len, off, src[..m]);
      if WriteChunk(fs, i, off, src[..m]).Some? {
        var ms := WriteChunk(fs, i, off, src[..m]).value;
        LoopStep(fs, i, off, src, m, ms);
        var a, bm1 := ChunkLogs(fs, owner, i, len, off, src[..m]);
        var d2, bm2 := LoopLogs(ms, owner1, i, Max(len, off + m), off + m, src[m..]);
        var owner2 := LoopWrites(ms, owner1, i, Max(len, off + m), off + m, src[m..]);
        UnionSize({a}, d2);
        UnionSize(bm1, bm2);
        d, bm := {a} + d2, bm1 + bm2;
        if WriteLoop(ms, i, off + m, src[m..]).Some? {
          var gs := WriteLoop(ms, i, off + m, src[m..]).value;
          IndirectStays(ms, gs, i);
          LogsAddUp(fs.logged, ms.logged, gs.logged, a, d2, bm1, bm2, Indirect(ms, i), Indirect(gs, i));
        }
      }
    }
  }

  /** filewrite's chunk: ((MAXOPBLOCKS-1-1-2) / 2) * 512 */
  const WRITEMAX: nat := (MAXOPBLOCKS - 1 - 1 - 2) / 2 * 512

  /** An unaligned first block is already allocated, so four chunks mean at most three new file blocks. */
  lemma TransactionArithmetic(len: nat, off: nat, n: nat)
    requires off <= len && n <= WRITEMAX
    ensures Chunks(off, n) + NewBlocks(Ceil(len), Ceil(Max(len, off + n))) + 2 <= MAXOPBLOCKS
  {
  }

  /** One transaction of filewrite logs at most MAXOPBLOCKS distinct blocks, for
      every offset, every chunk and every number of bitmap blocks. */
  lemma WriteiLogs(fs: Fs, owner: Owner, i: nat, off: nat, src: seq<byte>)
    requires Owned(fs, owner) && i in fs.mem && FileOk(fs, i) && !WriteRefused(fs, i, off, |src|)
    requires |src| <= WRITEMAX
    ensures Writei(fs, i, off, src).Some? ==>
      var gs := Writei(fs, i, off, src).value;
      |gs.logged - fs.logged| <= MAXOPBLOCKS && (fs.logged == {} ==> |gs.logged| <= MAXOPBLOCKS)
  {
    hide Slot, DInode, SlotsOwned, BitsMatch, WriteLoop, NoHoles, Indirect;
    var len := fs.mem[i].size;
    var d, bm := LoopLogs(fs, owner, i, len, off, src);
    if Writei(fs, i, off, src).Some? {
      var ms := WriteLoop(fs, i, off, src).value;
      var gs := Writei(fs, i, off, src).value;
      TransactionArithmetic(len, off, |src|);
      IndirectSize(ms, i);
      var all := d + bm + Indirect(ms, i) + {fs.sb.IBlock(i)};
      UnionSize(d, bm);
      UnionSize(d + bm, Indirect(ms, i));
      UnionSize(d + bm + Indirect(ms, i), {fs.sb.IBlock(i)});
      SubsetSize(gs.logged - fs.logged, all);
      assert fs.logged == {} ==> gs.logged - fs.logged == gs.logged;
    }
  }

  lemma IndirectSize(fs: Fs, i: nat)
    requires Wf(fs) && i < fs.sb.ninodes
    ensures |Indirect(fs, i)| <= 1
  {
  }
}
