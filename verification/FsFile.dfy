/** Inode contents: readi and writei of xv6/fs.c refine byte sequences. */
module FsFile {
  import opened Commons
  import opened Blocks
  import opened FsLayout
  import opened FsState
  import opened FsAlloc

  const MAXBYTES: nat := MAXFILE * BSIZE

  // ---------------------------------------------------------------- abstraction

  function Ceil(len: nat): nat {
    (len + BSIZE - 1) / BSIZE
  }

  /** Exactly the first k blocks of the file are present, and the indirect block when needed. */
  ghost predicate NoHoles(fs: Fs, i: nat, k: nat)
    requires Wf(fs) && i < fs.sb.ninodes
  {
    && k <= MAXFILE
    && (forall n: nat :: n < MAXFILE ==> (Slot(fs, i, FileSlot(n)) != 0 <==> n < k))
    && (Slot(fs, i, IND) != 0 <==> k > NDIRECT)
  }

  /** Byte p of file i, wherever its block is. */
  function FileByte(fs: Fs, i: nat, p: nat): byte
    requires Wf(fs) && i < fs.sb.ninodes && p < MAXBYTES
  {
    var a := Slot(fs, i, FileSlot(p / BSIZE));
    if a == 0 || a >= fs.sb.size then 0 else fs.blk[a].bytes[p % BSIZE]
  }

  ghost function FileBytes(fs: Fs, i: nat, len: nat): (s: seq<byte>)
    requires Wf(fs) && i < fs.sb.ninodes && len <= MAXBYTES
    ensures |s| == len && forall p :: 0 <= p < len ==> s[p] == FileByte(fs, i, p)
  {
    seq(len, p requires 0 <= p < len => FileByte(fs, i, p))
  }

  /** A file whose blocks match its size. */
  ghost predicate FileOk(fs: Fs, i: nat)
    requires Wf(fs) && i < fs.sb.ninodes
  {
    Node(fs, i).size <= MAXBYTES && NoHoles(fs, i, Ceil(Node(fs, i).size))
  }

  ghost function Contents(fs: Fs, i: nat): (s: seq<byte>)
    requires Wf(fs) && i < fs.sb.ninodes && Node(fs, i).size <= MAXBYTES
    ensures |s| == Node(fs, i).size
  {
    FileBytes(fs, i, Node(fs, i).size)
  }

  /** s overwritten at off with data, growing if need be. */
  function Splice(s: seq<byte>, off: nat, data: seq<byte>): (r: seq<byte>)
    requires off <= |s|
  {
    s[..off] + data + if off + |data| <= |s| then s[off + |data|..] else []
  }

  // ---------------------------------------------------------------- operations

  function PutBytes(b: Block, o: nat, data: seq<byte>): Block
    requires o + |data| <= BSIZE
  {
    Block(b.bytes[..o] + data + b.bytes[o + |data|..])
  }

  /** memmove into the buffer of block a, then log_write. */
  function WriteBlock(fs: Fs, a: nat, o: nat, data: seq<byte>): Fs
    requires a < |fs.blk| && o + |data| <= BSIZE
  {
    fs.(blk := fs.blk[a := PutBytes(fs.blk[a], o, data)], logged := fs.logged + {a})
  }

  /** One round of writei's loop; None is a panic. */
  function WriteChunk(fs: Fs, i: nat, off: nat, data: seq<byte>): (r: Option<Fs>)
    requires Wf(fs) && i in fs.mem && off % BSIZE + |data| <= BSIZE
    ensures r.Some? ==> Wf(r.value) && r.value.sb == fs.sb && r.value.mem.Keys == fs.mem.Keys
  {
    match Bmap(fs, i, off / BSIZE)
    case None => None
    case Some(gs) =>
      if off / BSIZE >= MAXFILE then None else
      var a := Slot(gs, i, FileSlot(off / BSIZE));
      if a >= gs.sb.size then None else Some(WriteBlock(gs, a, off % BSIZE, data))
  }

  /** writei's loop. */
  function WriteLoop(fs: Fs, i: nat, off: nat, src: seq<byte>): (r: Option<Fs>)
    requires Wf(fs) && i in fs.mem
    ensures r.Some? ==> Wf(r.value) && r.value.sb == fs.sb && r.value.mem.Keys == fs.mem.Keys
    decreases |src|
  {
    if src == [] then Some(fs) else
    var m := Min(|src|, BSIZE - off % BSIZE);
    match WriteChunk(fs, i, off, src[..m])
    case None => None
    case Some(gs) => WriteLoop(gs, i, off + m, src[m..])
  }

  /** iupdate */
  function Iupdate(fs: Fs, i: nat): Fs
    requires Wf(fs) && i in fs.mem
  {
    var ib := fs.sb.IBlock(i);
    fs.(blk := fs.blk[ib := PutInode(fs.blk[ib], i % IPB, fs.mem[i])], logged := fs.logged + {ib})
  }

  /** writei's last lines. */
  function Extend(fs: Fs, i: nat, end: u32): Fs
    requires Wf(fs) && i in fs.mem
  {
    if end > fs.mem[i].size then Iupdate(fs.(mem := fs.mem[i := fs.mem[i].(size := end)]), i) else fs
  }

  /** writei refuses the call with -1. */
  predicate WriteRefused(fs: Fs, i: nat, off: nat, n: nat)
    requires i in fs.mem
  {
    off > fs.mem[i].size || off + n >= U32 || off + n > MAXBYTES
  }

  /** writei on a call it does not refuse; None is a panic. */
  function Writei(fs: Fs, i: nat, off: nat, src: seq<byte>): Option<Fs>
    requires Wf(fs) && i in fs.mem && !WriteRefused(fs, i, off, |src|)
  {
    match WriteLoop(fs, i, off, src)
    case None => None
    case Some(gs) => Some(if |src| > 0 then Extend(gs, i, off + |src|) else gs)
  }

  // ---------------------------------------------------------------- bmap under no-holes

  /** What an operation on inode i leaves as it was, apart from file i's bytes. */
  ghost predicate Frame(fs: Fs, gs: Fs, i: nat)
    requires Wf(fs) && Wf(gs) && gs.sb == fs.sb && i in fs.mem && i in gs.mem
  {
    && (forall j: nat, t: nat :: j < fs.sb.ninodes && t < SLOTS && (j != i || Slot(fs, j, t) != 0) ==>
         Slot(gs, j, t) == Slot(fs, j, t))
    && (forall j: nat :: j < fs.sb.ninodes ==> DInode(gs, j) == DInode(fs, j))
    && (forall j: nat :: j < fs.sb.ninodes && j != i ==> Node(gs, j) == Node(fs, j))
    && SameKind(fs.mem[i], gs.mem[i]) && gs.mem[i].size == fs.mem[i].size
  }

  /** Blocks that files had keep their contents. */
  ghost predicate SameData(fs: Fs, gs: Fs)
    requires Wf(fs) && Wf(gs) && gs.sb == fs.sb
  {
    forall j: nat, t: nat :: j < fs.sb.ninodes && t < SLOTS && t != IND && Slot(fs, j, t) != 0 ==>
      Slot(fs, j, t) < fs.sb.size && gs.blk[Slot(fs, j, t)] == fs.blk[Slot(fs, j, t)]
  }

  /** bmap of the next missing block (or of a present one) keeps ownership and leaves no hole. */
  lemma BmapKeeps(fs: Fs, owner: Owner, i: nat, k: nat, bn: nat) returns (owner': Owner)
    requires Owned(fs, owner) && i in fs.mem && NoHoles(fs, i, k) && bn <= k && bn < MAXFILE
    ensures Bmap(fs, i, bn).Some? ==>
      var gs := Bmap(fs, i, bn).value;
      && Owned(gs, owner') && NoHoles(gs, i, Max(k, bn + 1)) && Frame(fs, gs, i) && SameData(fs, gs)
      && (bn < k ==> gs == fs)
  {
    if bn < k {
      BmapPresent(fs, owner, i, k, bn);
      owner' := owner;
    } else if bn < NDIRECT {
      owner' := FillKeeps(fs, owner, i, bn);
      if Fill(fs, i, bn).Some? {
        FilledOne(fs, i, k, Fill(fs, i, bn).value);
      }
    } else {
      owner' := BmapIndirect(fs, owner, i, bn);
    }
  }

  lemma BmapPresent(fs: Fs, owner: Owner, i: nat, k: nat, bn: nat)
    requires Owned(fs, owner) && i in fs.mem && NoHoles(fs, i, k) && bn < k
    ensures Bmap(fs, i, bn) == Some(fs)
  {
    hide Slot;
    PresentInRange(fs, owner);
    assert Slot(fs, i, FileSlot(bn)) != 0;
  }

  lemma BmapIndirect(fs: Fs, owner: Owner, i: nat, k: nat) returns (owner': Owner)
    requires Owned(fs, owner) && i in fs.mem && NoHoles(fs, i, k) && NDIRECT <= k < MAXFILE
    ensures Bmap(fs, i, k).Some? ==>
      var gs := Bmap(fs, i, k).value;
      Owned(gs, owner') && NoHoles(gs, i, k + 1) && Frame(fs, gs, i) && SameData(fs, gs)
  {
    hide Slot, Fill, DInode, BitsMatch, SlotsOwned;
    var owner1 := FillKeeps(fs, owner, i, IND);
    owner' := owner1;
    PresentInRange(fs, owner);
    FillPresent(fs, i);
    if Fill(fs, i, IND).Some? {
      var gs := Fill(fs, i, IND).value;
      PresentInRange(gs, owner1);
      owner' := FillKeeps(gs, owner1, i, k + 1);
      if Fill(gs, i, k + 1).Some? {
        FilledTwo(fs, i, k, gs, Fill(gs, i, k + 1).value);
      }
    }
  }

  lemma FilledOne(fs: Fs, i: nat, k: nat, gs: Fs)
    requires Wf(fs) && i in fs.mem && NoHoles(fs, i, k) && k < NDIRECT
    requires Wf(gs) && fs.sb == gs.sb && i in gs.mem && FillFrame(fs, gs, i, k)
    ensures NoHoles(gs, i, k + 1) && Frame(fs, gs, i) && SameData(fs, gs)
  {
    hide Slot, DInode;
    assert Slot(fs, i, FileSlot(k)) == 0;
    forall n: nat | n < MAXFILE ensures Slot(gs, i, FileSlot(n)) != 0 <==> n < k + 1 {
      assert n != k ==> Slot(gs, i, FileSlot(n)) == Slot(fs, i, FileSlot(n));
    }
  }

  lemma FilledTwo(fs: Fs, i: nat, k: nat, gs: Fs, hs: Fs)
    requires Wf(fs) && i in fs.mem && NoHoles(fs, i, k) && NDIRECT <= k < MAXFILE
    requires Wf(gs) && Wf(hs) && fs.sb == gs.sb == hs.sb && i in gs.mem && i in hs.mem
    requires FillFrame(fs, gs, i, IND) && FillFrame(gs, hs, i, k + 1) && (Slot(fs, i, IND) != 0 ==> gs == fs)
    ensures NoHoles(hs, i, k + 1) && Frame(fs, hs, i) && SameData(fs, hs)
  {
    hide Slot, DInode;
    assert Slot(fs, i, FileSlot(k)) == 0;
    forall n: nat | n < MAXFILE ensures Slot(hs, i, FileSlot(n)) != 0 <==> n < k + 1 {
      assert n != k ==> Slot(hs, i, FileSlot(n)) == Slot(gs, i, FileSlot(n)) == Slot(fs, i, FileSlot(n));
    }
    forall j: nat, t: nat | j < fs.sb.ninodes && t < SLOTS && (j != i || Slot(fs, j, t) != 0)
      ensures Slot(hs, j, t) == Slot(fs, j, t)
    {
      assert (j, t) != (i, k + 1);
    }
  }

  lemma PresentInRange(fs: Fs, owner: Owner)
    requires Owned(fs, owner)
    ensures forall j: nat, t: nat :: j < fs.sb.ninodes && t < SLOTS ==> Slot(fs, j, t) < fs.sb.size
  {
    hide Slot;
    forall j: nat, t: nat | j < fs.sb.ninodes && t < SLOTS ensures Slot(fs, j, t) < fs.sb.size {
      if Slot(fs, j, t) != 0 { assert OwnedAt(fs, Slot(fs, j, t), j, t); }
    }
  }

  lemma FillPresent(fs: Fs, i: nat)
    requires Wf(fs) && i in fs.mem && Slot(fs, i, IND) < fs.sb.size
    ensures forall s: nat :: s < SLOTS && Slot(fs, i, s) != 0 ==> Fill(fs, i, s) == Some(fs)
  {
    hide Slot;
  }

  // ---------------------------------------------------------------- writing bytes

  /** Slots, inodes and sizes are all the same; only file bytes may differ. */
  ghost predicate SameTree(fs: Fs, gs: Fs)
    requires Wf(fs) && Wf(gs) && gs.sb == fs.sb
  {
    && gs.mem == fs.mem && SameSlots(fs, gs)
    && forall j: nat :: j < fs.sb.ninodes ==> DInode(gs, j) == DInode(fs, j) && Node(gs, j) == Node(fs, j)
  }

  /** Writing into a file's block changes those bytes of that file and nothing else. */
  lemma WriteBlockKeeps(fs: Fs, owner: Owner, i: nat, n: nat, o: nat, data: seq<byte>)
    requires Wf(fs) && SlotsOwned(fs, owner) && i < fs.sb.ninodes && n < MAXFILE && o + |data| <= BSIZE
    requires 0 < Slot(fs, i, FileSlot(n)) < fs.sb.size
    ensures var gs := WriteBlock(fs, Slot(fs, i, FileSlot(n)), o, data);
      && Wf(gs) && SlotsOwned(gs, owner) && SameTree(fs, gs)
      && (forall b: nat :: b < fs.sb.size ==> Used(gs, b) == Used(fs, b))
      && forall j: nat, p: nat :: j < fs.sb.ninodes && p < MAXBYTES ==>
           FileByte(gs, j, p) == if j == i && n * BSIZE + o <= p < n * BSIZE + o + |data| then data[p - n * BSIZE - o]
             else FileByte(fs, j, p)
  {
    hide Slot, PutBytes, DInode, BitAt, FileByte;
    var a := Slot(fs, i, FileSlot(n));
    var gs := WriteBlock(fs, a, o, data);
    assert OwnedAt(fs, a, i, FileSlot(n));
    ChangeData(fs, owner, gs, a);
    StillOwned(fs, owner, gs);
    forall b: nat | b < fs.sb.size ensures Used(gs, b) == Used(fs, b) {
      assert fs.sb.BBlock(b) < fs.sb.datastart;
    }
    forall j: nat, p: nat | j < fs.sb.ninodes && p < MAXBYTES
      ensures FileByte(gs, j, p) == if j == i && n * BSIZE + o <= p < n * BSIZE + o + |data|
        then data[p - n * BSIZE - o] else FileByte(fs, j, p)
    {
      WriteBlockByte(fs, owner, i, n, o, data, j, p);
    }
  }

  lemma WriteBlockByte(fs: Fs, owner: Owner, i: nat, n: nat, o: nat, data: seq<byte>, j: nat, p: nat)
    requires Wf(fs) && SlotsOwned(fs, owner) && i < fs.sb.ninodes && n < MAXFILE && o + |data| <= BSIZE
    requires 0 < Slot(fs, i, FileSlot(n)) < fs.sb.size && j < fs.sb.ninodes && p < MAXBYTES
    requires var gs := WriteBlock(fs, Slot(fs, i, FileSlot(n)), o, data); Wf(gs) && SameSlots(fs, gs)
    ensures FileByte(WriteBlock(fs, Slot(fs, i, FileSlot(n)), o, data), j, p) ==
            if j == i && n * BSIZE + o <= p < n * BSIZE + o + |data| then data[p - n * BSIZE - o]
              else FileByte(fs, j, p)
  {
    hide Slot;
    var a, c := Slot(fs, i, FileSlot(n)), Slot(fs, j, FileSlot(p / BSIZE));
    var gs := WriteBlock(fs, a, o, data);
    assert owner[a] == (i, FileSlot(n));
    assert c != 0 ==> owner[c] == (j, FileSlot(p / BSIZE));
    assert Slot(gs, j, FileSlot(p / BSIZE)) == c;
  }

  /** bmap moves no byte of any file's present blocks. */
  lemma BmapBytes(fs: Fs, gs: Fs, i: nat, j: nat, p: nat)
    requires Wf(fs) && Wf(gs) && gs.sb == fs.sb && i in fs.mem && i in gs.mem && Frame(fs, gs, i) && SameData(fs, gs)
    requires j < fs.sb.ninodes && p < MAXBYTES && (j == i ==> Slot(fs, i, FileSlot(p / BSIZE)) != 0)
    ensures FileByte(gs, j, p) == FileByte(fs, j, p)
  {
    hide Slot, DInode;
    assert Slot(gs, j, FileSlot(p / BSIZE)) == Slot(fs, j, FileSlot(p / BSIZE));
  }

  // ---------------------------------------------------------------- writei's loop

  /** The effect on file i of writing data at off, when its first len bytes are meaningful. */
  ghost predicate Written(fs: Fs, gs: Fs, i: nat, len: nat, off: nat, data: seq<byte>)
    requires Wf(fs) && Wf(gs) && gs.sb == fs.sb && i in fs.mem && i in gs.mem
    requires off <= len <= MAXBYTES && off + |data| <= MAXBYTES
  {
    && Frame(fs, gs, i)
    && NoHoles(gs, i, Ceil(Max(len, off + |data|)))
    && FileBytes(gs, i, Max(len, off + |data|)) == Splice(FileBytes(fs, i, len), off, data)
    && (forall j: nat, p: nat :: j < fs.sb.ninodes && j != i && p < MAXBYTES ==>
         FileByte(gs, j, p) == FileByte(fs, j, p))
    && (off + |data| <= len ==> gs.mem[i] == fs.mem[i])
  }

  lemma ChunkWrites(fs: Fs, owner: Owner, i: nat, len: nat, off: nat, data: seq<byte>) returns (owner': Owner)
    requires Owned(fs, owner) && i in fs.mem && off <= len <= MAXBYTES && NoHoles(fs, i, Ceil(len))
    requires 0 < |data| && off % BSIZE + |data| <= BSIZE && off + |data| <= MAXBYTES
    ensures WriteChunk(fs, i, off, data).Some? ==>
      var gs := WriteChunk(fs, i, off, data).value;
      Owned(gs, owner') && Written(fs, gs, i, len, off, data)
  {
    hide Slot, Bmap, DInode, SlotsOwned, WriteBlock, Splice, FileByte;
    var k, bn := Ceil(len), off / BSIZE;
    owner' := BmapKeeps(fs, owner, i, k, bn);
    if Bmap(fs, i, bn).Some? {
      var ms := Bmap(fs, i, bn).value;
      PresentInRange(ms, owner');
      ChunkLands(fs, owner', ms, i, len, off, data);
    }
  }

  lemma BytesBefore(fs: Fs, ms: Fs, i: nat, len: nat)
    requires Wf(fs) && Wf(ms) && ms.sb == fs.sb && i in fs.mem && i in ms.mem && len <= MAXBYTES
      && NoHoles(fs, i, Ceil(len))
    requires Frame(fs, ms, i) && SameData(fs, ms)
    ensures forall j: nat, p: nat :: j < fs.sb.ninodes && p < MAXBYTES && (j == i ==> p < len) ==>
      FileByte(ms, j, p) == FileByte(fs, j, p)
  {
    hide Slot, DInode, FileByte;
    forall j: nat, p: nat | j < fs.sb.ninodes && p < MAXBYTES && (j == i ==> p < len)
      ensures FileByte(ms, j, p) == FileByte(fs, j, p)
    {
      assert j == i ==> Slot(fs, i, FileSlot(p / BSIZE)) != 0;
      BmapBytes(fs, ms, i, j, p);
    }
  }

  /** Once bmap has found (or made) the block, the chunk lands in the file and nowhere else. */
  lemma ChunkLands(fs: Fs, owner: Owner, ms: Fs, i: nat, len: nat, off: nat, data: seq<byte>)
    requires Wf(fs) && Wf(ms) && ms.sb == fs.sb && i in fs.mem && i in ms.mem && SlotsOwned(ms, owner)
    requires off <= len <= MAXBYTES && NoHoles(fs, i, Ceil(len))
    requires 0 < |data| && off % BSIZE + |data| <= BSIZE && off + |data| <= MAXBYTES
    requires NoHoles(ms, i, Max(Ceil(len), off / BSIZE + 1)) && Frame(fs, ms, i) && SameData(fs, ms)
    requires off / BSIZE < Ceil(len) ==> ms == fs
    ensures 0 < Slot(ms, i, FileSlot(off / BSIZE)) < fs.sb.size
    ensures var gs := WriteBlock(ms, Slot(ms, i, FileSlot(off / BSIZE)), off % BSIZE, data);
      && gs.sb == fs.sb && Wf(gs) && SlotsOwned(gs, owner) && i in gs.mem && Written(fs, gs, i, len, off, data)
      && (forall b: nat :: b < fs.sb.size ==> Used(gs, b) == Used(ms, b))
  {
    hide Slot, DInode, PutBytes, Splice, FileByte, BitAt, Frame, SameData, Ceil;
    var bn := off / BSIZE;
    assert Slot(ms, i, FileSlot(bn)) != 0;
    assert OwnedAt(ms, Slot(ms, i, FileSlot(bn)), i, FileSlot(bn));
    WriteBlockKeeps(ms, owner, i, bn, off % BSIZE, data);
    var gs := WriteBlock(ms, Slot(ms, i, FileSlot(bn)), off % BSIZE, data);
    BytesBefore(fs, ms, i, len);
    SpliceAt(FileBytes(fs, i, len), off, data, FileBytes(gs, i, Max(len, off + |data|)));
    ChunkShape(fs, ms, gs, i, len, off, |data|);
  }

  /** The shape of the file after the chunk, and what the chunk leaves as it was. */
  lemma ChunkShape(fs: Fs, ms: Fs, gs: Fs, i: nat, len: nat, off: nat, n: nat)
    requires Wf(fs) && Wf(ms) && Wf(gs) && fs.sb == ms.sb == gs.sb && i in fs.mem && i in ms.mem && i in gs.mem
    requires off <= len <= MAXBYTES && 0 < n && off % BSIZE + n <= BSIZE && off + n <= MAXBYTES
    requires NoHoles(ms, i, Max(Ceil(len), off / BSIZE + 1)) && Frame(fs, ms, i) && SameTree(ms, gs)
    ensures Frame(fs, gs, i) && NoHoles(gs, i, Ceil(Max(len, off + n)))
  {
    hide Slot, DInode;
    assert Max(Ceil(len), off / BSIZE + 1) == Ceil(Max(len, off + n));
    assert forall t: nat :: t < MAXFILE ==> Slot(gs, i, FileSlot(t)) == Slot(ms, i, FileSlot(t));
  }

  lemma SpliceAt(s: seq<byte>, off: nat, data: seq<byte>, r: seq<byte>)
    requires off <= |s| && |r| == Max(|s|, off + |data|)
    requires forall p :: 0 <= p < |r| ==> r[p] == if off <= p < off + |data| then data[p - off] else s[p]
    ensures r == Splice(s, off, data)
  {
  }

  lemma SpliceTwice(s: seq<byte>, off: nat, a: seq<byte>, b: seq<byte>)
    requires off <= |s|
    ensures |Splice(s, off, a)| == Max(|s|, off + |a|)
    ensures Splice(Splice(s, off, a), off + |a|, b) == Splice(s, off, a + b)
  {
    SpliceAt(s, off, a + b, Splice(Splice(s, off, a), off + |a|, b));
  }

  /** writei's loop splices the whole source into the file. */
  lemma {:induction false} LoopWrites(fs: Fs, owner: Owner, i: nat, len: nat, off: nat, src: seq<byte>)
    returns (owner': Owner)
    requires Owned(fs, owner) && i in fs.mem && off <= len <= MAXBYTES && NoHoles(fs, i, Ceil(len))
    requires off + |src| <= MAXBYTES
    ensures WriteLoop(fs, i, off, src).Some? ==>
      var gs := WriteLoop(fs, i, off, src).value;
      Owned(gs, owner') && Written(fs, gs, i, len, off, src)
    decreases |src|
  {
    hide Slot, DInode, SlotsOwned, BitsMatch, WriteChunk, Splice, NoHoles, Ceil, FileByte;
    owner' := owner;
    if src == [] {
      SpliceAt(FileBytes(fs, i, len), off, src, FileBytes(fs, i, len));
    } else {
      var m := Min(|src|, BSIZE - off % BSIZE);
      var owner1 := ChunkWrites(fs, owner, i, len, off, src[..m]);
      if WriteChunk(fs, i, off, src[..m]).Some? {
        var ms := WriteChunk(fs, i, off, src[..m]).value;
        owner' := LoopWrites(ms, owner1, i, Max(len, off + m), off + m, src[m..]);
        if WriteLoop(ms, i, off + m, src[m..]).Some? {
          WrittenTwice(fs, ms, WriteLoop(ms, i, off + m, src[m..]).value, i, len, off, src, m);
        }
      }
    }
  }

  lemma WrittenTwice(fs: Fs, ms: Fs, gs: Fs, i: nat, len: nat, off: nat, src: seq<byte>, m: nat)
    requires Wf(fs) && Wf(ms) && Wf(gs) && fs.sb == ms.sb == gs.sb && i in fs.mem && i in ms.mem && i in gs.mem
    requires off <= len <= MAXBYTES && off + |src| <= MAXBYTES && m <= |src|
    requires Written(fs, ms, i, len, off, src[..m]) && Written(ms, gs, i, Max(len, off + m), off + m, src[m..])
    ensures Written(fs, gs, i, len, off, src)
  {
    hide Slot, DInode, Splice, NoHoles, Ceil, FileByte;
    SpliceTwice(FileBytes(fs, i, len), off, src[..m], src[m..]);
    assert src[..m] + src[m..] == src;
  }
}
