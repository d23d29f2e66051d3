/** The log under the file system: a crash anywhere in the commit of a write, and any number of crashes
    during recovery, leaves the file with its old bytes or with the new ones. */
module CrashSafety {
  import opened Commons
  import opened Blocks
  import opened LogRecovery
  import opened FsLayout
  import opened FsState
  import opened FsAlloc
  import opened FsFile
  import opened FsWrite

  // ---------------------------------------------------------------- only logged blocks change

  /** From fs to gs only blocks passed to log_write changed, and none of them lies before the inode blocks. */
  ghost predicate OnlyLogged(fs: Fs, gs: Fs) {
    && gs.sb == fs.sb && |gs.blk| == |fs.blk| && fs.logged <= gs.logged
    && (forall b :: b in gs.logged && b !in fs.logged ==> fs.sb.inodestart <= b < |fs.blk|)
    && forall b :: 0 <= b < |fs.blk| && gs.blk[b] != fs.blk[b] ==> b in gs.logged
  }

  lemma OnlyLoggedTwice(fs: Fs, ms: Fs, gs: Fs)
    requires OnlyLogged(fs, ms) && OnlyLogged(ms, gs)
    ensures OnlyLogged(fs, gs)
  {
  }

  lemma FillLogged(fs: Fs, owner: Owner, i: nat, s: nat)
    requires Owned(fs, owner) && i in fs.mem && s < SLOTS && (s > IND ==> Slot(fs, i, IND) != 0)
    ensures s > IND ==> Slot(fs, i, IND) < fs.sb.size
    ensures Fill(fs, i, s).Some? ==> OnlyLogged(fs, Fill(fs, i, s).value)
  {
    hide Slot, DInode, BitAt, SlotsOwned, BitsMatch, PutBit, PutWord, FirstFree;
    PresentInRange(fs, owner);
    IndIsSlot(fs, i);
    if Slot(fs, i, s) == 0 && FirstFree(fs, 0).Some? {
      var b := FirstFree(fs, 0).value;
      MarkKeeps(fs, owner, b);
      Regions(fs.sb, i, b);
      if s > IND {
        InData(fs, owner, i, IND);
      }
    }
  }

  lemma BmapLogged(fs: Fs, owner: Owner, i: nat, k: nat, bn: nat)
    requires Owned(fs, owner) && i in fs.mem && NoHoles(fs, i, k) && bn <= k && bn < MAXFILE
    ensures Bmap(fs, i, bn).Some? ==> OnlyLogged(fs, Bmap(fs, i, bn).value)
  {
    hide Slot, Fill, DInode, SlotsOwned, BitsMatch;
    if bn < NDIRECT {
      FillLogged(fs, owner, i, bn);
    } else {
      FillLogged(fs, owner, i, IND);
      var owner1 := FillKeeps(fs, owner, i, IND);
      if Fill(fs, i, IND).Some? {
        var gs := Fill(fs, i, IND).value;
        PresentInRange(gs, owner1);
        FillLogged(gs, owner1, i, bn + 1);
      }
    }
  }

  lemma ChunkLogged(fs: Fs, owner: Owner, i: nat, len: nat, off: nat, data: seq<byte>)
    requires Owned(fs, owner) && i in fs.mem && off <= len <= MAXBYTES && NoHoles(fs, i, Ceil(len))
    requires 0 < |data| && off % BSIZE + |data| <= BSIZE && off + |data| <= MAXBYTES
    ensures WriteChunk(fs, i, off, data).Some? ==> OnlyLogged(fs, WriteChunk(fs, i, off, data).value)
  {
    hide Slot, Bmap, DInode, SlotsOwned, BitsMatch, PutBytes;
    var bn := off / BSIZE;
    BmapLogged(fs, owner, i, Ceil(len), bn);
    var owner' := BmapKeeps(fs, owner, i, Ceil(len), bn);
    if Bmap(fs, i, bn).Some? {
      var ms := Bmap(fs, i, bn).value;
      assert Slot(ms, i, FileSlot(bn)) != 0;
      InData(ms, owner', i, FileSlot(bn));
    }
  }

  lemma InData(fs: Fs, owner: Owner, i: nat, s: nat)
    requires Owned(fs, owner) && i < fs.sb.ninodes && s < SLOTS && Slot(fs, i, s) != 0
    ensures fs.sb.inodestart < fs.sb.datastart <= Slot(fs, i, s) < fs.sb.size
  {
    hide Slot;
    assert OwnedAt(fs, Slot(fs, i, s), i, s);
    Regions(fs.sb, i, 0);
  }

  lemma {:induction false} LoopLogged(fs: Fs, owner: Owner, i: nat, len: nat, off: nat, src: seq<byte>)
    requires Owned(fs, owner) && i in fs.mem && off <= len <= MAXBYTES && NoHoles(fs, i, Ceil(len))
      && off + |src| <= MAXBYTES
    ensures WriteLoop(fs, i, off, src).Some? ==> OnlyLogged(fs, WriteLoop(fs, i, off, src).value)
    decreases |src|
  {
    hide Slot, DInode, SlotsOwned, BitsMatch, WriteChunk, WriteLoop, NoHoles, FileBytes, FileByte, Splice, Frame, Ceil;
    LoopEnds(fs, i, off, src);
    if src != [] {
      var m := Min(|src|, BSIZE - off % BSIZE);
      if WriteChunk(fs, i, off, src[..m]).Some? {
        var ms := WriteChunk(fs, i, off, src[..m]).value;
        ChunkLogged(fs, owner, i, len, off, src[..m]);
        var owner1 := ChunkWrites(fs, owner, i, len, off, src[..m]);
        LoopStep(fs, i, off, src, m, ms);
        LoopLogged(ms, owner1, i, Max(len, off + m), off + m, src[m..]);
      }
    }
  }

  lemma WriteiLogged(fs: Fs, owner: Owner, i: nat, off: nat, src: seq<byte>)
    requires Owned(fs, owner) && i in fs.mem && FileOk(fs, i) && !WriteRefused(fs, i, off, |src|)
    ensures Writei(fs, i, off, src).Some? ==> OnlyLogged(fs, Writei(fs, i, off, src).value)
  {
    hide Slot, DInode, SlotsOwned, BitsMatch, WriteLoop, NoHoles, PutInode;
    LoopLogged(fs, owner, i, fs.mem[i].size, off, src);
    Regions(fs.sb, i, 0);
  }

  // ---------------------------------------------------------------- mounting a disk

  /** The file system that a restarted kernel finds on a disk: no inode is in memory. */
  function Mount(sb: Super, d: Disk): Fs {
    Fs(sb, d, map[], {})
  }

  /** Every in-memory inode equals its copy on disk. */
  ghost predicate InSync(fs: Fs)
    requires Wf(fs)
  {
    forall j :: j in fs.mem ==> DInode(fs, j) == fs.mem[j]
  }

  /** The blocks from the inode blocks on are the file system. */
  ghost predicate SameBlocks(sb: Super, d: Disk, e: Disk) {
    |d| == |e| && forall b :: sb.inodestart <= b < |d| ==> d[b] == e[b]
  }

  lemma MountSlots(fs: Fs, owner: Owner, d: Disk)
    requires Owned(fs, owner) && InSync(fs) && SameBlocks(fs.sb, fs.blk, d)
    ensures var m := Mount(fs.sb, d);
      && Wf(m) && SameSlots(fs, m) && (forall b: nat :: b < fs.sb.size ==> Used(m, b) == Used(fs, b))
      && forall j: nat :: j < fs.sb.ninodes ==> DInode(m, j) == DInode(fs, j) && Node(m, j) == Node(fs, j)
  {
    hide GetInode, GetWord, BitAt, SlotsOwned, BitsMatch;
    var m := Mount(fs.sb, d);
    forall j: nat | j < fs.sb.ninodes ensures DInode(m, j) == DInode(fs, j) && Node(m, j) == Node(fs, j) {
      Regions(fs.sb, j, 0);
    }
    forall b: nat | b < fs.sb.size ensures Used(m, b) == Used(fs, b) {
      assert fs.sb.inodestart < fs.sb.BBlock(b) < fs.sb.datastart;
    }
    forall j: nat, s: nat | j < fs.sb.ninodes && s < SLOTS ensures Slot(m, j, s) == Slot(fs, j, s) {
      assert Slot(fs, j, IND) == Node(fs, j).addrs[IND];
      if Slot(fs, j, IND) != 0 {
        InData(fs, owner, j, IND);
      }
    }
  }

  /** A mounted disk with the same blocks has the same files. */
  lemma MountSame(fs: Fs, owner: Owner, d: Disk)
    requires Owned(fs, owner) && InSync(fs) && SameBlocks(fs.sb, fs.blk, d)
    ensures var m := Mount(fs.sb, d);
      && Owned(m, owner)
      && (forall j: nat :: j < fs.sb.ninodes ==> DInode(m, j) == DInode(fs, j) && Node(m, j) == Node(fs, j))
      && (forall j: nat, p: nat :: j < fs.sb.ninodes && p < MAXBYTES ==> FileByte(m, j, p) == FileByte(fs, j, p))
      && (forall j: nat :: j < fs.sb.ninodes && FileOk(fs, j) ==> FileOk(m, j) && Contents(m, j) == Contents(fs, j))
  {
    hide Slot, DInode, SlotsOwned, BitAt, Used;
    var m := Mount(fs.sb, d);
    MountSlots(fs, owner, d);
    StillOwned(fs, owner, m);
    forall j: nat, p: nat | j < fs.sb.ninodes && p < MAXBYTES ensures FileByte(m, j, p) == FileByte(fs, j, p) {
      if Slot(fs, j, FileSlot(p / BSIZE)) != 0 {
        InData(fs, owner, j, FileSlot(p / BSIZE));
      }
    }
    forall j: nat | j < fs.sb.ninodes && FileOk(fs, j) ensures FileOk(m, j) && Contents(m, j) == Contents(fs, j) {
      SameNoHoles(fs, m, j, Ceil(Node(fs, j).size));
      assert FileBytes(m, j, Node(fs, j).size) == FileBytes(fs, j, Node(fs, j).size);
    }
  }

  // ---------------------------------------------------------------- crash safety of a transaction

  /** What MountSame says of the mounted disk m. */
  ghost predicate SameFiles(fs: Fs, m: Fs)
    requires Wf(fs) && Wf(m) && m.sb == fs.sb
  {
    && (forall j: nat :: j < fs.sb.ninodes ==> DInode(m, j) == DInode(fs, j) && Node(m, j) == Node(fs, j))
    && (forall j: nat, p: nat :: j < fs.sb.ninodes && p < MAXBYTES ==> FileByte(m, j, p) == FileByte(fs, j, p))
    && (forall j: nat :: j < fs.sb.ninodes && FileOk(fs, j) ==> FileOk(m, j) && Contents(m, j) == Contents(fs, j))
  }

  /** Committing the logged blocks gives the new file system's blocks. */
  lemma CommittedIs(fs: Fs, gs: Fs, blocks: seq<nat>)
    requires OnlyLogged(fs, gs) && fs.logged == {} && Lists(blocks, gs.logged)
    ensures Committed(fs.blk, blocks, gs.blk) == gs.blk
  {
  }

  /** A transaction that takes the file system from fs to gs: a crash between any two disk writes of its
      commit, and any crashes while recovering, leave the files of fs if the header block had not been
      written yet, else those of gs. */
  lemma CrashSafeChange(l: Layout, fs: Fs, owner: Owner, gs: Fs, owner': Owner, blocks: seq<nat>, step: nat,
    ks: seq<nat>)
    requires Owned(fs, owner) && InSync(fs) && Owned(gs, owner') && InSync(gs) && fs.sb.ninodes > 0
    requires OnlyLogged(fs, gs) && fs.logged == {} && Lists(blocks, gs.logged)
    requires l.start + l.size <= fs.sb.inodestart && 0 < l.size && LogEmpty(l, fs.blk)
    requires |blocks| <= LOGSIZE && |blocks| < l.size && step <= CommitWrites(blocks)
    ensures l.Loggable(fs.blk, blocks) && Recoverable(l, CommitImage(l, fs.blk, blocks, gs.blk, step))
    ensures var crashed := CrashedRecoveries(l, CommitImage(l, fs.blk, blocks, gs.blk, step), ks);
      && Recoverable(l, crashed)
      && var m := Mount(fs.sb, Recover(l, crashed));
         if step <= |blocks| then Owned(m, owner) && SameFiles(fs, m) else Owned(m, owner') && SameFiles(gs, m)
  {
    hide Slot, DInode, SlotsOwned, BitsMatch, FileByte, FileBytes, CommitImage, CrashedRecoveries, Recover, FileOk;
    hide Recoverable, LogEmpty;
    forall k | 0 <= k < |blocks| ensures fs.sb.inodestart <= blocks[k] < |fs.blk| { assert blocks[k] in blocks; }
    Regions(fs.sb, 0, 0);
    CrashAtomicity(l, fs.blk, blocks, gs.blk, step, ks);
    var d := Recover(l, CrashedRecoveries(l, CommitImage(l, fs.blk, blocks, gs.blk, step), ks));
    if step <= |blocks| {
      MountSame(fs, owner, d);
    } else {
      CommittedIs(fs, gs, blocks);
      MountSame(gs, owner', d);
    }
  }

  /** A crash between any two disk writes of the commit, and any crashes while recovering: after recovery and
      mounting, file i has its old contents if the header block had not been written yet, else the spliced ones;
      every other file is as it was, and block ownership holds. */
  lemma CrashSafeWrite(l: Layout, fs: Fs, owner: Owner, i: nat, off: nat, src: seq<byte>, blocks: seq<nat>, step: nat,
    ks: seq<nat>)
    returns (owner': Owner)
    requires Owned(fs, owner) && i in fs.mem && FileOk(fs, i) && !WriteRefused(fs, i, off, |src|) && InSync(fs)
    requires fs.logged == {} && |src| <= WRITEMAX && Writei(fs, i, off, src).Some?
    requires l.start + l.size <= fs.sb.inodestart && MAXOPBLOCKS < l.size && LogEmpty(l, fs.blk)
    requires Lists(blocks, Writei(fs, i, off, src).value.logged) && step <= CommitWrites(blocks)
    ensures var gs := Writei(fs, i, off, src).value;
      && |gs.blk| == |fs.blk| && l.Loggable(fs.blk, blocks)
         && Recoverable(l, CommitImage(l, fs.blk, blocks, gs.blk, step))
      && var crashed := CrashedRecoveries(l, CommitImage(l, fs.blk, blocks, gs.blk, step), ks);
         && Recoverable(l, crashed)
         && var m := Mount(fs.sb, Recover(l, crashed));
            && Owned(m, owner') && FileOk(m, i) && SameKind(fs.mem[i], DInode(m, i))
            && Contents(m, i) == (if step <= |blocks| then Contents(fs, i) else Splice(Contents(fs, i), off, src))
            && forall j: nat, p: nat :: j < fs.sb.ninodes && j != i && p < MAXBYTES ==>
                 DInode(m, j) == DInode(fs, j) && FileByte(m, j, p) == FileByte(fs, j, p)
  {
    hide Slot, DInode, SlotsOwned, BitsMatch, NoHoles, FileByte, FileBytes, Splice, Writei, CommitImage,
      CrashedRecoveries, Recover, Recoverable, LogEmpty;
    var gs := Writei(fs, i, off, src).value;
    WriteiLogged(fs, owner, i, off, src);
    WriteiLogs(fs, owner, i, off, src);
    ListLength(blocks, gs.logged);
    var owner1 := WriteiRefines(fs, owner, i, off, src);
    StillInSync(fs, gs, i);
    CrashSafeChange(l, fs, owner, gs, owner1, blocks, step, ks);
    owner' := if step <= |blocks| then owner else owner1;
  }

  lemma StillInSync(fs: Fs, gs: Fs, i: nat)
    requires Wf(fs) && Wf(gs) && gs.sb == fs.sb && InSync(fs) && gs.mem.Keys == fs.mem.Keys && OthersSame(fs, gs, i)
    requires i in fs.mem && DInode(gs, i) == gs.mem[i]
    ensures InSync(gs)
  {
    hide DInode, Slot, FileByte;
  }
}
