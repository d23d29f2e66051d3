/** xv6/fs.c and filewrite of xv6/file.c as they run: loops over a state updated in place. */
module FileSys {
  import opened Commons
  import opened Blocks
  import opened FsLayout
  import opened FsState
  import opened FsAlloc
  import opened FsFile
  import opened FsWrite
  import opened FsSpace
  import opened FsTrunc

  lemma FirstFreeIs(fs: Fs, b: nat)
    requires Wf(fs) && b < fs.sb.size && !Used(fs, b) && forall c: nat :: c < b ==> Used(fs, c)
    ensures FirstFree(fs, 0) == Some(b)
  {
    hide BitAt;
  }

  lemma UnmarkBits(fs: Fs, b: nat)
    requires Wf(fs) && b < fs.sb.size
    ensures forall c: nat :: c < fs.sb.size ==> (Used(Unmark(fs, b), c) <==> c != b && Used(fs, c))
  {
    hide BitAt, PutBit;
    forall c: nat | c < fs.sb.size ensures Used(Unmark(fs, b), c) <==> c != b && Used(fs, c) { BitFrame(fs, b, c, 0); }
  }

  class FileSystem {
    var fs: Fs
    ghost var owner: Owner

    constructor (fs0: Fs, ghost owner0: Owner)
      ensures fs == fs0 && owner == owner0
    {
      fs, owner := fs0, owner0;
    }

    /** None is the panic "out of blocks". */
    method Balloc() returns (r: Option<nat>)
      requires Wf(fs)
      modifies this`fs
      ensures r == FirstFree(old(fs), 0)
      ensures fs == if r.Some? then Mark(old(fs), r.value) else old(fs)
    {
      hide BitAt, PutBit;
      var b := 0;
      while b < fs.sb.size
        invariant fs == old(fs) && b % BPB == 0 && forall c: nat :: c < b && c < fs.sb.size ==> Used(fs, c)
      {
        var bb := fs.sb.BBlock(b);
        var bi := 0;
        while bi < BPB && b + bi < fs.sb.size
          invariant fs == old(fs) && bi <= BPB && forall c: nat :: c < b + bi && c < fs.sb.size ==> Used(fs, c)
        {
          assert fs.sb.BBlock(b + bi) == bb && (b + bi) % BPB == bi;
          if !BitAt(fs.blk[bb], bi) {
            FirstFreeIs(fs, b + bi);
            fs := fs.(blk := fs.blk[bb := PutBit(fs.blk[bb], bi, 1)], logged := fs.logged + {bb});
            Bzero(b + bi);
            return Some(b + bi);
          }
          bi := bi + 1;
        }
        b := b + BPB;
      }
      return None;
    }

    method Bzero(b: nat)
      requires b < |fs.blk|
      modifies this`fs
      ensures fs == old(fs).(blk := old(fs).blk[b := ZeroBlock()], logged := old(fs).logged + {b})
    {
      fs := fs.(blk := fs.blk[b := ZeroBlock()], logged := fs.logged + {b});
    }

    /** False is the panic "freeing free block". */
    method Bfree(b: nat) returns (ok: bool)
      requires Wf(fs)
      modifies this`fs
      ensures FsTrunc.Bfree(old(fs), b) == if ok then Some(fs) else None
      ensures ok <==> b < old(fs).sb.size && Used(old(fs), b)
      ensures ok ==> Wf(fs) && fs.sb == old(fs).sb && fs.mem == old(fs).mem
      ensures ok ==> forall c: nat :: c < fs.sb.size ==> (Used(fs, c) <==> c != b && Used(old(fs), c))
    {
      hide BitAt, PutBit;
      if b < fs.sb.size { UnmarkBits(fs, b); }
      if b >= fs.sb.size {
        return false;
      }
      var bb := fs.sb.BBlock(b);
      if !BitAt(fs.blk[bb], b % BPB) {
        return false;
      }
      fs := fs.(blk := fs.blk[bb := PutBit(fs.blk[bb], b % BPB, 0)], logged := fs.logged + {bb});
      return true;
    }

    /** None is a panic. */
    method Bmap(i: nat, bn: nat) returns (r: Option<nat>)
      requires Wf(fs) && i in fs.mem
      modifies this`fs
      ensures r.Some? ==>
        FsAlloc.Bmap(old(fs), i, bn) == Some(fs) && bn < MAXFILE && r.value == Slot(fs, i, FileSlot(bn))
      ensures r.None? ==> FsAlloc.Bmap(old(fs), i, bn).None?
    {
      hide BitAt, Mark;
      if bn < NDIRECT {
        var addr := fs.mem[i].addrs[bn];
        DirectIsSlot(fs, i, bn);
        if addr == 0 {
          var b := Balloc();
          if b.None? {
            return None;
          }
          MarkShape(old(fs), b.value);
          addr := b.value;
          fs := fs.(mem := fs.mem[i := fs.mem[i].(addrs := fs.mem[i].addrs[bn := addr])]);
        }
        DirectIsSlot(fs, i, bn);
        return Some(addr);
      }
      if bn >= MAXFILE {
        return None;
      }
      var ind := fs.mem[i].addrs[IND];
      DirectIsSlot(fs, i, IND);
      if ind == 0 {
        var b := Balloc();
        if b.None? {
          return None;
        }
        MarkShape(old(fs), b.value);
        ind := b.value;
        fs := fs.(mem := fs.mem[i := fs.mem[i].(addrs := fs.mem[i].addrs[IND := ind])]);
      }
      assert Fill(old(fs), i, IND) == Some(fs);
      DirectIsSlot(fs, i, IND);
      if ind == 0 {
        return None;  // balloc never hands out block 0 (MarkKeeps)
      }
      r := BmapEntry(i, bn - NDIRECT, ind);
    }

    /** The second half of bmap: entry j of the indirect block. */
    method BmapEntry(i: nat, j: nat, ind: nat) returns (r: Option<nat>)
      requires Wf(fs) && i in fs.mem && j < NINDIRECT && ind == fs.mem[i].addrs[IND] != 0
      modifies this`fs
      ensures ind >= old(fs).sb.size ==> r.None?
      ensures ind < old(fs).sb.size ==> ind == Slot(old(fs), i, IND)
      ensures ind < old(fs).sb.size && r.Some? ==>
        Fill(old(fs), i, IND + 1 + j) == Some(fs) && r.value == Slot(fs, i, IND + 1 + j)
      ensures ind < old(fs).sb.size && r.None? ==> Fill(old(fs), i, IND + 1 + j).None?
    {
      hide BitAt, Mark, GetWord, PutWord;
      if ind >= fs.sb.size {
        return None;
      }
      EntryIsSlot(fs, i, IND + 1 + j);
      DirectIsSlot(fs, i, IND);
      var addr := GetWord(fs.blk[ind], j);
      if addr == 0 {
        var b := Balloc();
        if b.None? {
          return None;
        }
        MarkShape(old(fs), b.value);
        addr := b.value;
        fs := fs.(blk := fs.blk[ind := PutWord(fs.blk[ind], j, addr)], logged := fs.logged + {ind});
        EntryIsSlot(fs, i, IND + 1 + j);
        GetPutWord(Mark(old(fs), addr).blk[ind], j, addr, j);
      }
      return Some(addr);
    }

    /** The disk gets the in-memory inode; no other inode, no slot, no bit and no file byte changes. */
    method Iupdate(i: nat)
      requires Wf(fs) && i in fs.mem
      modifies this`fs
      ensures fs == FsFile.Iupdate(old(fs), i) && Wf(fs) && fs.mem == old(fs).mem && fs.sb == old(fs).sb
      ensures forall j: nat :: j < fs.sb.ninodes ==> DInode(fs, j) == if j == i then fs.mem[i] else DInode(old(fs), j)
      ensures Owned(old(fs), owner) ==> Owned(fs, owner) && SameSlots(old(fs), fs)
      ensures Owned(old(fs), owner) ==>
        forall j: nat, p: nat :: j < fs.sb.ninodes && p < MAXBYTES ==> FileByte(fs, j, p) == FileByte(old(fs), j, p)
    {
      hide DInode, PutInode, Slot, SlotsOwned, Used, FileByte;
      IupdateInodes(fs, i);
      if Owned(fs, owner) { IupdateKeeps(fs, owner, i); }
      var ib := fs.sb.IBlock(i);
      fs := fs.(blk := fs.blk[ib := PutInode(fs.blk[ib], i % IPB, fs.mem[i])], logged := fs.logged + {ib});
    }

    /** False is a panic. */
    method Itrunc(i: nat) returns (ok: bool)
      requires Wf(fs) && i in fs.mem
      modifies this`fs
      ensures FsTrunc.Itrunc(old(fs), i) == if ok then Some(fs) else None
    {
      hide FreeDirect, FreeIndirect, PutInode;
      ok := TruncDirect(i);
      if !ok {
        return false;
      }
      ok := TruncIndirect(i);
      if ok {
        fs := fs.(mem := fs.mem[i := fs.mem[i].(size := 0)]);
        Iupdate(i);
      }
    }

    method TruncDirect(i: nat) returns (ok: bool)
      requires Wf(fs) && i in fs.mem
      modifies this`fs
      ensures FreeDirect(old(fs), i, NDIRECT) == if ok then Some(fs) else None
    {
      hide FsTrunc.Bfree, Used;
      for s := 0 to NDIRECT
        invariant Wf(fs) && i in fs.mem && FreeDirect(old(fs), i, s) == Some(fs)
      {
        var b := fs.mem[i].addrs[s];
        ghost var before := fs;
        if b != 0 {
          ok := Bfree(b);
          if !ok {
            FreeDirectStuck(old(fs), i, s + 1, NDIRECT);
            return false;
          }
          fs := fs.(mem := fs.mem[i := fs.mem[i].(addrs := fs.mem[i].addrs[s := 0])]);
        }
        assert FreeOne(before, i, s) == Some(fs);
      }
      return true;
    }

    method TruncIndirect(i: nat) returns (ok: bool)
      requires Wf(fs) && i in fs.mem
      modifies this`fs
      ensures FreeIndirect(old(fs), i) == if ok then Some(fs) else None
    {
      hide FsTrunc.Bfree, GetWord;
      var ind := fs.mem[i].addrs[IND];
      if ind == 0 {
        return true;
      }
      if ind >= fs.sb.size {
        return false;
      }
      var a := fs.blk[ind];
      for j := 0 to NINDIRECT
        invariant Wf(fs) && i in fs.mem && fs.mem == old(fs).mem && FreeEntries(old(fs), a, j) == Some(fs)
      {
        if GetWord(a, j) != 0 {
          ok := Bfree(GetWord(a, j));
          if !ok {
            FreeEntriesStuck(old(fs), a, j + 1, NINDIRECT);
            return false;
          }
        }
      }
      ok := Bfree(ind);
      if ok {
        fs := fs.(mem := fs.mem[i := fs.mem[i].(addrs := fs.mem[i].addrs[IND := 0])]);
      }
    }

    /** -1 exactly when the offset is behind the end of the file or off + n wraps; else the bytes from off on, up
        to n and up to the end of the file.  ok is false after a panic, which a whole file rules out. */
    method Readi(i: nat, off: nat, n: nat) returns (r: int, dst: seq<byte>, ok: bool)
      requires Wf(fs) && i in fs.mem && off < U32 && n < U32
      modifies this`fs
      ensures r == -1 <==> off > old(fs).mem[i].size || off + n >= U32
      ensures r == -1 ==> ok && dst == [] && fs == old(fs)
      ensures ok && r != -1 ==> r == Min(n, old(fs).mem[i].size - off) == |dst|
      ensures r != -1 ==>
        !ReadRefused(old(fs), i, off, n) && FsWrite.Readi(old(fs), i, off, n) == if ok then Some((fs, dst)) else None
      ensures ok ==> Wf(fs) && i in fs.mem && fs.mem[i].size == old(fs).mem[i].size
      ensures Owned(old(fs), owner) && FileOk(old(fs), i) ==>
        ok && fs == old(fs) && (r != -1 ==> dst == Contents(old(fs), i)[off..off + r])
    {
      hide FsAlloc.Bmap, ReadLoop, Slot, Prepend, Owned, FileOk, Contents;
      ReadiEffect(fs, owner, i, off, n);
      dst, ok := [], true;
      if off > fs.mem[i].size || off + n >= U32 {
        return -1, dst, ok;
      }
      var n' := if off + n > fs.mem[i].size then fs.mem[i].size - off else n;
      ghost var whole := ReadLoop(fs, i, off, n');
      PrependNothing(whole);
      var tot, o := 0, off;
      while tot < n'
        invariant tot == |dst| <= n' && Wf(fs) && i in fs.mem && o == off + tot
        invariant whole == Prepend(dst, ReadLoop(fs, i, o, n' - tot))
      {
        ReadStep(fs, i, o, n' - tot);
        PrependPanic(dst);
        var a := Bmap(i, o / BSIZE);
        if a.None? || a.value >= fs.sb.size {
          return 0, dst, false;
        }
        var m := Min(n' - tot, BSIZE - o % BSIZE);
        var chunk := fs.blk[a.value].bytes[o % BSIZE..o % BSIZE + m];
        PrependChunk(dst, chunk, ReadLoop(fs, i, o + m, n' - tot - m));
        dst := dst + chunk;
        tot, o := tot + m, o + m;
      }
      ReadDone(fs, i, o, dst);
      r := n';
    }

    /** The body of writei's loop. */
    method WriteOne(i: nat, off: nat, data: seq<byte>) returns (ok: bool)
      requires Wf(fs) && i in fs.mem && off % BSIZE + |data| <= BSIZE
      modifies this`fs
      ensures WriteChunk(old(fs), i, off, data) == if ok then Some(fs) else None
    {
      hide FsAlloc.Bmap, Slot;
      var a := Bmap(i, off / BSIZE);
      ok := a.Some? && a.value < fs.sb.size;
      if ok {
        var b := PutBytes(fs.blk[a.value], off % BSIZE, data);
        fs := fs.(blk := fs.blk[a.value := b], logged := fs.logged + {a.value});
      }
    }

    /** writei's loop; o is where it has left off. */
    method WriteAll(i: nat, src: seq<byte>, off: nat) returns (o: nat, ok: bool)
      requires Wf(fs) && i in fs.mem
      modifies this`fs
      ensures WriteLoop(old(fs), i, off, src) == if ok then Some(fs) else None
      ensures ok ==> o == off + |src|
    {
      hide WriteChunk;
      ghost var whole := WriteLoop(fs, i, off, src);
      assert src[0..] == src;
      var tot := 0;
      o, ok := off, true;
      while tot < |src|
        invariant ok && tot <= |src| && Wf(fs) && i in fs.mem && o == off + tot
        invariant whole == WriteLoop(fs, i, o, src[tot..])
      {
        var m := Min(|src| - tot, BSIZE - o % BSIZE);
        assert src[tot..][..m] == src[tot..tot + m] && src[tot..][m..] == src[tot + m..];
        ok := WriteOne(i, o, src[tot..tot + m]);
        if !ok {
          return;
        }
        tot, o := tot + m, o + m;
      }
      assert src[tot..] == [];
    }

    /** -1 exactly when the offset is behind the end of the file or the write would pass the largest file size;
        else a splice of the file's bytes that keeps its kind and links.  ok is false after a panic, for want of
        free blocks. */
    method Writei(i: nat, src: seq<byte>, off: nat) returns (r: int, ok: bool)
      requires Wf(fs) && i in fs.mem && off < U32 && |src| < U32
      modifies this`fs
      ensures r == -1 <==> off > old(fs).mem[i].size || off + |src| > MAXBYTES
      ensures r == -1 ==> ok && fs == old(fs)
      ensures ok && r != -1 ==> r == |src|
      ensures r != -1 ==>
        !WriteRefused(old(fs), i, off, |src|) && FsFile.Writei(old(fs), i, off, src) == if ok then Some(fs) else None
      ensures Owned(old(fs), owner) && FileOk(old(fs), i) && r != -1 ==>
        var len := old(fs).mem[i].size;
        && (ok <==> |FreeSet(old(fs))| >= NewBlocks(Ceil(len), Max(Ceil(len), Ceil(off + |src|))))
        && (ok ==>
             && Wf(fs) && fs.sb == old(fs).sb && i in fs.mem && FileOk(fs, i)
             && Contents(fs, i) == Splice(Contents(old(fs), i), off, src)
             && SameKind(old(fs).mem[i], fs.mem[i]) && OthersSame(old(fs), fs, i))
    {
      hide WriteLoop, PutInode, Owned, FileOk, Contents, OthersSame, Splice, FreeSet, NewBlocks, Ceil;
      WriteiEffect(fs, owner, i, off, src);
      ok := true;
      if off > fs.mem[i].size || off + |src| >= U32 {
        return -1, ok;
      }
      if off + |src| > MAXBYTES {
        return -1, ok;
      }
      var o;
      o, ok := WriteAll(i, src, off);
      if !ok {
        return 0, false;
      }
      if |src| > 0 && o > fs.mem[i].size {
        fs := fs.(mem := fs.mem[i := fs.mem[i].(size := o)]);
        Iupdate(i);
      }
      r := |src|;
    }

    /** filewrite on an inode: one transaction per WRITEMAX bytes.  k is how much was written: all, or, if that
        would pass the largest file size, the whole transactions that fit; every transaction stays within
        MAXOPBLOCKS.  ok is false after a panic, which happens exactly for want of free blocks. */
    method Filewrite(i: nat, data: seq<byte>, off: nat)
      returns (r: int, off': nat, k: nat, ghost txs: seq<set<nat>>, ok: bool)
      requires Owned(fs, owner) && i in fs.mem && FileOk(fs, i) && off < U32 && |data| < 0x8000_0000
      modifies this
      ensures forall t :: 0 <= t < |txs| ==> |txs[t]| <= MAXOPBLOCKS
      ensures ok <==>
        |FreeSet(old(fs))| >= Growth(old(fs).mem[i].size, off, Writable(old(fs).mem[i].size, off, |data|))
      ensures ok ==> k == Writable(old(fs).mem[i].size, off, |data|)
      ensures ok ==>
        && Owned(fs, owner) && fs.sb == old(fs).sb && i in fs.mem && k <= |data| && off' == off + k
        && r == (if k == |data| then |data| else -1) && Spliced(old(fs), fs, i, off, data[..k])
    {
      hide Owned, Spliced, FreeSet, Growth, Writable, FileOk, NewBlocks, Ceil;
      k, off', txs, ok := 0, off, [], true;
      ghost var len, total := fs.mem[i].size, Writable(fs.mem[i].size, off, |data|);
      WholeIs(fs, owner, i);
      GrowthNone(len, off);
      WritableStops(len, off, |data|, 0);
      SplicedNone(fs, i, off, data[..0]);
      while k < |data|
        invariant forall t :: 0 <= t < |txs| ==> |txs[t]| <= MAXOPBLOCKS
        invariant k <= |data| && off' == off + k && Owned(fs, owner) && Wf(fs) && fs.sb == old(fs).sb && i in fs.mem
        invariant Spliced(old(fs), fs, i, off, data[..k])
        invariant k <= total && (k == |data| || k % WRITEMAX == 0)
        invariant Growth(len, off, k) + |FreeSet(fs)| == |FreeSet(old(fs))|
      {
        var n1 := Min(|data| - k, WRITEMAX);
        ghost var before := fs;
        SplicedIs(old(fs), before, i, off, data[..k]);
        ChunkLaw(len, off, |data|, k);
        var w;
        w, ok := Transaction(i, data[k..k + n1], off');
        if !ok {
          r := -1;
          return;
        }
        if w < 0 {
          SplicedTwice(old(fs), before, fs, i, off, data[..k], [], data[..k]);
          break;
        }
        txs := txs + [fs.logged];
        SplicedTwice(old(fs), before, fs, i, off, data[..k], data[k..k + n1], data[..k + n1]);
        off', k := off' + n1, k + n1;
      }
      WritableStops(len, off, |data|, k);
      r := if k == |data| then |data| else -1;
    }

    /** One round of filewrite's loop: begin_op, writei, end_op. */
    method Transaction(i: nat, chunk: seq<byte>, off: nat) returns (w: int, ok: bool)
      requires Owned(fs, owner) && i in fs.mem && FileOk(fs, i) && off < U32 && 0 < |chunk| <= WRITEMAX
      modifies this
      ensures w == -1 <==> off > old(fs).mem[i].size || off + |chunk| > MAXBYTES
      ensures w == -1 ==>
        && ok && Owned(fs, owner) && Wf(fs) && fs.sb == old(fs).sb && i in fs.mem && Spliced(old(fs), fs, i, off, [])
        && FreeSet(fs) == FreeSet(old(fs))
      ensures var need := NewBlocks(Ceil(old(fs).mem[i].size), Max(Ceil(old(fs).mem[i].size), Ceil(off + |chunk|)));
        && (w != -1 ==> (ok <==> |FreeSet(old(fs))| >= need))
        && (w != -1 && ok ==>
             && w == |chunk| && Owned(fs, owner) && Wf(fs) && fs.sb == old(fs).sb && i in fs.mem
             && Spliced(old(fs), fs, i, off, chunk) && |fs.logged| <= MAXOPBLOCKS
             && |FreeSet(fs)| == |FreeSet(old(fs))| - need)
    {
      hide BitsMatch, SlotsOwned, Slot, DInode, NoHoles, FsFile.Writei, FileByte, FreeSet, Ceil, OthersSame, Spliced;
      hide Contents;
      NewTransaction(fs, owner, i);
      fs := fs.(logged := {});
      ghost var before := fs;
      SplicedNone(before, i, off, []);
      SplicedLog(old(fs), before, i, off);
      SameFreeSet(old(fs), before);
      CeilMax(fs.mem[i].size, off + |chunk|);
      w, ok := Writei(i, chunk, off);
      if ok && w != -1 {
        WriteiPanicsExactly(before, owner, i, off, chunk);
        WriteiLogs(before, owner, i, off, chunk);
        owner := WriteiRefines(before, owner, i, off, chunk);
        SplicedOnce(old(fs), before, fs, i, off, chunk);
      }
    }
  }

  /** File i has `part` at off, if there is any part to write; its kind and links, and all other files, are as they
      were, and its inode on disk is the one in memory if it was. */
  ghost predicate Spliced(fs: Fs, gs: Fs, i: nat, off: nat, part: seq<byte>) {
    && Wf(fs) && Wf(gs) && gs.sb == fs.sb && i in fs.mem && i in gs.mem && FileOk(fs, i) && FileOk(gs, i)
    && OthersSame(fs, gs, i) && SameKind(fs.mem[i], gs.mem[i])
    && (part == [] ==> Contents(gs, i) == Contents(fs, i))
    && (part != [] ==> off <= |Contents(fs, i)| && Contents(gs, i) == Splice(Contents(fs, i), off, part))
    && (DInode(fs, i) == fs.mem[i] ==> DInode(gs, i) == gs.mem[i])
  }

  lemma WholeIs(fs: Fs, owner: Owner, i: nat)
    requires Owned(fs, owner) && i in fs.mem && FileOk(fs, i)
    ensures Wf(fs) && i < fs.sb.ninodes && fs.mem[i].size <= MAXBYTES
  {
  }

  lemma SplicedIs(fs: Fs, gs: Fs, i: nat, off: nat, part: seq<byte>)
    requires Spliced(fs, gs, i, off, part)
    ensures Wf(gs) && i in gs.mem && i in fs.mem && FileOk(gs, i)
    ensures gs.mem[i].size == if part == [] then fs.mem[i].size else Max(fs.mem[i].size, off + |part|)
    ensures part != [] ==> off <= fs.mem[i].size
  {
    hide NoHoles, OthersSame, DInode, FileBytes, Splice;
    assert |Contents(gs, i)| == gs.mem[i].size && |Contents(fs, i)| == fs.mem[i].size;
    if part != [] { SpliceTwice(Contents(fs, i), off, part, []); }
  }

  lemma SplicedNone(fs: Fs, i: nat, off: nat, none: seq<byte>)
    requires Wf(fs) && i in fs.mem && FileOk(fs, i) && none == []
    ensures Spliced(fs, fs, i, off, none)
  {
  }

  lemma SplicedLog(fs: Fs, gs: Fs, i: nat, off: nat)
    requires Wf(fs) && i in fs.mem && FileOk(fs, i) && gs == fs.(logged := {}) && Wf(gs) && FileOk(gs, i)
    requires OthersSame(fs, gs, i) && Contents(gs, i) == Contents(fs, i) && DInode(gs, i) == DInode(fs, i)
    ensures Spliced(fs, gs, i, off, []) && forall b: nat :: b < fs.sb.size ==> Used(gs, b) == Used(fs, b)
  {
    hide OthersSame, DInode, Contents, FileOk, BitAt;
  }

  lemma SplicedOnce(fs: Fs, ms: Fs, gs: Fs, i: nat, off: nat, part: seq<byte>)
    requires Spliced(fs, ms, i, off, []) && Wf(gs) && gs.sb == fs.sb && i in gs.mem && FileOk(gs, i) && part != []
    requires OthersSame(ms, gs, i) && SameKind(ms.mem[i], gs.mem[i]) && off <= |Contents(ms, i)|
    requires Contents(gs, i) == Splice(Contents(ms, i), off, part)
    requires DInode(ms, i) == ms.mem[i] ==> DInode(gs, i) == gs.mem[i]
    ensures Spliced(fs, gs, i, off, part)
  {
    hide FileOk, OthersSame, DInode, Contents, Splice;
    OthersSameTwice(fs, ms, gs, i);
  }

  /** A part, then the next part behind it. */
  lemma SplicedTwice(fs: Fs, ms: Fs, gs: Fs, i: nat, off: nat, a: seq<byte>, b: seq<byte>, both: seq<byte>)
    requires Spliced(fs, ms, i, off, a) && Spliced(ms, gs, i, off + |a|, b) && both == a + b
    ensures Spliced(fs, gs, i, off, both)
  {
    hide NoHoles, OthersSame, DInode, FileBytes, Splice, Contents;
    OthersSameTwice(fs, ms, gs, i);
    if b == [] {
      assert both == a;
    } else if a == [] {
      assert both == b;
    } else {
      SpliceTwice(Contents(fs, i), off, a, b);
    }
  }

  /** How many of n bytes at off filewrite writes to a file of len bytes. */
  function Writable(len: nat, off: nat, n: nat): nat {
    if off > len then 0 else if off + n <= MAXBYTES then n
    else if off > MAXBYTES then 0 else (MAXBYTES - off) / WRITEMAX * WRITEMAX
  }

  /** Blocks that a file of len bytes takes more once n bytes have been written at off. */
  function Growth(len: nat, off: nat, n: nat): nat {
    if n == 0 then 0 else NewBlocks(Ceil(len), Max(Ceil(len), Ceil(off + n)))
  }

  lemma GrowthNone(len: nat, off: nat)
    ensures Growth(len, off, 0) == 0
  {
  }

  lemma GrowthAdds(len: nat, off: nat, k: nat, n: nat)
    requires 0 < n && (k > 0 ==> off <= len)
    ensures var len' := if k == 0 then len else Max(len, off + k);
      Growth(len, off, k) + NewBlocks(Ceil(len'), Max(Ceil(len'), Ceil(off + k + n))) == Growth(len, off, k + n)
  {
    hide Ceil;
    CeilMax(len, off + k);
    CeilUp(off + k, off + k + n);
  }

  lemma CeilUp(a: nat, b: nat)
    requires a <= b
    ensures Ceil(a) <= Ceil(b)
  {
  }

  lemma GrowthMonotone(len: nat, off: nat, k: nat, n: nat)
    ensures k <= n ==> Growth(len, off, k) <= Growth(len, off, n)
  {
    hide Ceil;
    if k <= n { CeilUp(off + k, off + n); }
  }

  /** The next transaction is refused exactly when all that can be written is. */
  lemma WritableStops(len: nat, off: nat, n: nat, k: nat)
    requires k <= n && (k == n || k % WRITEMAX == 0) && len <= MAXBYTES && k <= Writable(len, off, n)
    ensures k < n ==>
      (k < Writable(len, off, n) <==> off <= len && off + k + Min(n - k, WRITEMAX) <= MAXBYTES)
    ensures k < Writable(len, off, n) ==> k + Min(n - k, WRITEMAX) <= Writable(len, off, n)
    ensures k == n ==> k == Writable(len, off, n)
    ensures Writable(len, off, n) <= n
  {
    var room := if off <= MAXBYTES then MAXBYTES - off else 0;
    Chunked(room, k);
  }

  /** The k bytes written so far, the next transaction, and all that can be written. */
  lemma ChunkLaw(len: nat, off: nat, n: nat, k: nat)
    requires k < n && k % WRITEMAX == 0 && len <= MAXBYTES && k <= Writable(len, off, n)
    requires k > 0 ==> off <= len
    ensures var total, n1 := Writable(len, off, n), Min(n - k, WRITEMAX);
      var len' := if k == 0 then len else Max(len, off + k);
      && (off + k > len' || off + k + n1 > MAXBYTES <==> k == total)
      && (k < total ==>
           && k + n1 <= total && (k + n1 == n || (k + n1) % WRITEMAX == 0)
           && Growth(len, off, k) + NewBlocks(Ceil(len'), Max(Ceil(len'), Ceil(off + k + n1)))
              == Growth(len, off, k + n1) <= Growth(len, off, total))
  {
    hide Growth, Writable, Ceil, NewBlocks;
    var total, n1 := Writable(len, off, n), Min(n - k, WRITEMAX);
    WritableStops(len, off, n, k);
    NextChunk(n, k);
    GrowthAdds(len, off, k, n1);
    GrowthMonotone(len, off, k + n1, total);
  }

  lemma NextChunk(n: nat, k: nat)
    requires k < n && k % WRITEMAX == 0
    ensures var k' := k + Min(n - k, WRITEMAX); k' == n || k' % WRITEMAX == 0
  {
    assert WRITEMAX == 1536;
  }

  /** Whole transactions that fit into room bytes. */
  lemma Chunked(room: nat, k: nat)
    ensures room / WRITEMAX * WRITEMAX <= room < room / WRITEMAX * WRITEMAX + WRITEMAX
    ensures k % WRITEMAX == 0 && k < room / WRITEMAX * WRITEMAX ==> k + WRITEMAX <= room / WRITEMAX * WRITEMAX
  {
    assert WRITEMAX == 1536;
    NextMultiple(room / 1536, k / 1536);
  }

  lemma NextMultiple(q: nat, j: nat)
    ensures 1536 * j < q * 1536 ==> 1536 * j + 1536 <= q * 1536
  {
  }

  /** What an accepted readi does, if the state is whole. */
  lemma ReadiEffect(fs: Fs, owner: Owner, i: nat, off: nat, n: nat)
    requires Wf(fs) && i in fs.mem
    ensures Owned(fs, owner) && FileOk(fs, i) && off <= fs.mem[i].size && off + n < U32 ==>
      var k := Min(n, fs.mem[i].size - off);
      off + k <= |Contents(fs, i)| && FsWrite.Readi(fs, i, off, n) == Some((fs, Contents(fs, i)[off..off + k]))
  {
    hide NoHoles, SlotsOwned, BitsMatch, FileByte, Slot, ReadLoop;
    if Owned(fs, owner) && FileOk(fs, i) && off <= fs.mem[i].size && off + n < U32 {
      ReadiRefines(fs, owner, i, off, n);
    }
  }

  /** What an accepted writei does, if the state is whole. */
  lemma WriteiEffect(fs: Fs, owner: Owner, i: nat, off: nat, src: seq<byte>)
    requires Wf(fs) && i in fs.mem
    ensures Owned(fs, owner) && FileOk(fs, i) && !WriteRefused(fs, i, off, |src|) ==>
      var len, r := fs.mem[i].size, FsFile.Writei(fs, i, off, src);
      && (r.Some? <==> |FreeSet(fs)| >= NewBlocks(Ceil(len), Max(Ceil(len), Ceil(off + |src|))))
      && (r.Some? ==>
           && Wf(r.value) && r.value.sb == fs.sb && i in r.value.mem && FileOk(r.value, i)
           && Contents(r.value, i) == Splice(Contents(fs, i), off, src)
           && SameKind(fs.mem[i], r.value.mem[i]) && OthersSame(fs, r.value, i))
  {
    hide NoHoles, SlotsOwned, BitsMatch, FileByte, Slot, DInode, OthersSame, Splice, FsFile.Writei, FreeSet;
    if Owned(fs, owner) && FileOk(fs, i) && !WriteRefused(fs, i, off, |src|) {
      WriteiPanicsExactly(fs, owner, i, off, src);
      CeilMax(fs.mem[i].size, off + |src|);
      ghost var owner' := WriteiRefines(fs, owner, i, off, src);
    }
  }

  lemma CeilMax(a: nat, b: nat)
    ensures Ceil(Max(a, b)) == Max(Ceil(a), Ceil(b))
  {
  }

  lemma FreeDirectStuck(fs: Fs, i: nat, k: nat, n: nat)
    requires Wf(fs) && i in fs.mem && k <= n <= NDIRECT && FreeDirect(fs, i, k).None?
    ensures FreeDirect(fs, i, n).None?
  {
  }

  lemma FreeEntriesStuck(fs: Fs, a: Block, k: nat, n: nat)
    requires Wf(fs) && k <= n <= NINDIRECT && FreeEntries(fs, a, k).None?
    ensures FreeEntries(fs, a, n).None?
  {
    hide FsTrunc.Bfree, GetWord;
  }

  function Prepend(dst: seq<byte>, r: Option<(Fs, seq<byte>)>): Option<(Fs, seq<byte>)> {
    match r
    case None => None
    case Some((fs, s)) => Some((fs, dst + s))
  }

  lemma ReadStep(fs: Fs, i: nat, off: nat, n: nat)
    requires Wf(fs) && i in fs.mem && n > 0
    ensures FsAlloc.Bmap(fs, i, off / BSIZE).None? ==> ReadLoop(fs, i, off, n).None?
    ensures FsAlloc.Bmap(fs, i, off / BSIZE).Some? && off / BSIZE < MAXFILE ==>
      var gs := FsAlloc.Bmap(fs, i, off / BSIZE).value;
      var a, m := Slot(gs, i, FileSlot(off / BSIZE)), Min(n, BSIZE - off % BSIZE);
      ReadLoop(fs, i, off, n) ==
        if a >= gs.sb.size then None
        else Prepend(gs.blk[a].bytes[off % BSIZE..off % BSIZE + m], ReadLoop(gs, i, off + m, n - m))
  {
    hide FsAlloc.Bmap, Slot;
  }

  lemma ReadDone(fs: Fs, i: nat, off: nat, dst: seq<byte>)
    requires Wf(fs) && i in fs.mem
    ensures Prepend(dst, ReadLoop(fs, i, off, 0)) == Some((fs, dst))
  {
    assert dst + [] == dst;
  }

  lemma PrependPanic(dst: seq<byte>)
    ensures Prepend(dst, None) == None
  {
  }

  lemma PrependNothing(r: Option<(Fs, seq<byte>)>)
    ensures Prepend([], r) == r
  {
    if r.Some? { assert [] + r.value.1 == r.value.1; }
  }

  lemma PrependChunk(dst: seq<byte>, chunk: seq<byte>, r: Option<(Fs, seq<byte>)>)
    ensures Prepend(dst, Prepend(chunk, r)) == Prepend(dst + chunk, r)
  {
    if r.Some? { assert dst + (chunk + r.value.1) == dst + chunk + r.value.1; }
  }

  lemma NewTransaction(fs: Fs, owner: Owner, i: nat)
    requires Owned(fs, owner) && i in fs.mem && FileOk(fs, i)
    ensures var gs := fs.(logged := {});
      Owned(gs, owner) && FileOk(gs, i) && OthersSame(fs, gs, i) && Contents(gs, i) == Contents(fs, i)
        && DInode(gs, i) == DInode(fs, i)
  {
    hide GetWord, GetInode, BitAt;
    var gs := fs.(logged := {});
    assert SameSlots(fs, gs);
    StillOwned(fs, owner, gs);
    SameNoHoles(fs, gs, i, Ceil(fs.mem[i].size));
    assert forall b: nat :: b < fs.sb.size ==> Used(gs, b) == Used(fs, b);
  }

  lemma OthersSameTwice(fs: Fs, ms: Fs, gs: Fs, i: nat)
    requires Wf(fs) && Wf(ms) && Wf(gs) && fs.sb == ms.sb == gs.sb && OthersSame(fs, ms, i) && OthersSame(ms, gs, i)
    ensures OthersSame(fs, gs, i)
  {
    hide Slot, DInode, FileByte, Node;
  }
}
