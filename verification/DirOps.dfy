/** dirlookup and dirlink of xv6/fs.c: loops of 16-byte reads, and one write. */
module DirOps {
  import opened Commons
  import opened Blocks
  import opened FsLayout
  import opened FsState
  import opened FsAlloc
  import opened FsFile
  import opened FsWrite
  import opened FsSpace
  import opened Directory
  import opened FileSys

  /** The first len bytes of directory dp have no hole, and either are all of it or hold the name. */
  ghost predicate Readable(fs: Fs, owner: Owner, dp: nat, len: nat, name: seq<byte>) {
    && Owned(fs, owner) && dp in fs.mem && len <= fs.mem[dp].size && len <= MAXBYTES && NoHoles(fs, dp, Ceil(len))
    && (len == fs.mem[dp].size || Scan(FileBytes(fs, dp, len), name, 0).Found?)
  }

  /** One readi of the loop: the next entry, or too few bytes at the end. */
  lemma NextEntry(fs: Fs, owner: Owner, dp: nat, len: nat, name: seq<byte>, off: nat)
    requires Readable(fs, owner, dp, len, name) && off < fs.mem[dp].size
    requires Scan(FileBytes(fs, dp, len), name, 0) == Scan(FileBytes(fs, dp, len), name, off)
    ensures var bytes, k := FileBytes(fs, dp, len), Min(ENTRY, fs.mem[dp].size - off);
      && off + k <= len && !ReadRefused(fs, dp, off, ENTRY)
      && Readi(fs, dp, off, ENTRY) == Some((fs, bytes[off..off + k]))
      && (k < ENTRY ==> Scan(bytes, name, 0) == Panics)
  {
    hide NoHoles, SlotsOwned, BitsMatch, FileByte, ReadLoop, NameEq;
    ReadPart(fs, owner, dp, len, off, ENTRY);
  }

  lemma EntryBytes(bytes: seq<byte>, off: nat)
    requires off + ENTRY <= |bytes|
    ensures var de := bytes[off..off + ENTRY];
      InumAt(de, 0) == InumAt(bytes, off) && de[2..] == bytes[off + 2..off + ENTRY]
  {
  }

  /** dirlookup; Panics stands for its panics and for those of the readi it calls.  On a directory without holes,
      or for a name in front of its first hole, it finds what Scan finds and changes nothing. */
  method Dirlookup(sys: FileSystem, dp: nat, name: seq<byte>, ghost len: nat) returns (r: Lookup)
    requires Wf(sys.fs) && dp in sys.fs.mem
    modifies sys`fs
    ensures old(sys.fs).mem[dp].kind != T_DIR ==> r == Panics && sys.fs == old(sys.fs)
    ensures old(sys.fs).mem[dp].kind == T_DIR && Readable(old(sys.fs), sys.owner, dp, len, name) ==>
      r == Scan(FileBytes(old(sys.fs), dp, len), name, 0) && sys.fs == old(sys.fs)
  {
    hide Readable, NoHoles, FileByte, FsWrite.Readi, NameEq;
    if sys.fs.mem[dp].kind != T_DIR {
      return Panics;
    }
    ghost var fs0, owner := sys.fs, sys.owner;
    ghost var good := Readable(fs0, owner, dp, len, name);
    if good { ReadableLen(fs0, owner, dp, len, name); }
    ghost var bytes := if good then FileBytes(fs0, dp, len) else [];
    var off := 0;
    while off < sys.fs.mem[dp].size
      invariant Wf(sys.fs) && dp in sys.fs.mem && sys.fs.mem[dp].size == fs0.mem[dp].size && sys.owner == owner
      invariant good ==> sys.fs == fs0 && Scan(bytes, name, 0) == Scan(bytes, name, off)
      decreases fs0.mem[dp].size - off
    {
      if good { NextEntry(fs0, owner, dp, len, name, off); }
      var n, de, ok := sys.Readi(dp, off, ENTRY);
      if !ok || n != ENTRY {
        return Panics;
      }
      if good { EntryBytes(bytes, off); }
      if InumAt(de, 0) != 0 && NameEq(name, de[2..], 0) {
        return Found(InumAt(de, 0), off);
      }
      off := off + ENTRY;
    }
    return Missing;
  }

  lemma ReadableLen(fs: Fs, owner: Owner, dp: nat, len: nat, name: seq<byte>)
    requires Readable(fs, owner, dp, len, name)
    ensures Wf(fs) && dp in fs.mem && dp < fs.sb.ninodes && len <= fs.mem[dp].size && len <= MAXBYTES
    ensures len == fs.mem[dp].size || Scan(FileBytes(fs, dp, len), name, 0).Found?
  {
  }

  lemma {:induction false} MissingWhole(bytes: seq<byte>, name: seq<byte>, off: nat)
    requires off % ENTRY == 0 && off <= |bytes| && Scan(bytes, name, off) == Missing
    ensures |bytes| % ENTRY == 0
    decreases |bytes| - off
  {
    if off < |bytes| { MissingWhole(bytes, name, off + ENTRY); }
  }

  /** A whole file can be read to its end. */
  lemma WholeReadable(fs: Fs, owner: Owner, dp: nat, name: seq<byte>)
    requires Owned(fs, owner) && dp in fs.mem && FileOk(fs, dp)
    ensures Readable(fs, owner, dp, fs.mem[dp].size, name) && FileBytes(fs, dp, fs.mem[dp].size) == Contents(fs, dp)
  {
  }

  /** The loop of dirlink: the first entry that is not in use, or the end. */
  method EmptyEntry(sys: FileSystem, dp: nat, ghost name: seq<byte>) returns (off: nat, ok: bool)
    requires Owned(sys.fs, sys.owner) && dp in sys.fs.mem && FileOk(sys.fs, dp)
    requires Scan(Contents(sys.fs, dp), name, 0) == Missing
    modifies sys`fs
    ensures ok && sys.fs == old(sys.fs) && |Contents(sys.fs, dp)| % ENTRY == 0
    ensures off == FirstEmpty(Contents(sys.fs, dp), 0)
  {
    hide NoHoles, FileByte, FsWrite.Readi, SlotsOwned, BitsMatch, Slot, Scan;
    ghost var bytes := Contents(sys.fs, dp);
    MissingWhole(bytes, name, 0);
    off, ok := 0, true;
    while off < sys.fs.mem[dp].size
      invariant ok && sys.fs == old(sys.fs) && off <= |bytes| && off % ENTRY == 0
      invariant FirstEmpty(bytes, off) == FirstEmpty(bytes, 0)
      decreases |bytes| - off
    {
      WholeEntry(|bytes|, off);
      var n, de;
      n, de, ok := sys.Readi(dp, off, ENTRY);
      if !ok || n != ENTRY {
        return off, false;
      }
      EntryBytes(bytes, off);
      if InumAt(de, 0) == 0 {
        break;
      }
      off := off + ENTRY;
    }
  }

  /** What a lookup of `other` finds once the name is linked. */
  ghost predicate LinkSeen(before: seq<byte>, after: seq<byte>, off: nat, inum: nat, name: seq<byte>,
    other: seq<byte>) {
    NulFree(other) ==>
      Scan(after, other, 0) == if Cut(other) == Cut(name) then Found(inum % 0x1_0000, off) else Scan(before, other, 0)
  }

  lemma LinkSeenByAll(bytes: seq<byte>, inum: nat, name: seq<byte>)
    requires Tidy(bytes) && NulFree(name) && |bytes| % ENTRY == 0
    requires Scan(bytes, name, 0) == Missing && inum % 0x1_0000 != 0
    ensures var off := FirstEmpty(bytes, 0);
      && (off < |bytes| ==> off + ENTRY <= |bytes|) && Tidy(Linked(bytes, off, inum, name))
      && forall other :: LinkSeen(bytes, Linked(bytes, off, inum, name), off, inum, name, other)
  {
    hide Scan, Tidy, FirstEmpty, Linked;
    var off := FirstEmpty(bytes, 0);
    LinkedTidy(bytes, off, inum, name);
    forall other ensures LinkSeen(bytes, Linked(bytes, off, inum, name), off, inum, name, other) {
      if NulFree(other) { LinkThenLookup(bytes, inum, name, other); }
    }
  }

  /** The file may grow to hold an entry at off, and there are free blocks for that. */
  ghost predicate RoomFor(fs: Fs, size: nat, off: nat)
    requires Wf(fs)
  {
    off + ENTRY <= MAXBYTES && |FreeSet(fs)| >= NewBlocks(Ceil(size), Max(Ceil(size), Ceil(off + ENTRY)))
  }

  /** dirlink: -1 exactly when the name is there already; else the entry goes into the first unused place, the new
      name is found from then on, and all other lookups are as before.  ok is false after a panic: not a directory,
      a last entry that is not whole, no room behind the last entry, or no free block. */
  method Dirlink(sys: FileSystem, dp: nat, name: seq<byte>, inum: nat) returns (r: int, ok: bool)
    requires Owned(sys.fs, sys.owner) && dp in sys.fs.mem && FileOk(sys.fs, dp)
    modifies sys
    ensures var fs0, bytes := old(sys.fs), Contents(old(sys.fs), dp);
      && (r == -1 <==> fs0.mem[dp].kind == T_DIR && Scan(bytes, name, 0).Found?)
      && (r == -1 ==> ok && sys.fs == fs0)
      && (fs0.mem[dp].kind != T_DIR || Scan(bytes, name, 0) == Panics ==> !ok)
    ensures var fs0, bytes := old(sys.fs), Contents(old(sys.fs), dp);
      fs0.mem[dp].kind == T_DIR && Scan(bytes, name, 0) == Missing ==>
        && |bytes| % ENTRY == 0
        && var off := FirstEmpty(bytes, 0);
           && (ok <==> RoomFor(fs0, |bytes|, off))
           && (ok ==>
                && r == 0 && Owned(sys.fs, sys.owner) && sys.fs.sb == fs0.sb && dp in sys.fs.mem && FileOk(sys.fs, dp)
                && OthersSame(fs0, sys.fs, dp) && SameKind(fs0.mem[dp], sys.fs.mem[dp])
                && Contents(sys.fs, dp) == Linked(bytes, off, inum, name))
           && (ok && Tidy(bytes) && NulFree(name) && inum % 0x1_0000 != 0 ==>
                && Tidy(Contents(sys.fs, dp))
                && forall other :: LinkSeen(bytes, Contents(sys.fs, dp), off, inum, name, other))
  {
    hide NoHoles, FileByte, FsFile.Writei, SlotsOwned, BitsMatch, Slot, Scan, DInode, OthersSame, FreeSet, Dirent, Tidy;
    hide LinkSeen, FirstEmpty, Splice;
    ghost var fs0, owner := sys.fs, sys.owner;
    WholeReadable(fs0, owner, dp, name);
    ghost var bytes := Contents(fs0, dp);
    var l := Dirlookup(sys, dp, name, sys.fs.mem[dp].size);
    if l.Panics? {
      return 0, false;
    }
    if l.Found? {
      return -1, true;
    }
    var off;
    off, ok := EmptyEntry(sys, dp, name);
    if !ok {
      return 0, false;
    }
    var w;
    w, ok := sys.Writei(dp, Dirent(inum, name), off);
    if !ok || w != ENTRY {
      return 0, false;
    }
    sys.owner := WriteiRefines(fs0, owner, dp, off, Dirent(inum, name));
    if Tidy(bytes) && NulFree(name) && inum % 0x1_0000 != 0 { LinkSeenByAll(bytes, inum, name); }
    return 0, true;
  }
}
