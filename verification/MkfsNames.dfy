/** The kernel finds in an image what mkfs was given: each file under its name, with its bytes (xv6/mkfs.c,
    xv6/fs.c). */
module MkfsNames {
  import opened Commons
  import opened Blocks
  import opened FsLayout
  import opened FsState
  import opened FsAlloc
  import opened FsFile
  import opened FsWrite
  import opened Mkfs
  import opened Directory
  import opened DirOps
  import opened MkfsMain

  // ---------------------------------------------------------------- the entries of the root directory

  /** The name and inode number in entry j, when files follow the two dots. */
  function NameOf(files: seq<Source>, j: nat): seq<byte>
    requires j < |files| + 2
  {
    if j == 0 then [DOT] else if j == 1 then [DOT, DOT] else files[j - 2].Shown()
  }

  function InumOf(j: nat): nat { if j < 2 then ROOTINO else j }

  lemma {:induction false} EntryIs(files: seq<Source>, k: nat, j: nat)
    requires k <= |files| && j < k + 2
    ensures Entries(files, k)[ENTRY * j..ENTRY * j + ENTRY] == Dirent(InumOf(j), NameOf(files, j))
    decreases k
  {
    hide Dirent;
    var bytes := Entries(files, k);
    if k == 0 {
      assert bytes == Dirent(ROOTINO, [DOT]) + Dirent(ROOTINO, [DOT, DOT]);
    } else {
      var rest := Entries(files, k - 1);
      assert bytes == rest + Dirent(k + 1, files[k - 1].Shown());
      if j < k + 1 {
        EntryIs(files, k - 1, j);
        assert bytes[ENTRY * j..ENTRY * j + ENTRY] == rest[ENTRY * j..ENTRY * j + ENTRY];
      }
    }
  }

  /** File names are C strings. */
  predicate Strings(files: seq<Source>) {
    forall f :: f in files ==> NulFree(f.name)
  }

  lemma NameOfString(files: seq<Source>, j: nat)
    requires Strings(files) && j < |files| + 2
    ensures NulFree(NameOf(files, j))
  {
    if j >= 2 { assert files[j - 2] in files; }
  }

  lemma EntriesTidy(files: seq<Source>)
    requires Strings(files)
    ensures Tidy(Entries(files, |files|))
  {
    hide Entries, Dirent, TidyAt, NulFree, NameOf;
    var bytes := Entries(files, |files|);
    forall off: nat | off % ENTRY == 0 && off + ENTRY <= |bytes| ensures TidyAt(bytes, off) {
      var j := EntryIndex(off);
      EntryIs(files, |files|, j);
      NameOfString(files, j);
      EntryTidy(bytes, off, InumOf(j), NameOf(files, j));
    }
  }

  lemma EntryIndex(off: nat) returns (j: nat)
    requires off % ENTRY == 0
    ensures off == ENTRY * j
  {
    j := off / ENTRY;
  }

  lemma EntryTidy(bytes: seq<byte>, off: nat, inum: nat, name: seq<byte>)
    requires off + ENTRY <= |bytes| && bytes[off..off + ENTRY] == Dirent(inum, name) && NulFree(name)
    ensures TidyAt(bytes, off)
  {
    hide Dirent;
    forall i | off + 2 <= i < off + ENTRY ensures bytes[i] == CharAt(name, i - off - 2) {
      DirentName(inum, name, i - off);
      assert bytes[i] == bytes[off..off + ENTRY][i - off];
    }
  }

  lemma EntryNamed(files: seq<Source>, j: nat, name: seq<byte>)
    requires Strings(files) && j < |files| + 2 && NulFree(name) && DirBytes(|files|) <= MAXBYTES
    ensures var bytes := Entries(files, |files|);
      && (Named(bytes, name, ENTRY * j) <==> Cut(NameOf(files, j)) == Cut(name))
      && ENTRY * j + ENTRY <= |bytes| && InumAt(bytes, ENTRY * j) == InumOf(j)
  {
    hide Entries, Dirent, Padded, Cut;
    var bytes, off := Entries(files, |files|), ENTRY * j;
    EntryIs(files, |files|, j);
    NameOfString(files, j);
    PaddedSame(NameOf(files, j), name);
    DirentFields(InumOf(j), NameOf(files, j));
    EntryBytes(bytes, off);
    var de := bytes[off..off + ENTRY];
    assert de[2..ENTRY] == de[2..];
  }

  /** The name that the kernel knows file k by. */
  predicate KnownAs(f: Source, base: seq<byte>) {
    f.name == [95] + base || (f.name == base && (base == [] || base[0] != 95))
  }

  /** No earlier file has this name as far as directories keep names, nor has a dot entry. */
  predicate Unclaimed(files: seq<Source>, k: nat, base: seq<byte>)
    requires k <= |files|
  {
    && Cut(base) != [46] && Cut(base) != [46, 46]
    && forall i, other :: 0 <= i < k && other == files[i].Shown() ==> Cut(other) != Cut(base)
  }

  /** dirlookup in the root directory of the image: file k is found under its name without the leading underscore,
      with inode k + 2. */
  lemma NameFound(files: seq<Source>, k: nat, base: seq<byte>)
    requires Strings(files) && k < |files| && DirBytes(|files|) <= MAXBYTES && KnownAs(files[k], base)
    requires Unclaimed(files, k, base)
    ensures Scan(Entries(files, |files|), base, 0) == Found(k + 2, ENTRY * (k + 2))
  {
    hide Entries, Named, Scan;
    var bytes := Entries(files, |files|);
    assert files[k] in files && NulFree(files[k].name);
    assert files[k].name == [95] + base ==> files[k].name[1..] == base && forall i :: 0 <= i < |base| ==>
      base[i] == files[k].name[i + 1];
    EntriesTidy(files);
    EntryNamed(files, k + 2, base);
    forall p: nat | p < ENTRY * (k + 2) ensures !Named(bytes, base, p) { NotBefore(files, k, base, p); }
    ScanFinds(bytes, base, ENTRY * (k + 2));
  }

  lemma NotBefore(files: seq<Source>, k: nat, base: seq<byte>, p: nat)
    requires Strings(files) && k < |files| && DirBytes(|files|) <= MAXBYTES && NulFree(base) && p < ENTRY * (k + 2)
    requires Unclaimed(files, k, base)
    ensures !Named(Entries(files, |files|), base, p)
  {
    hide Entries, Named, Cut, NameOf, Unclaimed, DirBytes;
    if p % ENTRY == 0 {
      var j := EntryIndex(p);
      NameDiffers(files, k, base, j);
      EntryNamed(files, j, base);
    } else {
      NamedAligned(Entries(files, |files|), base, p);
    }
  }

  lemma NamedAligned(bytes: seq<byte>, name: seq<byte>, p: nat)
    ensures Named(bytes, name, p) ==> p % ENTRY == 0
  {
  }

  lemma NameDiffers(files: seq<Source>, k: nat, base: seq<byte>, j: nat)
    requires k < |files| && Unclaimed(files, k, base) && j < k + 2
    ensures Cut(NameOf(files, j)) != Cut(base)
  {
    if j >= 2 { assert files[j - 2].Shown() == NameOf(files, j); }
    assert Cut([46]) == [46] && Cut([46, 46]) == [46, 46];
  }

  // ---------------------------------------------------------------- the image

  /** ilock of the root directory reads its inode from disk. */
  function RootLocked(fs: Fs): Fs
    requires Wf(fs) && ROOTINO < fs.sb.ninodes
  {
    fs.(mem := map[ROOTINO := DInode(fs, ROOTINO)])
  }

  /** In the image of any list of files that mkfs accepts and that fits: dirlookup of file k's name in the root
      directory yields an inode whose file holds exactly the bytes that mkfs was given, also when the rounding of the
      directory's size has left a hole behind its entries. */
  lemma FoundByName(fs: Fs, owner: Owner, sb: Super, files: seq<Source>, k: nat, base: seq<byte>)
    requires Fits(sb, files) && Finished(fs, owner, sb, files) && Strings(files) && k < |files|
    requires KnownAs(files[k], base) && Unclaimed(files, k, base)
    ensures ROOTINO < fs.sb.ninodes
    ensures var ms, len := RootLocked(fs), DirBytes(|files|);
      && Readable(ms, owner, ROOTINO, len, base) && ms.mem[ROOTINO].kind == T_DIR
      && Scan(FileBytes(ms, ROOTINO, len), base, 0) == Found(k + 2, ENTRY * (k + 2))
    ensures files[k].data.Some? && Stored(fs, k + 2, T_FILE, files[k].data.value)
  {
    hide Scan, Entries, NoHoles, Owned, FileOk, DirBytes, Ceil, Fits, Finished, Unclaimed, KnownAs, RootSize, Strings;
    hide Readable, FileBytes, DInode, RootLocked, Stored;
    ImageFacts(fs, owner, sb, files, k);
    NameFound(files, k, base);
    RootReadable(fs, owner, DirBytes(|files|), base);
  }

  /** The locked root directory reads as it is on disk. */
  lemma RootReadable(fs: Fs, owner: Owner, len: nat, name: seq<byte>)
    requires Owned(fs, owner) && fs.mem == map[] && ROOTINO < fs.sb.ninodes && len <= MAXBYTES
    requires NoHoles(fs, ROOTINO, Ceil(len)) && DInode(fs, ROOTINO).size == RootSize(len)
    requires Scan(FileBytes(fs, ROOTINO, len), name, 0).Found?
    ensures var ms := RootLocked(fs);
      && ms.mem.Keys == {ROOTINO} && ms.mem[ROOTINO] == DInode(fs, ROOTINO)
      && Readable(ms, owner, ROOTINO, len, name) && FileBytes(ms, ROOTINO, len) == FileBytes(fs, ROOTINO, len)
  {
    hide Scan, FileByte, NoHoles, SlotsOwned, BitsMatch, Slot, Ceil, RootSize, DInode;
    var ms := RootLocked(fs);
    LockedSame(fs, owner);
    SameNoHoles(fs, ms, ROOTINO, Ceil(len));
    SizeCovers(len);
    assert FileBytes(ms, ROOTINO, len) == FileBytes(fs, ROOTINO, len);
  }

  /** What the image's definition says of the root directory and of file k. */
  lemma ImageFacts(fs: Fs, owner: Owner, sb: Super, files: seq<Source>, k: nat)
    requires Fits(sb, files) && Finished(fs, owner, sb, files) && k < |files|
    ensures Owned(fs, owner) && fs.mem == map[] && Wf(fs) && ROOTINO < fs.sb.ninodes && DirBytes(|files|) <= MAXBYTES
    ensures var n, root := DirBytes(|files|), DInode(fs, ROOTINO);
      && root.kind == T_DIR && root.size == RootSize(n) && NoHoles(fs, ROOTINO, Ceil(n))
      && FileBytes(fs, ROOTINO, n) == Entries(files, |files|)
    ensures files[k].data.Some? && Stored(fs, k + 2, T_FILE, files[k].data.value)
  {
    hide Entries, FileByte, NoHoles, SlotsOwned, BitsMatch, Slot, FileOk, DirBytes, Ceil, RootSize, GetInode;
    assert FilesStored(fs, files, |files|);
    assert Stored(fs, k + 2, T_FILE, files[k].data.value);
  }

  lemma SizeCovers(n: nat)
    ensures n <= RootSize(n)
  {
  }

  lemma LockedSame(fs: Fs, owner: Owner)
    requires Owned(fs, owner) && fs.mem == map[] && ROOTINO < fs.sb.ninodes
    ensures var ms := RootLocked(fs);
      && Owned(ms, owner) && SameSlots(fs, ms)
      && forall i: nat, p: nat :: i < fs.sb.ninodes && p < MAXBYTES ==> FileByte(ms, i, p) == FileByte(fs, i, p)
  {
    hide GetInode, GetWord, BitAt;
    var ms := RootLocked(fs);
    assert SameSlots(fs, ms);
    StillOwned(fs, owner, ms);
    assert forall b: nat :: b < fs.sb.size ==> Used(ms, b) == Used(fs, b);
  }
}
