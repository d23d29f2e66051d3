/** main() of xv6/mkfs.c: the image built from any list of files that fits. */
module MkfsMain {
  import opened Commons
  import opened Blocks
  import opened FsLayout
  import opened FsState
  import opened FsAlloc
  import opened FsFile
  import opened FsWrite
  import opened Mkfs
  import opened Directory
  import LogReservation

  const ROOTINO: nat := 1
  const T_FILE: u16 := 2
  const LOGSTART: nat := 2
  const DOT: byte := 46
  const SLASH: byte := 47
  const UNDERSCORE: byte := 95

  /** An argument of mkfs; None is a file that cannot be opened. */
  datatype Source = Source(name: seq<byte>, data: Option<seq<byte>>) {
    function Size(): nat { if data.None? then 0 else |data.value| }

    /** The name without a leading underscore. */
    function Shown(): seq<byte> { if name != [] && name[0] == UNDERSCORE then name[1..] else name }

    predicate Accepted() { SLASH !in name && data.Some? }
  }

  // ---------------------------------------------------------------- the image wanted

  /** The length of the root directory with n files entered. */
  function DirBytes(n: nat): nat { ENTRY * (n + 2) }

  /** The root directory once k files have been entered; file number k has inode k + 2. */
  function Entries(files: seq<Source>, k: nat): (r: seq<byte>)
    requires k <= |files|
    ensures |r| == DirBytes(k)
  {
    if k == 0 then Dirent(ROOTINO, [DOT]) + Dirent(ROOTINO, [DOT, DOT])
    else Entries(files, k - 1) + Dirent(k + 1, files[k - 1].Shown())
  }

  /** Blocks that the first k files take. */
  function Need(files: seq<Source>, k: nat): nat
    requires k <= |files|
  {
    if k == 0 then 0 else Need(files, k - 1) + NewBlocks(0, Ceil(files[k - 1].Size()))
  }

  /** Where the blocks in use end once k files have been entered. */
  function Reach(sb: Super, files: seq<Source>, k: nat): nat
    requires k <= |files|
  {
    sb.datastart + NewBlocks(0, Ceil(DirBytes(k))) + Need(files, k)
  }

  ghost predicate Fits(sb: Super, files: seq<Source>) {
    && sb.Ok() && 1 < sb.inodestart && |files| + 2 <= sb.ninodes
    && DirBytes(|files|) <= MAXBYTES && (forall f :: f in files ==> f.Size() <= MAXBYTES)
    && Reach(sb, files, |files|) <= sb.size && Reach(sb, files, |files|) < BPB
  }

  ghost predicate Stored(fs: Fs, i: nat, kind: u16, data: seq<byte>)
    requires Wf(fs)
  {
    && i < fs.sb.ninodes && FileOk(fs, i) && Contents(fs, i) == data
    && Node(fs, i).kind == kind && Node(fs, i).nlink == 1
  }

  ghost predicate FilesStored(fs: Fs, files: seq<Source>, k: nat)
    requires Wf(fs) && k <= |files|
  {
    forall j: nat :: j < k ==> files[j].data.Some? && Stored(fs, j + 2, T_FILE, files[j].data.value)
  }

  // ---------------------------------------------------------------- arithmetic

  lemma {:induction false} ReachGrows(sb: Super, files: seq<Source>, k: nat, n: nat)
    requires k <= n <= |files|
    ensures Reach(sb, files, k) <= Reach(sb, files, n)
    decreases n - k
  {
    if k < n { ReachGrows(sb, files, k + 1, n); }
  }

  lemma BlocksAdd(a: nat, b: nat, c: nat)
    requires a <= b <= c
    ensures Ceil(a) <= Ceil(b) <= Ceil(c) && Ceil(0) == 0
    ensures NewBlocks(Ceil(a), Ceil(b)) + NewBlocks(Ceil(b), Ceil(c)) == NewBlocks(Ceil(a), Ceil(c))
  {
  }

  /** The entries fill whole blocks. */
  lemma RootFull(n: nat)
    ensures DirBytes(n) % BSIZE == 0 <==> n % 32 == 30
  {
  }

  // ---------------------------------------------------------------- frames

  lemma StoredStays(fs: Fs, gs: Fs, i: nat, j: nat, kind: u16, data: seq<byte>)
    requires Wf(fs) && Wf(gs) && gs.sb == fs.sb && OthersSame(fs, gs, i) && i != j && Stored(fs, j, kind, data)
    ensures Stored(gs, j, kind, data)
  {
    hide Slot, DInode, FileByte, NoHoles;
    OtherNoHoles(fs, gs, j, Ceil(Node(fs, j).size));
    assert FileBytes(gs, j, |data|) == FileBytes(fs, j, |data|);
  }

  lemma FilesStay(fs: Fs, gs: Fs, i: nat, files: seq<Source>, k: nat)
    requires Wf(fs) && Wf(gs) && gs.sb == fs.sb && OthersSame(fs, gs, i) && k <= |files| && FilesStored(fs, files, k)
    requires i < 2 || i >= k + 2
    ensures FilesStored(gs, files, k)
  {
    hide Stored, OthersSame;
    forall j: nat | j < k ensures files[j].data.Some? && Stored(gs, j + 2, T_FILE, files[j].data.value) {
      StoredStays(fs, gs, i, j + 2, T_FILE, files[j].data.value);
    }
  }

  /** The same inodes, slots and bytes everywhere. */
  ghost predicate AllSame(fs: Fs, gs: Fs)
    requires Wf(fs) && Wf(gs) && gs.sb == fs.sb
  {
    && fs.mem == gs.mem == map[] && SameSlots(fs, gs)
    && (forall i: nat :: i < fs.sb.ninodes ==> Node(gs, i) == Node(fs, i))
    && (forall i: nat, p: nat :: i < fs.sb.ninodes && p < MAXBYTES ==> FileByte(gs, i, p) == FileByte(fs, i, p))
  }

  lemma AllSameKeeps(fs: Fs, gs: Fs, i: nat)
    requires Wf(fs) && Wf(gs) && gs.sb == fs.sb && AllSame(fs, gs) && i < fs.sb.ninodes
    ensures OthersSame(fs, gs, i) && (FileOk(gs, i) <==> FileOk(fs, i))
  {
    hide Slot, GetInode, FileByte, NoHoles;
    forall j: nat | j < fs.sb.ninodes ensures DInode(gs, j) == DInode(fs, j) {
      assert Node(gs, j) == Node(fs, j);
    }
    var k := Ceil(Node(fs, i).size);
    if NoHoles(fs, i, k) { SameNoHoles(fs, gs, i, k); }
    if NoHoles(gs, i, k) { SameNoHoles(gs, fs, i, k); }
  }

  lemma OtherFileOk(fs: Fs, gs: Fs, i: nat, j: nat)
    requires Wf(fs) && Wf(gs) && gs.sb == fs.sb && OthersSame(fs, gs, i) && j < fs.sb.ninodes && j != i && FileOk(fs, j)
    ensures FileOk(gs, j)
  {
    hide Slot, DInode, FileByte, NoHoles;
    OtherNoHoles(fs, gs, j, Ceil(Node(fs, j).size));
  }

  ghost predicate FilesDone(fs: Fs, files: seq<Source>)
    requires Wf(fs)
  {
    && FilesStored(fs, files, |files|)
    && forall i: nat :: i < fs.sb.ninodes && i != ROOTINO ==> FileOk(fs, i)
  }

  /** The root directory's first bytes are the entries; its size is rounded up, which
      leaves it whole unless the entries fill its last block. */
  ghost predicate RootDone(fs: Fs, files: seq<Source>)
    requires Wf(fs)
  {
    && ROOTINO < fs.sb.ninodes && DirBytes(|files|) <= MAXBYTES
    && Node(fs, ROOTINO).kind == T_DIR && Node(fs, ROOTINO).nlink == 1
    && Node(fs, ROOTINO).size == RootSize(DirBytes(|files|)) && NoHoles(fs, ROOTINO, Ceil(DirBytes(|files|)))
    && FileBytes(fs, ROOTINO, DirBytes(|files|)) == Entries(files, |files|)
    && (FileOk(fs, ROOTINO) <==> |files| % 32 != 30)
  }

  lemma FilesKept(fs: Fs, rs: Fs, gs: Fs, files: seq<Source>)
    requires Wf(fs) && Wf(rs) && Wf(gs) && fs.sb == rs.sb == gs.sb && ROOTINO < fs.sb.ninodes && AllFilesOk(fs)
    requires FilesStored(fs, files, |files|) && OthersSame(fs, rs, ROOTINO) && AllSame(rs, gs)
    ensures FilesDone(gs, files)
  {
    hide OthersSame, AllSame, FileOk, FilesStored;
    AllSameKeeps(rs, gs, ROOTINO);
    FilesStay(fs, rs, ROOTINO, files, |files|);
    FilesStay(rs, gs, ROOTINO, files, |files|);
    forall i: nat | i < gs.sb.ninodes && i != ROOTINO ensures FileOk(gs, i) {
      OtherFileOk(fs, rs, ROOTINO, i);
      OtherFileOk(rs, gs, ROOTINO, i);
    }
  }

  lemma RootKept(fs: Fs, rs: Fs, gs: Fs, files: seq<Source>)
    requires Wf(fs) && Wf(rs) && Wf(gs) && fs.sb == rs.sb == gs.sb && AllSame(rs, gs)
    requires Stored(fs, ROOTINO, T_DIR, Entries(files, |files|))
    requires Node(rs, ROOTINO) == Node(fs, ROOTINO).(size := RootSize(Node(fs, ROOTINO).size))
    requires forall p: nat :: p < MAXBYTES ==> FileByte(rs, ROOTINO, p) == FileByte(fs, ROOTINO, p)
    requires FileOk(rs, ROOTINO) <==> Node(fs, ROOTINO).size % BSIZE != 0
    requires NoHoles(rs, ROOTINO, Ceil(Node(fs, ROOTINO).size))
    ensures RootDone(gs, files)
  {
    hide DInode, FileByte, NoHoles, RootSize, SameSlots, Entries, DirBytes, Ceil;
    AllSameKeeps(rs, gs, ROOTINO);
    SameNoHoles(rs, gs, ROOTINO, Ceil(DirBytes(|files|)));
    RootFull(|files|);
    assert FileBytes(gs, ROOTINO, DirBytes(|files|)) == Contents(fs, ROOTINO);
  }

  lemma ImageBasics(img: Image)
    requires img.Valid()
    ensures Wf(img.fs) && forall i: nat :: i < img.fs.sb.ninodes ==> FileOk(img.fs, i)
  {
  }

  // ---------------------------------------------------------------- main

  /** The copying loop of main(): read returns any part of what is left, at most BSIZE bytes. */
  method AppendAll(img: Image, i: nat, data: seq<byte>)
    requires img.Valid() && i < img.fs.sb.ninodes && i < img.freeinode && |data| <= MAXBYTES
    requires Stored(img.fs, i, T_FILE, []) && img.freeblock + NewBlocks(0, Ceil(|data|)) <= img.fs.sb.size
    modifies img
    ensures img.Valid() && img.fs.sb == old(img.fs).sb && img.freeinode == old(img.freeinode)
    ensures OthersSame(old(img.fs), img.fs, i) && Stored(img.fs, i, T_FILE, data)
    ensures img.freeblock <= old(img.freeblock) + NewBlocks(0, Ceil(|data|))
  {
    hide Slot, SlotsOwned, DInode, Used, NoHoles, FileByte, Blank, NewBlocks, Ceil;
    var pos := 0;
    assert data[..0] == [];
    BlocksAdd(0, 0, |data|);
    while pos < |data|
      invariant pos <= |data| && img.Valid() && img.fs.sb == old(img.fs).sb && img.freeinode == old(img.freeinode)
      invariant Stored(img.fs, i, T_FILE, data[..pos]) && OthersSame(old(img.fs), img.fs, i)
      invariant Ceil(0) <= Ceil(pos) && img.freeblock <= old(img.freeblock) + NewBlocks(Ceil(0), Ceil(pos))
    {
      var cc: nat :| 1 <= cc <= BSIZE && cc <= |data| - pos;
      ghost var os := img.fs;
      BlocksAdd(0, pos, pos + cc);
      BlocksAdd(0, pos + cc, |data|);
      img.Iappend(i, data[pos..pos + cc]);
      assert data[..pos] + data[pos..pos + cc] == data[..pos + cc];
      AppendDone(old(img.fs), old(img.fs), os, img.fs, i);
      pos := pos + cc;
    }
    assert data[..pos] == data;
  }

  /** One round of main()'s loop over the files. */
  method AddFile(img: Image, files: seq<Source>, k: nat)
    requires Fits(img.fs.sb, files) && k < |files| && files[k].Accepted()
    requires img.Valid() && img.freeinode == k + 2 && img.freeblock <= Reach(img.fs.sb, files, k)
    requires Stored(img.fs, ROOTINO, T_DIR, Entries(files, k)) && FilesStored(img.fs, files, k)
    modifies img
    ensures img.Valid() && img.fs.sb == old(img.fs).sb && img.freeinode == k + 3
    ensures img.freeblock <= Reach(img.fs.sb, files, k + 1)
    ensures Stored(img.fs, ROOTINO, T_DIR, Entries(files, k + 1)) && FilesStored(img.fs, files, k + 1)
  {
    hide Slot, SlotsOwned, DInode, Used, NoHoles, FileByte, Blank, NewBlocks, Ceil, Dirent, OthersSame, Building;
    ghost var sb, fs0 := img.fs.sb, img.fs;
    ImageBasics(img);
    ReachGrows(sb, files, k + 1, |files|);
    BlocksAdd(0, DirBytes(k), DirBytes(k + 1));
    var inum := img.Ialloc(T_FILE);
    ImageBasics(img);
    ghost var fs1 := img.fs;
    FreshStored(fs1, inum);
    StoredStays(fs0, fs1, inum, ROOTINO, T_DIR, Entries(files, k));
    FilesStay(fs0, fs1, inum, files, k);
    img.Iappend(ROOTINO, Dirent(inum, files[k].Shown()));
    ImageBasics(img);
    ghost var fs2 := img.fs;
    StoredStays(fs1, fs2, ROOTINO, inum, T_FILE, []);
    FilesStay(fs1, fs2, ROOTINO, files, k);
    AppendAll(img, inum, files[k].data.value);
    ImageBasics(img);
    StoredStays(fs2, img.fs, inum, ROOTINO, T_DIR, Entries(files, k + 1));
    FilesStay(fs2, img.fs, inum, files, k);
  }

  lemma FreshStored(fs: Fs, i: nat)
    requires Wf(fs) && i < fs.sb.ninodes && FileOk(fs, i)
    requires Node(fs, i) == EmptyInode().(kind := T_FILE, nlink := 1)
    ensures Stored(fs, i, T_FILE, [])
  {
    hide NoHoles, FileByte;
  }

  /** main() up to the loop over the files. */
  method MakeRoot(sb: Super, b1: Block, ghost files: seq<Source>) returns (img: Image)
    requires Fits(sb, files)
    ensures fresh(img) && img.Valid() && img.fs.sb == sb && img.freeinode == 2
    ensures img.freeblock <= Reach(sb, files, 0)
    ensures Stored(img.fs, ROOTINO, T_DIR, Entries(files, 0))
  {
    hide Slot, SlotsOwned, DInode, Used, NoHoles, FileByte, Blank, NewBlocks, Ceil, Dirent, OthersSame, Building;
    ReachGrows(sb, files, 0, |files|);
    BlocksAdd(0, 0, ENTRY);
    BlocksAdd(0, ENTRY, 2 * ENTRY);
    img := new Image(sb, b1);
    var root := img.Ialloc(T_DIR);
    ImageBasics(img);
    assert Contents(img.fs, root) == [];
    img.Iappend(root, Dirent(root, [DOT]));
    ImageBasics(img);
    img.Iappend(root, Dirent(root, [DOT, DOT]));
    ImageBasics(img);
  }

  /** main()'s loop over the files; a refused argument ends it. */
  method AddFiles(img: Image, files: seq<Source>) returns (ok: bool)
    requires Fits(img.fs.sb, files) && img.Valid() && img.freeinode == 2 && img.freeblock <= Reach(img.fs.sb, files, 0)
    requires Stored(img.fs, ROOTINO, T_DIR, Entries(files, 0))
    modifies img
    ensures img.Valid() && img.fs.sb == old(img.fs).sb
    ensures ok <==> forall f :: f in files ==> f.Accepted()
    ensures ok ==> img.freeblock <= Reach(img.fs.sb, files, |files|)
    ensures ok ==> Stored(img.fs, ROOTINO, T_DIR, Entries(files, |files|)) && FilesStored(img.fs, files, |files|)
  {
    hide Building, Blank, AllFilesOk, Stored, Reach, Entries;
    ImageBasics(img);
    for k := 0 to |files|
      invariant forall j :: 0 <= j < k ==> files[j].Accepted()
      invariant img.Valid() && img.fs.sb == old(img.fs).sb && img.freeinode == k + 2
      invariant img.freeblock <= Reach(img.fs.sb, files, k)
      invariant Wf(img.fs) && Stored(img.fs, ROOTINO, T_DIR, Entries(files, k)) && FilesStored(img.fs, files, k)
    {
      if !files[k].Accepted() { return false; }
      AddFile(img, files, k);
      ImageBasics(img);
    }
    ok := true;
  }

  /** The finished image: block ownership holds, every file holds its source's bytes and
      the root directory holds the entries. */
  ghost predicate Finished(fs: Fs, owner: Owner, sb: Super, files: seq<Source>) {
    Owned(fs, owner) && fs.sb == sb && fs.mem == map[] && FilesDone(fs, files) && RootDone(fs, files)
  }

  /** main() after the loop. */
  method Finish(img: Image, ghost files: seq<Source>)
    requires Fits(img.fs.sb, files) && img.Valid() && img.freeblock <= Reach(img.fs.sb, files, |files|)
    requires Stored(img.fs, ROOTINO, T_DIR, Entries(files, |files|)) && FilesStored(img.fs, files, |files|)
    modifies img
    ensures Finished(img.fs, img.owner, old(img.fs).sb, files)
  {
    hide Slot, DInode, FileByte, NoHoles, Blank, Building, OthersSame, Entries, RootSize, SlotsOwned, BitsMatch;
    hide FilesStored, SameSlots, Contents, FileOk, FilesDone, RootDone;
    ghost var fs := img.fs;
    ImageBasics(img);
    img.FixRootSize(ROOTINO);
    ghost var rs := img.fs;
    BuildingBasics(rs, img.freeblock, img.owner);
    img.Balloc();
    FilesKept(fs, rs, img.fs, files);
    RootKept(fs, rs, img.fs, files);
  }

  /** main() for any list of files that fits; it stops early exactly at a refused argument. */
  method MakeImage(sb: Super, b1: Block, files: seq<Source>) returns (ok: bool, fs: Fs, ghost owner: Owner)
    requires Fits(sb, files)
    ensures ok <==> forall f :: f in files ==> f.Accepted()
    ensures ok ==> Finished(fs, owner, sb, files)
  {
    hide Building, Blank, AllFilesOk, Stored, Reach, Entries, Finished, FilesStored;
    var img := MakeRoot(sb, b1, files);
    ok := AddFiles(img, files);
    if ok { Finish(img, files); }
    fs, owner := img.fs, img.owner;
  }

  lemma {:induction false} EmptyNeed(files: seq<Source>, k: nat)
    requires k <= |files| && forall f :: f in files ==> f.Size() == 0
    ensures Need(files, k) == 0
  {
    if k > 0 { EmptyNeed(files, k - 1); }
  }

  /** Thirty files make 32 entries of 16 bytes, which fill the root directory's block: mkfs then
      gives the directory a size of two blocks with one of them missing. */
  method ThirtyFiles() returns (fs: Fs, ghost owner: Owner)
    ensures Owned(fs, owner) && fs.sb == LAYOUT
    ensures Node(fs, ROOTINO).size == 1024 && !FileOk(fs, ROOTINO)
    ensures forall i: nat :: i < NINODES && i != ROOTINO ==> FileOk(fs, i)
  {
    hide Slot, SlotsOwned, BitsMatch, DInode, NoHoles, Entries;
    var files := seq(30, i => Source([97], Some([])));
    EmptyNeed(files, 30);
    LayoutOk();
    var ok;
    ok, fs, owner := MakeImage(LAYOUT, ZeroBlock(), files);
  }

  /** The log region that mkfs lays out has LOGSIZE blocks, header included: two operations that
      race in log_write list NLOG blocks, and write_log's slot for the last is the first inode block. */
  lemma LogMeetsInodes() returns (steps: seq<LogReservation.Step>, s: LogReservation.LogState)
    ensures LogReservation.Run(NLOG, LogReservation.IDLE, steps) == LogReservation.Next(s)
    ensures LOGSTART + |s.blocks| == LAYOUT.inodestart
  {
    steps, s := LogReservation.RacingWrites(NLOG);
  }
}
