/** Group commit (xv6/log.c): the writes of several operations that share one transaction are
    all on the disk after a crash, or none is. */
module GroupCommit {
  import opened Commons
  import opened Blocks
  import opened LogRecovery
  import opened FsLayout
  import opened FsState
  import opened FsAlloc
  import opened FsFile
  import opened FsWrite
  import opened CrashSafety

  /** One call of writei. */
  datatype Write = Write(i: nat, off: nat, src: seq<byte>)

  /** The calls one after another on the same logged state; a refused call changes nothing; None is a panic. */
  function Group(fs: Fs, ws: seq<Write>): (r: Option<Fs>)
    requires Wf(fs) && forall w :: w in ws ==> w.i in fs.mem
    ensures r.Some? ==> Wf(r.value) && r.value.sb == fs.sb && r.value.mem.Keys == fs.mem.Keys
    decreases |ws|
  {
    if ws == [] then Some(fs) else
    var w := ws[|ws| - 1];
    match Group(fs, ws[..|ws| - 1])
    case None => None
    case Some(ms) => if WriteRefused(ms, w.i, w.off, |w.src|) then Some(ms) else Writei(ms, w.i, w.off, w.src)
  }

  /** The bytes of file j, s at first, after the calls. */
  function FileAfter(s: seq<byte>, ws: seq<Write>, j: nat): (r: seq<byte>)
    decreases |ws|
  {
    if ws == [] then s else
    var t, w := FileAfter(s, ws[..|ws| - 1], j), ws[|ws| - 1];
    if w.i != j || w.off > |t| || w.off + |w.src| >= U32 || w.off + |w.src| > MAXBYTES then t
    else Splice(t, w.off, w.src)
  }

  /** The record of file j keeps its kind and links; if the file is whole before, it is after, with these bytes. */
  ghost predicate Becomes(fs: Fs, gs: Fs, j: nat, ws: seq<Write>)
    requires Wf(fs) && Wf(gs) && fs.sb == gs.sb && j < fs.sb.ninodes
  {
    && SameKind(Node(fs, j), Node(gs, j))
    && (FileOk(fs, j) ==> FileOk(gs, j) && Contents(gs, j) == FileAfter(Contents(fs, j), ws, j))
  }

  ghost predicate AllBecome(fs: Fs, gs: Fs, ws: seq<Write>)
    requires Wf(fs) && Wf(gs) && fs.sb == gs.sb
  {
    forall j: nat :: j < fs.sb.ninodes ==> Becomes(fs, gs, j, ws)
  }

  ghost predicate Grouped(fs: Fs, gs: Fs, owner: Owner, ws: seq<Write>)
    requires Wf(fs)
  {
    && Owned(gs, owner) && gs.sb == fs.sb && gs.mem.Keys == fs.mem.Keys && InSync(gs) && OnlyLogged(fs, gs)
    && AllBecome(fs, gs, ws)
  }

  // ---------------------------------------------------------------- one more write

  lemma OthersKeep(fs: Fs, gs: Fs, i: nat, j: nat)
    requires Wf(fs) && Wf(gs) && gs.sb == fs.sb && OthersSame(fs, gs, i) && j < fs.sb.ninodes && j != i && FileOk(fs, j)
    ensures FileOk(gs, j) && Contents(gs, j) == Contents(fs, j)
  {
    hide Slot, DInode, FileByte;
    var k := Ceil(Node(fs, j).size);
    forall n: nat | n < MAXFILE ensures Slot(gs, j, FileSlot(n)) != 0 <==> n < k {
      assert Slot(gs, j, FileSlot(n)) == Slot(fs, j, FileSlot(n));
    }
    assert FileBytes(gs, j, Node(fs, j).size) == FileBytes(fs, j, Node(fs, j).size);
  }

  lemma OtherNode(fs: Fs, gs: Fs, i: nat, j: nat)
    requires Wf(fs) && Wf(gs) && gs.sb == fs.sb && OthersSame(fs, gs, i) && j < fs.sb.ninodes && j != i
    ensures Node(gs, j) == Node(fs, j)
  {
    hide Slot, DInode, FileByte;
  }

  lemma OneMore(fs: Fs, ms: Fs, gs: Fs, ws: seq<Write>, w: Write, j: nat)
    requires Wf(fs) && Wf(ms) && Wf(gs) && fs.sb == ms.sb == gs.sb && j < fs.sb.ninodes && Becomes(fs, ms, j, ws)
    requires w.i in ms.mem && FileOk(ms, w.i)
    requires WriteRefused(ms, w.i, w.off, |w.src|) ==> gs == ms
    requires !WriteRefused(ms, w.i, w.off, |w.src|) ==>
      FileOk(gs, w.i) && OthersSame(ms, gs, w.i) && SameKind(Node(ms, w.i), Node(gs, w.i))
    requires !WriteRefused(ms, w.i, w.off, |w.src|) ==> Contents(gs, w.i) == Splice(Contents(ms, w.i), w.off, w.src)
    ensures Becomes(fs, gs, j, ws + [w])
  {
    hide Slot, DInode, FileByte, NoHoles, Splice, OthersSame, FileBytes;
    assert (ws + [w])[..|ws|] == ws;
    if !WriteRefused(ms, w.i, w.off, |w.src|) && w.i != j {
      OtherNode(ms, gs, w.i, j);
      if FileOk(fs, j) { OthersKeep(ms, gs, w.i, j); }
    }
  }

  // ---------------------------------------------------------------- the group

  /** Any number of writes in one transaction: ownership is kept, each file is spliced by its own
      writes in order, and only logged blocks changed. */
  lemma {:induction false} GroupRefines(fs: Fs, owner: Owner, ws: seq<Write>) returns (owner': Owner)
    requires Owned(fs, owner) && InSync(fs) && forall w :: w in ws ==> w.i in fs.mem && FileOk(fs, w.i)
    ensures Group(fs, ws).Some? ==> Grouped(fs, Group(fs, ws).value, owner', ws)
    decreases |ws|
  {
    hide Slot, DInode, SlotsOwned, BitsMatch, NoHoles, FileByte, FileBytes, Splice, Writei, OthersSame, OnlyLogged;
    owner' := owner;
    if ws == [] {
      NothingLogged(fs);
    } else {
      var rest, w := ws[..|ws| - 1], ws[|ws| - 1];
      assert ws == rest + [w];
      var owner1 := GroupRefines(fs, owner, rest);
      if Group(fs, rest).Some? {
        var ms := Group(fs, rest).value;
        assert w in ws && Becomes(fs, ms, w.i, rest);
        owner' := GroupStep(fs, ms, owner1, rest, w);
      }
    }
  }

  lemma NothingLogged(fs: Fs)
    ensures OnlyLogged(fs, fs)
  {
  }

  lemma GroupStep(fs: Fs, ms: Fs, owner: Owner, ws: seq<Write>, w: Write) returns (owner': Owner)
    requires Wf(fs) && Grouped(fs, ms, owner, ws) && w.i in ms.mem && FileOk(ms, w.i)
    ensures WriteRefused(ms, w.i, w.off, |w.src|) ==> Grouped(fs, ms, owner', ws + [w])
    ensures !WriteRefused(ms, w.i, w.off, |w.src|) && Writei(ms, w.i, w.off, w.src).Some? ==>
      Grouped(fs, Writei(ms, w.i, w.off, w.src).value, owner', ws + [w])
  {
    hide Slot, DInode, SlotsOwned, BitsMatch, NoHoles, FileByte, FileBytes, Splice, Writei, OthersSame, OnlyLogged,
      FileOk;
    hide Becomes;
    owner' := owner;
    if WriteRefused(ms, w.i, w.off, |w.src|) {
      forall j: nat | j < fs.sb.ninodes ensures Becomes(fs, ms, j, ws + [w]) { OneMore(fs, ms, ms, ws, w, j); }
    } else if Writei(ms, w.i, w.off, w.src).Some? {
      var gs := Writei(ms, w.i, w.off, w.src).value;
      owner' := WriteiRefines(ms, owner, w.i, w.off, w.src);
      WriteiLogged(ms, owner, w.i, w.off, w.src);
      OnlyLoggedTwice(fs, ms, gs);
      StillInSync(ms, gs, w.i);
      forall j: nat | j < fs.sb.ninodes ensures Becomes(fs, gs, j, ws + [w]) { OneMore(fs, ms, gs, ws, w, j); }
    }
  }

  /** Writes of at most WRITEMAX bytes log at most MAXOPBLOCKS blocks each. */
  lemma {:induction false} GroupLogs(fs: Fs, owner: Owner, ws: seq<Write>)
    requires Owned(fs, owner) && InSync(fs) && fs.logged == {}
    requires forall w :: w in ws ==> w.i in fs.mem && FileOk(fs, w.i) && |w.src| <= WRITEMAX
    ensures Group(fs, ws).Some? ==> |Group(fs, ws).value.logged| <= |ws| * MAXOPBLOCKS
    decreases |ws|
  {
    hide Slot, DInode, SlotsOwned, BitsMatch, NoHoles, FileByte, FileBytes, Splice, Writei, OnlyLogged;
    if ws != [] {
      var rest, w := ws[..|ws| - 1], ws[|ws| - 1];
      GroupLogs(fs, owner, rest);
      var owner1 := GroupRefines(fs, owner, rest);
      if Group(fs, rest).Some? {
        var ms := Group(fs, rest).value;
        assert Becomes(fs, ms, w.i, rest);
        if !WriteRefused(ms, w.i, w.off, |w.src|) && Writei(ms, w.i, w.off, w.src).Some? {
          var gs := Writei(ms, w.i, w.off, w.src).value;
          WriteiLogs(ms, owner1, w.i, w.off, w.src);
          UnionSize(ms.logged, gs.logged - ms.logged);
          SubsetSize(gs.logged, ms.logged + (gs.logged - ms.logged));
        }
      }
    }
  }

  // ---------------------------------------------------------------- crash safety

  /** A crash between any two disk writes of the commit, and any crashes while recovering: after
      recovery and mounting every file is as before the first write if the header block had not
      been written yet, else as after the last; block ownership holds. */
  lemma CrashSafeGroup(l: Layout, fs: Fs, owner: Owner, ws: seq<Write>, blocks: seq<nat>, step: nat, ks: seq<nat>)
    returns (owner': Owner)
    requires Owned(fs, owner) && InSync(fs) && fs.logged == {} && 0 < fs.sb.ninodes
    requires (forall w :: w in ws ==> w.i in fs.mem && FileOk(fs, w.i)) && Group(fs, ws).Some?
    requires l.start + l.size <= fs.sb.inodestart && 0 < l.size && LogEmpty(l, fs.blk)
    requires Lists(blocks, Group(fs, ws).value.logged) && |blocks| <= LOGSIZE && |blocks| < l.size
    requires step <= CommitWrites(blocks)
    ensures var gs := Group(fs, ws).value;
      && |gs.blk| == |fs.blk| && l.Loggable(fs.blk, blocks)
         && Recoverable(l, CommitImage(l, fs.blk, blocks, gs.blk, step))
      && var crashed := CrashedRecoveries(l, CommitImage(l, fs.blk, blocks, gs.blk, step), ks);
         && Recoverable(l, crashed)
         && var m := Mount(fs.sb, Recover(l, crashed));
            && Owned(m, owner') && AllBecome(fs, m, if step <= |blocks| then [] else ws)
  {
    hide Slot, DInode, SlotsOwned, BitsMatch, NoHoles, FileByte, FileBytes, Splice, CommitImage, CrashedRecoveries;
    hide Recover, Recoverable, LogEmpty, Group, FileOk;
    var gs := Group(fs, ws).value;
    var owner1 := GroupRefines(fs, owner, ws);
    CrashSafeChange(l, fs, owner, gs, owner1, blocks, step, ks);
    owner' := if step <= |blocks| then owner else owner1;
    var m := Mount(fs.sb, Recover(l, CrashedRecoveries(l, CommitImage(l, fs.blk, blocks, gs.blk, step), ks)));
    if step > |blocks| {
      forall j: nat | j < fs.sb.ninodes ensures Becomes(fs, m, j, ws) { assert Becomes(fs, gs, j, ws); }
    }
  }
}
