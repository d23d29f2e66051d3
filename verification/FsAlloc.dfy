/** balloc, bfree and bmap of xv6/fs.c on values, and what they do to block ownership. */
module FsAlloc {
  import opened Commons
  import opened Blocks
  import opened FsLayout
  import opened FsState

  // ---------------------------------------------------------------- operations

  /** The first clear bit from b on: what balloc's two loops find. */
  function FirstFree(fs: Fs, b: nat): (r: Option<nat>)
    requires Wf(fs)
    ensures r.Some? ==> b <= r.value < fs.sb.size && !Used(fs, r.value)
    ensures forall c: nat :: b <= c < (if r.Some? then r.value else fs.sb.size) ==> Used(fs, c)
    decreases fs.sb.size - b
  {
    if b >= fs.sb.size then None else if !Used(fs, b) then Some(b) else FirstFree(fs, b + 1)
  }

  /** balloc once it has chosen b: bit set, block zeroed, both logged. */
  function Mark(fs: Fs, b: nat): Fs
    requires Wf(fs) && b < fs.sb.size
  {
    var bb := fs.sb.BBlock(b);
    fs.(blk := fs.blk[bb := PutBit(fs.blk[bb], b % BPB, 1)][b := ZeroBlock()], logged := fs.logged + {bb, b})
  }

  /** bfree; the caller has checked that the bit is set. */
  function Unmark(fs: Fs, b: nat): Fs
    requires Wf(fs) && b < fs.sb.size
  {
    var bb := fs.sb.BBlock(b);
    fs.(blk := fs.blk[bb := PutBit(fs.blk[bb], b % BPB, 0)], logged := fs.logged + {bb})
  }

  /** Block number b stored in slot s of inode i. */
  function SetSlot(fs: Fs, i: nat, s: nat, b: u32): Fs
    requires Wf(fs) && i in fs.mem && s < SLOTS && (s > IND ==> fs.mem[i].addrs[IND] < fs.sb.size)
  {
    if s <= IND then fs.(mem := fs.mem[i := fs.mem[i].(addrs := fs.mem[i].addrs[s := b])])
    else
      var ind := fs.mem[i].addrs[IND];
      fs.(blk := fs.blk[ind := PutWord(fs.blk[ind], s - IND - 1, b)], logged := fs.logged + {ind})
  }

  /** A slot that is absent gets a fresh block; None is the panic "out of blocks". */
  function Fill(fs: Fs, i: nat, s: nat): (r: Option<Fs>)
    requires Wf(fs) && i in fs.mem && s < SLOTS && (s > IND ==> Slot(fs, i, IND) < fs.sb.size)
    ensures r.Some? ==> Wf(r.value) && r.value.sb == fs.sb && r.value.mem.Keys == fs.mem.Keys
    ensures r.Some? ==> r.value.mem[i].size == fs.mem[i].size
  {
    if Slot(fs, i, s) != 0 then Some(fs)
    else
      var b := FirstFree(fs, 0);
      if b.None? then None else Some(SetSlot(Mark(fs, b.value), i, s, b.value))
  }

  /** Slot of the n-th block of a file. */
  function FileSlot(n: nat): nat {
    if n < NDIRECT then n else n + 1
  }

  /** bmap; None is a panic.  The address is then Slot(r, i, FileSlot(bn)). */
  function Bmap(fs: Fs, i: nat, bn: nat): (r: Option<Fs>)
    requires Wf(fs) && i in fs.mem
    ensures r.Some? ==> Wf(r.value) && r.value.sb == fs.sb && r.value.mem.Keys == fs.mem.Keys
    ensures r.Some? ==> r.value.mem[i].size == fs.mem[i].size
  {
    if bn < NDIRECT then Fill(fs, i, bn)
    else if bn < MAXFILE then
      match Fill(fs, i, IND)
      case None => None
      case Some(gs) => if 0 < Slot(gs, i, IND) < fs.sb.size then Fill(gs, i, bn + 1) else None
    else None
  }

  // ---------------------------------------------------------------- marking

  /** balloc changes one bit and one unowned block. */
  lemma MarkKeeps(fs: Fs, owner: Owner, b: nat)
    requires Owned(fs, owner) && b < fs.sb.size && !Used(fs, b)
    ensures var gs := Mark(fs, b);
      && fs.sb.datastart <= b && b !in owner
      && Wf(gs) && SlotsOwned(gs, owner) && SameSlots(fs, gs) && gs.blk[b] == ZeroBlock()
      && (forall i: nat :: i < fs.sb.ninodes ==> DInode(gs, i) == DInode(fs, i) && Node(gs, i) == Node(fs, i))
      && (forall c: nat :: c < fs.sb.size ==> (Used(gs, c) <==> c == b || Used(fs, c)))
      && (forall c: nat :: fs.sb.datastart <= c < fs.sb.size && c != b ==> gs.blk[c] == fs.blk[c])
  {
    hide PutBit, Slot, DInode, BitAt;
    var bb := fs.sb.BBlock(b);
    var ms := fs.(blk := fs.blk[bb := PutBit(fs.blk[bb], b % BPB, 1)]);
    var gs := Mark(fs, b);
    ChangeData(fs, owner, ms, bb);
    StillOwned(fs, owner, ms);
    ChangeData(ms, owner, gs, b);
    StillOwned(ms, owner, gs);
    forall c: nat | c < fs.sb.size ensures Used(gs, c) <==> c == b || Used(fs, c) {
      BitFrame(fs, b, c, 1);
    }
  }

  lemma StillOwned(fs: Fs, owner: Owner, gs: Fs)
    requires Wf(fs) && Wf(gs) && fs.sb == gs.sb && SlotsOwned(fs, owner) && SameSlots(fs, gs)
    ensures SlotsOwned(gs, owner)
  {
    hide Slot;
    forall b | b in owner ensures OwnedAt(gs, b, owner[b].0, owner[b].1) {
      assert OwnedAt(fs, b, owner[b].0, owner[b].1);
    }
  }

  lemma BitFrame(fs: Fs, b: nat, c: nat, v: nat)
    requires Wf(fs) && b < fs.sb.size && c < fs.sb.size && v < 2
    ensures BitAt(fs.blk[fs.sb.BBlock(b) := PutBit(fs.blk[fs.sb.BBlock(b)], b % BPB, v)][fs.sb.BBlock(c)], c % BPB) <==>
            if c == b then v == 1 else Used(fs, c)
  {
    hide PutBit, BitAt;
    PutBitAt(fs.blk[fs.sb.BBlock(b)], b % BPB, v, c % BPB);
  }

  // ---------------------------------------------------------------- filling a slot

  lemma SetSlotAt(fs: Fs, owner: Owner, i: nat, s: nat, b: nat, j: nat, t: nat)
    requires Wf(fs) && SlotsOwned(fs, owner) && i in fs.mem && s < SLOTS && Slot(fs, i, s) == 0
    requires fs.sb.datastart <= b < fs.sb.size && (s == IND ==> fs.blk[b] == ZeroBlock())
    requires s > IND ==> Slot(fs, i, IND) != 0
    requires j < fs.sb.ninodes && t < SLOTS
    ensures s > IND ==> fs.mem[i].addrs[IND] < fs.sb.size
    ensures Wf(SetSlot(fs, i, s, b))
    ensures Slot(SetSlot(fs, i, s, b), j, t) == if (j, t) == (i, s) then b else Slot(fs, j, t)
  {
    hide GetWord, PutWord, GetInode, ZeroBlock;
    assert Slot(fs, i, IND) == fs.mem[i].addrs[IND];
    if s > IND {
      var ind := fs.mem[i].addrs[IND];
      assert OwnedAt(fs, ind, i, IND);
      Regions(fs.sb, j, 0);
      assert Slot(fs, j, IND) == Node(fs, j).addrs[IND];
      if t > IND && j == i {
        GetPutWord(fs.blk[ind], s - IND - 1, b, t - IND - 1);
      }
    } else if s == IND && t > IND {
      ZeroWord(t - IND - 1);
    }
  }

  /** Storing a fresh block in an absent slot keeps ownership, with that slot as its owner. */
  lemma SetSlotKeeps(fs: Fs, owner: Owner, i: nat, s: nat, b: nat)
    requires Wf(fs) && SlotsOwned(fs, owner) && i in fs.mem && s < SLOTS && Slot(fs, i, s) == 0
    requires fs.sb.datastart <= b < fs.sb.size && b !in owner && (s == IND ==> fs.blk[b] == ZeroBlock())
    requires s > IND ==> Slot(fs, i, IND) != 0
    ensures s > IND ==> fs.mem[i].addrs[IND] < fs.sb.size
    ensures var gs := SetSlot(fs, i, s, b);
      && Wf(gs) && SlotsOwned(gs, owner[b := (i, s)])
      && forall j: nat, t: nat :: j < fs.sb.ninodes && t < SLOTS ==>
           Slot(gs, j, t) == if (j, t) == (i, s) then b else Slot(fs, j, t)
  {
    hide Slot, SetSlot;
    SetSlotAt(fs, owner, i, s, b, i, s);
    SetSlotShape(fs, i, s, b);
    var gs, owner' := SetSlot(fs, i, s, b), owner[b := (i, s)];
    forall j: nat, t: nat | j < fs.sb.ninodes && t < SLOTS
      ensures Slot(gs, j, t) == if (j, t) == (i, s) then b else Slot(fs, j, t)
    {
      SetSlotAt(fs, owner, i, s, b, j, t);
    }
    forall c | c in owner' ensures OwnedAt(gs, c, owner'[c].0, owner'[c].1) {
      if c != b { assert OwnedAt(fs, c, owner[c].0, owner[c].1); }
    }
  }

  lemma SetSlotShape(fs: Fs, i: nat, s: nat, b: u32)
    requires Wf(fs) && i in fs.mem && s < SLOTS && (s > IND ==> fs.mem[i].addrs[IND] < fs.sb.size)
    ensures var gs := SetSlot(fs, i, s, b);
      && gs.sb == fs.sb && gs.mem.Keys == fs.mem.Keys
      && (forall j :: j in fs.mem && j != i ==> gs.mem[j] == fs.mem[j])
      && gs.mem[i].(addrs := fs.mem[i].addrs) == fs.mem[i] && (s > IND ==> gs.mem == fs.mem)
      && |gs.blk| == |fs.blk| && forall c :: 0 <= c < |fs.blk| && c != fs.mem[i].addrs[IND] ==> gs.blk[c] == fs.blk[c]
  {
  }

  /** What filling slot s of inode i leaves as it was. */
  ghost predicate FillFrame(fs: Fs, gs: Fs, i: nat, s: nat)
    requires Wf(fs) && Wf(gs) && gs.sb == fs.sb && i in fs.mem && i in gs.mem && s < SLOTS
  {
    && Slot(gs, i, s) != 0
    && (forall j: nat, t: nat :: j < fs.sb.ninodes && t < SLOTS && (j, t) != (i, s) ==>
         Slot(gs, j, t) == Slot(fs, j, t))
    && (forall j: nat :: j < fs.sb.ninodes ==> DInode(gs, j) == DInode(fs, j))
    && (forall j: nat :: j < fs.sb.ninodes && j != i ==> Node(gs, j) == Node(fs, j))
    && SameKind(fs.mem[i], gs.mem[i]) && gs.mem[i].size == fs.mem[i].size
    && (forall j: nat, t: nat :: j < fs.sb.ninodes && t < SLOTS && t != IND && Slot(fs, j, t) != 0 ==>
          Slot(fs, j, t) < fs.sb.size && gs.blk[Slot(fs, j, t)] == fs.blk[Slot(fs, j, t)])
  }

  /** bmap's allocation of one slot: the block is new, everything else is as before. */
  lemma FillKeeps(fs: Fs, owner: Owner, i: nat, s: nat) returns (owner': Owner)
    requires Owned(fs, owner) && i in fs.mem && s < SLOTS && (s > IND ==> Slot(fs, i, IND) != 0)
    ensures s > IND ==> Slot(fs, i, IND) < fs.sb.size
    ensures Fill(fs, i, s).Some? ==>
      var gs := Fill(fs, i, s).value;
      Owned(gs, owner') && FillFrame(fs, gs, i, s)
  {
    hide SetSlot, Mark, DInode, BitAt;
    owner' := owner;
    if s > IND {
      assert OwnedAt(fs, Slot(fs, i, IND), i, IND);
    }
    forall j: nat, t: nat | j < fs.sb.ninodes && t < SLOTS && Slot(fs, j, t) != 0 ensures Slot(fs, j, t) < fs.sb.size {
      assert OwnedAt(fs, Slot(fs, j, t), j, t);
    }
    if Slot(fs, i, s) == 0 && FirstFree(fs, 0).Some? {
      var b := FirstFree(fs, 0).value;
      owner' := owner[b := (i, s)];
      FillFresh(fs, owner, i, s, b);
    }
  }

  lemma FillFresh(fs: Fs, owner: Owner, i: nat, s: nat, b: nat)
    requires Owned(fs, owner) && i in fs.mem && s < SLOTS && (s > IND ==> Slot(fs, i, IND) != 0)
    requires Slot(fs, i, s) == 0 && b < fs.sb.size && !Used(fs, b)
    ensures b !in owner && Wf(Mark(fs, b)) && (s > IND ==> fs.mem[i].addrs[IND] < fs.sb.size)
    ensures var gs := SetSlot(Mark(fs, b), i, s, b);
      && gs.sb == fs.sb && Wf(gs) && i in gs.mem && Owned(gs, owner[b := (i, s)]) && FillFrame(fs, gs, i, s)
      && Slot(gs, i, s) == b
  {
    hide Slot, SetSlot, Mark, DInode, BitAt, SlotsOwned, BitsMatch, Used;
    MarkKeeps(fs, owner, b);
    MarkShape(fs, b);
    var ms := Mark(fs, b);
    SetSlotKeeps(ms, owner, i, s, b);
    SetSlotShape(ms, i, s, b);
    var gs := SetSlot(ms, i, s, b);
    IndInData(ms, owner, i);
    if ms.mem[i].addrs[IND] == 0 {
      SetDirectBlk(ms, i, s, b);
    }
    FillBits(fs, owner, ms, gs, i, s, b);
    FillInodes(fs, ms, gs, i);
    FillData(fs, owner, ms, gs, i, b);
  }

  /** Storing a block that nobody owns in an absent slot, whatever the bitmap says. */
  lemma SetFresh(fs: Fs, owner: Owner, i: nat, s: nat, b: nat)
    requires Wf(fs) && SlotsOwned(fs, owner) && i in fs.mem && s < SLOTS && (s > IND ==> Slot(fs, i, IND) != 0)
    requires Slot(fs, i, s) == 0 && fs.sb.datastart <= b < fs.sb.size && b !in owner
      && (s == IND ==> fs.blk[b] == ZeroBlock())
    ensures s > IND ==> fs.mem[i].addrs[IND] < fs.sb.size
    ensures var gs := SetSlot(fs, i, s, b);
      && gs.sb == fs.sb && Wf(gs) && i in gs.mem && SlotsOwned(gs, owner[b := (i, s)]) && FillFrame(fs, gs, i, s)
      && (forall c: nat :: c < fs.sb.size && c !in owner ==> gs.blk[c] == fs.blk[c])
  {
    hide Slot, SetSlot, DInode, SlotsOwned, Used;
    SetSlotKeeps(fs, owner, i, s, b);
    SetSlotShape(fs, i, s, b);
    IndInData(fs, owner, i);
    if fs.mem[i].addrs[IND] == 0 {
      SetDirectBlk(fs, i, s, b);
    } else {
      OwnsIndirect(fs, owner, i);
    }
    FillInodes(fs, fs, SetSlot(fs, i, s, b), i);
    FillData(fs, owner, fs, SetSlot(fs, i, s, b), i, b);
  }

  lemma OwnsIndirect(fs: Fs, owner: Owner, i: nat)
    requires Wf(fs) && SlotsOwned(fs, owner) && i in fs.mem && fs.mem[i].addrs[IND] != 0
    ensures fs.mem[i].addrs[IND] in owner
  {
    IndIsSlot(fs, i);
    assert Slot(fs, i, IND) in owner;
  }

  /** File blocks are neither the fresh block nor an indirect block, so they keep their contents. */
  lemma FillData(fs: Fs, owner: Owner, ms: Fs, gs: Fs, i: nat, b: nat)
    requires Wf(fs) && SlotsOwned(fs, owner) && Wf(gs) && fs.sb == ms.sb == gs.sb && |ms.blk| == |fs.blk| && i in fs.mem
      && ms.mem == fs.mem
    requires b !in owner
    requires forall c: nat :: fs.sb.datastart <= c < fs.sb.size && c != b ==> ms.blk[c] == fs.blk[c]
    requires forall c: nat :: c < fs.sb.size && (fs.mem[i].addrs[IND] == 0 || c != fs.mem[i].addrs[IND]) ==>
      gs.blk[c] == ms.blk[c]
    ensures forall j: nat, t: nat :: j < fs.sb.ninodes && t < SLOTS && t != IND && Slot(fs, j, t) != 0 ==>
      Slot(fs, j, t) < fs.sb.size && gs.blk[Slot(fs, j, t)] == fs.blk[Slot(fs, j, t)]
  {
    hide Slot, BitAt;
    IndIsSlot(fs, i);
    forall j: nat, t: nat | j < fs.sb.ninodes && t < SLOTS && t != IND && Slot(fs, j, t) != 0
      ensures Slot(fs, j, t) < fs.sb.size && gs.blk[Slot(fs, j, t)] == fs.blk[Slot(fs, j, t)]
    {
      var c := Slot(fs, j, t);
      assert OwnedAt(fs, c, j, t);
      assert Slot(fs, i, IND) != 0 ==> owner[Slot(fs, i, IND)] == (i, IND);
    }
  }

  lemma IndInData(fs: Fs, owner: Owner, i: nat)
    requires Wf(fs) && SlotsOwned(fs, owner) && i in fs.mem
    ensures Slot(fs, i, IND) == fs.mem[i].addrs[IND]
    ensures fs.mem[i].addrs[IND] == 0 || fs.sb.datastart <= fs.mem[i].addrs[IND] < fs.sb.size
  {
    hide Entry;
    assert Slot(fs, i, IND) == fs.mem[i].addrs[IND];
    if Slot(fs, i, IND) != 0 {
      assert OwnedAt(fs, Slot(fs, i, IND), i, IND);
    }
  }

  lemma IndIsSlot(fs: Fs, i: nat)
    requires Wf(fs) && i in fs.mem
    ensures Slot(fs, i, IND) == fs.mem[i].addrs[IND]
  {
  }

  lemma SetDirectBlk(fs: Fs, i: nat, s: nat, b: u32)
    requires Wf(fs) && i in fs.mem && s <= IND
    ensures SetSlot(fs, i, s, b).blk == fs.blk
  {
  }

  lemma MarkShape(fs: Fs, b: nat)
    requires Wf(fs) && b < fs.sb.size
    ensures Mark(fs, b).sb == fs.sb && Mark(fs, b).mem == fs.mem && |Mark(fs, b).blk| == |fs.blk|
  {
  }

  lemma FillBits(fs: Fs, owner: Owner, ms: Fs, gs: Fs, i: nat, s: nat, b: nat)
    requires Wf(fs) && BitsMatch(fs, owner) && Wf(ms) && Wf(gs) && fs.sb == ms.sb == gs.sb && b < fs.sb.size
    requires forall c: nat :: c < fs.sb.size ==> (Used(ms, c) <==> c == b || Used(fs, c))
    requires forall c: nat :: c < fs.sb.datastart ==> gs.blk[c] == ms.blk[c]
    ensures BitsMatch(gs, owner[b := (i, s)])
  {
    hide BitAt;
    forall c: nat | c < fs.sb.size ensures Used(gs, c) <==> Used(ms, c) {
      assert fs.sb.BBlock(c) < fs.sb.datastart;
    }
  }

  lemma FillInodes(fs: Fs, ms: Fs, gs: Fs, i: nat)
    requires Wf(fs) && Wf(ms) && Wf(gs) && fs.sb == ms.sb == gs.sb
    requires forall j: nat :: j < fs.sb.ninodes ==> DInode(ms, j) == DInode(fs, j) && Node(ms, j) == Node(fs, j)
    requires forall c: nat :: c < fs.sb.datastart ==> gs.blk[c] == ms.blk[c]
    requires gs.mem.Keys == ms.mem.Keys && forall j :: j in ms.mem && j != i ==> gs.mem[j] == ms.mem[j]
    ensures forall j: nat :: j < fs.sb.ninodes ==> DInode(gs, j) == DInode(fs, j)
    ensures forall j: nat :: j < fs.sb.ninodes && j != i ==> Node(gs, j) == Node(fs, j)
  {
    hide GetInode;
    forall j: nat | j < fs.sb.ninodes ensures DInode(gs, j) == DInode(ms, j) {
      Regions(fs.sb, j, 0);
    }
  }
}
