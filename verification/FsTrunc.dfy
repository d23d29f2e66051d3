/** itrunc and bfree of xv6/fs.c: truncation never frees a free block and gives back exactly the file's blocks. */
module FsTrunc {
  import opened Commons
  import opened Blocks
  import opened FsLayout
  import opened FsState
  import opened FsAlloc
  import opened FsFile
  import opened FsWrite

  // ---------------------------------------------------------------- operations

  /** bfree; None is the panic "freeing free block" or a block off the disk. */
  function Bfree(fs: Fs, b: nat): (r: Option<Fs>)
    requires Wf(fs)
    ensures r.Some? ==> Wf(r.value) && r.value.sb == fs.sb && r.value.mem == fs.mem
  {
    if b >= fs.sb.size || !Used(fs, b) then None else Some(Unmark(fs, b))
  }

  function ClearSlot(fs: Fs, i: nat, s: nat): Fs
    requires Wf(fs) && i in fs.mem && s <= IND
  {
    fs.(mem := fs.mem[i := fs.mem[i].(addrs := fs.mem[i].addrs[s := 0])])
  }

  /** itrunc after k rounds of its first loop. */
  function FreeDirect(fs: Fs, i: nat, k: nat): (r: Option<Fs>)
    requires Wf(fs) && i in fs.mem && k <= NDIRECT
    ensures r.Some? ==> Wf(r.value) && r.value.sb == fs.sb && r.value.mem.Keys == fs.mem.Keys
  {
    if k == 0 then Some(fs) else
    match FreeDirect(fs, i, k - 1)
    case None => None
    case Some(gs) => FreeOne(gs, i, k - 1)
  }

  function FreeOne(fs: Fs, i: nat, s: nat): (r: Option<Fs>)
    requires Wf(fs) && i in fs.mem && s <= IND
    ensures r.Some? ==> Wf(r.value) && r.value.sb == fs.sb && r.value.mem.Keys == fs.mem.Keys
  {
    var b := fs.mem[i].addrs[s];
    if b == 0 then Some(fs) else
    match Bfree(fs, b)
    case None => None
    case Some(gs) => Some(ClearSlot(gs, i, s))
  }

  /** itrunc after k rounds of the loop over the entries a[] of its indirect block. */
  function FreeEntries(fs: Fs, a: Block, k: nat): (r: Option<Fs>)
    requires Wf(fs) && k <= NINDIRECT
    ensures r.Some? ==> Wf(r.value) && r.value.sb == fs.sb && r.value.mem == fs.mem
  {
    if k == 0 then Some(fs) else
    match FreeEntries(fs, a, k - 1)
    case None => None
    case Some(gs) => if GetWord(a, k - 1) == 0 then Some(gs) else Bfree(gs, GetWord(a, k - 1))
  }

  function FreeIndirect(fs: Fs, i: nat): (r: Option<Fs>)
    requires Wf(fs) && i in fs.mem
    ensures r.Some? ==> Wf(r.value) && r.value.sb == fs.sb && r.value.mem.Keys == fs.mem.Keys
  {
    var ind := fs.mem[i].addrs[IND];
    if ind == 0 then Some(fs)
    else if ind >= fs.sb.size then None
    else
      match FreeEntries(fs, fs.blk[ind], NINDIRECT)
      case None => None
      case Some(gs) => FreeOne(gs, i, IND)
  }

  function Itrunc(fs: Fs, i: nat): Option<Fs>
    requires Wf(fs) && i in fs.mem
  {
    match FreeDirect(fs, i, NDIRECT)
    case None => None
    case Some(gs) =>
      match FreeIndirect(gs, i)
      case None => None
      case Some(hs) => Some(Iupdate(hs.(mem := hs.mem[i := hs.mem[i].(size := 0)]), i))
  }

  // ---------------------------------------------------------------- lemmas

  /** Ownership without slots lo..hi-1 of inode i. */
  ghost function Minus(owner: Owner, i: nat, lo: nat, hi: nat): Owner {
    map b | b in owner && !(owner[b].0 == i && lo <= owner[b].1 < hi) :: owner[b]
  }

  lemma SlotInOwner(fs: Fs, owner: Owner, i: nat, s: nat)
    requires Wf(fs) && SlotsOwned(fs, owner) && i < fs.sb.ninodes && s < SLOTS && Slot(fs, i, s) != 0
    ensures Slot(fs, i, s) in owner && owner[Slot(fs, i, s)] == (i, s)
  {
    hide Slot;
  }

  lemma BfreeKeeps(fs: Fs, owner: Owner, bits: Owner, b: nat)
    requires Wf(fs) && SlotsOwned(fs, owner) && BitsMatch(fs, bits) && b in bits && b in owner
    ensures Bfree(fs, b).Some?
    ensures var gs := Bfree(fs, b).value;
      && SlotsOwned(gs, owner) && SameSlots(fs, gs) && gs.mem == fs.mem
      && (forall c: nat :: c < fs.sb.size ==> (Used(gs, c) <==> c != b && Used(fs, c)))
      && (forall c: nat :: fs.sb.datastart <= c < fs.sb.size ==> gs.blk[c] == fs.blk[c])
      && (forall j: nat :: j < fs.sb.ninodes ==> DInode(gs, j) == DInode(fs, j))
  {
    hide PutBit, Slot, DInode, BitAt;
    OwnedInData(fs, owner);
    Regions(fs.sb, owner[b].0, b) by { assert OwnedAt(fs, b, owner[b].0, owner[b].1); }
    var gs := Unmark(fs, b);
    ChangeData(fs, owner, gs, fs.sb.BBlock(b));
    StillOwned(fs, owner, gs);
    forall c: nat | c < fs.sb.size ensures Used(gs, c) <==> c != b && Used(fs, c) {
      BitFrame(fs, b, c, 0);
    }
  }

  lemma ClearSlotAt(fs: Fs, i: nat, s: nat, j: nat, t: nat)
    requires Wf(fs) && i in fs.mem && s <= IND && j < fs.sb.ninodes && t < SLOTS
    ensures Slot(ClearSlot(fs, i, s), j, t) ==
            if j == i && (t == s || (s == IND && t > IND)) then 0 else Slot(fs, j, t)
  {
    hide GetWord, GetInode;
  }

  /** What truncating inode i may not touch. */
  ghost predicate TruncFrame(fs: Fs, gs: Fs, i: nat)
    requires Wf(fs) && Wf(gs) && gs.sb == fs.sb
  {
    && gs.mem.Keys == fs.mem.Keys && (i in fs.mem ==> SameKind(fs.mem[i], gs.mem[i]))
    && (forall j :: j in fs.mem && j != i ==> gs.mem[j] == fs.mem[j])
    && (forall j: nat :: j < fs.sb.ninodes ==> DInode(gs, j) == DInode(fs, j))
    && (forall j: nat, t: nat :: j < fs.sb.ninodes && t < SLOTS && j != i ==> Slot(gs, j, t) == Slot(fs, j, t))
    && forall c: nat :: fs.sb.datastart <= c < fs.sb.size ==> gs.blk[c] == fs.blk[c]
  }

  /** Freeing the block in slot s, then forgetting it, keeps ownership of everything else. */
  lemma FreeOneKeeps(fs: Fs, owner: Owner, i: nat, s: nat)
    requires Owned(fs, owner) && i in fs.mem && s < IND
    ensures FreeOne(fs, i, s).Some?
    ensures var gs := FreeOne(fs, i, s).value;
      && Owned(gs, Minus(owner, i, s, s + 1)) && TruncFrame(fs, gs, i)
      && (forall t: nat :: t < SLOTS ==> Slot(gs, i, t) == if t == s then 0 else Slot(fs, i, t))
  {
    hide Slot, DInode, Used, Bfree, SlotsOwned, BitsMatch, Minus, ClearSlot;
    var b := fs.mem[i].addrs[s];
    DirectIsSlot(fs, i, s);
    if b != 0 {
      SlotInOwner(fs, owner, i, s);
      BfreeKeeps(fs, owner, owner, b);
      var ms := Bfree(fs, b).value;
      var gs := ClearSlot(ms, i, s);
      ClearFrame(ms, i, s);
      forall j: nat, t: nat | j < fs.sb.ninodes && t < SLOTS
        ensures Slot(gs, j, t) == if (j, t) == (i, s) then 0 else Slot(fs, j, t)
      {
        ClearSlotAt(ms, i, s, j, t);
      }
      MinusSlots(fs, owner, gs, i, s, s + 1);
      MinusBits(fs, owner, gs, i, s, b);
    } else {
      MinusAbsent(fs, owner, i, s);
    }
  }

  lemma DirectIsSlot(fs: Fs, i: nat, s: nat)
    requires Wf(fs) && i in fs.mem && s <= IND
    ensures Slot(fs, i, s) == fs.mem[i].addrs[s]
  {
  }

  lemma ClearFrame(fs: Fs, i: nat, s: nat)
    requires Wf(fs) && i in fs.mem && s <= IND
    ensures var gs := ClearSlot(fs, i, s);
      && Wf(gs) && gs.sb == fs.sb && gs.blk == fs.blk && gs.mem.Keys == fs.mem.Keys && SameKind(fs.mem[i], gs.mem[i])
      && (forall j :: j in fs.mem && j != i ==> gs.mem[j] == fs.mem[j])
      && (forall j: nat :: j < fs.sb.ninodes ==> DInode(gs, j) == DInode(fs, j))
      && (forall b: nat :: b < fs.sb.size ==> Used(gs, b) == Used(fs, b))
  {
    hide GetInode, BitAt;
  }

  lemma MinusSlots(fs: Fs, owner: Owner, gs: Fs, i: nat, lo: nat, hi: nat)
    requires Wf(fs) && Wf(gs) && gs.sb == fs.sb && SlotsOwned(fs, owner)
    requires forall j: nat, t: nat :: j < fs.sb.ninodes && t < SLOTS ==>
      Slot(gs, j, t) == if j == i && lo <= t < hi then 0 else Slot(fs, j, t)
    ensures SlotsOwned(gs, Minus(owner, i, lo, hi))
  {
    hide Slot;
    var owner' := Minus(owner, i, lo, hi);
    forall b | b in owner' ensures OwnedAt(gs, b, owner'[b].0, owner'[b].1) {
      assert OwnedAt(fs, b, owner[b].0, owner[b].1);
    }
  }

  lemma MinusBits(fs: Fs, owner: Owner, gs: Fs, i: nat, s: nat, b: nat)
    requires Wf(fs) && Wf(gs) && gs.sb == fs.sb && SlotsOwned(fs, owner) && BitsMatch(fs, owner)
    requires b in owner && owner[b] == (i, s)
    requires forall c: nat :: c < fs.sb.size ==> (Used(gs, c) <==> c != b && Used(fs, c))
    ensures BitsMatch(gs, Minus(owner, i, s, s + 1))
  {
    hide Slot, BitAt;
    OwnedInData(fs, owner);
    forall c | c in owner && c != b ensures owner[c] != (i, s) {
      assert OwnedAt(fs, c, owner[c].0, owner[c].1);
      assert OwnedAt(fs, b, i, s);
    }
  }

  lemma MinusAbsent(fs: Fs, owner: Owner, i: nat, s: nat)
    requires Wf(fs) && SlotsOwned(fs, owner) && i < fs.sb.ninodes && s < SLOTS && Slot(fs, i, s) == 0
    ensures Minus(owner, i, s, s + 1) == owner
  {
    hide Slot;
    forall b | b in owner ensures owner[b] != (i, s) {
      assert OwnedAt(fs, b, owner[b].0, owner[b].1);
    }
  }

  lemma {:induction false} FreeDirectKeeps(fs: Fs, owner: Owner, i: nat, k: nat)
    requires Owned(fs, owner) && i in fs.mem && k <= NDIRECT
    ensures FreeDirect(fs, i, k).Some?
    ensures var gs := FreeDirect(fs, i, k).value;
      && Owned(gs, Minus(owner, i, 0, k)) && TruncFrame(fs, gs, i)
      && (forall t: nat :: t < SLOTS ==> Slot(gs, i, t) == if t < k then 0 else Slot(fs, i, t))
  {
    hide Slot, DInode, SlotsOwned, BitsMatch, FreeOne, Minus;
    if k == 0 {
      MinusNone(owner, i, 0);
    } else {
      FreeDirectKeeps(fs, owner, i, k - 1);
      var ms := FreeDirect(fs, i, k - 1).value;
      FreeOneKeeps(ms, Minus(owner, i, 0, k - 1), i, k - 1);
      MinusNext(owner, i, k - 1);
    }
  }

  lemma MinusNext(owner: Owner, i: nat, k: nat)
    ensures Minus(Minus(owner, i, 0, k), i, k, k + 1) == Minus(owner, i, 0, k + 1)
  {
  }

  /** The entries loop clears the bit of each entry's block, once each. */
  lemma {:induction false} FreeEntriesKeeps(fs: Fs, owner: Owner, i: nat, k: nat)
    requires Owned(fs, owner) && i in fs.mem && 0 < fs.mem[i].addrs[IND] < fs.sb.size && k <= NINDIRECT
    ensures FreeEntries(fs, fs.blk[fs.mem[i].addrs[IND]], k).Some?
    ensures var gs := FreeEntries(fs, fs.blk[fs.mem[i].addrs[IND]], k).value;
      && SlotsOwned(gs, owner) && SameSlots(fs, gs) && gs.mem == fs.mem && TruncFrame(fs, gs, i)
      && BitsMatch(gs, Minus(owner, i, IND + 1, IND + 1 + k))
  {
    hide Slot, DInode, Used, GetWord, Bfree, SlotsOwned, BitsMatch, Minus;
    if k == 0 {
      MinusNone(owner, i, IND + 1);
    } else {
      var a := fs.blk[fs.mem[i].addrs[IND]];
      FreeEntriesKeeps(fs, owner, i, k - 1);
      var ms := FreeEntries(fs, a, k - 1).value;
      EntryIsSlot(fs, i, IND + k);
      if GetWord(a, k - 1) == 0 {
        MinusSkip(fs, owner, i, IND + 1, IND + k);
      } else {
        EntryFreed(fs, owner, ms, i, IND + k);
      }
    }
  }

  lemma MinusNone(owner: Owner, i: nat, lo: nat)
    ensures Minus(owner, i, lo, lo) == owner
  {
  }

  lemma MinusSkip(fs: Fs, owner: Owner, i: nat, lo: nat, s: nat)
    requires Wf(fs) && SlotsOwned(fs, owner) && i < fs.sb.ninodes && s < SLOTS && Slot(fs, i, s) == 0
    ensures Minus(owner, i, lo, s + 1) == Minus(owner, i, lo, s)
  {
    hide Slot;
    forall b | b in owner ensures owner[b] != (i, s) {
      assert OwnedAt(fs, b, owner[b].0, owner[b].1);
    }
  }

  /** One round of the entries loop on an entry that is present. */
  lemma EntryFreed(fs: Fs, owner: Owner, ms: Fs, i: nat, s: nat)
    requires Wf(fs) && SlotsOwned(fs, owner) && i in fs.mem && IND < s < SLOTS && Slot(fs, i, s) != 0
    requires Wf(ms) && ms.sb == fs.sb && ms.mem == fs.mem && SlotsOwned(ms, owner) && SameSlots(fs, ms)
      && TruncFrame(fs, ms, i)
    requires BitsMatch(ms, Minus(owner, i, IND + 1, s))
    ensures Bfree(ms, Slot(fs, i, s)).Some?
    ensures var gs := Bfree(ms, Slot(fs, i, s)).value;
      && SlotsOwned(gs, owner) && SameSlots(fs, gs) && gs.mem == fs.mem && TruncFrame(fs, gs, i)
      && BitsMatch(gs, Minus(owner, i, IND + 1, s + 1))
  {
    hide Slot, DInode, Used, Bfree, SlotsOwned, BitsMatch;
    var b := Slot(fs, i, s);
    SlotInOwner(fs, owner, i, s);
    BfreeKeeps(ms, owner, Minus(owner, i, IND + 1, s), b);
    EntryBits(fs, owner, ms, Bfree(ms, b).value, i, s, b);
  }

  lemma EntryIsSlot(fs: Fs, i: nat, s: nat)
    requires Wf(fs) && i in fs.mem && IND < s < SLOTS && 0 < fs.mem[i].addrs[IND] < fs.sb.size
    ensures Slot(fs, i, s) == GetWord(fs.blk[fs.mem[i].addrs[IND]], s - IND - 1)
  {
  }

  lemma EntryBits(fs: Fs, owner: Owner, ms: Fs, gs: Fs, i: nat, s: nat, b: nat)
    requires Wf(fs) && Wf(ms) && Wf(gs) && fs.sb == ms.sb == gs.sb && SlotsOwned(fs, owner)
    requires IND < s < SLOTS && b in owner && owner[b] == (i, s) && BitsMatch(ms, Minus(owner, i, IND + 1, s))
    requires forall c: nat :: c < fs.sb.size ==> (Used(gs, c) <==> c != b && Used(ms, c))
    ensures BitsMatch(gs, Minus(owner, i, IND + 1, s + 1))
  {
    hide Slot, BitAt;
    OwnedInData(fs, owner);
    forall c | c in owner && c != b ensures owner[c] != (i, s) {
      assert OwnedAt(fs, c, owner[c].0, owner[c].1);
      assert OwnedAt(fs, b, i, s);
    }
  }

  lemma FreeIndirectKeeps(fs: Fs, owner: Owner, i: nat)
    requires Owned(fs, owner) && i in fs.mem
    ensures FreeIndirect(fs, i).Some?
    ensures var gs := FreeIndirect(fs, i).value;
      && Owned(gs, Minus(owner, i, IND, SLOTS)) && TruncFrame(fs, gs, i)
      && (forall t: nat :: t < SLOTS ==> Slot(gs, i, t) == if t >= IND then 0 else Slot(fs, i, t))
  {
    hide Slot, DInode, Used, Bfree, FreeEntries, SlotsOwned, BitsMatch, Minus, ClearSlot;
    var ind := fs.mem[i].addrs[IND];
    IndInData(fs, owner, i);
    if ind == 0 {
      NoIndirect(fs, i);
      MinusNoIndirect(fs, owner, i);
    } else {
      FreeEntriesKeeps(fs, owner, i, NINDIRECT);
      var es := FreeEntries(fs, fs.blk[ind], NINDIRECT).value;
      SlotInOwner(fs, owner, i, IND);
      MinusHas(owner, i, IND + 1, SLOTS, ind);
      BfreeKeeps(es, owner, Minus(owner, i, IND + 1, SLOTS), ind);
      var ms := Bfree(es, ind).value;
      var gs := ClearSlot(ms, i, IND);
      ClearFrame(ms, i, IND);
      forall j: nat, t: nat | j < fs.sb.ninodes && t < SLOTS
        ensures Slot(gs, j, t) == if j == i && IND <= t < SLOTS then 0 else Slot(fs, j, t)
      {
        ClearSlotAt(ms, i, IND, j, t);
      }
      MinusSlots(fs, owner, gs, i, IND, SLOTS);
      IndirectBits(fs, owner, es, gs, i, ind);
    }
  }

  lemma MinusHas(owner: Owner, i: nat, lo: nat, hi: nat, b: nat)
    requires b in owner && !(owner[b].0 == i && lo <= owner[b].1 < hi)
    ensures b in Minus(owner, i, lo, hi)
  {
  }

  lemma MinusNoIndirect(fs: Fs, owner: Owner, i: nat)
    requires Wf(fs) && SlotsOwned(fs, owner) && i < fs.sb.ninodes
    requires forall t: nat :: IND <= t < SLOTS ==> Slot(fs, i, t) == 0
    ensures Minus(owner, i, IND, SLOTS) == owner
  {
    hide Slot;
    forall b | b in owner ensures !(owner[b].0 == i && IND <= owner[b].1 < SLOTS) {
      assert OwnedAt(fs, b, owner[b].0, owner[b].1);
    }
  }

  lemma IndirectBits(fs: Fs, owner: Owner, es: Fs, gs: Fs, i: nat, ind: nat)
    requires Wf(fs) && Wf(es) && Wf(gs) && fs.sb == es.sb == gs.sb && SlotsOwned(fs, owner)
    requires ind in owner && owner[ind] == (i, IND) && BitsMatch(es, Minus(owner, i, IND + 1, SLOTS))
    requires forall c: nat :: c < fs.sb.size ==> (Used(gs, c) <==> c != ind && Used(es, c))
    ensures BitsMatch(gs, Minus(owner, i, IND, SLOTS))
  {
    hide Slot, BitAt;
    OwnedInData(fs, owner);
    forall c | c in owner && c != ind ensures owner[c] != (i, IND) {
      assert OwnedAt(fs, c, owner[c].0, owner[c].1);
      assert OwnedAt(fs, ind, i, IND);
    }
  }

  lemma NoIndirect(fs: Fs, i: nat)
    requires Wf(fs) && i in fs.mem && fs.mem[i].addrs[IND] == 0
    ensures forall t: nat :: IND <= t < SLOTS ==> Slot(fs, i, t) == 0
  {
  }

  /** Truncation of any file succeeds: no block it frees is free already.  It leaves
      the file empty on disk and in memory, gives back exactly the blocks the file
      owned, and touches no other file. */
  lemma ItruncKeeps(fs: Fs, owner: Owner, i: nat)
    requires Owned(fs, owner) && i in fs.mem
    ensures Itrunc(fs, i).Some?
    ensures var gs := Itrunc(fs, i).value;
      && gs.sb == fs.sb && Owned(gs, Minus(owner, i, 0, SLOTS))
      && (forall t: nat :: t < SLOTS ==> Slot(gs, i, t) == 0)
      && i in gs.mem && gs.mem[i].size == 0 && SameKind(fs.mem[i], gs.mem[i]) && DInode(gs, i) == gs.mem[i]
      && OthersSame(fs, gs, i)
  {
    hide Slot, DInode, SlotsOwned, Used, FreeDirect, FreeIndirect, FileByte, PutInode, Minus;
    FreeDirectKeeps(fs, owner, i, NDIRECT);
    var ds := FreeDirect(fs, i, NDIRECT).value;
    var owner1 := Minus(owner, i, 0, NDIRECT);
    FreeIndirectKeeps(ds, owner1, i);
    var hs := FreeIndirect(ds, i).value;
    var owner2 := Minus(owner1, i, IND, SLOTS);
    MinusAll(owner, i);
    ResizeKeeps(hs, owner2, i, 0);
    var rs := hs.(mem := hs.mem[i := hs.mem[i].(size := 0)]);
    IupdateKeeps(rs, owner2, i);
    var gs := Iupdate(rs, i);
    forall j: nat | j < fs.sb.ninodes && j != i
      ensures Node(gs, j) == Node(fs, j)
      ensures forall t: nat :: t < SLOTS ==> Slot(gs, j, t) == Slot(fs, j, t)
    {
    }
    forall j: nat, p: nat | j < fs.sb.ninodes && j != i && p < MAXBYTES
      ensures FileByte(gs, j, p) == FileByte(fs, j, p)
    {
      TruncByte(fs, owner, hs, i, j, p);
    }
  }

  lemma MinusAll(owner: Owner, i: nat)
    ensures Minus(Minus(owner, i, 0, NDIRECT), i, IND, SLOTS) == Minus(owner, i, 0, SLOTS)
  {
  }

  lemma TruncByte(fs: Fs, owner: Owner, gs: Fs, i: nat, j: nat, p: nat)
    requires Owned(fs, owner) && Wf(gs) && gs.sb == fs.sb && j < fs.sb.ninodes && j != i && p < MAXBYTES
    requires forall t: nat :: t < SLOTS ==> Slot(gs, j, t) == Slot(fs, j, t)
    requires forall c: nat :: fs.sb.datastart <= c < fs.sb.size ==> gs.blk[c] == fs.blk[c]
    ensures FileByte(gs, j, p) == FileByte(fs, j, p)
  {
    hide Slot;
    var a := Slot(fs, j, FileSlot(p / BSIZE));
    if a != 0 { assert OwnedAt(fs, a, j, FileSlot(p / BSIZE)); }
  }
}
