/** What the hardware lets a program do with the address spaces that xv6/vm.c builds: the two-level translation of
    an 80386 with CR0.WP set, as xv6/entry.S sets it. */
module VmAccess {
  import opened Commons
  import opened Blocks
  import opened VmSpec
  import opened VmRanges

  /** An entry of either level lets the access through. */
  predicate Allows(w: u32, user: bool, write: bool) {
    Present(w) && (user ==> UserOk(w)) && (write ==> Writable(w))
  }

  /** Code (of a user or of the kernel) may load from, or store to, virtual page v: both levels agree. */
  ghost predicate Access(mem: seq<Page>, d: nat, v: nat, user: bool, write: bool) {
    && d < |mem| && v < VPAGES && Allows(mem[d].words[v / ENTRIES], user, write)
    && Frame(mem[d].words[v / ENTRIES]) < |mem| && Allows(Flat(mem, d, v), user, write)
  }

  /** The physical page behind virtual page v. */
  function Behind(mem: seq<Page>, d: nat, v: nat): nat
    requires d < |mem| && v < VPAGES
  {
    Frame(Flat(mem, d, v))
  }

  lemma FlagBits(w: u32)
    ensures Present(w) == (Flags(w) % 2 == 1) && Writable(w) == (Flags(w) / 2 % 2 == 1)
    ensures UserOk(w) == (Flags(w) / 4 % 2 == 1)
  {
    AccessFromFlags(w);
    SplitHalf(w / 4096, w % 4096);
  }

  lemma SplitHalf(high: nat, low: nat)
    requires low < 4096
    ensures (high * 4096 + low) / 2 % 2 == low / 2 % 2
  {
    assert (high * 4096 + low) / 2 == high * 2048 + low / 2;
    assert (high * 2048 + low / 2) % 2 == low / 2 % 2;
  }

  /** Page directories never restrict access, so the page-table entry decides. */
  lemma EntryDecides(vm: Vm, o: seq<Owner>, d: nat, v: nat)
    requires Inv(vm, o) && d < |o| && o[d] == Dir && v < VPAGES
    ensures d < |vm.mem|
    ensures forall user, write :: Access(vm.mem, d, v, user, write) == Allows(Flat(vm.mem, d, v), user, write)
  {
    var pde := vm.mem[d].words[v / ENTRIES];
    if Present(pde) {
      assert DirOk(vm.mem, o, d, v / ENTRIES);
      FlagBits(pde);
    } else {
      assert !Present(0);
    }
  }

  lemma PageBelow(size: nat, u: nat)
    ensures u < PagesOf(size) <==> u * PGSIZE < size
  {
  }

  // ---------------------------------------------------------------- growing and shrinking

  ghost predicate AllZero(page: Page) {
    forall k :: 0 <= k < ENTRIES ==> page.words[k] == 0
  }

  /** The pages that hold bytes lo, ..., hi - 1 but none below lo are new: user code may load from and store to
      them, they read as zero, and nobody owned them before.  Access to all other pages is as it was. */
  ghost predicate ZeroFilled(vm: Vm, o: seq<Owner>, ws: Vm, d: nat, lo: nat, hi: nat) {
    forall u: nat :: u < VPAGES ==>
      if lo <= u * PGSIZE < hi then NewPage(o, ws.mem, d, u) else PageKept(vm.mem, ws.mem, d, u)
  }

  ghost predicate NewPage(o: seq<Owner>, mem: seq<Page>, d: nat, u: nat) {
    && d < |mem| == |o| && u < VPAGES && (forall user, write :: Access(mem, d, u, user, write))
    && Behind(mem, d, u) < |mem| && o[Behind(mem, d, u)] == FreePage && AllZero(mem[Behind(mem, d, u)])
  }

  ghost predicate PageKept(m: seq<Page>, n: seq<Page>, d: nat, u: nat) {
    && d < |m| == |n| && u < VPAGES && Behind(n, d, u) == Behind(m, d, u)
    && forall user, write :: Access(n, d, u, user, write) == Access(m, d, u, user, write)
  }

  lemma GrownZero(vm: Vm, o: seq<Owner>, ws: Vm, o': seq<Owner>, d: nat, oldsz: nat, newsz: nat)
    requires Inv(vm, o) && Inv(ws, o') && d < |o| && o[d] == Dir && d < |o'| && o'[d] == Dir
    requires oldsz <= newsz && PagesOf(oldsz) <= PagesOf(newsz)
    requires Grown(vm, o, ws, o', d, PagesOf(oldsz), ZeroImages(PagesOf(newsz) - PagesOf(oldsz)))
    ensures ZeroFilled(vm, o, ws, d, oldsz, newsz)
  {
    hide Inv, Flat, Access, PagesOf;
    var lo, hi := PagesOf(oldsz), PagesOf(newsz);
    var img := ZeroImages(hi - lo);
    forall u: nat | u < VPAGES
      ensures if oldsz <= u * PGSIZE < newsz then NewPage(o, ws.mem, d, u) else PageKept(vm.mem, ws.mem, d, u)
    {
      PageBelow(oldsz, u);
      PageBelow(newsz, u);
      EntryDecides(ws, o', d, u);
      if lo <= u < hi {
        assert MapsTo(ws.mem, o, o', d, lo + (u - lo), img[u - lo]);
        FlagBits(Flat(ws.mem, d, u));
      } else {
        EntryDecides(vm, o, d, u);
      }
    }
  }

  /** The pages that hold bytes lo, ..., hi - 1 but none below lo are gone; access to all others is as it was. */
  ghost predicate Vanished(m: seq<Page>, n: seq<Page>, d: nat, lo: nat, hi: nat) {
    forall u: nat :: u < VPAGES ==> if lo <= u * PGSIZE < hi then NoPage(n, d, u) else PageKept(m, n, d, u)
  }

  ghost predicate NoPage(mem: seq<Page>, d: nat, u: nat) {
    forall user, write :: !Access(mem, d, u, user, write)
  }

  lemma ShrunkVanishes(vm: Vm, o: seq<Owner>, ws: Vm, o': seq<Owner>, d: nat, newsz: nat, oldsz: nat)
    requires Inv(vm, o) && Inv(ws, o') && d < |o| && o[d] == Dir && d < |o'| && o'[d] == Dir
    requires Shrunk(vm, o, ws, o', d, PagesOf(newsz), PagesOf(oldsz))
    ensures Vanished(vm.mem, ws.mem, d, newsz, oldsz)
  {
    hide Inv, Flat, Access, PagesOf, Released;
    forall u: nat | u < VPAGES
      ensures if newsz <= u * PGSIZE < oldsz then NoPage(ws.mem, d, u) else PageKept(vm.mem, ws.mem, d, u)
    {
      PageBelow(oldsz, u);
      PageBelow(newsz, u);
      EntryDecides(vm, o, d, u);
      EntryDecides(ws, o', d, u);
      assert !Present(0);
    }
  }

  /** sys_pgcnt counts the pages that user code may load from. */
  lemma UserPagesAre(vm: Vm, o: seq<Owner>, d: nat, v: nat)
    requires Inv(vm, o) && d < |o| && o[d] == Dir && v < VPAGES
    ensures v in UserPages(vm.mem, d, VPAGES) <==> Access(vm.mem, d, v, true, false)
  {
    hide Inv, Flat, Access;
    EntryDecides(vm, o, d, v);
  }

  /** After allocuvm it counts each new page. */
  lemma GrownCount(vm: Vm, o: seq<Owner>, ws: Vm, o': seq<Owner>, d: nat, lo: nat, n: nat)
    requires d < |o| == |vm.mem| && Grown(vm, o, ws, o', d, lo, ZeroImages(n))
    requires forall u: nat :: lo <= u < lo + n ==> !Present(Flat(vm.mem, d, u))
    ensures |UserPages(ws.mem, d, VPAGES)| == |UserPages(vm.mem, d, VPAGES)| + n
  {
    hide Flat;
    var added := Range(lo, n);
    forall u: nat | u < VPAGES ensures Accessible(ws.mem, d, u) <==> Accessible(vm.mem, d, u) || u in added {
      if u in added {
        assert MapsTo(ws.mem, o, o', d, lo + (u - lo), ZeroImages(n)[u - lo]);
        FlagBits(Flat(ws.mem, d, u));
      }
    }
    var before := UserPages(vm.mem, d, VPAGES);
    assert UserPages(ws.mem, d, VPAGES) == before + added && before !! added;
  }

  // ---------------------------------------------------------------- the kernel half

  /** What the comments beside kmap[] promise of page v in a space whose kernel data starts at page `data`. */
  ghost predicate KernelPage(mem: seq<Page>, d: nat, data: nat, v: nat)
    requires d < |mem| && UPAGES <= v < VPAGES
  {
    && (forall write :: !Access(mem, d, v, true, write))
    && (v < PHYSEND ==> Behind(mem, d, v) == v - UPAGES && Access(mem, d, v, false, false))
    && (v < PHYSEND ==> (Access(mem, d, v, false, true) <==> !(KERNLINK <= v < data)))
    && (PHYSEND <= v < DEVSPACE ==> !Access(mem, d, v, false, false) && !Access(mem, d, v, false, true))
    && (DEVSPACE <= v ==> Behind(mem, d, v) == v && Access(mem, d, v, false, true) && Access(mem, d, v, false, false))
  }

  /** User code reaches nothing of the kernel; the kernel reaches all physical memory and the devices, and may
      store everywhere there but in its text. */
  ghost predicate KernelMapped(mem: seq<Page>, d: nat, data: nat)
    requires d < |mem|
  {
    forall v: nat :: UPAGES <= v < VPAGES ==> KernelPage(mem, d, data, v)
  }

  lemma KernelBits(data: nat, v: nat)
    requires UPAGES <= v < VPAGES && KERNLINK < data < PHYSEND
    ensures var w := KernelPte(data, v);
      && !UserOk(w) && (Present(w) <==> v < PHYSEND || DEVSPACE <= v)
      && (Present(w) ==> Frame(w) == if v < PHYSEND then v - UPAGES else v)
      && (Present(w) ==> (Writable(w) <==> !(KERNLINK <= v < data)))
  {
    hide Pte, Present, UserOk, Writable, Frame, Flags;
    KernelInaccessible(data, v);
    FlagBits(KernelPte(data, v));
    if UPAGES <= v < PHYSEND { PteFields(v - UPAGES, if KERNLINK <= v < data then 0 else PTE_W); }
    if DEVSPACE <= v { PteFields(v, PTE_W); }
    ZeroAbsent();
  }

  lemma ZeroAbsent()
    ensures !Present(0)
  {
  }

  lemma KernelIs(vm: Vm, o: seq<Owner>, d: nat, data: nat, v: nat)
    requires Inv(vm, o) && d < |o| == |vm.mem| && o[d] == Dir && KERNLINK < data < PHYSEND
    requires UPAGES <= v < VPAGES && Flat(vm.mem, d, v) == KernelPte(data, v)
    ensures KernelPage(vm.mem, d, data, v)
  {
    hide Inv, Flat, Access, KernelPte, Present, UserOk, Writable, Frame;
    KernelBits(data, v);
    EntryDecides(vm, o, d, v);
  }

  /** No user page from byte lo on. */
  ghost predicate EmptyFrom(mem: seq<Page>, d: nat, lo: nat) {
    forall u: nat :: u < UPAGES && lo <= u * PGSIZE ==> NoPage(mem, d, u)
  }

  /** A new space has the kernel half and no user page. */
  lemma NewSpaceIs(vm: Vm, o: seq<Owner>, ws: Vm, o': seq<Owner>, d: nat, data: nat)
    requires Inv(ws, o') && d < |o'| && o'[d] == Dir && NewSpace(vm, o, ws, o', d, data) && KERNLINK < data < PHYSEND
    ensures KernelMapped(ws.mem, d, data) && EmptyFrom(ws.mem, d, 0)
  {
    hide Inv, Flat, Access, Present, KernelPage;
    forall v: nat | UPAGES <= v < VPAGES ensures KernelPage(ws.mem, d, data, v) { KernelIs(ws, o', d, data, v); }
    forall u: nat | u < UPAGES ensures NoPage(ws.mem, d, u) { NotMapped(ws, o', d, data, u); }
  }

  lemma NotMapped(vm: Vm, o: seq<Owner>, d: nat, data: nat, u: nat)
    requires Inv(vm, o) && d < |o| == |vm.mem| && o[d] == Dir && u < UPAGES && Flat(vm.mem, d, u) == KernelPte(data, u)
    ensures NoPage(vm.mem, d, u)
  {
    hide Inv, Flat, Access;
    EntryDecides(vm, o, d, u);
    ZeroAbsent();
  }

  // ---------------------------------------------------------------- copies

  /** The child's page u has the parent's bytes in another physical page, and user code may do with it in the
      child what it may do in the parent. */
  ghost predicate CopiedPage(m: seq<Page>, src: nat, n: seq<Page>, d: nat, u: nat) {
    && src < |m| == |n| && d < |n| && u < VPAGES && Behind(m, src, u) < |m| && Behind(n, d, u) < |n|
    && n[Behind(n, d, u)] == m[Behind(m, src, u)] && Behind(n, d, u) != Behind(m, src, u)
    && forall user, write :: Access(n, d, u, user, write) == Access(m, src, u, user, write)
  }

  lemma CopyIs(vm: Vm, o: seq<Owner>, ws: Vm, o': seq<Owner>, src: nat, d: nat, n: nat, data: nat, u: nat)
    requires Inv(vm, o) && Inv(ws, o') && src < |o| && o[src] == Dir && d < |o'| && o'[d] == Dir
    requires CopiedSpace(vm, o, ws, o', src, d, n, data) && u < n && Present(Flat(vm.mem, src, u))
    ensures CopiedPage(vm.mem, src, ws.mem, d, u)
  {
    hide Inv, Flat, Access;
    assert MapsTo(ws.mem, o, o', d, u, ImageAt(vm.mem, src, u));
    UserOf(vm, o, src, u);
    EntryDecides(vm, o, src, u);
    EntryDecides(ws, o', d, u);
    FlagBits(Flat(vm.mem, src, u));
    FlagBits(Flat(ws.mem, d, u));
  }

  lemma CopySpaceIs(vm: Vm, o: seq<Owner>, ws: Vm, o': seq<Owner>, src: nat, d: nat, sz: nat, data: nat)
    requires Inv(vm, o) && Inv(ws, o') && src < |o| && o[src] == Dir && d < |o'| && o'[d] == Dir
    requires CopiedSpace(vm, o, ws, o', src, d, PagesOf(sz), data) && KERNLINK < data < PHYSEND
    requires forall u: nat :: u < PagesOf(sz) ==> Present(Flat(vm.mem, src, u))
    ensures forall u: nat :: u < VPAGES && u * PGSIZE < sz ==> CopiedPage(vm.mem, src, ws.mem, d, u)
    ensures KernelMapped(ws.mem, d, data) && EmptyFrom(ws.mem, d, sz)
  {
    hide Inv, Flat, Access, Present, KernelPage, PagesOf, MapsTo, CopiedPage, KernelPte;
    forall u: nat | u < VPAGES && u * PGSIZE < sz ensures CopiedPage(vm.mem, src, ws.mem, d, u) {
      PageBelow(sz, u);
      CopyIs(vm, o, ws, o', src, d, PagesOf(sz), data, u);
    }
    forall v: nat | UPAGES <= v < VPAGES ensures KernelPage(ws.mem, d, data, v) { KernelIs(ws, o', d, data, v); }
    forall u: nat | u < UPAGES && sz <= u * PGSIZE ensures NoPage(ws.mem, d, u) {
      PageBelow(sz, u);
      NotMapped(ws, o', d, data, u);
    }
  }

  // ---------------------------------------------------------------- clearpteu

  lemma WithoutUserAllows(w: u32, user: bool, write: bool)
    ensures Allows(WithoutUser(w), user, write) <==> Allows(w, user, write) && !user
  {
    hide Present, UserOk, Writable, Frame;
    WithoutUserFields(w);
    if UserOk(w) { FourLess(w); }
  }

  lemma FourLess(w: u32)
    requires w >= 4
    ensures Writable(w - 4) == Writable(w)
  {
    assert (w - 4) / 2 == w / 2 - 2;
  }

  lemma Cleared(vm: Vm, ws: Vm, o: seq<Owner>, d: nat, v: nat)
    requires Inv(vm, o) && Inv(ws, o) && d < |o| == |vm.mem| == |ws.mem| && o[d] == Dir && v < VPAGES
    requires forall u: nat :: u < VPAGES ==>
      Flat(ws.mem, d, u) == if u == v then WithoutUser(Flat(vm.mem, d, v)) else Flat(vm.mem, d, u)
    ensures UserBarred(vm.mem, ws.mem, d, v)
    ensures forall u: nat :: u < VPAGES && u != v ==> PageKept(vm.mem, ws.mem, d, u)
  {
    hide Inv, Flat, Access, WithoutUser, Allows;
    forall u: nat | u < VPAGES && u != v ensures PageKept(vm.mem, ws.mem, d, u) {
      EntryDecides(vm, o, d, u);
      EntryDecides(ws, o, d, u);
    }
    EntryDecides(vm, o, d, v);
    EntryDecides(ws, o, d, v);
    WithoutUserFields(Flat(vm.mem, d, v));
    forall user, write ensures Access(ws.mem, d, v, user, write) <==> Access(vm.mem, d, v, user, write) && !user {
      WithoutUserAllows(Flat(vm.mem, d, v), user, write);
    }
  }

  /** Page v is the same page, for the kernel alone. */
  ghost predicate UserBarred(m: seq<Page>, n: seq<Page>, d: nat, v: nat) {
    && d < |m| == |n| && v < VPAGES && Behind(n, d, v) == Behind(m, d, v)
    && forall user, write :: Access(n, d, v, user, write) <==> Access(m, d, v, user, write) && !user
  }
}
