/** Physical pages, two-level page tables and who owns each page (xv6/vm.c, xv6/kalloc.c). */
module VmSpec {
  import opened Blocks

  const ENTRIES: nat := 1024         // NPDENTRIES == NPTENTRIES
  const VPAGES: nat := 0x10_0000     // virtual pages
  const UPAGES: nat := 0x8_0000      // virtual pages below KERNBASE
  const PGSIZE: nat := 4096
  const PTE_P: nat := 1
  const PTE_W: nat := 2
  const PTE_U: nat := 4

  type Words = s: seq<u32> | |s| == ENTRIES witness seq(ENTRIES, i => 0)

  /** 4096 bytes, as 1024 words. */
  datatype Page = Page(words: Words)

  function ZeroPage(): Page { Page(seq(ENTRIES, i => 0)) }

  /** What kfree leaves behind: memset(v, 1, PGSIZE). */
  function JunkPage(): Page { Page(seq(ENTRIES, i => 0x101_0101)) }

  predicate Present(w: u32) { w % 2 == 1 }

  predicate Writable(w: u32) { w / 2 % 2 == 1 }

  predicate UserOk(w: u32) { w / 4 % 2 == 1 }

  /** PTE_ADDR as a page number. */
  function Frame(w: u32): nat { w / PGSIZE }

  function Flags(w: u32): nat { w % PGSIZE }

  /** pa | perm | PTE_P, for a page number and flags that fit. */
  function Pte(frame: nat, perm: nat): u32
    requires frame < VPAGES && perm < PGSIZE
  {
    frame * 4096 + perm / 2 * 2 + 1
  }

  lemma LowBits(perm: nat)
    requires perm < PGSIZE
    ensures var low := perm / 2 * 2 + 1; low < 4096 && low % 2 == 1 && low / 4 == perm / 4
  {
    var q, r := perm / 4, perm % 4;
    assert perm == 4 * q + r;
    if r < 2 {
      assert perm / 2 == 2 * q;
    } else {
      assert perm / 2 == 2 * q + 1;
    }
  }

  lemma SplitPage(q: nat, low: nat)
    requires low < 4096
    ensures (q * 4096 + low) / 4096 == q && (q * 4096 + low) % 4096 == low
  {
  }

  lemma AddEven(a: nat, low: nat)
    ensures (2 * a + low) % 2 == low % 2
  {
  }

  lemma AddFours(a: nat, low: nat)
    ensures (4 * a + low) / 4 == a + low / 4
  {
  }

  lemma PteFields(frame: nat, perm: nat)
    requires frame < VPAGES && perm < PGSIZE
    ensures var w := Pte(frame, perm);
      Present(w) && Frame(w) == frame && Flags(w) == perm / 2 * 2 + 1 && UserOk(w) == (perm / 4 % 2 == 1)
  {
    LowBits(perm);
    SplitPage(frame, perm / 2 * 2 + 1);
    AddEven(frame * 2048, perm / 2 * 2 + 1);
    AddFours(frame * 1024, perm / 2 * 2 + 1);
    AddEven(frame * 512, perm / 4);
  }

  /** kmem.freelist, first page first, and the contents of all physical pages. */
  datatype Vm = Vm(mem: seq<Page>, free: seq<nat>)

  /** A page is free, held by the running code, outside the allocator, or part of one address space. */
  datatype Owner = FreePage | Held | Outside | Dir | Table(d: nat, i: nat) | User(d: nat, v: nat)

  /** The page-table entry of virtual page v in directory d; 0 when there is no table. */
  function Flat(mem: seq<Page>, d: nat, v: nat): u32
    requires d < |mem| && v < VPAGES
  {
    var pde := mem[d].words[v / ENTRIES];
    if !Present(pde) || Frame(pde) >= |mem| then 0 else mem[Frame(pde)].words[v % ENTRIES]
  }

  ghost predicate DirOk(mem: seq<Page>, owner: seq<Owner>, d: nat, i: nat)
    requires d < |mem| == |owner| && i < ENTRIES
  {
    var pde := mem[d].words[i];
    Present(pde) ==> Frame(pde) < |mem| && owner[Frame(pde)] == Table(d, i) && Flags(pde) == PTE_P + PTE_W + PTE_U
  }

  ghost predicate UserPageOk(mem: seq<Page>, owner: seq<Owner>, d: nat, v: nat)
    requires d < |mem| == |owner| && v < UPAGES
  {
    var pte := Flat(mem, d, v);
    Present(pte) ==> Frame(pte) < |mem| && owner[Frame(pte)] == User(d, v)
  }

  ghost predicate OwnerOk(vm: Vm, owner: seq<Owner>, f: nat)
    requires f < |vm.mem| == |owner|
  {
    match owner[f]
    case FreePage => f in vm.free
    case Table(d, i) => d < |vm.mem| && owner[d] == Dir && i < ENTRIES && Present(vm.mem[d].words[i])
      && Frame(vm.mem[d].words[i]) == f
    case User(d, v) => d < |vm.mem| && owner[d] == Dir && v < UPAGES && Present(Flat(vm.mem, d, v))
      && Frame(Flat(vm.mem, d, v)) == f
    case _ => true
  }

  /** Every page has one owner, and page directories refer to exactly the pages they own. */
  ghost predicate Inv(vm: Vm, owner: seq<Owner>) {
    && |owner| == |vm.mem| <= VPAGES
    && (|owner| == 0 || owner[0] == Outside)
    && (forall k :: 0 <= k < |vm.free| ==> vm.free[k] < |owner| && owner[vm.free[k]] == FreePage)
    && (forall j, k :: 0 <= j < k < |vm.free| ==> vm.free[j] != vm.free[k])
    && (forall f :: 0 <= f < |owner| ==> OwnerOk(vm, owner, f))
    && (forall d, i :: 0 <= d < |owner| && owner[d] == Dir && 0 <= i < ENTRIES ==> DirOk(vm.mem, owner, d, i))
    && forall d, v :: 0 <= d < |owner| && owner[d] == Dir && 0 <= v < UPAGES ==> UserPageOk(vm.mem, owner, d, v)
  }

  /** Directory d maps the same pages in both memories. */
  ghost predicate SameFlat(m: seq<Page>, n: seq<Page>, d: nat) {
    d < |m| == |n| && forall v: nat :: v < VPAGES ==> Flat(n, d, v) == Flat(m, d, v)
  }

  /** All directories but `except` map the same pages. */
  ghost predicate OthersSame(m: seq<Page>, n: seq<Page>, owner: seq<Owner>, except: int) {
    |m| == |n| == |owner| && forall d: nat :: d < |owner| && owner[d] == Dir && d != except ==> SameFlat(m, n, d)
  }

  // ---------------------------------------------------------------- ownership facts

  lemma TableOf(vm: Vm, owner: seq<Owner>, d: nat, i: nat)
    requires Inv(vm, owner) && d < |owner| && owner[d] == Dir && i < ENTRIES && Present(vm.mem[d].words[i])
    ensures Frame(vm.mem[d].words[i]) < |owner| && owner[Frame(vm.mem[d].words[i])] == Table(d, i)
  {
    assert DirOk(vm.mem, owner, d, i);
  }

  lemma UserOf(vm: Vm, owner: seq<Owner>, d: nat, v: nat)
    requires Inv(vm, owner) && d < |owner| && owner[d] == Dir && v < UPAGES && Present(Flat(vm.mem, d, v))
    ensures Frame(Flat(vm.mem, d, v)) < |owner| && owner[Frame(Flat(vm.mem, d, v))] == User(d, v)
  {
    assert UserPageOk(vm.mem, owner, d, v);
  }

  /** No page is in two places: free and mapped, or mapped twice. */
  lemma NoSharing(vm: Vm, owner: seq<Owner>, d: nat, v: nat, e: nat, u: nat)
    requires Inv(vm, owner) && d < |owner| && e < |owner| && owner[d] == Dir && owner[e] == Dir && v < UPAGES
      && u < UPAGES
    requires Present(Flat(vm.mem, d, v)) && Present(Flat(vm.mem, e, u))
      && Frame(Flat(vm.mem, d, v)) == Frame(Flat(vm.mem, e, u))
    ensures (d, v) == (e, u) && Frame(Flat(vm.mem, d, v)) !in vm.free
  {
    UserOf(vm, owner, d, v);
    UserOf(vm, owner, e, u);
  }

  // ---------------------------------------------------------------- primitive changes

  /** Contents of a page that is no directory and no table may change freely. */
  lemma WriteData(vm: Vm, owner: seq<Owner>, f: nat, page: Page)
    requires Inv(vm, owner) && f < |owner| && !owner[f].Dir? && !owner[f].Table?
    ensures Inv(vm.(mem := vm.mem[f := page]), owner) && OthersSame(vm.mem, vm.mem[f := page], owner, -1)
  {
    var ws := vm.(mem := vm.mem[f := page]);
    forall d: nat, v: nat | d < |owner| && owner[d] == Dir && v < VPAGES
      ensures Flat(ws.mem, d, v) == Flat(vm.mem, d, v)
    {
      if Present(vm.mem[d].words[v / ENTRIES]) { TableOf(vm, owner, d, v / ENTRIES); }
    }
    Transfer(vm, ws, owner);
  }

  /** The invariant depends on memory only through directories and their flat maps. */
  lemma Transfer(vm: Vm, ws: Vm, owner: seq<Owner>)
    requires Inv(vm, owner) && |ws.mem| == |vm.mem| && ws.free == vm.free
    requires forall d: nat :: d < |owner| && owner[d] == Dir ==> ws.mem[d] == vm.mem[d]
    requires forall d: nat, v: nat :: d < |owner| && owner[d] == Dir && v < VPAGES ==>
      Flat(ws.mem, d, v) == Flat(vm.mem, d, v)
    ensures Inv(ws, owner)
  {
    hide Flat;
    forall f | 0 <= f < |owner| ensures OwnerOk(ws, owner, f) { assert OwnerOk(vm, owner, f); }
    forall d, i | 0 <= d < |owner| && owner[d] == Dir && 0 <= i < ENTRIES ensures DirOk(ws.mem, owner, d, i) {
      assert DirOk(vm.mem, owner, d, i);
    }
    forall d, v | 0 <= d < |owner| && owner[d] == Dir && 0 <= v < UPAGES ensures UserPageOk(ws.mem, owner, d, v) {
      assert UserPageOk(vm.mem, owner, d, v);
    }
  }

  /** kalloc */
  lemma Pop(vm: Vm, owner: seq<Owner>)
    requires Inv(vm, owner) && vm.free != []
    ensures vm.free[0] < |owner| && owner[vm.free[0]] == FreePage
    ensures Inv(vm.(free := vm.free[1..]), owner[vm.free[0] := Held])
  {
    hide Flat;
    var f := vm.free[0];
    var ws, owner' := vm.(free := vm.free[1..]), owner[f := Held];
    forall g | 0 <= g < |owner| ensures OwnerOk(ws, owner', g) {
      assert OwnerOk(vm, owner, g);
      if owner'[g] == FreePage {
        var k :| 0 <= k < |vm.free| && vm.free[k] == g;
        assert ws.free[k - 1] == g;
      }
    }
    SameShape(vm, ws, owner, owner', f);
  }

  /** kfree, apart from the junk it writes. */
  lemma Push(vm: Vm, owner: seq<Owner>, f: nat)
    requires Inv(vm, owner) && f < |owner| && owner[f] == Held
    ensures Inv(vm.(free := [f] + vm.free), owner[f := FreePage])
  {
    hide Flat;
    var ws, owner' := vm.(free := [f] + vm.free), owner[f := FreePage];
    forall g | 0 <= g < |owner| ensures OwnerOk(ws, owner', g) {
      assert OwnerOk(vm, owner, g);
      if owner'[g] == FreePage && g != f {
        var k :| 0 <= k < |vm.free| && vm.free[k] == g;
        assert ws.free[k + 1] == g;
      }
    }
    SameShape(vm, ws, owner, owner', f);
  }

  /** Directories stay in order when a page that they do not refer to changes hands. */
  lemma SameShape(vm: Vm, ws: Vm, owner: seq<Owner>, owner': seq<Owner>, f: nat)
    requires Inv(vm, owner) && ws.mem == vm.mem && f < |owner|
    requires |owner'| == |owner| && owner' == owner[f := owner'[f]] && (owner[f] == FreePage || owner[f] == Held)
      && !owner'[f].Dir?
    ensures forall d, i :: 0 <= d < |owner| && owner'[d] == Dir && 0 <= i < ENTRIES ==> DirOk(ws.mem, owner', d, i)
    ensures forall d, v :: 0 <= d < |owner| && owner'[d] == Dir && 0 <= v < UPAGES ==> UserPageOk(ws.mem, owner', d, v)
  {
    hide Flat;
    forall d, i | 0 <= d < |owner| && owner'[d] == Dir && 0 <= i < ENTRIES ensures DirOk(ws.mem, owner', d, i) {
      assert DirOk(vm.mem, owner, d, i);
    }
    forall d, v | 0 <= d < |owner| && owner'[d] == Dir && 0 <= v < UPAGES ensures UserPageOk(ws.mem, owner', d, v) {
      assert UserPageOk(vm.mem, owner, d, v);
    }
  }

  // ---------------------------------------------------------------- changing page tables

  function SetWord(mem: seq<Page>, f: nat, i: nat, w: u32): seq<Page>
    requires f < |mem| && i < ENTRIES
  {
    mem[f := Page(mem[f].words[i := w])]
  }

  /** walkpgdir hangs a zeroed page into the directory: no mapping changes. */
  lemma AttachTable(vm: Vm, owner: seq<Owner>, d: nat, i: nat, f: nat, w: u32)
    requires Inv(vm, owner) && d < |owner| && owner[d] == Dir && i < ENTRIES && !Present(vm.mem[d].words[i])
    requires f < |owner| && owner[f] == Held && vm.mem[f] == ZeroPage() && Present(w) && Frame(w) == f
      && Flags(w) == PTE_P + PTE_W + PTE_U
    ensures var ws := vm.(mem := SetWord(vm.mem, d, i, w));
      Inv(ws, owner[f := Table(d, i)]) && OthersSame(vm.mem, ws.mem, owner, -1)
  {
    var ws, owner' := vm.(mem := SetWord(vm.mem, d, i, w)), owner[f := Table(d, i)];
    forall e: nat, v: nat | e < |owner| && owner[e] == Dir && v < VPAGES
      ensures Flat(ws.mem, e, v) == Flat(vm.mem, e, v)
    {
      if Present(vm.mem[e].words[v / ENTRIES]) { TableOf(vm, owner, e, v / ENTRIES); }
      assert !Present(0);
    }
    AttachTableInv(vm, ws, owner, d, i, f, w);
  }

  lemma AttachTableInv(vm: Vm, ws: Vm, owner: seq<Owner>, d: nat, i: nat, f: nat, w: u32)
    requires Inv(vm, owner) && d < |owner| && owner[d] == Dir && i < ENTRIES && !Present(vm.mem[d].words[i])
    requires f < |owner| && owner[f] == Held && Present(w) && Frame(w) == f && Flags(w) == PTE_P + PTE_W + PTE_U
      && ws == vm.(mem := SetWord(vm.mem, d, i, w))
    requires forall e: nat, v: nat :: e < |owner| && owner[e] == Dir && v < VPAGES ==>
      Flat(ws.mem, e, v) == Flat(vm.mem, e, v)
    ensures Inv(ws, owner[f := Table(d, i)])
  {
    hide Flat;
    var owner' := owner[f := Table(d, i)];
    forall g | 0 <= g < |owner| ensures OwnerOk(ws, owner', g) { assert OwnerOk(vm, owner, g); }
    forall e, j | 0 <= e < |owner| && owner'[e] == Dir && 0 <= j < ENTRIES ensures DirOk(ws.mem, owner', e, j) {
      assert DirOk(vm.mem, owner, e, j);
    }
    forall e, v | 0 <= e < |owner| && owner'[e] == Dir && 0 <= v < UPAGES ensures UserPageOk(ws.mem, owner', e, v) {
      assert UserPageOk(vm.mem, owner, e, v);
    }
  }

  /** One page-table entry changes: the flat map of its directory changes at that page, no other map does. */
  lemma SetEntry(vm: Vm, owner: seq<Owner>, d: nat, v: nat, w: u32)
    requires Inv(vm, owner) && d < |owner| && owner[d] == Dir && v < VPAGES && Present(vm.mem[d].words[v / ENTRIES])
    ensures var t := Frame(vm.mem[d].words[v / ENTRIES]);
      && t < |owner| && owner[t] == Table(d, v / ENTRIES)
      && var n := SetWord(vm.mem, t, v % ENTRIES, w);
         && OthersSame(vm.mem, n, owner, d)
         && (forall u: nat :: u < VPAGES ==> Flat(n, d, u) == if u == v then w else Flat(vm.mem, d, u))
         && (forall e: nat :: e < |owner| && owner[e] == Dir ==> n[e] == vm.mem[e])
  {
    TableOf(vm, owner, d, v / ENTRIES);
    var t := Frame(vm.mem[d].words[v / ENTRIES]);
    var n := SetWord(vm.mem, t, v % ENTRIES, w);
    forall e: nat, u: nat | e < |owner| && owner[e] == Dir && u < VPAGES
      ensures Flat(n, e, u) == if e == d && u == v then w else Flat(vm.mem, e, u)
    {
      if Present(vm.mem[e].words[u / ENTRIES]) { TableOf(vm, owner, e, u / ENTRIES); }
    }
  }

  /** Mapping a held page at a free user address, or any page in the kernel part. */
  lemma MapEntry(vm: Vm, owner: seq<Owner>, d: nat, v: nat, w: u32)
    requires Inv(vm, owner) && d < |owner| && owner[d] == Dir && v < VPAGES && Present(vm.mem[d].words[v / ENTRIES])
    requires !Present(Flat(vm.mem, d, v)) && Present(w)
      && (v < UPAGES ==> Frame(w) < |owner| && owner[Frame(w)] == Held)
    ensures var t := Frame(vm.mem[d].words[v / ENTRIES]);
      && t < |owner| && owner[t] == Table(d, v / ENTRIES)
      && Inv(vm.(mem := SetWord(vm.mem, t, v % ENTRIES, w)), if v < UPAGES then owner[Frame(w) := User(d, v)]
           else owner)
  {
    hide Flat;
    SetEntry(vm, owner, d, v, w);
    var t := Frame(vm.mem[d].words[v / ENTRIES]);
    var ws := vm.(mem := SetWord(vm.mem, t, v % ENTRIES, w));
    var owner' := if v < UPAGES then owner[Frame(w) := User(d, v)] else owner;
    EntryInv(vm, ws, owner, owner', d, v, w);
  }

  /** Clearing the entry of a user page leaves that page held. */
  lemma UnmapEntry(vm: Vm, owner: seq<Owner>, d: nat, v: nat)
    requires Inv(vm, owner) && d < |owner| && owner[d] == Dir && v < UPAGES && Present(vm.mem[d].words[v / ENTRIES])
    requires Present(Flat(vm.mem, d, v))
    ensures var t, f := Frame(vm.mem[d].words[v / ENTRIES]), Frame(Flat(vm.mem, d, v));
      && t < |owner| && owner[t] == Table(d, v / ENTRIES) && f < |owner| && owner[f] == User(d, v)
      && Inv(vm.(mem := SetWord(vm.mem, t, v % ENTRIES, 0)), owner[f := Held])
  {
    hide Flat;
    SetEntry(vm, owner, d, v, 0);
    UserOf(vm, owner, d, v);
    var t, f := Frame(vm.mem[d].words[v / ENTRIES]), Frame(Flat(vm.mem, d, v));
    EntryInv(vm, vm.(mem := SetWord(vm.mem, t, v % ENTRIES, 0)), owner, owner[f := Held], d, v, 0);
  }

  lemma EntryInv(vm: Vm, ws: Vm, owner: seq<Owner>, owner': seq<Owner>, d: nat, v: nat, w: u32)
    requires Inv(vm, owner) && |ws.mem| == |vm.mem| && ws.free == vm.free && d < |owner| && owner[d] == Dir
      && v < VPAGES
    requires forall e: nat :: e < |owner| && owner[e] == Dir ==> ws.mem[e] == vm.mem[e]
    requires OthersSame(vm.mem, ws.mem, owner, d)
    requires forall u: nat :: u < VPAGES ==> Flat(ws.mem, d, u) == if u == v then w else Flat(vm.mem, d, u)
    requires var was := Frame(Flat(vm.mem, d, v));
      || (v >= UPAGES && owner' == owner)
      || (v < UPAGES && Present(w) && !Present(Flat(vm.mem, d, v)) && Frame(w) < |owner| && owner[Frame(w)] == Held
         && owner' == owner[Frame(w) := User(d, v)])
      || (v < UPAGES && Present(w) == Present(Flat(vm.mem, d, v)) && Frame(w) == was && owner' == owner)
      || (v < UPAGES && !Present(w) && Present(Flat(vm.mem, d, v)) && was < |owner| && owner[was] == User(d, v)
         && owner' == owner[was := Held])
    ensures Inv(ws, owner')
  {
    hide Flat;
    forall g | 0 <= g < |owner| ensures OwnerOk(ws, owner', g) { EntryOwner(vm, ws, owner, owner', d, v, w, g); }
    forall e, j | 0 <= e < |owner| && owner'[e] == Dir && 0 <= j < ENTRIES ensures DirOk(ws.mem, owner', e, j) {
      assert DirOk(vm.mem, owner, e, j);
    }
    forall e, u | 0 <= e < |owner| && owner'[e] == Dir && 0 <= u < UPAGES ensures UserPageOk(ws.mem, owner', e, u) {
      assert UserPageOk(vm.mem, owner, e, u);
      assert e != d ==> SameFlat(vm.mem, ws.mem, e);
    }
  }

  lemma EntryOwner(vm: Vm, ws: Vm, owner: seq<Owner>, owner': seq<Owner>, d: nat, v: nat, w: u32, g: nat)
    requires Inv(vm, owner) && |ws.mem| == |vm.mem| && ws.free == vm.free && d < |owner| && owner[d] == Dir
      && v < VPAGES
    requires forall e: nat :: e < |owner| && owner[e] == Dir ==> ws.mem[e] == vm.mem[e]
    requires OthersSame(vm.mem, ws.mem, owner, d)
    requires forall u: nat :: u < VPAGES ==> Flat(ws.mem, d, u) == if u == v then w else Flat(vm.mem, d, u)
    requires var was := Frame(Flat(vm.mem, d, v));
      || (v >= UPAGES && owner' == owner)
      || (v < UPAGES && Present(w) && !Present(Flat(vm.mem, d, v)) && Frame(w) < |owner| && owner[Frame(w)] == Held
         && owner' == owner[Frame(w) := User(d, v)])
      || (v < UPAGES && Present(w) == Present(Flat(vm.mem, d, v)) && Frame(w) == was && owner' == owner)
      || (v < UPAGES && !Present(w) && Present(Flat(vm.mem, d, v)) && was < |owner| && owner[was] == User(d, v)
         && owner' == owner[was := Held])
    requires g < |owner|
    ensures |owner'| == |owner| && OwnerOk(ws, owner', g)
  {
    hide Flat;
    assert OwnerOk(vm, owner, g);
    if owner[g].User? && owner[g].d != d {
      assert SameFlat(vm.mem, ws.mem, owner[g].d);
    }
  }

  /** A zeroed held page becomes an empty page directory. */
  lemma NewDir(vm: Vm, owner: seq<Owner>, d: nat)
    requires Inv(vm, owner) && d < |owner| && owner[d] == Held && vm.mem[d] == ZeroPage()
    ensures Inv(vm, owner[d := Dir]) && forall v: nat :: v < VPAGES ==> Flat(vm.mem, d, v) == 0
  {
    var owner' := owner[d := Dir];
    forall v: nat | v < VPAGES ensures Flat(vm.mem, d, v) == 0 { assert vm.mem[d].words[v / ENTRIES] == 0; }
    forall g | 0 <= g < |owner| ensures OwnerOk(vm, owner', g) { assert OwnerOk(vm, owner, g); }
    forall e, j | 0 <= e < |owner| && owner'[e] == Dir && 0 <= j < ENTRIES ensures DirOk(vm.mem, owner', e, j) {
      if e != d { assert DirOk(vm.mem, owner, e, j); }
    }
    forall e, u | 0 <= e < |owner| && owner'[e] == Dir && 0 <= u < UPAGES ensures UserPageOk(vm.mem, owner', e, u) {
      if e != d { assert UserPageOk(vm.mem, owner, e, u); }
    }
  }

  /** Ownership while directory d is being given up: its page and its tables are merely held,
      and the first n tables are free already. */
  ghost function Dismantled(owner: seq<Owner>, d: nat, n: nat): (r: seq<Owner>)
    ensures |r| == |owner|
    ensures forall f :: 0 <= f < |owner| ==> r[f] == DismantledAt(owner, d, n, f)
  {
    seq(|owner|, f requires 0 <= f < |owner| => DismantledAt(owner, d, n, f))
  }

  ghost function DismantledAt(owner: seq<Owner>, d: nat, n: nat, f: nat): Owner
    requires f < |owner|
  {
    if f == d then Held
    else if owner[f].Table? && owner[f].d == d then (if owner[f].i < n then FreePage else Held)
    else owner[f]
  }

  /** A directory without user pages can be given up. */
  lemma Retire(vm: Vm, owner: seq<Owner>, d: nat)
    requires Inv(vm, owner) && d < |owner| && owner[d] == Dir && forall v: nat :: v < UPAGES ==>
      !Present(Flat(vm.mem, d, v))
    ensures Inv(vm, Dismantled(owner, d, 0))
  {
    hide Flat;
    var owner' := Dismantled(owner, d, 0);
    forall g | 0 <= g < |owner| ensures OwnerOk(vm, owner', g) { assert OwnerOk(vm, owner, g); }
    forall e, j | 0 <= e < |owner| && owner'[e] == Dir && 0 <= j < ENTRIES ensures DirOk(vm.mem, owner', e, j) {
      assert DirOk(vm.mem, owner, e, j);
    }
    forall e, u | 0 <= e < |owner| && owner'[e] == Dir && 0 <= u < UPAGES ensures UserPageOk(vm.mem, owner', e, u) {
      assert UserPageOk(vm.mem, owner, e, u);
    }
  }

  // ---------------------------------------------------------------- what an operation may change

  /** Pages taken from the free list for directory d: tables, and user pages in [lo, hi). */
  ghost predicate Claimed(owner: seq<Owner>, owner': seq<Owner>, d: nat, lo: nat, hi: nat) {
    && |owner'| == |owner|
    && forall f :: 0 <= f < |owner| ==> owner'[f] == owner[f] || (owner[f] == FreePage && Belongs(owner'[f], d, lo, hi))
  }

  predicate Belongs(o: Owner, d: nat, lo: nat, hi: nat) {
    (o.Table? && o.d == d) || (o.User? && o.d == d && lo <= o.v < hi)
  }

  predicate HoldsData(o: Owner) {
    o.User? || o == Held || o == Outside
  }

  /** Pages that hold data before and after keep their contents. */
  ghost predicate DataKept(m: seq<Page>, owner: seq<Owner>, n: seq<Page>, owner': seq<Owner>) {
    && |m| == |n| == |owner| == |owner'|
    && forall f :: 0 <= f < |m| && owner'[f] == owner[f] && HoldsData(owner[f]) ==> n[f] == m[f]
  }

  /** The mappings of [lo, hi) are gone from directory d; the others are as before. */
  ghost predicate UnmappedRange(m: seq<Page>, n: seq<Page>, d: nat, lo: nat, hi: nat) {
    && d < |m| == |n|
    && forall u: nat :: u < VPAGES ==>
         Flat(n, d, u) == if lo <= u < hi && Present(Flat(m, d, u)) then 0 else Flat(m, d, u)
  }

  /** Ownership after the user pages [lo, hi) of d have been freed. */
  ghost function Released(owner: seq<Owner>, d: nat, lo: nat, hi: nat): (r: seq<Owner>)
    ensures |r| == |owner|
    ensures forall f :: 0 <= f < |owner| ==>
      r[f] == if owner[f].User? && owner[f].d == d && lo <= owner[f].v < hi then FreePage else owner[f]
  {
    seq(|owner|, f requires 0 <= f < |owner| => if owner[f].User? && owner[f].d == d && lo <= owner[f].v < hi
      then FreePage else owner[f])
  }

  /** Ownership after freevm(d): nothing belongs to d. */
  ghost function Freed(owner: seq<Owner>, d: nat): (r: seq<Owner>)
    ensures |r| == |owner|
    ensures forall f :: 0 <= f < |owner| ==>
      r[f] == if f == d || (owner[f].Table? && owner[f].d == d) || (owner[f].User? && owner[f].d == d) then FreePage
        else owner[f]
  {
    seq(|owner|, f requires 0 <= f < |owner| =>
      if f == d || (owner[f].Table? && owner[f].d == d) || (owner[f].User? && owner[f].d == d) then FreePage
        else owner[f])
  }

  function PagesOf(size: nat): nat {
    (size + PGSIZE - 1) / PGSIZE
  }

  // ---------------------------------------------------------------- the kernel half

  /** One row of kmap[], in pages. */
  datatype Region = Region(virt: nat, pfn: nat, n: nat, perm: nat)

  const KERNLINK: nat := 0x8_0100   // page numbers
  const PHYSEND: nat := 0x8_E000    // P2V(PHYSTOP)
  const DEVSPACE: nat := 0xF_E000

  /** kmap[]; `data` is the page where the kernel's writable data starts. */
  function KernelMap(data: nat): seq<Region>
    requires KERNLINK < data < PHYSEND
  {
    [Region(UPAGES, 0, KERNLINK - UPAGES, PTE_W),
     Region(KERNLINK, KERNLINK - UPAGES, data - KERNLINK, 0),
     Region(data, data - UPAGES, PHYSEND - data, PTE_W),
     Region(DEVSPACE, DEVSPACE, VPAGES - DEVSPACE, PTE_W)]
  }

  /** The kernel half of every address space as a flat map. */
  function KernelPte(data: nat, v: nat): u32
    requires v < VPAGES
  {
    if UPAGES <= v < PHYSEND then Pte(v - UPAGES, if KERNLINK <= v < data then 0 else PTE_W)
    else if DEVSPACE <= v then Pte(v, PTE_W)
    else 0
  }
}
