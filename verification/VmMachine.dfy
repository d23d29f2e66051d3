/** xv6/vm.c, xv6/kalloc.c and sys_pgcnt of xv6/sysproc.c: loops over page tables rewritten in place. */
module VmMachine {
  import opened Commons
  import opened Blocks
  import opened VmSpec
  import opened VmRanges
  import opened VmAccess

  /** mappages: done, out of memory, or the panic "remap". */
  datatype MapResult = Mapped | NoMemory | Remap

  class Machine {
    var vm: Vm
    ghost var owner: seq<Owner>

    ghost predicate Valid()
      reads this
    {
      Inv(vm, owner)
    }

    ghost predicate IsDir(d: nat)
      reads this
    {
      d < |owner| && owner[d] == Dir
    }

    /** freerange over the pages in `pages`, in that order; everything else is outside the allocator. */
    constructor (mem: seq<Page>, pages: seq<nat>)
      requires |mem| <= VPAGES && (forall k :: 0 <= k < |pages| ==> 0 < pages[k] < |mem|)
      requires forall j, k :: 0 <= j < k < |pages| ==> pages[j] != pages[k]
      ensures Valid() && |vm.mem| == |mem| && |vm.free| == |pages|
      ensures forall f :: 0 <= f < |mem| ==> owner[f] == if f in pages then FreePage else Outside
    {
      vm := Vm(mem, []);
      owner := seq(|mem|, f => Outside);
      new;
      for k := 0 to |pages|
        invariant Inv(vm, owner) && |vm.mem| == |mem| && |vm.free| == k
        invariant forall f :: 0 <= f < |mem| ==> owner[f] == if f in pages[..k] then FreePage else Outside
      {
        assert pages[k] !in pages[..k];
        Outsider(vm, owner, pages[k]);
        owner := owner[pages[k] := Held];
        Kfree(pages[k]);
        assert pages[..k + 1] == pages[..k] + [pages[k]];
      }
      assert pages[..|pages|] == pages;
    }

    method Kalloc() returns (r: Option<nat>)
      requires Valid()
      modifies this
      ensures Valid()
      ensures r.None? <==> old(vm).free == []
      ensures r.None? ==> vm == old(vm) && owner == old(owner)
      ensures r.Some? ==> r.value == old(vm).free[0] && r.value < |old(owner)| && old(owner)[r.value] == FreePage
      ensures r.Some? ==> vm == old(vm).(free := old(vm).free[1..]) && owner == old(owner)[r.value := Held]
    {
      if vm.free == [] {
        return None;
      }
      Pop(vm, owner);
      var f := vm.free[0];
      vm := vm.(free := vm.free[1..]);
      owner := owner[f := Held];
      return Some(f);
    }

    method Kfree(f: nat)
      requires Valid() && f < |owner| && owner[f] == Held
      modifies this
      ensures Valid()
      ensures vm == old(vm).(mem := old(vm).mem[f := JunkPage()], free := [f] + old(vm).free)
      ensures owner == old(owner)[f := FreePage] && OthersSame(old(vm).mem, vm.mem, old(owner), -1)
    {
      WriteData(vm, owner, f, JunkPage());
      vm := vm.(mem := vm.mem[f := JunkPage()]);
      Push(vm, owner, f);
      vm := vm.(free := [f] + vm.free);
      owner := owner[f := FreePage];
    }

    /** walkpgdir: the page-table page for virtual page v. */
    method Walk(d: nat, v: nat, alloc: bool) returns (t: Option<nat>)
      requires Valid() && IsDir(d) && v < VPAGES
      modifies this
      ensures Valid() && IsDir(d) && Claimed(old(owner), owner, d, 0, 0)
      ensures OthersSame(old(vm).mem, vm.mem, old(owner), -1) && DataKept(old(vm).mem, old(owner), vm.mem, owner)
      ensures t.None? ==> vm == old(vm) && owner == old(owner) && !Present(vm.mem[d].words[v / ENTRIES])
      ensures t.None? ==> !alloc || vm.free == []
      ensures t.Some? ==> Present(vm.mem[d].words[v / ENTRIES]) && t.value == Frame(vm.mem[d].words[v / ENTRIES])
      ensures t.Some? && !alloc ==> vm == old(vm) && owner == old(owner)
      ensures Spent(old(vm), vm, d, v / ENTRIES, 0)
    {
      hide Inv, Flat;
      var i := v / ENTRIES;
      SameAll(vm, owner);
      if Present(vm.mem[d].words[i]) {
        return Some(Frame(vm.mem[d].words[i]));
      }
      if !alloc {
        return None;
      }
      var k := Kalloc();
      if k.None? {
        return None;
      }
      var f := k.value;
      ghost var owner1 := owner;
      WriteData(vm, owner, f, ZeroPage());
      vm := vm.(mem := vm.mem[f := ZeroPage()]);
      FrameFits(vm, owner);
      PteFields(f, PTE_P + PTE_W + PTE_U);
      AttachTable(vm, owner, d, i, f, Pte(f, PTE_P + PTE_W + PTE_U));
      ghost var m1 := vm.mem;
      vm := vm.(mem := SetWord(vm.mem, d, i, Pte(f, PTE_P + PTE_W + PTE_U)));
      owner := owner[f := Table(d, i)];
      SameTwice(old(vm).mem, m1, vm.mem, old(owner), owner1);
      return Some(f);
    }

    /** The body of mappages' loop: entry w for virtual page v. */
    method MapOne(d: nat, v: nat, w: u32) returns (r: MapResult)
      requires Valid() && IsDir(d) && v < VPAGES && Present(w)
      requires v < UPAGES ==> Frame(w) < |owner| && owner[Frame(w)] == Held
      modifies this
      ensures Valid() && IsDir(d) && OthersSame(old(vm).mem, vm.mem, old(owner), d)
        && DataKept(old(vm).mem, old(owner), vm.mem, owner)
      ensures r == Mapped && v < UPAGES ==>
        |owner| == |old(owner)| && owner[Frame(w)] == User(d, v)
          && Claimed(old(owner), owner[Frame(w) := Held], d, 0, 0) && vm.mem[Frame(w)] == old(vm).mem[Frame(w)]
      ensures !(r == Mapped && v < UPAGES) ==> Claimed(old(owner), owner, d, 0, 0)
      ensures forall u: nat :: u < VPAGES ==>
        Flat(vm.mem, d, u) == if r == Mapped && u == v then w else Flat(old(vm).mem, d, u)
      ensures r == NoMemory ==>
        vm == old(vm) && owner == old(owner) && vm.free == [] && !Present(vm.mem[d].words[v / ENTRIES])
      ensures Spent(old(vm), vm, d, v / ENTRIES, 0) && (r != NoMemory ==> Present(vm.mem[d].words[v / ENTRIES]))
      ensures r == Remap <==> Present(Flat(old(vm).mem, d, v))
    {
      hide Inv, Flat;
      SameAll(vm, owner);
      var t := Walk(d, v, true);
      assert SameFlat(old(vm).mem, vm.mem, d);
      if t.None? {
        WalkReads(vm, owner, d, v);
        return NoMemory;
      }
      TableAt(vm, owner, d, v);
      if Present(vm.mem[t.value].words[v % ENTRIES]) {
        return Remap;
      }
      ghost var m1, owner1 := vm.mem, owner;
      MapEntry(vm, owner, d, v, w);
      SetEntry(vm, owner, d, v, w);
      vm := vm.(mem := SetWord(vm.mem, t.value, v % ENTRIES, w));
      if v < UPAGES {
        owner := owner[Frame(w) := User(d, v)];
        assert owner[Frame(w) := Held] == owner1;
      }
      OthersTwice(old(vm).mem, m1, vm.mem, old(owner), owner1, d);
      return Mapped;
    }

    /** mappages: n pages from virtual page v to physical page pfn on.  User callers map
        one page, which they hold. */
    method Mappages(d: nat, v: nat, n: nat, pfn: nat, perm: nat) returns (r: MapResult)
      requires Valid() && IsDir(d) && 0 < n && v + n <= VPAGES && pfn + n <= VPAGES && perm < PGSIZE
      requires v < UPAGES ==> n == 1 && pfn < |owner| && owner[pfn] == Held
      modifies this
      ensures Valid() && IsDir(d) && OthersSame(old(vm).mem, vm.mem, old(owner), d)
        && DataKept(old(vm).mem, old(owner), vm.mem, owner)
      ensures r == Mapped && v < UPAGES ==>
        |owner| == |old(owner)| && owner[pfn] == User(d, v) && Claimed(old(owner), owner[pfn := Held], d, 0, 0)
          && vm.mem[pfn] == old(vm).mem[pfn]
      ensures !(r == Mapped && v < UPAGES) ==> Claimed(old(owner), owner, d, 0, 0)
      ensures r == Mapped ==> forall u: nat :: u < VPAGES ==>
        Flat(vm.mem, d, u) == if v <= u < v + n then Pte(pfn + u - v, perm) else Flat(old(vm).mem, d, u)
      ensures r != Mapped ==> forall u: nat :: u < VPAGES && !(v <= u < v + n && v >= UPAGES) ==>
        Flat(vm.mem, d, u) == Flat(old(vm).mem, d, u)
      ensures r == NoMemory ==> vm.free == [] && (v < UPAGES ==> vm == old(vm) && owner == old(owner))
      ensures Walked(old(vm), vm, d, v / ENTRIES, (v + n - 1) / ENTRIES)
      ensures r == Mapped ==> forall i :: v / ENTRIES <= i <= (v + n - 1) / ENTRIES ==> Present(vm.mem[d].words[i])
      ensures r == NoMemory ==> exists i :: v / ENTRIES <= i <= (v + n - 1) / ENTRIES && !Present(vm.mem[d].words[i])
      ensures r == Remap ==> exists u: nat :: v <= u < v + n && Present(Flat(old(vm).mem, d, u))
    {
      hide Inv, Flat, Pte, Missing, OthersSame, DataKept, Spent, TablesRun;
      SameAll(vm, owner);
      WalkedNone(vm, d, v / ENTRIES, (v + n - 1) / ENTRIES);
      var k := 0;
      while true
        invariant Valid() && IsDir(d) && k < n && (v < UPAGES ==> k == 0 && vm == old(vm) && owner == old(owner))
        invariant OthersSame(old(vm).mem, vm.mem, old(owner), d) && DataKept(old(vm).mem, old(owner), vm.mem, owner)
        invariant Claimed(old(owner), owner, d, 0, 0) && Walked(old(vm), vm, d, v / ENTRIES, (v + n - 1) / ENTRIES)
        invariant TablesRun(vm.mem, d, v, k) && MappedRun(old(vm).mem, vm.mem, d, v, k, pfn, perm)
        decreases n - k
      {
        ghost var vm1, m1, owner1 := vm, vm.mem, owner;
        PteFields(pfn + k, perm);
        r := MapOne(d, v + k, Pte(pfn + k, perm));
        WalkedMore(old(vm), vm1, vm, d, v / ENTRIES, (v + n - 1) / ENTRIES, (v + k) / ENTRIES);
        OthersTwice(old(vm).mem, m1, vm.mem, old(owner), owner1, d);
        KeptTwice(old(vm).mem, old(owner), m1, owner1, vm.mem, owner, d);
        MappedMore(old(vm).mem, m1, vm.mem, d, v, k, pfn, perm, r == Mapped);
        if r == Mapped { TablesMore(vm1, vm, d, v, k); }
        if r != Mapped || k == n - 1 {
          if r == Mapped { TablesAll(vm.mem, d, v, n); }
          return;
        }
        k := k + 1;
      }
    }

    /** deallocuvm, for the sizes its callers pass: at most KERNBASE. */
    method Deallocuvm(d: nat, oldsz: nat, newsz: nat) returns (r: nat)
      requires Valid() && IsDir(d) && oldsz <= UPAGES * PGSIZE
      modifies this
      ensures Valid() && IsDir(d) && r == if newsz >= oldsz then oldsz else newsz
      ensures Shrunk(old(vm), old(owner), vm, owner, d, PagesOf(newsz), PagesOf(oldsz))
      ensures Vanished(old(vm).mem, vm.mem, d, newsz, oldsz)
    {
      hide Vanished, Access, PagesOf;
      r := DeallocPages(d, oldsz, newsz);
      ShrunkVanishes(old(vm), old(owner), vm, owner, d, newsz, oldsz);
    }

    /** Its body, page by page. */
    method DeallocPages(d: nat, oldsz: nat, newsz: nat) returns (r: nat)
      requires Valid() && IsDir(d) && oldsz <= UPAGES * PGSIZE
      modifies this
      ensures Valid() && IsDir(d) && r == if newsz >= oldsz then oldsz else newsz
      ensures Shrunk(old(vm), old(owner), vm, owner, d, PagesOf(newsz), PagesOf(oldsz))
    {
      hide Inv, Flat, Released, OthersSame, DataKept, UnmappedRange;
      ReleasedNone(vm, owner, d, PagesOf(newsz), PagesOf(oldsz));
      if newsz >= oldsz {
        return oldsz;
      }
      var a := PagesOf(newsz) * PGSIZE;
      ghost var lo, hi := PagesOf(newsz), PagesOf(oldsz);
      ghost var v: nat := lo;
      ReleasedNone(vm, owner, d, lo, lo);
      while a < oldsz
        invariant a % PGSIZE == 0 && lo <= v <= hi && v == (if a / PGSIZE < hi then a / PGSIZE else hi) && Valid()
          && IsDir(d)
        invariant Shrunk(old(vm), old(owner), vm, owner, d, lo, v)
      {
        ghost var vm1, owner1, v1 := vm, owner, v;
        a, v := DeallocStep(d, a, hi);
        ShrunkTwice(old(vm), old(owner), vm1, owner1, vm, owner, d, lo, v1, v);
        a := a + PGSIZE;
      }
      r := newsz;
    }

    /** The body of deallocuvm's loop; pages up to v' are dealt with, a skips a missing table. */
    method DeallocStep(d: nat, a0: nat, ghost hi: nat) returns (a: nat, ghost v': nat)
      requires Valid() && IsDir(d) && a0 % PGSIZE == 0 && a0 / PGSIZE < hi <= UPAGES
      modifies this
      ensures Valid() && IsDir(d) && a >= a0 && (a + PGSIZE) % PGSIZE == 0
      ensures a0 / PGSIZE < v' <= hi && v' == if (a + PGSIZE) / PGSIZE < hi then (a + PGSIZE) / PGSIZE else hi
      ensures Shrunk(old(vm), old(owner), vm, owner, d, a0 / PGSIZE, v')
    {
      hide Inv, Flat;
      a := a0;
      ghost var v := a / PGSIZE;
      SameAll(vm, owner);
      v' := v + 1;
      var t := Walk(d, a / PGSIZE, false);
      if t.None? {
        SkipTable(vm, owner, d, v);
        SkipArithmetic(v);
        v' := if (v / ENTRIES + 1) * ENTRIES < hi then (v / ENTRIES + 1) * ENTRIES else hi;
        NothingMapped(vm, owner, d, v, v');
        a := (a / (ENTRIES * PGSIZE) + 1) * (ENTRIES * PGSIZE) - PGSIZE;
      } else {
        TableAt(vm, owner, d, v);
        if Present(vm.mem[t.value].words[a / PGSIZE % ENTRIES]) {
          OnlyOne(vm, owner, d, v);
          UnmapUser(d, a / PGSIZE, t.value);
        } else {
          NothingMapped(vm, owner, d, v, v');
        }
      }
    }

    /** kfree(v); *pte = 0 */
    method UnmapUser(d: nat, v: nat, t: nat)
      requires Valid() && IsDir(d) && v < UPAGES && Present(vm.mem[d].words[v / ENTRIES])
        && t == Frame(vm.mem[d].words[v / ENTRIES])
      requires t < |vm.mem| && vm.mem[t].words[v % ENTRIES] == Flat(vm.mem, d, v) && Present(Flat(vm.mem, d, v))
      modifies this
      ensures Valid() && IsDir(d) && Frame(Flat(old(vm).mem, d, v)) < |old(owner)|
        && old(owner)[Frame(Flat(old(vm).mem, d, v))] == User(d, v)
      ensures owner == old(owner)[Frame(Flat(old(vm).mem, d, v)) := FreePage]
      ensures forall u: nat :: u < VPAGES ==> Flat(vm.mem, d, u) == if u == v then 0 else Flat(old(vm).mem, d, u)
      ensures OthersSame(old(vm).mem, vm.mem, old(owner), d) && DataKept(old(vm).mem, old(owner), vm.mem, owner)
    {
      hide Inv, Flat;
      var f := Frame(vm.mem[t].words[v % ENTRIES]);
      SetEntry(vm, owner, d, v, 0);
      UnmapEntry(vm, owner, d, v);
      ghost var owner0 := owner;
      vm := vm.(mem := SetWord(vm.mem, t, v % ENTRIES, 0));
      owner := owner[f := Held];
      ghost var m1 := vm.mem;
      WriteData(vm, owner, f, JunkPage());
      Kfree(f);
      assert SameFlat(m1, vm.mem, d);
      OthersAfter(old(vm).mem, m1, vm.mem, owner0, owner, d);
    }

    /** kalloc, fill, mappages: what allocuvm and copyuvm do for one page.  On failure the caller is
        left holding the page, if there was one. */
    method MapFresh(d: nat, v: nat, page: Page, flags: nat) returns (ok: bool, held: Option<nat>)
      requires Valid() && IsDir(d) && v < UPAGES && flags < PGSIZE && flags % 2 == 1 && !Present(Flat(vm.mem, d, v))
      modifies this
      ensures Valid() && IsDir(d) && (ok ==> held.None?)
      ensures ok ==> Grown(old(vm), old(owner), vm, owner, d, v, [Image(page, flags)])
      ensures ok ==> Present(vm.mem[d].words[v / ENTRIES])
      ensures ok ==> old(vm).free != [] && Walked(old(vm).(free := old(vm).free[1..]), vm, d, v / ENTRIES, v / ENTRIES)
      ensures !ok && held.None? ==> vm == old(vm) && owner == old(owner) && vm.free == []
      ensures !ok ==> OthersSame(old(vm).mem, vm.mem, old(owner), -1)
      ensures held.Some? ==>
        held.value < |old(owner)| && old(owner)[held.value] == FreePage && owner == old(owner)[held.value := Held]
      ensures held.Some? ==>
        vm == Vm(old(vm).mem[held.value := page], []) && |old(vm).free| == 1 && !Present(vm.mem[d].words[v / ENTRIES])
    {
      hide Inv, Flat, Pte, Missing;
      SameAll(vm, owner);
      var k := Kalloc();
      if k.None? {
        return false, None;
      }
      var f := k.value;
      ghost var owner1, vm1 := owner, vm;
      WriteData(vm, owner, f, page);
      vm := vm.(mem := vm.mem[f := page]);
      assert SameFlat(old(vm).mem, vm.mem, d);
      FrameFits(vm, owner);
      ghost var vm2 := vm;
      PteFields(f, flags);
      var r := Mappages(d, v, 1, f, flags);
      if r != Mapped {
        return false, Some(f);
      }
      GrownOne(old(vm), old(owner), owner1, vm2, vm, owner, d, v, f, Image(page, flags));
      return true, None;
    }

    /** allocuvm; `ok` tells the error value 0 from a size of 0.  It succeeds exactly when the free list
        holds a page for every new page and every missing page table. */
    method Allocuvm(d: nat, oldsz: nat, newsz: nat) returns (r: nat, ghost ok: bool)
      requires Valid() && IsDir(d)
      requires forall u: nat :: PagesOf(oldsz) <= u < PagesOf(newsz) && u < UPAGES ==> !Present(Flat(vm.mem, d, u))
      modifies this
      ensures Valid() && IsDir(d)
      ensures newsz >= UPAGES * PGSIZE ==> !ok && r == 0 && vm == old(vm) && owner == old(owner)
      ensures newsz < UPAGES * PGSIZE && newsz < oldsz ==> ok && r == oldsz && vm == old(vm) && owner == old(owner)
      ensures oldsz <= newsz < UPAGES * PGSIZE ==>
        (ok <==>
          |old(vm).free| >=
          PagesOf(newsz) - PagesOf(oldsz) + TablesFor(old(vm).mem[d].words, PagesOf(oldsz), PagesOf(newsz)))
      ensures oldsz <= newsz < UPAGES * PGSIZE && ok ==>
        r == newsz && Grown(old(vm), old(owner), vm, owner, d, PagesOf(oldsz),
          ZeroImages(PagesOf(newsz) - PagesOf(oldsz)))
      ensures oldsz <= newsz < UPAGES * PGSIZE && ok ==>
        && ZeroFilled(old(vm), old(owner), vm, d, oldsz, newsz)
        && |UserPages(vm.mem, d, VPAGES)| ==
           |UserPages(old(vm).mem, d, VPAGES)| + PagesOf(newsz) - PagesOf(oldsz)
      ensures oldsz <= newsz && !ok ==>
        r == 0 && Undone(old(vm), old(owner), vm, owner, d, PagesOf(oldsz), PagesOf(newsz))
    {
      hide Inv, Flat, Missing, Grown, Shrunk, Undone, Walked, ZeroFilled, UserPages;
      ok, r := false, 0;
      UndoneNone(vm, owner, d, PagesOf(oldsz), PagesOf(newsz));
      if newsz >= UPAGES * PGSIZE {
        return;
      }
      if newsz < oldsz {
        return oldsz, true;
      }
      ghost var lo, hi := PagesOf(oldsz), PagesOf(newsz);
      ghost var p, q := lo / ENTRIES, (hi + ENTRIES - 1) / ENTRIES;
      var a := PagesOf(oldsz) * PGSIZE;
      GrownNone(vm, owner, d, lo);
      FrameFits(vm, owner);
      assert ZeroImages(0) == [];
      while a < newsz
        invariant a % PGSIZE == 0 && lo <= a / PGSIZE <= hi && Valid() && IsDir(d) && d < |vm.mem| == |old(vm).mem|
        invariant Grown(old(vm), old(owner), vm, owner, d, lo, ZeroImages(a / PGSIZE - lo))
        invariant Slack(vm, d, p, q) + a / PGSIZE - lo == Slack(old(vm), d, p, q)
        invariant forall i :: p <= i < q && i * ENTRIES < a / PGSIZE ==> a / PGSIZE == lo || Present(vm.mem[d].words[i])
      {
        ghost var vm1, owner1, v := vm, owner, a / PGSIZE;
        GrownOutside(old(vm), old(owner), vm, owner, d, lo, ZeroImages(v - lo), v);
        var done, held := MapFresh(d, a / PGSIZE, ZeroPage(), PTE_W + PTE_U + PTE_P);
        if !done {
          NoSlack(vm1, d, p, q, v / ENTRIES);
          OutOfMemory(d, oldsz, newsz, held, vm1, owner1);
          GrownShrunk(old(vm), old(owner), vm1, owner1, vm, owner, d, lo, hi, ZeroImages(v - lo));
          return;
        }
        GrownMore(old(vm), old(owner), vm1, owner1, vm, owner, d, lo, ZeroImages(v - lo), Image(ZeroPage(), 7));
        assert ZeroImages(v - lo) + [Image(ZeroPage(), 7)] == ZeroImages(v + 1 - lo);
        WalkedOne(vm1, vm, d, v / ENTRIES, p, q);
        a := a + PGSIZE;
      }
      if lo < hi {
        MissingAll(vm.mem[d].words, p, q, true);
      }
      GrownZero(old(vm), old(owner), vm, owner, d, oldsz, newsz);
      GrownCount(old(vm), old(owner), vm, owner, d, lo, hi - lo);
      return newsz, true;
    }

    /** allocuvm's way out: give back what it mapped, then the page it could not map. */
    method OutOfMemory(d: nat, oldsz: nat, newsz: nat, held: Option<nat>, ghost vm1: Vm, ghost owner1: seq<Owner>)
      requires Valid() && IsDir(d) && newsz <= UPAGES * PGSIZE && d < |owner1| == |vm1.mem| == |vm.mem|
        && owner1[d] == Dir
      requires OthersSame(vm1.mem, vm.mem, owner1, -1) && (held.None? ==> vm == vm1 && owner == owner1)
      requires held.Some? ==>
        held.value < |owner1| && owner1[held.value] == FreePage && owner == owner1[held.value := Held]
      requires held.Some? ==> vm.mem == vm1.mem[held.value := ZeroPage()]
      modifies this
      ensures Valid() && IsDir(d) && Shrunk(vm1, owner1, vm, owner, d, PagesOf(oldsz), PagesOf(newsz))
    {
      hide Inv, Flat, Shrunk;
      ghost var lo, hi := PagesOf(oldsz), PagesOf(newsz);
      ghost var vm3, owner3 := vm, owner;
      var _ := Deallocuvm(d, newsz, oldsz);
      if held.Some? {
        ghost var vm4, owner4 := vm, owner;
        StillHeld(vm3, owner3, vm4, owner4, d, lo, hi, held.value);
        Kfree(held.value);
        ShrunkHeld(vm1, owner1, vm3, owner3, vm4, owner4, vm, owner, d, lo, hi, held.value, ZeroPage());
      }
    }

    /** freevm: user pages, page tables and the directory itself go back to the free list. */
    method Freevm(d: nat)
      requires Valid() && IsDir(d)
      modifies this
      ensures Valid() && owner == Freed(old(owner), d)
      ensures OthersSame(old(vm).mem, vm.mem, old(owner), d) && DataKept(old(vm).mem, old(owner), vm.mem, owner)
    {
      hide Inv, Flat, DataKept, OthersSame;
      var _ := Deallocuvm(d, UPAGES * PGSIZE, 0);
      FreedIs(old(vm), old(owner), d);
      ghost var vm1, owner1 := vm, owner;
      NoUserPages(old(vm), vm, d);
      Retire(vm, owner, d);
      DownNone(vm, owner, d);
      owner := Dismantled(owner, d, 0);
      for i := 0 to ENTRIES
        invariant Valid() && Down(vm1, owner1, vm, owner, d, i)
      {
        DismantleEntry(vm1, owner1, d, i);
        if Present(vm.mem[d].words[i]) {
          ghost var vm2, owner2 := vm, owner;
          Kfree(Frame(vm.mem[d].words[i]));
          DownMore(vm1, owner1, vm2, owner2, vm, owner, d, i);
        }
      }
      ghost var vm2 := vm;
      Kfree(d);
      DownAll(old(vm), old(owner), vm1, owner1, vm2, vm, owner, d);
    }

    /** setupkvm: it needs exactly KVMPAGES free pages, and takes none if it cannot have them all. */
    method Setupkvm(data: nat) returns (r: Option<nat>)
      requires Valid() && KERNLINK < data < PHYSEND
      modifies this
      ensures Valid()
      ensures r.Some? <==> |old(vm).free| >= KVMPAGES
      ensures r.Some? ==> IsDir(r.value) && NewSpace(old(vm), old(owner), vm, owner, r.value, data)
      ensures r.Some? ==>
        r.value < |vm.mem| && KernelMapped(vm.mem, r.value, data) && EmptyFrom(vm.mem, r.value, 0)
      ensures r.Some? ==> |vm.free| == |old(vm).free| - KVMPAGES
      ensures r.None? ==>
        && owner == old(owner) && OthersSame(old(vm).mem, vm.mem, owner, -1)
        && DataKept(old(vm).mem, old(owner), vm.mem, owner)
    {
      hide Inv, Flat, KernelPte, Pte, Missing, Walked, InSetup, NewSpace, KernelMapped, EmptyFrom;
      SameAll(vm, owner);
      var p := Kalloc();
      if p.None? {
        return None;
      }
      var d := p.value;
      ghost var owner1 := owner;
      WriteData(vm, owner, d, ZeroPage());
      vm := vm.(mem := vm.mem[d := ZeroPage()]);
      NewDir(vm, owner, d);
      owner := owner[d := Dir];
      ghost var vm0, owner0 := vm, owner;
      assert owner0 == old(owner)[d := Dir];
      SetupStart(vm, owner, d, data);
      var kmap := KernelMap(data);
      for k := 0 to |kmap|
        invariant Valid() && IsDir(d) && InSetup(vm0, owner0, vm, owner, d, data, k)
      {
        ghost var vm1, owner1 := vm, owner;
        SetupFree(vm0, owner0, vm, owner, d, data, k);
        var m := Mappages(d, kmap[k].virt, kmap[k].n, kmap[k].pfn, kmap[k].perm);
        if m != Mapped {
          SetupShort(vm0, owner0, vm1, owner1, vm, owner, d, data, k);
          ghost var vm2, owner2 := vm, owner;
          FreedRestores(old(vm), old(owner), owner, d, 0, 0);
          Freevm(d);
          SetupUndone(old(vm), old(owner), vm0, vm2, owner2, vm, d);
          return None;
        }
        SetupStep(vm0, owner0, vm1, owner1, vm, owner, d, data, k);
      }
      SetupDone(old(vm), old(owner), vm0, vm, owner, d, data);
      FrameFits(vm, owner);
      NewSpaceIs(old(vm), old(owner), vm, owner, d, data);
      return Some(d);
    }

    /** copyuvm: the child's pages are fresh frames with the parent's bytes and flags.  It succeeds exactly
        when there is a free page for the kernel half, for each user page and for each table over them;
        otherwise every page it took is free again. */
    method Copyuvm(src: nat, sz: nat, data: nat) returns (r: Option<nat>)
      requires Valid() && IsDir(src) && sz <= UPAGES * PGSIZE && KERNLINK < data < PHYSEND
      requires forall u: nat :: u < PagesOf(sz) ==> Present(Flat(vm.mem, src, u))
      modifies this
      ensures Valid()
      ensures r.Some? <==> |old(vm).free| >= KVMPAGES + PagesOf(sz) + (PagesOf(sz) + ENTRIES - 1) / ENTRIES
      ensures r.Some? ==> IsDir(r.value) && CopiedSpace(old(vm), old(owner), vm, owner, src, r.value, PagesOf(sz), data)
      ensures r.Some? ==>
        && r.value < |vm.mem| && KernelMapped(vm.mem, r.value, data) && EmptyFrom(vm.mem, r.value, sz)
        && forall u: nat :: u < VPAGES && u * PGSIZE < sz ==> CopiedPage(old(vm).mem, src, vm.mem, r.value, u)
      ensures r.None? ==>
        && owner == old(owner) && OthersSame(old(vm).mem, vm.mem, owner, -1)
        && DataKept(old(vm).mem, old(owner), vm.mem, owner)
    {
      hide Inv, Flat, KernelPte, Missing, Slack, Walked, Grown, NewSpace, CopiedSpace, Images, ImageAt, DataKept,
        OthersSame, Claimed, OwnerOk, Present, Flags, KernelMapped, EmptyFrom, CopiedPage;
      FrameFits(vm, owner);
      var child := Setupkvm(data);
      if child.None? {
        return None;
      }
      var d := child.value;
      ghost var vm1, owner1, n := vm, owner, PagesOf(sz);
      ghost var q := (n + ENTRIES - 1) / ENTRIES;
      CopyStart(old(vm), old(owner), vm, owner, src, d, data, q);
      var a := 0;
      while a < sz
        invariant a % PGSIZE == 0 && a / PGSIZE <= n && Valid() && IsDir(d) && d < |vm.mem| == |owner|
        invariant Grown(vm1, owner1, vm, owner, d, 0, Images(old(vm).mem, src, a / PGSIZE))
        invariant Slack(vm, d, 0, q) + a / PGSIZE == |vm1.free| - q
        invariant forall i :: 0 <= i < q && i * ENTRIES < a / PGSIZE ==> Present(vm.mem[d].words[i])
      {
        ghost var vm2, owner2, v := vm, owner, a / PGSIZE;
        CopySource(old(vm), old(owner), vm1, owner1, vm, owner, src, d, data, v);
        var pte := ReadEntry(src, a / PGSIZE);
        FlagsOdd(pte);
        var done, held := MapFresh(d, a / PGSIZE, vm.mem[Frame(pte)], Flags(pte));
        if !done {
          NoSlack(vm2, d, 0, q, v / ENTRIES);
          CopyShort(old(vm), old(owner), vm1, owner1, vm2, owner2, d, data, Images(old(vm).mem, src, v));
          AbandonCopy(d, held, old(vm), old(owner), vm2, owner2, v);
          return None;
        }
        GrownMore(vm1, owner1, vm2, owner2, vm, owner, d, 0, Images(old(vm).mem, src, v), ImageAt(old(vm).mem, src, v));
        ImagesMore(old(vm).mem, src, v);
        WalkedOne(vm2, vm, d, v / ENTRIES, 0, q);
        FrameFits(vm, owner);
        a := a + PGSIZE;
      }
      CopyEnough(vm, d, q);
      CopyDone(old(vm), old(owner), vm1, owner1, vm, owner, src, d, data, n);
      CopySpaceIs(old(vm), old(owner), vm, owner, src, d, sz, data);
      return Some(d);
    }

    /** copyuvm's label `bad`; vm0 and o0 are the state before the copy, vm2 and owner2 before the failed page. */
    method AbandonCopy(d: nat, held: Option<nat>, ghost vm0: Vm, ghost o0: seq<Owner>, ghost vm2: Vm,
      ghost owner2: seq<Owner>, ghost n: nat)
      requires Valid() && IsDir(d) && Inv(vm0, o0) && d < |o0| == |owner2| == |vm0.mem| == |vm2.mem| == |vm.mem|
        && o0[d] == FreePage
      requires Claimed(o0[d := Dir], owner2, d, 0, n) && OthersSame(vm0.mem, vm2.mem, o0, d)
        && DataKept(vm0.mem, o0, vm2.mem, owner2)
      requires OthersSame(vm2.mem, vm.mem, owner2, -1) && (held.None? ==> vm == vm2 && owner == owner2)
      requires held.Some? ==>
        held.value < |owner2| && owner2[held.value] == FreePage && owner == owner2[held.value := Held]
      requires held.Some? ==> forall g :: 0 <= g < |vm.mem| && g != held.value ==> vm.mem[g] == vm2.mem[g]
      modifies this
      ensures Valid() && owner == o0 && OthersSame(vm0.mem, vm.mem, o0, -1) && DataKept(vm0.mem, o0, vm.mem, o0)
    {
      hide Inv, Flat, JunkPage;
      if held.Some? {
        ghost var vm3 := vm;
        Kfree(held.value);
        BackToBefore(vm2, owner2, vm3, vm, owner, held.value);
      }
      ghost var vm4 := vm;
      FreedRestores(vm0, o0, owner, d, 0, n);
      Freevm(d);
      CopyUndone(vm0, o0, vm2, owner2, vm4, vm, d, n);
    }

    /** *walkpgdir(src, v, 0), for a mapped page. */
    method ReadEntry(src: nat, v: nat) returns (pte: u32)
      requires Valid() && IsDir(src) && v < VPAGES && src < |vm.mem| && Present(Flat(vm.mem, src, v))
      modifies this
      ensures vm == old(vm) && owner == old(owner) && pte == Flat(vm.mem, src, v)
    {
      hide Inv, Flat;
      WalkPresent(vm, owner, src, v);
      var t := Walk(src, v, false);
      TableAt(vm, owner, src, v);
      pte := vm.mem[t.value].words[v % ENTRIES];
    }

    /** clearpteu; None is its panic, when there is no page table. */
    method Clearpteu(d: nat, v: nat) returns (r: Option<()>)
      requires Valid() && IsDir(d) && v < VPAGES
      modifies this
      ensures Valid() && owner == old(owner) && vm.free == old(vm).free
      ensures r.None? <==> !Present(old(vm).mem[d].words[v / ENTRIES])
      ensures r.None? ==> vm == old(vm)
      ensures OthersSame(old(vm).mem, vm.mem, old(owner), d) && DataKept(old(vm).mem, old(owner), vm.mem, owner)
      ensures r.Some? ==> forall u: nat :: u < VPAGES ==>
        Flat(vm.mem, d, u) == if u == v then WithoutUser(Flat(old(vm).mem, d, v)) else Flat(old(vm).mem, d, u)
      ensures r.Some? ==>
        && UserBarred(old(vm).mem, vm.mem, d, v)
        && forall u: nat :: u < VPAGES && u != v ==> PageKept(old(vm).mem, vm.mem, d, u)
    {
      hide Inv, Flat, UserBarred, PageKept;
      SameAll(vm, owner);
      var t := Walk(d, v, false);
      if t.None? {
        return None;
      }
      TableAt(vm, owner, d, v);
      var w := WithoutUser(vm.mem[t.value].words[v % ENTRIES]);
      WithoutUserFields(vm.mem[t.value].words[v % ENTRIES]);
      SetEntry(vm, owner, d, v, w);
      EntryInv(vm, vm.(mem := SetWord(vm.mem, t.value, v % ENTRIES, w)), owner, owner, d, v, w);
      vm := vm.(mem := SetWord(vm.mem, t.value, v % ENTRIES, w));
      FrameFits(vm, owner);
      Cleared(old(vm), vm, owner, d, v);
      return Some(());
    }

    /** sys_pgcnt: the number of present, user-accessible pages of the flat map. */
    method Pgcnt(d: nat) returns (cnt: nat)
      requires Valid() && IsDir(d)
      ensures cnt == |UserPages(vm.mem, d, VPAGES)|
      ensures forall v: nat :: v < VPAGES ==> (v in UserPages(vm.mem, d, VPAGES) <==> Access(vm.mem, d, v, true, false))
    {
      hide Inv, Flat, Accessible, Access, UserPages;
      FrameFits(vm, owner);
      forall v: nat | v < VPAGES ensures v in UserPages(vm.mem, d, VPAGES) <==> Access(vm.mem, d, v, true, false) {
        UserPagesAre(vm, owner, d, v);
      }
      cnt := 0;
      UserPagesNone(vm.mem, d);
      for i := 0 to ENTRIES
        invariant cnt == |UserPages(vm.mem, d, i * ENTRIES)|
      {
        if Present(vm.mem[d].words[i]) {
          TableOf(vm, owner, d, i);
          var t := Frame(vm.mem[d].words[i]);
          for j := 0 to ENTRIES
            invariant cnt == |UserPages(vm.mem, d, i * ENTRIES + j)|
          {
            FlatAt(vm.mem, d, i, j);
            UserPagesMore(vm.mem, d, i * ENTRIES + j);
            if Present(vm.mem[t].words[j]) && UserOk(vm.mem[t].words[j]) {
              cnt := cnt + 1;
            }
          }
        } else {
          UserPagesSkip(vm.mem, d, i);
        }
      }
    }
  }
}
