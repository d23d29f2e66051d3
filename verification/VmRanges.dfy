/** What the loops of xv6/vm.c do to a range of virtual pages. */
module VmRanges {
  import opened Blocks
  import opened VmSpec

  lemma Outsider(vm: Vm, owner: seq<Owner>, f: nat)
    requires Inv(vm, owner) && 0 < f < |owner| && owner[f] == Outside
    ensures Inv(vm, owner[f := Held])
  {
    hide Flat;
    var now := owner[f := Held];
    forall g | 0 <= g < |owner| ensures OwnerOk(vm, now, g) { assert OwnerOk(vm, owner, g); }
    forall e, j | 0 <= e < |owner| && now[e] == Dir && 0 <= j < ENTRIES ensures DirOk(vm.mem, now, e, j) {
      assert DirOk(vm.mem, owner, e, j);
    }
    forall e, u | 0 <= e < |owner| && now[e] == Dir && 0 <= u < UPAGES ensures UserPageOk(vm.mem, now, e, u) {
      assert UserPageOk(vm.mem, owner, e, u);
    }
  }

  lemma SameAll(vm: Vm, owner: seq<Owner>)
    requires Inv(vm, owner)
    ensures |owner| == |vm.mem| && DataKept(vm.mem, owner, vm.mem, owner)
    ensures forall except: int :: OthersSame(vm.mem, vm.mem, owner, except)
  {
  }

  lemma FrameFits(vm: Vm, owner: seq<Owner>)
    requires Inv(vm, owner)
    ensures |owner| == |vm.mem| <= VPAGES
  {
  }

  lemma SameTwice(m: seq<Page>, n: seq<Page>, p: seq<Page>, owner: seq<Owner>, owner1: seq<Owner>)
    requires OthersSame(m, n, owner1, -1) && OthersSame(n, p, owner1, -1) && |owner| == |owner1|
    requires forall d: nat :: d < |owner| && owner[d] == Dir ==> owner1[d] == Dir
    ensures OthersSame(m, p, owner, -1)
  {
    hide Flat;
    forall d: nat | d < |owner| && owner[d] == Dir ensures SameFlat(m, p, d) {
      assert SameFlat(m, n, d) && SameFlat(n, p, d);
    }
  }

  lemma WalkReads(vm: Vm, owner: seq<Owner>, d: nat, v: nat)
    requires Inv(vm, owner) && d < |owner| && owner[d] == Dir && v < VPAGES && !Present(vm.mem[d].words[v / ENTRIES])
    ensures Flat(vm.mem, d, v) == 0
  {
  }

  lemma TableAt(vm: Vm, owner: seq<Owner>, d: nat, v: nat)
    requires Inv(vm, owner) && d < |owner| && owner[d] == Dir && v < VPAGES && Present(vm.mem[d].words[v / ENTRIES])
    ensures var t := Frame(vm.mem[d].words[v / ENTRIES]);
      t < |vm.mem| && owner[t] == Table(d, v / ENTRIES) && vm.mem[t].words[v % ENTRIES] == Flat(vm.mem, d, v)
  {
    TableOf(vm, owner, d, v / ENTRIES);
  }

  lemma OthersTwice(m: seq<Page>, n: seq<Page>, p: seq<Page>, owner: seq<Owner>, owner1: seq<Owner>, d: nat)
    requires |m| == |n| == |p| == |owner| == |owner1|
    requires OthersSame(m, n, owner, d) || OthersSame(m, n, owner, -1)
    requires OthersSame(n, p, owner1, d)
    requires forall e: nat :: e < |owner| && owner[e] == Dir && e != d ==> owner1[e] == Dir
    ensures OthersSame(m, p, owner, d)
  {
    hide Flat;
    forall e: nat | e < |owner| && owner[e] == Dir && e != d ensures SameFlat(m, p, e) {
      assert SameFlat(m, n, e) && SameFlat(n, p, e);
    }
  }

  lemma KeptTwice(m: seq<Page>, o: seq<Owner>, n: seq<Page>, o1: seq<Owner>, p: seq<Page>, o2: seq<Owner>, d: nat)
    requires DataKept(m, o, n, o1) && DataKept(n, o1, p, o2)
    requires forall f :: 0 <= f < |o| && o2[f] == o[f] && o[f] != FreePage ==> o1[f] == o[f]
    ensures DataKept(m, o, p, o2)
  {
  }

  lemma OthersAfter(m: seq<Page>, n: seq<Page>, p: seq<Page>, owner: seq<Owner>, owner1: seq<Owner>, d: nat)
    requires |m| == |n| == |p| == |owner| == |owner1|
    requires OthersSame(m, n, owner, d)
    requires forall e: nat :: e < |owner| && owner[e] == Dir ==> SameFlat(n, p, e)
    ensures OthersSame(m, p, owner, d)
  {
    hide Flat;
    forall e: nat | e < |owner| && owner[e] == Dir && e != d ensures SameFlat(m, p, e) {
      assert SameFlat(m, n, e) && SameFlat(n, p, e);
    }
  }

  lemma OnlyOne(vm: Vm, owner: seq<Owner>, d: nat, v: nat)
    requires Inv(vm, owner)
    ensures forall g :: 0 <= g < |owner| && owner[g] == User(d, v) ==>
      d < |vm.mem| && v < VPAGES && g == Frame(Flat(vm.mem, d, v))
  {
    hide Flat;
    forall g | 0 <= g < |owner| && owner[g] == User(d, v)
      ensures d < |vm.mem| && v < VPAGES && g == Frame(Flat(vm.mem, d, v))
    {
      assert OwnerOk(vm, owner, g);
    }
  }

  /** Without a page table none of its 1024 pages is mapped. */
  lemma SkipTable(vm: Vm, owner: seq<Owner>, d: nat, v: nat)
    requires Inv(vm, owner) && d < |owner| && owner[d] == Dir && v < UPAGES && !Present(vm.mem[d].words[v / ENTRIES])
    ensures forall u: nat :: v <= u < (v / ENTRIES + 1) * ENTRIES ==> u < UPAGES && Flat(vm.mem, d, u) == 0
  {
    forall u: nat | v <= u < (v / ENTRIES + 1) * ENTRIES ensures u < UPAGES && Flat(vm.mem, d, u) == 0 {
      assert u / 1024 == v / 1024;
    }
  }

  lemma SkipArithmetic(v: nat)
    ensures var a := v * PGSIZE;
      var b := (a / (ENTRIES * PGSIZE) + 1) * (ENTRIES * PGSIZE) - PGSIZE;
      b >= a && (b + PGSIZE) % PGSIZE == 0 && (b + PGSIZE) / PGSIZE == (v / ENTRIES + 1) * ENTRIES
  {
    assert v * 4096 / (1024 * 4096) == v / 1024;
  }

  /** Exactly the mapped pages of [lo, hi) have been unmapped and freed. */
  ghost predicate Shrunk(vm: Vm, o: seq<Owner>, ws: Vm, o': seq<Owner>, d: nat, lo: nat, hi: nat) {
    && o' == Released(o, d, lo, hi) && UnmappedRange(vm.mem, ws.mem, d, lo, hi)
    && OthersSame(vm.mem, ws.mem, o, d) && DataKept(vm.mem, o, ws.mem, o')
  }

  lemma ReleasedNone(vm: Vm, o: seq<Owner>, d: nat, lo: nat, hi: nat)
    requires Inv(vm, o) && d < |o|
    ensures hi <= lo ==> Shrunk(vm, o, vm, o, d, lo, hi)
  {
    hide Flat;
    SameAll(vm, o);
    if hi <= lo { assert Released(o, d, lo, hi) == o; }
  }

  lemma ShrunkTwice(vm: Vm, o: seq<Owner>, ms: Vm, o1: seq<Owner>, ws: Vm, o2: seq<Owner>, d: nat, lo: nat, v: nat,
    hi: nat)
    requires Shrunk(vm, o, ms, o1, d, lo, v) && Shrunk(ms, o1, ws, o2, d, v, hi) && lo <= v <= hi
    ensures Shrunk(vm, o, ws, o2, d, lo, hi)
  {
    hide Flat;
    assert Released(Released(o, d, lo, v), d, v, hi) == Released(o, d, lo, hi);
    OthersTwice(vm.mem, ms.mem, ws.mem, o, o1, d);
    KeptTwice(vm.mem, o, ms.mem, o1, ws.mem, o2, d);
    assert !Present(0);
  }

  /** Pages that are not mapped have no frame to release. */
  lemma NothingMapped(vm: Vm, o: seq<Owner>, d: nat, v: nat, hi: nat)
    requires Inv(vm, o) && d < |o| && v <= hi
    requires forall u: nat :: v <= u < hi ==> u < UPAGES && !Present(Flat(vm.mem, d, u))
    ensures Shrunk(vm, o, vm, o, d, v, hi)
  {
    hide Flat;
    SameAll(vm, o);
    forall f | 0 <= f < |o| ensures !(o[f].User? && o[f].d == d && v <= o[f].v < hi) {
      assert OwnerOk(vm, o, f);
    }
    assert Released(o, d, v, hi) == o;
  }

  // ---------------------------------------------------------------- counting page tables

  /** Directory entries of [i, j) that have no page table. */
  function Missing(words: Words, i: nat, j: nat): nat
    requires j <= ENTRIES
    decreases j - i
  {
    if i >= j then 0 else (if Present(words[i]) then 0 else 1) + Missing(words, i + 1, j)
  }

  /** Page tables that a walk over the pages [lo, hi) would have to add. */
  function TablesFor(words: Words, lo: nat, hi: nat): nat
    requires hi <= VPAGES
  {
    if lo < hi then Missing(words, lo / ENTRIES, (hi + ENTRIES - 1) / ENTRIES) else 0
  }

  lemma {:induction false} MissingSet(words: Words, i: nat, j: nat, k: nat, w: u32)
    requires j <= ENTRIES && k < ENTRIES && !Present(words[k]) && Present(w)
    ensures Missing(words[k := w], i, j) == Missing(words, i, j) - if i <= k < j then 1 else 0
    decreases j - i
  {
    if i < j {
      MissingSet(words, i + 1, j, k, w);
    }
  }

  lemma {:induction false} MissingAll(words: Words, i: nat, j: nat, present: bool)
    requires j <= ENTRIES && forall k :: i <= k < j ==> Present(words[k]) == present
    ensures Missing(words, i, j) == if present || j <= i then 0 else j - i
    decreases j - i
  {
    if i < j {
      MissingAll(words, i + 1, j, present);
    }
  }

  lemma {:induction false} MissingSplit(words: Words, i: nat, k: nat, j: nat)
    requires i <= k <= j <= ENTRIES
    ensures Missing(words, i, j) == Missing(words, i, k) + Missing(words, k, j)
    decreases k - i
  {
    if i < k {
      MissingSplit(words, i + 1, k, j);
    }
  }

  lemma {:induction false} MissingAt(words: Words, i: nat, j: nat, k: nat)
    requires i <= k < j <= ENTRIES && !Present(words[k])
    ensures Missing(words, i, j) >= 1
    decreases j - i
  {
    if i < k {
      MissingAt(words, i + 1, j, k);
    }
  }

  /** k pages have left the free list, and one more if entry i of directory d was missing and is filled now. */
  ghost predicate Spent(vm: Vm, ws: Vm, d: nat, i: nat, k: nat) {
    && d < |vm.mem| == |ws.mem| && i < ENTRIES
    && (|| (ws.mem[d] == vm.mem[d] && |ws.free| + k == |vm.free|)
        || (&& !Present(vm.mem[d].words[i]) && Present(ws.mem[d].words[i])
            && ws.mem[d].words == vm.mem[d].words[i := ws.mem[d].words[i]] && |ws.free| + k + 1 == |vm.free|))
  }

  /** Free pages that remain once the tables for entries [i, j) are there. */
  function Slack(vm: Vm, d: nat, i: nat, j: nat): int
    requires d < |vm.mem| && j <= ENTRIES
  {
    |vm.free| - Missing(vm.mem[d].words, i, j)
  }

  lemma SpentSlack(vm: Vm, ws: Vm, d: nat, e: nat, k: nat, i: nat, j: nat)
    requires Spent(vm, ws, d, e, k) && i <= e < j <= ENTRIES
    ensures Slack(ws, d, i, j) == Slack(vm, d, i, j) - k
  {
    if ws.mem[d] != vm.mem[d] {
      MissingSet(vm.mem[d].words, i, j, e, ws.mem[d].words[e]);
    }
  }

  /** Tables were added at entries i..j of directory d and paid for from the free list, nothing else. */
  ghost predicate Walked(vm: Vm, ws: Vm, d: nat, i: nat, j: nat) {
    && d < |vm.mem| == |ws.mem| && i <= j < ENTRIES
    && (forall k :: 0 <= k < ENTRIES && !(i <= k <= j) ==> ws.mem[d].words[k] == vm.mem[d].words[k])
    && (forall k :: 0 <= k < ENTRIES && Present(vm.mem[d].words[k]) ==> Present(ws.mem[d].words[k]))
    && Slack(ws, d, i, j + 1) == Slack(vm, d, i, j + 1)
  }

  // ---------------------------------------------------------------- mappages' loop

  /** k pages from v on are mapped to the frames from pfn on; the others are as in m. */
  ghost predicate MappedRun(m: seq<Page>, ms: seq<Page>, d: nat, v: nat, k: nat, pfn: nat, perm: nat)
    requires d < |m| && d < |ms| && pfn + k <= VPAGES && perm < PGSIZE
  {
    forall u: nat :: u < VPAGES ==>
      Flat(ms, d, u) == if v <= u < v + k then Pte(pfn + u - v, perm) else Flat(m, d, u)
  }

  lemma MappedMore(m: seq<Page>, ms: seq<Page>, ws: seq<Page>, d: nat, v: nat, k: nat, pfn: nat, perm: nat, more: bool)
    requires d < |m| && d < |ms| && d < |ws| && pfn + k < VPAGES && perm < PGSIZE
      && MappedRun(m, ms, d, v, k, pfn, perm)
    requires forall u: nat :: u < VPAGES ==>
      Flat(ws, d, u) == if more && u == v + k then Pte(pfn + k, perm) else Flat(ms, d, u)
    ensures MappedRun(m, ws, d, v, if more then k + 1 else k, pfn, perm)
  {
    hide Flat, Pte;
  }

  /** The page tables of k pages from v on are there. */
  ghost predicate TablesRun(m: seq<Page>, d: nat, v: nat, k: nat)
    requires d < |m| && v + k <= VPAGES
  {
    k > 0 ==> forall i :: v / ENTRIES <= i <= (v + k - 1) / ENTRIES ==> Present(m[d].words[i])
  }

  lemma TablesAll(m: seq<Page>, d: nat, v: nat, n: nat)
    requires d < |m| && v + n <= VPAGES && TablesRun(m, d, v, n) && n > 0
    ensures forall i :: v / ENTRIES <= i <= (v + n - 1) / ENTRIES ==> Present(m[d].words[i])
  {
  }

  lemma WalkedNone(vm: Vm, d: nat, i: nat, j: nat)
    requires d < |vm.mem| && i <= j < ENTRIES
    ensures Walked(vm, vm, d, i, j) && (forall v: nat :: v < VPAGES ==> TablesRun(vm.mem, d, v, 0))
  {
  }

  lemma TablesMore(ms: Vm, ws: Vm, d: nat, v: nat, k: nat)
    requires d < |ms.mem| == |ws.mem| && v + k < VPAGES && TablesRun(ms.mem, d, v, k)
    requires Spent(ms, ws, d, (v + k) / ENTRIES, 0) && Present(ws.mem[d].words[(v + k) / ENTRIES])
    ensures TablesRun(ws.mem, d, v, k + 1)
  {
  }

  lemma WalkedMore(vm: Vm, ms: Vm, ws: Vm, d: nat, i: nat, j: nat, e: nat)
    requires Walked(vm, ms, d, i, j) && Spent(ms, ws, d, e, 0) && i <= e <= j
    ensures Walked(vm, ws, d, i, j)
  {
    SpentSlack(ms, ws, d, e, 0, i, j + 1);
  }

  lemma {:induction false} MissingSame(words: Words, words': Words, i: nat, j: nat)
    requires j <= ENTRIES && forall k :: i <= k < j ==> words[k] == words'[k]
    ensures Missing(words, i, j) == Missing(words', i, j)
    decreases j - i
  {
    if i < j {
      MissingSame(words, words', i + 1, j);
    }
  }

  lemma WalkedSlack(vm: Vm, ws: Vm, d: nat, i: nat, j: nat, p: nat, q: nat)
    requires Walked(vm, ws, d, i, j) && p <= i && j < q <= ENTRIES
    ensures Slack(ws, d, p, q) == Slack(vm, d, p, q)
  {
    hide Missing;
    var a, b := vm.mem[d].words, ws.mem[d].words;
    MissingSplit(a, p, i, q);
    MissingSplit(a, i, j + 1, q);
    MissingSplit(b, p, i, q);
    MissingSplit(b, i, j + 1, q);
    MissingSame(a, b, p, i);
    MissingSame(a, b, j + 1, q);
  }

  // ---------------------------------------------------------------- growing

  /** What a page is to hold and how it is to be mapped. */
  datatype Image = Image(page: Page, flags: nat)

  /** Virtual page u has its own, formerly free, page with the given contents and flags. */
  ghost predicate MapsTo(mem: seq<Page>, o: seq<Owner>, o': seq<Owner>, d: nat, u: nat, img: Image) {
    && d < |mem| == |o| == |o'| && u < VPAGES
    && var w := Flat(mem, d, u);
       && Present(w) && Flags(w) == img.flags && Frame(w) < |mem|
       && o[Frame(w)] == FreePage && o'[Frame(w)] == User(d, u) && mem[Frame(w)] == img.page
  }

  /** Directory d gained exactly the pages lo, lo + 1, ..., one per image. */
  ghost predicate Grown(vm: Vm, o: seq<Owner>, ws: Vm, o': seq<Owner>, d: nat, lo: nat, img: seq<Image>) {
    && d < |o| == |o'| == |vm.mem| == |ws.mem| && lo + |img| <= UPAGES
    && Claimed(o, o', d, lo, lo + |img|) && OthersSame(vm.mem, ws.mem, o, d) && DataKept(vm.mem, o, ws.mem, o')
    && (forall u: nat :: u < VPAGES && !(lo <= u < lo + |img|) ==> Flat(ws.mem, d, u) == Flat(vm.mem, d, u))
    && forall k :: 0 <= k < |img| ==> MapsTo(ws.mem, o, o', d, lo + k, img[k])
  }

  lemma GrownMore(vm: Vm, o: seq<Owner>, ms: Vm, o1: seq<Owner>, ws: Vm, o2: seq<Owner>, d: nat, lo: nat,
    img: seq<Image>, x: Image)
    requires Grown(vm, o, ms, o1, d, lo, img) && Grown(ms, o1, ws, o2, d, lo + |img|, [x]) && o[d] == Dir
    ensures Grown(vm, o, ws, o2, d, lo, img + [x])
  {
    hide Flat;
    OthersTwice(vm.mem, ms.mem, ws.mem, o, o1, d);
    KeptTwice(vm.mem, o, ms.mem, o1, ws.mem, o2, d);
    forall k | 0 <= k < |img + [x]| ensures MapsTo(ws.mem, o, o2, d, lo + k, (img + [x])[k]) {
      if k < |img| {
        assert MapsTo(ms.mem, o, o1, d, lo + k, img[k]);
      } else {
        assert MapsTo(ws.mem, o1, o2, d, lo + |img| + 0, [x][0]);
      }
    }
  }

  lemma GrownOne(vm: Vm, o: seq<Owner>, o1: seq<Owner>, ms: Vm, ws: Vm, o2: seq<Owner>, d: nat, v: nat, f: nat,
    img: Image)
    requires d < |o| == |o2| == |vm.mem| == |ms.mem| == |ws.mem| && f < |o| && v < UPAGES && o[f] == FreePage
      && o1 == o[f := Held]
    requires ms.mem == vm.mem[f := img.page] && OthersSame(vm.mem, ms.mem, o1, -1) && OthersSame(ms.mem, ws.mem, o1, d)
      && DataKept(ms.mem, o1, ws.mem, o2)
    requires o2[f] == User(d, v) && Claimed(o1, o2[f := Held], d, 0, 0) && ws.mem[f] == img.page
      && SameFlat(vm.mem, ms.mem, d)
    requires forall u: nat :: u < VPAGES && u != v ==> Flat(ws.mem, d, u) == Flat(ms.mem, d, u)
    requires var w := Flat(ws.mem, d, v); Present(w) && Frame(w) == f && Flags(w) == img.flags
    ensures Grown(vm, o, ws, o2, d, v, [img])
  {
    hide Flat;
    forall e: nat | e < |o| && o[e] == Dir && e != d ensures SameFlat(vm.mem, ws.mem, e) {
      assert SameFlat(vm.mem, ms.mem, e) && SameFlat(ms.mem, ws.mem, e);
    }
    forall g | 0 <= g < |o| ensures o2[g] == o[g] || (o[g] == FreePage && Belongs(o2[g], d, v, v + 1)) {
      assert g != f ==> o2[f := Held][g] == o2[g];
    }
  }

  /** Growing and then shrinking the same range leaves at most some empty page tables. */
  lemma GrownShrunk(vm: Vm, o: seq<Owner>, ms: Vm, o1: seq<Owner>, ws: Vm, o2: seq<Owner>, d: nat, lo: nat, hi: nat,
    img: seq<Image>)
    requires Inv(vm, o) && Grown(vm, o, ms, o1, d, lo, img) && o[d] == Dir && Shrunk(ms, o1, ws, o2, d, lo, hi)
      && lo + |img| <= hi <= UPAGES
    requires forall u: nat :: lo <= u < hi ==> !Present(Flat(vm.mem, d, u))
    ensures Undone(vm, o, ws, o2, d, lo, hi)
  {
    hide Flat;
    OthersTwice(vm.mem, ms.mem, ws.mem, o, o1, d);
    KeptTwice(vm.mem, o, ms.mem, o1, ws.mem, o2, d);
    forall f | 0 <= f < |o| ensures o2[f] == o[f] || (o[f] == FreePage && Belongs(o2[f], d, 0, 0)) {
      assert OwnerOk(vm, o, f);
    }
    forall u: nat | u < VPAGES
      ensures Flat(ws.mem, d, u) == Flat(vm.mem, d, u) || (lo <= u < hi && Flat(ws.mem, d, u) == 0)
    {
      if lo <= u < lo + |img| { assert MapsTo(ms.mem, o, o1, d, u, img[u - lo]); }
    }
  }

  /** No page is mapped or owned differently, but for tables added to directory d. */
  ghost predicate Undone(vm: Vm, o: seq<Owner>, ws: Vm, o': seq<Owner>, d: nat, lo: nat, hi: nat) {
    && d < |o| == |o'| == |vm.mem| == |ws.mem|
    && Claimed(o, o', d, 0, 0) && OthersSame(vm.mem, ws.mem, o, d) && DataKept(vm.mem, o, ws.mem, o')
    && forall u: nat :: u < VPAGES ==>
         Flat(ws.mem, d, u) == Flat(vm.mem, d, u) || (lo <= u < hi && Flat(ws.mem, d, u) == 0)
  }

  function ZeroImages(n: nat): seq<Image> {
    seq(n, i => Image(ZeroPage(), 7))
  }

  lemma UndoneNone(vm: Vm, o: seq<Owner>, d: nat, lo: nat, hi: nat)
    requires Inv(vm, o) && d < |o|
    ensures Undone(vm, o, vm, o, d, lo, hi)
  {
    hide Flat;
    SameAll(vm, o);
  }

  lemma GrownNone(vm: Vm, o: seq<Owner>, d: nat, lo: nat)
    requires Inv(vm, o) && d < |o| && lo <= UPAGES
    ensures Grown(vm, o, vm, o, d, lo, [])
  {
    hide Flat;
    SameAll(vm, o);
  }

  lemma GrownOutside(vm: Vm, o: seq<Owner>, ws: Vm, o': seq<Owner>, d: nat, lo: nat, img: seq<Image>, u: nat)
    requires Grown(vm, o, ws, o', d, lo, img) && u < VPAGES && !(lo <= u < lo + |img|)
    ensures |ws.mem| == |vm.mem| && Flat(ws.mem, d, u) == Flat(vm.mem, d, u)
  {
  }

  /** Where a page or a needed table cannot be had, no free page is left over. */
  lemma NoSlack(vm: Vm, d: nat, p: nat, q: nat, e: nat)
    requires d < |vm.mem| && p <= e < q <= ENTRIES
    requires vm.free == [] || (|vm.free| == 1 && !Present(vm.mem[d].words[e]))
    ensures Slack(vm, d, p, q) <= 0
  {
    if vm.free != [] {
      MissingAt(vm.mem[d].words, p, q, e);
    }
  }

  lemma WalkedOne(vm: Vm, ws: Vm, d: nat, e: nat, p: nat, q: nat)
    requires vm.free != [] && Walked(vm.(free := vm.free[1..]), ws, d, e, e) && p <= e < q <= ENTRIES
    ensures |ws.mem| == |vm.mem| && Slack(ws, d, p, q) == Slack(vm, d, p, q) - 1
    ensures forall i :: 0 <= i < ENTRIES && Present(vm.mem[d].words[i]) ==> Present(ws.mem[d].words[i])
  {
    WalkedSlack(vm.(free := vm.free[1..]), ws, d, e, e, p, q);
  }

  lemma StillHeld(vm: Vm, o: seq<Owner>, ws: Vm, o': seq<Owner>, d: nat, lo: nat, hi: nat, f: nat)
    requires Shrunk(vm, o, ws, o', d, lo, hi) && f < |o| && o[f] == Held
    ensures f < |o'| && o'[f] == Held
  {
  }

  /** Holding one more page during the release, and freeing it afterwards, makes no difference. */
  lemma ShrunkHeld(vm: Vm, o: seq<Owner>, vm3: Vm, o3: seq<Owner>, vm4: Vm, o4: seq<Owner>, vm5: Vm, o5: seq<Owner>,
                   d: nat, lo: nat, hi: nat, f: nat, page: Page)
    requires d < |o| && f < |o| == |vm.mem| && o[f] == FreePage && o[d] == Dir && o3 == o[f := Held]
      && vm3.mem == vm.mem[f := page]
    requires OthersSame(vm.mem, vm3.mem, o, -1) && Shrunk(vm3, o3, vm4, o4, d, lo, hi)
    requires o5 == o4[f := FreePage] && vm5.mem == vm4.mem[f := JunkPage()] && OthersSame(vm4.mem, vm5.mem, o4, -1)
    ensures Shrunk(vm, o, vm5, o5, d, lo, hi)
  {
    hide Flat, JunkPage;
    assert o5 == Released(o, d, lo, hi);
    assert SameFlat(vm.mem, vm3.mem, d) && SameFlat(vm4.mem, vm5.mem, d);
    forall e: nat | e < |o| && o[e] == Dir && e != d ensures SameFlat(vm.mem, vm5.mem, e) {
      assert SameFlat(vm.mem, vm3.mem, e) && SameFlat(vm3.mem, vm4.mem, e) && SameFlat(vm4.mem, vm5.mem, e);
    }
  }

  // ---------------------------------------------------------------- taking an address space down

  lemma TableIs(vm: Vm, o: seq<Owner>, d: nat, i: nat, g: nat)
    requires Inv(vm, o) && g < |o| && o[g] == Table(d, i)
    ensures d < |o| && i < ENTRIES && Present(vm.mem[d].words[i]) && Frame(vm.mem[d].words[i]) == g
  {
    hide Flat;
    assert OwnerOk(vm, o, g);
  }

  lemma DismantleEntry(vm: Vm, o: seq<Owner>, d: nat, i: nat)
    requires Inv(vm, o) && d < |o| && o[d] == Dir && i < ENTRIES
    ensures !Present(vm.mem[d].words[i]) ==> Dismantled(o, d, i + 1) == Dismantled(o, d, i)
    ensures Present(vm.mem[d].words[i]) ==>
      var f := Frame(vm.mem[d].words[i]);
      && f < |o| && o[f] == Table(d, i)
      && Dismantled(o, d, i + 1) == Dismantled(o, d, i)[f := FreePage]
  {
    hide Flat;
    FrameFits(vm, o);
    forall g | 0 <= g < |o| && o[g] == Table(d, i)
      ensures Present(vm.mem[d].words[i]) && Frame(vm.mem[d].words[i]) == g
    {
      TableIs(vm, o, d, i, g);
    }
    if Present(vm.mem[d].words[i]) {
      TableOf(vm, o, d, i);
    }
  }

  lemma FreedIs(vm: Vm, o: seq<Owner>, d: nat)
    requires Inv(vm, o) && d < |o| && o[d] == Dir
    ensures Dismantled(Released(o, d, 0, UPAGES), d, ENTRIES)[d := FreePage] == Freed(o, d)
  {
    hide Flat;
    var r := Dismantled(Released(o, d, 0, UPAGES), d, ENTRIES)[d := FreePage];
    forall f | 0 <= f < |o| ensures r[f] == Freed(o, d)[f] {
      assert OwnerOk(vm, o, f);
    }
  }

  lemma NoUserPages(vm: Vm, ws: Vm, d: nat)
    requires UnmappedRange(vm.mem, ws.mem, d, PagesOf(0), PagesOf(UPAGES * PGSIZE))
    ensures forall v: nat :: v < UPAGES ==> !Present(Flat(ws.mem, d, v))
  {
    hide Flat;
    assert !Present(0);
  }

  /** The first n tables of directory d are free, the other ones and d itself are held and intact. */
  ghost predicate Down(vm: Vm, o: seq<Owner>, ws: Vm, o': seq<Owner>, d: nat, n: nat) {
    && d < |o| == |vm.mem| == |ws.mem| && o' == Dismantled(o, d, n) && ws.mem[d] == vm.mem[d]
    && OthersSame(vm.mem, ws.mem, o, d) && DataKept(vm.mem, o, ws.mem, o')
  }

  lemma DownNone(vm: Vm, o: seq<Owner>, d: nat)
    requires Inv(vm, o) && d < |o|
    ensures Down(vm, o, vm, Dismantled(o, d, 0), d, 0)
  {
    hide Flat;
    SameAll(vm, o);
  }

  lemma DownMore(vm: Vm, o: seq<Owner>, ms: Vm, o1: seq<Owner>, ws: Vm, o2: seq<Owner>, d: nat, i: nat)
    requires Inv(vm, o) && d < |o| && o[d] == Dir && i < ENTRIES && Down(vm, o, ms, o1, d, i)
      && Present(ms.mem[d].words[i])
    requires var f := Frame(ms.mem[d].words[i]);
      && f < |o| && ws.mem == ms.mem[f := JunkPage()] && o2 == o1[f := FreePage] && OthersSame(ms.mem, ws.mem, o1, -1)
    ensures Down(vm, o, ws, o2, d, i + 1)
  {
    hide Flat, JunkPage;
    DismantleEntry(vm, o, d, i);
    OthersTwice(vm.mem, ms.mem, ws.mem, o, o1, d);
  }

  lemma DownAll(vm0: Vm, o0: seq<Owner>, vm: Vm, o: seq<Owner>, ms: Vm, ws: Vm, o2: seq<Owner>, d: nat)
    requires Shrunk(vm0, o0, vm, o, d, PagesOf(0), PagesOf(UPAGES * PGSIZE)) && d < |o0|
    requires Down(vm, o, ms, Dismantled(o, d, ENTRIES), d, ENTRIES) && ws.mem == ms.mem[d := JunkPage()]
    requires OthersSame(ms.mem, ws.mem, Dismantled(o, d, ENTRIES), -1) && o2 == Dismantled(o, d, ENTRIES)[d := FreePage]
      && o0[d] == Dir
    ensures OthersSame(vm0.mem, ws.mem, o0, d) && DataKept(vm0.mem, o0, ws.mem, o2)
  {
    hide Flat, JunkPage;
    OthersTwice(vm0.mem, vm.mem, ms.mem, o0, o, d);
    OthersTwice(vm0.mem, ms.mem, ws.mem, o0, Dismantled(o, d, ENTRIES), d);
  }

  /** Freeing an address space that was built from free pages gives them all back. */
  lemma FreedRestores(vm: Vm, o: seq<Owner>, o1: seq<Owner>, d: nat, lo: nat, hi: nat)
    requires Inv(vm, o) && d < |o| && o[d] == FreePage && Claimed(o[d := Dir], o1, d, lo, hi)
    ensures Freed(o1, d) == o
  {
    hide Flat;
    forall f | 0 <= f < |o| ensures Freed(o1, d)[f] == o[f] {
      assert OwnerOk(vm, o, f);
    }
  }

  /** Ownership determines which pages are on the free list. */
  lemma FreeListDetermined(vm: Vm, ws: Vm, o: seq<Owner>)
    requires Inv(vm, o) && Inv(ws, o)
    ensures multiset(ws.free) == multiset(vm.free)
  {
    hide Flat;
    forall f ensures multiset(ws.free)[f] == multiset(vm.free)[f] {
      CountOnce(vm, o, f);
      CountOnce(ws, o, f);
    }
  }

  lemma CountOnce(vm: Vm, o: seq<Owner>, f: nat)
    requires Inv(vm, o)
    ensures multiset(vm.free)[f] == if f < |o| && o[f] == FreePage then 1 else 0
  {
    hide Flat;
    if f < |o| && o[f] == FreePage {
      assert OwnerOk(vm, o, f);
    }
    DistinctCount(vm.free, f);
  }

  lemma {:induction false} DistinctCount(s: seq<nat>, f: nat)
    requires forall j, k :: 0 <= j < k < |s| ==> s[j] != s[k]
    ensures multiset(s)[f] == if f in s then 1 else 0
  {
    if s != [] {
      DistinctCount(s[1..], f);
      assert s == [s[0]] + s[1..];
    }
  }

  // ---------------------------------------------------------------- building an address space

  /** A directory and the 64 page tables that the kernel half takes. */
  const KVMPAGES: nat := 65

  function RegionStart(data: nat, k: nat): nat
    requires KERNLINK < data < PHYSEND && k <= 4
  {
    if k < 4 then KernelMap(data)[k].virt else VPAGES
  }

  /** setupkvm's loop has mapped k rows of the kernel map into the new, empty directory d. */
  ghost predicate InSetup(vm: Vm, o: seq<Owner>, ws: Vm, o': seq<Owner>, d: nat, data: nat, k: nat) {
    && KERNLINK < data < PHYSEND && k <= 4 && d < |o| == |o'| == |vm.mem| == |ws.mem| && o[d] == Dir
    && Claimed(o, o', d, 0, 0) && OthersSame(vm.mem, ws.mem, o, d) && DataKept(vm.mem, o, ws.mem, o')
    && (forall u: nat :: u < VPAGES ==>
         Flat(ws.mem, d, u) == if u < RegionStart(data, k) then KernelPte(data, u) else 0)
    && Slack(ws, d, 512, 1024) == |vm.free| - 512
    && (forall i :: 0 <= i < 1024 && Present(ws.mem[d].words[i]) ==> 512 <= i < 568 || 1016 <= i)
    && (forall i :: 512 <= i < 568 && i * 1024 < RegionStart(data, k) && k > 0 ==> Present(ws.mem[d].words[i]))
    && (forall i :: 1016 <= i < 1024 && k == 4 ==> Present(ws.mem[d].words[i]))
  }

  lemma SetupStart(vm: Vm, o: seq<Owner>, d: nat, data: nat)
    requires Inv(vm, o) && d < |o| && o[d] == Dir && vm.mem[d] == ZeroPage() && KERNLINK < data < PHYSEND
    requires forall v: nat :: v < VPAGES ==> Flat(vm.mem, d, v) == 0
    ensures InSetup(vm, o, vm, o, d, data, 0)
  {
    hide Flat;
    SameAll(vm, o);
    assert forall i :: 0 <= i < 1024 ==> !Present(vm.mem[d].words[i]);
    MissingAll(vm.mem[d].words, 512, 1024, false);
  }

  lemma SetupFree(vm: Vm, o: seq<Owner>, ws: Vm, o': seq<Owner>, d: nat, data: nat, k: nat)
    requires InSetup(vm, o, ws, o', d, data, k) && k < 4
    ensures forall u: nat :: KernelMap(data)[k].virt <= u < VPAGES ==> !Present(Flat(ws.mem, d, u))
  {
    hide Flat;
    assert !Present(0);
  }

  /** The effect of mappages on row k, as far as the kernel half is concerned. */
  ghost predicate RowMapped(ms: Vm, o1: seq<Owner>, ws: Vm, o2: seq<Owner>, d: nat, row: Region) {
    && row.virt >= UPAGES && 0 < row.n && row.virt + row.n <= VPAGES && row.pfn + row.n <= VPAGES && row.perm < PGSIZE
    && d < |o1| == |o2| == |ms.mem| == |ws.mem|
    && Claimed(o1, o2, d, 0, 0) && OthersSame(ms.mem, ws.mem, o1, d) && DataKept(ms.mem, o1, ws.mem, o2)
    && (forall u: nat :: u < VPAGES ==>
          Flat(ws.mem, d, u) == if row.virt <= u < row.virt + row.n then Pte(row.pfn + u - row.virt, row.perm)
            else Flat(ms.mem, d, u))
    && Walked(ms, ws, d, row.virt / ENTRIES, (row.virt + row.n - 1) / ENTRIES)
    && forall i :: row.virt / ENTRIES <= i <= (row.virt + row.n - 1) / ENTRIES ==> Present(ws.mem[d].words[i])
  }

  lemma SetupStep(vm: Vm, o: seq<Owner>, ms: Vm, o1: seq<Owner>, ws: Vm, o2: seq<Owner>, d: nat, data: nat, k: nat)
    requires InSetup(vm, o, ms, o1, d, data, k) && k < 4 && RowMapped(ms, o1, ws, o2, d, KernelMap(data)[k])
    ensures InSetup(vm, o, ws, o2, d, data, k + 1)
  {
    hide Flat, Pte, KernelPte, Missing;
    OthersTwice(vm.mem, ms.mem, ws.mem, o, o1, d);
    KeptTwice(vm.mem, o, ms.mem, o1, ws.mem, o2, d);
    SetupFlat(ms, ws, d, data, k);
    var row := KernelMap(data)[k];
    WalkedSlack(ms, ws, d, row.virt / ENTRIES, (row.virt + row.n - 1) / ENTRIES, 512, 1024);
  }

  lemma SetupFlat(ms: Vm, ws: Vm, d: nat, data: nat, k: nat)
    requires KERNLINK < data < PHYSEND && k < 4 && d < |ms.mem| == |ws.mem|
    requires forall u: nat :: u < VPAGES ==>
      Flat(ms.mem, d, u) == if u < RegionStart(data, k) then KernelPte(data, u) else 0
    requires var row := KernelMap(data)[k]; forall u: nat :: u < VPAGES ==>
      Flat(ws.mem, d, u) == if row.virt <= u < row.virt + row.n then Pte(row.pfn + u - row.virt, row.perm)
        else Flat(ms.mem, d, u)
    ensures forall u: nat :: u < VPAGES ==>
      Flat(ws.mem, d, u) == if u < RegionStart(data, k + 1) then KernelPte(data, u) else 0
  {
    hide Flat, Pte;
  }

  /** A missing table and an empty free list in the middle of setupkvm: there were fewer than 64 pages. */
  lemma SetupShort(vm: Vm, o: seq<Owner>, ms: Vm, o1: seq<Owner>, ws: Vm, o2: seq<Owner>, d: nat, data: nat, k: nat)
    requires InSetup(vm, o, ms, o1, d, data, k) && k < 4 && ws.free == []
    requires var row := KernelMap(data)[k];
      && Walked(ms, ws, d, row.virt / ENTRIES, (row.virt + row.n - 1) / ENTRIES)
      && exists i :: row.virt / ENTRIES <= i <= (row.virt + row.n - 1) / ENTRIES && !Present(ws.mem[d].words[i])
    requires Claimed(o1, o2, d, 0, 0) && OthersSame(ms.mem, ws.mem, o1, d) && DataKept(ms.mem, o1, ws.mem, o2)
    ensures |vm.free| < 64
    ensures Claimed(o, o2, d, 0, 0) && OthersSame(vm.mem, ws.mem, o, d) && DataKept(vm.mem, o, ws.mem, o2)
  {
    hide Flat, Pte, KernelPte, Missing;
    OthersTwice(vm.mem, ms.mem, ws.mem, o, o1, d);
    KeptTwice(vm.mem, o, ms.mem, o1, ws.mem, o2, d);
    var row, words := KernelMap(data)[k], ws.mem[d].words;
    WalkedSlack(ms, ws, d, row.virt / ENTRIES, (row.virt + row.n - 1) / ENTRIES, 512, 1024);
    var i :| row.virt / ENTRIES <= i <= (row.virt + row.n - 1) / ENTRIES && !Present(words[i]);
    MissingSplit(words, 512, 568, 1024);
    MissingSplit(words, 568, 1016, 1024);
    MissingAll(words, 568, 1016, false);
    if i < 568 {
      MissingAt(words, 512, 568, i);
    } else {
      MissingAt(words, 1016, 1024, i);
    }
  }

  /** A new address space: directory d is fresh and maps the kernel, and nothing below it. */
  ghost predicate NewSpace(vm: Vm, o: seq<Owner>, ws: Vm, o': seq<Owner>, d: nat, data: nat) {
    && d < |o| == |o'| == |vm.mem| == |ws.mem| && o[d] == FreePage
    && Claimed(o[d := Dir], o', d, 0, 0) && OthersSame(vm.mem, ws.mem, o, -1) && DataKept(vm.mem, o, ws.mem, o')
    && (forall u: nat :: u < VPAGES ==> Flat(ws.mem, d, u) == KernelPte(data, u))
    && forall i :: 0 <= i < 512 ==> !Present(ws.mem[d].words[i])
  }

  lemma SetupDone(vm: Vm, o: seq<Owner>, vm0: Vm, ws: Vm, o2: seq<Owner>, d: nat, data: nat)
    requires d < |o| == |vm.mem| && o[d] == FreePage && vm0.mem == vm.mem[d := ZeroPage()]
      && OthersSame(vm.mem, vm0.mem, o[d := Held], -1)
    requires InSetup(vm0, o[d := Dir], ws, o2, d, data, 4)
    ensures NewSpace(vm, o, ws, o2, d, data) && |ws.free| == |vm0.free| - 64
  {
    hide Flat, Pte, KernelPte, Missing, ZeroPage;
    var words := ws.mem[d].words;
    MissingSplit(words, 512, 568, 1024);
    MissingSplit(words, 568, 1016, 1024);
    MissingAll(words, 512, 568, true);
    MissingAll(words, 568, 1016, false);
    MissingAll(words, 1016, 1024, true);
    forall e: nat | e < |o| && o[e] == Dir ensures SameFlat(vm.mem, ws.mem, e) {
      assert SameFlat(vm.mem, vm0.mem, e) && SameFlat(vm0.mem, ws.mem, e);
    }
  }

  lemma SetupUndone(vm: Vm, o: seq<Owner>, vm0: Vm, ms: Vm, o2: seq<Owner>, ws: Vm, d: nat)
    requires d < |o| == |vm.mem| == |o2| == |ws.mem| == |ms.mem| && o[d] == FreePage
    requires vm0.mem == vm.mem[d := ZeroPage()] && OthersSame(vm.mem, vm0.mem, o[d := Held], -1)
    requires OthersSame(vm0.mem, ms.mem, o[d := Dir], d) && DataKept(vm0.mem, o[d := Dir], ms.mem, o2)
      && Claimed(o[d := Dir], o2, d, 0, UPAGES)
    requires OthersSame(ms.mem, ws.mem, o2, d) && DataKept(ms.mem, o2, ws.mem, o)
    ensures OthersSame(vm.mem, ws.mem, o, -1) && DataKept(vm.mem, o, ws.mem, o)
  {
    hide Flat, ZeroPage;
    forall e: nat | e < |o| && o[e] == Dir ensures SameFlat(vm.mem, ws.mem, e) {
      assert SameFlat(vm.mem, vm0.mem, e) && SameFlat(vm0.mem, ms.mem, e) && SameFlat(ms.mem, ws.mem, e);
    }
  }

  // ---------------------------------------------------------------- copying an address space

  /** Contents and flags of virtual page u of directory src. */
  function ImageAt(mem: seq<Page>, src: nat, u: nat): Image
    requires src < |mem| && u < VPAGES
  {
    var w := Flat(mem, src, u);
    Image(if Frame(w) < |mem| then mem[Frame(w)] else ZeroPage(), Flags(w))
  }

  function Images(mem: seq<Page>, src: nat, n: nat): (r: seq<Image>)
    requires src < |mem| && n <= VPAGES
    ensures |r| == n
  {
    seq(n, u requires 0 <= u < n => ImageAt(mem, src, u))
  }

  lemma ImagesMore(mem: seq<Page>, src: nat, n: nat)
    requires src < |mem| && n < VPAGES
    ensures Images(mem, src, n + 1) == Images(mem, src, n) + [ImageAt(mem, src, n)]
  {
  }

  /** Directory d is a copy of the first n pages of src in fresh frames, over the kernel half. */
  ghost predicate CopiedSpace(vm: Vm, o: seq<Owner>, ws: Vm, o': seq<Owner>, src: nat, d: nat, n: nat, data: nat) {
    && src < |vm.mem| && d < |o| == |o'| == |vm.mem| == |ws.mem| && o[d] == FreePage && n <= UPAGES
    && Claimed(o[d := Dir], o', d, 0, n) && OthersSame(vm.mem, ws.mem, o, -1) && DataKept(vm.mem, o, ws.mem, o')
    && (forall u: nat :: u < n ==> MapsTo(ws.mem, o, o', d, u, ImageAt(vm.mem, src, u)))
    && forall u: nat :: n <= u < VPAGES ==> Flat(ws.mem, d, u) == KernelPte(data, u)
  }

  lemma CopyStart(vm: Vm, o: seq<Owner>, ws: Vm, o': seq<Owner>, src: nat, d: nat, data: nat, q: nat)
    requires Inv(vm, o) && Inv(ws, o') && NewSpace(vm, o, ws, o', d, data) && src < |o| && q <= 512
    ensures src < |vm.mem| && d < |ws.mem| == |o'| && Grown(ws, o', ws, o', d, 0, Images(vm.mem, src, 0))
      && Slack(ws, d, 0, q) == |ws.free| - q
  {
    hide Flat, KernelPte, Inv;
    FrameFits(vm, o);
    FrameFits(ws, o');
    GrownNone(ws, o', d, 0);
    MissingAll(ws.mem[d].words, 0, q, false);
  }

  /** The parent's entry and bytes are still the original ones, and the child's page is still absent. */
  lemma CopySource(vm: Vm, o: seq<Owner>, vm1: Vm, o1: seq<Owner>, ws: Vm, o2: seq<Owner>, src: nat, d: nat, data: nat,
    v: nat)
    requires Inv(vm, o) && src < |o| && o[src] == Dir && v < UPAGES && Present(Flat(vm.mem, src, v))
    requires NewSpace(vm, o, vm1, o1, d, data) && Grown(vm1, o1, ws, o2, d, 0, Images(vm.mem, src, v))
    ensures |ws.mem| == |o2| == |vm.mem| && o2[src] == Dir && Flat(ws.mem, src, v) == Flat(vm.mem, src, v)
      && !Present(Flat(ws.mem, d, v))
    ensures var f := Frame(Flat(vm.mem, src, v));
      f < |ws.mem| && ImageAt(vm.mem, src, v) == Image(ws.mem[f], Flags(Flat(vm.mem, src, v)))
  {
    hide Flat;
    UserOf(vm, o, src, v);
    assert SameFlat(vm.mem, vm1.mem, src) && SameFlat(vm1.mem, ws.mem, src);
    assert KernelPte(data, v) == 0 && !Present(0);
  }

  lemma WalkPresent(vm: Vm, o: seq<Owner>, src: nat, v: nat)
    requires Inv(vm, o) && src < |o| && v < VPAGES && Present(Flat(vm.mem, src, v))
    ensures Present(vm.mem[src].words[v / ENTRIES])
  {
  }

  lemma FlagsOdd(w: u32)
    ensures Present(w) ==> Flags(w) % 2 == 1
    ensures Flags(w) < PGSIZE
  {
  }

  lemma CopyShort(vm: Vm, o: seq<Owner>, vm1: Vm, o1: seq<Owner>, ws: Vm, o2: seq<Owner>, d: nat, data: nat,
    img: seq<Image>)
    requires NewSpace(vm, o, vm1, o1, d, data) && Grown(vm1, o1, ws, o2, d, 0, img)
    ensures o[d] == FreePage && Claimed(o[d := Dir], o2, d, 0, |img|) && OthersSame(vm.mem, ws.mem, o, d)
      && DataKept(vm.mem, o, ws.mem, o2)
  {
    hide Flat;
    OthersTwice(vm.mem, vm1.mem, ws.mem, o, o1, d);
    KeptTwice(vm.mem, o, vm1.mem, o1, ws.mem, o2, d);
  }

  /** Taking a page and freeing it again leaves ownership, mappings and data as they were. */
  lemma BackToBefore(vm: Vm, o: seq<Owner>, ms: Vm, ws: Vm, o': seq<Owner>, f: nat)
    requires f < |o| == |vm.mem| && o[f] == FreePage && |ms.mem| == |vm.mem| && ws.mem == vm.mem[f := JunkPage()]
      && o' == o[f := Held][f := FreePage]
    requires OthersSame(vm.mem, ms.mem, o, -1) && OthersSame(ms.mem, ws.mem, o[f := Held], -1)
    ensures o' == o && OthersSame(vm.mem, ws.mem, o, -1) && DataKept(vm.mem, o, ws.mem, o)
  {
    hide Flat, JunkPage;
    SameTwice(vm.mem, ms.mem, ws.mem, o, o);
  }

  lemma CopyUndone(vm: Vm, o: seq<Owner>, vm2: Vm, o2: seq<Owner>, vm4: Vm, ws: Vm, d: nat, n: nat)
    requires d < |o| == |o2| == |vm.mem| == |vm2.mem| == |vm4.mem| == |ws.mem| && o[d] == FreePage
      && Claimed(o[d := Dir], o2, d, 0, n)
    requires OthersSame(vm.mem, vm2.mem, o, d) && DataKept(vm.mem, o, vm2.mem, o2)
    requires OthersSame(vm2.mem, vm4.mem, o2, -1) && DataKept(vm2.mem, o2, vm4.mem, o2)
    requires OthersSame(vm4.mem, ws.mem, o2, d) && DataKept(vm4.mem, o2, ws.mem, o)
    ensures OthersSame(vm.mem, ws.mem, o, -1) && DataKept(vm.mem, o, ws.mem, o)
  {
    hide Flat;
    forall e: nat | e < |o| && o[e] == Dir ensures SameFlat(vm.mem, ws.mem, e) {
      assert SameFlat(vm.mem, vm2.mem, e) && SameFlat(vm2.mem, vm4.mem, e) && SameFlat(vm4.mem, ws.mem, e);
    }
  }

  lemma CopyEnough(vm: Vm, d: nat, q: nat)
    requires d < |vm.mem| && q <= ENTRIES && forall i :: 0 <= i < q ==> Present(vm.mem[d].words[i])
    ensures Slack(vm, d, 0, q) == |vm.free|
  {
    MissingAll(vm.mem[d].words, 0, q, true);
  }

  lemma CopyDone(vm: Vm, o: seq<Owner>, vm1: Vm, o1: seq<Owner>, ws: Vm, o2: seq<Owner>, src: nat, d: nat, data: nat,
    n: nat)
    requires src < |vm.mem| && n <= UPAGES && NewSpace(vm, o, vm1, o1, d, data)
      && Grown(vm1, o1, ws, o2, d, 0, Images(vm.mem, src, n))
    ensures CopiedSpace(vm, o, ws, o2, src, d, n, data)
  {
    hide Flat, KernelPte, ImageAt;
    CopyShort(vm, o, vm1, o1, ws, o2, d, data, Images(vm.mem, src, n));
    forall u: nat | u < n ensures MapsTo(ws.mem, o, o2, d, u, ImageAt(vm.mem, src, u)) {
      assert MapsTo(ws.mem, o1, o2, d, 0 + u, Images(vm.mem, src, n)[u]);
    }
  }

  // ---------------------------------------------------------------- user access

  /** *pte & ~PTE_U */
  function WithoutUser(w: u32): u32 {
    if UserOk(w) then w - 4 else w
  }

  lemma WithoutUserFields(w: u32)
    ensures Present(WithoutUser(w)) == Present(w) && Frame(WithoutUser(w)) == Frame(w) && !UserOk(WithoutUser(w))
  {
    if UserOk(w) {
      assert w == w / 8 * 8 + 4 + w % 4;
      assert (w - 4) / 4 == w / 8 * 2;
      assert w / 4096 == w / 8 / 512 && (w - 4) / 8 == w / 8 && (w - 4) / 4096 == (w - 4) / 8 / 512;
    }
  }

  ghost predicate Accessible(mem: seq<Page>, d: nat, v: nat) {
    d < |mem| && v < VPAGES && Present(Flat(mem, d, v)) && UserOk(Flat(mem, d, v))
  }

  /** Pages below n that user code can reach through directory d. */
  ghost function UserPages(mem: seq<Page>, d: nat, n: nat): set<nat> {
    set v: nat | v < n && Accessible(mem, d, v)
  }

  lemma UserPagesNone(mem: seq<Page>, d: nat)
    ensures UserPages(mem, d, 0) == {}
  {
  }

  lemma UserPagesMore(mem: seq<Page>, d: nat, n: nat)
    ensures |UserPages(mem, d, n + 1)| == |UserPages(mem, d, n)| + if Accessible(mem, d, n) then 1 else 0
  {
    hide Accessible;
    if Accessible(mem, d, n) {
      assert UserPages(mem, d, n + 1) == UserPages(mem, d, n) + {n};
    } else {
      assert UserPages(mem, d, n + 1) == UserPages(mem, d, n);
    }
  }

  lemma FlatAt(mem: seq<Page>, d: nat, i: nat, j: nat)
    requires d < |mem| && i < ENTRIES && j < ENTRIES && Present(mem[d].words[i]) && Frame(mem[d].words[i]) < |mem|
    ensures var w := mem[Frame(mem[d].words[i])].words[j];
      Accessible(mem, d, i * ENTRIES + j) == (Present(w) && UserOk(w))
  {
    assert (i * 1024 + j) / 1024 == i && (i * 1024 + j) % 1024 == j;
  }

  lemma UserPagesSkip(mem: seq<Page>, d: nat, i: nat)
    requires d < |mem| && i < ENTRIES && !Present(mem[d].words[i])
    ensures UserPages(mem, d, (i + 1) * ENTRIES) == UserPages(mem, d, i * ENTRIES)
  {
    forall v: nat | i * ENTRIES <= v < (i + 1) * ENTRIES ensures !Accessible(mem, d, v) {
      assert v / 1024 == i;
    }
  }

  /** In a copied space exactly the parent's accessible pages below n are accessible. */
  lemma CopyAccessible(vm: Vm, o: seq<Owner>, ws: Vm, o': seq<Owner>, src: nat, d: nat, n: nat, data: nat)
    requires CopiedSpace(vm, o, ws, o', src, d, n, data) && KERNLINK < data < PHYSEND
    requires forall u: nat :: u < n ==> Present(Flat(vm.mem, src, u))
    ensures UserPages(ws.mem, d, VPAGES) == UserPages(vm.mem, src, n)
  {
    hide Flat;
    forall u: nat | u < VPAGES ensures Accessible(ws.mem, d, u) <==> u < n && Accessible(vm.mem, src, u) {
      if u < n {
        assert MapsTo(ws.mem, o, o', d, u, ImageAt(vm.mem, src, u));
        SameAccess(Flat(ws.mem, d, u), Flat(vm.mem, src, u));
      } else {
        KernelInaccessible(data, u);
      }
    }
  }

  lemma SameAccess(w: u32, x: u32)
    requires Flags(w) == Flags(x)
    ensures Present(w) == Present(x) && UserOk(w) == UserOk(x)
  {
    hide Present, UserOk, Flags;
    AccessFromFlags(w);
    AccessFromFlags(x);
  }

  lemma AccessFromFlags(w: u32)
    ensures Present(w) == (Flags(w) % 2 == 1) && UserOk(w) == (Flags(w) / 4 % 2 == 1)
  {
    SplitWord(w / 4096, w % 4096);
  }

  lemma SplitWord(high: nat, low: nat)
    requires low < 4096
    ensures (high * 4096 + low) % 2 == low % 2 && (high * 4096 + low) / 4 % 2 == low / 4 % 2
  {
    assert (high * 4096 + low) / 4 == high * 1024 + low / 4;
    assert (high * 1024 + low / 4) % 2 == low / 4 % 2;
  }

  lemma KernelInaccessible(data: nat, v: nat)
    requires v < VPAGES
    ensures !UserOk(KernelPte(data, v))
  {
    if UPAGES <= v < PHYSEND { PteFields(v - UPAGES, if KERNLINK <= v < data then 0 else PTE_W); }
    if DEVSPACE <= v { PteFields(v, PTE_W); }
  }
}
