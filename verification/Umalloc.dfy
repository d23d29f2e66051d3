/** xv6/umalloc.c: malloc and free over linked headers rewritten in place. */
module Umalloc {
  import opened Commons
  import opened Blocks
  import opened HeapSpec
  import opened HeapLaws

  datatype Header = Header(ptr: nat, size: nat)

  type Memory = map<nat, Header>

  /** The headers form the circular list `free`. */
  ghost predicate Linked(mem: Memory, free: seq<Blk>) {
    forall i :: 0 <= i < |free| ==> Links(mem, free, i)
  }

  ghost predicate Links(mem: Memory, free: seq<Blk>, i: nat)
    requires i < |free|
  {
    free[i].at in mem && mem[free[i].at] == Header(free[Next(free, i)].at, free[i].size)
  }

  ghost predicate LiveHeaders(mem: Memory, live: map<nat, nat>) {
    forall a :: a in live ==> a in mem && mem[a].size == live[a]
  }

  /** The header of bp as free() leaves it before it looks at p. */
  function NextJoined(mem: Memory, p: nat, bp: nat): Header
    requires p in mem && bp in mem && mem[p].ptr in mem
  {
    var nx := mem[p].ptr;
    if bp + mem[bp].size == nx then Header(mem[nx].ptr, mem[bp].size + mem[nx].size) else Header(nx, mem[bp].size)
  }

  /** Memory after free() has linked bp in after p. */
  function Relinked(mem: Memory, p: nat, bp: nat): Memory
    requires p in mem && bp in mem && mem[p].ptr in mem && p != bp
  {
    var hb := NextJoined(mem, p, bp);
    mem[bp := hb][p := if p + mem[p].size == bp then Header(hb.ptr, mem[p].size + hb.size) else Header(bp, mem[p].size)]
  }

  lemma DistinctFree(free: seq<Blk>, i: nat, j: nat)
    requires Gapped(free) && i < |free| && j < |free| && free[i].at == free[j].at
    ensures i == j
  {
  }

  lemma RelinkedLinks(base: nat, mem: Memory, free: seq<Blk>, b: Blk)
    requires Sized(base, free) && Gapped(free) && base < b.at && b.size > 0 && AllApart(free, b)
    requires Linked(mem, free) && b.at in mem && mem[b.at].size == b.size
    ensures var k := Pred(free, b.at);
      && Links(mem, free, k) && Links(mem, free, Next(free, k)) && free[k].at != b.at
      && Linked(Relinked(mem, free[k].at, b.at), Insert(free, k, b))
  {
    hide Insert;
    var k := Pred(free, b.at);
    var r := Insert(free, k, b);
    assert Links(mem, free, k) && Links(mem, free, Next(free, k));
    Neighbours(base, free, b);
    InsertAt(free, k, b, k);
    forall i | 0 <= i < |r| ensures Links(Relinked(mem, free[k].at, b.at), r, i) {
      RelinkedLink(mem, free, k, b, i);
    }
  }

  /** Block b fits strictly between free[k] and its successor. */
  ghost predicate Between(free: seq<Blk>, k: nat, b: Blk) {
    && k < |free| && b.size > 0 && free[k].at < b.at && free[k].at + free[k].size <= b.at
    && (k + 1 < |free| ==> b.at + b.size <= free[k + 1].at)
  }

  /** What the lemmas below share: the list before free() and the block to link in. */
  ghost predicate Linkable(mem: Memory, free: seq<Blk>, k: nat, b: Blk) {
    && Gapped(free) && Between(free, k, b) && free[0].at < b.at && Linked(mem, free)
    && b.at in mem && mem[b.at].size == b.size && Links(mem, free, k) && Links(mem, free, Next(free, k))
  }

  lemma RelinkedLink(mem: Memory, free: seq<Blk>, k: nat, b: Blk, i: nat)
    requires Linkable(mem, free, k, b) && i < |Insert(free, k, b)|
    ensures Links(Relinked(mem, free[k].at, b.at), Insert(free, k, b), i)
  {
    hide Insert, Links, Relinked;
    InsertAt(free, k, b, i);
    if i < k {
      RelinkedBefore(mem, free, k, b, i);
    } else if i == k {
      RelinkedPred(mem, free, k, b);
    } else if i == k + 1 && free[k].at + free[k].size != b.at {
      RelinkedNew(mem, free, k, b);
    } else {
      RelinkedAfter(mem, free, k, b, i);
    }
  }

  lemma RelinkedBefore(mem: Memory, free: seq<Blk>, k: nat, b: Blk, i: nat)
    requires Linkable(mem, free, k, b) && i < k
    ensures Links(Relinked(mem, free[k].at, b.at), Insert(free, k, b), i)
  {
    hide Insert, NextJoined;
    InsertAt(free, k, b, i);
    InsertAt(free, k, b, i + 1);
    assert Links(mem, free, i);
  }

  lemma RelinkedPred(mem: Memory, free: seq<Blk>, k: nat, b: Blk)
    requires Linkable(mem, free, k, b)
    ensures Links(Relinked(mem, free[k].at, b.at), Insert(free, k, b), k)
  {
    hide Insert;
    InsertAt(free, k, b, k);
    if free[k].at + free[k].size != b.at {
      InsertAt(free, k, b, k + 1);
    } else {
      InsertAt(free, k, b, Next(Insert(free, k, b), k));
    }
  }

  lemma RelinkedNew(mem: Memory, free: seq<Blk>, k: nat, b: Blk)
    requires Linkable(mem, free, k, b) && free[k].at + free[k].size != b.at
    ensures k + 1 < |Insert(free, k, b)|
    ensures Links(Relinked(mem, free[k].at, b.at), Insert(free, k, b), k + 1)
  {
    hide Insert;
    InsertAt(free, k, b, k);
    InsertAt(free, k, b, k + 1);
    InsertAt(free, k, b, Next(Insert(free, k, b), k + 1));
  }

  lemma RelinkedAfter(mem: Memory, free: seq<Blk>, k: nat, b: Blk, i: nat)
    requires Linkable(mem, free, k, b) && k < i < |Insert(free, k, b)|
    requires i == k + 1 ==> free[k].at + free[k].size == b.at
    ensures Links(Relinked(mem, free[k].at, b.at), Insert(free, k, b), i)
  {
    hide Insert, NextJoined;
    var j := AfterIndex(free, k, b, i);
    assert Links(mem, free, j);
  }

  /** Behind the inserted block the list is the old one. */
  lemma AfterIndex(free: seq<Blk>, k: nat, b: Blk, i: nat) returns (j: nat)
    requires Gapped(free) && Between(free, k, b) && free[0].at < b.at && k < i < |Insert(free, k, b)|
    requires i == k + 1 ==> free[k].at + free[k].size == b.at
    ensures var r := Insert(free, k, b); k < j < |free| && r[i] == free[j] && r[Next(r, i)].at == free[Next(free, j)].at
  {
    hide Insert, NextJoined;
    var r := Insert(free, k, b);
    var next, prev := JoinsNext(free, k, b), free[k].at + free[k].size == b.at;
    InsertAt(free, k, b, i);
    InsertAt(free, k, b, Next(r, i));
    InsertAt(free, k, b, 0);
    j := i - (if prev then 0 else 1) + (if next then 1 else 0);
  }

  lemma RelinkedKeepsLive(base: nat, mem: Memory, h: Heap, a: nat)
    requires Inv(base, h) && Linked(mem, h.free) && LiveHeaders(mem, h.live) && a in h.live
    ensures var k := Pred(h.free, a);
      && h.free[k].at != a && Links(mem, h.free, k) && Links(mem, h.free, Next(h.free, k))
      && LiveHeaders(Relinked(mem, h.free[k].at, a), h.live - {a})
  {
    hide Conserved, Gapped, NextJoined;
    var k := Pred(h.free, a);
    assert Links(mem, h.free, k) && Links(mem, h.free, Next(h.free, k));
    forall x | x in h.live ensures x != h.free[k].at {
      assert h.free[k].Apart(Blk(x, h.live[x]));
    }
  }

  /** Memory after malloc() has taken n units from the block at p, whose predecessor is prevp. */
  function Carved(mem: Memory, prevp: nat, p: nat, n: nat): Memory
    requires prevp in mem && p in mem && mem[p].size >= n
  {
    if mem[p].size == n then mem[prevp := Header(mem[p].ptr, mem[prevp].size)]
    else
      var rest := mem[p].size - n;
      var tail := p + rest;
      mem[p := Header(mem[p].ptr, rest)][tail := Header(if tail in mem then mem[tail].ptr else 0, n)]
  }

  lemma CarvedLinks(base: nat, mem: Memory, h: Heap, k: nat, n: nat)
    requires Inv(base, h) && Linked(mem, h.free) && 0 < k < |h.free| && h.free[k].size >= n > 0
    ensures Links(mem, h.free, k) && Links(mem, h.free, k - 1)
    ensures Linked(Carved(mem, h.free[k - 1].at, h.free[k].at, n), Take(h, k, n).free)
  {
    hide Take;
    assert Links(mem, h.free, k) && Links(mem, h.free, k - 1);
    var r, m := Take(h, k, n).free, Carved(mem, h.free[k - 1].at, h.free[k].at, n);
    forall i | 0 <= i < |r| ensures Links(m, r, i) {
      TakeAt(h, k, n, i);
      TakeAt(h, k, n, Next(r, i));
      var j := if h.free[k].size == n && i >= k then i + 1 else i;
      assert Links(mem, h.free, j);
    }
  }

  lemma CarvedKeepsLive(base: nat, mem: Memory, h: Heap, k: nat, n: nat)
    requires Inv(base, h) && Linked(mem, h.free) && LiveHeaders(mem, h.live)
    requires 0 < k < |h.free| && h.free[k].size >= n > 0
    ensures Links(mem, h.free, k) && Links(mem, h.free, k - 1)
    ensures LiveHeaders(Carved(mem, h.free[k - 1].at, h.free[k].at, n), Take(h, k, n).live)
  {
    assert Links(mem, h.free, k) && Links(mem, h.free, k - 1);
    forall x | x in h.live ensures x != h.free[k].at && x != h.free[k - 1].at && x != Taken(h.free[k], n).at {
      assert h.free[k].Apart(Blk(x, h.live[x]));
      assert h.free[k - 1].Apart(Blk(x, h.live[x]));
    }
  }

  class Allocator {
    const base: nat           // address of the static header
    var mem: Memory
    var freep: nat            // 0 before the first malloc
    ghost var heap: Heap

    ghost predicate Ready()
      reads this
    {
      && base > 0 && Inv(base, heap) && |heap.free| > 0 && heap.free[0].at == base && heap.cur < |heap.free|
      && Linked(mem, heap.free) && LiveHeaders(mem, heap.live)
      && freep == heap.free[heap.cur].at
    }

    ghost predicate Valid()
      reads this
    {
      if freep == 0 then base > 0 && heap == FRESH else Ready()
    }

    constructor (base: nat)
      requires base > 0
      ensures Valid() && this.base == base && heap == FRESH
    {
      this.base := base;
      mem, freep, heap := map[], 0, FRESH;
    }

    /** The search loop of free(): the free block after which bp belongs. */
    method FindPlace(bp: nat) returns (p: nat)
      requires Ready() && base < bp
      requires forall i :: 0 <= i < |heap.free| ==> heap.free[i].at != bp
      ensures p == heap.free[Pred(heap.free, bp)].at
    {
      ghost var free := heap.free;
      ghost var k := Pred(free, bp);
      p := freep;
      ghost var i: nat := heap.cur;
      assert Links(mem, free, i);
      while !(bp > p && bp < mem[p].ptr)
        invariant i < |free| && p == free[i].at && Links(mem, free, i)
        decreases if i <= k then k - i else |free| + k - i
      {
        if p >= mem[p].ptr && (bp > p || bp < mem[p].ptr) {
          break;
        }
        p := mem[p].ptr;
        i := Next(free, i);
        assert Links(mem, free, i);
      }
    }

    method Free(ap: nat)
      requires Valid() && ap > 0 && ap - 1 in heap.live
      modifies this
      ensures Valid() && freep != 0 && heap == HeapSpec.Free(old(heap), ap - 1)
      ensures freep < ap - 1 && (forall i :: 0 <= i < |old(heap).free| && old(heap).free[i].at < ap - 1 ==>
                old(heap).free[i].at <= freep)
    {
      hide Inv, Linked, LiveHeaders, HeapSpec.Free, Insert, Gapped, Sized, LiveOk, Conserved, Pred;
      var bp := ap - 1;
      NotFree(base, heap, bp);
      LastBelow(base, heap, bp);
      var p := FindPlace(bp);
      FreeStep(base, mem, heap, bp);
      var nx := mem[p].ptr;
      var hb;
      if bp + mem[bp].size == nx {
        hb := Header(mem[nx].ptr, mem[bp].size + mem[nx].size);
      } else {
        hb := Header(nx, mem[bp].size);
      }
      var hp;
      if p + mem[p].size == bp {
        hp := Header(hb.ptr, mem[p].size + hb.size);
      } else {
        hp := Header(bp, mem[p].size);
      }
      mem := mem[bp := hb][p := hp];
      freep := p;
      heap := HeapSpec.Free(heap, bp);
    }

    /** avail is what sbrk answers: the address of the new memory, or failure. */
    method Morecore(nu: nat, avail: Option<nat>) returns (ok: bool)
      requires Ready() && nu > 0 && (avail.Some? ==> FreshCore(base, heap, avail.value))
      modifies this
      ensures Ready()
      ensures ok <==> avail.Some?
      ensures ok ==> heap.core == old(heap).core + [Blk(avail.value, Max(4096, nu))]
      ensures heap == if ok then Grow(old(heap), avail.value, nu) else old(heap)
    {
      hide Linked, Insert, Pred, HeapSpec.Free;
      var n := if nu < MINCORE then MINCORE else nu;
      if avail.None? {
        return false;
      }
      var hp := avail.value;
      var stale := if hp in mem then mem[hp].ptr else 0;
      ObtainStep(base, mem, heap, Blk(hp, n), stale);
      mem := mem[hp := Header(stale, n)];
      heap := Obtain(heap, Blk(hp, n));
      FreeCore(heap, hp);
      Free(hp + 1);
      return true;
    }

    /** malloc's exit: n units of the block at p go to the caller. */
    method Carve(prevp: nat, p: nat, n: nat, ghost k: nat) returns (r: nat)
      requires Ready() && n > 0 && 0 < k < |heap.free| && heap.free[k].size >= n
      requires p == heap.free[k].at && prevp == heap.free[k - 1].at
      modifies this
      ensures Ready() && heap == Take(old(heap), k, n)
      ensures r == old(heap).free[k].at + old(heap).free[k].size - n + 1 && freep == prevp
    {
      hide Inv, Linked, LiveHeaders;
      CarveStep(base, mem, heap, k, n);
      if mem[p].size == n {
        mem := mem[prevp := Header(mem[p].ptr, mem[prevp].size)];
        r := p + 1;
      } else {
        var rest := mem[p].size - n;
        var tail := p + rest;
        mem := mem[p := Header(mem[p].ptr, rest)][tail := Header(if tail in mem then mem[tail].ptr else 0, n)];
        r := tail + 1;
      }
      freep := prevp;
      heap := Take(heap, k, n);
    }

    /** Returns 0 when no block fits and sbrk fails. */
    method Malloc(nbytes: nat, avail: Option<nat>) returns (r: nat)
      requires Valid() && nbytes < U32
      requires avail.Some? ==> FreshCore(base, Initialised(base, heap), avail.value)
      modifies this
      ensures Valid() && freep != 0
      ensures Inv(base, Initialised(base, old(heap)))
      ensures heap == DoMalloc(base, Initialised(base, old(heap)), NUnits(nbytes), avail)
      ensures r == 0 <==>
        avail.None? && forall k :: 0 <= k < |old(heap).free| ==> old(heap).free[k].size < NUnits(nbytes)
      ensures r == 0 ==> heap.live == old(heap).live
      ensures r != 0 ==> r - 1 !in old(heap).live && heap.live == old(heap).live[r - 1 := NUnits(nbytes)]
    {
      var n := NUnits(nbytes);
      InitialisedOk(base, heap);
      FitExactly(base, Initialised(base, heap), n);
      if freep == 0 {
        freep := base;
        mem := mem[base := Header(base, 0)];
        heap := Initialised(base, heap);
      }
      r := Search(n, avail);
    }

    /** malloc's loop: first fit around the ring, growing the heap at most once. */
    method Search(n: nat, avail: Option<nat>) returns (r: nat)
      requires Ready() && n > 0 && (avail.Some? ==> FreshCore(base, heap, avail.value))
      modifies this
      ensures Ready() && heap == DoMalloc(base, old(heap), n, avail)
      ensures r == 0 <==> Fit(old(heap), n).None? && avail.None?
      ensures r == 0 ==> heap == old(heap)
      ensures r != 0 ==> r - 1 !in old(heap).live && heap.live == old(heap).live[r - 1 := n]
    {
      hide Inv, Linked, LiveHeaders, Scanning, Fit, FirstFit, Grow, Take, DoMalloc;
      var prevp := freep;
      FollowLink(base, mem, heap, heap.cur);
      var p := mem[prevp].ptr;
      ghost var i: nat, m: nat, grown := Next(heap.free, heap.cur), |heap.free|, false;
      ScanStart(base, heap, n);
      while true
        invariant Ready() && i < |heap.free| && Scanning(heap, n, prevp, p, i, m)
        invariant grown ==> avail.Some? && Fit(heap, n).Some?
        invariant heap == if grown then Grow(old(heap), avail.value, n) else old(heap)
        invariant grown ==> Fit(old(heap), n).None?
        decreases !grown, m
      {
        FollowLink(base, mem, heap, i);
        ScanStep(base, heap, n, prevp, p, i, m);
        if mem[p].size >= n {
          TakeKeepsInv(base, heap, i, n);
          MallocTakes(base, old(heap), n, avail, heap, i);
          r := Carve(prevp, p, n, i);
          return;
        }
        if p == freep {
          var ok := Morecore(n, avail);
          MallocGrows(base, old(heap), n, avail);
          if !ok {
            return 0;
          }
          grown := true;
          p := freep;
          i := heap.cur;
        }
        FollowLink(base, mem, heap, i);
        ScanStart(base, heap, n);
        prevp := p;
        p := mem[p].ptr;
        i, m := Next(heap.free, i), if i == heap.cur then |heap.free| else m - 1;
      }
    }
  }

  lemma FreeCore(h: Heap, a: nat)
    requires |h.free| > 0 && h.free[0].at < a && a in h.live
    ensures HeapSpec.Free(h, a).core == h.core
  {
  }

  lemma LastBelow(base: nat, h: Heap, bp: nat)
    requires Inv(base, h) && bp in h.live
    ensures |h.free| > 0 && h.free[0].at < bp
    ensures var p := h.free[Pred(h.free, bp)].at;
      p < bp && forall i :: 0 <= i < |h.free| && h.free[i].at < bp ==> h.free[i].at <= p
  {
  }

  /** malloc's scan is at free block i, with m blocks left to look at. */
  ghost predicate Scanning(h: Heap, n: nat, prevp: nat, p: nat, i: nat, m: nat) {
    && h.cur < |h.free| && 1 <= m <= |h.free| && i < |h.free| && p == h.free[i].at
    && i == (var j := h.cur + 1 + |h.free| - m; if j < |h.free| then j else j - |h.free|)
    && (i > 0 ==> prevp == h.free[i - 1].at)
    && Fit(h, n) == FirstFit(h.free, n, i, m)
  }

  lemma ScanStart(base: nat, h: Heap, n: nat)
    requires Inv(base, h)
    ensures Scanning(h, n, h.free[h.cur].at, h.free[Next(h.free, h.cur)].at, Next(h.free, h.cur), |h.free|)
  {
  }

  lemma ScanStep(base: nat, h: Heap, n: nat, prevp: nat, p: nat, i: nat, m: nat)
    requires Inv(base, h) && n > 0 && Scanning(h, n, prevp, p, i, m)
    ensures i < |h.free| && p == h.free[i].at && (i == h.cur <==> p == h.free[h.cur].at)
    ensures h.free[i].size >= n ==> Fit(h, n) == Some(i) && i > 0 && prevp == h.free[i - 1].at
    ensures h.free[i].size < n && i == h.cur ==> Fit(h, n).None?
    ensures h.free[i].size < n && i != h.cur ==>
      m > 1 && Scanning(h, n, p, h.free[Next(h.free, i)].at, Next(h.free, i), m - 1)
  {
    if p == h.free[h.cur].at { DistinctFree(h.free, i, h.cur); }
    if h.free[i].size < n && i == h.cur {
      assert m == 1;
      assert FirstFit(h.free, n, Next(h.free, i), 0).None?;
    }
  }

  lemma FollowLink(base: nat, mem: Memory, h: Heap, i: nat)
    requires Inv(base, h) && Linked(mem, h.free) && i < |h.free|
    ensures h.free[i].at in mem && mem[h.free[i].at] == Header(h.free[Next(h.free, i)].at, h.free[i].size)
  {
    assert Links(mem, h.free, i);
  }

  /** Taking the first fit, of the old heap or of the grown one, is what malloc does. */
  lemma MallocTakes(base: nat, h: Heap, n: nat, avail: Option<nat>, g: Heap, i: nat)
    requires Inv(base, h) && n > 0 && (avail.Some? ==> FreshCore(base, h, avail.value))
    requires g == h || (avail.Some? && Fit(h, n).None? && g == Grow(h, avail.value, n))
    requires Inv(base, g) && Fit(g, n) == Some(i) && 0 < i < |g.free| && g.free[i].size >= n
    ensures DoMalloc(base, h, n, avail) == Take(g, i, n)
    ensures Fit(h, n).Some? || avail.Some?
    ensures Take(g, i, n).live == h.live[Taken(g.free[i], n).at := n] && g.live == h.live
  {
    if g != h {
      GrowLive(base, h, avail.value, n);
    }
  }

  lemma MallocGrows(base: nat, h: Heap, n: nat, avail: Option<nat>)
    requires Inv(base, h) && n > 0 && (avail.Some? ==> FreshCore(base, h, avail.value))
    ensures Fit(h, n).None? && avail.None? ==> DoMalloc(base, h, n, avail) == h
    ensures avail.Some? ==> Fit(Grow(h, avail.value, n), n).Some?
  {
    if avail.Some? {
      GrowFits(base, h, avail.value, n);
    }
  }

  lemma GrowLive(base: nat, h: Heap, at: nat, n: nat)
    requires Inv(base, h) && FreshCore(base, h, at)
    ensures Grow(h, at, n).live == h.live
  {
    CoreApart(base, h, Blk(at, CoreSize(n)));
  }

  lemma NotFree(base: nat, h: Heap, a: nat)
    requires Inv(base, h) && a in h.live
    ensures base < a && forall i :: 0 <= i < |h.free| ==> h.free[i].at != a
  {
    forall i | 0 <= i < |h.free| ensures h.free[i].at != a {
      assert h.free[i].Apart(Blk(a, h.live[a]));
    }
  }

  lemma FreeStep(base: nat, mem: Memory, h: Heap, a: nat)
    requires Inv(base, h) && Linked(mem, h.free) && LiveHeaders(mem, h.live) && a in h.live
    ensures |h.free| > 0 && h.free[0].at < a
    ensures var p := h.free[Pred(h.free, a)].at;
      && base <= p && p in mem && a in mem && mem[p].ptr in mem && p != a
      && var g := HeapSpec.Free(h, a);
         && Inv(base, g) && g.cur < |g.free| && g.free[0].at == base && p == g.free[g.cur].at
         && Linked(Relinked(mem, p, a), g.free) && LiveHeaders(Relinked(mem, p, a), g.live)
  {
    var b := Blk(a, h.live[a]);
    var k := Pred(h.free, a);
    FreeKeepsInv(base, h, a);
    RelinkedLinks(base, mem, h.free, b);
    RelinkedKeepsLive(base, mem, h, a);
    Neighbours(base, h.free, b);
    InsertAt(h.free, k, b, k);
  }

  lemma ObtainStep(base: nat, mem: Memory, h: Heap, b: Blk, x: nat)
    requires Inv(base, h) && Linked(mem, h.free) && LiveHeaders(mem, h.live)
    requires FreshCore(base, h, b.at) && b.size > 0
    ensures Inv(base, Obtain(h, b))
    ensures Linked(mem[b.at := Header(x, b.size)], h.free)
    ensures LiveHeaders(mem[b.at := Header(x, b.size)], Obtain(h, b).live)
  {
    ObtainKeepsInv(base, h, b);
    CoreApart(base, h, b);
    NotFree(base, Obtain(h, b), b.at);
    var m := mem[b.at := Header(x, b.size)];
    forall i | 0 <= i < |h.free| ensures Links(m, h.free, i) {
      assert Links(mem, h.free, i);
    }
  }

  lemma CarveStep(base: nat, mem: Memory, h: Heap, k: nat, n: nat)
    requires Inv(base, h) && Linked(mem, h.free) && LiveHeaders(mem, h.live)
    requires 0 < k < |h.free| && h.free[k].size >= n > 0
    ensures h.free[k].at in mem && h.free[k - 1].at in mem && mem[h.free[k].at].size == h.free[k].size
    ensures
      var m := Carved(mem, h.free[k - 1].at, h.free[k].at, n);
      var g := Take(h, k, n);
      Inv(base, g) && Linked(m, g.free) && LiveHeaders(m, g.live) && h.free[k - 1].at == g.free[g.cur].at
  {
    TakeKeepsInv(base, h, k, n);
    CarvedLinks(base, mem, h, k, n);
    CarvedKeepsLive(base, mem, h, k, n);
    TakeLength(h, k, n);
    TakeAt(h, k, n, k - 1);
  }
}
