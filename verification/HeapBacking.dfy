/** morecore's request in 32-bit arithmetic, sbrk's answer, and the store of the new header: when the
    block that malloc hands out has memory behind it (xv6/umalloc.c, sys_sbrk and growproc). */
module HeapBacking {
  import opened Commons
  import opened Blocks
  import opened HeapSpec
  import VmSpec

  const KERNBASE: nat := VmSpec.UPAGES * VmSpec.PGSIZE

  /** The largest request whose units still make a positive int. */
  const MAXREQUEST: nat := 0x7FFF_FFF0

  /** A 32-bit word read as an int. */
  function Signed(w: nat): int {
    if w < 0x8000_0000 then w else w - U32
  }

  /** nu * sizeof(Header) in morecore, as sys_sbrk reads it. */
  function Asked(n: nat): int {
    Signed(CoreSize(n) * HEADER % U32)
  }

  /** The process size after sbrk(n); None is -1.  `pages` says whether allocuvm finds the pages. */
  function Sbrk(sz: nat, n: int, pages: bool): Option<nat> {
    if n > 0 then (if sz + n < KERNBASE && pages then Some(sz + n) else None)
    else if sz + n < 0 then Some(sz)             // sz + n wraps above sz: deallocuvm does nothing
    else if n < 0 && sz + n == 0 then None
    else Some(sz + n)
  }

  /** What morecore comes to: sbrk fails, the store of hp->s.size at the old process size faults, or
      the block is linked in and the process has a new size. */
  datatype Core = Refused | Faults | Links(top: nat)

  /** User pages are mapped up to the process size, rounded up. */
  function Morecore(sz: nat, n: nat, pages: bool): Core {
    match Sbrk(sz, Asked(n), pages)
    case None => Refused
    case Some(top) => if sz / VmSpec.PGSIZE < VmSpec.PagesOf(top) then Links(top) else Faults
  }

  /** The bytes of a block, after its header, that lie below the process size. */
  predicate Backed(b: Blk, nbytes: nat, top: nat) {
    HEADER * (b.at + 1) + nbytes <= top
  }

  lemma NothingFits(h: Heap, n: nat, i: nat)
    requires h.cur < |h.free| && Fit(h, n).None? && i < |h.free|
    ensures h.free[i].size < n
  {
    if h.free[i].size >= n { FirstFitFinds(h.free, n, Next(h.free, h.cur), |h.free|, i); }
  }

  /** New memory lies above every free block. */
  lemma CoreAbove(base: nat, h: Heap, at: nat)
    requires Inv(base, h) && FreshCore(base, h, at)
    ensures forall i :: 0 <= i < |h.free| ==> h.free[i].at < at
  {
    forall i | 0 <= i < |h.free| ensures h.free[i].at < at {
      if i > 0 {
        assert h.free[i].Has(h.free[i].at);
        assert Covers(h.core, h.free[i].at);
      }
    }
  }

  /** When nothing fitted, malloc hands out the last units of the new memory. */
  lemma TakenFromCore(base: nat, h: Heap, at: nat, n: nat)
    requires Inv(base, h) && FreshCore(base, h, at) && n > 0 && Fit(h, n).None?
    ensures var g := Grow(h, at, n);
      && Inv(base, g) && Fit(g, n).Some? && Fit(g, n).value < |g.free| && g.free[Fit(g, n).value].size >= n
      && Taken(g.free[Fit(g, n).value], n) == Blk(at + CoreSize(n) - n, n)
  {
    GrowFits(base, h, at, n);
    var b, g := Blk(at, CoreSize(n)), Grow(h, at, n);
    FitIsBlock(base, g, n);
    CoreAbove(base, h, at);
    CoreApart(base, h, b);
    var k, q := Pred(h.free, at), Fit(g, n).value;
    InsertAt(h.free, k, b, k);
    InsertAt(h.free, k, b, q);
    if q < k { NothingFits(h, n, q); }
    NothingFits(h, n, k);
  }

  /** Unit count and request of morecore over all of malloc's argument range. */
  lemma AskedExactly(nbytes: nat)
    requires nbytes < U32
    ensures var n := NUnits(nbytes);
      && (nbytes <= MAXREQUEST ==> HEADER * (n - 1) >= nbytes && Asked(n) == HEADER * CoreSize(n) > 0)
      && (nbytes > MAXREQUEST ==> n == 1 || (n >= MINCORE && Asked(n) <= 0))
  {
  }

  /** The store faults exactly when sbrk has added nothing and the page at the old size is not, or no
      longer, mapped; this takes a request above MAXREQUEST. */
  lemma FaultsExactly(sz: nat, nbytes: nat, pages: bool)
    requires nbytes < U32
    ensures var n := NUnits(nbytes);
      var r := Sbrk(sz, Asked(n), pages);
      && (Morecore(sz, n, pages).Faults? <==> Asked(n) <= 0 && r.Some? && r.value <= sz - sz % 4096)
      && (Asked(n) <= 0 ==> nbytes > MAXREQUEST)
  {
    AskedExactly(nbytes);
    var r := Sbrk(sz, Asked(NUnits(nbytes)), pages);
    if r.Some? { PageBegins(sz, r.value); }
  }

  lemma PageBegins(sz: nat, top: nat)
    ensures sz / VmSpec.PGSIZE < VmSpec.PagesOf(top) <==> sz - sz % 4096 < top
  {
    var q := sz / 4096;
    assert sz - sz % 4096 == 4096 * q;
    CeilAbove(q, top);
  }

  lemma CeilAbove(q: nat, top: nat)
    ensures q < (top + 4095) / 4096 <==> 4096 * q < top
  {
  }

  /** A malloc that goes through morecore and returns has its bytes below the process size exactly
      when the request is at most MAXREQUEST. */
  lemma BackedExactly(base: nat, h: Heap, at: nat, nbytes: nat, pages: bool, top: nat)
    requires Inv(base, h) && FreshCore(base, h, at) && nbytes < U32 && Fit(h, NUnits(nbytes)).None?
    requires Morecore(HEADER * at, NUnits(nbytes), pages) == Links(top)
    ensures var n := NUnits(nbytes);
      var g := Grow(h, at, n);
      && Inv(base, g) && Fit(g, n).Some? && Fit(g, n).value < |g.free| && g.free[Fit(g, n).value].size >= n
      && (Backed(Taken(g.free[Fit(g, n).value], n), nbytes, top) <==> nbytes <= MAXREQUEST)
  {
    hide NUnits, Asked, Grow, Fit, VmSpec.PagesOf;
    var n := NUnits(nbytes);
    AskedExactly(nbytes);
    assert n > 0 by { UnitsPositive(nbytes); }
    TakenFromCore(base, h, at, n);
  }

  lemma UnitsPositive(nbytes: nat)
    ensures NUnits(nbytes) > 0
  {
  }

  // ---------------------------------------------------------------- one input on each side

  lemma FirstCall(base: nat, at: nat, n: nat)
    requires base < at && n > 0
    ensures var h := Initialised(base, FRESH); Inv(base, h) && FreshCore(base, h, at) && Fit(h, n).None?
  {
    assert FirstFit(Initialised(base, FRESH).free, n, 0, 0).None?;
  }

  /** A first malloc of 100 bytes: sbrk grows the process by 4096 units, and the bytes are there. */
  lemma SmallRequest(base: nat, at: nat)
    requires base < at && HEADER * at + 0x8000 < KERNBASE
    ensures var h, n := Initialised(base, FRESH), NUnits(100);
      && Inv(base, h) && FreshCore(base, h, at) && Fit(h, n).None?
      && Morecore(HEADER * at, n, true) == Links(HEADER * at + 0x8000)
      && Backed(Taken(Blk(at, CoreSize(n)), n), 100, HEADER * at + 0x8000)
  {
    FirstCall(base, at, NUnits(100));
    FaultsExactly(HEADER * at, 100, true);
  }

  /** A first malloc of 2^32 - 8 bytes: the product is 2^32 and sbrk(0) succeeds.  With a process size
      at a page boundary, as exec leaves it, the store faults; else a block of 2^29 units is linked in
      with no memory behind it but the rest of that page. */
  lemma HugeRequest(base: nat, at: nat, pages: bool)
    requires base < at
    ensures var h, n := Initialised(base, FRESH), NUnits(0xFFFF_FFF8);
      && Inv(base, h) && FreshCore(base, h, at) && Fit(h, n).None? && n == 0x2000_0000
      && Morecore(HEADER * at, n, pages) == (if HEADER * at % 4096 == 0 then Faults else Links(HEADER * at))
      && !Backed(Taken(Blk(at, CoreSize(n)), n), 0xFFFF_FFF8, HEADER * at)
  {
    FirstCall(base, at, NUnits(0xFFFF_FFF8));
    FaultsExactly(HEADER * at, 0xFFFF_FFF8, pages);
  }

  /** A first malloc of 2^32 - 2^16 bytes: the product reads as a negative int, sbrk takes nearly
      2^16 bytes away and succeeds, and the store faults. */
  lemma NegativeRequest(base: nat, at: nat, pages: bool)
    requires base < at && 0xFFF8 < HEADER * at
    ensures var h, n := Initialised(base, FRESH), NUnits(0xFFFF_0000);
      && Inv(base, h) && FreshCore(base, h, at) && Fit(h, n).None?
      && Sbrk(HEADER * at, Asked(n), pages) == Some(HEADER * at - 0xFFF8)
      && Morecore(HEADER * at, n, pages) == Faults
  {
    FirstCall(base, at, NUnits(0xFFFF_0000));
    FaultsExactly(HEADER * at, 0xFFFF_0000, pages);
  }

  /** A first malloc of 2^32 - 16 bytes makes sbrk take 8 bytes away; unless these end a page, the
      block is linked in. */
  lemma ShrinkingRequest(base: nat, at: nat, pages: bool)
    requires base < at && HEADER * at % 4096 > 8
    ensures var h, n := Initialised(base, FRESH), NUnits(0xFFFF_FFF0);
      && Inv(base, h) && FreshCore(base, h, at) && Fit(h, n).None?
      && Morecore(HEADER * at, n, pages) == Links(HEADER * at - 8)
      && !Backed(Taken(Blk(at, CoreSize(n)), n), 0xFFFF_FFF0, HEADER * at - 8)
  {
    FirstCall(base, at, NUnits(0xFFFF_FFF0));
    FaultsExactly(HEADER * at, 0xFFFF_FFF0, pages);
  }

  // ---------------------------------------------------------------- runs

  /** A heap and the process size, in units. */
  datatype Process = Process(h: Heap, top: nat)

  /** A malloc, a free, or growth by the program's own sbrk. */
  datatype Action = Request(nbytes: nat, pages: bool) | Give(a: nat) | Extend(units: nat)

  /** The call that the action makes on the heap: sbrk is asked if nothing fits. */
  function CallOf(p: Process, n: nat, pages: bool): Call {
    Malloc(n, if Morecore(HEADER * p.top, n, pages).Links? then Some(p.top) else None)
  }

  /** Requests up to MAXREQUEST and frees of blocks that are held. */
  ghost predicate Allowed(p: Process, act: Action) {
    match act
    case Request(nbytes, pages) => nbytes <= MAXREQUEST
    case Give(a) => a in p.h.live
    case Extend(units) => true
  }

  /** The heap is in order and lies below the process size. */
  ghost predicate Below(base: nat, p: Process) {
    Ok(base, p.h) && FreshCore(base, Initialised(base, p.h), p.top)
  }

  ghost function Act(base: nat, p: Process, act: Action): Process
    requires Below(base, p) && Allowed(p, act)
  {
    match act
    case Request(nbytes, pages) =>
      var n := NUnits(nbytes);
      UnitsPositive(nbytes);
      var h := Do(base, p.h, CallOf(p, n, pages));
      InitialisedOk(base, p.h);
      if Fit(Initialised(base, p.h), n).None? && Morecore(HEADER * p.top, n, pages).Links?
      then Process(h, Morecore(HEADER * p.top, n, pages).top / HEADER) else Process(h, p.top)
    case Give(a) => Process(Do(base, p.h, Release(a)), p.top)
    case Extend(units) => Process(p.h, p.top + units)
  }

  lemma ActKeepsBelow(base: nat, p: Process, act: Action)
    requires Below(base, p) && Allowed(p, act)
    ensures Below(base, Act(base, p, act)) && p.top <= Act(base, p, act).top
  {
    hide Inv, Fit, Insert, Pred, Take, Morecore;
    InitialisedOk(base, p.h);
    match act
    case Request(nbytes, pages) =>
      var n := NUnits(nbytes);
      UnitsPositive(nbytes);
      DoKeepsInv(base, p.h, CallOf(p, n, pages));
      CoreAfter(base, Initialised(base, p.h), n, CallOf(p, n, pages).core);
      LinksAdds(p.top, nbytes, pages);
    case Give(a) =>
      DoKeepsInv(base, p.h, Release(a));
    case Extend(units) =>
  }

  /** A request up to MAXREQUEST that is served through morecore moves the process size behind it. */
  lemma LinksAdds(top: nat, nbytes: nat, pages: bool)
    requires nbytes <= MAXREQUEST
    ensures var r := Morecore(HEADER * top, NUnits(nbytes), pages);
      r.Links? ==> r.top == HEADER * (top + CoreSize(NUnits(nbytes)))
  {
    AskedExactly(nbytes);
  }

  lemma CoreAfter(base: nat, h: Heap, n: nat, core: Option<nat>)
    requires Inv(base, h) && n > 0 && (core.Some? ==> FreshCore(base, h, core.value))
    ensures DoMalloc(base, h, n, core).core ==
      if Fit(h, n).None? && core.Some? then h.core + [Blk(core.value, CoreSize(n))] else h.core
    ensures DoMalloc(base, h, n, core).free != [] || DoMalloc(base, h, n, core) == h
  {
    hide Insert, FirstFit;
    if Fit(h, n).Some? {
      FitIsBlock(base, h, n);
    } else if core.Some? {
      GrowFits(base, h, core.value, n);
      FitIsBlock(base, Grow(h, core.value, n), n);
    }
  }

  /** ps is the process before each action and after the last. */
  ghost predicate IsRun(base: nat, ps: seq<Process>, acts: seq<Action>) {
    && |ps| == |acts| + 1 && ps[0].h == FRESH && base < ps[0].top
    && forall i :: 0 <= i < |acts| ==>
         Allowed(ps[i], acts[i]) && (Below(base, ps[i]) ==> ps[i + 1] == Act(base, ps[i], acts[i]))
  }

  lemma {:induction false} RunKeepsBelow(base: nat, ps: seq<Process>, acts: seq<Action>, i: nat)
    requires IsRun(base, ps, acts) && i < |ps|
    ensures Below(base, ps[i])
  {
    hide Act;
    if i > 0 {
      RunKeepsBelow(base, ps, acts, i - 1);
      ActKeepsBelow(base, ps[i - 1], acts[i - 1]);
    }
  }

  /** Over every sequence of frees and of requests up to MAXREQUEST, all blocks handed out and not
      freed lie below the process size. */
  lemma LiveBacked(base: nat, ps: seq<Process>, acts: seq<Action>, i: nat, a: nat)
    requires IsRun(base, ps, acts) && i < |ps| && a in ps[i].h.live
    ensures a + ps[i].h.live[a] <= ps[i].top
  {
    hide Act;
    RunKeepsBelow(base, ps, acts, i);
    var h := ps[i].h;
    var u := a + h.live[a] - 1;
    assert Blk(a, h.live[a]).Has(u);
    assert LiveCovers(h.live, u);
    assert Covers(h.core, u);
  }
}
