/** The K&R allocator of xv6/umalloc.c on values: the free list in address order,
    the live blocks, the memory obtained from sbrk, and what every malloc/free
    sequence keeps.  Addresses and sizes are in Header units (8 bytes). */
module HeapSpec {
  import opened Commons
  import opened Blocks

  const HEADER: nat := 8
  const MINCORE: nat := 4096

  /** A block: its header's address and its length, header included. */
  datatype Blk = Blk(at: nat, size: nat) {
    predicate Has(u: int) {
      at <= u < at + size
    }

    predicate Apart(b: Blk) {
      at + size <= b.at || b.at + b.size <= at
    }
  }

  /** free[0] is the static header `base`; freep points to free[cur];
      live maps the headers handed out to their sizes; core lists the blocks morecore made of sbrk's answers. */
  datatype Heap = Heap(free: seq<Blk>, cur: nat, live: map<nat, nat>, core: seq<Blk>)

  // ---------------------------------------------------------------- operations

  /** malloc's unit count, in 32-bit arithmetic. */
  function NUnits(nbytes: nat): nat {
    (nbytes + HEADER - 1) % U32 / HEADER + 1
  }

  /** The last free block below address a: where free's search stops. */
  function Pred(free: seq<Blk>, a: nat): (k: nat)
    requires |free| > 0 && free[0].at < a
    ensures k < |free| && free[k].at < a && forall i :: k < i < |free| ==> a <= free[i].at
  {
    var last := |free| - 1;
    if free[last].at < a then last else
    var k := Pred(free[..last], a);
    assert free[..last][k] == free[k];
    assert forall i :: k < i < last ==> free[i] == free[..last][i];
    k
  }

  predicate JoinsNext(free: seq<Blk>, k: nat, b: Blk) {
    k + 1 < |free| && b.at + b.size == free[k + 1].at
  }

  /** Block b linked in after free[k], coalesced with either neighbour it touches. */
  function Insert(free: seq<Blk>, k: nat, b: Blk): (r: seq<Blk>)
    requires k < |free|
    ensures k < |r|
  {
    var b' := if JoinsNext(free, k, b) then Blk(b.at, b.size + free[k + 1].size) else b;
    var rest := if JoinsNext(free, k, b) then free[k + 2..] else free[k + 1..];
    if free[k].at + free[k].size == b.at
    then free[..k] + [Blk(free[k].at, free[k].size + b'.size)] + rest
    else free[..k + 1] + [b'] + rest
  }

  function Free(h: Heap, a: nat): Heap
    requires |h.free| > 0 && h.free[0].at < a && a in h.live
  {
    var k := Pred(h.free, a);
    Heap(Insert(h.free, k, Blk(a, h.live[a])), k, h.live - {a}, h.core)
  }

  /** morecore's block, before morecore frees it. */
  function Obtain(h: Heap, b: Blk): Heap {
    h.(live := h.live[b.at := b.size], core := h.core + [b])
  }

  function CoreSize(n: nat): nat {
    if n < MINCORE then MINCORE else n
  }

  function Grow(h: Heap, at: nat, n: nat): Heap
    requires |h.free| > 0 && h.free[0].at < at
  {
    Free(Obtain(h, Blk(at, CoreSize(n))), at)
  }

  function Next(free: seq<Blk>, i: nat): (j: nat)
    requires i < |free|
    ensures j < |free|
  {
    if i + 1 < |free| then i + 1 else 0
  }

  /** The first of m free blocks from index i on, around the ring, that has n units. */
  function FirstFit(free: seq<Blk>, n: nat, i: nat, m: nat): Option<nat>
    requires i < |free|
    decreases m
  {
    if m == 0 then None
    else if free[i].size >= n then Some(i)
    else FirstFit(free, n, Next(free, i), m - 1)
  }

  /** What malloc(n units) finds without asking for more memory. */
  function Fit(h: Heap, n: nat): Option<nat>
    requires h.cur < |h.free|
  {
    FirstFit(h.free, n, Next(h.free, h.cur), |h.free|)
  }

  /** Free block k gives n units from its end, or itself. */
  function Taken(b: Blk, n: nat): Blk
    requires b.size >= n
  {
    Blk(b.at + b.size - n, n)
  }

  function Take(h: Heap, k: nat, n: nat): Heap
    requires 0 < k < |h.free| && h.free[k].size >= n
  {
    var b := h.free[k];
    Heap(if b.size == n then h.free[..k] + h.free[k + 1..] else h.free[k := Blk(b.at, b.size - n)],
         k - 1, h.live[Taken(b, n).at := n], h.core)
  }

  // ---------------------------------------------------------------- invariant

  ghost predicate Covers(bs: seq<Blk>, u: int) {
    exists i :: 0 <= i < |bs| && bs[i].Has(u)
  }

  ghost predicate LiveCovers(live: map<nat, nat>, u: int) {
    exists a :: a in live && Blk(a, live[a]).Has(u)
  }

  /** Address order with a gap after every block: no two free blocks touch. */
  ghost predicate Gapped(free: seq<Blk>) {
    forall i, j :: 0 <= i < j < |free| ==> free[i].at + free[i].size < free[j].at
  }

  ghost predicate Sized(base: nat, free: seq<Blk>) {
    && |free| > 0 && free[0] == Blk(base, 0)
    && forall i :: 0 < i < |free| ==> free[i].size > 0
  }

  ghost predicate AllApart(bs: seq<Blk>, b: Blk) {
    forall i :: 0 <= i < |bs| ==> bs[i].Apart(b)
  }

  ghost predicate LiveApart(live: map<nat, nat>, b: Blk) {
    forall a :: a in live && a != b.at ==> Blk(a, live[a]).Apart(b)
  }

  ghost predicate LiveOk(base: nat, free: seq<Blk>, live: map<nat, nat>) {
    forall a :: a in live ==>
      a > base && live[a] > 0 && AllApart(free, Blk(a, live[a])) && LiveApart(live, Blk(a, live[a]))
  }

  /** The obtained units are exactly the units of free and live blocks. */
  ghost predicate Conserved(h: Heap) {
    forall u: int :: Covers(h.core, u) <==> Covers(h.free, u) || LiveCovers(h.live, u)
  }

  ghost predicate Inv(base: nat, h: Heap) {
    && h.cur < |h.free|
    && Sized(base, h.free) && Gapped(h.free)
    && LiveOk(base, h.free, h.live)
    && Conserved(h)
  }

  /** sbrk returned memory beyond all it returned before, and beyond base. */
  ghost predicate FreshCore(base: nat, h: Heap, at: nat) {
    base < at && forall i :: 0 <= i < |h.core| ==> h.core[i].at + h.core[i].size <= at
  }

  // ---------------------------------------------------------------- free

  /** Where the search stops, the new block fits between its neighbours. */
  lemma Neighbours(base: nat, free: seq<Blk>, b: Blk)
    requires Sized(base, free) && Gapped(free) && base < b.at && b.size > 0 && AllApart(free, b)
    ensures var k := Pred(free, b.at);
      && free[k].at + free[k].size <= b.at
      && (k + 1 < |free| ==> b.at + b.size <= free[k + 1].at)
  {
    var k := Pred(free, b.at);
    assert free[k].Apart(b);
    if k + 1 < |free| {
      assert free[k + 1].Apart(b);
    }
  }

  /** The list after free() holds k unchanged blocks, one or two rebuilt ones, and the rest shifted. */
  lemma InsertAt(free: seq<Blk>, k: nat, b: Blk, i: nat)
    requires k < |free| && i < |Insert(free, k, b)|
    ensures
      var r := Insert(free, k, b);
      var next := JoinsNext(free, k, b);
      var prev := free[k].at + free[k].size == b.at;
      var b' := if next then Blk(b.at, b.size + free[k + 1].size) else b;
      && |r| == |free| + (if prev then 0 else 1) - (if next then 1 else 0)
      && r[i] == (if i < k then free[i]
                  else if i == k then (if prev then Blk(free[k].at, free[k].size + b'.size) else free[k])
                  else if i == k + 1 && !prev then b'
                  else free[i - (if prev then 0 else 1) + (if next then 1 else 0)])
  {
  }

  lemma InsertGapped(base: nat, free: seq<Blk>, b: Blk)
    requires Sized(base, free) && Gapped(free) && base < b.at && b.size > 0 && AllApart(free, b)
    ensures var r := Insert(free, Pred(free, b.at), b); Sized(base, r) && Gapped(r)
  {
    hide Insert;
    var k := Pred(free, b.at);
    var r := Insert(free, k, b);
    Neighbours(base, free, b);
    forall i, j | 0 <= i < j < |r| ensures r[i].at + r[i].size < r[j].at {
      InsertAt(free, k, b, i);
      InsertAt(free, k, b, j);
    }
    forall i | 0 <= i < |r| ensures if i == 0 then r[i] == Blk(base, 0) else r[i].size > 0 {
      InsertAt(free, k, b, i);
    }
  }

  lemma InsertApart(base: nat, free: seq<Blk>, b: Blk, x: Blk)
    requires Sized(base, free) && Gapped(free) && base < b.at && b.size > 0 && AllApart(free, b)
    requires x.size > 0 && AllApart(free, x) && b.Apart(x)
    ensures AllApart(Insert(free, Pred(free, b.at), b), x)
  {
    var k := Pred(free, b.at);
    var r := Insert(free, k, b);
    Neighbours(base, free, b);
    forall i | 0 <= i < |r| ensures r[i].Apart(x) {
      InsertAt(free, k, b, i);
      assert free[k].Apart(x);
      if k + 1 < |free| { assert free[k + 1].Apart(x); }
    }
  }

  lemma InsertCovers(base: nat, free: seq<Blk>, b: Blk, u: int)
    requires Sized(base, free) && Gapped(free) && base < b.at && b.size > 0 && AllApart(free, b)
    ensures Covers(Insert(free, Pred(free, b.at), b), u) <==> Covers(free, u) || b.Has(u)
  {
    var k := Pred(free, b.at);
    var r := Insert(free, k, b);
    if Covers(r, u) {
      var i :| 0 <= i < |r| && r[i].Has(u);
      InsertAddsNothing(free, k, b, u, i);
    }
    if b.Has(u) {
      var i := if free[k].at + free[k].size == b.at then k else k + 1;
      InsertAt(free, k, b, k);
      InsertAt(free, k, b, i);
      assert r[i].Has(u);
    } else if Covers(free, u) {
      var j :| 0 <= j < |free| && free[j].Has(u);
      InsertLosesNothing(free, k, b, u, j);
    }
  }

  lemma InsertAddsNothing(free: seq<Blk>, k: nat, b: Blk, u: int, i: nat)
    requires k < |free| && i < |Insert(free, k, b)| && Insert(free, k, b)[i].Has(u)
    ensures Covers(free, u) || b.Has(u)
  {
    var next, prev := JoinsNext(free, k, b), free[k].at + free[k].size == b.at;
    InsertAt(free, k, b, i);
    if !b.Has(u) {
      var j := if i <= k then (if free[i].Has(u) then i else k + 1)
               else if i == k + 1 && !prev then k + 1
               else i - (if prev then 0 else 1) + (if next then 1 else 0);
      assert free[j].Has(u);
    }
  }

  lemma InsertLosesNothing(free: seq<Blk>, k: nat, b: Blk, u: int, j: nat)
    requires k < |free| && j < |free| && free[j].Has(u)
    ensures Covers(Insert(free, k, b), u)
  {
    var next, prev := JoinsNext(free, k, b), free[k].at + free[k].size == b.at;
    var i := if j <= k then j
             else if j == k + 1 && next then (if prev then k else k + 1)
             else j + (if prev then 0 else 1) - (if next then 1 else 0);
    InsertAt(free, k, b, k);
    InsertAt(free, k, b, i);
    assert Insert(free, k, b)[i].Has(u);
  }

  lemma LiveRemove(live: map<nat, nat>, a: nat, u: int)
    requires a in live
    ensures LiveCovers(live, u) <==> LiveCovers(live - {a}, u) || Blk(a, live[a]).Has(u)
  {
    if LiveCovers(live, u) {
      var x :| x in live && Blk(x, live[x]).Has(u);
      assert x == a || x in live - {a};
    }
    if LiveCovers(live - {a}, u) {
      var x :| x in live - {a} && Blk(x, live[x]).Has(u);
      assert x in live;
    }
  }

  /** free() keeps the heap invariant. */
  lemma FreeKeepsInv(base: nat, h: Heap, a: nat)
    requires Inv(base, h) && a in h.live
    ensures Inv(base, Free(h, a))
  {
    var b, h' := Blk(a, h.live[a]), Free(h, a);
    InsertGapped(base, h.free, b);
    forall x | x in h'.live
      ensures AllApart(h'.free, Blk(x, h'.live[x])) && LiveApart(h'.live, Blk(x, h'.live[x]))
    {
      assert x in h.live;
      assert Blk(x, h.live[x]).Apart(b);
      InsertApart(base, h.free, b, Blk(x, h.live[x]));
    }
    forall u: int ensures Covers(h'.core, u) <==> Covers(h'.free, u) || LiveCovers(h'.live, u) {
      InsertCovers(base, h.free, b, u);
      LiveRemove(h.live, a, u);
    }
  }

  // ---------------------------------------------------------------- morecore

  lemma ObtainCovers(h: Heap, b: Blk, u: int)
    requires b.at !in h.live
    ensures Covers(h.core + [b], u) <==> Covers(h.core, u) || b.Has(u)
    ensures LiveCovers(h.live[b.at := b.size], u) <==> LiveCovers(h.live, u) || b.Has(u)
  {
    if Covers(h.core + [b], u) {
      var i :| 0 <= i < |h.core + [b]| && (h.core + [b])[i].Has(u);
      assert i < |h.core| ==> h.core[i].Has(u);
    }
    if Covers(h.core, u) {
      var i :| 0 <= i < |h.core| && h.core[i].Has(u);
      assert (h.core + [b])[i].Has(u);
    }
    if b.Has(u) {
      assert (h.core + [b])[|h.core|].Has(u);
      assert b.at in h.live[b.at := b.size];
    }
    assert h.live[b.at := b.size] - {b.at} == h.live;
    LiveRemove(h.live[b.at := b.size], b.at, u);
  }

  /** Memory beyond everything obtained so far touches no block. */
  lemma CoreApart(base: nat, h: Heap, b: Blk)
    requires Inv(base, h) && FreshCore(base, h, b.at) && b.size > 0
    ensures AllApart(h.free, b) && b.at !in h.live && LiveApart(h.live, b)
  {
    forall i | 0 <= i < |h.free| ensures h.free[i].Apart(b) {
      if i > 0 {
        var u := h.free[i].at + h.free[i].size - 1;
        assert h.free[i].Has(u);
        assert Covers(h.free, u);
        assert Covers(h.core, u);
      }
    }
    forall a | a in h.live ensures a != b.at && Blk(a, h.live[a]).Apart(b) {
      var u := a + h.live[a] - 1;
      assert Blk(a, h.live[a]).Has(u);
      assert LiveCovers(h.live, u);
      assert Covers(h.core, u);
    }
  }

  lemma ObtainKeepsInv(base: nat, h: Heap, b: Blk)
    requires Inv(base, h) && FreshCore(base, h, b.at) && b.size > 0
    ensures Inv(base, Obtain(h, b))
  {
    CoreApart(base, h, b);
    var h' := Obtain(h, b);
    forall u: int ensures Covers(h'.core, u) <==> Covers(h'.free, u) || LiveCovers(h'.live, u) {
      ObtainCovers(h, b, u);
    }
  }

  lemma GrowKeepsInv(base: nat, h: Heap, at: nat, n: nat)
    requires Inv(base, h) && FreshCore(base, h, at)
    ensures Inv(base, Grow(h, at, n))
  {
    var b := Blk(at, CoreSize(n));
    ObtainKeepsInv(base, h, b);
    FreeKeepsInv(base, Obtain(h, b), at);
  }

  lemma {:induction false} FirstFitFinds(free: seq<Blk>, n: nat, i: nat, m: nat, q: nat)
    requires i < |free| && q < |free| && free[q].size >= n
    requires if i <= q then q < i + m else q + |free| < i + m
    ensures FirstFit(free, n, i, m).Some?
    decreases m
  {
    if free[i].size < n {
      FirstFitFinds(free, n, Next(free, i), m - 1, q);
    }
  }

  lemma {:induction false} FirstFitFits(free: seq<Blk>, n: nat, i: nat, m: nat)
    requires i < |free| && FirstFit(free, n, i, m).Some?
    ensures var k := FirstFit(free, n, i, m).value; k < |free| && free[k].size >= n
    decreases m
  {
    if free[i].size < n {
      FirstFitFits(free, n, Next(free, i), m - 1);
    }
  }

  /** The fit is a real block: never the zero-sized base. */
  lemma FitIsBlock(base: nat, h: Heap, n: nat)
    requires Inv(base, h) && n > 0 && Fit(h, n).Some?
    ensures 0 < Fit(h, n).value < |h.free| && h.free[Fit(h, n).value].size >= n
  {
    FirstFitFits(h.free, n, Next(h.free, h.cur), |h.free|);
  }

  /** After morecore one block is large enough, merged into its predecessor or not. */
  lemma GrowFits(base: nat, h: Heap, at: nat, n: nat)
    requires Inv(base, h) && FreshCore(base, h, at)
    ensures Inv(base, Grow(h, at, n)) && Fit(Grow(h, at, n), n).Some?
  {
    GrowKeepsInv(base, h, at, n);
    var b, h' := Blk(at, CoreSize(n)), Grow(h, at, n);
    var k := Pred(h.free, at);
    var q := if h.free[k].at + h.free[k].size == at then k else k + 1;
    InsertAt(h.free, k, b, k);
    InsertAt(h.free, k, b, q);
    FirstFitFinds(h'.free, n, Next(h'.free, h'.cur), |h'.free|, q);
  }

  // ---------------------------------------------------------------- malloc

  lemma TakeAt(h: Heap, k: nat, n: nat, i: nat)
    requires 0 < k < |h.free| && h.free[k].size >= n && i < |Take(h, k, n).free|
    ensures
      var b := h.free[k];
      && |Take(h, k, n).free| == |h.free| - (if b.size == n then 1 else 0)
      && Take(h, k, n).free[i] ==
           (if b.size == n then h.free[if i < k then i else i + 1]
            else if i == k then Blk(b.at, b.size - n) else h.free[i])
  {
  }

  lemma TakeCovers(h: Heap, k: nat, n: nat, u: int)
    requires 0 < k < |h.free| && h.free[k].size >= n > 0
    ensures Covers(h.free, u) <==> Covers(Take(h, k, n).free, u) || Taken(h.free[k], n).Has(u)
  {
    hide Take;
    var r := Take(h, k, n).free;
    if Covers(r, u) {
      var i :| 0 <= i < |r| && r[i].Has(u);
      TakeAt(h, k, n, i);
      assert h.free[if h.free[k].size == n && i >= k then i + 1 else i].Has(u);
    }
    if Taken(h.free[k], n).Has(u) {
      assert h.free[k].Has(u);
    } else if Covers(h.free, u) {
      var j :| 0 <= j < |h.free| && h.free[j].Has(u);
      TakeLosesNothing(h, k, n, u, j);
    }
  }

  lemma TakeLosesNothing(h: Heap, k: nat, n: nat, u: int, j: nat)
    requires 0 < k < |h.free| && h.free[k].size >= n > 0
    requires j < |h.free| && h.free[j].Has(u) && !Taken(h.free[k], n).Has(u)
    ensures Covers(Take(h, k, n).free, u)
  {
    var i := if h.free[k].size == n && j > k then j - 1 else j;
    TakeAt(h, k, n, 0);
    TakeAt(h, k, n, i);
    assert Take(h, k, n).free[i].Has(u);
  }

  lemma TakeGapped(base: nat, h: Heap, k: nat, n: nat)
    requires Sized(base, h.free) && Gapped(h.free) && 0 < k < |h.free| && h.free[k].size >= n > 0
    ensures Sized(base, Take(h, k, n).free) && Gapped(Take(h, k, n).free)
  {
    hide Take;
    var r := Take(h, k, n).free;
    TakeLength(h, k, n);
    forall i, j | 0 <= i < j < |r| ensures r[i].at + r[i].size < r[j].at {
      TakeAt(h, k, n, i);
      TakeAt(h, k, n, j);
    }
    forall i | 0 <= i < |r| ensures if i == 0 then r[i] == Blk(base, 0) else r[i].size > 0 {
      TakeAt(h, k, n, i);
    }
  }

  lemma TakeLength(h: Heap, k: nat, n: nat)
    requires 0 < k < |h.free| && h.free[k].size >= n
    ensures k <= |Take(h, k, n).free|
  {
  }

  lemma TakeApart(h: Heap, k: nat, n: nat, x: Blk)
    requires 0 < k < |h.free| && h.free[k].size >= n > 0 && AllApart(h.free, x)
    ensures AllApart(Take(h, k, n).free, x) && Taken(h.free[k], n).Apart(x)
  {
    hide Take;
    var r := Take(h, k, n).free;
    assert h.free[k].Apart(x);
    forall i | 0 <= i < |r| ensures r[i].Apart(x) {
      TakeAt(h, k, n, i);
      assert h.free[if h.free[k].size == n && i >= k then i + 1 else i].Apart(x);
    }
  }

  lemma TakeApartTaken(h: Heap, k: nat, n: nat)
    requires Gapped(h.free) && 0 < k < |h.free| && h.free[k].size >= n > 0
    ensures AllApart(Take(h, k, n).free, Taken(h.free[k], n))
  {
    hide Take;
    var r := Take(h, k, n).free;
    forall i | 0 <= i < |r| ensures r[i].Apart(Taken(h.free[k], n)) {
      TakeAt(h, k, n, i);
    }
  }

  /** malloc() keeps the heap invariant, and the block it hands out was free memory. */
  lemma TakeKeepsInv(base: nat, h: Heap, k: nat, n: nat)
    requires Inv(base, h) && 0 < k < |h.free| && h.free[k].size >= n > 0
    ensures Inv(base, Take(h, k, n))
    ensures Taken(h.free[k], n).at !in h.live && LiveApart(h.live, Taken(h.free[k], n))
  {
    var h', t := Take(h, k, n), Taken(h.free[k], n);
    TakeGapped(base, h, k, n);
    TakeLength(h, k, n);
    TakeApartTaken(h, k, n);
    forall a | a in h.live
      ensures a != t.at && Blk(a, h.live[a]).Apart(t) && t.Apart(Blk(a, h.live[a]))
      ensures AllApart(h'.free, Blk(a, h.live[a]))
    {
      TakeApart(h, k, n, Blk(a, h.live[a]));
    }
    TakeConserves(h, k, n);
  }

  lemma TakeConserves(h: Heap, k: nat, n: nat)
    requires Conserved(h) && 0 < k < |h.free| && h.free[k].size >= n > 0
    requires Taken(h.free[k], n).at !in h.live
    ensures Conserved(Take(h, k, n))
  {
    var h', t := Take(h, k, n), Taken(h.free[k], n);
    assert h'.live - {t.at} == h.live;
    forall u: int ensures Covers(h'.core, u) <==> Covers(h'.free, u) || LiveCovers(h'.live, u) {
      TakeCovers(h, k, n, u);
      LiveRemove(h'.live, t.at, u);
    }
  }

  /** The units handed out, their header apart, hold the bytes asked for exactly when rounding up does not wrap,
      and then one unit less would not. */
  lemma RequestHeld(nbytes: nat)
    requires nbytes < U32
    ensures HEADER * (NUnits(nbytes) - 1) >= nbytes <==> nbytes + HEADER - 1 < U32
    ensures HEADER * (NUnits(nbytes) - 2) < nbytes
  {
  }

  // ---------------------------------------------------------------- runs

  /** One call: the units asked for and what sbrk answers if it is asked, or the block given back. */
  datatype Call = Malloc(n: nat, core: Option<nat>) | Release(a: nat)

  const FRESH := Heap([], 0, map[], [])

  /** malloc's first call sets up the one-element list. */
  function Initialised(base: nat, h: Heap): Heap {
    if h.free == [] then Heap([Blk(base, 0)], 0, map[], []) else h
  }

  function DoMalloc(base: nat, h: Heap, n: nat, core: Option<nat>): Heap
    requires Inv(base, h) && n > 0 && (core.Some? ==> FreshCore(base, h, core.value))
  {
    if Fit(h, n).Some? then
      FitIsBlock(base, h, n);
      Take(h, Fit(h, n).value, n)
    else if core.None? then h
    else
      GrowFits(base, h, core.value, n);
      var g := Grow(h, core.value, n);
      FitIsBlock(base, g, n);
      Take(g, Fit(g, n).value, n)
  }

  /** A call a correct program may make: it frees only blocks it holds. */
  ghost predicate Legal(base: nat, h: Heap, c: Call) {
    match c
    case Malloc(n, core) => n > 0 && (core.Some? ==> FreshCore(base, Initialised(base, h), core.value))
    case Release(a) => a in h.live
  }

  ghost predicate Ok(base: nat, h: Heap) {
    h == FRESH || Inv(base, h)
  }

  lemma InitialisedOk(base: nat, h: Heap)
    requires Ok(base, h)
    ensures Inv(base, Initialised(base, h))
  {
  }

  ghost function Do(base: nat, h: Heap, c: Call): Heap
    requires Ok(base, h) && Legal(base, h, c)
  {
    InitialisedOk(base, h);
    match c
    case Malloc(n, core) => DoMalloc(base, Initialised(base, h), n, core)
    case Release(a) => Free(h, a)
  }

  lemma DoKeepsInv(base: nat, h: Heap, c: Call)
    requires Ok(base, h) && Legal(base, h, c)
    ensures Inv(base, Do(base, h, c))
  {
    InitialisedOk(base, h);
    match c
    case Malloc(n, core) =>
      var h0 := Initialised(base, h);
      if Fit(h0, n).Some? {
        FitIsBlock(base, h0, n);
        TakeKeepsInv(base, h0, Fit(h0, n).value, n);
      } else if core.Some? {
        GrowFits(base, h0, core.value, n);
        var g := Grow(h0, core.value, n);
        FitIsBlock(base, g, n);
        TakeKeepsInv(base, g, Fit(g, n).value, n);
      }
    case Release(a) =>
      FreeKeepsInv(base, h, a);
  }

  /** hs is the heap before each call of cs, and after the last. */
  ghost predicate IsRun(base: nat, hs: seq<Heap>, cs: seq<Call>) {
    && |hs| == |cs| + 1 && hs[0] == FRESH
    && forall i :: 0 <= i < |cs| ==>
         Legal(base, hs[i], cs[i]) && (Ok(base, hs[i]) ==> hs[i + 1] == Do(base, hs[i], cs[i]))
  }

  /** Over every sequence of mallocs and frees the free list stays one address-ordered
      ring without adjacent blocks, no two blocks overlap, and no unit is lost or invented. */
  lemma {:induction false} HeapInvariant(base: nat, hs: seq<Heap>, cs: seq<Call>, i: nat)
    requires IsRun(base, hs, cs) && i < |hs|
    ensures Ok(base, hs[i])
  {
    if i > 0 {
      HeapInvariant(base, hs, cs, i - 1);
      DoKeepsInv(base, hs[i - 1], cs[i - 1]);
    }
  }
}
