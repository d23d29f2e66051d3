/** What a program can tell of malloc and free (xv6/umalloc.c): which block it gets, and that free undoes malloc. */
module HeapLaws {
  import opened Commons
  import opened HeapSpec

  // ---------------------------------------------------------------- next fit

  /** The j-th block after index i around the ring. */
  function Around(free: seq<Blk>, i: nat, j: nat): (k: nat)
    requires i < |free|
    ensures k < |free|
  {
    if j == 0 then i else Next(free, Around(free, i, j - 1))
  }

  lemma {:induction false} AroundNext(free: seq<Blk>, i: nat, j: nat)
    requires i < |free|
    ensures Around(free, Next(free, i), j) == Around(free, i, j + 1)
  {
    if j > 0 { AroundNext(free, i, j - 1); }
  }

  /** The scan stops at the first block that is large enough. */
  lemma {:induction false} FirstFitIs(free: seq<Blk>, n: nat, i: nat, m: nat) returns (j: nat)
    requires i < |free|
    ensures match FirstFit(free, n, i, m)
      case None => j == m && forall k: nat :: k < m ==> free[Around(free, i, k)].size < n
      case Some(at) =>
        && j < m && at == Around(free, i, j) && free[at].size >= n
        && forall k: nat :: k < j ==> free[Around(free, i, k)].size < n
    decreases m
  {
    j := 0;
    if m > 0 && free[i].size < n {
      j := FirstFitIs(free, n, Next(free, i), m - 1);
      j := j + 1;
      forall k: nat | k < j ensures free[Around(free, i, k)].size < n {
        if k > 0 { AroundNext(free, i, k - 1); }
      }
      AroundNext(free, i, j - 1);
    }
  }

  /** malloc finds a block without asking for memory exactly when one is large enough. */
  lemma FitExactly(base: nat, h: Heap, n: nat)
    requires Inv(base, h)
    ensures Fit(h, n).Some? <==> exists k :: 0 <= k < |h.free| && h.free[k].size >= n
  {
    if k :| 0 <= k < |h.free| && h.free[k].size >= n {
      FirstFitFinds(h.free, n, Next(h.free, h.cur), |h.free|, k);
    }
    if Fit(h, n).Some? { FirstFitFits(h.free, n, Next(h.free, h.cur), |h.free|); }
  }

  /** It is the first one after freep, around the ring: all those passed on the way are too small. */
  lemma NextFit(base: nat, h: Heap, n: nat) returns (j: nat)
    requires Inv(base, h) && Fit(h, n).Some?
    ensures j < |h.free| && Fit(h, n).value == Around(h.free, h.cur, j + 1)
    ensures h.free[Fit(h, n).value].size >= n
    ensures forall k: nat :: 1 <= k <= j ==> h.free[Around(h.free, h.cur, k)].size < n
  {
    j := FirstFitIs(h.free, n, Next(h.free, h.cur), |h.free|);
    AroundNext(h.free, h.cur, j);
    forall k: nat | 1 <= k <= j ensures h.free[Around(h.free, h.cur, k)].size < n { AroundNext(h.free, h.cur, k - 1); }
  }

  // ---------------------------------------------------------------- free undoes malloc

  ghost predicate Sorted(free: seq<Blk>) {
    forall i, j :: 0 <= i < j < |free| ==> free[i].at < free[j].at
  }

  /** Where free's search ends is determined by the addresses. */
  lemma PredIs(free: seq<Blk>, a: nat, k: nat)
    requires k < |free| && free[0].at < a && free[k].at < a && (k + 1 < |free| ==> a <= free[k + 1].at)
    requires Sorted(free)
    ensures Pred(free, a) == k
  {
  }

  /** Whatever block malloc cuts, giving it back at once restores the free list, block by block. */
  lemma {:induction false} FreeUndoesTake(base: nat, h: Heap, k: nat, n: nat)
    requires Inv(base, h) && 0 < k < |h.free| && 0 < n <= h.free[k].size
    ensures var a, g := Taken(h.free[k], n).at, Take(h, k, n);
      && a in g.live && |g.free| > 0 && g.free[0].at < a
      && Free(g, a).free == h.free && Free(g, a).live == h.live && Free(g, a).core == h.core
  {
    hide Inv, Insert, Pred, Gapped;
    TakeKeepsInv(base, h, k, n);
    Ordered(base, h);
    var b, g := h.free[k], Take(h, k, n);
    var t := Taken(b, n);
    assert g.live - {t.at} == h.live;
    if b.size == n {
      WholeBack(h.free, k);
    } else {
      PartBack(h.free, k, n);
    }
  }

  lemma Ordered(base: nat, h: Heap)
    requires Inv(base, h)
    ensures Gapped(h.free) && |h.free| > 0 && h.free[0].size == 0
  {
  }

  lemma {:induction false} WholeBack(free: seq<Blk>, k: nat)
    requires 0 < k < |free| && Gapped(free) && free[0].size == 0
    ensures var rest := free[..k] + free[k + 1..];
      rest[0].at < free[k].at && Insert(rest, Pred(rest, free[k].at), free[k]) == free
  {
    hide Gapped, Insert, Pred, Sorted;
    var b, rest := free[k], free[..k] + free[k + 1..];
    RestOrdered(free, k);
    PredIs(rest, b.at, k - 1);
    Alone(rest, k - 1, b);
    assert rest[..k] + [b] + rest[k..] == free;
  }

  lemma {:induction false} RestOrdered(free: seq<Blk>, k: nat)
    requires 0 < k < |free| && Gapped(free)
    ensures var rest := free[..k] + free[k + 1..];
      && Sorted(rest) && rest[0].at < free[k].at
      && rest[k - 1].at + rest[k - 1].size < free[k].at
      && (k < |rest| ==> free[k].at + free[k].size < rest[k].at)
  {
    var rest := free[..k] + free[k + 1..];
    forall i, j | 0 <= i < j < |rest| ensures rest[i].at < rest[j].at {
      assert rest[i] == free[if i < k then i else i + 1] && rest[j] == free[if j < k then j else j + 1];
    }
    assert rest[k - 1] == free[k - 1] && rest[0] == free[0] && (k < |rest| ==> rest[k] == free[k + 1]);
  }

  /** A block that touches no other. */
  lemma Alone(free: seq<Blk>, k: nat, b: Blk)
    requires k < |free| && !JoinsNext(free, k, b) && free[k].at + free[k].size != b.at
    ensures Insert(free, k, b) == free[..k + 1] + [b] + free[k + 1..]
  {
  }

  lemma {:induction false} PartBack(free: seq<Blk>, k: nat, n: nat)
    requires 0 < k < |free| && Gapped(free) && 0 < n < free[k].size
    ensures var b := free[k];
      var rest, t := free[k := Blk(b.at, b.size - n)], Taken(b, n);
      rest[0].at < t.at && Insert(rest, Pred(rest, t.at), t) == free
  {
    hide Gapped, Insert, Pred, Sorted;
    var b := free[k];
    var rest, t := free[k := Blk(b.at, b.size - n)], Taken(b, n);
    ShrunkOrdered(free, k, n);
    PredIs(rest, t.at, k);
    assert !JoinsNext(rest, k, t);
    Joined(rest, k, t);
    PutBack(free, k, rest[k]);
  }

  lemma PutBack(free: seq<Blk>, k: nat, x: Blk)
    requires k < |free|
    ensures var rest := free[k := x]; rest[..k] + [free[k]] + rest[k + 1..] == free
  {
  }

  lemma {:induction false} ShrunkOrdered(free: seq<Blk>, k: nat, n: nat)
    requires 0 < k < |free| && Gapped(free) && 0 < n < free[k].size
    ensures var rest := free[k := Blk(free[k].at, free[k].size - n)];
      Sorted(rest) && rest[0].at < free[k].at + free[k].size - n
    ensures k + 1 < |free| ==> free[k].at + free[k].size < free[k + 1].at
  {
    assert free[0].at + free[0].size < free[k].at;
  }

  /** A block that touches its predecessor alone. */
  lemma Joined(free: seq<Blk>, k: nat, b: Blk)
    requires k < |free| && !JoinsNext(free, k, b) && free[k].at + free[k].size == b.at
    ensures Insert(free, k, b) == free[..k] + [Blk(free[k].at, free[k].size + b.size)] + free[k + 1..]
  {
  }

  /** malloc(n) that needs no new memory, then free of its answer: the heap is as before, but for freep. */
  lemma {:induction false} MallocThenFree(base: nat, h: Heap, n: nat, core: Option<nat>)
    requires Inv(base, h) && n > 0 && Fit(h, n).Some? && (core.Some? ==> FreshCore(base, h, core.value))
    ensures h.cur < |h.free| && 0 < Fit(h, n).value < |h.free| && h.free[Fit(h, n).value].size >= n
    ensures var a, g := Taken(h.free[Fit(h, n).value], n).at, DoMalloc(base, h, n, core);
      && a !in h.live && g.live == h.live[a := n] && |g.free| > 0 && g.free[0].at < a
      && Free(g, a).free == h.free && Free(g, a).live == h.live && Free(g, a).core == h.core
  {
    hide Gapped, LiveOk, Conserved, Sized, Free, Take, Fit;
    FitIsBlock(base, h, n);
    TakeKeepsInv(base, h, Fit(h, n).value, n);
    FreeUndoesTake(base, h, Fit(h, n).value, n);
    TakeLive(h, Fit(h, n).value, n);
  }

  lemma TakeLive(h: Heap, k: nat, n: nat)
    requires 0 < k < |h.free| && h.free[k].size >= n
    ensures Take(h, k, n).live == h.live[Taken(h.free[k], n).at := n]
  {
  }
}
