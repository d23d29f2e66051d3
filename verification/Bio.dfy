/** xv6/bio.c over xv6/memide.c: the cache as a doubly linked ring scanned and relinked in place. */
module Bio {
  import opened Commons
  import opened Blocks
  import opened CacheSpec

  /** Element p of the ring, or the head on either side of it. */
  function Cell(ring: seq<nat>, p: int, head: nat): nat {
    if 0 <= p < |ring| then ring[p] else head
  }

  /** next and prev link the head and the buffers of the ring, in that order, into a circle. */
  ghost predicate Linked(next: seq<nat>, prev: seq<nat>, ring: seq<nat>, head: nat) {
    && |next| == |prev| && head < |next|
    && (forall k :: 0 <= k < |ring| ==> ring[k] < |next| && ring[k] != head)
    && (forall j, k :: 0 <= j < k < |ring| ==> ring[j] != ring[k])
    && next[head] == Cell(ring, 0, head) && prev[head] == Cell(ring, |ring| - 1, head)
    && forall k :: 0 <= k < |ring| ==> LinkedAt(next, prev, ring, head, k)
  }

  ghost predicate LinkedAt(next: seq<nat>, prev: seq<nat>, ring: seq<nat>, head: nat, k: nat)
    requires k < |ring| && |next| == |prev| && ring[k] < |next|
  {
    next[ring[k]] == Cell(ring, k + 1, head) && prev[ring[k]] == Cell(ring, k - 1, head)
  }

  /** b->next->prev = b->prev; b->prev->next = b->next */
  lemma Unlinked(next: seq<nat>, prev: seq<nat>, ring: seq<nat>, head: nat, p: nat)
    requires Linked(next, prev, ring, head) && p < |ring|
    ensures var b := ring[p];
      && next[b] < |next| && prev[b] < |next|
      && Linked(next[prev[b] := next[b]], prev[next[b] := prev[b]], ring[..p] + ring[p + 1..], head)
  {
    var b, r := ring[p], ring[..p] + ring[p + 1..];
    assert LinkedAt(next, prev, ring, head, p);
    var next', prev' := next[prev[b] := next[b]], prev[next[b] := prev[b]];
    forall k | 0 <= k < |r| ensures LinkedAt(next', prev', r, head, k) {
      assert LinkedAt(next, prev, ring, head, if k < p then k else k + 1);
    }
  }

  /** The same, for the buffer's place in a full ring. */
  lemma RelinkStart(next: seq<nat>, prev: seq<nat>, ring: seq<nat>, head: nat, b: nat)
    requires Linked(next, prev, ring, head) && FullRing(ring, head) && b < head
    ensures |prev| == |next| && b < |next| && next[b] < |next| && prev[b] < |next| && head < |next|
    ensures b !in Without(ring, b)
    ensures Linked(next[prev[b] := next[b]], prev[next[b] := prev[b]], Without(ring, b), head)
  {
    hide Without;
    var p := Position(ring, head, b);
    WithoutIs(ring, p);
    Unlinked(next, prev, ring, head, p);
  }

  /** b->next = head.next; b->prev = &head; head.next->prev = b; head.next = b */
  lemma FrontLinked(next: seq<nat>, prev: seq<nat>, ring: seq<nat>, head: nat, b: nat)
    requires Linked(next, prev, ring, head) && b < |next| && b != head && b !in ring
    ensures next[head] < |next|
    ensures Linked(next[b := next[head]][head := b], prev[b := head][next[head] := b], [b] + ring, head)
  {
    var r := [b] + ring;
    var next', prev' := next[b := next[head]][head := b], prev[b := head][next[head] := b];
    forall k | 0 <= k < |r| ensures LinkedAt(next', prev', r, head, k) {
      if k > 0 { assert LinkedAt(next, prev, ring, head, k - 1); }
    }
  }

  class BufferCache {
    const head: nat
    var bufs: seq<Buf>
    var next: seq<nat>          // links of bufs[0..head) and of the head itself
    var prev: seq<nat>
    var disk: Disk
    ghost var ring: seq<nat>
    ghost var stamp: seq<int>
    ghost var clock: int

    ghost function State(): Cache
      reads this
    {
      Cache(bufs, ring, disk, stamp, clock)
    }

    ghost predicate Valid()
      reads this
    {
      Inv(State()) && |bufs| == head && |next| == head + 1 && Linked(next, prev, ring, head)
    }

    /** binit over nbuf zeroed buffers. */
    constructor (nbuf: nat, d: Disk)
      ensures Valid() && Initial(State()) && head == nbuf && disk == d
      ensures ring == seq(nbuf, i requires 0 <= i < nbuf => nbuf - 1 - i)
    {
      head, disk := nbuf, d;
      bufs := seq(nbuf, i => Buf(0, 0, false, false, 0, false, ZeroBlock()));
      next, prev := seq(nbuf + 1, i => nbuf), seq(nbuf + 1, i => nbuf);
      ring, clock := [], 0;
      stamp := seq(nbuf, i requires 0 <= i < nbuf => i - nbuf);
      new;
      for b := 0 to nbuf
        invariant |next| == nbuf + 1 && Linked(next, prev, ring, nbuf)
        invariant |ring| == b && forall k :: 0 <= k < b ==> ring[k] == b - 1 - k
        invariant |bufs| == |stamp| == nbuf && disk == d && clock == 0
        invariant forall i :: 0 <= i < nbuf ==>
          stamp[i] == i - nbuf && bufs[i] == Buf(0, 0, false, false, 0, false, ZeroBlock())
      {
        FrontLinked(next, prev, ring, nbuf, b);
        var first := next[nbuf];
        next, prev := next[b := first][nbuf := b], prev[b := nbuf][first := b];
        ring := [b] + ring;
      }
      assert ring == seq(nbuf, i requires 0 <= i < nbuf => nbuf - 1 - i);
      StartsEmpty(State(), nbuf);
    }

    /** bget up to the release of bcache.lock; None is the panic "no buffers". */
    method Bget(dev: nat, blockno: nat) returns (r: Option<nat>)
      requires Valid() && dev != 0
      modifies this`bufs
      ensures r.None? ==> State() == old(State()) && Do(old(State()), Get(dev, blockno)).None?
      ensures r.Some? ==> Do(old(State()), Get(dev, blockno)) == Some(State())
      ensures r.Some? ==>
        r.value < |bufs| && bufs[r.value].dev == dev && bufs[r.value].blockno == blockno && bufs[r.value].refcnt > 0
      ensures Valid()
      ensures r.None? <==> forall b :: 0 <= b < |old(bufs)| ==>
        (old(bufs)[b].refcnt > 0 || old(bufs)[b].dirty) && !(old(bufs)[b].dev == dev && old(bufs)[b].blockno == blockno)
      ensures r.Some? ==>
        && |bufs| == |old(bufs)| && (forall b :: 0 <= b < |bufs| && b != r.value ==> bufs[b] == old(bufs)[b])
        && var x, y := old(bufs)[r.value], bufs[r.value];
           if x.dev == dev && x.blockno == blockno then y == x.(refcnt := x.refcnt + 1)
           else x.refcnt == 0 && !x.dirty && y.refcnt == 1 && !y.valid && !y.dirty && y.locked == x.locked
    {
      hide Inv, Linked, Find, Victim, FullRing;
      ghost var c := State();
      InvShape(c);
      StepKeepsInv(c, Get(dev, blockno));
      GetPanicsExactly(c, dev, blockno);
      GetUnique(c, dev, blockno);
      r := Lookup(dev, blockno);
      if r.Some? {
        var b := r.value;
        bufs := bufs[b := bufs[b].(refcnt := bufs[b].refcnt + 1)];
        return;
      }
      r := Recycle();
      if r.Some? {
        var b := r.value;
        bufs := bufs[b := bufs[b].(dev := dev, blockno := blockno, valid := false, dirty := false, refcnt := 1)];
      }
    }

    /** bget's first loop: forwards through the ring. */
    method Lookup(dev: nat, blockno: nat) returns (r: Option<nat>)
      requires Shape(State()) && Linked(next, prev, ring, head)
      ensures r == Find(State(), dev, blockno, 0)
    {
      var b := next[head];
      ghost var p := 0;
      while b != head
        invariant 0 <= p <= |ring| && b == Cell(ring, p, head)
          && Find(State(), dev, blockno, 0) == Find(State(), dev, blockno, p)
        decreases |ring| - p
      {
        if bufs[b].dev == dev && bufs[b].blockno == blockno {
          return Some(b);
        }
        assert LinkedAt(next, prev, ring, head, p);
        b := next[b];
        p := p + 1;
      }
      return None;
    }

    /** bget's second loop: backwards through the ring. */
    method Recycle() returns (r: Option<nat>)
      requires Shape(State()) && Linked(next, prev, ring, head)
      ensures r == Victim(State(), |ring|)
      ensures r.Some? ==> r.value < |bufs|
    {
      var b := prev[head];
      ghost var p := |ring|;
      while b != head
        invariant 0 <= p <= |ring| && b == Cell(ring, p - 1, head) && Victim(State(), |ring|) == Victim(State(), p)
        decreases p
      {
        if bufs[b].refcnt == 0 && !bufs[b].dirty {
          return Some(b);
        }
        assert LinkedAt(next, prev, ring, head, p - 1);
        b := prev[b];
        p := p - 1;
      }
      return None;
    }

    /** acquiresleep, when the lock is free. */
    method Acquire(b: nat)
      requires Valid() && b < |bufs| && bufs[b].refcnt > 0 && !bufs[b].locked
      modifies this`bufs
      ensures Valid() && Do(old(State()), Lock(b)) == Some(State())
    {
      StepKeepsInv(State(), Lock(b));
      bufs := bufs[b := bufs[b].(locked := true)];
    }

    /** iderw on a locked buffer; false is one of its panics. */
    method Iderw(b: nat) returns (ok: bool)
      requires b < |bufs|
      modifies this`bufs, this`disk
      ensures var x := old(bufs)[b];
        && ok == (x.locked && !(x.valid && !x.dirty) && x.dev == DISKDEV && x.blockno < |old(disk)|)
        && (!ok ==> bufs == old(bufs) && disk == old(disk))
        && (ok && x.dirty ==>
             disk == old(disk)[x.blockno := x.data] && bufs == old(bufs)[b := x.(dirty := false, valid := true)])
        && (ok && !x.dirty ==>
             disk == old(disk) && bufs == old(bufs)[b := x.(data := old(disk)[x.blockno], valid := true)])
    {
      var x := bufs[b];
      if !x.locked || (x.valid && !x.dirty) || x.dev != DISKDEV || x.blockno >= |disk| {
        return false;
      }
      if x.dirty {
        disk := disk[x.blockno := x.data];
        bufs := bufs[b := x.(dirty := false, valid := true)];
      } else {
        bufs := bufs[b := x.(data := disk[x.blockno], valid := true)];
      }
      return true;
    }

    /** bread, when no other process holds the buffer.  None is a panic. */
    method Bread(blockno: nat) returns (r: Option<nat>)
      requires Valid() && blockno < |disk|
      requires forall b :: 0 <= b < |bufs| && bufs[b].dev == DISKDEV && bufs[b].blockno == blockno ==> !bufs[b].locked
      modifies this`bufs, this`disk
      ensures Valid() && disk == old(disk)
      ensures r.None? <==> Do(old(State()), Get(DISKDEV, blockno)).None?
      ensures r.Some? ==>
        r.value < |bufs| && bufs[r.value].locked && bufs[r.value].valid && bufs[r.value].blockno == blockno
      ensures r.Some? ==> bufs[r.value].data == View(old(State()), blockno)
      ensures forall n: nat :: n < |disk| ==> View(State(), n) == View(old(State()), n)
    {
      hide Do, Inv, Linked, View;
      ghost var c0 := State();
      r := Bget(DISKDEV, blockno);
      if r.Some? {
        var b := r.value;
        ghost var c1 := State();
        GetUnlocked(c0, DISKDEV, blockno, c1, b);
        Acquire(b);
        ghost var c2 := State();
        LockIs(c1, b);
        if !bufs[b].valid {
          FetchIs(c2, b);
          var ok := Iderw(b);
          StepKeepsInv(c2, Fetch(b));
        }
        ViewCached(State(), b);
        forall n: nat | n < |disk| ensures View(State(), n) == View(c0, n) {
          StepRefines(c0, Get(DISKDEV, blockno), n);
          StepRefines(c1, Lock(b), n);
          if State() != c2 { StepRefines(c2, Fetch(b), n); }
        }
      }
    }

    /** False is the panic for a buffer that is not locked, or one of iderw's. */
    method BwriteBuf(b: nat) returns (ok: bool)
      requires Valid() && b < |bufs| && bufs[b].valid
      modifies this`bufs, this`disk
      ensures Valid() && Do(old(State()), Bwrite(b)) == if ok then Some(State()) else None
      ensures !ok ==> State() == old(State())
      ensures ok <==> old(bufs)[b].locked
      ensures ok ==>
        && old(bufs)[b].blockno < |disk| == |old(disk)| && disk == old(disk)[old(bufs)[b].blockno := old(bufs)[b].data]
        && bufs == old(bufs)[b := old(bufs)[b].(dirty := false)]
    {
      hide Linked, FullRing, ByRelease, Unique;
      StepKeepsInv(State(), Bwrite(b));
      assert BufOk(bufs[b], disk);
      if !bufs[b].locked {
        return false;
      }
      bufs := bufs[b := bufs[b].(dirty := true)];
      ok := Iderw(b);
      assert bufs == old(bufs)[b := old(bufs)[b].(dirty := false)];
    }

    /** brelse; the user has saved its changes.  False is the panic for a buffer that is not locked. */
    method Brelse(b: nat) returns (ok: bool)
      requires Valid() && b < |bufs| && (bufs[b].locked ==> Saved(State(), b))
      modifies this
      ensures Valid() && disk == old(disk)
      ensures ok <==> old(bufs)[b].locked
      ensures !ok ==> State() == old(State())
      ensures ok ==>
        && old(bufs)[b].refcnt > 0
        && bufs == old(bufs)[b := old(bufs)[b].(locked := false, refcnt := old(bufs)[b].refcnt - 1)]
      ensures ok ==>
        Shape(old(State())) && Do(old(State()), Unlock(b)).Some? && Shape(Do(old(State()), Unlock(b)).value)
      ensures ok ==> Do(Do(old(State()), Unlock(b)).value, Drop(b)) == Some(State())
    {
      hide Inv, Linked, FullRing, Without;
      ghost var c := State();
      InvShape(c);
      if !bufs[b].locked {
        return false;
      }
      StepKeepsInv(c, Unlock(b));
      bufs := bufs[b := bufs[b].(locked := false)];
      ghost var u := State();
      HeldCounts(c, b);
      StepKeepsInv(u, Drop(b));
      bufs := bufs[b := bufs[b].(refcnt := bufs[b].refcnt - 1)];
      if bufs[b].refcnt == 0 {
        Relink(b);
      }
      return true;
    }

    /** The relinking that moves an idle buffer to the front. */
    method Relink(b: nat)
      requires Linked(next, prev, ring, head) && FullRing(ring, head) && |next| == head + 1 && b < head
        && |stamp| == head
      modifies this`next, this`prev, this`ring, this`stamp, this`clock
      ensures |next| == head + 1 && Linked(next, prev, ring, head)
      ensures ring == [b] + Without(old(ring), b) && stamp == old(stamp)[b := old(clock)] && clock == old(clock) + 1
    {
      hide Linked, FullRing, Without;
      RelinkStart(next, prev, ring, head, b);
      ghost var rest := Without(ring, b);
      var nx, pv := next[b], prev[b];
      prev := prev[nx := pv];
      next := next[pv := nx];
      FrontLinked(next, prev, rest, head, b);
      var first := next[head];
      next := next[b := first];
      prev := prev[b := head];
      prev := prev[first := b];
      next := next[head := b];
      ring := [b] + rest;
      stamp := stamp[b := clock];
      clock := clock + 1;
    }
  }

  lemma StartsEmpty(c: Cache, n: nat)
    requires |c.bufs| == |c.ring| == |c.stamp| == n && c.clock == 0
    requires forall k :: 0 <= k < n ==> c.ring[k] == n - 1 - k
    requires forall b :: 0 <= b < n ==>
      c.stamp[b] == b - n && c.bufs[b] == Buf(0, 0, false, false, 0, false, ZeroBlock())
    ensures Initial(c) && Inv(c)
  {
    forall b: nat | b < n ensures b in c.ring { assert c.ring[n - 1 - b] == b; }
    InitialInv(c);
  }

  lemma InvShape(c: Cache)
    requires Inv(c)
    ensures Shape(c) && FullRing(c.ring, |c.bufs|)
  {
  }

  lemma HeldCounts(c: Cache, b: nat)
    requires Inv(c) && b < |c.bufs| && c.bufs[b].locked
    ensures c.bufs[b].refcnt > 0
  {
    assert BufOk(c.bufs[b], c.disk);
  }

  lemma GetUnlocked(c: Cache, dev: nat, blockno: nat, d: Cache, b: nat)
    requires Inv(c) && dev != 0 && Do(c, Get(dev, blockno)) == Some(d) && Inv(d)
    requires b < |d.bufs| && d.bufs[b].dev == dev && d.bufs[b].blockno == blockno
    requires forall x :: 0 <= x < |c.bufs| && c.bufs[x].dev == dev && c.bufs[x].blockno == blockno ==> !c.bufs[x].locked
    ensures d.disk == c.disk && !d.bufs[b].locked
  {
    forall x | 0 <= x < |c.bufs| ensures BufOk(c.bufs[x], c.disk) {}
  }

  lemma LockIs(c: Cache, b: nat)
    requires Inv(c) && b < |c.bufs| && Do(c, Lock(b)).Some?
    ensures Do(c, Lock(b)).value == c.(bufs := c.bufs[b := c.bufs[b].(locked := true)])
  {
  }

  lemma FetchIs(c: Cache, b: nat)
    requires Inv(c) && b < |c.bufs| && c.bufs[b].locked && !c.bufs[b].valid && OnDisk(c, b)
    ensures !c.bufs[b].dirty
    ensures Do(c, Fetch(b)) ==
      Some(c.(bufs := c.bufs[b := c.bufs[b].(data := c.disk[c.bufs[b].blockno], valid := true)]))
  {
    assert BufOk(c.bufs[b], c.disk);
  }

  /** What bget's two scans say of the buffer it takes. */
  lemma GetUnique(c: Cache, dev: nat, blockno: nat)
    requires Inv(c)
    ensures Shape(c)
    ensures var hit, v := Find(c, dev, blockno, 0), Victim(c, |c.ring|);
      && (hit.None? ==> forall b :: 0 <= b < |c.bufs| ==> !(c.bufs[b].dev == dev && c.bufs[b].blockno == blockno))
      && (v.Some? ==> v.value < |c.bufs| && c.bufs[v.value].refcnt == 0 && !c.bufs[v.value].dirty)
  {
    if Find(c, dev, blockno, 0).None? { NotCached(c, dev, blockno); }
  }
}
