/** The buffer cache of xv6/bio.c as a step system over any interleaving of its
    users, and its refinement of a plain disk with pending writes. */
module CacheSpec {
  import opened Commons
  import opened Blocks

  const DISKDEV: nat := 1

  datatype Buf = Buf(dev: nat, blockno: nat, valid: bool, dirty: bool, refcnt: nat, locked: bool, data: Block)

  /** ring lists the buffers from head.next to head.prev; stamp says when each was last
      released by its last user; clock is the time of the next release. */
  datatype Cache = Cache(bufs: seq<Buf>, ring: seq<nat>, disk: Disk, stamp: seq<int>, clock: int)

  /** What one user of the cache does atomically.  A bread is Get, Lock and, if needed,
      Fetch; a brelse is Unlock and Drop; Modify is the user's own change of b->data;
      Pin is what log_write does to the buffer. */
  datatype Step =
    | Get(dev: nat, blockno: nat)
    | Lock(b: nat)
    | Fetch(b: nat)
    | Modify(b: nat, data: Block)
    | Bwrite(b: nat)
    | Pin(b: nat)
    | Unlock(b: nat)
    | Drop(b: nat)

  // ---------------------------------------------------------------- steps

  /** The first cached copy in ring order. */
  function Find(c: Cache, dev: nat, blockno: nat, p: nat): (r: Option<nat>)
    requires forall k :: 0 <= k < |c.ring| ==> c.ring[k] < |c.bufs|
    ensures r.Some? ==> r.value < |c.bufs| && c.bufs[r.value].dev == dev && c.bufs[r.value].blockno == blockno
    decreases |c.ring| - p
  {
    if p >= |c.ring| then None
    else if c.bufs[c.ring[p]].dev == dev && c.bufs[c.ring[p]].blockno == blockno then Some(c.ring[p])
    else Find(c, dev, blockno, p + 1)
  }

  predicate Recyclable(b: Buf) {
    b.refcnt == 0 && !b.dirty
  }

  /** The first recyclable buffer from the end of the ring: the last p buffers remain to be looked at. */
  function Victim(c: Cache, p: nat): (r: Option<nat>)
    requires p <= |c.ring| && forall k :: 0 <= k < |c.ring| ==> c.ring[k] < |c.bufs|
    ensures r.Some? ==> exists k :: 0 <= k < p && r.value == c.ring[k] && Recyclable(c.bufs[c.ring[k]]) &&
                          forall q :: k < q < p ==> !Recyclable(c.bufs[c.ring[q]])
    ensures r.None? ==> forall q :: 0 <= q < p ==> !Recyclable(c.bufs[c.ring[q]])
  {
    if p == 0 then None
    else if Recyclable(c.bufs[c.ring[p - 1]]) then Some(c.ring[p - 1])
    else Victim(c, p - 1)
  }

  function Without(ring: seq<nat>, b: nat): seq<nat> {
    if ring == [] then [] else if ring[0] == b then ring[1..] else [ring[0]] + Without(ring[1..], b)
  }

  /** None: the step is not possible, or it panics. */
  function Do(c: Cache, step: Step): (r: Option<Cache>)
    requires Shape(c)
  {
    match step
    case Get(dev, blockno) =>
      var hit := Find(c, dev, blockno, 0);
      if hit.Some?
        then Some(c.(bufs := c.bufs[hit.value := c.bufs[hit.value].(refcnt := c.bufs[hit.value].refcnt + 1)]))
      else
        var v := Victim(c, |c.ring|);
        if v.None? then None
        else Some(c.(bufs := c.bufs[v.value := c.bufs[v.value].(dev := dev, blockno := blockno, valid := false,
          dirty := false, refcnt := 1)]))
    case Lock(b) =>
      if b < |c.bufs| && c.bufs[b].refcnt > 0 && !c.bufs[b].locked
      then Some(Put(c, b, c.bufs[b].(locked := true))) else None
    case Fetch(b) =>
      if Held(c, b) && !c.bufs[b].valid && OnDisk(c, b)
      then Some(Put(c, b, c.bufs[b].(valid := true, data := c.disk[c.bufs[b].blockno]))) else None
    case Modify(b, data) =>
      if Held(c, b) && c.bufs[b].valid && OnDisk(c, b) then Some(Put(c, b, c.bufs[b].(data := data))) else None
    case Bwrite(b) =>
      if Held(c, b) && c.bufs[b].valid && OnDisk(c, b)
      then Some(Put(c, b, c.bufs[b].(dirty := false)).(disk := c.disk[c.bufs[b].blockno := c.bufs[b].data])) else None
    case Pin(b) =>
      if Held(c, b) && c.bufs[b].valid && OnDisk(c, b) then Some(Put(c, b, c.bufs[b].(dirty := true))) else None
    case Unlock(b) =>
      if Held(c, b) && Saved(c, b) then Some(Put(c, b, c.bufs[b].(locked := false))) else None
    case Drop(b) =>
      if !(b < |c.bufs|) || c.bufs[b].refcnt == 0 || (c.bufs[b].locked && c.bufs[b].refcnt == 1) then None
      else
        var d := Put(c, b, c.bufs[b].(refcnt := c.bufs[b].refcnt - 1));
        if c.bufs[b].refcnt > 1 then Some(d)
        else Some(d.(ring := [b] + Without(c.ring, b), stamp := c.stamp[b := c.clock], clock := c.clock + 1))
  }

  function Put(c: Cache, b: nat, buf: Buf): Cache
    requires b < |c.bufs|
  {
    c.(bufs := c.bufs[b := buf])
  }

  predicate Held(c: Cache, b: nat) {
    b < |c.bufs| && c.bufs[b].locked
  }

  /** iderw serves only this device and these blocks. */
  predicate OnDisk(c: Cache, b: nat)
    requires b < |c.bufs|
  {
    c.bufs[b].dev == DISKDEV && c.bufs[b].blockno < |c.disk|
  }

  /** The users' side of the interface: a change is saved by bwrite or log_write before the release. */
  predicate Saved(c: Cache, b: nat)
    requires b < |c.bufs|
  {
    c.bufs[b].dirty || (c.bufs[b].valid && OnDisk(c, b) && c.bufs[b].data == c.disk[c.bufs[b].blockno])
  }

  // ---------------------------------------------------------------- invariant

  ghost predicate Shape(c: Cache) {
    && |c.stamp| == |c.bufs|
    && (forall k :: 0 <= k < |c.ring| ==> c.ring[k] < |c.bufs|)
  }

  /** The ring holds every buffer exactly once. */
  ghost predicate FullRing(ring: seq<nat>, n: nat) {
    && |ring| == n
    && (forall j, k :: 0 <= j < k < |ring| ==> ring[j] != ring[k])
    && (forall k :: 0 <= k < |ring| ==> ring[k] < n)
    && forall b: nat :: b < n ==> b in ring
  }

  /** No block is cached twice; device 0 marks buffers never used. */
  ghost predicate Unique(bufs: seq<Buf>) {
    forall i, j :: 0 <= i < j < |bufs| && bufs[i].dev == bufs[j].dev != 0 ==> bufs[i].blockno != bufs[j].blockno
  }

  ghost predicate BufOk(b: Buf, disk: Disk) {
    && (b.locked ==> b.refcnt > 0)
    && (b.dirty ==> b.valid)
    && (b.valid ==> b.dev == DISKDEV && b.blockno < |disk|)
    && (b.valid && !b.dirty && !b.locked ==> b.data == disk[b.blockno])
  }

  /** Idle buffers lie in the ring in order of their last release, latest first. */
  ghost predicate ByRelease(c: Cache)
    requires Shape(c)
  {
    && (forall b :: 0 <= b < |c.bufs| ==> c.stamp[b] < c.clock)
    && forall j, k :: 0 <= j < k < |c.ring| && c.bufs[c.ring[j]].refcnt == 0 && c.bufs[c.ring[k]].refcnt == 0 ==>
         c.stamp[c.ring[j]] > c.stamp[c.ring[k]]
  }

  ghost predicate Inv(c: Cache) {
    && Shape(c) && FullRing(c.ring, |c.bufs|) && Unique(c.bufs) && ByRelease(c)
    && forall b :: 0 <= b < |c.bufs| ==> BufOk(c.bufs[b], c.disk)
  }

  /** binit */
  ghost predicate Initial(c: Cache) {
    && Shape(c) && FullRing(c.ring, |c.bufs|) && ByRelease(c)
    && forall b :: 0 <= b < |c.bufs| ==>
         var x := c.bufs[b]; x.dev == 0 && !x.valid && !x.dirty && x.refcnt == 0 && !x.locked
  }

  lemma InitialInv(c: Cache)
    requires Initial(c)
    ensures Inv(c)
  {
  }

  // ---------------------------------------------------------------- refinement

  /** The block's contents as the users of the cache see them. */
  ghost function View(c: Cache, n: nat): Block
    requires n < |c.disk|
  {
    if exists b :: 0 <= b < |c.bufs| && Caches(c.bufs[b], n)
    then var b :| 0 <= b < |c.bufs| && Caches(c.bufs[b], n); c.bufs[b].data
    else c.disk[n]
  }

  predicate Caches(b: Buf, n: nat) {
    b.dev == DISKDEV && b.blockno == n && b.valid
  }

  lemma ViewCached(c: Cache, b: nat)
    requires Inv(c) && b < |c.bufs| && c.bufs[b].valid
    ensures c.bufs[b].blockno < |c.disk| && View(c, c.bufs[b].blockno) == c.bufs[b].data
  {
    var n := c.bufs[b].blockno;
    assert BufOk(c.bufs[b], c.disk);
    assert Caches(c.bufs[b], n);
    forall x | 0 <= x < |c.bufs| && Caches(c.bufs[x], n) ensures x == b {
    }
  }

  lemma ViewUncached(c: Cache, n: nat)
    requires n < |c.disk| && forall b :: 0 <= b < |c.bufs| ==> !Caches(c.bufs[b], n)
    ensures View(c, n) == c.disk[n]
  {
  }

  // ---------------------------------------------------------------- ring lemmas

  lemma {:induction false} WithoutIs(ring: seq<nat>, p: nat)
    requires p < |ring| && forall k :: 0 <= k < p ==> ring[k] != ring[p]
    ensures Without(ring, ring[p]) == ring[..p] + ring[p + 1..]
  {
    if p > 0 {
      WithoutIs(ring[1..], p - 1);
      assert ring == [ring[0]] + ring[1..];
    }
  }

  lemma MoveFrontAt(ring: seq<nat>, p: nat, k: nat)
    requires p < |ring| && (forall i :: 0 <= i < p ==> ring[i] != ring[p]) && k < |ring|
    ensures var r := [ring[p]] + Without(ring, ring[p]);
      |r| == |ring| && r[k] == if k == 0 then ring[p] else if k <= p then ring[k - 1] else ring[k]
  {
    WithoutIs(ring, p);
  }

  lemma Position(ring: seq<nat>, n: nat, b: nat) returns (p: nat)
    requires FullRing(ring, n) && b < n
    ensures p < |ring| && ring[p] == b
  {
    assert b in ring;
    p :| 0 <= p < |ring| && ring[p] == b;
  }

  lemma MoveFrontFull(ring: seq<nat>, n: nat, b: nat) returns (p: nat)
    requires FullRing(ring, n) && b < n
    ensures p < |ring| && ring[p] == b
    ensures FullRing([b] + Without(ring, b), n)
  {
    p := Position(ring, n, b);
    var r := [b] + Without(ring, b);
    MoveFrontAt(ring, p, 0);
    forall j, k | 0 <= j < k < |r| ensures r[j] != r[k] {
      MoveFrontAt(ring, p, j);
      MoveFrontAt(ring, p, k);
    }
    forall k | 0 <= k < |r| ensures r[k] < n { MoveFrontAt(ring, p, k); }
    forall x: nat | x < n ensures x in r {
      var q := Position(ring, n, x);
      var k := if q == p then 0 else if q < p then q + 1 else q;
      MoveFrontAt(ring, p, k);
      assert r[k] == x;
    }
  }

  lemma {:induction false} FindMisses(c: Cache, dev: nat, blockno: nat, p: nat, k: nat)
    requires Shape(c) && Find(c, dev, blockno, p).None? && p <= k < |c.ring|
    ensures !(c.bufs[c.ring[k]].dev == dev && c.bufs[c.ring[k]].blockno == blockno)
    decreases |c.ring| - p
  {
    if p < k { FindMisses(c, dev, blockno, p + 1, k); }
  }

  /** A miss in the scan is a miss in the cache. */
  lemma NotCached(c: Cache, dev: nat, blockno: nat)
    requires Inv(c) && Find(c, dev, blockno, 0).None?
    ensures forall b :: 0 <= b < |c.bufs| ==> !(c.bufs[b].dev == dev && c.bufs[b].blockno == blockno)
  {
    forall b | 0 <= b < |c.bufs| ensures !(c.bufs[b].dev == dev && c.bufs[b].blockno == blockno) {
      var k := Position(c.ring, |c.bufs|, b);
      FindMisses(c, dev, blockno, 0, k);
    }
  }

  // ---------------------------------------------------------------- theorems about a step

  lemma GetKeepsInv(c: Cache, dev: nat, blockno: nat)
    requires Inv(c) && dev != 0 && Do(c, Get(dev, blockno)).Some?
    ensures Inv(Do(c, Get(dev, blockno)).value)
  {
    hide Find, Victim, Inv;
    BufsOk(c);
    var d := Do(c, Get(dev, blockno)).value;
    var hit := Find(c, dev, blockno, 0);
    if hit.Some? {
      assert BufOk(c.bufs[hit.value], c.disk);
      PutKeepsInv(c, d, hit.value);
    } else {
      NotCached(c, dev, blockno);
      RecycleKeepsInv(c, d, Victim(c, |c.ring|).value, dev, blockno);
    }
  }

  lemma BufsOk(c: Cache)
    requires Inv(c)
    ensures Shape(c) && forall b :: 0 <= b < |c.bufs| ==> BufOk(c.bufs[b], c.disk)
  {
  }

  /** An idle buffer that is given to a block which is not cached. */
  lemma RecycleKeepsInv(c: Cache, d: Cache, v: nat, dev: nat, blockno: nat)
    requires Inv(c) && dev != 0 && v < |c.bufs| && Recyclable(c.bufs[v])
    requires forall b :: 0 <= b < |c.bufs| ==> !(c.bufs[b].dev == dev && c.bufs[b].blockno == blockno)
    requires d == Put(c, v, c.bufs[v].(dev := dev, blockno := blockno, valid := false, dirty := false, refcnt := 1))
    ensures Inv(d)
  {
    forall b | 0 <= b < |d.bufs| ensures BufOk(d.bufs[b], d.disk) {
      assert BufOk(c.bufs[b], c.disk);
    }
  }

  lemma PutKeepsInv(c: Cache, d: Cache, b: nat)
    requires Inv(c) && b < |c.bufs| && |d.bufs| == |c.bufs| && d.ring == c.ring && d.stamp == c.stamp
      && d.clock == c.clock
    requires forall x :: 0 <= x < |c.bufs| && x != b ==> d.bufs[x] == c.bufs[x] && BufOk(c.bufs[x], d.disk)
    requires d.bufs[b].dev == c.bufs[b].dev && d.bufs[b].blockno == c.bufs[b].blockno && BufOk(d.bufs[b], d.disk)
    requires d.bufs[b].refcnt == 0 ==> c.bufs[b].refcnt == 0
    ensures Inv(d)
  {
  }

  lemma BwriteKeepsInv(c: Cache, b: nat)
    requires Inv(c) && Do(c, Bwrite(b)).Some?
    ensures Inv(Do(c, Bwrite(b)).value)
  {
    var d := Do(c, Bwrite(b)).value;
    forall x | 0 <= x < |c.bufs| ensures BufOk(d.bufs[x], d.disk) {
      assert BufOk(c.bufs[x], c.disk);
      if x < b { assert c.bufs[x].dev == c.bufs[b].dev != 0 ==> c.bufs[x].blockno != c.bufs[b].blockno; }
      if b < x { assert c.bufs[b].dev == c.bufs[x].dev != 0 ==> c.bufs[b].blockno != c.bufs[x].blockno; }
    }
    PutKeepsInv(c, d, b);
  }

  lemma DropKeepsInv(c: Cache, b: nat)
    requires Inv(c) && Do(c, Drop(b)).Some?
    ensures Inv(Do(c, Drop(b)).value)
  {
    var d := Do(c, Drop(b)).value;
    assert BufOk(c.bufs[b], c.disk);
    if c.bufs[b].refcnt == 1 {
      var p := MoveFrontFull(c.ring, |c.bufs|, b);
      FrontByRelease(c, d, b, p);
    }
    forall x | 0 <= x < |c.bufs| ensures BufOk(d.bufs[x], d.disk) {
      assert BufOk(c.bufs[x], c.disk);
    }
  }

  /** The buffer released last goes to the front with the latest stamp. */
  lemma FrontByRelease(c: Cache, d: Cache, b: nat, p: nat)
    requires Shape(c) && ByRelease(c) && p < |c.ring| && c.ring[p] == b && FullRing(c.ring, |c.bufs|)
    requires Shape(d) && |d.bufs| == |c.bufs| && (forall x :: 0 <= x < |c.bufs| && x != b ==> d.bufs[x] == c.bufs[x])
    requires d.ring == [b] + Without(c.ring, b) && d.stamp == c.stamp[b := c.clock] && d.clock == c.clock + 1
    ensures ByRelease(d)
  {
    hide Without;
    MoveFrontAt(c.ring, p, 0);
    forall j, k | 0 <= j < k < |d.ring| && d.bufs[d.ring[j]].refcnt == 0 && d.bufs[d.ring[k]].refcnt == 0
      ensures d.stamp[d.ring[j]] > d.stamp[d.ring[k]]
    {
      MoveFrontAt(c.ring, p, j);
      MoveFrontAt(c.ring, p, k);
      assert d.ring[k] != b;
    }
  }

  /** Every step of every user keeps the invariant. */
  lemma StepKeepsInv(c: Cache, step: Step)
    requires Inv(c) && (step.Get? ==> step.dev != 0)
    ensures Do(c, step).Some? ==> Inv(Do(c, step).value)
  {
    if Do(c, step).Some? {
      match step
      case Get(dev, blockno) => GetKeepsInv(c, dev, blockno);
      case Bwrite(b) => BwriteKeepsInv(c, b);
      case Drop(b) => DropKeepsInv(c, b);
      case _ =>
        var b := step.b;
        assert BufOk(c.bufs[b], c.disk);
        PutKeepsInv(c, Do(c, step).value, b);
    }
  }

  /** The block a Modify step is about. */
  ghost predicate Changes(c: Cache, step: Step, n: nat) {
    step.Modify? && step.b < |c.bufs| && c.bufs[step.b].blockno == n
  }

  /** Refinement: only a user's own change changes what users see; reading, writing back,
      pinning, releasing and recycling leave every block's visible contents alone. */
  lemma StepRefines(c: Cache, step: Step, n: nat)
    requires Inv(c) && n < |c.disk| && (step.Get? ==> step.dev != 0) && Do(c, step).Some?
    ensures |Do(c, step).value.disk| == |c.disk|
    ensures View(Do(c, step).value, n) == if Changes(c, step, n) then step.data else View(c, n)
  {
    hide FullRing, ByRelease, View, Find, Victim, Without;
    StepKeepsInv(c, step);
    var d := Do(c, step).value;
    if b :| 0 <= b < |d.bufs| && Caches(d.bufs[b], n) {
      ViewCached(d, b);
      assert BufOk(c.bufs[b], c.disk);
      if Caches(c.bufs[b], n) {
        ViewCached(c, b);
      } else {
        NewlyCached(c, step, n, b);
      }
    } else {
      ViewUncached(d, n);
      if b :| 0 <= b < |c.bufs| && Caches(c.bufs[b], n) {
        ViewCached(c, b);
        NoLongerCached(c, step, n, b);
      } else {
        ViewUncached(c, n);
      }
    }
  }

  lemma NewlyCached(c: Cache, step: Step, n: nat, b: nat)
    requires Inv(c) && n < |c.disk| && Do(c, step).Some? && b < |c.bufs| && (step.Get? ==> step.dev != 0)
    requires var d := Do(c, step).value; |d.bufs| == |c.bufs| && Caches(d.bufs[b], n) && !Caches(c.bufs[b], n)
    ensures step == Fetch(b) && Do(c, step).value.bufs[b].data == c.disk[n] && View(c, n) == c.disk[n]
  {
    forall x | 0 <= x < |c.bufs| ensures !Caches(c.bufs[x], n) {
      if x < b { assert c.bufs[x].dev == c.bufs[b].dev != 0 ==> c.bufs[x].blockno != c.bufs[b].blockno; }
      if b < x { assert c.bufs[b].dev == c.bufs[x].dev != 0 ==> c.bufs[b].blockno != c.bufs[x].blockno; }
    }
    ViewUncached(c, n);
  }

  /** The only buffer that loses its block is one that bget recycles: clean, so the disk has its contents. */
  lemma NoLongerCached(c: Cache, step: Step, n: nat, b: nat)
    requires Inv(c) && n < |c.disk| && Do(c, step).Some? && b < |c.bufs| && Caches(c.bufs[b], n)
    requires var d := Do(c, step).value; |d.bufs| == |c.bufs| && !Caches(d.bufs[b], n)
    ensures step.Get? && c.bufs[b].data == c.disk[n] == Do(c, step).value.disk[n]
  {
    assert BufOk(c.bufs[b], c.disk);
  }

  /** bget recycles the least recently released of the clean idle buffers. */
  lemma VictimIsLeastRecent(c: Cache, dev: nat, blockno: nat, v: nat)
    requires Inv(c) && Find(c, dev, blockno, 0).None? && Victim(c, |c.ring|) == Some(v)
    ensures v < |c.bufs| && c.bufs[v].refcnt == 0 && !c.bufs[v].dirty
    ensures forall w :: 0 <= w < |c.bufs| && w != v && c.bufs[w].refcnt == 0 && !c.bufs[w].dirty ==>
      c.stamp[w] > c.stamp[v]
  {
    var k :| 0 <= k < |c.ring| && v == c.ring[k] && Recyclable(c.bufs[c.ring[k]]) &&
             forall q :: k < q < |c.ring| ==> !Recyclable(c.bufs[c.ring[q]]);
    forall w | 0 <= w < |c.bufs| && w != v && Recyclable(c.bufs[w]) ensures c.stamp[w] > c.stamp[v] {
      var q := Position(c.ring, |c.bufs|, w);
    }
  }

  /** bget panics exactly when every buffer is in use or dirty. */
  lemma GetPanicsExactly(c: Cache, dev: nat, blockno: nat)
    requires Inv(c)
    ensures Do(c, Get(dev, blockno)).None? <==>
      (forall b :: 0 <= b < |c.bufs| ==>
        (c.bufs[b].refcnt > 0 || c.bufs[b].dirty) && !(c.bufs[b].dev == dev && c.bufs[b].blockno == blockno))
  {
    if Do(c, Get(dev, blockno)).None? {
      NotCached(c, dev, blockno);
      forall b | 0 <= b < |c.bufs| ensures !Recyclable(c.bufs[b]) {
        var q := Position(c.ring, |c.bufs|, b);
      }
    }
  }

  /** A dirty buffer keeps its block until that block has been written. */
  lemma DirtyStays(c: Cache, step: Step, b: nat)
    requires Inv(c) && Do(c, step).Some? && b < |c.bufs| && c.bufs[b].dirty
    ensures var d := Do(c, step).value;
      && b < |d.bufs| && d.bufs[b].dev == c.bufs[b].dev && d.bufs[b].blockno == c.bufs[b].blockno
      && (d.bufs[b].dirty || (step == Bwrite(b) && d.disk[c.bufs[b].blockno] == c.bufs[b].data))
  {
  }

  // ---------------------------------------------------------------- runs

  /** cs is the cache before each step and after the last. */
  ghost predicate IsRun(cs: seq<Cache>, steps: seq<Step>) {
    && |cs| == |steps| + 1 && Initial(cs[0])
    && forall i :: 0 <= i < |steps| ==>
         && (steps[i].Get? ==> steps[i].dev != 0)
         && (Inv(cs[i]) ==> Do(cs[i], steps[i]) == Some(cs[i + 1]))
  }

  lemma {:induction false} RunKeepsInv(cs: seq<Cache>, steps: seq<Step>, i: nat)
    requires IsRun(cs, steps) && i < |cs|
    ensures Inv(cs[i])
  {
    if i == 0 {
      InitialInv(cs[0]);
    } else {
      RunKeepsInv(cs, steps, i - 1);
      StepKeepsInv(cs[i - 1], steps[i - 1]);
    }
  }

  /** The buffer that bget returns: the block's own, or the one it recycles. */
  function Answer(c: Cache, dev: nat, blockno: nat): Option<nat>
    requires Shape(c)
  {
    if Find(c, dev, blockno, 0).Some? then Find(c, dev, blockno, 0) else Victim(c, |c.ring|)
  }

  /** One user more or less of buffer b. */
  function UsersBy(c: Cache, step: Step, b: nat): int
    requires Shape(c)
  {
    if step.Get? && Answer(c, step.dev, step.blockno) == Some(b) then 1 else if step == Drop(b) then -1 else 0
  }

  lemma StepCounts(c: Cache, step: Step, b: nat)
    requires Inv(c) && Do(c, step).Some? && b < |c.bufs|
    ensures b < |Do(c, step).value.bufs| && Do(c, step).value.bufs[b].refcnt == c.bufs[b].refcnt + UsersBy(c, step, b)
  {
    hide FullRing, ByRelease, Unique, Without;
  }

  /** How many breads of buffer b have not been released after the first i steps. */
  ghost function Users(cs: seq<Cache>, steps: seq<Step>, i: nat, b: nat): int
    requires IsRun(cs, steps) && i < |cs|
  {
    if i == 0 then 0 else
    RunKeepsInv(cs, steps, i - 1);
    Users(cs, steps, i - 1, b) + UsersBy(cs[i - 1], steps[i - 1], b)
  }

  /** Over every run, a buffer's refcnt is the number of its users: the bgets that returned it less the releases. */
  lemma {:induction false} RefcntCounts(cs: seq<Cache>, steps: seq<Step>, i: nat, b: nat)
    requires IsRun(cs, steps) && i < |cs| && b < |cs[0].bufs|
    ensures b < |cs[i].bufs| && cs[i].bufs[b].refcnt == Users(cs, steps, i, b)
  {
    hide Inv, UsersBy;
    if i > 0 {
      RefcntCounts(cs, steps, i - 1, b);
      RunKeepsInv(cs, steps, i - 1);
      assert Do(cs[i - 1], steps[i - 1]) == Some(cs[i - 1 + 1]);
      StepCounts(cs[i - 1], steps[i - 1], b);
    }
  }

  /** A disk to which every change is applied at once, after the first i steps. */
  ghost function Plain(cs: seq<Cache>, steps: seq<Step>, i: nat, n: nat): Block
    requires IsRun(cs, steps) && i < |cs| && n < |cs[0].disk|
  {
    if i == 0 then cs[0].disk[n]
    else if Changes(cs[i - 1], steps[i - 1], n) then steps[i - 1].data
    else Plain(cs, steps, i - 1, n)
  }

  /** Over every run, the cache shows what a plain disk with every change applied at once would show. */
  lemma {:induction false} CacheRefinesDisk(cs: seq<Cache>, steps: seq<Step>, i: nat, n: nat)
    requires IsRun(cs, steps) && i < |cs| && n < |cs[0].disk|
    ensures |cs[i].disk| == |cs[0].disk| && View(cs[i], n) == Plain(cs, steps, i, n)
  {
    if i == 0 {
      ViewUncached(cs[0], n);
    } else {
      CacheRefinesDisk(cs, steps, i - 1, n);
      RunKeepsInv(cs, steps, i - 1);
      assert Do(cs[i - 1], steps[i - 1]) == Some(cs[i - 1 + 1]);
      StepRefines(cs[i - 1], steps[i - 1], n);
    }
  }

  /** bread: a user who holds a valid buffer reads what the plain disk holds. */
  lemma BreadReadsPlain(cs: seq<Cache>, steps: seq<Step>, i: nat, b: nat)
    requires IsRun(cs, steps) && i < |cs| && b < |cs[i].bufs| && cs[i].bufs[b].valid
    ensures cs[i].bufs[b].blockno < |cs[0].disk| && cs[i].bufs[b].data == Plain(cs, steps, i, cs[i].bufs[b].blockno)
  {
    RunKeepsInv(cs, steps, i);
    ViewCached(cs[i], b);
    CacheDisk(cs, steps, i);
    CacheRefinesDisk(cs, steps, i, cs[i].bufs[b].blockno);
  }

  lemma {:induction false} CacheDisk(cs: seq<Cache>, steps: seq<Step>, i: nat)
    requires IsRun(cs, steps) && i < |cs|
    ensures |cs[i].disk| == |cs[0].disk|
  {
    if i > 0 {
      CacheDisk(cs, steps, i - 1);
      RunKeepsInv(cs, steps, i - 1);
    }
  }
}
