/** The log over the buffer cache: what the log takes as durable blocks and pinned blocks is the
    disk and the dirty buffers of xv6/bio.c, over any interleaving of the cache's users. */
module CacheLog {
  import opened Commons
  import opened Blocks
  import opened CacheSpec
  import Log

  ghost predicate PinnedAt(c: Cache, n: nat) {
    exists b :: 0 <= b < |c.bufs| && Pins(c.bufs[b], n)
  }

  predicate Pins(b: Buf, n: nat) {
    Caches(b, n) && b.dirty
  }

  /** The blocks of the dirty buffers: Log's `dirty`. */
  ghost function Pinned(c: Cache): map<nat, Block> {
    map n: nat | n < |c.disk| && PinnedAt(c, n) :: View(c, n)
  }

  /** What a step means to the log: nothing, a pinned block's new contents, or a durable write. */
  datatype Effect = Stutter | Put(n: nat, data: Block) | Write(n: nat, data: Block)

  function EffectOf(c: Cache, step: Step): Effect {
    match step
    case Bwrite(b) => if b < |c.bufs| then Write(c.bufs[b].blockno, c.bufs[b].data) else Stutter
    case Pin(b) => if b < |c.bufs| then Effect.Put(c.bufs[b].blockno, c.bufs[b].data) else Stutter
    case Modify(b, data) =>
      if b < |c.bufs| && c.bufs[b].dirty then Effect.Put(c.bufs[b].blockno, data) else Stutter
    case _ => Stutter
  }

  /** The same on Log's fields: Write is Log.Bwrite, Put is the pin in log_write. */
  function Durable(disk: Disk, e: Effect): Disk {
    match e
    case Write(n, data) => if n < |disk| then disk[n := data] else disk
    case _ => disk
  }

  function Pending(dirty: map<nat, Block>, e: Effect): map<nat, Block> {
    match e
    case Stutter => dirty
    case Put(n, data) => dirty[n := data]
    case Write(n, data) => dirty - {n}
  }

  // ---------------------------------------------------------------- one step

  lemma PinnedIs(c: Cache, b: nat)
    requires Inv(c) && b < |c.bufs| && c.bufs[b].valid
    ensures c.bufs[b].blockno < |c.disk|
    ensures c.bufs[b].blockno in Pinned(c) <==> c.bufs[b].dirty
    ensures c.bufs[b].dirty ==> Pinned(c)[c.bufs[b].blockno] == c.bufs[b].data
  {
    hide View, FullRing, ByRelease;
    var n := c.bufs[b].blockno;
    assert BufOk(c.bufs[b], c.disk);
    ViewCached(c, b);
    if c.bufs[b].dirty { assert Pins(c.bufs[b], n); }
    forall x | 0 <= x < |c.bufs| && Pins(c.bufs[x], n) ensures x == b {
      OneCopy(c, x, b);
    }
  }

  lemma OneCopy(c: Cache, x: nat, y: nat)
    requires Inv(c) && x < |c.bufs| && y < |c.bufs| && c.bufs[x].valid && c.bufs[y].valid
    requires c.bufs[x].blockno == c.bufs[y].blockno
    ensures x == y
  {
    assert BufOk(c.bufs[x], c.disk) && BufOk(c.bufs[y], c.disk);
  }

  /** A step leaves a block pinned, or makes it so, exactly as its effect says. */
  lemma StepPins(c: Cache, step: Step, n: nat)
    requires Inv(c) && n < |c.disk| && Do(c, step).Some? && (step.Get? ==> step.dev != 0)
    ensures PinnedAt(Do(c, step).value, n) <==> n in Pending(Pinned(c), EffectOf(c, step))
  {
    hide View, Inv, Find, Victim, Without, Do, Pins, Pending, Pinned, EffectOf;
    BufsOk(c);
    var d := Do(c, step).value;
    if b :| 0 <= b < |d.bufs| && Pins(d.bufs[b], n) { PinsBefore(c, step, n, b); }
    if n in Pending(Pinned(c), EffectOf(c, step)) { PinsAfter(c, step, n); }
  }

  lemma PinsBefore(c: Cache, step: Step, n: nat, b: nat)
    requires Inv(c) && n < |c.disk| && Do(c, step).Some?
    requires b < |Do(c, step).value.bufs| && Pins(Do(c, step).value.bufs[b], n)
    ensures n in Pending(Pinned(c), EffectOf(c, step))
  {
    hide View, FullRing, ByRelease, Find, Victim, Without, Pinned, Unique;
    assert BufOk(c.bufs[b], c.disk);
    PinnedIs(c, b);
    if step.Bwrite? { OneOther(c, step.b, b); }
  }

  lemma PinsAfter(c: Cache, step: Step, n: nat)
    requires Inv(c) && n < |c.disk| && Do(c, step).Some? && n in Pending(Pinned(c), EffectOf(c, step))
    ensures PinnedAt(Do(c, step).value, n)
  {
    hide View, FullRing, ByRelease, Find, Victim, Without, Unique;
    var d, e := Do(c, step).value, EffectOf(c, step);
    if e.Put? && e.n == n {
      assert BufOk(c.bufs[step.b], c.disk);
      assert Pins(d.bufs[step.b], n);
    } else {
      var b :| 0 <= b < |c.bufs| && Pins(c.bufs[b], n);
      DirtyStays(c, step, b);
      assert Pins(d.bufs[b], n);
    }
  }

  lemma OneOther(c: Cache, x: nat, y: nat)
    requires Inv(c) && x < |c.bufs| && y < |c.bufs| && c.bufs[x].valid && c.bufs[y].valid
    ensures x != y ==> c.bufs[x].blockno != c.bufs[y].blockno
  {
    if c.bufs[x].blockno == c.bufs[y].blockno { OneCopy(c, x, y); }
  }

  lemma StepValue(c: Cache, step: Step, n: nat)
    requires Inv(c) && n < |c.disk| && Do(c, step).Some? && (step.Get? ==> step.dev != 0)
    requires |Do(c, step).value.disk| == |c.disk| && n in Pending(Pinned(c), EffectOf(c, step))
    ensures View(Do(c, step).value, n) == Pending(Pinned(c), EffectOf(c, step))[n]
  {
    hide View, FullRing, ByRelease, Find, Victim, Without;
    StepRefines(c, step, n);
    if step.Modify? || step.Pin? {
      assert BufOk(c.bufs[step.b], c.disk);
      ViewCached(c, step.b);
      PinnedIs(c, step.b);
    }
  }

  /** Every step of every user is a step of the log's picture: reading, locking, releasing and
      recycling change nothing, bwrite makes a block durable and unpins it, log_write pins it. */
  lemma StepAbstracts(c: Cache, step: Step)
    requires Inv(c) && Do(c, step).Some? && (step.Get? ==> step.dev != 0)
    ensures Do(c, step).value.disk == Durable(c.disk, EffectOf(c, step))
    ensures Pinned(Do(c, step).value) == Pending(Pinned(c), EffectOf(c, step))
  {
    hide View, FullRing, ByRelease, Find, Victim, Without, Inv;
    BufsOk(c);
    var d, p := Do(c, step).value, Pending(Pinned(c), EffectOf(c, step));
    StepDisk(c, step);
    forall n: nat | n < |c.disk| ensures PinnedAt(d, n) <==> n in p { StepPins(c, step, n); }
    forall n: nat | n < |c.disk| && n in p ensures View(d, n) == p[n] { StepValue(c, step, n); }
  }

  lemma StepDisk(c: Cache, step: Step)
    requires Inv(c) && Do(c, step).Some?
    ensures Do(c, step).value.disk == Durable(c.disk, EffectOf(c, step)) && |Do(c, step).value.disk| == |c.disk|
    ensures forall n :: n in Pending(Pinned(c), EffectOf(c, step)) ==> n < |c.disk|
  {
  }

  /** A holder's change followed by bwrite is Log.Bwrite. */
  lemma BwriteIs(c: Cache, b: nat, data: Block, m: Cache, d: Cache)
    requires Inv(c) && Do(c, Modify(b, data)) == Some(m) && Shape(m) && Do(m, Bwrite(b)) == Some(d)
    ensures d.disk == c.disk[c.bufs[b].blockno := data] && Pinned(d) == Pinned(c) - {c.bufs[b].blockno}
  {
    hide Pinned, Inv;
    StepKeepsInv(c, Modify(b, data));
    StepAbstracts(c, Modify(b, data));
    StepAbstracts(m, Bwrite(b));
    var n, p := c.bufs[b].blockno, Pinned(c);
    assert p[n := data] - {n} == p - {n};
  }

  /** A holder's change followed by log_write's pin is the pin of Log.LogAppend. */
  lemma PinIs(c: Cache, b: nat, data: Block, m: Cache, d: Cache)
    requires Inv(c) && Do(c, Modify(b, data)) == Some(m) && Shape(m) && Do(m, Pin(b)) == Some(d)
    ensures d.disk == c.disk && Pinned(d) == Pinned(c)[c.bufs[b].blockno := data]
  {
    hide Pinned, Inv;
    StepKeepsInv(c, Modify(b, data));
    StepAbstracts(c, Modify(b, data));
    StepAbstracts(m, Pin(b));
  }

  // ---------------------------------------------------------------- reading

  /** A buffer whose holder has no unsaved change shows what Log.Bread returns. */
  lemma SavedReads(c: Cache, b: nat)
    requires Inv(c) && b < |c.bufs| && c.bufs[b].valid && Saved(c, b)
    ensures c.bufs[b].blockno < |c.disk|
    ensures c.bufs[b].data == Log.Overlay(c.disk, Pinned(c))[c.bufs[b].blockno]
  {
    hide Pinned;
    assert BufOk(c.bufs[b], c.disk);
    PinnedIs(c, b);
  }

  /** bread: once the caller holds the lock and the buffer is valid, it reads what Log.Bread returns. */
  lemma BreadReads(c: Cache, b: nat, d: Cache)
    requires Inv(c)
    requires (Do(c, Lock(b)) == Some(d) && c.bufs[b].valid) || Do(c, Fetch(b)) == Some(d)
    ensures Inv(d) && b < |d.bufs| && d.bufs[b].blockno < |d.disk|
    ensures d.bufs[b].data == Log.Overlay(d.disk, Pinned(d))[d.bufs[b].blockno]
  {
    hide Pinned, FullRing, ByRelease, Unique;
    assert BufOk(c.bufs[b], c.disk);
    if Do(c, Fetch(b)) == Some(d) { StepKeepsInv(c, Fetch(b)); } else { StepKeepsInv(c, Lock(b)); }
    SavedReads(d, b);
  }

  // ---------------------------------------------------------------- runs

  /** Neither changed by a user nor written. */
  predicate Untouched(step: Step, b: nat) {
    !(step.Bwrite? && step.b == b) && !(step.Modify? && step.b == b)
  }

  /** A pinned block stays in its buffer, with its contents, until that buffer is changed or
      written: whatever the other users of the cache do in between. */
  lemma {:induction false} PinnedStays(cs: seq<Cache>, steps: seq<Step>, i: nat, j: nat, b: nat)
    requires IsRun(cs, steps) && i <= j < |cs| && b < |cs[i].bufs| && cs[i].bufs[b].dirty
    requires forall k :: i <= k < j ==> Untouched(steps[k], b)
    ensures b < |cs[j].bufs| && cs[j].bufs[b].dirty && cs[j].bufs[b].valid
    ensures cs[j].bufs[b].blockno == cs[i].bufs[b].blockno && cs[j].bufs[b].data == cs[i].bufs[b].data
  {
    RunKeepsInv(cs, steps, j);
    assert i == j ==> BufOk(cs[j].bufs[b], cs[j].disk);
    if i < j {
      PinnedStays(cs, steps, i, j - 1, b);
      RunKeepsInv(cs, steps, j - 1);
      assert Do(cs[j - 1], steps[j - 1]) == Some(cs[j - 1 + 1]);
      StepKeepsData(cs[j - 1], steps[j - 1], b);
    }
  }

  lemma StepKeepsData(c: Cache, step: Step, b: nat)
    requires Inv(c) && Do(c, step).Some? && b < |c.bufs| && c.bufs[b].dirty && Untouched(step, b)
    ensures var d := Do(c, step).value;
      b < |d.bufs| && d.bufs[b].dirty && d.bufs[b].valid && d.bufs[b].blockno == c.bufs[b].blockno
        && d.bufs[b].data == c.bufs[b].data
  {
    hide FullRing, ByRelease, Unique, Without;
    assert BufOk(c.bufs[b], c.disk);
  }

  /** write_log: any buffer in which it finds the block of an untouched pin holds what was pinned. */
  lemma WriteLogReads(cs: seq<Cache>, steps: seq<Step>, i: nat, j: nat, b: nat, x: nat)
    requires IsRun(cs, steps) && i < j < |cs| && steps[i] == Pin(b)
      && (forall k :: i < k < j ==> Untouched(steps[k], b))
    requires b < |cs[i].bufs| && x < |cs[j].bufs| && cs[j].bufs[x].valid
      && cs[j].bufs[x].blockno == cs[i].bufs[b].blockno
    ensures x == b && cs[j].bufs[x].data == cs[i].bufs[b].data
  {
    RunKeepsInv(cs, steps, i);
    assert Do(cs[i], steps[i]) == Some(cs[i + 1]);
    PinnedStays(cs, steps, i + 1, j, b);
    RunKeepsInv(cs, steps, j);
    OneCopy(cs[j], x, b);
  }

  /** The log's picture after the first i steps, from the effects of the steps alone. */
  ghost function DiskAfter(cs: seq<Cache>, steps: seq<Step>, i: nat): Disk
    requires IsRun(cs, steps) && i < |cs|
  {
    if i == 0 then cs[0].disk else Durable(DiskAfter(cs, steps, i - 1), EffectOf(cs[i - 1], steps[i - 1]))
  }

  ghost function PinnedAfter(cs: seq<Cache>, steps: seq<Step>, i: nat): map<nat, Block>
    requires IsRun(cs, steps) && i < |cs|
  {
    if i == 0 then map[] else Pending(PinnedAfter(cs, steps, i - 1), EffectOf(cs[i - 1], steps[i - 1]))
  }

  /** Over every run the cache's disk and dirty buffers are the log's durable and pinned blocks. */
  lemma {:induction false} RunAbstracts(cs: seq<Cache>, steps: seq<Step>, i: nat)
    requires IsRun(cs, steps) && i < |cs|
    ensures cs[i].disk == DiskAfter(cs, steps, i) && Pinned(cs[i]) == PinnedAfter(cs, steps, i)
  {
    hide Do, Inv;
    if i > 0 {
      RunAbstracts(cs, steps, i - 1);
      RunKeepsInv(cs, steps, i - 1);
      assert Do(cs[i - 1], steps[i - 1]) == Some(cs[i - 1 + 1]);
      StepAbstracts(cs[i - 1], steps[i - 1]);
    } else {
      assert forall b :: 0 <= b < |cs[0].bufs| ==> !cs[0].bufs[b].dirty;
    }
  }
}
