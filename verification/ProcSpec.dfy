/** fork, exit, wait, sleep, wakeup and kill of xv6/proc.c as atomic steps on the
    process table, in any interleaving. */
module ProcSpec {
  import opened Commons

  datatype Run = Unused | Embryo | Sleeping | Runnable | Running | Zombie

  /** What a process sleeps on: a table entry's own address (only wait does), or anything else. */
  datatype Chan = NoChan | Entry(p: nat) | Other(id: nat)

  datatype Proc = Proc(state: Run, pid: nat, parent: Option<nat>, chan: Chan, killed: bool)

  /** forking[p] is the entry that p is setting up inside fork(); exited and reaped
      list the pids in the order of exit() and of wait(). */
  datatype Table = Table(procs: seq<Proc>, init: nat, nextpid: nat, forking: seq<Option<nat>>, exited: seq<nat>,
    reaped: seq<nat>)

  datatype Step =
    | Alloc(p: nat)                 // fork: allocproc
    | ForkFail(p: nat)              // fork: no memory
    | SetParent(p: nat)             // fork: np->parent = curproc, without the lock
    | ForkDone(p: nat)              // fork: np->state = RUNNABLE
    | Exit(p: nat)
    | Wait(p: nat)                  // one pass of wait's loop
    | Sleep(p: nat, id: nat)        // on any channel outside the process table
    | Wakeup(chan: Chan)
    | Kill(pid: nat)
    | Yield(p: nat)
    | Dispatch(p: nat)              // scheduler, up to where the process runs on

  // ---------------------------------------------------------------- steps

  predicate Free(t: Table, p: nat) {
    p < |t.procs| && p < |t.forking| && t.procs[p].state == Running && t.forking[p].None?
  }

  predicate IsForking(t: Table, p: nat) {
    p < |t.procs| && p < |t.forking| && t.procs[p].state == Running && t.forking[p].Some?
      && t.forking[p].value < |t.procs|
  }

  /** The first entry from k on that satisfies the test; |procs| if there is none. */
  function FirstUnused(procs: seq<Proc>, k: nat): (r: nat)
    requires k <= |procs|
    ensures k <= r <= |procs| && (r < |procs| ==> procs[r].state == Unused)
    ensures forall i :: k <= i < r ==> procs[i].state != Unused
    decreases |procs| - k
  {
    if k == |procs| || procs[k].state == Unused then k else FirstUnused(procs, k + 1)
  }

  function FirstZombie(procs: seq<Proc>, p: nat, k: nat): (r: nat)
    requires k <= |procs|
    ensures k <= r <= |procs| && (r < |procs| ==> procs[r].parent == Some(p) && procs[r].state == Zombie)
    ensures forall i :: k <= i < r ==> !(procs[i].parent == Some(p) && procs[i].state == Zombie)
    decreases |procs| - k
  {
    if k == |procs| || (procs[k].parent == Some(p) && procs[k].state == Zombie) then k else FirstZombie(procs, p, k + 1)
  }

  function FirstPid(procs: seq<Proc>, pid: nat, k: nat): (r: nat)
    requires k <= |procs|
    ensures k <= r <= |procs| && (r < |procs| ==> procs[r].pid == pid)
    ensures forall i :: k <= i < r ==> procs[i].pid != pid
    decreases |procs| - k
  {
    if k == |procs| || procs[k].pid == pid then k else FirstPid(procs, pid, k + 1)
  }

  predicate HasKids(procs: seq<Proc>, p: nat) {
    exists i :: 0 <= i < |procs| && procs[i].parent == Some(p)
  }

  function Awake(x: Proc, chan: Chan): Proc {
    if x.state == Sleeping && x.chan == chan then x.(state := Runnable) else x
  }

  /** wakeup1 */
  function Wake(procs: seq<Proc>, chan: Chan): (r: seq<Proc>)
    ensures |r| == |procs| && forall i :: 0 <= i < |procs| ==> r[i] == Awake(procs[i], chan)
  {
    seq(|procs|, i requires 0 <= i < |procs| => Awake(procs[i], chan))
  }

  function Adopt(x: Proc, p: nat, init: nat): Proc {
    if x.parent == Some(p) then x.(parent := Some(init)) else x
  }

  /** exit() passes the children of p to init. */
  function Reparent(procs: seq<Proc>, p: nat, init: nat): (r: seq<Proc>)
    ensures |r| == |procs| && forall i :: 0 <= i < |procs| ==> r[i] == Adopt(procs[i], p, init)
  {
    seq(|procs|, i requires 0 <= i < |procs| => Adopt(procs[i], p, init))
  }

  /** The table after exit() by p. */
  function ExitProcs(procs: seq<Proc>, p: nat, init: nat): (r: seq<Proc>)
    requires p < |procs|
    ensures |r| == |procs|
  {
    var woken := if procs[p].parent.Some? then Wake(procs, Entry(procs[p].parent.value)) else procs;
    var passed := if FirstZombie(procs, p, 0) < |procs| then Wake(woken, Entry(init)) else woken;
    var moved := Reparent(passed, p, init);
    moved[p := moved[p].(state := Zombie)]
  }

  /** None: the step is not enabled, or it panics. */
  function Do(t: Table, step: Step): Option<Table> {
    match step
    case Alloc(p) =>
      if !Free(t, p) then None else
      var e := FirstUnused(t.procs, 0);
      if e == |t.procs| then None else
      Some(t.(procs := t.procs[e := t.procs[e].(state := Embryo, pid := t.nextpid)], nextpid := t.nextpid + 1,
        forking := t.forking[p := Some(e)]))
    case ForkFail(p) =>
      if !IsForking(t, p) || t.procs[t.forking[p].value].parent.Some? then None else
      var e := t.forking[p].value;
      Some(t.(procs := t.procs[e := t.procs[e].(state := Unused)], forking := t.forking[p := None]))
    case SetParent(p) =>
      if !IsForking(t, p) then None else
      var e := t.forking[p].value;
      Some(t.(procs := t.procs[e := t.procs[e].(parent := Some(p))]))
    case ForkDone(p) =>
      if !IsForking(t, p) || t.procs[t.forking[p].value].parent.None? then None else
      var e := t.forking[p].value;
      Some(t.(procs := t.procs[e := t.procs[e].(state := Runnable)], forking := t.forking[p := None]))
    case Exit(p) =>
      if !Free(t, p) || p == t.init then None else
      Some(t.(procs := ExitProcs(t.procs, p, t.init), exited := t.exited + [t.procs[p].pid]))
    case Wait(p) =>
      if !Free(t, p) then None else
      var z := FirstZombie(t.procs, p, 0);
      if z < |t.procs| then
        Some(t.(procs := t.procs[z := t.procs[z].(state := Unused, pid := 0, parent := None, killed := false)],
          reaped := t.reaped + [t.procs[z].pid]))
      else if !HasKids(t.procs, p) || t.procs[p].killed then Some(t)
      else Some(t.(procs := t.procs[p := t.procs[p].(state := Sleeping, chan := Entry(p))]))
    case Sleep(p, id) =>
      if !Free(t, p) then None else Some(t.(procs := t.procs[p := t.procs[p].(state := Sleeping, chan := Other(id))]))
    case Wakeup(chan) => Some(t.(procs := Wake(t.procs, chan)))
    case Kill(pid) =>
      var k := FirstPid(t.procs, pid, 0);
      if k == |t.procs| then Some(t) else
      Some(t.(procs := t.procs[k := t.procs[k].(killed := true, state := if t.procs[k].state == Sleeping then Runnable
        else t.procs[k].state)]))
    case Yield(p) =>
      if p < |t.procs| && t.procs[p].state == Running
        then Some(t.(procs := t.procs[p := t.procs[p].(state := Runnable)])) else None
    case Dispatch(p) =>
      if p < |t.procs| && t.procs[p].state == Runnable
        then Some(t.(procs := t.procs[p := t.procs[p].(state := Running, chan := NoChan)])) else None
  }

  // ---------------------------------------------------------------- invariant

  predicate Started(x: Proc) {
    x.state != Unused && x.state != Embryo
  }

  predicate Live(x: Proc) {
    Started(x) && x.state != Zombie
  }

  /** A parent is running code, older than its child, and not a zombie. */
  ghost predicate ParentOk(t: Table, x: nat)
    requires x < |t.procs|
  {
    t.procs[x].parent.Some? ==>
      var q := t.procs[x].parent.value;
      && q < |t.procs| && Live(t.procs[q]) && t.procs[q].pid < t.procs[x].pid
      && t.procs[x].state != Unused && (t.procs[x].state == Embryo ==> q < |t.forking| && t.forking[q] == Some(x))
  }

  ghost predicate EntryOk(t: Table, x: nat)
    requires x < |t.procs|
  {
    && (Started(t.procs[x]) && x != t.init ==> t.procs[x].parent.Some?)
    && (t.procs[x].state != Unused ==> 0 < t.procs[x].pid < t.nextpid)
    && (t.procs[x].state == Sleeping && t.procs[x].chan.Entry? ==> t.procs[x].chan.p == x)
    && ParentOk(t, x)
  }

  ghost predicate ForkOk(t: Table, p: nat)
    requires p < |t.forking|
  {
    t.forking[p].Some? ==>
      && t.forking[p].value < |t.procs| && t.procs[t.forking[p].value].state == Embryo
      && p < |t.procs| && (t.procs[p].state == Running || t.procs[p].state == Runnable)
      && t.procs[p].pid < t.procs[t.forking[p].value].pid
      && (t.procs[t.forking[p].value].parent.Some? ==> t.procs[t.forking[p].value].parent.value == p)
  }

  predicate InWait(x: Proc, p: nat) {
    x.state == Sleeping && x.chan == Entry(p)
  }

  /** No process sleeps in wait() while one of its children is a zombie. */
  ghost predicate NoLostWakeup(procs: seq<Proc>) {
    forall p, x :: 0 <= p < |procs| && 0 <= x < |procs| && InWait(procs[p], p) && procs[x].parent == Some(p) ==>
      procs[x].state != Zombie
  }

  ghost predicate PidsDistinct(procs: seq<Proc>) {
    forall x, y :: 0 <= x < y < |procs| && procs[x].state != Unused && procs[y].state != Unused ==>
      procs[x].pid != procs[y].pid
  }

  ghost predicate ZombiePid(procs: seq<Proc>, pid: nat) {
    exists x :: 0 <= x < |procs| && procs[x].state == Zombie && procs[x].pid == pid
  }

  /** Every exited process is a zombie or has been reaped, not both, and each only once. */
  ghost predicate ReapedOnce(t: Table) {
    && Distinct(t.exited) && Distinct(t.reaped)
    && (forall pid :: pid in t.exited ==> pid < t.nextpid)
    && (forall pid :: pid in t.exited <==> pid in t.reaped || ZombiePid(t.procs, pid))
    && (forall x :: 0 <= x < |t.procs| && t.procs[x].state != Unused ==> t.procs[x].pid !in t.reaped)
    && (forall x :: 0 <= x < |t.procs| && t.procs[x].pid in t.exited && t.procs[x].state != Unused ==>
         t.procs[x].state == Zombie)
  }

  ghost predicate Inv(t: Table) {
    && |t.forking| == |t.procs| && t.init < |t.procs|
    && Live(t.procs[t.init]) && t.procs[t.init].parent.None? && t.procs[t.init].pid == 1
    && (forall x :: 0 <= x < |t.procs| ==> EntryOk(t, x))
    && (forall p :: 0 <= p < |t.forking| ==> ForkOk(t, p))
    && (forall p, q :: 0 <= p < q < |t.forking| && t.forking[p].Some? ==> t.forking[p] != t.forking[q])
    && NoLostWakeup(t.procs) && PidsDistinct(t.procs) && ReapedOnce(t)
  }

  /** userinit: one process, about to run. */
  ghost predicate Initial(t: Table) {
    && |t.forking| == |t.procs| && t.init < |t.procs| && t.nextpid == 2 && t.exited == [] && t.reaped == []
    && t.procs[t.init] == Proc(Runnable, 1, None, NoChan, false)
    && (forall x :: 0 <= x < |t.procs| && x != t.init ==> t.procs[x] == Proc(Unused, 0, None, NoChan, false))
    && forall p :: 0 <= p < |t.procs| ==> t.forking[p].None?
  }

  lemma InitialInv(t: Table)
    requires Initial(t)
    ensures Inv(t)
  {
  }

  // ---------------------------------------------------------------- steps keep the invariant

  /** A step that only makes live processes run, sleep or wake. */
  ghost predicate Relabels(t: Table, u: Table) {
    && |u.procs| == |t.procs| && u == t.(procs := u.procs)
    && (forall x :: 0 <= x < |t.procs| ==> SameEntry(t.procs[x], u.procs[x]))
    && (forall x :: 0 <= x < |t.procs| && u.procs[x].state == Sleeping && u.procs[x].chan.Entry? ==>
          (t.procs[x].state == Sleeping && u.procs[x].chan == t.procs[x].chan)
            || (u.procs[x].chan == Entry(x) && FirstZombie(t.procs, x, 0) == |t.procs|))
    && (forall p :: 0 <= p < |t.forking| && p < |t.procs| && t.forking[p].Some? ==>
         u.procs[p].state == Running || u.procs[p].state == Runnable)
  }

  predicate SameEntry(x: Proc, y: Proc) {
    x.pid == y.pid && x.parent == y.parent && (x.state == y.state || (Live(x) && Live(y)))
  }

  lemma RelabelKeeps(t: Table, u: Table)
    requires Inv(t) && Relabels(t, u)
    ensures Inv(u)
  {
    forall x | 0 <= x < |t.procs| ensures EntryOk(u, x) {
      assert EntryOk(t, x) && SameEntry(t.procs[x], u.procs[x]);
      if t.procs[x].parent.Some? {
        var q := t.procs[x].parent.value;
        assert SameEntry(t.procs[q], u.procs[q]);
      }
    }
    forall p | 0 <= p < |t.forking| ensures ForkOk(u, p) {
      assert ForkOk(t, p);
    }
    forall p, x | 0 <= p < |u.procs| && 0 <= x < |u.procs| && InWait(u.procs[p], p) && u.procs[x].parent == Some(p)
      ensures u.procs[x].state != Zombie
    {
      assert SameEntry(t.procs[x], u.procs[x]);
      if FirstZombie(t.procs, p, 0) != |t.procs| { assert InWait(t.procs[p], p); }
    }
    RelabelReaped(t, u);
  }

  lemma RelabelReaped(t: Table, u: Table)
    requires Inv(t) && Relabels(t, u)
    ensures PidsDistinct(u.procs) && ReapedOnce(u)
  {
    forall x, y | 0 <= x < y < |u.procs| && u.procs[x].state != Unused && u.procs[y].state != Unused
      ensures u.procs[x].pid != u.procs[y].pid
    {
      assert SameEntry(t.procs[x], u.procs[x]) && SameEntry(t.procs[y], u.procs[y]);
    }
    forall pid: nat ensures ZombiePid(t.procs, pid) <==> ZombiePid(u.procs, pid) {
      if x :| 0 <= x < |t.procs| && t.procs[x].state == Zombie && t.procs[x].pid == pid {
        assert SameEntry(t.procs[x], u.procs[x]);
      }
      if x :| 0 <= x < |u.procs| && u.procs[x].state == Zombie && u.procs[x].pid == pid {
        assert SameEntry(t.procs[x], u.procs[x]);
      }
    }
    forall x | 0 <= x < |u.procs| ensures SameEntry(t.procs[x], u.procs[x]) {}
  }

  lemma AllocKeeps(t: Table, p: nat)
    requires Inv(t) && Do(t, Alloc(p)).Some?
    ensures Inv(Do(t, Alloc(p)).value)
  {
    hide ReapedOnce;
    var u := Do(t, Alloc(p)).value;
    var e := FirstUnused(t.procs, 0);
    AllocEntries(t, p);
    forall q | 0 <= q < |t.forking| ensures ForkOk(u, q) && (q != p ==> u.forking[q] != Some(e)) {
      assert ForkOk(t, q);
    }
    ChangeReaped(t, u, e);
  }

  lemma AllocEntries(t: Table, p: nat)
    requires Inv(t) && Do(t, Alloc(p)).Some?
    ensures var u := Do(t, Alloc(p)).value;
      PidsDistinct(u.procs) && forall x :: 0 <= x < |u.procs| ==> EntryOk(u, x)
    ensures t.procs[p].pid < t.nextpid && t.procs[FirstUnused(t.procs, 0)].parent.None?
  {
    hide ReapedOnce, NoLostWakeup;
    var u := Do(t, Alloc(p)).value;
    var e := FirstUnused(t.procs, 0);
    assert EntryOk(t, e) && EntryOk(t, p);
    forall x | 0 <= x < |t.procs| ensures EntryOk(u, x) && (t.procs[x].state != Unused ==> t.procs[x].pid < t.nextpid) {
      assert EntryOk(t, x);
    }
  }

  lemma ForkFailKeeps(t: Table, p: nat)
    requires Inv(t) && Do(t, ForkFail(p)).Some?
    ensures Inv(Do(t, ForkFail(p)).value)
  {
    var u := Do(t, ForkFail(p)).value;
    var e := t.forking[p].value;
    assert ForkOk(t, p);
    forall x | 0 <= x < |t.procs| ensures EntryOk(u, x) {
      assert EntryOk(t, x);
    }
    forall q | 0 <= q < |t.forking| ensures ForkOk(u, q) {
      assert ForkOk(t, q);
    }
    ChangeReaped(t, u, e);
  }

  lemma SetParentKeeps(t: Table, p: nat)
    requires Inv(t) && Do(t, SetParent(p)).Some?
    ensures Inv(Do(t, SetParent(p)).value)
  {
    var u := Do(t, SetParent(p)).value;
    assert ForkOk(t, p);
    forall x | 0 <= x < |t.procs| ensures EntryOk(u, x) {
      assert EntryOk(t, x);
    }
    forall q | 0 <= q < |t.forking| ensures ForkOk(u, q) {
      assert ForkOk(t, q);
    }
    ChangeReaped(t, u, t.forking[p].value);
  }

  lemma ForkDoneKeeps(t: Table, p: nat)
    requires Inv(t) && Do(t, ForkDone(p)).Some?
    ensures Inv(Do(t, ForkDone(p)).value)
  {
    var u := Do(t, ForkDone(p)).value;
    assert ForkOk(t, p);
    forall x | 0 <= x < |t.procs| ensures EntryOk(u, x) {
      assert EntryOk(t, x);
    }
    forall q | 0 <= q < |t.forking| ensures ForkOk(u, q) {
      assert ForkOk(t, q);
    }
    ChangeReaped(t, u, t.forking[p].value);
  }

  /** A change of one entry that is no zombie before or after, to a pid that never exited. */
  lemma ChangeReaped(t: Table, u: Table, e: nat)
    requires ReapedOnce(t) && e < |t.procs| == |u.procs| && u.exited == t.exited && u.reaped == t.reaped
      && t.nextpid <= u.nextpid
    requires forall x :: 0 <= x < |t.procs| && x != e ==> u.procs[x] == t.procs[x]
    requires t.procs[e].state != Zombie && u.procs[e].state != Zombie
    requires u.procs[e].state != Unused ==>
      (t.procs[e].state != Unused && u.procs[e].pid == t.procs[e].pid) || u.procs[e].pid >= t.nextpid
    ensures ReapedOnce(u)
  {
    forall pid: nat ensures ZombiePid(t.procs, pid) <==> ZombiePid(u.procs, pid) {
      if x :| 0 <= x < |t.procs| && t.procs[x].state == Zombie && t.procs[x].pid == pid {
        assert u.procs[x].state == Zombie;
      }
      if x :| 0 <= x < |u.procs| && u.procs[x].state == Zombie && u.procs[x].pid == pid {
        assert t.procs[x].state == Zombie;
      }
    }
  }

  /** wait() reaps a zombie: its entry becomes free and no one else refers to it. */
  lemma ReapKeeps(t: Table, p: nat)
    requires Inv(t) && Free(t, p) && FirstZombie(t.procs, p, 0) < |t.procs|
    ensures Inv(Do(t, Wait(p)).value)
  {
    var u := Do(t, Wait(p)).value;
    var z := FirstZombie(t.procs, p, 0);
    forall x | 0 <= x < |t.procs| ensures EntryOk(u, x) {
      assert EntryOk(t, x);
    }
    forall q | 0 <= q < |t.forking| ensures ForkOk(u, q) {
      assert ForkOk(t, q);
    }
    ReapReaped(t, u, z);
  }

  lemma ReapReaped(t: Table, u: Table, z: nat)
    requires ReapedOnce(t) && PidsDistinct(t.procs) && z < |t.procs| && t.procs[z].state == Zombie
    requires u == t.(procs := t.procs[z := t.procs[z].(state := Unused, pid := 0, parent := None, killed := false)],
      reaped := t.reaped + [t.procs[z].pid])
    ensures ReapedOnce(u)
  {
    var pz := t.procs[z].pid;
    assert ZombiePid(t.procs, pz);
    forall x | 0 <= x < |t.procs| && x != z && t.procs[x].state != Unused ensures t.procs[x].pid != pz {
    }
    forall pid: nat ensures pid in u.exited <==> pid in u.reaped || ZombiePid(u.procs, pid) {
      if x :| 0 <= x < |t.procs| && t.procs[x].state == Zombie && t.procs[x].pid == pid {
        assert x == z || u.procs[x].state == Zombie;
      }
      if x :| 0 <= x < |u.procs| && u.procs[x].state == Zombie && u.procs[x].pid == pid {
        assert t.procs[x].state == Zombie;
      }
    }
  }

  // ---------------------------------------------------------------- exit

  /** What exit() by p does to entry x. */
  lemma ExitAt(procs: seq<Proc>, p: nat, init: nat, x: nat)
    requires p < |procs| && x < |procs|
    ensures var y := ExitProcs(procs, p, init)[x];
      && y.pid == procs[x].pid && y.chan == procs[x].chan && y.killed == procs[x].killed
      && y.parent == (if procs[x].parent == Some(p) then Some(init) else procs[x].parent)
      && (x == p ==> y.state == Zombie)
      && (x != p && procs[x].state != Sleeping ==> y.state == procs[x].state)
      && (x != p && procs[x].state == Sleeping ==> y.state == Sleeping || y.state == Runnable)
      && (x != p && y.state == Sleeping ==>
            && (procs[p].parent.Some? ==> y.chan != Entry(procs[p].parent.value))
            && (FirstZombie(procs, p, 0) < |procs| ==> y.chan != Entry(init)))
  {
    hide FirstZombie;
    var woken := if procs[p].parent.Some? then Wake(procs, Entry(procs[p].parent.value)) else procs;
    var passed := if FirstZombie(procs, p, 0) < |procs| then Wake(woken, Entry(init)) else woken;
    var moved := Reparent(passed, p, init);
    assert woken[x] == procs[x] || (procs[p].parent.Some? && woken[x] == Awake(procs[x], Entry(procs[p].parent.value)));
    assert moved[x] == Adopt(passed[x], p, init);
  }

  lemma ExitEntries(t: Table, p: nat, x: nat)
    requires Inv(t) && Free(t, p) && p != t.init && x < |t.procs|
    ensures EntryOk(Do(t, Exit(p)).value, x)
  {
    hide ExitProcs, NoLostWakeup, ReapedOnce;
    var u := Do(t, Exit(p)).value;
    assert EntryOk(t, x) && EntryOk(t, t.init) && EntryOk(t, p);
    ExitAt(t.procs, p, t.init, x);
    ExitAt(t.procs, p, t.init, t.init);
    if t.procs[x].parent.Some? {
      ExitAt(t.procs, p, t.init, t.procs[x].parent.value);
    }
    if t.procs[x].parent == Some(p) && x != t.init {
      assert t.procs[x].pid != t.procs[t.init].pid;
    }
  }

  lemma ExitWakes(t: Table, p: nat, q: nat, x: nat)
    requires Inv(t) && Free(t, p) && p != t.init && q < |t.procs| && x < |t.procs|
    requires var u := ExitProcs(t.procs, p, t.init); InWait(u[q], q) && u[x].parent == Some(q)
    ensures ExitProcs(t.procs, p, t.init)[x].state != Zombie
  {
    hide ExitProcs, ReapedOnce;
    ExitAt(t.procs, p, t.init, q);
    ExitAt(t.procs, p, t.init, x);
    assert EntryOk(t, p) && EntryOk(t, x);
    if x != p && t.procs[x].parent != Some(p) {
      assert InWait(t.procs[q], q);
    }
  }

  lemma ExitReaped(t: Table, p: nat)
    requires Inv(t) && Free(t, p) && p != t.init
    ensures PidsDistinct(ExitProcs(t.procs, p, t.init)) && ReapedOnce(Do(t, Exit(p)).value)
  {
    hide ExitProcs, NoLostWakeup;
    var u := Do(t, Exit(p)).value;
    forall x | 0 <= x < |t.procs|
      ensures u.procs[x].pid == t.procs[x].pid && (u.procs[x].state == Unused <==> t.procs[x].state == Unused)
      ensures u.procs[x].state == Zombie <==> x == p || t.procs[x].state == Zombie
    {
      ExitAt(t.procs, p, t.init, x);
    }
    assert EntryOk(t, p);
    forall pid: nat ensures ZombiePid(u.procs, pid) <==> pid == t.procs[p].pid || ZombiePid(t.procs, pid) {
      if x :| 0 <= x < |t.procs| && t.procs[x].state == Zombie && t.procs[x].pid == pid {
        assert u.procs[x].state == Zombie;
      }
      if x :| 0 <= x < |u.procs| && u.procs[x].state == Zombie && u.procs[x].pid == pid {
        assert x == p || t.procs[x].state == Zombie;
      }
      assert u.procs[p].state == Zombie && u.procs[p].pid == t.procs[p].pid;
    }
  }

  lemma ExitKeeps(t: Table, p: nat)
    requires Inv(t) && Do(t, Exit(p)).Some?
    ensures Inv(Do(t, Exit(p)).value)
  {
    hide ExitProcs, EntryOk, ReapedOnce, PidsDistinct;
    var u := Do(t, Exit(p)).value;
    ExitAt(t.procs, p, t.init, t.init);
    forall x | 0 <= x < |t.procs| ensures EntryOk(u, x) {
      ExitEntries(t, p, x);
    }
    forall q | 0 <= q < |t.forking| ensures ForkOk(u, q) {
      assert ForkOk(t, q);
      ExitAt(t.procs, p, t.init, q);
      if t.forking[q].Some? {
        ExitAt(t.procs, p, t.init, t.forking[q].value);
        ForkedNotChild(t, p, q);
      }
    }
    forall q, x | 0 <= q < |u.procs| && 0 <= x < |u.procs| && InWait(u.procs[q], q) && u.procs[x].parent == Some(q)
      ensures u.procs[x].state != Zombie
    {
      ExitWakes(t, p, q, x);
    }
    ExitReaped(t, p);
  }

  /** The entry someone else is forking is not a child of p. */
  lemma ForkedNotChild(t: Table, p: nat, q: nat)
    requires Inv(t) && Free(t, p) && q < |t.forking| && t.forking[q].Some?
    ensures t.forking[q].value < |t.procs| && t.procs[t.forking[q].value].parent != Some(p)
  {
    assert ForkOk(t, q);
  }

  // ---------------------------------------------------------------- theorems

  /** Every step keeps the invariant. */
  lemma StepKeepsInv(t: Table, step: Step)
    requires Inv(t)
    ensures Do(t, step).Some? ==> Inv(Do(t, step).value)
  {
    if Do(t, step).Some? {
      match step
      case Alloc(p) => AllocKeeps(t, p);
      case ForkFail(p) => ForkFailKeeps(t, p);
      case SetParent(p) => SetParentKeeps(t, p);
      case ForkDone(p) => ForkDoneKeeps(t, p);
      case Exit(p) => ExitKeeps(t, p);
      case Wait(p) =>
        if FirstZombie(t.procs, p, 0) < |t.procs| {
          ReapKeeps(t, p);
        } else {
          OtherStepRelabels(t, step);
          RelabelKeeps(t, Do(t, step).value);
        }
      case _ =>
        OtherStepRelabels(t, step);
        RelabelKeeps(t, Do(t, step).value);
    }
  }

  lemma OtherStepRelabels(t: Table, step: Step)
    requires Inv(t) && |t.forking| == |t.procs| && Do(t, step).Some?
    requires forall p :: 0 <= p < |t.forking| ==> ForkOk(t, p)
    requires step.Sleep? || step.Wakeup? || step.Kill? || step.Yield? || step.Dispatch? ||
             (step.Wait? && FirstZombie(t.procs, step.p, 0) == |t.procs|)
    ensures Relabels(t, Do(t, step).value)
  {
    hide Inv, FirstZombie, HasKids, Wake;
    var u := Do(t, step).value;
    if step.Wakeup? {
      WakeRelabels(t, step.chan);
    } else if u == t {
      NoneRelabels(t);
    } else {
      var k := if step.Kill? then FirstPid(t.procs, step.pid, 0) else step.p;
      assert ForkOk(t, k);
      OneRelabels(t, k, u.procs[k]);
    }
  }

  lemma ForkersRun(t: Table)
    requires Inv(t)
    ensures forall p :: 0 <= p < |t.procs| && t.forking[p].Some? ==>
      t.procs[p].state == Running || t.procs[p].state == Runnable
  {
    forall p | 0 <= p < |t.procs| && t.forking[p].Some?
      ensures t.procs[p].state == Running || t.procs[p].state == Runnable
    {
      assert ForkOk(t, p);
    }
  }

  lemma NoneRelabels(t: Table)
    requires Inv(t)
    ensures Relabels(t, t)
  {
    hide ReapedOnce, NoLostWakeup, EntryOk, FirstZombie;
    ForkersRun(t);
  }

  lemma OneRelabels(t: Table, k: nat, y: Proc)
    requires Inv(t) && k < |t.procs| && SameEntry(t.procs[k], y)
    requires y.state == Sleeping && y.chan.Entry? ==>
      (t.procs[k].state == Sleeping && y.chan == t.procs[k].chan)
        || (y.chan == Entry(k) && FirstZombie(t.procs, k, 0) == |t.procs|)
    requires t.forking[k].Some? ==> y.state == Running || y.state == Runnable
    ensures Relabels(t, t.(procs := t.procs[k := y]))
  {
    hide ReapedOnce, NoLostWakeup, EntryOk, FirstZombie;
    ForkersRun(t);
  }

  lemma WakeRelabels(t: Table, chan: Chan)
    requires Inv(t)
    ensures Relabels(t, t.(procs := Wake(t.procs, chan)))
  {
    hide ReapedOnce, NoLostWakeup, EntryOk, FirstZombie, Wake;
    ForkersRun(t);
  }

  /** ts is the table before each step and after the last. */
  ghost predicate IsRun(ts: seq<Table>, steps: seq<Step>) {
    && |ts| == |steps| + 1 && Initial(ts[0])
    && forall i :: 0 <= i < |steps| ==> Do(ts[i], steps[i]) == Some(ts[i + 1])
  }

  /** Over every interleaving, whenever the table is not being changed: no process sleeps
      in wait() with a zombie child, no zombie is a parent, parents are older than their
      children, pids are distinct, and each exited process is reaped at most once. */
  lemma {:induction false} RunKeepsInv(ts: seq<Table>, steps: seq<Step>, i: nat)
    requires IsRun(ts, steps) && i < |ts|
    ensures Inv(ts[i])
  {
    if i == 0 {
      InitialInv(ts[0]);
    } else {
      RunKeepsInv(ts, steps, i - 1);
      assert Do(ts[i - 1], steps[i - 1]) == Some(ts[i - 1 + 1]);
      StepKeepsInv(ts[i - 1], steps[i - 1]);
    }
  }

  /** The entries from x up to init along the parent links. */
  ghost function Ancestors(t: Table, x: nat): (path: seq<nat>)
    requires Inv(t) && x < |t.procs| && Started(t.procs[x])
    ensures |path| > 0 && path[0] == x && path[|path| - 1] == t.init
    ensures forall k :: 0 <= k < |path| ==> path[k] < |t.procs| && Started(t.procs[path[k]])
    ensures forall k :: 1 <= k < |path| ==> Live(t.procs[path[k]]) && t.procs[path[k - 1]].parent == Some(path[k])
    decreases t.procs[x].pid
  {
    assert EntryOk(t, x);
    if x == t.init then [x] else
    var rest := Ancestors(t, t.procs[x].parent.value);
    [x] + rest
  }

  /** The parent links of every started process lead, without a cycle, to init. */
  lemma LeadsToInit(t: Table, x: nat)
    requires Inv(t) && x < |t.procs| && Started(t.procs[x])
    ensures var path := Ancestors(t, x); forall j, k :: 0 <= j < k < |path| ==> path[j] != path[k]
  {
    var path := Ancestors(t, x);
    forall j, k | 0 <= j < k < |path| ensures t.procs[path[k]].pid < t.procs[path[j]].pid {
      OlderAlong(t, path, j, k);
    }
  }

  lemma {:induction false} OlderAlong(t: Table, path: seq<nat>, j: nat, k: nat)
    requires Inv(t) && j < k < |path| && forall i :: 0 <= i < |path| ==> path[i] < |t.procs|
    requires forall i :: 1 <= i < |path| ==> t.procs[path[i - 1]].parent == Some(path[i])
    ensures t.procs[path[k]].pid < t.procs[path[j]].pid
    decreases k
  {
    assert EntryOk(t, path[k - 1]);
    if j < k - 1 {
      OlderAlong(t, path, j, k - 1);
    }
  }

  /** wait() returns the pid of a zombie whose parent is the caller, and that pid was never returned before. */
  lemma WaitReapsOwnChild(t: Table, p: nat)
    requires Inv(t) && Do(t, Wait(p)).Some? && Do(t, Wait(p)).value.reaped != t.reaped
    ensures var u := Do(t, Wait(p)).value;
      exists z :: 0 <= z < |t.procs| && t.procs[z].state == Zombie && t.procs[z].parent == Some(p)
        && u.reaped == t.reaped + [t.procs[z].pid] && t.procs[z].pid !in t.reaped && t.procs[z].pid in t.exited
  {
    var z := FirstZombie(t.procs, p, 0);
    assert ZombiePid(t.procs, t.procs[z].pid);
  }

  /** In every run the reaped pids are exited pids, without repetition. */
  lemma ReapedAtMostOnce(ts: seq<Table>, steps: seq<Step>, i: nat)
    requires IsRun(ts, steps) && i < |ts|
    ensures Distinct(ts[i].reaped) && forall k :: 0 <= k < |ts[i].reaped| ==> ts[i].reaped[k] in ts[i].exited
  {
    RunKeepsInv(ts, steps, i);
    forall k | 0 <= k < |ts[i].reaped| ensures ts[i].reaped[k] in ts[i].exited {
      assert ts[i].reaped[k] in ts[i].reaped;
    }
  }

  // ---------------------------------------------------------------- when a new process starts unkilled

  /** No free entry is marked killed, so the next process starts unkilled. */
  ghost predicate FreshUnkilled(procs: seq<Proc>) {
    forall x :: 0 <= x < |procs| && procs[x].state == Unused ==> !procs[x].killed
  }

  /** kill() of a pid whose first entry is free, or a failing fork whose new entry was killed meanwhile. */
  ghost predicate MarksFree(t: Table, step: Step) {
    match step
    case Kill(pid) => FirstPid(t.procs, pid, 0) < |t.procs| && t.procs[FirstPid(t.procs, pid, 0)].state == Unused
    case ForkFail(p) => IsForking(t, p) && t.procs[t.forking[p].value].killed
    case _ => false
  }

  /** Each step keeps all free entries unmarked exactly when it is not one of those two. */
  lemma StepKeepsUnkilled(t: Table, step: Step)
    requires Inv(t) && FreshUnkilled(t.procs) && Do(t, step).Some?
    ensures FreshUnkilled(Do(t, step).value.procs) <==> !MarksFree(t, step)
  {
    hide ExitProcs, Inv;
    var u := Do(t, step).value;
    if step.Kill? {
      var k := FirstPid(t.procs, step.pid, 0);
      assert k < |t.procs| ==> u.procs[k].killed;
    } else if step.ForkFail? {
      var e := t.forking[step.p].value;
      assert u.procs[e].state == Unused && u.procs[e].killed == t.procs[e].killed;
    } else if step.Exit? {
      forall x | 0 <= x < |u.procs| && u.procs[x].state == Unused ensures !u.procs[x].killed {
        ExitAt(t.procs, step.p, t.init, x);
      }
    }
  }

  /** Over every run without such a step, each new process starts unkilled. */
  lemma {:induction false} NewProcessUnkilled(ts: seq<Table>, steps: seq<Step>, i: nat)
    requires IsRun(ts, steps) && i < |ts| && forall k :: 0 <= k < i ==> !MarksFree(ts[k], steps[k])
    ensures FreshUnkilled(ts[i].procs)
    ensures i < |steps| && steps[i].Alloc? ==>
      FirstUnused(ts[i].procs, 0) < |ts[i + 1].procs| && !ts[i + 1].procs[FirstUnused(ts[i].procs, 0)].killed
  {
    hide Inv, MarksFree;
    if i > 0 {
      NewProcessUnkilled(ts, steps, i - 1);
      RunKeepsInv(ts, steps, i - 1);
      StepKeepsUnkilled(ts[i - 1], steps[i - 1]);
    }
    RunKeepsInv(ts, steps, i);
    InvShape(ts[i]);
    if i < |steps| && steps[i].Alloc? {
      assert Do(ts[i], steps[i]) == Some(ts[i + 1]);
    }
  }

  lemma InvShape(t: Table)
    requires Inv(t)
    ensures |t.forking| == |t.procs| && t.init < |t.procs|
  {
  }

  /** A fork that ran out of memory leaves its pid in the free entry; killing that pid
      makes the next process that is created start life killed. */
  lemma StaleKill(t: Table) returns (t1: Table, t2: Table, t3: Table, t4: Table, t5: Table)
    requires Initial(t) && |t.procs| >= 2 && t.init == 0
    ensures Do(t, Dispatch(0)) == Some(t1) && Do(t1, Alloc(0)) == Some(t2) && Do(t2, ForkFail(0)) == Some(t3)
    ensures Do(t3, Kill(2)) == Some(t4) && Do(t4, Alloc(0)) == Some(t5)
    ensures t5.forking[0] == Some(1) && t5.procs[1].state == Embryo && t5.procs[1].killed
  {
    t1 := Do(t, Dispatch(0)).value;
    assert FirstUnused(t1.procs, 0) == 1;
    t2 := Do(t1, Alloc(0)).value;
    t3 := Do(t2, ForkFail(0)).value;
    assert FirstPid(t3.procs, 2, 0) == 1;
    t4 := Do(t3, Kill(2)).value;
    assert FirstUnused(t4.procs, 0) == 1;
    t5 := Do(t4, Alloc(0)).value;
  }

  /** A process killed while fork() is still setting it up: the fork fails, and the mark stays in the free entry. */
  lemma KilledEmbryo(t: Table) returns (t1: Table, t2: Table, t3: Table, t4: Table, t5: Table)
    requires Initial(t) && |t.procs| >= 2 && t.init == 0
    ensures Do(t, Dispatch(0)) == Some(t1) && Do(t1, Alloc(0)) == Some(t2) && Do(t2, Kill(2)) == Some(t3)
    ensures t2.procs[1].state == Embryo && FreshUnkilled(t3.procs)
    ensures Do(t3, ForkFail(0)) == Some(t4) && Do(t4, Alloc(0)) == Some(t5)
    ensures t5.forking[0] == Some(1) && t5.procs[1].state == Embryo && t5.procs[1].killed
  {
    t1 := Do(t, Dispatch(0)).value;
    assert FirstUnused(t1.procs, 0) == 1;
    t2 := Do(t1, Alloc(0)).value;
    assert FirstPid(t2.procs, 2, 0) == 1;
    t3 := Do(t2, Kill(2)).value;
    t4 := Do(t3, ForkFail(0)).value;
    assert FirstUnused(t4.procs, 0) == 1;
    t5 := Do(t4, Alloc(0)).value;
  }

  /** kill(0) finds a table entry that was never used, whose pid is 0. */
  lemma KillZero(t: Table) returns (t1: Table, t2: Table, t3: Table)
    requires Initial(t) && |t.procs| >= 2 && t.init == 0
    ensures Do(t, Dispatch(0)) == Some(t1) && Do(t1, Kill(0)) == Some(t2) && Do(t2, Alloc(0)) == Some(t3)
    ensures t3.forking[0] == Some(1) && t3.procs[1].state == Embryo && t3.procs[1].killed
  {
    t1 := Do(t, Dispatch(0)).value;
    assert FirstPid(t1.procs, 0, 0) == 1;
    t2 := Do(t1, Kill(0)).value;
    assert FirstUnused(t2.procs, 0) == 1;
    t3 := Do(t2, Alloc(0)).value;
  }
}
