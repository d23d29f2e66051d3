/** For each thing that xv6/proc.c keeps about a process, exactly which steps change it, and what this means over
    whole runs: how long a process sleeps, stays killed, stays a zombie, and what wait() answers. */
module ProcLaws {
  import opened Commons
  import opened ProcSpec

  predicate ZombieChild(t: Table, p: nat, x: nat) {
    x < |t.procs| && t.procs[x].parent == Some(p) && t.procs[x].state == Zombie
  }

  ghost predicate Child(t: Table, p: nat, x: nat) {
    x < |t.procs| && t.procs[x].parent == Some(p)
  }

  /** wait() by some process takes zombie x off the table: its first zombie child. */
  ghost predicate Reaps(t: Table, step: Step, x: nat) {
    step.Wait? && ZombieChild(t, step.p, x) && forall y: nat :: y < x ==> !ZombieChild(t, step.p, y)
  }

  /** kill() finds entry x: the first with that pid. */
  ghost predicate Kills(t: Table, step: Step, x: nat) {
    && step.Kill? && x < |t.procs| && t.procs[x].pid == step.pid
    && forall y: nat :: y < x ==> t.procs[y].pid != step.pid
  }

  /** The step ends the sleep of x: wakeup of its channel, its being killed, or the exit of a child of the process
      on whose entry it sleeps; init is also told of zombies it inherits. */
  ghost predicate Rouses(t: Table, step: Step, x: nat)
    requires x < |t.procs|
  {
    match step
    case Wakeup(chan) => t.procs[x].chan == chan
    case Kill(pid) => Kills(t, step, x)
    case Exit(p) =>
      && p < |t.procs|
      && ((t.procs[p].parent.Some? && t.procs[x].chan == Entry(t.procs[p].parent.value))
          || (t.procs[x].chan == Entry(t.init) && exists y: nat :: ZombieChild(t, p, y)))
    case _ => false
  }

  /** wait() by x goes to sleep: it has children, none a zombie, and is not killed. */
  ghost predicate WaitSleeps(t: Table, x: nat)
    requires x < |t.procs|
  {
    (exists y: nat :: Child(t, x, y)) && (forall y: nat :: !ZombieChild(t, x, y)) && !t.procs[x].killed
  }

  // ---------------------------------------------------------------- the scans

  lemma ScanZombie(t: Table, p: nat)
    ensures var z := FirstZombie(t.procs, p, 0);
      && (z < |t.procs| <==> exists y: nat :: ZombieChild(t, p, y))
      && (z < |t.procs| ==> ZombieChild(t, p, z) && forall y: nat :: y < z ==> !ZombieChild(t, p, y))
  {
    var z := FirstZombie(t.procs, p, 0);
    if z < |t.procs| { assert ZombieChild(t, p, z); }
  }

  lemma ScanKids(t: Table, p: nat)
    ensures HasKids(t.procs, p) <==> exists y: nat :: Child(t, p, y)
  {
    if HasKids(t.procs, p) {
      var i :| 0 <= i < |t.procs| && t.procs[i].parent == Some(p);
      assert Child(t, p, i);
    }
  }

  lemma ScanPid(t: Table, pid: nat, x: nat)
    requires x < |t.procs|
    ensures FirstPid(t.procs, pid, 0) == x <==> Kills(t, Kill(pid), x)
  {
  }

  lemma ScanReap(t: Table, p: nat, x: nat)
    requires x < |t.procs|
    ensures FirstZombie(t.procs, p, 0) == x <==> Reaps(t, Wait(p), x)
  {
    ScanZombie(t, p);
  }

  // ---------------------------------------------------------------- one step

  /** exit() by p as it looks from entry x. */
  lemma ExitLook(t: Table, p: nat, x: nat)
    requires p < |t.procs| && x < |t.procs|
    ensures var y, before := ExitProcs(t.procs, p, t.init)[x], t.procs[x];
      && y.pid == before.pid && y.killed == before.killed && y.chan == before.chan
      && y.parent == (if before.parent == Some(p) then Some(t.init) else before.parent)
      && y.state == if x == p then Zombie
           else if before.state == Sleeping && Rouses(t, Exit(p), x) then Runnable else before.state
  {
    hide FirstZombie, ZombieChild;
    ScanZombie(t, p);
    var procs, told := t.procs, FirstZombie(t.procs, p, 0) < |t.procs|;
    var woken := if procs[p].parent.Some? then Wake(procs, Entry(procs[p].parent.value)) else procs;
    var passed := if told then Wake(woken, Entry(t.init)) else woken;
    assert woken[x] == if procs[p].parent.Some? then Awake(procs[x], Entry(procs[p].parent.value)) else procs[x];
    assert passed[x] == if told then Awake(woken[x], Entry(t.init)) else woken[x];
    assert Reparent(passed, p, t.init)[x] == Adopt(passed[x], p, t.init);
  }

  /** A sleeping process goes on sleeping on its channel exactly until a step rouses it; then it can run. */
  lemma SleepEndsExactly(t: Table, step: Step, x: nat)
    requires Inv(t) && Do(t, step).Some? && x < |t.procs| && t.procs[x].state == Sleeping
    ensures var u := Do(t, step).value;
      && x < |u.procs|
      && if Rouses(t, step, x) then u.procs[x].state == Runnable
         else u.procs[x].state == Sleeping && u.procs[x].chan == t.procs[x].chan
  {
    hide ReapedOnce, NoLostWakeup, PidsDistinct, EntryOk, ExitProcs;
    Forkers(t);
    match step
    case Exit(p) => ExitLook(t, p, x);
    case Kill(pid) => ScanPid(t, pid, x);
    case Wait(p) => ScanZombie(t, p);
    case _ =>
  }

  lemma Forkers(t: Table)
    requires Inv(t)
    ensures |t.forking| == |t.procs|
    ensures forall p :: 0 <= p < |t.forking| && t.forking[p].Some? ==>
      t.forking[p].value < |t.procs| && t.procs[t.forking[p].value].state == Embryo
  {
    hide ReapedOnce, NoLostWakeup, PidsDistinct, EntryOk;
    forall p | 0 <= p < |t.forking| && t.forking[p].Some?
      ensures t.forking[p].value < |t.procs| && t.procs[t.forking[p].value].state == Embryo
    {
      assert ForkOk(t, p);
    }
  }

  /** A process falls asleep exactly in its own sleep(), on the channel it names, and in its own wait(), on its
      entry, if it has children, none of them a zombie, and is not killed. */
  lemma SleepBeginsExactly(t: Table, step: Step, x: nat)
    requires Inv(t) && Do(t, step).Some? && x < |t.procs| && t.procs[x].state != Sleeping
    ensures var u := Do(t, step).value;
      && x < |u.procs|
      && (u.procs[x].state == Sleeping <==> (step.Sleep? && step.p == x) || (step == Wait(x) && WaitSleeps(t, x)))
      && (step.Sleep? && step.p == x ==> u.procs[x].chan == Other(step.id))
      && (step == Wait(x) && WaitSleeps(t, x) ==> u.procs[x].chan == Entry(x))
  {
    hide ReapedOnce, NoLostWakeup, PidsDistinct, EntryOk, ExitProcs;
    Forkers(t);
    match step
    case Exit(p) => ExitLook(t, p, x);
    case Wait(p) =>
      ScanZombie(t, p);
      ScanKids(t, p);
    case _ =>
  }

  /** The mark of kill() is set by kill() alone, and cleared by the wait() that reaps the process alone. */
  lemma KilledExactly(t: Table, step: Step, x: nat)
    requires Inv(t) && Do(t, step).Some? && x < |t.procs|
    ensures var u := Do(t, step).value;
      x < |u.procs| && (u.procs[x].killed <==> Kills(t, step, x) || (t.procs[x].killed && !Reaps(t, step, x)))
  {
    hide ReapedOnce, NoLostWakeup, PidsDistinct, EntryOk, ExitProcs;
    Forkers(t);
    match step
    case Exit(p) => ExitLook(t, p, x);
    case Kill(pid) => ScanPid(t, pid, x);
    case Wait(p) => ScanReap(t, p, x);
    case _ =>
  }

  /** A process becomes a zombie by its own exit() alone, and stops being one when its parent reaps it. */
  lemma ZombieExactly(t: Table, step: Step, x: nat)
    requires Inv(t) && Do(t, step).Some? && x < |t.procs|
    ensures var u := Do(t, step).value;
      && x < |u.procs|
      && (u.procs[x].state == Zombie <==> step == Exit(x) || (t.procs[x].state == Zombie && !Reaps(t, step, x)))
      && (Reaps(t, step, x) ==> u.procs[x].state == Unused && u.reaped == t.reaped + [t.procs[x].pid])
  {
    hide ReapedOnce, NoLostWakeup, PidsDistinct, EntryOk, ExitProcs;
    Forkers(t);
    match step
    case Exit(p) => ExitLook(t, p, x);
    case Wait(p) =>
      ScanZombie(t, p);
      ScanReap(t, p, x);
    case _ =>
  }

  /** A process gets its parent from the fork() that makes it, passes to init when that parent exits, and has none
      once it is reaped; nothing else changes it. */
  lemma ParentExactly(t: Table, step: Step, x: nat)
    requires Inv(t) && Do(t, step).Some? && x < |t.procs|
    ensures var u := Do(t, step).value;
      && x < |u.procs|
      && u.procs[x].parent ==
         if step.SetParent? && step.p < |t.forking| && t.forking[step.p] == Some(x) then Some(step.p)
         else if step.Exit? && t.procs[x].parent == Some(step.p) then Some(t.init)
         else if Reaps(t, step, x) then None else t.procs[x].parent
  {
    hide ReapedOnce, NoLostWakeup, PidsDistinct, EntryOk, ExitProcs;
    Forkers(t);
    match step
    case Exit(p) => ExitLook(t, p, x);
    case Wait(p) => ScanReap(t, p, x);
    case _ =>
  }

  /** A process runs from when it is dispatched until it yields, sleeps, waits or exits. */
  lemma RunningExactly(t: Table, step: Step, x: nat)
    requires Inv(t) && Do(t, step).Some? && x < |t.procs|
    ensures var u := Do(t, step).value;
      && x < |u.procs|
      && (u.procs[x].state == Running <==>
            step == Dispatch(x)
            || (t.procs[x].state == Running && step != Yield(x) && step != Exit(x) && !(step.Sleep? && step.p == x)
                && !(step == Wait(x) && WaitSleeps(t, x))))
      && (step == Dispatch(x) ==> t.procs[x].state == Runnable)
  {
    hide ReapedOnce, NoLostWakeup, PidsDistinct, EntryOk, ExitProcs;
    Forkers(t);
    match step
    case Exit(p) => ExitLook(t, p, x);
    case Kill(pid) => ScanPid(t, pid, x);
    case Wait(p) =>
      ScanZombie(t, p);
      ScanKids(t, p);
      ScanReap(t, p, x);
    case _ =>
  }

  /** fork() by some process takes entry x: the first unused one. */
  ghost predicate Allocates(t: Table, step: Step, x: nat) {
    && step.Alloc? && x < |t.procs| && t.procs[x].state == Unused
    && forall y: nat :: y < x ==> t.procs[y].state != Unused
  }

  /** The process that is setting up entry x ends its fork(), with success or without. */
  ghost predicate EndsFork(t: Table, step: Step, x: nat, ok: bool) {
    && (if ok then step.ForkDone? else step.ForkFail?)
    && step.p < |t.forking| && t.forking[step.p] == Some(x)
  }

  /** An entry is being set up from the fork() that takes it until that fork() ends; it is unused again when that
      fork() fails, and when its process is reaped. */
  lemma EntryExactly(t: Table, step: Step, x: nat)
    requires Inv(t) && Do(t, step).Some? && x < |t.procs|
    ensures var u := Do(t, step).value;
      && x < |u.procs|
      && (u.procs[x].state == Embryo <==>
            Allocates(t, step, x)
            || (t.procs[x].state == Embryo && !EndsFork(t, step, x, true) && !EndsFork(t, step, x, false)))
      && (u.procs[x].state == Unused <==>
            EndsFork(t, step, x, false) || Reaps(t, step, x)
            || (t.procs[x].state == Unused && !Allocates(t, step, x)))
      && (EndsFork(t, step, x, true) ==> u.procs[x].state == Runnable)
      && (Allocates(t, step, x) ==> u.procs[x].pid == t.nextpid)
  {
    hide ReapedOnce, NoLostWakeup, PidsDistinct, EntryOk, ExitProcs;
    Forkers(t);
    match step
    case Exit(p) => ExitLook(t, p, x);
    case Wait(p) =>
      ScanZombie(t, p);
      ScanReap(t, p, x);
    case ForkDone(p) => OneForker(t, p, x);
    case ForkFail(p) => OneForker(t, p, x);
    case _ =>
  }

  lemma OneForker(t: Table, p: nat, x: nat)
    requires Inv(t) && p < |t.forking|
    ensures t.forking[p] == Some(x) ==> x < |t.procs| && t.procs[x].state == Embryo
  {
    Forkers(t);
  }

  /** wait() answers -1, changing nothing, exactly when no child is a zombie and the caller is killed or has no
      child at all; with a zombie child it reaps one; else it sleeps. */
  lemma WaitExactly(t: Table, p: nat)
    requires Inv(t) && Free(t, p)
    ensures Do(t, Wait(p)).Some?
    ensures var u := Do(t, Wait(p)).value;
      && (u == t <==>
            (forall y: nat :: !ZombieChild(t, p, y)) && (t.procs[p].killed || forall y: nat :: !Child(t, p, y)))
      && (u.reaped != t.reaped <==> exists y: nat :: ZombieChild(t, p, y))
      && (p < |u.procs| && u.procs[p].state == Sleeping <==> WaitSleeps(t, p))
  {
    hide Inv;
    ScanZombie(t, p);
    ScanKids(t, p);
    var u, z := Do(t, Wait(p)).value, FirstZombie(t.procs, p, 0);
    if z < |t.procs| {
      assert |u.reaped| == |t.reaped| + 1;
    } else if HasKids(t.procs, p) && !t.procs[p].killed {
      assert u.procs[p].state != t.procs[p].state;
    }
  }

  // ---------------------------------------------------------------- runs

  /** In any run, wait() by a process that is not killed answers -1 only if the process has no child: whoever it
      forked, and whoever it inherited, it has reaped. */
  lemma WaitFailsChildless(ts: seq<Table>, steps: seq<Step>, i: nat, p: nat)
    requires IsRun(ts, steps) && i < |steps| && steps[i] == Wait(p) && ts[i + 1] == ts[i] && !ts[i].procs[p].killed
    ensures forall y: nat :: !Child(ts[i], p, y)
  {
    hide Inv;
    RunKeepsInv(ts, steps, i);
    WaitExactly(ts[i], p);
  }

  /** No step in i..j-1 rouses x. */
  ghost predicate Undisturbed(ts: seq<Table>, steps: seq<Step>, x: nat, i: nat, j: nat)
    requires IsRun(ts, steps) && i <= j <= |steps|
  {
    forall k :: i <= k < j ==> x < |ts[k].procs| && !Rouses(ts[k], steps[k], x)
  }

  /** A process that went to sleep sleeps until the first step that rouses it, and that step makes it runnable. */
  lemma {:induction false} SleepsUntilRoused(ts: seq<Table>, steps: seq<Step>, x: nat, i: nat, j: nat)
    requires IsRun(ts, steps) && i <= j < |ts| && x < |ts[i].procs| && ts[i].procs[x].state == Sleeping
    requires Undisturbed(ts, steps, x, i, j)
    ensures x < |ts[j].procs| && ts[j].procs[x].state == Sleeping && ts[j].procs[x].chan == ts[i].procs[x].chan
    ensures j < |steps| && Rouses(ts[j], steps[j], x) ==>
      x < |ts[j + 1].procs| && ts[j + 1].procs[x].state == Runnable
    decreases j - i
  {
    hide Inv, Do, Rouses;
    if i < j {
      SleepsUntilRoused(ts, steps, x, i, j - 1);
      RunKeepsInv(ts, steps, j - 1);
      assert Do(ts[j - 1], steps[j - 1]) == Some(ts[j - 1 + 1]);
      SleepEndsExactly(ts[j - 1], steps[j - 1], x);
    }
    if j < |steps| {
      RunKeepsInv(ts, steps, j);
      assert Do(ts[j], steps[j]) == Some(ts[j + 1]);
      SleepEndsExactly(ts[j], steps[j], x);
    }
  }

  /** A killed process stays killed until its parent reaps it. */
  lemma {:induction false} KilledUntilReaped(ts: seq<Table>, steps: seq<Step>, x: nat, i: nat, j: nat)
    requires IsRun(ts, steps) && i <= j < |ts| && x < |ts[i].procs| && ts[i].procs[x].killed
    requires forall k :: i <= k < j ==> !Reaps(ts[k], steps[k], x)
    ensures x < |ts[j].procs| && ts[j].procs[x].killed
    decreases j - i
  {
    hide Inv, Do, Reaps;
    if i < j {
      KilledUntilReaped(ts, steps, x, i, j - 1);
      RunKeepsInv(ts, steps, j - 1);
      assert Do(ts[j - 1], steps[j - 1]) == Some(ts[j - 1 + 1]);
      KilledExactly(ts[j - 1], steps[j - 1], x);
    }
  }

  lemma ForkedHere(t: Table, p: nat, x: nat)
    requires Inv(t) && Child(t, p, x)
    ensures forall q :: 0 <= q < |t.forking| && t.forking[q] == Some(x) ==> q == p
  {
    hide ReapedOnce, NoLostWakeup, PidsDistinct, EntryOk;
    forall q | 0 <= q < |t.forking| && t.forking[q] == Some(x) ensures q == p { assert ForkOk(t, q); }
  }

  /** Once forked, a process is its parent's child until that wait() reaps it or the parent exits. */
  lemma {:induction false} ChildUntilReaped(ts: seq<Table>, steps: seq<Step>, p: nat, x: nat, i: nat, j: nat)
    requires IsRun(ts, steps) && i <= j < |ts| && Child(ts[i], p, x)
    requires forall k :: i <= k < j ==>
      !Reaps(ts[k], steps[k], x) && steps[k] != Exit(p)
    ensures Child(ts[j], p, x)
    decreases j - i
  {
    hide Inv, Do, Reaps;
    if i < j {
      ChildUntilReaped(ts, steps, p, x, i, j - 1);
      RunKeepsInv(ts, steps, j - 1);
      assert Do(ts[j - 1], steps[j - 1]) == Some(ts[j - 1 + 1]);
      ForkedHere(ts[j - 1], p, x);
      ParentExactly(ts[j - 1], steps[j - 1], x);
    }
  }
}
