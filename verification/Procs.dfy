/** xv6/proc.c: the scanning loops over ptable.proc, each proved to be one step of ProcSpec. */
module Procs {
  import opened Commons
  import opened ProcSpec
  import opened ProcLaws

  /** Entry k, the first with this pid, is marked killed and sleeps no longer; all else is as it was. */
  ghost predicate Marked(before: seq<Proc>, after: seq<Proc>, pid: nat, k: nat) {
    && k < |before| == |after| && before[k].pid == pid && (forall j :: 0 <= j < k ==> before[j].pid != pid)
    && after == before[k := after[k]] && after[k].killed
    && after[k].state == (if before[k].state == Sleeping then Runnable else before[k].state)
    && after[k].pid == pid && after[k].parent == before[k].parent && after[k].chan == before[k].chan
  }

  class ProcTable {
    const init: nat
    var proc: array<Proc>
    var nextpid: nat
    ghost var forking: seq<Option<nat>>
    ghost var exited: seq<nat>
    ghost var reaped: seq<nat>

    ghost function State(): Table
      reads this, proc
    {
      Table(proc[..], init, nextpid, forking, exited, reaped)
    }

    /** userinit on an empty table. */
    constructor (nproc: nat)
      requires nproc > 0
      ensures Initial(State()) && init == 0 && proc.Length == nproc && fresh(proc)
    {
      init := 0;
      proc := new Proc[nproc](i => if i == 0 then Proc(Runnable, 1, None, NoChan, false)
        else Proc(Unused, 0, None, NoChan, false));
      nextpid := 2;
      forking := seq(nproc, i => None);
      exited, reaped := [], [];
    }

    /** allocproc's critical section, for fork() by p.  The entry, or proc.Length when the table is full. */
    method Allocproc(ghost p: nat) returns (e: nat)
      requires Inv(State()) && ProcSpec.Free(State(), p)
      modifies this`nextpid, this`forking, proc
      ensures Inv(State()) && proc == old(proc)
      ensures e <= proc.Length && forall k :: 0 <= k < e ==> old(proc[k]).state != Unused
      ensures e < proc.Length ==>
        old(proc[e]).state == Unused && proc[e].state == Embryo && proc[e].pid == old(nextpid) == nextpid - 1
      ensures forall k :: 0 <= k < proc.Length && k != e ==> proc[k] == old(proc[k])
      ensures e < proc.Length ==> Do(old(State()), Alloc(p)) == Some(State()) && forking[p] == Some(e)
      ensures e == proc.Length ==> Do(old(State()), Alloc(p)).None? && State() == old(State())
    {
      ghost var t := State();
      StepKeepsInv(t, Alloc(p));
      e := 0;
      while e < proc.Length && proc[e].state != Unused
        invariant e <= proc.Length && FirstUnused(t.procs, 0) == FirstUnused(t.procs, e)
      {
        e := e + 1;
      }
      if e < proc.Length {
        proc[e] := proc[e].(state := Embryo, pid := nextpid);
        nextpid := nextpid + 1;
        forking := forking[p := Some(e)];
        assert State() == Do(t, Alloc(p)).value;
      }
    }

    /** wakeup1 */
    method Wakeup1(chan: Chan)
      modifies proc
      ensures proc[..] == Wake(old(proc[..]), chan)
      ensures forall k :: 0 <= k < proc.Length ==>
        && (old(proc[k]).state == Sleeping && old(proc[k]).chan == chan ==> proc[k].state == Runnable)
        && proc[k].(state := old(proc[k]).state) == old(proc[k])
        && (!(old(proc[k]).state == Sleeping && old(proc[k]).chan == chan) ==> proc[k] == old(proc[k]))
    {
      for i := 0 to proc.Length
        invariant forall k :: 0 <= k < proc.Length ==>
          proc[k] == if k < i then Awake(old(proc[k]), chan) else old(proc[k])
      {
        if proc[i].state == Sleeping && proc[i].chan == chan {
          proc[i] := proc[i].(state := Runnable);
        }
      }
    }

    /** exit's critical section; false is the panic "init exiting". */
    method ExitProc(p: nat) returns (ok: bool)
      requires Inv(State()) && ProcSpec.Free(State(), p)
      modifies this`exited, proc
      ensures Inv(State()) && proc == old(proc)
      ensures ok <==> p != init
      ensures if ok then Do(old(State()), Exit(p)) == Some(State()) else State() == old(State())
      ensures ok ==> forall x :: 0 <= x < proc.Length ==>
        && proc[x].parent == (if old(proc[x]).parent == Some(p) then Some(init) else old(proc[x]).parent)
        && proc[x].state == if x == p then Zombie
             else if old(proc[x]).state == Sleeping && Rouses(old(State()), Exit(p), x) then Runnable
             else old(proc[x]).state
    {
      hide Inv, FirstZombie, Wake, Reparent, Rouses;
      ghost var t := State();
      if p == init {
        return false;
      }
      StepKeepsInv(t, Exit(p));
      HasParent(t, p);
      Wakeup1(Entry(proc[p].parent.value));
      ghost var woken := proc[..];
      PassChildren(p, t.procs, woken);
      proc[p] := proc[p].(state := Zombie);
      exited := exited + [proc[p].pid];
      assert proc[..] == ExitProcs(t.procs, p, init);
      forall x | 0 <= x < proc.Length
        ensures proc[x].parent == (if t.procs[x].parent == Some(p) then Some(init) else t.procs[x].parent)
        ensures proc[x].state == if x == p then Zombie
          else if t.procs[x].state == Sleeping && Rouses(t, Exit(p), x) then Runnable else t.procs[x].state
      {
        ExitLook(t, p, x);
        assert proc[x] == proc[..][x];
      }
      return true;
    }

    /** "Pass abandoned children to init", waking init for each zombie among them. */
    method PassChildren(p: nat, ghost orig: seq<Proc>, ghost woken: seq<Proc>)
      requires proc[..] == woken && |orig| == |woken|
      requires forall k :: 0 <= k < |orig| ==>
        woken[k].parent == orig[k].parent && (woken[k].state == Zombie <==> orig[k].state == Zombie)
      modifies proc
      ensures proc[..] == Reparent(if FirstZombie(orig, p, 0) < |orig| then Wake(woken, Entry(init))
        else woken, p, init)
    {
      ghost var z := FirstZombie(orig, p, 0);
      for i := 0 to proc.Length
        invariant forall k :: 0 <= k < proc.Length ==>
          proc[k] == var y := (if z < i then Awake(woken[k], Entry(init)) else woken[k]); if k < i
            then Adopt(y, p, init) else y
      {
        ghost var before := proc[..];
        if proc[i].parent == Some(p) {
          assert orig[i].parent == Some(p);
          proc[i] := proc[i].(parent := Some(init));
          if proc[i].state == Zombie {
            assert z <= i;
            Wakeup1(Entry(init));
          }
        }
        forall k | 0 <= k < proc.Length
          ensures proc[k] == var y := (if z < i + 1 then Awake(woken[k], Entry(init)) else woken[k]); if k < i + 1
            then Adopt(y, p, init) else y
        {
          assert proc[..][k] == proc[k] && before[k] == before[k];
        }
      }
    }

    /** One pass of wait's loop: a pid, -1, or None when the caller went to sleep. */
    method WaitOnce(p: nat) returns (r: Option<int>)
      requires Inv(State()) && ProcSpec.Free(State(), p)
      modifies this`reaped, proc
      ensures Inv(State()) && proc == old(proc) && Do(old(State()), Wait(p)) == Some(State())
      ensures r.Some? && r.value != -1 <==>
        exists k :: 0 <= k < proc.Length && old(proc[k]).parent == Some(p) && old(proc[k]).state == Zombie
      ensures r.Some? && r.value != -1 ==>
        && reaped == old(reaped) + [r.value]
        && exists k :: 0 <= k < proc.Length && old(proc[k]).parent == Some(p) && old(proc[k]).state == Zombie
             && r.value == old(proc[k]).pid
             && proc[k] == old(proc[k]).(state := Unused, pid := 0, parent := None, killed := false)
             && proc[..] == old(proc[..])[k := proc[k]]
      ensures !(r.Some? && r.value != -1) ==>
        (r == Some(-1) <==> old(proc[p]).killed || forall k :: 0 <= k < proc.Length ==> old(proc[k]).parent != Some(p))
      ensures r == Some(-1) ==> State() == old(State())
      ensures r.None? ==>
        && proc[..] == old(proc[..])[p := old(proc[p]).(state := Sleeping, chan := Entry(p))]
        && reaped == old(reaped)
    {
      hide Inv;
      ghost var t := State();
      StepKeepsInv(t, Wait(p));
      ZombiePids(t);
      var havekids, i := false, 0;
      while i < proc.Length
        invariant i <= proc.Length && proc[..] == t.procs && reaped == t.reaped
        invariant FirstZombie(t.procs, p, 0) == FirstZombie(t.procs, p, i)
        invariant havekids <==> exists k :: 0 <= k < i && t.procs[k].parent == Some(p)
        invariant forall k :: 0 <= k < i ==> !(t.procs[k].parent == Some(p) && t.procs[k].state == Zombie)
      {
        if proc[i].parent == Some(p) {
          havekids := true;
          if proc[i].state == Zombie {
            r := Some(proc[i].pid);
            reaped := reaped + [proc[i].pid];
            proc[i] := proc[i].(state := Unused, pid := 0, parent := None, killed := false);
            assert State() == Do(t, Wait(p)).value;
            assert i != p;
            return;
          }
        }
        i := i + 1;
      }
      assert havekids <==> HasKids(t.procs, p);
      if !havekids || proc[p].killed {
        return Some(-1);
      }
      proc[p] := proc[p].(state := Sleeping, chan := Entry(p));
      assert State() == Do(t, Wait(p)).value;
      return None;
    }

    /** kill: 0, or -1 when there is no such pid. */
    method KillPid(pid: nat) returns (r: int)
      requires Inv(State())
      modifies proc
      ensures Inv(State()) && Do(old(State()), Kill(pid)) == Some(State())
      ensures r == if exists k :: 0 <= k < proc.Length && old(proc[k]).pid == pid then 0 else -1
      ensures r == -1 ==> State() == old(State())
      ensures r == 0 ==> exists k: nat :: Marked(old(proc[..]), proc[..], pid, k)
    {
      ghost var t := State();
      StepKeepsInv(t, Kill(pid));
      var k := 0;
      while k < proc.Length && proc[k].pid != pid
        invariant k <= proc.Length && FirstPid(t.procs, pid, 0) == FirstPid(t.procs, pid, k)
        invariant forall j :: 0 <= j < k ==> proc[j].pid != pid
      {
        k := k + 1;
      }
      if k == proc.Length {
        return -1;
      }
      var x := proc[k].(killed := true);
      if x.state == Sleeping {
        x := x.(state := Runnable);
      }
      proc[k] := x;
      assert State() == Do(t, Kill(pid)).value;
      assert Marked(t.procs, proc[..], pid, k);
      return 0;
    }
  }

  lemma ZombiePids(t: Table)
    requires Inv(t)
    ensures forall x :: 0 <= x < |t.procs| && t.procs[x].state == Zombie ==> t.procs[x].pid > 0
  {
    forall x | 0 <= x < |t.procs| && t.procs[x].state == Zombie ensures t.procs[x].pid > 0 { assert EntryOk(t, x); }
  }

  lemma HasParent(t: Table, p: nat)
    requires Inv(t) && p < |t.procs| && Started(t.procs[p]) && p != t.init
    ensures t.procs[p].parent.Some?
  {
    assert EntryOk(t, p);
  }
}
