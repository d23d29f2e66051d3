/** The round-robin user-thread scheduler of xv6/uthreadlib.c, for a thread table of any size. */
module UThread {
  import opened Commons

  datatype Status = Free | Running | Runnable

  /** all_thread[].state, lastIndex, and the index of current_thread. */
  datatype Table = Table(states: seq<Status>, last: nat, current: nat)

  /** thread_create, thread_yield, thread_exit, and a direct call of thread_schedule. */
  datatype Op = Create | Yield | Exit | Schedule

  predicate Candidate(t: Table, x: nat) {
    x < |t.states| && t.states[x] == Runnable && x != t.current
  }

  /** The first candidate at distance i, i + 1, ... behind lastIndex. */
  function Scan(t: Table, i: nat): (r: Option<nat>)
    decreases |t.states| - i
  {
    if i >= |t.states| then None
    else if Candidate(t, (t.last + i) % |t.states|) then Some((t.last + i) % |t.states|)
    else Scan(t, i + 1)
  }

  /** thread_schedule and thread_switch; None when it prints "no runnable threads" and exits. */
  function Dispatch(t: Table): Option<Table> {
    match Scan(t, 1)
    case None => None
    case Some(x) => if x < |t.states| then Some(Table(t.states[x := Running], x, x)) else None
  }

  function FirstFree(states: seq<Status>, i: nat): (r: nat)
    requires i <= |states|
    ensures i <= r <= |states| && (r < |states| ==> states[r] == Free) && forall k :: i <= k < r ==> states[k] != Free
    decreases |states| - i
  {
    if i == |states| || states[i] == Free then i else FirstFree(states, i + 1)
  }

  /** One call by the current thread; None when the process exits.  thread_create needs a free slot. */
  ghost predicate Next(t: Table, op: Op, r: Option<Table>) {
    && t.current < |t.states|
    && match op
       case Create =>
         var x := FirstFree(t.states, 0);
         x < |t.states| && r == Some(t.(states := t.states[x := Runnable]))
       case Yield => r == Dispatch(t.(states := t.states[t.current := Runnable]))
       case Exit => r == Dispatch(t.(states := t.states[t.current := Free]))
       case Schedule => r == Dispatch(t)
  }

  /** lastIndex always indexes the current thread, and that thread is running. */
  predicate Inv(t: Table) {
    t.last == t.current < |t.states| && t.states[t.current] == Running
  }

  function Start(n: nat): Table
    requires n > 0
  {
    Table(seq(n, i => if i == 0 then Running else Free), 0, 0)
  }

  // ---------------------------------------------------------------- what the scan finds

  /** How far x is behind lastIndex in the cyclic order. */
  function Distance(t: Table, x: nat): nat
    requires t.last < |t.states| && x < |t.states|
  {
    if x >= t.last then x - t.last else x + |t.states| - t.last
  }

  lemma AtDistance(t: Table, x: nat)
    requires t.last < |t.states| && x < |t.states|
    ensures (t.last + Distance(t, x)) % |t.states| == x && Distance(t, x) < |t.states|
  {
    var n := |t.states|;
    if x < t.last {
      assert t.last + Distance(t, x) == n + x;
      Wraps(x, n);
    } else {
      Small(x, n);
    }
  }

  lemma Small(x: nat, n: nat)
    requires x < n
    ensures x % n == x
  {
  }

  lemma Wraps(x: nat, n: nat)
    requires x < n
    ensures (n + x) % n == x
  {
    var d := (n + x) / n;
    Multiples(d, n);
    assert n + x == d * n + (n + x) % n;
  }

  lemma Multiples(d: int, n: nat)
    ensures (d >= 2 ==> d * n >= 2 * n) && (d <= 0 ==> d * n <= 0)
  {
  }

  lemma DistanceOf(t: Table, i: nat)
    requires t.last < |t.states| && i < |t.states|
    ensures var x := (t.last + i) % |t.states|; x < |t.states| && Distance(t, x) == i
  {
    var n := |t.states|;
    if t.last + i >= n {
      Wraps(t.last + i - n, n);
    } else {
      Small(t.last + i, n);
    }
  }

  /** The scan returns the nearest candidate, and fails only if there is none at that distance or beyond. */
  lemma {:induction false} ScanFinds(t: Table, i: nat)
    requires t.last < |t.states| && i <= |t.states|
    ensures Scan(t, i).Some? ==>
      Scan(t, i).value < |t.states| && Candidate(t, Scan(t, i).value) && Distance(t, Scan(t, i).value) >= i
    ensures forall x :: Candidate(t, x) && Distance(t, x) >= i ==>
      Scan(t, i).Some? && Distance(t, Scan(t, i).value) <= Distance(t, x)
    decreases |t.states| - i
  {
    hide Distance;
    if i < |t.states| {
      DistanceOf(t, i);
      ScanFinds(t, i + 1);
    }
    forall x | Candidate(t, x) && Distance(t, x) >= i
      ensures Scan(t, i).Some? && Distance(t, Scan(t, i).value) <= Distance(t, x)
    {
      AtDistance(t, x);
    }
  }

  /** thread_schedule exits exactly when no other thread is runnable, so a thread that yields and is the
      only runnable one ends the process instead of going on. */
  lemma ExitsExactly(t: Table)
    requires t.last == t.current < |t.states|
    ensures Dispatch(t).None? <==> forall x :: !Candidate(t, x)
  {
    hide Scan, Distance;
    ScanFinds(t, 1);
    forall x | Candidate(t, x) ensures Distance(t, x) >= 1 { Apart(t, x); }
  }

  lemma Apart(t: Table, x: nat)
    requires t.last < |t.states| && x < |t.states|
    ensures Distance(t, x) == 0 <==> x == t.last
  {
  }

  /** The table after thread_init: yielding from the only thread ends the process. */
  lemma LoneYieldExits()
    ensures Inv(Start(8)) && Next(Start(8), Yield, None)
  {
    var t := Start(8).(states := Start(8).states[0 := Runnable]);
    ExitsExactly(t);
  }

  // ---------------------------------------------------------------- what every call keeps

  lemma DispatchPicks(t: Table, x: nat)
    requires t.last == t.current < |t.states| && Candidate(t, x)
    ensures Dispatch(t).Some?
    ensures var t' := Dispatch(t).value;
      && Inv(t') && Candidate(t, t'.current) && t'.states == t.states[t'.current := Running]
      && Distance(t, t'.current) <= Distance(t, x)
  {
    hide Scan, Distance;
    ScanFinds(t, 1);
    Apart(t, x);
  }

  lemma StepKeepsInv(t: Table, op: Op, r: Option<Table>)
    requires Inv(t) && Next(t, op, r)
    ensures r.Some? ==> Inv(r.value) && |r.value.states| == |t.states|
  {
    hide Scan, Distance;
    if op != Create && r.Some? {
      var u := BeforeDispatch(t, op);
      ExitsExactly(u);
      var x :| Candidate(u, x);
      DispatchPicks(u, x);
    }
  }

  /** The table when thread_schedule is entered. */
  function BeforeDispatch(t: Table, op: Op): Table
    requires t.current < |t.states|
  {
    match op
    case Yield => t.(states := t.states[t.current := Runnable])
    case Exit => t.(states := t.states[t.current := Free])
    case _ => t
  }

  /** A waiting thread stays runnable, and every scheduling call dispatches it or brings it closer. */
  lemma WaitStep(t: Table, op: Op, r: Option<Table>, x: nat)
    requires Inv(t) && Next(t, op, r) && Candidate(t, x)
    ensures r.Some? && Inv(r.value) && |r.value.states| == |t.states|
    ensures r.value.current == x || (Candidate(r.value, x)
      && Distance(r.value, x) <= Distance(t, x) - if op == Create then 0 else 1)
  {
    hide Scan;
    if op != Create {
      var u := BeforeDispatch(t, op);
      DispatchPicks(u, x);
      Apart(u, r.value.current);
    }
  }

  /** A thread that yields waits to run again; one that exits gives up its slot; either way the nearest runnable
      thread runs next and no other thread's state changes.  The process ends exactly when no other thread can run. */
  lemma HandsOver(t: Table, op: Op, r: Option<Table>)
    requires Inv(t) && Next(t, op, r) && op != Create
    ensures r.None? <==> forall x :: 0 <= x < |t.states| && x != t.current ==> t.states[x] != Runnable
    ensures r.Some? ==>
      var u := r.value;
      && |u.states| == |t.states| && u.current < |t.states| && u.current != t.current
      && t.states[u.current] == Runnable && u.states[u.current] == Running
      && u.states[t.current] == (match op case Yield => Runnable case Exit => Free case _ => Running)
      && (forall x :: 0 <= x < |t.states| && x != t.current && x != u.current ==> u.states[x] == t.states[x])
      && (forall x :: Candidate(t, x) ==> Distance(t, u.current) <= Distance(t, x))
  {
    hide Scan, Distance;
    var v := BeforeDispatch(t, op);
    ExitsExactly(v);
    forall x ensures Candidate(v, x) <==> Candidate(t, x) {}
    forall x | 0 <= x < |t.states| && x != t.current ensures t.states[x] == Runnable <==> Candidate(t, x) {}
    if r.Some? {
      forall x | Candidate(t, x) ensures Distance(t, r.value.current) <= Distance(t, x) { Nearest(t, v, x); }
      var x :| Candidate(v, x);
      DispatchPicks(v, x);
    }
  }

  lemma Nearest(t: Table, v: Table, x: nat)
    requires Inv(t) && v == t.(states := v.states) && |v.states| == |t.states| && Candidate(v, x) && x < |t.states|
    ensures Dispatch(v).Some? && Dispatch(v).value.current < |t.states|
    ensures Distance(t, Dispatch(v).value.current) <= Distance(t, x)
  {
    DispatchPicks(v, x);
  }

  // ---------------------------------------------------------------- runs

  ghost predicate IsRun(ts: seq<Table>, ops: seq<Op>) {
    |ts| == |ops| + 1 && forall k :: 0 <= k < |ops| ==> Next(ts[k], ops[k], Some(ts[k + 1]))
  }

  /** How many of the calls reach thread_schedule. */
  function Schedulings(ops: seq<Op>): nat {
    if ops == [] then 0 else Schedulings(ops[..|ops| - 1]) + if ops[|ops| - 1] == Create then 0 else 1
  }

  lemma {:induction false} RunKeepsInv(ts: seq<Table>, ops: seq<Op>, k: nat)
    requires IsRun(ts, ops) && Inv(ts[0]) && k < |ts|
    ensures Inv(ts[k]) && |ts[k].states| == |ts[0].states|
  {
    if k > 0 {
      RunKeepsInv(ts, ops, k - 1);
      StepKeepsInv(ts[k - 1], ops[k - 1], Some(ts[k]));
    }
  }

  lemma {:induction false} Closer(ts: seq<Table>, ops: seq<Op>, x: nat)
    requires IsRun(ts, ops) && Inv(ts[0]) && Candidate(ts[0], x)
    requires forall k :: 0 <= k < |ts| ==> ts[k].current != x
    ensures var t := ts[|ops|]; Inv(t) && Candidate(t, x) && Distance(t, x) + Schedulings(ops) <= Distance(ts[0], x)
    decreases |ops|
  {
    hide Distance;
    if ops != [] {
      var n := |ops|;
      Closer(ts[..n], ops[..n - 1], x);
      WaitStep(ts[n - 1], ops[n - 1], Some(ts[n]), x);
    }
  }

  /** Bounded waiting: a runnable thread at cyclic distance d becomes current within d calls of
      thread_schedule, whatever the other threads do. */
  lemma BoundedWaiting(ts: seq<Table>, ops: seq<Op>, x: nat)
    requires IsRun(ts, ops) && Inv(ts[0]) && Candidate(ts[0], x) && Schedulings(ops) >= Distance(ts[0], x)
    ensures exists k :: 0 < k < |ts| && ts[k].current == x
  {
    hide Distance;
    if forall k :: 0 <= k < |ts| ==> ts[k].current != x {
      Closer(ts, ops, x);
      Apart(ts[|ops|], x);
    }
  }

  // ---------------------------------------------------------------- the library

  class Threads {
    const states: array<Status>
    var lastIndex: nat
    var current: nat
    var next: Option<nat>

    ghost function State(): Table
      reads this, states
    {
      Table(states[..], lastIndex, current)
    }

    ghost predicate Valid()
      reads this, states
    {
      states.Length > 1 && Inv(State()) && next.None?
    }

    /** The zeroed table, and thread_init. */
    constructor (n: nat)
      requires n > 1
      ensures Valid() && State() == Start(n) && fresh(states)
    {
      states := new Status[n](_ => Free);
      lastIndex, current, next := 0, 0, None;
      new;
      states[0] := Running;
    }

    /** thread_schedule; true when the process exits. */
    method Schedule() returns (exits: bool)
      requires states.Length > 1 && lastIndex == current < states.Length
      modifies this, states
      ensures exits <==> Dispatch(old(State())).None?
      ensures !exits ==> Valid() && Dispatch(old(State())) == Some(State())
      ensures exits <==> forall x :: 0 <= x < states.Length && x != old(current) ==> old(states[x]) != Runnable
      ensures !exits ==> current != old(current) && states[..] == old(states[..])[current := Running]
    {
      ghost var t := State();
      var n := states.Length;
      next := None;
      var i := 1;
      ScanFinds(t, 1);
      ExitsExactly(t);
      forall x | 0 <= x < n && x != current ensures states[x] == Runnable <==> Candidate(t, x) {}
      while i < n
        invariant 1 <= i <= n && next.None? && State() == t && Scan(t, 1) == Scan(t, i)
      {
        var x := (lastIndex + i) % n;
        if states[x] == Runnable && x != current {
          next, lastIndex := Some(x), x;
          break;
        }
        i := i + 1;
      }
      if next.None? {
        return true;
      }
      states[next.value] := Running;
      Switch();
      return false;
    }

    /** thread_switch */
    method Switch()
      requires next.Some?
      modifies this`current, this`next
      ensures current == old(next).value && next.None?
    {
      current, next := next.value, None;
    }

    /** thread_create; false when the table is full, where the C code would go past its end. */
    method Create() returns (ok: bool)
      requires Valid()
      modifies states
      ensures Valid() && (ok <==> exists x :: 0 <= x < states.Length && old(states[x]) == Free)
      ensures if ok then Next(old(State()), Op.Create, Some(State())) else State() == old(State())
      ensures ok ==> exists x ::
        && 0 <= x < states.Length && old(states[x]) == Free && (forall y :: 0 <= y < x ==> old(states[y]) != Free)
        && states[..] == old(states[..])[x := Runnable]
    {
      var x := 0;
      while x < states.Length && states[x] != Free
        invariant 0 <= x <= states.Length && FirstFree(states[..], x) == FirstFree(states[..], 0)
        invariant forall y :: 0 <= y < x ==> states[y] != Free
      {
        x := x + 1;
      }
      if x == states.Length {
        return false;
      }
      states[x] := Runnable;
      StepKeepsInv(old(State()), Op.Create, Some(State()));
      return true;
    }

    method Yield() returns (exits: bool)
      requires Valid()
      modifies this, states
      ensures Next(old(State()), Op.Yield, if exits then None else Some(State())) && (!exits ==> Valid())
      ensures !exits ==> states[old(current)] == Runnable && current != old(current)
    {
      states[current] := Runnable;
      exits := Schedule();
    }

    method Exit() returns (exits: bool)
      requires Valid()
      modifies this, states
      ensures Next(old(State()), Op.Exit, if exits then None else Some(State())) && (!exits ==> Valid())
      ensures !exits ==> states[old(current)] == Free && current != old(current)
    {
      states[current] := Free;
      exits := Schedule();
    }
  }
}
