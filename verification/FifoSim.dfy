/** The FIFO mode of the paging simulator lab-07/sim.c: its tables as functions of the fault sequence. */
module FifoSim {
  import opened Commons

  const FRAMES: nat := 8
  const DISK: nat := 16
  const PROCESOS: nat := 20
  const PAGINAS: nat := 16

  /** A page of a process; Nothing() marks an empty frame. */
  datatype Page = Page(numero: int, pid: int)

  function Nothing(): Page { Page(-1, -1) }

  predicate IsPage(p: Page) { 1 <= p.pid <= PROCESOS && 1 <= p.numero <= PAGINAS }

  // ---------------------------------------------------------------- FIFO replacement as such

  /** How many faults have been pushed out again. */
  function Evicted(faults: seq<Page>): nat {
    if |faults| <= FRAMES then 0 else |faults| - FRAMES
  }

  function Resident(faults: seq<Page>): seq<Page> {
    faults[Evicted(faults)..]
  }

  function Fault(faults: seq<Page>, p: Page): seq<Page> {
    if p in Resident(faults) then faults else faults + [p]
  }

  /** The faults of an access trace. */
  function FaultsOf(trace: seq<Page>): seq<Page> {
    if trace == [] then [] else Fault(FaultsOf(trace[..|trace| - 1]), trace[|trace| - 1])
  }

  lemma FaultKeepsDistinct(faults: seq<Page>, p: Page)
    requires Distinct(Resident(faults))
    ensures Distinct(Resident(Fault(faults, p)))
  {
    var now := Fault(faults, p);
    if now != faults {
      assert forall k :: 0 <= k < |Resident(now)| - 1 ==> Resident(now)[k] in Resident(faults);
      forall j, k | 0 <= j < k < |Resident(now)| ensures Resident(now)[j] != Resident(now)[k] {
        var shift := Evicted(now) - Evicted(faults);
        assert k < |Resident(now)| - 1 ==>
          Resident(now)[j] == Resident(faults)[j + shift] && Resident(now)[k] == Resident(faults)[k + shift];
      }
    }
  }

  /** A queue of at most eight pages: a hit leaves it alone; a miss joins at the end and, when it is full, the page
      that has been there longest leaves. */
  lemma FirstInFirstOut(faults: seq<Page>, p: Page)
    ensures var before, now := Resident(faults), Resident(Fault(faults, p));
      && |before| <= 8
      && now == if p in before then before else (if |before| == 8 then before[1..] else before) + [p]
  {
    var before, now := Resident(faults), Resident(Fault(faults, p));
    if p !in before {
      assert now == (if |before| == 8 then before[1..] else before) + [p];
    }
  }

  /** No page is resident twice, whatever the trace. */
  lemma {:induction false} ResidentOnce(trace: seq<Page>)
    ensures Distinct(Resident(FaultsOf(trace)))
  {
    if trace != [] {
      ResidentOnce(trace[..|trace| - 1]);
      FaultKeepsDistinct(FaultsOf(trace[..|trace| - 1]), trace[|trace| - 1]);
    }
  }

  /** The page accessed last is resident, and every page of the trace has faulted. */
  lemma {:induction false} AccessedPages(trace: seq<Page>)
    ensures forall p :: p in trace <==> p in FaultsOf(trace)
    ensures trace != [] ==> trace[|trace| - 1] in Resident(FaultsOf(trace))
  {
    if trace != [] {
      var t, p := trace[..|trace| - 1], trace[|trace| - 1];
      AccessedPages(t);
      assert trace == t + [p];
      var before, now := FaultsOf(t), FaultsOf(trace);
      if p in Resident(before) {
        assert p in before;
      } else {
        assert now[|now| - 1] == p && Resident(now)[|Resident(now)| - 1] == p;
      }
    }
  }

  /** Fault sequences only grow along a trace. */
  lemma {:induction false} FaultsGrow(trace: seq<Page>, k: nat)
    requires k <= |trace|
    ensures FaultsOf(trace[..k]) <= FaultsOf(trace)
    decreases |trace| - k
  {
    if k < |trace| {
      FaultsGrow(trace, k + 1);
      assert trace[..k + 1][..k] == trace[..k];
    } else {
      assert trace[..k] == trace;
    }
  }

  // ---------------------------------------------------------------- the simulator's tables

  /** One row of tablaProcesos. */
  datatype Proc = Proc(pid: int, memoria: seq<char>, paginas: seq<int>)

  /** The row of process i + 1 after these faults: known once it has faulted; a page is entered once it has
      faulted, with F exactly when resident and D exactly when it has been evicted. */
  ghost predicate RowOk(row: Proc, i: nat, faults: seq<Page>) {
    RowFits(row, i, faults) && (row.pid == i + 1 <==> HasFaulted(i + 1, faults))
  }

  ghost predicate HasFaulted(pid: int, faults: seq<Page>) {
    exists p :: p in faults && p.pid == pid
  }

  /** As RowOk, for a row that may just have been created. */
  ghost predicate RowFits(row: Proc, i: nat, faults: seq<Page>) {
    && |row.memoria| == |row.paginas| == PAGINAS
    && (row.pid == i + 1 || row.pid == -1) && (HasFaulted(i + 1, faults) ==> row.pid == i + 1)
    && forall j :: 0 <= j < PAGINAS ==> SlotOk(row, i, j, faults)
  }

  ghost predicate SlotOk(row: Proc, i: nat, j: nat, faults: seq<Page>)
    requires j < |row.memoria| == |row.paginas|
  {
    var p := Page(j + 1, i + 1);
    && row.paginas[j] == (if p in faults then j + 1 else -1)
    && (p in Resident(faults) ==> row.memoria[j] == 'F')
    && (p in faults && p !in Resident(faults) ==> row.memoria[j] == 'D')
  }

  /** disk, then the frames in ring order, spell out the fault sequence. */
  ghost predicate Stored(frames: seq<Page>, disk: seq<Page>, faults: seq<Page>) {
    && |frames| == FRAMES && |disk| == DISK && Evicted(faults) <= DISK
    && (forall k :: 0 <= k < Evicted(faults) ==> disk[k] == faults[k])
    && (forall k :: Evicted(faults) <= k < |faults| ==> frames[k % FRAMES] == faults[k])
    && forall k :: |faults| <= k < FRAMES ==> frames[k] == Nothing()
  }

  lemma FrameIsResident(frames: seq<Page>, disk: seq<Page>, faults: seq<Page>, p: Page)
    requires Stored(frames, disk, faults) && IsPage(p)
    ensures p in Resident(faults) <==> exists i :: 0 <= i < FRAMES && frames[i] == p
  {
    if k :| 0 <= k < |Resident(faults)| && Resident(faults)[k] == p {
      assert frames[(Evicted(faults) + k) % FRAMES] == p;
    }
    if i :| 0 <= i < FRAMES && frames[i] == p {
      var k := RingIndex(|faults|, i);
      if k < |faults| {
        assert faults[k] == p && Resident(faults)[k - Evicted(faults)] == p;
      }
    }
  }

  /** The fault number that frame i holds after n faults, or i itself while it is empty. */
  function RingIndex(n: nat, i: nat): (k: nat)
    requires i < FRAMES
    ensures k % FRAMES == i && (if n <= FRAMES then k == i else n - FRAMES <= k < n)
  {
    if n <= FRAMES then i
    else if i >= n % FRAMES then n - n % FRAMES - FRAMES + i
    else n - n % FRAMES + i
  }

  lemma StoredMore(frames: seq<Page>, disk: seq<Page>, faults: seq<Page>, p: Page)
    requires Stored(frames, disk, faults) && |faults| < FRAMES + DISK
    ensures |faults| >= FRAMES ==> frames[|faults| % FRAMES] == faults[Evicted(faults)]
    ensures var disk' := if |faults| >= FRAMES then disk[Evicted(faults) := frames[|faults| % FRAMES]] else disk;
      Stored(frames[|faults| % FRAMES := p], disk', faults + [p])
  {
    var n := |faults|;
    if n >= FRAMES {
      assert (n - FRAMES) % FRAMES == n % FRAMES;
      assert frames[(n - FRAMES) % FRAMES] == faults[n - FRAMES];
    }
    var now := faults + [p];
    forall k | Evicted(now) <= k < |now| ensures frames[n % FRAMES := p][k % FRAMES] == now[k] {
      if k < n { NotSameSlot(k, n); }
    }
  }

  lemma NotSameSlot(k: nat, n: nat)
    requires k < n < k + FRAMES
    ensures k % FRAMES != n % FRAMES
  {
  }

  /** A fault adds one page and pushes out the oldest resident one. */
  lemma MemberMore(faults: seq<Page>, p: Page, q: Page)
    requires p !in Resident(faults) && Distinct(Resident(faults))
    ensures q in faults + [p] <==> q in faults || q == p
    ensures q in Resident(faults + [p]) <==>
      q == p || (q in Resident(faults) && !(|faults| >= FRAMES && q == faults[Evicted(faults)]))
  {
    var now := faults + [p];
    var res, was := Resident(now), Resident(faults);
    var shift := Evicted(now) - Evicted(faults);
    assert res[|res| - 1] == p;
    assert forall k :: 0 <= k < |res| - 1 ==> res[k] == was[k + shift];
    if q in res && q != p {
      var k :| 0 <= k < |res| && res[k] == q;
      assert was[k + shift] == q;
      assert shift == 1 ==> was[0] == faults[Evicted(faults)];
    }
    if q in was && !(|faults| >= FRAMES && q == faults[Evicted(faults)]) {
      var k :| 0 <= k < |was| && was[k] == q;
      assert shift == 1 ==> was[0] == faults[Evicted(faults)];
      assert res[k - shift] == q;
    }
  }

  /** The row of the evicted page's process, and of the faulting process, after a fault. */
  lemma RowMore(row: Proc, i: nat, faults: seq<Page>, p: Page, now: Proc)
    requires RowFits(row, i, faults) && (row.pid == i + 1 ==> p.pid == i + 1 || HasFaulted(i + 1, faults))
    requires p !in Resident(faults) && Distinct(Resident(faults)) && IsPage(p) && i < PROCESOS
    requires forall q :: q in faults ==> IsPage(q)
    requires now == Entered(Marked(row, i, faults), i, p)
    ensures RowOk(now, i, faults + [p])
  {
    forall j | 0 <= j < PAGINAS ensures SlotOk(now, i, j, faults + [p]) {
      assert SlotOk(row, i, j, faults);
      MemberMore(faults, p, Page(j + 1, i + 1));
      if |faults| >= FRAMES {
        assert faults[Evicted(faults)] in faults;
      }
    }
    if q :| q in faults && q.pid == i + 1 {
      assert q in faults + [p];
    }
    if p.pid == i + 1 {
      assert (faults + [p])[|faults|] == p;
    }
    if q :| q in faults + [p] && q.pid == i + 1 {
      assert q in faults || q == p;
    }
  }

  /** The row with the page that is about to be replaced marked D. */
  function Marked(row: Proc, i: nat, faults: seq<Page>): (r: Proc)
    requires |row.memoria| == PAGINAS && forall q :: q in faults ==> IsPage(q)
    ensures |r.memoria| == PAGINAS && r.paginas == row.paginas && r.pid == row.pid
  {
    if |faults| < FRAMES then row else MarkedPage(row, i, faults[Evicted(faults)])
  }

  function MarkedPage(row: Proc, i: nat, victim: Page): Proc
    requires |row.memoria| == PAGINAS && IsPage(victim)
  {
    if victim.pid == i + 1 then row.(memoria := row.memoria[victim.numero - 1 := 'D']) else row
  }

  /** The row with page p entered as resident. */
  function Entered(row: Proc, i: nat, p: Page): Proc
    requires |row.memoria| == |row.paginas| == PAGINAS && IsPage(p)
  {
    if p.pid == i + 1 then Proc(i + 1, row.memoria[p.numero - 1 := 'F'], row.paginas[p.numero - 1 := p.numero]) else row
  }

  // ---------------------------------------------------------------- the program

  class Sim {
    const frames: array<Page>    // mem_fisica
    const disk: array<Page>      // mem_secundaria
    const procs: array<Proc>     // tablaProcesos
    var posMem: nat
    var posDisk: nat
    ghost var faults: seq<Page>

    ghost predicate Layout()
      reads this
    {
      frames != disk && frames.Length == FRAMES && disk.Length == DISK && procs.Length == PROCESOS
    }

    ghost predicate Valid()
      reads this, frames, disk, procs
    {
      && Layout() && posMem == |faults| && posDisk == Evicted(faults)
      && (forall p :: p in faults ==> IsPage(p)) && Distinct(Resident(faults))
      && Stored(frames[..], disk[..], faults)
      && forall i :: 0 <= i < PROCESOS ==> RowOk(procs[i], i, faults)
    }

    /** vaciarMemoria, vaciarDisco, vaciarTablaProcesos */
    constructor ()
      ensures Valid() && faults == [] && fresh(frames) && fresh(disk) && fresh(procs)
    {
      frames := new Page[FRAMES](_ => Nothing());
      disk := new Page[DISK](_ => Nothing());
      procs := new Proc[PROCESOS](_ => Proc(-1, seq(PAGINAS, _ => '-'), seq(PAGINAS, _ => -1)));
      posMem, posDisk, faults := 0, 0, [];
      new;
      forall i | 0 <= i < PROCESOS ensures RowOk(procs[i], i, []) {
        assert procs[i] == Proc(-1, seq(PAGINAS, _ => '-'), seq(PAGINAS, _ => -1));
      }
    }

    /** The search in mem_fisica of main's loop. */
    method InMemory(p: Page) returns (found: bool)
      requires Layout() && Stored(frames[..], disk[..], faults) && IsPage(p)
      ensures found <==> p in Resident(faults)
    {
      FrameIsResident(frames[..], disk[..], faults, p);
      var i := 0;
      while i < FRAMES
        invariant 0 <= i <= FRAMES && forall k :: 0 <= k < i ==> frames[k] != p
      {
        if frames[i] == p {
          return true;
        }
        i := i + 1;
      }
      return false;
    }

    /** The search in tablaProcesos of fifo: the evicted page's slot becomes D. */
    method MarkOnDisk(victim: Page)
      requires Layout() && IsPage(victim) && victim in faults && forall i :: 0 <= i < PROCESOS ==>
        RowFits(procs[i], i, faults)
      modifies procs
      ensures forall i :: 0 <= i < PROCESOS ==>
        |old(procs[i]).memoria| == PAGINAS && procs[i] == MarkedPage(old(procs[i]), i, victim)
    {
      var i := 0;
      while i < PROCESOS && procs[i].pid != victim.pid
        invariant 0 <= i <= victim.pid - 1
        invariant forall k :: 0 <= k < PROCESOS ==> procs[k] == old(procs[k])
        decreases PROCESOS - i
      {
        assert RowFits(procs[i], i, faults);
        i := i + 1;
      }
      assert RowFits(procs[i], i, faults);
      var j := 0;
      while j < PAGINAS && procs[i].paginas[j] != victim.numero
        invariant 0 <= j <= victim.numero - 1
        decreases PAGINAS - j
      {
        assert SlotOk(procs[i], i, j, faults);
        j := j + 1;
      }
      assert SlotOk(procs[i], i, j, faults);
      forall k | 0 <= k < PROCESOS ensures |procs[k].memoria| == PAGINAS { assert RowFits(procs[k], k, faults); }
      procs[i] := procs[i].(memoria := procs[i].memoria[j := 'D']);
    }

    /** fifo; false is its exit on a full disk.  Rows may include one just created for p's process. */
    method Fifo(p: Page) returns (ok: bool)
      requires Layout() && posMem == |faults| && posDisk == Evicted(faults) && Stored(frames[..], disk[..], faults)
      requires (forall q :: q in faults ==> IsPage(q)) && Distinct(Resident(faults)) && IsPage(p)
        && p !in Resident(faults)
      requires procs[p.pid - 1].pid == p.pid
      requires forall i :: 0 <= i < PROCESOS ==>
        RowFits(procs[i], i, faults) && (procs[i].pid == i + 1 ==> p.pid == i + 1 || HasFaulted(i + 1, faults))
      modifies this, frames, disk, procs
      ensures ok <==> |old(faults)| < FRAMES + DISK
      ensures ok ==> faults == old(faults) + [p] && posMem == old(posMem) && posDisk == Evicted(faults)
      ensures ok ==> Stored(frames[..], disk[..], faults) && forall i :: 0 <= i < PROCESOS ==>
        RowOk(procs[i], i, faults)
    {
      hide RowFits, RowOk, Stored, Distinct;
      ghost var frames0, disk0, rows0 := frames[..], disk[..], procs[..];
      if posMem >= FRAMES {
        if posDisk >= DISK {
          return false;
        }
        StoredMore(frames[..], disk[..], faults, p);
        disk[posDisk] := frames[posMem % FRAMES];
        assert disk[..] == disk0[posDisk := frames0[posMem % FRAMES]];
        MarkOnDisk(disk[posDisk]);
        posDisk := posDisk + 1;
      } else {
        StoredMore(frames[..], disk[..], faults, p);
      }
      forall i | 0 <= i < PROCESOS
        ensures RowFits(rows0[i], i, faults) && |rows0[i].memoria| == |rows0[i].paginas| == PAGINAS
          && procs[i] == Marked(rows0[i], i, faults)
      {
        RowSizes(rows0[i], i, faults);
      }
      ghost var frames1 := frames[..];
      frames[posMem % FRAMES] := p;
      assert frames[..] == frames1[posMem % FRAMES := p];
      var i := p.pid - 1;
      procs[i] := procs[i].(memoria := procs[i].memoria[p.numero - 1 := 'F'],
        paginas := procs[i].paginas[p.numero - 1 := p.numero]);
      forall k | 0 <= k < PROCESOS ensures RowOk(procs[k], k, faults + [p]) {
        RowMore(rows0[k], k, faults, p, procs[k]);
      }
      faults := faults + [p];
      return true;
    }

    /** One turn of main's loop in -f mode; false is the exit on a full disk. */
    method Access(p: Page) returns (ok: bool)
      requires Valid() && IsPage(p)
      modifies this, frames, disk, procs
      ensures ok <==> |Fault(old(faults), p)| <= FRAMES + DISK
      ensures ok ==> Valid() && faults == Fault(old(faults), p)
    {
      hide RowFits, Stored, Distinct, SlotOk;
      var i := p.pid - 1;
      ghost var rows0 := procs[..];
      StoredBound(frames[..], disk[..], faults);
      if procs[i].pid == -1 {
        NewRow(procs[i], i, faults, p);
        procs[i] := Created(procs[i], i);
      } else {
        var found := InMemory(p);
        if found {
          return true;
        }
        NewRow(procs[i], i, faults, p);
      }
      FaultKeepsDistinct(faults, p);
      ok := Fifo(p);
      if ok {
        posMem := posMem + 1;
      }
    }

    /** The whole run of main: it ends normally exactly when the faults fit into memory and disk, and then
        the tables are those of the trace's FIFO fault sequence. */
    method Run(trace: seq<Page>) returns (ok: bool)
      requires Valid() && faults == [] && forall k :: 0 <= k < |trace| ==> IsPage(trace[k])
      modifies this, frames, disk, procs
      ensures ok <==> |FaultsOf(trace)| <= FRAMES + DISK
      ensures ok ==> Valid() && faults == FaultsOf(trace)
    {
      hide RowOk, Stored, Distinct, Fault;
      var k := 0;
      assert trace[..0] == [];
      while k < |trace|
        invariant k <= |trace| && Valid() && faults == FaultsOf(trace[..k])
        invariant forall j :: 0 <= j < |trace| ==> IsPage(trace[j])
      {
        assert trace[..k + 1][..k] == trace[..k] && trace[..k + 1][k] == trace[k];
        FaultsGrow(trace, k + 1);
        ok := Access(trace[k]);
        if !ok {
          return false;
        }
        k := k + 1;
      }
      assert trace[..k] == trace;
      StoredBound(frames[..], disk[..], faults);
      return true;
    }
  }

  lemma StoredBound(frames: seq<Page>, disk: seq<Page>, faults: seq<Page>)
    requires Stored(frames, disk, faults)
    ensures |faults| <= FRAMES + DISK
  {
  }

  /** The row as main creates it. */
  function Created(row: Proc, i: nat): Proc
    requires |row.memoria| == PAGINAS
  {
    row.(pid := i + 1, memoria := row.memoria[0 := 'F'])
  }

  lemma NewRow(row: Proc, i: nat, faults: seq<Page>, p: Page)
    requires RowOk(row, i, faults) && p.pid == i + 1
    ensures row.pid == -1 || row.pid == i + 1
    ensures |row.memoria| == PAGINAS && RowFits(row, i, faults)
    ensures row.pid == -1 ==> RowFits(Created(row, i), i, faults) && p !in Resident(faults)
  {
    if row.pid == -1 {
      assert forall q :: q in faults ==> q.pid != i + 1;
      assert p !in faults;
      var now := Created(row, i);
      forall j | 0 <= j < PAGINAS ensures SlotOk(now, i, j, faults) {
        assert SlotOk(row, i, j, faults);
        assert Page(j + 1, i + 1) !in faults;
        assert forall q :: q in Resident(faults) ==> q in faults;
      }
      assert p in Resident(faults) ==> p in faults;
    }
  }

  lemma RowSizes(row: Proc, i: nat, faults: seq<Page>)
    requires RowFits(row, i, faults)
    ensures |row.memoria| == |row.paginas| == PAGINAS
  {
  }
}
