/** xv6/pipe.c in place: a 512-byte ring with 32-bit counters that wrap, against PipeSpec. */
module Pipe {
  import opened Commons
  import opened Blocks
  import opened PipeSpec

  /** The counters tell full and empty apart although they wrap. */
  lemma Counters(w: nat, r: nat)
    requires 0 <= w - r <= PIPESIZE
    ensures w % U32 == (r % U32 + PIPESIZE) % U32 <==> w - r == PIPESIZE
    ensures w % U32 == r % U32 <==> w == r
  {
    assert (r % 0x1_0000_0000 + 512) % 0x1_0000_0000 == (r + 512) % 0x1_0000_0000;
    SameMod(w, r);
    SameMod(r + 512, w);
  }

  lemma SameMod(a: nat, b: nat)
    requires 0 <= a - b <= 512
    ensures a % U32 == b % U32 <==> a == b
  {
    if a % U32 == b % U32 {
      assert a - b == (a / 0x1_0000_0000 - b / 0x1_0000_0000) * 0x1_0000_0000;
    }
  }

  class Pipe {
    const data: array<byte>
    var nread: u32
    var nwrite: u32
    var readopen: bool
    var writeopen: bool
    /** Which processes are inside, and which of them sleep: the kernel's process table. */
    var calls: map<nat, Call>
    var killed: set<nat>
    var lock: Option<nat>
    ghost var written: Stream
    ghost var read: Stream

    ghost function State(): PipeState
      reads this
    {
      PipeState(written, read, readopen, writeopen, calls, killed, lock)
    }

    ghost predicate Ring()
      reads `nread, `nwrite, `written, `read, data
    {
      && data.Length == PIPESIZE && nread == |read| % U32 && nwrite == |written| % U32
      && read <= written && |written| - |read| <= PIPESIZE
      && forall k :: |read| <= k < |written| ==> data[k % PIPESIZE] == written[k]
    }

    ghost predicate Valid()
      reads this, data
    {
      Ring() && Inv(State())
    }

    /** pipealloc */
    constructor ()
      ensures Valid() && State() == FRESH && fresh(data)
    {
      data := new byte[PIPESIZE](_ => 0);
      nread, nwrite, readopen, writeopen := 0, 0, true, true;
      calls, killed, lock, written, read := map[], {}, None, [], [];
    }

    /** data[nwrite++ % PIPESIZE] = b */
    method Put(b: byte)
      requires Ring() && |written| - |read| < PIPESIZE
      modifies this`nwrite, this`written, data
      ensures Ring() && written == old(written) + [b]
    {
      SlotOf(|written|, PIPESIZE);
      data[nwrite % PIPESIZE] := b;
      NextWord(|written|);
      nwrite := (nwrite + 1) % U32;
      written := written + [b];
      forall k | |read| <= k < |written| ensures data[k % PIPESIZE] == written[k] {
        if k < |written| - 1 { Slots(k, |written| - 1, PIPESIZE); }
      }
    }

    /** data[nread++ % PIPESIZE] */
    method Get() returns (b: byte)
      requires Ring() && |read| < |written|
      modifies this`nread, this`read
      ensures Ring() && b == written[|old(read)|] && read == old(read) + [b]
    {
      SlotOf(|read|, PIPESIZE);
      b := data[nread % PIPESIZE];
      NextWord(|read|);
      nread := (nread + 1) % U32;
      read := read + [b];
      assert read == written[..|read|];
    }

    lemma RingFacts()
      requires Ring()
      ensures read <= written && |written| - |read| <= PIPESIZE
      ensures nwrite == (nread + PIPESIZE) % U32 <==> |written| - |read| == PIPESIZE
      ensures nread == nwrite <==> |written| == |read|
    {
      Counters(|written|, |read|);
    }

    /** The copying loop of pipewrite, up to the end of addr or a full pipe. */
    method Store(addr: Stream, i0: nat) returns (i: nat)
      requires Ring() && i0 <= |addr| && Occupied(State()) <= PIPESIZE
      modifies this`nwrite, this`written, data
      ensures Ring() && i0 <= i <= |addr| && i == i0 + Room(old(State()), addr, i0)
      ensures written == old(written) + addr[i0..i]
    {
      hide Ring;
      i := i0;
      RingFacts();
      while i < |addr| && nwrite != (nread + PIPESIZE) % U32
        invariant i0 <= i <= |addr| && Ring() && written == old(written) + addr[i0..i]
        invariant i == |addr| || |written| - |read| <= PIPESIZE
      {
        RingFacts();
        Put(addr[i]);
        assert addr[i0..i] + [addr[i]] == addr[i0..i + 1];
        i := i + 1;
      }
      RingFacts();
    }

    /** pipewrite of process p, from taking the lock until it returns or is about to sleep; Some(-1)
        is its error. */
    method Pipewrite(p: nat) returns (r: Option<int>)
      requires Valid() && lock.None? && Inside(State(), p, true) && !calls[p].asleep
      modifies this, data
      ensures Valid() && Next(old(State()), RunWrite(p), State())
      ensures r.None? <==> lock == Some(p)
      ensures r.Some? <==> p !in calls
      ensures var addr, i, room := old(calls)[p].addr, old(calls)[p].i, 512 - (|old(written)| - |old(read)|);
        && (r == Some(|addr|) <==> |addr| - i <= room)
        && (r == Some(-1) <==> |addr| - i > room && (!readopen || p in killed))
        && read == old(read) && 0 <= |written| - |old(written)| == (if |addr| - i <= room then |addr| - i else room)
        && written == old(written) + addr[i..i + |written| - |old(written)|]
    {
      hide Inv, CallOk, IsRun, Ring, Room, WakeReaders;
      var addr := calls[p].addr;
      ghost var s0 := State();
      CallIs(s0, p);
      RingFacts();
      var i := Store(addr, calls[p].i);
      if i == |addr| {
        calls := WakeReaders(calls - {p});
        r := Some(|addr|);
      } else if !readopen || p in killed {
        calls := calls - {p};
        r := Some(-1);
      } else {
        calls, lock := WakeReaders(calls)[p := Writing(addr, i, false)], Some(p);
        r := None;
      }
      StepKeepsInv(s0, RunWrite(p), State());
      WriteExactly(s0, p, State());
    }

    /** kill, as far as the pipe sees it. */
    method KillProc(p: nat)
      requires Valid()
      modifies this`killed, this`calls
      ensures Valid() && Next(old(State()), Kill(p), State())
    {
      hide Inv;
      ghost var s0 := State();
      killed := killed + {p};
      if p in calls {
        calls := calls[p := calls[p].(asleep := false)];
      }
      StepKeepsInv(s0, Kill(p), State());
    }

    /** The sleep of pipewrite or piperead. */
    method SleepCall(p: nat)
      requires Valid() && lock == Some(p)
      modifies this`calls, this`lock
      ensures Valid() && Next(old(State()), Sleep(p), State())
    {
      hide Inv;
      ghost var s0 := State();
      HolderIs(s0, p);
      calls, lock := calls[p := calls[p].(asleep := true)], None;
      StepKeepsInv(s0, Sleep(p), State());
    }

    /** piperead of process p, from taking the lock until it returns or is about to sleep. */
    method Piperead(p: nat) returns (r: ReadResult)
      requires Valid() && lock.None? && Inside(State(), p, false) && !calls[p].asleep
      modifies this
      ensures Valid() && Next(old(State()), RunRead(p), State())
      ensures r == Waits <==> lock == Some(p)
      ensures r == Waits <==> p in calls
      ensures written == old(written) && (!r.Got? ==> read == old(read))
      ensures !r.Got? <==> |old(read)| == |written| && writeopen
      ensures r == Failed <==> |old(read)| == |written| && writeopen && p in killed
      ensures r.Got? ==> read == old(read) + r.bytes == written[..|read|]
      ensures r.Got? ==> |r.bytes| == Min(old(calls)[p].n, |written| - |old(read)|)
    {
      hide Inv, CallOk, IsRun, Ring;
      var n := calls[p].n;
      ghost var s0 := State();
      RingFacts();
      if nread == nwrite && writeopen {
        if p in killed {
          calls := calls - {p};
          StepKeepsInv(s0, RunRead(p), State());
          return Failed;
        }
        lock := Some(p);
        StepKeepsInv(s0, RunRead(p), State());
        return Waits;
      }
      var got: Stream, i := [], 0;
      while i < n && nread != nwrite
        invariant i <= n && |got| == i && Ring() && written == s0.written && read == s0.read + got
        invariant i <= Occupied(s0) && got == s0.written[|s0.read|..|s0.read| + i]
        invariant readopen == s0.readopen && writeopen == s0.writeopen
        invariant calls == s0.calls && killed == s0.killed && lock == s0.lock
      {
        RingFacts();
        var b := Get();
        got := got + [b];
        i := i + 1;
      }
      RingFacts();
      calls := WakeWriters(calls - {p});
      StepKeepsInv(s0, RunRead(p), State());
      return Got(got);
    }

    /** pipeclose, when no call on that end is in progress; true when the page is freed. */
    method Pipeclose(writable: bool) returns (freed: bool)
      requires Valid() && lock.None? && (if writable then writeopen else readopen)
      requires forall p :: !Inside(State(), p, writable)
      modifies this
      ensures Valid() && Next(old(State()), if writable then CloseWrite else CloseRead, State())
      ensures freed <==> !readopen && !writeopen
      ensures writeopen == (old(writeopen) && !writable) && readopen == (old(readopen) && writable)
      ensures written == old(written) && read == old(read) && calls.Keys == old(calls).Keys
    {
      hide Inv, CallOk, IsRun;
      ghost var s0 := State();
      if writable {
        writeopen := false;
        calls := WakeReaders(calls);
      } else {
        readopen := false;
        calls := WakeWriters(calls);
      }
      StepKeepsInv(s0, if writable then CloseWrite else CloseRead, State());
      freed := !readopen && !writeopen;
    }
  }

  lemma HolderIs(s: PipeState, p: nat)
    requires Inv(s) && s.lock == Some(p)
    ensures p in s.calls
  {
  }

  lemma CallIs(s: PipeState, p: nat)
    requires Inv(s) && Inside(s, p, true)
    ensures s.calls[p].i <= |s.calls[p].addr|
  {
    assert CallOk(s, p);
  }
}
