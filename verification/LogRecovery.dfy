/** The redo log's disk images (xv6/log.c): what is on disk after every single
    block write of commit() and of recover_from_log(), and crash atomicity. */
module LogRecovery {
  import opened Commons
  import opened Blocks

  const LOGSIZE: nat := 30

  /** Where the log lies: header block at start, size - 1 blocks after it. */
  datatype Layout = Layout(start: nat, size: nat) {
    ghost predicate Fits(d: Disk) {
      0 < size && start + size <= |d| < U32
    }

    predicate InLog(b: int) {
      start <= b < start + size
    }

    /** A list of home blocks that the log region can hold. */
    ghost predicate Loggable(d: Disk, blocks: seq<nat>) {
      && Fits(d)
      && |blocks| <= LOGSIZE && |blocks| < size
      && forall i :: 0 <= i < |blocks| ==> blocks[i] < |d| && !InLog(blocks[i])
    }

    /** The two disks agree on every block outside the log. */
    ghost predicate SameHome(d: Disk, e: Disk) {
      |d| == |e| && forall b :: 0 <= b < |d| && !InLog(b) ==> d[b] == e[b]
    }
  }

  // ---------------------------------------------------------------- header

  /** Words 1.. of the header block after the copy loop of write_head. */
  function PutBlocks(hb: Block, blocks: seq<nat>, k: nat): Block
    requires k <= |blocks| <= LOGSIZE
    requires forall i :: 0 <= i < |blocks| ==> blocks[i] < U32
  {
    if k == 0 then hb else PutWord(PutBlocks(hb, blocks, k - 1), k, blocks[k - 1])
  }

  function EncodeHead(hb: Block, blocks: seq<nat>): Block
    requires |blocks| <= LOGSIZE
    requires forall i :: 0 <= i < |blocks| ==> blocks[i] < U32
  {
    PutBlocks(PutWord(hb, 0, |blocks|), blocks, |blocks|)
  }

  ghost predicate HeadOk(hb: Block) {
    GetWord(hb, 0) <= LOGSIZE
  }

  function DecodeHead(hb: Block): (blocks: seq<nat>)
    requires HeadOk(hb)
  {
    seq(GetWord(hb, 0), i requires 0 <= i < GetWord(hb, 0) => GetWord(hb, i + 1))
  }

  lemma {:induction false} PutBlocksWord(hb: Block, blocks: seq<nat>, k: nat, j: nat)
    requires k <= |blocks| <= LOGSIZE && j < WORDS
    requires forall i :: 0 <= i < |blocks| ==> blocks[i] < U32
    ensures GetWord(PutBlocks(hb, blocks, k), j) == if 1 <= j <= k then blocks[j - 1] else GetWord(hb, j)
  {
    if k != 0 {
      PutBlocksWord(hb, blocks, k - 1, j);
      GetPutWord(PutBlocks(hb, blocks, k - 1), k, blocks[k - 1], j);
    }
  }

  /** read_head undoes write_head, whatever the header block held before. */
  lemma HeadRoundTrip(hb: Block, blocks: seq<nat>)
    requires |blocks| <= LOGSIZE
    requires forall i :: 0 <= i < |blocks| ==> blocks[i] < U32
    ensures HeadOk(EncodeHead(hb, blocks))
    ensures DecodeHead(EncodeHead(hb, blocks)) == blocks
  {
    var h0 := PutWord(hb, 0, |blocks|);
    forall j: nat | j <= |blocks|
      ensures GetWord(EncodeHead(hb, blocks), j) == if j == 0 then |blocks| else blocks[j - 1]
    {
      PutBlocksWord(h0, blocks, |blocks|, j);
      GetPutWord(hb, 0, |blocks|, j);
    }
  }

  // ---------------------------------------------------------------- images

  /** The list of blocks that the on-disk header commits to. */
  function Head(l: Layout, d: Disk): seq<nat>
    requires l.Fits(d) && HeadOk(d[l.start])
  {
    DecodeHead(d[l.start])
  }

  /** The on-disk header commits to nothing. */
  ghost predicate LogEmpty(l: Layout, d: Disk) {
    l.start < |d| && d[l.start].bytes[..4] == [0, 0, 0, 0]
  }

  /** A disk that recovery accepts. */
  ghost predicate Recoverable(l: Layout, d: Disk) {
    l.Fits(d) && HeadOk(d[l.start]) && l.Loggable(d, Head(l, d))
  }

  function PutHead(l: Layout, d: Disk, blocks: seq<nat>): (r: Disk)
    requires l.Loggable(d, blocks)
    ensures |r| == |d|
  {
    d[l.start := EncodeHead(d[l.start], blocks)]
  }

  /** The disk after k rounds of install_trans. */
  function Install(l: Layout, d: Disk, blocks: seq<nat>, k: nat): (r: Disk)
    requires l.Loggable(d, blocks) && k <= |blocks|
    ensures |r| == |d|
  {
    if k == 0 then d else
    var e := Install(l, d, blocks, k - 1);
    e[blocks[k - 1] := e[l.start + k]]
  }

  /** The disk after k rounds of write_log; view is what bread returns. */
  function WriteLog(l: Layout, d: Disk, blocks: seq<nat>, view: Disk, k: nat): (r: Disk)
    requires l.Loggable(d, blocks) && k <= |blocks| && |view| == |d|
    ensures |r| == |d|
  {
    if k == 0 then d else
    WriteLog(l, d, blocks, view, k - 1)[l.start + k := view[blocks[k - 1]]]
  }

  /** Number of block writes that commit() performs. */
  function CommitWrites(blocks: seq<nat>): nat {
    if blocks == [] then 0 else 2 * |blocks| + 2
  }

  /** The disk after the first `step` block writes of commit(). */
  function CommitImage(l: Layout, d: Disk, blocks: seq<nat>, view: Disk, step: nat): (r: Disk)
    requires l.Loggable(d, blocks) && |view| == |d| && step <= CommitWrites(blocks)
    ensures |r| == |d|
  {
    var n := |blocks|;
    if step <= n then WriteLog(l, d, blocks, view, step) else
    var c := AtHead(l, d, blocks, view);
    if step <= 2 * n + 1 then Install(l, c, blocks, step - n - 1)
    else PutHead(l, Install(l, c, blocks, n), [])
  }

  /** The disk after the first `step` block writes of recover_from_log(). */
  function RecoveryImage(l: Layout, d: Disk, step: nat): (r: Disk)
    requires Recoverable(l, d) && step <= |Head(l, d)| + 1
    ensures |r| == |d|
  {
    var blocks := Head(l, d);
    if step <= |blocks| then Install(l, d, blocks, step)
    else PutHead(l, Install(l, d, blocks, |blocks|), [])
  }

  /** Recovery run to its end. */
  function Recover(l: Layout, d: Disk): (r: Disk)
    requires Recoverable(l, d)
    ensures |r| == |d|
  {
    RecoveryImage(l, d, |Head(l, d)| + 1)
  }

  /** The home blocks once the transaction has happened. */
  function Committed(d: Disk, blocks: seq<nat>, view: Disk): (r: Disk)
    requires |view| == |d|
  {
    seq(|d|, b requires 0 <= b < |d| => if b in blocks then view[b] else d[b])
  }

  /** Recovery interrupted after ks[0] writes, restarted, interrupted after ks[1] writes, ... */
  ghost function CrashedRecoveries(l: Layout, d: Disk, ks: seq<nat>): (r: Disk)
    requires Recoverable(l, d)
    ensures |r| == |d|
    decreases |ks|
  {
    if ks == [] then d else
    RecoveryImageOk(l, d, Min(ks[0], |Head(l, d)| + 1));
    CrashedRecoveries(l, RecoveryImage(l, d, Min(ks[0], |Head(l, d)| + 1)), ks[1..])
  }

  // ---------------------------------------------------------------- lemmas

  /** install_trans leaves the log alone; installed blocks hold their last logged copy. */
  lemma {:induction false} InstallAt(l: Layout, d: Disk, blocks: seq<nat>, k: nat, b: nat)
    requires l.Loggable(d, blocks) && k <= |blocks| && b < |d|
    ensures Install(l, d, blocks, k)[b] ==
            if b in blocks[..k] then d[l.start + 1 + LastIndex(blocks[..k], b)] else d[b]
  {
    if k != 0 {
      var e := Install(l, d, blocks, k - 1);
      InstallAt(l, d, blocks, k - 1, b);
      InstallAt(l, d, blocks, k - 1, l.start + k);
      assert l.InLog(l.start + k);
      assert blocks[..k] == blocks[..k-1] + [blocks[k-1]];
    }
  }

  function LastIndex(s: seq<nat>, b: nat): (i: nat)
    requires b in s
    ensures i < |s| && s[i] == b
  {
    if s[|s| - 1] == b then |s| - 1 else LastIndex(s[..|s| - 1], b)
  }

  lemma {:induction false} WriteLogAt(l: Layout, d: Disk, blocks: seq<nat>, view: Disk, k: nat, b: nat)
    requires l.Loggable(d, blocks) && k <= |blocks| && |view| == |d| && b < |d|
    ensures WriteLog(l, d, blocks, view, k)[b] ==
            if l.start < b <= l.start + k then view[blocks[b - l.start - 1]] else d[b]
  {
    if k != 0 {
      WriteLogAt(l, d, blocks, view, k - 1, b);
    }
  }

  lemma InstallKeepsLog(l: Layout, d: Disk, blocks: seq<nat>, k: nat)
    requires l.Loggable(d, blocks) && k <= |blocks|
    ensures forall b: nat :: l.InLog(b) ==> Install(l, d, blocks, k)[b] == d[b]
  {
    forall b: nat | l.InLog(b)
      ensures Install(l, d, blocks, k)[b] == d[b]
    {
      InstallAt(l, d, blocks, k, b);
    }
  }

  lemma EmptyHead(l: Layout, d: Disk)
    requires l.Fits(d) && LogEmpty(l, d)
    ensures Recoverable(l, d) && Head(l, d) == []
  {
  }

  /** Clearing the log leaves it empty. */
  lemma PutHeadClears(l: Layout, d: Disk)
    requires l.Fits(d)
    ensures LogEmpty(l, PutHead(l, d, []))
  {
    var hb := d[l.start];
    assert EncodeHead(hb, []) == PutWord(hb, 0, 0);
  }

  /** After `step` writes of an interrupted recovery the header is either untouched or cleared. */
  lemma RecoveryImageOk(l: Layout, d: Disk, step: nat)
    requires Recoverable(l, d) && step <= |Head(l, d)| + 1
    ensures Recoverable(l, RecoveryImage(l, d, step))
    ensures Head(l, RecoveryImage(l, d, step)) == if step <= |Head(l, d)| then Head(l, d) else []
    ensures step == |Head(l, d)| + 1 ==> LogEmpty(l, RecoveryImage(l, d, step))
  {
    hide DecodeHead, PutHead, Install, LogEmpty;
    var blocks := Head(l, d);
    if step <= |blocks| {
      InstallKeepsLog(l, d, blocks, step);
      assert l.InLog(l.start);
    } else {
      PutHeadClears(l, Install(l, d, blocks, |blocks|));
      EmptyHead(l, RecoveryImage(l, d, step));
    }
  }

  /** Once every block of the list is installed, installing them again changes nothing at home. */
  lemma RecoverAt(l: Layout, d: Disk, b: nat)
    requires Recoverable(l, d) && b < |d| && !l.InLog(b)
    ensures Recover(l, d)[b] ==
            var blocks := Head(l, d);
            if b in blocks then d[l.start + 1 + LastIndex(blocks, b)] else d[b]
  {
    var blocks := Head(l, d);
    InstallAt(l, d, blocks, |blocks|, b);
    assert blocks[..|blocks|] == blocks;
  }

  /** A crash after any number of block writes of recovery loses nothing: recovering
      the interrupted disk gives the home blocks that recovering d would have given. */
  lemma RecoveryIsRestartable(l: Layout, d: Disk, step: nat)
    requires Recoverable(l, d) && step <= |Head(l, d)| + 1
    ensures Recoverable(l, RecoveryImage(l, d, step))
    ensures l.SameHome(Recover(l, RecoveryImage(l, d, step)), Recover(l, d))
  {
    hide Head, PutHead, Recover, Install, RecoveryImage, LastIndex;
    RecoveryImageOk(l, d, step);
    forall b: nat | b < |d| && !l.InLog(b)
      ensures Recover(l, RecoveryImage(l, d, step))[b] == Recover(l, d)[b]
    {
      RestartAt(l, d, step, b);
    }
  }

  lemma RestartAt(l: Layout, d: Disk, step: nat, b: nat)
    requires Recoverable(l, d) && step <= |Head(l, d)| + 1 && b < |d| && !l.InLog(b)
    ensures Recoverable(l, RecoveryImage(l, d, step))
    ensures Recover(l, RecoveryImage(l, d, step))[b] == Recover(l, d)[b]
  {
    hide Head, PutHead, Recover, Install;
    var blocks := Head(l, d);
    RecoveryImageOk(l, d, step);
    RecoverAt(l, RecoveryImage(l, d, step), b);
    if step <= |blocks| {
      RecoverAt(l, d, b);
      if b in blocks {
        InstallKeepsLog(l, d, blocks, step);
        assert l.InLog(l.start + 1 + LastIndex(blocks, b));
      } else {
        InstallAt(l, d, blocks, step, b);
      }
    } else {
      assert RecoveryImage(l, d, step) == Recover(l, d) by { RecoverIsLast(l, d); }
    }
  }

  lemma RecoverIsLast(l: Layout, d: Disk)
    requires Recoverable(l, d)
    ensures Recover(l, d) == RecoveryImage(l, d, |Head(l, d)| + 1)
  {
  }

  lemma {:induction false} RepeatedCrashes(l: Layout, d: Disk, ks: seq<nat>)
    requires Recoverable(l, d)
    ensures Recoverable(l, CrashedRecoveries(l, d, ks))
    ensures l.SameHome(Recover(l, CrashedRecoveries(l, d, ks)), Recover(l, d))
    decreases |ks|
  {
    if ks != [] {
      var step := Min(ks[0], |Head(l, d)| + 1);
      RecoveryIsRestartable(l, d, step);
      RepeatedCrashes(l, RecoveryImage(l, d, step), ks[1..]);
    }
  }

  /** Every image of a commit is recoverable; its header is the transaction's
      between the first and the second write_head, and empty otherwise. */
  lemma CommitImageHead(l: Layout, d: Disk, blocks: seq<nat>, view: Disk, step: nat)
    requires l.Loggable(d, blocks) && |view| == |d| && step <= CommitWrites(blocks)
    requires LogEmpty(l, d)
    ensures Recoverable(l, CommitImage(l, d, blocks, view, step))
    ensures Head(l, CommitImage(l, d, blocks, view, step)) ==
            if |blocks| < step < CommitWrites(blocks) then blocks else []
  {
    hide GetWord, DecodeHead, PutHead, Install, WriteLog;
    var n := |blocks|;
    if step <= n {
      WriteLogAt(l, d, blocks, view, step, l.start);
      EmptyHead(l, d);
    } else {
      var c := AtHead(l, d, blocks, view);
      AtHeadCommits(l, d, blocks, view);
      RecoveryImageOk(l, c, step - n - 1);
    }
  }

  /** Before the first write_head, recovery finds the old home blocks. */
  lemma CrashBeforeHead(l: Layout, d: Disk, blocks: seq<nat>, view: Disk, step: nat)
    requires l.Loggable(d, blocks) && |view| == |d| && step <= |blocks|
    requires LogEmpty(l, d)
    ensures step <= CommitWrites(blocks) && Recoverable(l, CommitImage(l, d, blocks, view, step))
    ensures l.SameHome(Recover(l, CommitImage(l, d, blocks, view, step)), d)
  {
    CommitImageHead(l, d, blocks, view, step);
    var e := CommitImage(l, d, blocks, view, step);
    forall b: nat | b < |d| && !l.InLog(b)
      ensures Recover(l, e)[b] == d[b]
    {
      RecoverAt(l, e, b);
      WriteLogAt(l, d, blocks, view, step, b);
    }
  }

  /** The disk right after the first write_head. */
  function AtHead(l: Layout, d: Disk, blocks: seq<nat>, view: Disk): (r: Disk)
    requires l.Loggable(d, blocks) && |view| == |d|
    ensures |r| == |d|
  {
    PutHead(l, WriteLog(l, d, blocks, view, |blocks|), blocks)
  }

  lemma AtHeadCommits(l: Layout, d: Disk, blocks: seq<nat>, view: Disk)
    requires l.Loggable(d, blocks) && |view| == |d|
    ensures Recoverable(l, AtHead(l, d, blocks, view)) && Head(l, AtHead(l, d, blocks, view)) == blocks
  {
    hide WriteLog, EncodeHead, DecodeHead;
    HeadRoundTrip(WriteLog(l, d, blocks, view, |blocks|)[l.start], blocks);
  }

  lemma AtHeadRecovers(l: Layout, d: Disk, blocks: seq<nat>, view: Disk)
    requires l.Loggable(d, blocks) && |view| == |d|
    ensures Recoverable(l, AtHead(l, d, blocks, view))
    ensures l.SameHome(Recover(l, AtHead(l, d, blocks, view)), Committed(d, blocks, view))
  {
    hide WriteLog, EncodeHead, Head, Recover;
    var c := AtHead(l, d, blocks, view);
    AtHeadCommits(l, d, blocks, view);
    forall b: nat | b < |d| && !l.InLog(b)
      ensures Recover(l, c)[b] == Committed(d, blocks, view)[b]
    {
      RecoverAt(l, c, b);
      WriteLogAt(l, d, blocks, view, |blocks|, b);
      if b in blocks {
        WriteLogAt(l, d, blocks, view, |blocks|, l.start + 1 + LastIndex(blocks, b));
      }
    }
  }

  /** From the first write_head on, recovery finds the new home blocks, because
      the rest of commit() writes what recovering that disk would write. */
  lemma CrashAfterHead(l: Layout, d: Disk, blocks: seq<nat>, view: Disk, step: nat)
    requires l.Loggable(d, blocks) && |view| == |d| && |blocks| < step <= CommitWrites(blocks)
    ensures Recoverable(l, CommitImage(l, d, blocks, view, step))
    ensures l.SameHome(Recover(l, CommitImage(l, d, blocks, view, step)), Committed(d, blocks, view))
  {
    hide WriteLog, Install, Head, Recover, PutHead, Committed;
    var c := AtHead(l, d, blocks, view);
    AtHeadCommits(l, d, blocks, view);
    assert CommitImage(l, d, blocks, view, step) == RecoveryImage(l, c, step - |blocks| - 1);
    RecoveryIsRestartable(l, c, step - |blocks| - 1);
    AtHeadRecovers(l, d, blocks, view);
  }

  /** Crash atomicity.  Cut commit() after any number of block writes, then cut
      recovery after any number of writes any number of times; a recovery that
      finally runs to its end leaves every home block as it was before the
      transaction, or every home block as it is after it.  The switch is the
      write of the header. */
  lemma CrashAtomicity(l: Layout, d: Disk, blocks: seq<nat>, view: Disk, step: nat, ks: seq<nat>)
    requires l.Loggable(d, blocks) && |view| == |d| && step <= CommitWrites(blocks)
    requires LogEmpty(l, d)
    ensures Recoverable(l, CommitImage(l, d, blocks, view, step))
    ensures
      var crashed := CrashedRecoveries(l, CommitImage(l, d, blocks, view, step), ks);
      && Recoverable(l, crashed)
      && l.SameHome(Recover(l, crashed), if step <= |blocks| then d else Committed(d, blocks, view))
  {
    if step <= |blocks| {
      CrashBeforeHead(l, d, blocks, view, step);
    } else {
      CrashAfterHead(l, d, blocks, view, step);
    }
    RepeatedCrashes(l, CommitImage(l, d, blocks, view, step), ks);
  }

  /** A commit that is not interrupted installs the transaction and empties the log. */
  lemma CommitInstalls(l: Layout, d: Disk, blocks: seq<nat>, view: Disk)
    requires l.Loggable(d, blocks) && |view| == |d|
    requires LogEmpty(l, d)
    ensures
      var e := CommitImage(l, d, blocks, view, CommitWrites(blocks));
      && LogEmpty(l, e)
      && l.SameHome(e, Committed(d, blocks, view))
      && (blocks == [] ==> e == d)
  {
    hide DecodeHead, PutHead, Install, WriteLog, LogEmpty, Recover, Committed;
    var last := CommitWrites(blocks);
    var e := CommitImage(l, d, blocks, view, last);
    if blocks == [] {
      NothingToCommit(l, d, view);
    } else {
      CrashAfterHead(l, d, blocks, view, last);
      PutHeadClears(l, Install(l, AtHead(l, d, blocks, view), blocks, |blocks|));
      EmptyHead(l, e);
      forall b: nat | b < |d| && !l.InLog(b)
        ensures Recover(l, e)[b] == e[b]
      {
        RecoverAt(l, e, b);
      }
    }
  }

  lemma NothingToCommit(l: Layout, d: Disk, view: Disk)
    requires l.Fits(d) && |view| == |d|
    ensures CommitImage(l, d, [], view, 0) == d
    ensures l.SameHome(d, Committed(d, [], view))
  {
  }

  // ---------------------------------------------------------------- traces

  /** The disks that k rounds of install_trans leave behind, in order. */
  ghost function InstallTrace(l: Layout, d: Disk, blocks: seq<nat>, k: nat): (t: seq<Disk>)
    requires l.Loggable(d, blocks) && k <= |blocks|
    ensures |t| == k && forall i :: 0 <= i < k ==> t[i] == Install(l, d, blocks, i + 1)
  {
    if k == 0 then [] else InstallTrace(l, d, blocks, k - 1) + [Install(l, d, blocks, k)]
  }

  ghost function WriteLogTrace(l: Layout, d: Disk, blocks: seq<nat>, view: Disk, k: nat): (t: seq<Disk>)
    requires l.Loggable(d, blocks) && k <= |blocks| && |view| == |d|
    ensures |t| == k && forall i :: 0 <= i < k ==> t[i] == WriteLog(l, d, blocks, view, i + 1)
  {
    if k == 0 then [] else WriteLogTrace(l, d, blocks, view, k - 1) + [WriteLog(l, d, blocks, view, k)]
  }

  /** All the disks that commit() leaves behind. */
  ghost function CommitTrace(l: Layout, d: Disk, blocks: seq<nat>, view: Disk): (t: seq<Disk>)
    requires l.Loggable(d, blocks) && |view| == |d|
  {
    if blocks == [] then [] else
    var n := |blocks|;
    var c := AtHead(l, d, blocks, view);
    WriteLogTrace(l, d, blocks, view, n) + [c] + InstallTrace(l, c, blocks, n)
      + [PutHead(l, Install(l, c, blocks, n), [])]
  }

  ghost function RecoveryTrace(l: Layout, d: Disk): (t: seq<Disk>)
    requires Recoverable(l, d)
  {
    InstallTrace(l, d, Head(l, d), |Head(l, d)|) + [Recover(l, d)]
  }

  /** The traces hold every crash image once, in order. */
  lemma TracesAreImages(l: Layout, d: Disk, blocks: seq<nat>, view: Disk)
    requires l.Loggable(d, blocks) && |view| == |d|
    ensures var t := CommitTrace(l, d, blocks, view);
            |t| == CommitWrites(blocks) && forall i :: 0 <= i < |t| ==> t[i] == CommitImage(l, d, blocks, view, i + 1)
    ensures Recoverable(l, d) ==>
            var t := RecoveryTrace(l, d);
            |t| == |Head(l, d)| + 1 && forall i :: 0 <= i < |t| ==> t[i] == RecoveryImage(l, d, i + 1)
  {
    hide GetWord, PutWord, DecodeHead, EncodeHead, PutBlocks;
  }
}
