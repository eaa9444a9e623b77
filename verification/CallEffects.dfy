/**
 What one whole call does to the file, finished or not, when the ring may still hold entries that
 earlier, failed calls left behind.
 */
module CallEffects {
  import opened IoTypes
  import opened RingProtocol
  import opened FileModel
  import opened Calls
  import opened RanDuring
  import opened BatchTheorems
  import opened BatchReads

  // --- Single operations ---

  /** A finished single write on an idle ring, wherever the position is: the file and the position are
      those of one write of the prefix of its argument that its result counts. */
  lemma {:induction false} SingleWrite(s: State, t: State, f: File, g: File, start: Id, bytes: seq<byte>, n: nat)
    requires Inv(s) && Inv(t) && CallDone(s, t, start, [WriteOp(f.fd, bytes)], [n]) && Idle(s, f.fd)
    requires Advances(f, s.hist.log, g, t.hist.log)
    ensures n <= |bytes| && Accepted(f.fd, Ran(s, t)) == bytes[..n] && g == WriteSome(f, bytes[..n])
  {
    hide Inv, Called, Idle, Accepted, WriteSome, CanRunAll, RunAll;
    assert WriteOps(f.fd, [bytes]) == [WriteOp(f.fd, bytes)];
    var perm := WriteBatchConserves(s, t, f, g, start, [bytes], [n]);
    OnlyOrderOfOne(perm, bytes[..n]);
    assert Prefixes([bytes], [n]) == [bytes[..n]];
  }

  lemma OnlyOrderOfOne(perm: seq<int>, piece: seq<byte>)
    requires Permutes(perm, 1)
    ensures Gather([piece], perm) == piece
  {
    GatherLength([piece], perm);
    IncreasingIsIota(perm, 1);
    GatherInOrder([piece], 1);
    assert [piece][..1] == [piece] && [piece][..0] == [];
  }

  /** A finished single read at an explicit offset, while no write to the file runs, returns the
      file's bytes from that offset, as many as its result says. */
  lemma {:induction false} SingleReadReturns(s: State, t: State, f: File, g: File, start: Id, offset: nat, size: nat,
                                             n: nat)
    requires Inv(s) && Inv(t) && CallDone(s, t, start, [ReadOp(f.fd, offset, size)], [n])
    requires Advances(f, s.hist.log, g, t.hist.log) && Accepted(f.fd, Ran(s, t)) == [] && offset != CURRENT
    ensures start in t.hist.posted && t.hist.posted[start].data == Slice(f.bytes, offset, n)
    ensures n <= size % U32 && (n == 0 && size % U32 > 0 ==> offset >= |f.bytes|)
  {
    hide Inv, Called, LogFacts, Honest, CanRunAll, RunAll, Accepted;
    InvLogFacts(s);
    InvLogFacts(t);
    CallRan(s, t, start, [ReadOp(f.fd, offset, size)], [n], 0);
    LogReads(f, Ran(s, t), t.hist.posted[start]);
    if n == 0 && size % U32 > 0 {
      NothingLeft(f.bytes, offset, size % U32);
    }
  }

  /** `data` is what the file held from `offset` on at some moment while `log` ran. */
  ghost predicate HeldDuring(f: File, log: seq<Done>, offset: nat, data: seq<byte>) {
    exists k | 0 <= k < |log| :: data == Slice(RunAll(f, log[..k]).bytes, offset, |data|)
  }

  lemma {:induction false} LogCanRun(f: File, log: seq<Done>, k: nat)
    requires CanRunAll(f, log) && k < |log|
    ensures CanRun(RunAll(f, log[..k]), log[k])
  {
    hide CanRun, Run;
    if k < |log| - 1 {
      LogCanRun(f, log[..|log| - 1], k);
      assert log[..|log| - 1][..k] == log[..k];
    }
  }

  /** Every buffer whose specification gives an offset holds what the file held there at some moment. */
  ghost predicate AllHeld(f: File, log: seq<Done>, specs: seq<(nat, nat)>, buffers: seq<seq<byte>>) {
    |buffers| == |specs| && forall i | 0 <= i < |specs| && specs[i].0 != CURRENT ::
      HeldDuring(f, log, specs[i].0, buffers[i])
  }

  lemma HeldWhenRun(f: File, log: seq<Done>, d: Done, offset: nat, size: nat)
    requires CanRunAll(f, log) && d in log && d.entry.op == ReadOp(f.fd, offset, size)
    requires d.res >= 0 && offset != CURRENT
    ensures HeldDuring(f, log, offset, d.data)
  {
    var k :| 0 <= k < |log| && log[k] == d;
    LogCanRun(f, log, k);
    RunAllKeepsDescriptor(f, log[..k]);
    assert d.data == Slice(RunAll(f, log[..k]).bytes, offset, |d.data|);
  }

  /** An operation that a call finished without an error ran on a descriptor open for it. */
  lemma FinishedNeedsAccess(s: State, t: State, f: File, g: File, start: Id, ops: seq<Op>, results: seq<int>, i: nat)
    requires Inv(s) && Inv(t) && CallDone(s, t, start, ops, results) && Advances(f, s.hist.log, g, t.hist.log)
    requires i < |ops| && results[i] >= 0
    ensures ops[i].Read? && ops[i].fd == f.fd ==>
              f.canRead && (ops[i].offset == CURRENT || ops[i].offset <= I64_MAX)
    ensures ops[i].Write? && ops[i].fd == f.fd ==> f.canWrite
  {
    hide Inv, Called, LogFacts, Honest, CanRunAll, RunAll, CanRun;
    InvLogFacts(s);
    InvLogFacts(t);
    CallRan(s, t, start, ops, results, i);
    var log, d := Ran(s, t), t.hist.posted[start + i];
    var k :| 0 <= k < |log| && log[k] == d;
    LogCanRun(f, log, k);
    RunAllKeepsDescriptor(f, log[..k]);
    NeedsAccess(RunAll(f, log[..k]), d);
  }

  lemma FinishedReads(s: State, t: State, f: File, g: File, start: Id, specs: seq<(nat, nat)>, results: seq<int>)
    requires Inv(s) && Inv(t) && CallDone(s, t, start, ReadOps(f.fd, specs), results)
    requires Advances(f, s.hist.log, g, t.hist.log) && forall i | 0 <= i < |results| :: results[i] >= 0
    ensures (specs != [] ==> f.canRead) && Seekable(specs)
  {
    hide Inv, Called, Advances;
    if specs != [] {
      FinishedNeedsAccess(s, t, f, g, start, ReadOps(f.fd, specs), results, 0);
    }
    forall i | 0 <= i < |specs|
      ensures specs[i].0 == CURRENT || specs[i].0 <= I64_MAX
    {
      FinishedNeedsAccess(s, t, f, g, start, ReadOps(f.fd, specs), results, i);
    }
  }

  /** Whatever else runs, a finished read at an explicit offset, alone or in a batch, returns what the file
      held there at some moment during the call. */
  lemma {:induction false} ReadsHeld(s: State, t: State, f: File, g: File, start: Id, specs: seq<(nat, nat)>,
                                     results: seq<int>, buffers: seq<seq<byte>>)
    requires Inv(s) && Inv(t) && CallDone(s, t, start, ReadOps(f.fd, specs), results)
    requires Advances(f, s.hist.log, g, t.hist.log)
    requires |buffers| == |specs| && Filled(t.hist, start, buffers, |specs|)
    requires forall i | 0 <= i < |results| :: results[i] >= 0
    ensures AllHeld(f, Ran(s, t), specs, buffers)
  {
    hide Inv, Called, LogFacts, Honest, CanRunAll, RunAll, HeldDuring;
    InvLogFacts(s);
    InvLogFacts(t);
    CallGrowsLog(s, t, start, ReadOps(f.fd, specs), results);
    forall i | 0 <= i < |specs| && specs[i].0 != CURRENT
      ensures HeldDuring(f, Ran(s, t), specs[i].0, buffers[i])
    {
      CallRan(s, t, start, ReadOps(f.fd, specs), results, i);
      assert Holds(t.hist, start + i, buffers[i]);
      HeldWhenRun(f, Ran(s, t), t.hist.posted[start + i], specs[i].0, specs[i].1);
    }
  }

  lemma SingleReadHeld(s: State, t: State, f: File, g: File, start: Id, offset: nat, size: nat, n: nat)
    requires Inv(s) && Inv(t) && CallDone(s, t, start, [ReadOp(f.fd, offset, size)], [n])
    requires Advances(f, s.hist.log, g, t.hist.log) && offset != CURRENT
    ensures start in t.hist.posted && HeldDuring(f, Ran(s, t), offset, t.hist.posted[start].data)
  {
    hide Inv, Called, LogFacts, Honest, CanRunAll, RunAll, HeldDuring;
    InvLogFacts(s);
    InvLogFacts(t);
    CallRan(s, t, start, [ReadOp(f.fd, offset, size)], [n], 0);
    HeldWhenRun(f, Ran(s, t), t.hist.posted[start], offset, size);
  }

  // --- Whole calls ---

  /** The kernel alone, between system calls. */
  lemma KernelAlone(s: State, t: State, f: File, g: File)
    requires Inv(s) && Inv(t) && KernelMoved(s, t) && Extends(s.hist, t.hist) && Advances(f, s.hist.log, g, t.hist.log)
    ensures Idle(s, f.fd) ==>
              && g == f && Idle(t, f.fd)
              && forall d | d in Ran(s, t) :: Harmless(d.entry.op, f.fd)
  {
    hide Inv, Idle, Advances, Extends;
    if Idle(s, f.fd) {
      NothingPushed(s, t);
      HarmlessCall(s, t, f, g, 0, [], 0, []);
    }
  }

  /** A single read at an explicit offset, finished or not. */
  lemma ReadCall(s: State, t: State, f: File, g: File, start: Id, offset: nat, size: nat, p: nat, results: seq<int>)
    requires Inv(s) && Inv(t) && Called(s, t, start, [ReadOp(f.fd, offset, size)], p, results)
    requires Advances(f, s.hist.log, g, t.hist.log) && offset != CURRENT
    ensures Idle(s, f.fd) ==>
              && g == f && Idle(t, f.fd)
              && forall d | d in Ran(s, t) :: Harmless(d.entry.op, f.fd)
    ensures p == 1 && |results| == 1 && results[0] >= 0 ==>
              start in t.hist.posted && HeldDuring(f, Ran(s, t), offset, t.hist.posted[start].data)
    ensures Idle(s, f.fd) && p == 1 && |results| == 1 && results[0] >= 0 ==>
              && start in t.hist.posted && t.hist.posted[start].data == Slice(f.bytes, offset, results[0])
              && results[0] <= size % U32 && (results[0] == 0 && size % U32 > 0 ==> offset >= |f.bytes|)
    ensures p == 1 && |results| == 1 && results[0] >= 0 ==> f.canRead
    ensures Quiet(s) && p == 1 && |results| == 1 ==> Quiet(t)
  {
    hide Inv, Called, Idle, Quiet, Advances, Accepted, HeldDuring;
    if p == 1 && |results| == 1 && results[0] >= 0 {
      assert results == [results[0]];
      SingleReadHeld(s, t, f, g, start, offset, size, results[0]);
      FinishedNeedsAccess(s, t, f, g, start, [ReadOp(f.fd, offset, size)], results, 0);
    }
    if Idle(s, f.fd) {
      HarmlessCall(s, t, f, g, start, [ReadOp(f.fd, offset, size)], p, results);
      if p == 1 && |results| == 1 && results[0] >= 0 {
        SingleReadReturns(s, t, f, g, start, offset, size, results[0]);
      }
    }
    if Quiet(s) && p == 1 && |results| == 1 {
      DoneKeepsQuiet(s, t, start, [ReadOp(f.fd, offset, size)], results);
    }
  }

  /** A single write at the current position, finished or not. */
  lemma WriteCall(s: State, t: State, f: File, g: File, start: Id, bytes: seq<byte>, p: nat, results: seq<int>)
    requires Inv(s) && Inv(t) && Called(s, t, start, [WriteOp(f.fd, bytes)], p, results)
    requires Advances(f, s.hist.log, g, t.hist.log)
    ensures p == 1 && |results| == 1 && results[0] >= 0 ==> results[0] <= |bytes| && f.canWrite
    ensures p == 1 && |results| == 1 && results[0] >= 0 && Idle(s, f.fd) ==>
              && results[0] <= |bytes| && Accepted(f.fd, Ran(s, t)) == bytes[..results[0]]
              && g == WriteSome(f, bytes[..results[0]]) && Idle(t, f.fd)
    ensures p == 1 && |results| == 1 && Quiet(s) ==> Quiet(t)
  {
    hide Inv, Called, Idle, Quiet, Accepted, RunAll, CanRunAll;
    if p == 1 && |results| == 1 {
      assert results == [results[0]];
      assert WriteOps(f.fd, [bytes]) == [WriteOp(f.fd, bytes)];
      WriteCounts(s, t, start, f.fd, [bytes], results);
      if results[0] >= 0 {
        FinishedNeedsAccess(s, t, f, g, start, [WriteOp(f.fd, bytes)], results, 0);
      }
      if results[0] >= 0 && Idle(s, f.fd) {
        SingleWrite(s, t, f, g, start, bytes, results[0]);
        DoneKeepsIdle(s, t, start, [WriteOp(f.fd, bytes)], results, f.fd);
      }
      if Quiet(s) {
        DoneKeepsQuiet(s, t, start, [WriteOp(f.fd, bytes)], results);
      }
    }
  }

  /** A batch of writes that returned all its counts, on an idle ring. */
  lemma WriteBatchIdle(s: State, t: State, f: File, g: File, start: Id, chunks: seq<seq<byte>>, counts: seq<int>)
    requires Inv(s) && Inv(t) && CallDone(s, t, start, WriteOps(f.fd, chunks), counts) && Idle(s, f.fd)
    requires Advances(f, s.hist.log, g, t.hist.log)
    requires forall i | 0 <= i < |counts| :: counts[i] >= 0
    ensures Idle(t, f.fd) && Counted(chunks, counts)
    ensures var data := Accepted(f.fd, Ran(s, t));
            && g == WriteSome(f, data)
            && (exists perm :: SomeOrder(data, chunks, counts, perm))
            && (InOrder(s, Ran(s, t)) ==> data == Joined(Prefixes(chunks, counts)))
  {
    hide Inv, Called, Idle, SomeOrder, InOrder, Accepted, Joined, Prefixes, Counted, WriteSome, CanRunAll, RunAll;
    DoneKeepsIdle(s, t, start, WriteOps(f.fd, chunks), counts, f.fd);
    var perm := WriteBatchConserves(s, t, f, g, start, chunks, counts);
    SomeOrderCounts(Accepted(f.fd, Ran(s, t)), chunks, counts, perm);
    if InOrder(s, Ran(s, t)) {
      WriteBatchInOrder(s, t, f, g, start, chunks, counts);
    }
  }

  lemma SomeOrderCounts(data: seq<byte>, chunks: seq<seq<byte>>, counts: seq<int>, perm: seq<int>)
    requires SomeOrder(data, chunks, counts, perm)
    ensures Counted(chunks, counts)
  {
  }

  lemma AllCounted(s: State, t: State, start: Id, fd: int, chunks: seq<seq<byte>>, counts: seq<int>)
    requires Inv(s) && Inv(t) && CallDone(s, t, start, WriteOps(fd, chunks), counts)
    requires forall i | 0 <= i < |counts| :: counts[i] >= 0
    ensures Counted(chunks, counts)
  {
    hide Inv, Called;
    WriteCounts(s, t, start, fd, chunks, counts);
  }

  /** A batch of writes that returned all its counts. */
  lemma WriteBatchCall(s: State, t: State, f: File, g: File, start: Id, chunks: seq<seq<byte>>, counts: seq<int>)
    requires Inv(s) && Inv(t) && CallDone(s, t, start, WriteOps(f.fd, chunks), counts)
    requires Advances(f, s.hist.log, g, t.hist.log)
    requires forall i | 0 <= i < |counts| :: counts[i] >= 0
    ensures Counted(chunks, counts) && (chunks != [] ==> f.canWrite)
    ensures Quiet(s) ==> Quiet(t)
    ensures Idle(s, f.fd) ==>
              var data := Accepted(f.fd, Ran(s, t));
              && Idle(t, f.fd) && g == WriteSome(f, data)
              && (exists perm :: SomeOrder(data, chunks, counts, perm))
              && (InOrder(s, Ran(s, t)) ==> data == Joined(Prefixes(chunks, counts)))
  {
    hide Inv, Called, Idle, Quiet, SomeOrder, InOrder, Accepted, Joined, Prefixes, WriteSome, CanRunAll, RunAll;
    AllCounted(s, t, start, f.fd, chunks, counts);
    hide Counted;
    if chunks != [] {
      FinishedNeedsAccess(s, t, f, g, start, WriteOps(f.fd, chunks), counts, 0);
    }
    if Quiet(s) {
      DoneKeepsQuiet(s, t, start, WriteOps(f.fd, chunks), counts);
    }
    if Idle(s, f.fd) {
      WriteBatchIdle(s, t, f, g, start, chunks, counts);
    }
  }

  /** A batch of reads that returned all its buffers. */
  lemma ReadBatchCall(s: State, t: State, f: File, g: File, start: Id, specs: seq<(nat, nat)>,
                      results: seq<int>, buffers: seq<seq<byte>>)
    requires Inv(s) && Inv(t) && CallDone(s, t, start, ReadOps(f.fd, specs), results)
    requires Advances(f, s.hist.log, g, t.hist.log)
    requires |buffers| == |specs| && Filled(t.hist, start, buffers, |specs|)
    requires forall i | 0 <= i < |results| :: results[i] >= 0
    ensures Quiet(s) ==> Quiet(t)
    ensures (specs != [] ==> f.canRead) && Seekable(specs)
    ensures AllHeld(f, Ran(s, t), specs, buffers)
    ensures Idle(s, f.fd) ==>
              && Idle(t, f.fd) && Accepted(f.fd, Ran(s, t)) == []
              && (exists perm :: Tiled(f, g, specs, buffers, perm))
              && (InOrder(s, Ran(s, t)) ==> ReadInTurn(ByRing, f.bytes, f.pos, specs, buffers))
  {
    assert s.hist.log <= t.hist.log;
    hide Inv, Called, Quiet, Idle, Advances, Filled, Tiled, InOrder, Accepted, ReadInTurn, AllHeld, Seekable;
    ReadsHeld(s, t, f, g, start, specs, results, buffers);
    FinishedReads(s, t, f, g, start, specs, results);
    if Quiet(s) {
      DoneKeepsQuiet(s, t, start, ReadOps(f.fd, specs), results);
    }
    if Idle(s, f.fd) {
      DoneKeepsIdle(s, t, start, ReadOps(f.fd, specs), results, f.fd);
      var perm := ReadBatchTiles(s, t, f, g, start, specs, results, buffers);
      if InOrder(s, Ran(s, t)) {
        ReadBatchInOrder(s, t, f, g, start, specs, results, buffers);
      }
    }
  }

  /** A batch of positioned reads, finished or not. */
  lemma PositionedBatchCall(s: State, t: State, f: File, g: File, start: Id, specs: seq<(nat, nat)>, p: nat,
                            results: seq<int>)
    requires Inv(s) && Inv(t) && Called(s, t, start, ReadOps(f.fd, specs), p, results)
    requires Advances(f, s.hist.log, g, t.hist.log) && Positioned(specs)
    ensures Idle(s, f.fd) ==>
              && g == f && Idle(t, f.fd)
              && forall d | d in Ran(s, t) :: Harmless(d.entry.op, f.fd)
  {
    hide Inv, Called, Idle, Advances;
    if Idle(s, f.fd) {
      HarmlessCall(s, t, f, g, start, ReadOps(f.fd, specs), p, results);
    }
  }
}
