/**
 The account of what the ring writes, over a whole run: as long as the operations of failed calls have
 written nothing and batches were run in order, each call writes exactly what it returns as written,
 whatever stale operations run during it.
 */
module Accounts {
  import opened IoTypes
  import opened RingProtocol
  import opened FileModel
  import opened Calls
  import opened RanDuring
  import opened BatchTheorems

  predicate WritesTo(fd: int, d: Done) {
    d.entry.op.Write? && d.entry.op.fd == fd
  }

  /** Calls that returned an error put nothing into the file, then or later. */
  ghost predicate FailedWroteNothing(log: seq<Done>, calls: seq<Call>, fd: int) {
    forall c, d | c in calls && !c.ok && d in log && d.entry.id in c.ids :: AcceptedBy(fd, d) == []
  }

  /** The writes of a batch that returned a value ran in the order they were pushed. */
  ghost predicate BatchesInOrder(log: seq<Done>, calls: seq<Call>, fd: int) {
    forall c, i, j | c in calls && c.ok && 0 <= i < j < |log| && log[i].entry.id in c.ids && log[j].entry.id in c.ids
                     && WritesTo(fd, log[i]) && WritesTo(fd, log[j]) ::
      log[i].entry.id < log[j].entry.id
  }

  ghost predicate Orderly(log: seq<Done>, calls: seq<Call>, fd: int) {
    FailedWroteNothing(log, calls, fd) && BatchesInOrder(log, calls, fd)
  }

  lemma OrderlyBefore(log: seq<Done>, calls: seq<Call>, later: seq<Done>, more: seq<Call>, fd: int)
    requires Orderly(later, more, fd) && log <= later && calls <= more
    ensures Orderly(log, calls, fd)
  {
    assert forall d | d in log :: d in later;
    assert forall c | c in calls :: c in more;
    assert forall i | 0 <= i < |log| :: log[i] == later[i];
    hide AcceptedBy, WritesTo;
  }

  lemma {:induction false} UnreadIsOfFailed(calls: seq<Call>, taken: set<Id>, id: Id)
    requires id in UnreadByFailed(calls, taken)
    ensures exists c :: c in calls && !c.ok && id in c.ids
  {
    var n := |calls| - 1;
    if id in UnreadByFailed(calls[..n], taken) {
      UnreadIsOfFailed(calls[..n], taken, id);
      var c :| c in calls[..n] && !c.ok && id in c.ids;
      assert c in calls;
    } else {
      assert calls[n] in calls;
    }
  }

  /** What is waiting between calls was pushed by a call that failed. */
  lemma StaleIsOfFailed(s: State, calls: seq<Call>, e: Entry)
    requires Inv(s) && Boundary(s.hist, calls) && Waiting(s, e)
    ensures exists c :: c in calls && !c.ok && e.id in c.ids
  {
    hide Inv, Boundary;
    LeakAccounting(s, calls);
    assert e.id in Outstanding(s);
    UnreadIsOfFailed(calls, s.hist.taken.Keys, e.id);
  }

  /** So during a call nothing but the call itself writes, if the operations of failed calls do not. */
  lemma OthersWriteNothing(s: State, t: State, calls: seq<Call>, start: Id, ops: seq<Op>, p: nat, results: seq<int>,
                           after: seq<Call>, fd: int)
    requires Inv(s) && Inv(t) && Called(s, t, start, ops, p, results) && s.hist.log <= t.hist.log
    requires Boundary(s.hist, calls) && calls <= after && FailedWroteNothing(t.hist.log, after, fd)
    ensures OthersAcceptNothing(Ran(s, t), start, p, fd)
  {
    hide Inv, Called, Boundary, AcceptedBy, Waiting;
    var log := Ran(s, t);
    forall k | 0 <= k < |log| && !(start <= log[k].entry.id < start + p)
      ensures AcceptedBy(fd, log[k]) == []
    {
      RanFrom(s, t, start, ops, p, results, k);
      StaleIsOfFailed(s, calls, log[k].entry);
      var c :| c in calls && !c.ok && log[k].entry.id in c.ids;
      assert c in after && log[k] == t.hist.log[|s.hist.log| + k];
    }
  }

  lemma {:induction false} LogWritesNothing(fd: int, log: seq<Done>)
    requires forall k | 0 <= k < |log| :: AcceptedBy(fd, log[k]) == []
    ensures Accepted(fd, log) == []
  {
    hide AcceptedBy;
    if log != [] {
      LogWritesNothing(fd, log[..|log| - 1]);
    }
  }

  /** The kernel alone, between calls. */
  lemma KernelAccount(s: State, t: State, calls: seq<Call>, fd: int)
    requires Inv(s) && Inv(t) && KernelMoved(s, t) && Extends(s.hist, t.hist) && Boundary(s.hist, calls)
    ensures s.hist.log <= t.hist.log
    ensures Orderly(t.hist.log, calls, fd) ==> Accepted(fd, Ran(s, t)) == []
  {
    hide Inv, Called, Boundary, AcceptedBy, BatchesInOrder;
    NothingPushed(s, t);
    if Orderly(t.hist.log, calls, fd) {
      OthersWriteNothing(s, t, calls, 0, [], 0, [], calls, fd);
      LogWritesNothing(fd, Ran(s, t));
    }
  }

  /** A call that failed. */
  lemma FailedCallWritesNothing(s: State, t: State, calls: seq<Call>, start: Id, ops: seq<Op>, p: nat,
                                results: seq<int>, after: seq<Call>, fd: int)
    requires Inv(s) && Inv(t) && Called(s, t, start, ops, p, results) && s.hist.log <= t.hist.log
    requires Boundary(s.hist, calls) && after == calls + [Call(IdRange(start, p), false)]
    requires Orderly(t.hist.log, after, fd)
    ensures Accepted(fd, Ran(s, t)) == []
  {
    hide Inv, Called, Boundary, AcceptedBy;
    var log := Ran(s, t);
    OthersWriteNothing(s, t, calls, start, ops, p, results, after, fd);
    assert after[|calls|] in after;
    forall k | 0 <= k < |log|
      ensures AcceptedBy(fd, log[k]) == []
    {
      assert log[k] == t.hist.log[|s.hist.log| + k];
      if start <= log[k].entry.id < start + p {
        assert log[k].entry.id in after[|calls|].ids;
      }
    }
    LogWritesNothing(fd, log);
  }

  /** A finished call of reads. */
  lemma ReadsWriteNothing(s: State, t: State, calls: seq<Call>, start: Id, ops: seq<Op>, results: seq<int>,
                          after: seq<Call>, fd: int)
    requires Inv(s) && Inv(t) && CallDone(s, t, start, ops, results) && s.hist.log <= t.hist.log
    requires Boundary(s.hist, calls) && calls <= after && Orderly(t.hist.log, after, fd)
    requires forall i | 0 <= i < |ops| :: ops[i].Read?
    ensures Accepted(fd, Ran(s, t)) == []
  {
    hide Inv, Called, Boundary, LogFacts, Honest;
    var own := Own(Ran(s, t), start, |ops|);
    OthersWriteNothing(s, t, calls, start, ops, |ops|, results, after, fd);
    OwnAccepts(fd, Ran(s, t), start, |ops|);
    InvLogFacts(s);
    InvLogFacts(t);
    forall k | 0 <= k < |own|
      ensures AcceptedBy(fd, own[k]) == []
    {
      assert own[k] in own;
      OwnIsOfCall(s, t, start, ops, results, own[k]);
    }
    LogWritesNothing(fd, own);
  }

  /** What a batch of writes pushed is known by its ids. */
  lemma NewIsOwnWrite(s: State, t: State, start: Id, fd: int, chunks: seq<seq<byte>>, counts: seq<int>, d: Done)
    requires LogFacts(t.hist) && CallDone(s, t, start, WriteOps(fd, chunks), counts)
    requires d in t.hist.log && d.entry.id !in s.hist.pushed
    ensures d.entry.id in IdRange(start, |chunks|) && WritesTo(fd, d)
  {
    hide Called;
    CallGrowsLog(s, t, start, WriteOps(fd, chunks), counts);
    LoggedWasPushed(t.hist, d);
  }

  lemma OrderlyIsInOrder(s: State, t: State, start: Id, fd: int, chunks: seq<seq<byte>>, counts: seq<int>,
                         after: seq<Call>)
    requires LogFacts(t.hist) && CallDone(s, t, start, WriteOps(fd, chunks), counts) && s.hist.log <= t.hist.log
    requires Call(IdRange(start, |chunks|), true) in after && BatchesInOrder(t.hist.log, after, fd)
    ensures InOrder(s, Ran(s, t))
  {
    hide Called, LogFacts, WritesTo;
    var log, m := Ran(s, t), |s.hist.log|;
    forall i, j | 0 <= i < j < |log| && log[i].entry.id !in s.hist.pushed && log[j].entry.id !in s.hist.pushed
      ensures log[i].entry.id < log[j].entry.id
    {
      assert log[i] == t.hist.log[m + i] && log[j] == t.hist.log[m + j];
      NewIsOwnWrite(s, t, start, fd, chunks, counts, log[i]);
      NewIsOwnWrite(s, t, start, fd, chunks, counts, log[j]);
    }
  }

  /** A finished batch of writes: whatever stale operations run during it, what the ring puts into the file
      is the counted prefix of each chunk, in order. */
  lemma {:induction false} WritesWhatItReturns(s: State, t: State, calls: seq<Call>, start: Id, fd: int,
                                               chunks: seq<seq<byte>>, counts: seq<int>, after: seq<Call>)
    requires Inv(s) && Inv(t) && CallDone(s, t, start, WriteOps(fd, chunks), counts) && s.hist.log <= t.hist.log
    requires Boundary(s.hist, calls) && after == calls + [Call(IdRange(start, |chunks|), true)]
    requires Orderly(t.hist.log, after, fd)
    requires forall i | 0 <= i < |counts| :: counts[i] >= 0
    ensures Counted(chunks, counts) && Accepted(fd, Ran(s, t)) == Joined(Prefixes(chunks, counts))
  {
    hide Inv, Called, Boundary, LogFacts, Gather, Accepted, InOrder;
    InvLogFacts(t);
    OthersWriteNothing(s, t, calls, start, WriteOps(fd, chunks), |chunks|, counts, after, fd);
    OwnAccepts(fd, Ran(s, t), start, |chunks|);
    var perm := WriteBatchAccepts(s, t, start, fd, chunks, counts);
    assert after[|calls|] in after;
    OrderlyIsInOrder(s, t, start, fd, chunks, counts, after);
    CallRanInOrder(s, t, start, WriteOps(fd, chunks), counts);
    GatherInOrder(Prefixes(chunks, counts), |chunks|);
    assert Prefixes(chunks, counts)[..|chunks|] == Prefixes(chunks, counts);
  }

  /** A call of reads, finished or not. */
  lemma ReadCallAccount(s: State, t: State, calls: seq<Call>, start: Id, ops: seq<Op>, p: nat, results: seq<int>,
                        ok: bool, after: seq<Call>, fd: int)
    requires Inv(s) && Inv(t) && Called(s, t, start, ops, p, results) && s.hist.log <= t.hist.log
    requires Boundary(s.hist, calls) && after == calls + [Call(IdRange(start, p), ok)]
    requires (ok ==> p == |results| == |ops|) && forall i | 0 <= i < |ops| :: ops[i].Read?
    ensures Orderly(t.hist.log, after, fd) ==> Accepted(fd, Ran(s, t)) == []
  {
    hide Inv, Called, Boundary, Orderly;
    if Orderly(t.hist.log, after, fd) {
      if ok {
        ReadsWriteNothing(s, t, calls, start, ops, results, after, fd);
      } else {
        FailedCallWritesNothing(s, t, calls, start, ops, p, results, after, fd);
      }
    }
  }

  /** A call of writes, finished or not. */
  lemma WriteCallAccount(s: State, t: State, calls: seq<Call>, start: Id, fd: int, chunks: seq<seq<byte>>, p: nat,
                         counts: seq<int>, ok: bool, after: seq<Call>)
    requires Inv(s) && Inv(t) && Called(s, t, start, WriteOps(fd, chunks), p, counts) && s.hist.log <= t.hist.log
    requires Boundary(s.hist, calls) && after == calls + [Call(IdRange(start, p), ok)]
    requires ok ==> p == |counts| == |chunks| && forall i | 0 <= i < |counts| :: counts[i] >= 0
    ensures ok && Orderly(t.hist.log, after, fd) ==>
              Counted(chunks, counts) && Accepted(fd, Ran(s, t)) == Joined(Prefixes(chunks, counts))
    ensures !ok && Orderly(t.hist.log, after, fd) ==> Accepted(fd, Ran(s, t)) == []
  {
    hide Inv, Called, Boundary, Orderly, Joined, Prefixes;
    if Orderly(t.hist.log, after, fd) {
      if ok {
        WritesWhatItReturns(s, t, calls, start, fd, chunks, counts, after);
      } else {
        FailedCallWritesNothing(s, t, calls, start, WriteOps(fd, chunks), p, counts, after, fd);
      }
    }
  }

  lemma OneIsItsPrefix(data: seq<byte>, n: nat)
    requires n <= |data|
    ensures Counted([data], [n]) && Joined(Prefixes([data], [n])) == data[..n]
  {
    assert Prefixes([data], [n]) == [data[..n]];
    assert [data[..n]][..0] == [];
  }

  /** A call of one write, finished or not. */
  lemma WriteOneAccount(s: State, t: State, calls: seq<Call>, start: Id, fd: int, data: seq<byte>, p: nat,
                        results: seq<int>, ok: bool, after: seq<Call>)
    requires Inv(s) && Inv(t) && Called(s, t, start, [WriteOp(fd, data)], p, results) && s.hist.log <= t.hist.log
    requires Boundary(s.hist, calls) && after == calls + [Call(IdRange(start, p), ok)]
    requires ok ==> p == |results| == 1 && 0 <= results[0] <= |data|
    ensures Orderly(t.hist.log, after, fd) ==> Accepted(fd, Ran(s, t)) == if ok then data[..results[0]] else []
  {
    hide Inv, Called, Boundary, Orderly, Accepted;
    assert WriteOps(fd, [data]) == [WriteOp(fd, data)];
    WriteCallAccount(s, t, calls, start, fd, [data], p, results, ok, after);
    if ok {
      assert results == [results[0]];
      OneIsItsPrefix(data, results[0]);
    }
  }
}
