/**
 What the kernel ran while a call was under way: the call's own operations, and whatever entries earlier,
 failed calls had left behind in the ring.
 */
module RanDuring {
  import opened IoTypes
  import opened RingProtocol
  import opened FileModel
  import opened Calls

  // --- Which operations ran during a call ---

  /** Nothing is waiting to run. */
  predicate Quiet(s: State) {
    s.sq == [] && s.inflight == {}
  }

  /** What the kernel carried out between two states. */
  function Ran(s: State, t: State): seq<Done>
    requires s.hist.log <= t.hist.log
  {
    t.hist.log[|s.hist.log|..]
  }

  /** The part of the invariant that relates the log to the other records. */
  ghost predicate LogFacts(h: History) {
    && (forall d | d in h.log :: d.entry.id in h.posted && h.posted[d.entry.id] == d)
    && (forall id | id in h.posted ::
          h.posted[id] in h.log && id in h.pushed && h.posted[id].entry == Entry(id, h.pushed[id]))
    && (forall i, j | 0 <= i < j < |h.log| :: h.log[i].entry.id != h.log[j].entry.id)
  }

  lemma InvLogFacts(s: State)
    requires Inv(s)
    ensures LogFacts(s.hist) && Honest(s.hist)
  {
  }

  /** The operations of a finished call ran during it, each with the result the call took. */
  lemma CallRan(s: State, t: State, start: Id, ops: seq<Op>, results: seq<int>, i: nat)
    requires LogFacts(s.hist) && LogFacts(t.hist) && Honest(t.hist)
    requires CallDone(s, t, start, ops, results) && s.hist.log <= t.hist.log && i < |ops|
    ensures start + i in t.hist.posted && t.hist.posted[start + i] in Ran(s, t)
    ensures t.hist.posted[start + i].entry == Entry(start + i, ops[i]) && t.hist.posted[start + i].res == results[i]
    ensures WellFormed(t.hist.posted[start + i])
  {
    hide Called, Honest, LogFacts;
    CallResults(s, t, start, ops, |ops|, results, i);
    CallIdsAreNew(s, t, start, ops, results, i);
    PostedSince(s, t, start + i);
  }

  lemma CallIdsAreNew(s: State, t: State, start: Id, ops: seq<Op>, results: seq<int>, i: nat)
    requires CallDone(s, t, start, ops, results) && i < |ops|
    ensures start + i !in s.hist.pushed
  {
    assert start + i in IdRange(start, |ops|);
  }

  lemma PostedSince(s: State, t: State, id: Id)
    requires LogFacts(s.hist) && LogFacts(t.hist) && s.hist.log <= t.hist.log
    requires id !in s.hist.pushed && id in t.hist.posted
    ensures t.hist.posted[id] in Ran(s, t)
  {
    assert t.hist.log == s.hist.log + Ran(s, t);
    assert t.hist.posted[id] !in s.hist.log;
  }

  /** What ran since `s` had not been posted in `s`, and ran once. */
  lemma RanIsNew(s: State, t: State, k: nat)
    requires LogFacts(s.hist) && LogFacts(t.hist) && s.hist.log <= t.hist.log && k < |Ran(s, t)|
    ensures Ran(s, t)[k].entry.id !in s.hist.posted
    ensures Ran(s, t)[k] in t.hist.log
    ensures forall j | 0 <= j < k :: Ran(s, t)[j].entry.id != Ran(s, t)[k].entry.id
  {
    var m := |s.hist.log|;
    assert Ran(s, t)[k] == t.hist.log[m + k];
    assert forall j | 0 <= j < k :: Ran(s, t)[j] == t.hist.log[m + j];
    forall id | id in s.hist.posted
      ensures id != Ran(s, t)[k].entry.id
    {
      var j :| 0 <= j < m && s.hist.log[j] == s.hist.posted[id];
      assert t.hist.log[j] == s.hist.log[j];
    }
  }

  lemma CallGrowsLog(s: State, t: State, start: Id, ops: seq<Op>, results: seq<int>)
    requires CallDone(s, t, start, ops, results)
    ensures s.hist.log <= t.hist.log && |results| == |ops|
    ensures t.hist.pushed == s.hist.pushed + Batch(start, ops)
  {
    assert ops[..|ops|] == ops;
  }

  /** `d` is an operation of the call, with the result the call took. */
  ghost predicate OfCall(d: Done, start: Id, ops: seq<Op>, results: seq<int>) {
    && start <= d.entry.id < start + |ops| && |results| == |ops|
    && d.entry.op == ops[d.entry.id - start] && d.res == results[d.entry.id - start]
  }

  // --- What was waiting ---

  /** An operation that neither writes to `fd` nor moves its position. */
  predicate Harmless(op: Op, fd: int) {
    match op
    case Read(r, offset, _) => r != fd || offset != CURRENT
    case Write(w, _) => w != fd
    case Splice(fdIn, fdOut, _) => fdIn != fd && fdOut != fd
  }

  /** Everything waiting to run is harmless to `fd`. */
  ghost predicate Idle(s: State, fd: int) {
    (forall e | e in s.sq :: Harmless(e.op, fd)) && (forall e | e in s.inflight :: Harmless(e.op, fd))
  }

  ghost predicate Waiting(s: State, e: Entry) {
    e in s.sq || e in s.inflight
  }

  lemma UnpostedIsWaiting(s: State, id: Id)
    requires Inv(s) && id in s.hist.pushed
    ensures id in s.hist.posted <==> !Waiting(s, Entry(id, s.hist.pushed[id]))
  {
    assert Places(s, id) == 1;
  }

  lemma WaitingIsUnposted(s: State, e: Entry)
    requires Inv(s) && Waiting(s, e)
    ensures e.id in s.hist.pushed && s.hist.pushed[e.id] == e.op && e.id !in s.hist.posted
  {
    assert e.id in s.hist.pushed && s.hist.pushed[e.id] == e.op;
    UnpostedIsWaiting(s, e.id);
  }

  /** An entry of the call itself. */
  ghost predicate IsOwn(e: Entry, start: Id, ops: seq<Op>, p: nat) {
    start <= e.id < start + p && p <= |ops| && e.op == ops[e.id - start]
  }

  lemma PushedFrom(s: State, t: State, start: Id, ops: seq<Op>, p: nat, results: seq<int>, id: Id)
    requires Called(s, t, start, ops, p, results) && id in t.hist.pushed
    ensures (id in s.hist.pushed && t.hist.pushed[id] == s.hist.pushed[id])
            || IsOwn(Entry(id, t.hist.pushed[id]), start, ops, p)
    ensures id !in t.hist.posted ==> id !in s.hist.posted
    ensures s.hist.log <= t.hist.log
  {
  }

  /** What runs during a call was waiting before it or is its own. */
  lemma RanFrom(s: State, t: State, start: Id, ops: seq<Op>, p: nat, results: seq<int>, k: nat)
    requires Inv(s) && Inv(t) && Called(s, t, start, ops, p, results) && s.hist.log <= t.hist.log && k < |Ran(s, t)|
    ensures Waiting(s, Ran(s, t)[k].entry) || IsOwn(Ran(s, t)[k].entry, start, ops, p)
  {
    hide Inv, Called, LogFacts, Honest, Waiting, IsOwn;
    InvLogFacts(s);
    InvLogFacts(t);
    RanIsNew(s, t, k);
    var id := Ran(s, t)[k].entry.id;
    LoggedWasPushed(t.hist, Ran(s, t)[k]);
    PushedFrom(s, t, start, ops, p, results, id);
    if id in s.hist.pushed {
      UnpostedIsWaiting(s, id);
    }
  }

  lemma LoggedWasPushed(h: History, d: Done)
    requires LogFacts(h) && d in h.log
    ensures d.entry.id in h.pushed && d.entry == Entry(d.entry.id, h.pushed[d.entry.id])
  {
  }

  /** What is waiting after a call was waiting before it or is its own. */
  lemma WaitingFrom(s: State, t: State, start: Id, ops: seq<Op>, p: nat, results: seq<int>, e: Entry)
    requires Inv(s) && Inv(t) && Called(s, t, start, ops, p, results) && Waiting(t, e)
    ensures Waiting(s, e) || IsOwn(e, start, ops, p)
  {
    hide Inv, Called, Waiting, IsOwn;
    WaitingIsUnposted(t, e);
    PushedFrom(s, t, start, ops, p, results, e.id);
    if e.id in s.hist.pushed {
      UnpostedIsWaiting(s, e.id);
    }
  }

  /** A call that finished leaves nothing of its own waiting. */
  lemma DoneIsNotWaiting(s: State, t: State, start: Id, ops: seq<Op>, results: seq<int>, e: Entry)
    requires Inv(t) && CallDone(s, t, start, ops, results) && Waiting(t, e)
    ensures !IsOwn(e, start, ops, |ops|)
  {
    hide Inv, Called, Waiting;
    WaitingIsUnposted(t, e);
    if IsOwn(e, start, ops, |ops|) {
      InvIsHonest(t);
      CallResults(s, t, start, ops, |ops|, results, e.id - start);
    }
  }

  /** From a quiet ring, a finished call leaves a quiet ring. */
  lemma {:induction false} DoneKeepsQuiet(s: State, t: State, start: Id, ops: seq<Op>, results: seq<int>)
    requires Inv(s) && Inv(t) && Quiet(s) && CallDone(s, t, start, ops, results)
    ensures Quiet(t)
  {
    hide Inv, Called, IsOwn;
    if !Quiet(t) {
      var e := SomethingWaits(t);
      WaitingFrom(s, t, start, ops, |ops|, results, e);
      DoneIsNotWaiting(s, t, start, ops, results, e);
    }
  }

  lemma SomethingWaits(s: State) returns (e: Entry)
    requires !Quiet(s)
    ensures Waiting(s, e)
  {
    if s.sq != [] {
      e := s.sq[0];
    } else {
      e :| e in s.inflight;
    }
  }

  /** A call of harmless operations, finished or not, keeps an idle ring idle. */
  lemma CallKeepsIdle(s: State, t: State, start: Id, ops: seq<Op>, p: nat, results: seq<int>, fd: int)
    requires Inv(s) && Inv(t) && Called(s, t, start, ops, p, results) && Idle(s, fd)
    requires forall i | 0 <= i < |ops| :: Harmless(ops[i], fd)
    ensures Idle(t, fd)
  {
    hide Inv, Called, Harmless;
    forall e | Waiting(t, e)
      ensures Harmless(e.op, fd)
    {
      WaitingFrom(s, t, start, ops, p, results, e);
    }
    assert forall e | e in t.sq :: Waiting(t, e);
    assert forall e | e in t.inflight :: Waiting(t, e);
  }

  /** So does any finished call. */
  lemma {:induction false} DoneKeepsIdle(s: State, t: State, start: Id, ops: seq<Op>, results: seq<int>, fd: int)
    requires Inv(s) && Inv(t) && CallDone(s, t, start, ops, results) && Idle(s, fd)
    ensures Idle(t, fd)
  {
    hide Inv, Called, Harmless, IsOwn;
    forall e | Waiting(t, e)
      ensures Harmless(e.op, fd)
    {
      WaitingFrom(s, t, start, ops, |ops|, results, e);
      DoneIsNotWaiting(s, t, start, ops, results, e);
    }
    assert forall e | e in t.sq :: Waiting(t, e);
    assert forall e | e in t.inflight :: Waiting(t, e);
  }

  lemma {:induction false} HarmlessLog(f: File, log: seq<Done>)
    requires CanRunAll(f, log) && forall d | d in log :: Harmless(d.entry.op, f.fd)
    ensures RunAll(f, log) == f && Accepted(f.fd, log) == []
  {
    if log != [] {
      var n := |log| - 1;
      assert forall d | d in log[..n] :: d in log;
      HarmlessLog(f, log[..n]);
      assert log[n] in log;
    }
  }

  /** A call of harmless operations on an idle ring leaves the file and its position as they were,
      whatever it returns and whatever stale entries run meanwhile. */
  lemma {:induction false} HarmlessCall(s: State, t: State, f: File, g: File, start: Id, ops: seq<Op>, p: nat,
                                        results: seq<int>)
    requires Inv(s) && Inv(t) && Called(s, t, start, ops, p, results) && Idle(s, f.fd)
    requires Advances(f, s.hist.log, g, t.hist.log)
    requires forall i | 0 <= i < |ops| :: Harmless(ops[i], f.fd)
    ensures g == f && Accepted(f.fd, Ran(s, t)) == [] && Idle(t, f.fd)
    ensures forall d | d in Ran(s, t) :: Harmless(d.entry.op, f.fd)
  {
    hide Inv, Called, Harmless, RunAll, CanRunAll, Accepted;
    forall d | d in Ran(s, t)
      ensures Harmless(d.entry.op, f.fd)
    {
      var k :| 0 <= k < |Ran(s, t)| && Ran(s, t)[k] == d;
      RanFrom(s, t, start, ops, p, results, k);
    }
    HarmlessLog(f, Ran(s, t));
    CallKeepsIdle(s, t, start, ops, p, results, f.fd);
  }

  // --- The call's own part of what ran ---

  /** The operations with one of the `n` ids from `start`. */
  function Own(log: seq<Done>, start: Id, n: nat): seq<Done> {
    if log == [] then []
    else
      var k := |log| - 1;
      var before := Own(log[..k], start, n);
      if start <= log[k].entry.id < start + n then before + [log[k]] else before
  }

  lemma {:induction false} OwnHas(log: seq<Done>, start: Id, n: nat, d: Done)
    ensures d in Own(log, start, n) <==> d in log && start <= d.entry.id < start + n
  {
    if log != [] {
      var k := |log| - 1;
      OwnHas(log[..k], start, n, d);
      assert d in log <==> d in log[..k] || d == log[k];
    }
  }

  ghost predicate DistinctIds(log: seq<Done>) {
    forall i, j | 0 <= i < j < |log| :: log[i].entry.id != log[j].entry.id
  }

  lemma {:induction false} OwnDistinct(log: seq<Done>, start: Id, n: nat)
    requires DistinctIds(log)
    ensures DistinctIds(Own(log, start, n))
  {
    if log != [] {
      var k := |log| - 1;
      OwnDistinct(log[..k], start, n);
      var before := Own(log[..k], start, n);
      forall i | 0 <= i < |before|
        ensures before[i].entry.id != log[k].entry.id
      {
        OwnHas(log[..k], start, n, before[i]);
        assert before[i] in log[..k];
      }
    }
  }

  /** The operations pushed since `s` completed in the order they were pushed. */
  ghost predicate InOrder(s: State, log: seq<Done>) {
    forall i, j | 0 <= i < j < |log| && log[i].entry.id !in s.hist.pushed && log[j].entry.id !in s.hist.pushed ::
      log[i].entry.id < log[j].entry.id
  }

  ghost predicate Ascends(log: seq<Done>) {
    forall i, j | 0 <= i < j < |log| :: log[i].entry.id < log[j].entry.id
  }

  lemma {:induction false} OwnAscends(s: State, log: seq<Done>, start: Id, n: nat)
    requires InOrder(s, log) && IdRange(start, n) !! s.hist.pushed.Keys
    ensures Ascends(Own(log, start, n))
  {
    if log != [] {
      var k := |log| - 1;
      OwnAscends(s, log[..k], start, n);
      var before := Own(log[..k], start, n);
      if start <= log[k].entry.id < start + n {
        assert log[k].entry.id in IdRange(start, n);
        forall i | 0 <= i < |before|
          ensures before[i].entry.id < log[k].entry.id
        {
          OwnHas(log[..k], start, n, before[i]);
          var j :| 0 <= j < k && log[j] == before[i];
          assert log[j].entry.id in IdRange(start, n);
        }
      }
    }
  }

  /** Everything in the log outside these ids leaves the file alone. */
  ghost predicate OthersHarmless(log: seq<Done>, start: Id, n: nat, fd: int) {
    forall k | 0 <= k < |log| && !(start <= log[k].entry.id < start + n) :: Harmless(log[k].entry.op, fd)
  }

  lemma HarmlessRun(f: File, d: Done)
    requires CanRun(f, d) && Harmless(d.entry.op, f.fd)
    ensures Run(f, d) == f && AcceptedBy(f.fd, d) == [] && ReturnedBy(f.fd, d) == []
  {
  }

  /** So the log does to the file what the call's own part of it does. */
  lemma {:induction false} OwnRuns(f: File, log: seq<Done>, start: Id, n: nat)
    requires CanRunAll(f, log) && OthersHarmless(log, start, n, f.fd)
    ensures var own := Own(log, start, n);
            && CanRunAll(f, own) && RunAll(f, own) == RunAll(f, log)
            && Accepted(f.fd, own) == Accepted(f.fd, log) && Returned(f.fd, own) == Returned(f.fd, log)
  {
    hide CanRun, Run, AcceptedBy, ReturnedBy, Harmless;
    if log != [] {
      var k := |log| - 1;
      OwnRuns(f, log[..k], start, n);
      RunAllKeepsDescriptor(f, log[..k]);
      var before := Own(log[..k], start, n);
      if start <= log[k].entry.id < start + n {
        assert (before + [log[k]])[..|before|] == before;
      } else {
        assert Harmless(log[k].entry.op, f.fd);
        HarmlessRun(RunAll(f, log[..k]), log[k]);
      }
    }
  }

  /** Everything in the log outside these ids put nothing into the file. */
  ghost predicate OthersAcceptNothing(log: seq<Done>, start: Id, n: nat, fd: int) {
    forall k | 0 <= k < |log| && !(start <= log[k].entry.id < start + n) :: AcceptedBy(fd, log[k]) == []
  }

  /** Then what the log put there is what the call's own part of it did. */
  lemma {:induction false} OwnAccepts(fd: int, log: seq<Done>, start: Id, n: nat)
    requires OthersAcceptNothing(log, start, n, fd)
    ensures Accepted(fd, Own(log, start, n)) == Accepted(fd, log)
  {
    hide AcceptedBy;
    if log != [] {
      var k := |log| - 1;
      OwnAccepts(fd, log[..k], start, n);
      var before := Own(log[..k], start, n);
      if start <= log[k].entry.id < start + n {
        assert (before + [log[k]])[..|before|] == before;
      }
    }
  }

  lemma RanDistinct(s: State, t: State)
    requires LogFacts(s.hist) && LogFacts(t.hist) && s.hist.log <= t.hist.log
    ensures DistinctIds(Ran(s, t))
  {
    forall j, k | 0 <= j < k < |Ran(s, t)|
      ensures Ran(s, t)[j].entry.id != Ran(s, t)[k].entry.id
    {
      RanIsNew(s, t, k);
    }
  }

  /** On an idle ring nothing but the call itself touches the file. */
  lemma CallOthersHarmless(s: State, t: State, start: Id, ops: seq<Op>, p: nat, results: seq<int>, fd: int)
    requires Inv(s) && Inv(t) && Called(s, t, start, ops, p, results) && Idle(s, fd) && s.hist.log <= t.hist.log
    ensures OthersHarmless(Ran(s, t), start, p, fd)
  {
    hide Inv, Called, Harmless;
    forall k | 0 <= k < |Ran(s, t)| && !(start <= Ran(s, t)[k].entry.id < start + p)
      ensures Harmless(Ran(s, t)[k].entry.op, fd)
    {
      RanFrom(s, t, start, ops, p, results, k);
    }
  }

  lemma LoggedIsPosted(h: History, d: Done)
    requires LogFacts(h) && d in h.log
    ensures d.entry.id in h.posted && h.posted[d.entry.id] == d
  {
  }

  /** The call's own operations that ran, each with the result the call took. */
  lemma OwnIsOfCall(s: State, t: State, start: Id, ops: seq<Op>, results: seq<int>, d: Done)
    requires LogFacts(s.hist) && LogFacts(t.hist) && Honest(t.hist)
    requires CallDone(s, t, start, ops, results) && s.hist.log <= t.hist.log
    requires d in Own(Ran(s, t), start, |ops|)
    ensures OfCall(d, start, ops, results) && WellFormed(d)
    ensures d.entry.id in t.hist.posted && t.hist.posted[d.entry.id] == d
  {
    hide Called, Honest, LogFacts;
    OwnHas(Ran(s, t), start, |ops|, d);
    LoggedIsPosted(t.hist, d);
    CallRan(s, t, start, ops, results, d.entry.id - start);
    CallGrowsLog(s, t, start, ops, results);
  }
}
