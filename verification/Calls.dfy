/** What one call into the engine leaves behind in the history of its thread's ring. */
module Calls {
  import opened IoTypes
  import opened RingProtocol
  import opened FileModel

  function Entries(start: Id, ops: seq<Op>): seq<Entry> {
    seq(|ops|, i requires 0 <= i < |ops| => Entry(start + i, ops[i]))
  }

  function IdRange(start: Id, n: nat): (ids: set<Id>)
    ensures forall id :: id in ids <==> start <= id < start + n
  {
    if n == 0 then {} else IdRange(start, n - 1) + {start + n - 1}
  }

  function Batch(start: Id, ops: seq<Op>): map<Id, Op> {
    map id | id in IdRange(start, |ops|) :: ops[id - start]
  }

  function Results(start: Id, results: seq<int>): map<Id, int> {
    map id | id in IdRange(start, |results|) :: results[id - start]
  }

  /** A call pushed the first `p` of its operations, in order, under consecutive fresh ids from
      `start`, and took the results of the first |results| of them; nothing else was pushed or taken. */
  ghost predicate Called(s: State, t: State, start: Id, ops: seq<Op>, p: nat, results: seq<int>) {
    && |results| <= p <= |ops|
    && IdRange(start, |ops|) !! s.hist.pushed.Keys
    && t.hist.order == s.hist.order + Entries(start, ops[..p])
    && t.hist.pushed == s.hist.pushed + Batch(start, ops[..p])
    && t.hist.taken == s.hist.taken + Results(start, results)
    && Extends(s.hist, t.hist)
  }

  /** A call that pushed all its operations and took all their results. */
  ghost predicate CallDone(s: State, t: State, start: Id, ops: seq<Op>, results: seq<int>) {
    Called(s, t, start, ops, |ops|, results) && |results| == |ops|
  }

  /** Every result handed back is the one the kernel posted for the entry pushed under its id. */
  ghost predicate Honest(h: History) {
    forall id | id in h.taken ::
      && id in h.pushed && id in h.posted
      && h.posted[id].res == h.taken[id]
      && h.posted[id].entry == Entry(id, h.pushed[id])
      && WellFormed(h.posted[id])
  }

  lemma InvIsHonest(s: State)
    requires Inv(s)
    ensures Honest(s.hist)
  {
  }

  /** So the i-th result of a call is the result of its i-th operation. */
  lemma {:induction false} CallResults(s: State, t: State, start: Id, ops: seq<Op>, p: nat, results: seq<int>, i: nat)
    requires Called(s, t, start, ops, p, results) && Honest(t.hist) && i < |results|
    ensures start + i in t.hist.posted
    ensures t.hist.posted[start + i].entry == Entry(start + i, ops[i])
    ensures t.hist.posted[start + i].res == results[i]
    ensures WellFormed(t.hist.posted[start + i])
  {
    assert start + i in Results(start, results);
    assert t.hist.taken[start + i] == results[i];
    assert start + i in Batch(start, ops[..p]);
  }

  // A call grows one push and one result at a time.

  lemma CallStarts(s: State, t: State, start: Id, ops: seq<Op>)
    requires IdRange(start, |ops|) !! s.hist.pushed.Keys
    requires t.hist == s.hist.(owned := t.hist.owned)
    ensures Called(s, t, start, ops, 0, [])
  {
    assert s.hist.order + Entries(start, ops[..0]) == s.hist.order;
  }

  lemma ExtendsTwice(a: History, b: History, c: History)
    requires Extends(a, b) && Extends(b, c)
    ensures Extends(a, c)
  {
  }

  lemma BatchGrows(start: Id, ops: seq<Op>, p: nat)
    requires p < |ops|
    ensures Batch(start, ops[..p + 1]) == Batch(start, ops[..p])[start + p := ops[p]]
    ensures Entries(start, ops[..p + 1]) == Entries(start, ops[..p]) + [Entry(start + p, ops[p])]
  {
    var b, c := Batch(start, ops[..p + 1]), Batch(start, ops[..p])[start + p := ops[p]];
    assert b.Keys == c.Keys;
    assert forall id | id in b :: b[id] == c[id];
  }

  lemma ResultsGrow(start: Id, results: seq<int>, v: int)
    ensures Results(start, results + [v]) == Results(start, results)[start + |results| := v]
  {
    var b, c := Results(start, results + [v]), Results(start, results)[start + |results| := v];
    assert b.Keys == c.Keys;
    assert forall id | id in b :: b[id] == c[id];
  }

  lemma MapGrows<V>(m: map<Id, V>, b: map<Id, V>, k: Id, v: V)
    ensures m + b[k := v] == (m + b)[k := v]
  {
  }

  lemma CallPushes(s: State, t: State, u: State, start: Id, ops: seq<Op>, p: nat)
    requires Called(s, t, start, ops, p, []) && p < |ops| && Extends(t.hist, u.hist)
    requires u.hist.order == t.hist.order + [Entry(start + p, ops[p])]
    requires u.hist.pushed == t.hist.pushed[start + p := ops[p]] && u.hist.taken == t.hist.taken
    ensures Called(s, u, start, ops, p + 1, [])
  {
    hide Extends, Batch, Entries;
    ExtendsTwice(s.hist, t.hist, u.hist);
    BatchGrows(start, ops, p);
    MapGrows(s.hist.pushed, Batch(start, ops[..p]), start + p, ops[p]);
  }

  /** Counting a call from before its ids were taken. */
  lemma CallAfterIds(s: State, t: State, u: State, start: Id, ops: seq<Op>, p: nat)
    requires Called(t, u, start, ops, p, [])
    requires t.hist == s.hist.(owned := t.hist.owned)
    ensures Called(s, u, start, ops, p, [])
  {
  }

  lemma CallWaits(s: State, t: State, u: State, start: Id, ops: seq<Op>, p: nat, results: seq<int>)
    requires Called(s, t, start, ops, p, results) && Extends(t.hist, u.hist)
    requires u.hist.order == t.hist.order && u.hist.pushed == t.hist.pushed && u.hist.taken == t.hist.taken
    ensures Called(s, u, start, ops, p, results)
  {
  }

  /** Time without a call is an empty call. */
  lemma NothingPushed(s: State, t: State)
    requires Extends(s.hist, t.hist)
    requires t.hist.order == s.hist.order && t.hist.pushed == s.hist.pushed && t.hist.taken == s.hist.taken
    ensures Called(s, t, 0, [], 0, [])
  {
    CallStarts(s, s, 0, []);
    CallWaits(s, s, t, 0, [], 0, []);
  }

  lemma CallTakes(s: State, t: State, u: State, start: Id, ops: seq<Op>, p: nat, results: seq<int>, v: int)
    requires Called(s, t, start, ops, p, results) && |results| < p && Extends(t.hist, u.hist)
    requires u.hist.order == t.hist.order && u.hist.pushed == t.hist.pushed
    requires u.hist.taken == t.hist.taken[start + |results| := v]
    ensures Called(s, u, start, ops, p, results + [v])
  {
    hide Extends, Batch, Entries, Results;
    ExtendsTwice(s.hist, t.hist, u.hist);
    ResultsGrow(start, results, v);
    MapGrows(s.hist.taken, Results(start, results), start + |results|, v);
  }

  /** The next operation of a call has been pushed and its result not been taken. */
  lemma CallPending(s: State, t: State, start: Id, ops: seq<Op>, p: nat, results: seq<int>)
    requires Called(s, t, start, ops, p, results) && |results| < p && s.hist.taken.Keys <= s.hist.pushed.Keys
    ensures start + |results| in t.hist.pushed && start + |results| !in t.hist.taken
  {
    assert start + |results| in IdRange(start, |ops|);
    assert start + |results| in Batch(start, ops[..p]);
  }

  // --- Buffers ---

  predicate Holds(h: History, id: Id, data: seq<byte>) {
    id in h.posted && h.posted[id].data == data
  }

  /** The first `n` buffers hold what the kernel put there. */
  ghost predicate Filled(h: History, start: Id, buffers: seq<seq<byte>>, n: nat) {
    n <= |buffers| && forall j | 0 <= j < n :: Holds(h, start + j, buffers[j])
  }

  lemma FilledExtends(h: History, g: History, start: Id, buffers: seq<seq<byte>>, n: nat)
    requires Filled(h, start, buffers, n) && Extends(h, g)
    ensures Filled(g, start, buffers, n)
  {
  }

  lemma FilledOne(h: History, start: Id, buffer: seq<byte>)
    requires Filled(h, start, [buffer], 1)
    ensures start in h.posted && buffer == h.posted[start].data
  {
    assert Holds(h, start + 0, [buffer][0]);
  }

  lemma FilledNext(h: History, start: Id, buffers: seq<seq<byte>>, n: nat, data: seq<byte>)
    requires Filled(h, start, buffers, n) && n < |buffers|
    requires start + n in h.posted && data == h.posted[start + n].data
    ensures Filled(h, start, buffers[n := data], n + 1)
  {
  }

  /** A buffer after the kernel wrote `data` to its front. */
  function Fill(buf: seq<byte>, data: seq<byte>): seq<byte> {
    if |data| <= |buf| then data + buf[|data|..] else data
  }

  /** Vec::truncate */
  function Truncate(buf: seq<byte>, n: nat): seq<byte> {
    if n < |buf| then buf[..n] else buf
  }

  lemma FillThenTruncate(buf: seq<byte>, data: seq<byte>)
    requires |data| <= |buf|
    ensures Truncate(Fill(buf, data), |data|) == data
  {
  }

  /** A read hands the kernel the low 32 bits of its size. */
  function ReadOp(fd: int, offset: nat, size: nat): Op {
    Read(fd, offset, size % U32)
  }

  /** A write hands the kernel the low 32 bits of its length. */
  function WriteOp(fd: int, bytes: seq<byte>): Op {
    Write(fd, bytes[..|bytes| % U32])
  }

  /** A read may be full, as long as its size fits a u32, and a write may be. */
  lemma FullTransfersCanRun(f: File, id: Id, offset: nat, size: nat, bytes: seq<byte>)
    ensures f.canRead && offset <= I64_MAX && size < U32 ==>
              var d := Slice(f.bytes, offset, size);
              CanRun(f, Done(Entry(id, ReadOp(f.fd, offset, size)), |d|, d))
    ensures f.canRead && size < U32 ==>
              var d := Slice(f.bytes, f.pos, size);
              CanRun(f, Done(Entry(id, ReadOp(f.fd, CURRENT, size)), |d|, d))
    ensures f.canWrite && |bytes| < U32 ==>
              var d := Done(Entry(id, WriteOp(f.fd, bytes)), |bytes|, []);
              CanRun(f, d) && Run(f, d) == WriteSome(f, bytes)
  {
    if |bytes| < U32 {
      assert bytes[..|bytes| % U32] == bytes && bytes[..|bytes|] == bytes;
    }
  }

  function ReadOps(fd: int, specs: seq<(nat, nat)>): seq<Op> {
    seq(|specs|, i requires 0 <= i < |specs| => ReadOp(fd, specs[i].0, specs[i].1))
  }

  function WriteOps(fd: int, chunks: seq<seq<byte>>): seq<Op> {
    seq(|chunks|, i requires 0 <= i < |chunks| => WriteOp(fd, chunks[i]))
  }

  /** The entries pushed between two push orders are those of `ops`, in order, or the first of them. */
  ghost predicate Pushed(before: seq<Entry>, after: seq<Entry>, ops: seq<Op>) {
    && before <= after && |after| <= |before| + |ops|
    && forall k | 0 <= k < |after| - |before| :: after[|before| + k].op == ops[k]
  }

  lemma CalledPushed(s: State, t: State, start: Id, ops: seq<Op>, p: nat, results: seq<int>)
    requires Called(s, t, start, ops, p, results)
    ensures Pushed(s.hist.order, t.hist.order, ops) && |t.hist.order| == |s.hist.order| + p
  {
  }

  // --- Leak accounting ---

  /** A finished call: the ids it pushed, and whether it returned a value rather than an error. */
  datatype Call = Call(ids: set<Id>, ok: bool)

  function AllIds(calls: seq<Call>): set<Id> {
    if calls == [] then {} else AllIds(calls[..|calls| - 1]) + calls[|calls| - 1].ids
  }

  /** What failed calls pushed, less what has been handed back. */
  function UnreadByFailed(calls: seq<Call>, taken: set<Id>): set<Id> {
    if calls == [] then {}
    else
      var c := calls[|calls| - 1];
      UnreadByFailed(calls[..|calls| - 1], taken) + (if c.ok then {} else c.ids - taken)
  }

  /** Between calls: everything pushed belongs to some finished call, and a call that returned a
      value has read all it pushed. */
  ghost predicate Boundary(h: History, calls: seq<Call>) {
    && h.pushed.Keys == AllIds(calls)
    && (forall c | c in calls && c.ok :: c.ids <= h.taken.Keys)
  }

  lemma {:induction false} UnreadSplit(calls: seq<Call>, taken: set<Id>)
    requires forall c | c in calls && c.ok :: c.ids <= taken
    ensures UnreadByFailed(calls, taken) == AllIds(calls) - taken
  {
    if calls != [] {
      var front, c := calls[..|calls| - 1], calls[|calls| - 1];
      assert forall b | b in front :: b in calls;
      UnreadSplit(front, taken);
      assert c in calls;
    }
  }

  /** What is left in the rings and the table between calls is exactly what calls that returned an
      error pushed and did not read. */
  lemma LeakAccounting(s: State, calls: seq<Call>)
    requires Inv(s) && Boundary(s.hist, calls)
    ensures Outstanding(s) == UnreadByFailed(calls, s.hist.taken.Keys)
  {
    OutstandingIsUnread(s);
    UnreadSplit(calls, s.hist.taken.Keys);
  }

  /** So if no call has failed, every queue and the table are empty. */
  lemma NoFailureNoLeak(s: State, calls: seq<Call>)
    requires Inv(s) && Boundary(s.hist, calls) && forall c | c in calls :: c.ok
    ensures s.sq == [] && s.inflight == {} && s.cq == [] && s.completed == map[]
  {
    LeakAccounting(s, calls);
    AllReadIfOk(calls, s.hist.taken.Keys);
    NoneOutstanding(s);
  }

  lemma NoneOutstanding(s: State)
    ensures Outstanding(s) == {} ==> s.sq == [] && s.inflight == {} && s.cq == [] && s.completed == map[]
  {
    assert s.sq != [] ==> s.sq[0].id in Outstanding(s);
    assert s.cq != [] ==> s.cq[0].id in Outstanding(s);
    assert forall e | e in s.inflight :: e.id in Outstanding(s);
    assert s.completed.Keys <= Outstanding(s);
  }

  lemma {:induction false} AllReadIfOk(calls: seq<Call>, taken: set<Id>)
    requires forall c | c in calls :: c.ok
    ensures UnreadByFailed(calls, taken) == {}
  {
    if calls != [] {
      assert forall b | b in calls[..|calls| - 1] :: b in calls;
      AllReadIfOk(calls[..|calls| - 1], taken);
    }
  }

  /** Every call keeps the accounting. */
  lemma {:induction false} CallKeepsBoundary(s: State, t: State, calls: seq<Call>, start: Id, ops: seq<Op>, p: nat,
                                             results: seq<int>, ok: bool)
    requires Boundary(s.hist, calls) && Called(s, t, start, ops, p, results)
    requires ok ==> |results| == |ops|
    ensures Boundary(t.hist, calls + [Call(IdRange(start, p), ok)])
  {
    var c := Call(IdRange(start, p), ok);
    assert (calls + [c])[..|calls|] == calls;
    assert Batch(start, ops[..p]).Keys == IdRange(start, p);
    assert Results(start, results).Keys == IdRange(start, |results|);
    forall b | b in calls + [c] && b.ok
      ensures b.ids <= t.hist.taken.Keys
    {
      assert b in calls || b == c;
    }
  }
}
