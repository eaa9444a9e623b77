/** What a finished batch call means for the file, whatever order the kernel ran it in. */
module BatchTheorems {
  import opened IoTypes
  import opened RingProtocol
  import opened FileModel
  import opened Calls
  import opened RanDuring

  // --- Permutations ---

  predicate Within(perm: seq<int>, n: nat) {
    forall k | 0 <= k < |perm| :: 0 <= perm[k] < n
  }

  /** `perm` lists 0..n-1, each once. */
  ghost predicate Permutes(perm: seq<int>, n: nat) {
    && Within(perm, n)
    && (forall i | 0 <= i < n :: i in perm)
    && Distinct(perm)
  }

  /** The pieces in the order `perm` lists them, joined. */
  function Gather(pieces: seq<seq<byte>>, perm: seq<int>): seq<byte>
    requires Within(perm, |pieces|)
  {
    if perm == [] then []
    else
      Gather(pieces, perm[..|perm| - 1]) + pieces[perm[|perm| - 1]]
  }

  function Total(pieces: seq<seq<byte>>): nat {
    if pieces == [] then 0 else Total(pieces[..|pieces| - 1]) + |pieces[|pieces| - 1]|
  }

  lemma {:induction false} GatherConcat(pieces: seq<seq<byte>>, a: seq<int>, b: seq<int>)
    requires Within(a, |pieces|) && Within(b, |pieces|)
    ensures Within(a + b, |pieces|)
    ensures Gather(pieces, a + b) == Gather(pieces, a) + Gather(pieces, b)
  {
    if b == [] {
      assert a + b == a;
    } else {
      var n := |b| - 1;
      GatherConcat(pieces, a, b[..n]);
      assert (a + b)[..|a + b| - 1] == a + b[..n] && (a + b)[|a + b| - 1] == b[n];
      WithinConcat(a, b, |pieces|);
      hide Within;
    }
  }

  lemma WithinConcat(a: seq<int>, b: seq<int>, n: nat)
    requires Within(a, n) && Within(b, n)
    ensures Within(a + b, n)
  {
  }

  lemma {:induction false} GatherFewer(pieces: seq<seq<byte>>, n: nat, perm: seq<int>)
    requires n <= |pieces| && Within(perm, n)
    ensures Within(perm, |pieces|) && Gather(pieces, perm) == Gather(pieces[..n], perm)
  {
    if perm != [] {
      GatherFewer(pieces, n, perm[..|perm| - 1]);
    }
  }

  ghost predicate Distinct(perm: seq<int>) {
    forall j, k | 0 <= j < k < |perm| :: perm[j] != perm[k]
  }

  lemma SpliceElement(perm: seq<int>, k: nat, j: nat)
    requires Distinct(perm) && k < |perm| && j < |perm[..k] + perm[k + 1..]|
    ensures var x := (perm[..k] + perm[k + 1..])[j];
            x == perm[if j < k then j else j + 1] && x != perm[k]
  {
  }

  lemma SpliceDistinct(perm: seq<int>, k: nat)
    requires Distinct(perm) && k < |perm|
    ensures Distinct(perm[..k] + perm[k + 1..])
  {
    var rest := perm[..k] + perm[k + 1..];
    forall i, j | 0 <= i < j < |rest|
      ensures rest[i] != rest[j]
    {
      SpliceElement(perm, k, i);
      SpliceElement(perm, k, j);
    }
  }

  lemma SpliceKeeps(perm: seq<int>, k: nat, x: int)
    requires k < |perm| && x in perm && x != perm[k]
    ensures x in perm[..k] + perm[k + 1..]
  {
    assert perm == perm[..k] + [perm[k]] + perm[k + 1..];
  }

  /** Take the largest element out. */
  lemma RemoveLast(perm: seq<int>, n: nat) returns (a: seq<int>, b: seq<int>)
    requires n >= 1 && Permutes(perm, n)
    ensures perm == a + [n - 1] + b && Permutes(a + b, n - 1) && Within(a, n) && Within(b, n)
  {
    assert n - 1 in perm;
    var k :| 0 <= k < |perm| && perm[k] == n - 1;
    a, b := perm[..k], perm[k + 1..];
    SpliceDistinct(perm, k);
    forall j | 0 <= j < |a + b|
      ensures 0 <= (a + b)[j] < n - 1
    {
      SpliceElement(perm, k, j);
    }
    forall i | 0 <= i < n - 1
      ensures i in a + b
    {
      SpliceKeeps(perm, k, i);
    }
    hide Distinct;
  }

  lemma GatherWithout(pieces: seq<seq<byte>>, a: seq<int>, x: nat, b: seq<int>)
    requires x < |pieces| && Within(a, |pieces|) && Within(b, |pieces|)
    ensures Within(a + [x] + b, |pieces|) && Within(a + b, |pieces|)
    ensures |Gather(pieces, a + [x] + b)| == |Gather(pieces, a + b)| + |pieces[x]|
  {
    assert Gather(pieces, [x]) == pieces[x];
    hide Gather;
    GatherConcat(pieces, a, [x]);
    GatherConcat(pieces, a + [x], b);
    GatherConcat(pieces, a, b);
  }

  lemma NoneWithinNothing(perm: seq<int>)
    ensures Within(perm, 0) ==> perm == []
  {
    if perm != [] {
      var first := perm[0];
      assert !(0 <= first < 0);
    }
  }

  /** However the pieces are ordered, together they are as long as the sum of their lengths. */
  lemma {:induction false} GatherLength(pieces: seq<seq<byte>>, perm: seq<int>)
    requires Permutes(perm, |pieces|)
    ensures |Gather(pieces, perm)| == Total(pieces) && |perm| == |pieces|
    decreases |pieces|
  {
    var n := |pieces|;
    if n == 0 {
      NoneWithinNothing(perm);
    } else {
      hide Gather;
      var a, b := RemoveLast(perm, n);
      hide Permutes;
      GatherLength(pieces[..n - 1], a + b);
      PermutesWithin(a + b, n - 1);
      GatherFewer(pieces, n - 1, a + b);
      GatherWithout(pieces, a, n - 1, b);
    }
  }

  lemma PermutesWithin(perm: seq<int>, n: nat)
    requires Permutes(perm, n)
    ensures Within(perm, n)
  {
  }

  function Iota(n: nat): seq<int> {
    seq(n, i => i)
  }

  predicate Increasing(perm: seq<int>) {
    forall j, k | 0 <= j < k < |perm| :: perm[j] < perm[k]
  }

  /** The only increasing permutation is the identity. */
  lemma {:induction false} IncreasingIsIota(perm: seq<int>, n: nat)
    requires Permutes(perm, n) && Increasing(perm)
    ensures perm == Iota(n)
  {
    if n == 0 {
      NoneWithinNothing(perm);
    } else {
      assert n - 1 in perm;
      var k :| 0 <= k < |perm| && perm[k] == n - 1;
      var last := |perm| - 1;
      assert perm[k] <= perm[last];
      forall i | 0 <= i < n - 1
        ensures i in perm[..last]
      {
        assert i in perm;
      }
      IncreasingIsIota(perm[..last], n - 1);
    }
  }

  function Joined(pieces: seq<seq<byte>>): seq<byte> {
    if pieces == [] then [] else Joined(pieces[..|pieces| - 1]) + pieces[|pieces| - 1]
  }

  lemma {:induction false} TotalIsJoined(pieces: seq<seq<byte>>)
    ensures Total(pieces) == |Joined(pieces)|
  {
    if pieces != [] {
      TotalIsJoined(pieces[..|pieces| - 1]);
    }
  }

  lemma {:induction false} GatherInOrder(pieces: seq<seq<byte>>, n: nat)
    requires n <= |pieces|
    ensures Within(Iota(n), |pieces|) && Gather(pieces, Iota(n)) == Joined(pieces[..n])
  {
    if n > 0 {
      GatherInOrder(pieces, n - 1);
      assert Iota(n)[..n - 1] == Iota(n - 1);
      assert pieces[..n][..n - 1] == pieces[..n - 1];
    }
  }

  /** The order in which the operations of a call ran. */
  function RunOrder(log: seq<Done>, start: Id): seq<int> {
    seq(|log|, k requires 0 <= k < |log| => log[k].entry.id - start)
  }

  lemma RunOrderLast(log: seq<Done>, start: Id)
    requires log != []
    ensures var n := |log| - 1;
            RunOrder(log, start) == RunOrder(log[..n], start) + [log[n].entry.id - start]
  {
  }

  lemma NothingGathered(pieces: seq<seq<byte>>, start: Id)
    ensures RunOrder([], start) == [] && Within([], |pieces|) && Gather(pieces, []) == []
  {
  }

  lemma GatherOneMore(pieces: seq<seq<byte>>, perm: seq<int>, x: int)
    requires Within(perm, |pieces|) && 0 <= x < |pieces|
    ensures Within(perm + [x], |pieces|)
    ensures Gather(pieces, perm + [x]) == Gather(pieces, perm) + pieces[x]
  {
    assert (perm + [x])[..|perm|] == perm;
  }

  ghost predicate AllOfCall(log: seq<Done>, start: Id, ops: seq<Op>, results: seq<int>) {
    |results| == |ops| && forall d | d in log :: OfCall(d, start, ops, results)
  }

  /** Whatever else runs during it, a finished call runs its own operations, each exactly once. */
  lemma {:induction false} CallRunsOnce(s: State, t: State, start: Id, ops: seq<Op>, results: seq<int>)
    requires Inv(s) && Inv(t) && CallDone(s, t, start, ops, results)
    ensures s.hist.log <= t.hist.log
    ensures var own := Own(Ran(s, t), start, |ops|);
            && AllOfCall(own, start, ops, results)
            && (forall d | d in own :: d.entry.id in t.hist.posted && t.hist.posted[d.entry.id] == d)
            && Permutes(RunOrder(own, start), |ops|)
  {
    hide Inv, Called, LogFacts, Honest;
    CallGrowsLog(s, t, start, ops, results);
    InvLogFacts(s);
    InvLogFacts(t);
    var own := Own(Ran(s, t), start, |ops|);
    forall d | d in own
      ensures OfCall(d, start, ops, results)
      ensures d.entry.id in t.hist.posted && t.hist.posted[d.entry.id] == d
    {
      OwnIsOfCall(s, t, start, ops, results, d);
    }
    RanDistinct(s, t);
    OwnDistinct(Ran(s, t), start, |ops|);
    forall i | 0 <= i < |ops|
      ensures i in RunOrder(own, start)
    {
      CallRan(s, t, start, ops, results, i);
      OwnHas(Ran(s, t), start, |ops|, t.hist.posted[start + i]);
      InRunOrder(own, start, t.hist.posted[start + i]);
    }
    OwnOrder(own, start, ops, results);
  }

  lemma InRunOrder(log: seq<Done>, start: Id, d: Done)
    requires d in log
    ensures d.entry.id - start in RunOrder(log, start)
  {
    var k :| 0 <= k < |log| && log[k] == d;
    assert RunOrder(log, start)[k] == d.entry.id - start;
  }

  lemma OwnOrder(own: seq<Done>, start: Id, ops: seq<Op>, results: seq<int>)
    requires AllOfCall(own, start, ops, results) && DistinctIds(own)
    ensures Within(RunOrder(own, start), |ops|) && Distinct(RunOrder(own, start))
  {
    forall k | 0 <= k < |own|
      ensures 0 <= own[k].entry.id - start < |ops|
    {
      assert own[k] in own;
    }
  }

  /** A call whose operations completed in the order they were pushed. */
  lemma CallRanInOrder(s: State, t: State, start: Id, ops: seq<Op>, results: seq<int>)
    requires Inv(s) && Inv(t) && CallDone(s, t, start, ops, results)
    requires s.hist.log <= t.hist.log && InOrder(s, Ran(s, t))
    ensures RunOrder(Own(Ran(s, t), start, |ops|), start) == Iota(|ops|)
  {
    hide Inv;
    CallRunsOnce(s, t, start, ops, results);
    OwnAscends(s, Ran(s, t), start, |ops|);
    IncreasingIsIota(RunOrder(Own(Ran(s, t), start, |ops|), start), |ops|);
  }

  // --- Batches of writes ---

  /** Every count is that of a prefix of its chunk. */
  predicate Counted(chunks: seq<seq<byte>>, counts: seq<int>) {
    |counts| == |chunks| && forall i | 0 <= i < |chunks| :: 0 <= counts[i] <= |chunks[i]|
  }

  /** The accepted prefix of each chunk. */
  function Prefixes(chunks: seq<seq<byte>>, counts: seq<int>): seq<seq<byte>>
    requires Counted(chunks, counts)
  {
    seq(|chunks|, i requires 0 <= i < |chunks| => chunks[i][..counts[i]])
  }

  function Sum(counts: seq<int>): int {
    if counts == [] then 0 else Sum(counts[..|counts| - 1]) + counts[|counts| - 1]
  }

  lemma {:induction false} TotalIsSum(chunks: seq<seq<byte>>, counts: seq<int>)
    requires Counted(chunks, counts)
    ensures Total(Prefixes(chunks, counts)) == Sum(counts)
  {
    if chunks != [] {
      var n := |chunks| - 1;
      TotalIsSum(chunks[..n], counts[..n]);
      assert Prefixes(chunks, counts)[..n] == Prefixes(chunks[..n], counts[..n]);
    }
  }

  /** The kernel never accepts more than the low 32 bits of a chunk's length. */
  lemma WriteCounts(s: State, t: State, start: Id, fd: int, chunks: seq<seq<byte>>, counts: seq<int>)
    requires Inv(s) && Inv(t) && CallDone(s, t, start, WriteOps(fd, chunks), counts)
    ensures |counts| == |chunks| && forall i | 0 <= i < |chunks| :: counts[i] <= |chunks[i]| % U32
  {
    hide Inv, LogFacts, Honest, Called;
    CallGrowsLog(s, t, start, WriteOps(fd, chunks), counts);
    InvLogFacts(s);
    InvLogFacts(t);
    forall i | 0 <= i < |chunks|
      ensures counts[i] <= |chunks[i]| % U32
    {
      CallRan(s, t, start, WriteOps(fd, chunks), counts, i);
    }
  }

  /** What `d` put into the file is the piece of its own operation, and it read nothing. */
  predicate Contributes(fd: int, d: Done, start: Id, pieces: seq<seq<byte>>) {
    && start <= d.entry.id < start + |pieces|
    && AcceptedBy(fd, d) == pieces[d.entry.id - start] && ReturnedBy(fd, d) == []
  }

  lemma AcceptedPiece(fd: int, d: Done, start: Id, chunks: seq<seq<byte>>, counts: seq<int>)
    requires |counts| == |chunks| && forall i | 0 <= i < |chunks| :: 0 <= counts[i] <= |chunks[i]| % U32
    requires OfCall(d, start, WriteOps(fd, chunks), counts)
    ensures Contributes(fd, d, start, Prefixes(chunks, counts))
  {
  }

  lemma AcceptedLast(fd: int, log: seq<Done>)
    requires log != []
    ensures Accepted(fd, log) == Accepted(fd, log[..|log| - 1]) + AcceptedBy(fd, log[|log| - 1])
  {
  }

  lemma OneMoreContributes(fd: int, log: seq<Done>, start: Id, pieces: seq<seq<byte>>)
    requires log != [] && Contributes(fd, log[|log| - 1], start, pieces)
    requires var order := RunOrder(log[..|log| - 1], start);
             Within(order, |pieces|) && Accepted(fd, log[..|log| - 1]) == Gather(pieces, order)
    ensures var order := RunOrder(log, start);
            Within(order, |pieces|) && Accepted(fd, log) == Gather(pieces, order)
  {
    var n := |log| - 1;
    var x := log[n].entry.id - start;
    assert 0 <= x < |pieces| && AcceptedBy(fd, log[n]) == pieces[x];
    AcceptedLast(fd, log);
    hide Accepted, AcceptedBy, Contributes, RunOrder, Within, Gather;
    RunOrderLast(log, start);
    GatherOneMore(pieces, RunOrder(log[..n], start), x);
  }

  lemma {:induction false} AcceptedIsGathered(fd: int, log: seq<Done>, start: Id, pieces: seq<seq<byte>>)
    requires forall k | 0 <= k < |log| :: Contributes(fd, log[k], start, pieces)
    ensures Within(RunOrder(log, start), |pieces|)
    ensures Accepted(fd, log) == Gather(pieces, RunOrder(log, start))
  {
    if log == [] {
      NothingGathered(pieces, start);
    } else {
      hide Contributes, Accepted, RunOrder, Within, Gather;
      AcceptedIsGathered(fd, log[..|log| - 1], start, pieces);
      OneMoreContributes(fd, log, start, pieces);
    }
  }

  lemma {:induction false} WritesReturnNothing(fd: int, log: seq<Done>, start: Id, pieces: seq<seq<byte>>)
    requires forall k | 0 <= k < |log| :: Contributes(fd, log[k], start, pieces)
    ensures Returned(fd, log) == []
  {
    if log != [] {
      WritesReturnNothing(fd, log[..|log| - 1], start, pieces);
      assert Contributes(fd, log[|log| - 1], start, pieces);
      hide ReturnedBy;
    }
  }

  /** The prefixes of the chunks that the counts count, each once, in some order. */
  ghost predicate SomeOrder(data: seq<byte>, chunks: seq<seq<byte>>, counts: seq<int>, perm: seq<int>) {
    && Counted(chunks, counts) && Permutes(perm, |chunks|)
    && data == Gather(Prefixes(chunks, counts), perm) && |data| == Sum(counts)
  }

  /** Whatever else runs, and in whatever order its own operations run, a finished batch of writes puts the
      accepted prefix of each chunk into the file, once each; together they are as long as the counts
      returned add up to. */
  lemma {:induction false} WriteBatchAccepts(s: State, t: State, start: Id, fd: int, chunks: seq<seq<byte>>,
                                             counts: seq<int>) returns (perm: seq<int>)
    requires Inv(s) && Inv(t) && CallDone(s, t, start, WriteOps(fd, chunks), counts) && s.hist.log <= t.hist.log
    requires forall i | 0 <= i < |counts| :: counts[i] >= 0
    ensures var own := Own(Ran(s, t), start, |chunks|);
            && perm == RunOrder(own, start) && Returned(fd, own) == []
            && SomeOrder(Accepted(fd, own), chunks, counts, perm)
  {
    hide Inv, Called, Accepted, Returned, Gather, Total, Sum;
    WriteCounts(s, t, start, fd, chunks, counts);
    CallRunsOnce(s, t, start, WriteOps(fd, chunks), counts);
    var own := Own(Ran(s, t), start, |chunks|);
    perm := RunOrder(own, start);
    forall k | 0 <= k < |own|
      ensures Contributes(fd, own[k], start, Prefixes(chunks, counts))
    {
      assert own[k] in own;
      AcceptedPiece(fd, own[k], start, chunks, counts);
    }
    AcceptedIsGathered(fd, own, start, Prefixes(chunks, counts));
    WritesReturnNothing(fd, own, start, Prefixes(chunks, counts));
    GatherLength(Prefixes(chunks, counts), perm);
    TotalIsSum(chunks, counts);
  }

  /** On an idle ring, wherever the position is, the batch amounts to one write of those prefixes. */
  lemma {:induction false} WriteBatchConserves(s: State, t: State, f: File, g: File, start: Id, chunks: seq<seq<byte>>,
                                               counts: seq<int>) returns (perm: seq<int>)
    requires Inv(s) && Inv(t) && Idle(s, f.fd) && CallDone(s, t, start, WriteOps(f.fd, chunks), counts)
    requires Advances(f, s.hist.log, g, t.hist.log)
    requires forall i | 0 <= i < |counts| :: counts[i] >= 0
    ensures perm == RunOrder(Own(Ran(s, t), start, |chunks|), start)
    ensures SomeOrder(Accepted(f.fd, Ran(s, t)), chunks, counts, perm)
    ensures g == WriteSome(f, Accepted(f.fd, Ran(s, t)))
  {
    hide Inv, Called, CanRunAll, RunAll, Accepted, Returned, SomeOrder, Idle, WriteSome;
    perm := WriteBatchAccepts(s, t, start, f.fd, chunks, counts);
    CallOthersHarmless(s, t, start, WriteOps(f.fd, chunks), |chunks|, counts, f.fd);
    OwnRuns(f, Ran(s, t), start, |chunks|);
    LogWrites(f, Own(Ran(s, t), start, |chunks|));
  }

  /** Single writes one after the other, each accepting the given count. */
  function RepeatedWrites(f: File, chunks: seq<seq<byte>>, counts: seq<int>): File
    requires Counted(chunks, counts)
  {
    if chunks == [] then f
    else
      var n := |chunks| - 1;
      WriteSome(RepeatedWrites(f, chunks[..n], counts[..n]), chunks[n][..counts[n]])
  }

  /** Repeated writes are one write of what they accepted, joined. */
  lemma {:induction false} RepeatedIsOneWrite(f: File, chunks: seq<seq<byte>>, counts: seq<int>)
    requires Counted(chunks, counts)
    ensures RepeatedWrites(f, chunks, counts) == WriteSome(f, Joined(Prefixes(chunks, counts)))
  {
    hide WriteSome;
    if chunks == [] {
      NothingWritten(f);
    } else {
      var n := |chunks| - 1;
      RepeatedIsOneWrite(f, chunks[..n], counts[..n]);
      assert Counted(chunks[..n], counts[..n]);
      assert Prefixes(chunks, counts)[..n] == Prefixes(chunks[..n], counts[..n]);
      WriteTwice(f, Joined(Prefixes(chunks[..n], counts[..n])), chunks[n][..counts[n]]);
    }
  }

  /** When the kernel runs the batch in the order it was pushed, the outcome is that of the same chunks
      written one call at a time, on any descriptor. */
  lemma {:induction false} WriteBatchInOrder(s: State, t: State, f: File, g: File, start: Id, chunks: seq<seq<byte>>,
                                             counts: seq<int>)
    requires Inv(s) && Inv(t) && Idle(s, f.fd) && CallDone(s, t, start, WriteOps(f.fd, chunks), counts)
    requires Advances(f, s.hist.log, g, t.hist.log) && InOrder(s, Ran(s, t))
    requires forall i | 0 <= i < |counts| :: counts[i] >= 0
    ensures Counted(chunks, counts)
    ensures g == RepeatedWrites(f, chunks, counts)
    ensures Accepted(f.fd, Ran(s, t)) == Joined(Prefixes(chunks, counts))
  {
    hide Inv, Called, CanRunAll, RunAll, Accepted, Gather, RepeatedWrites, InOrder, Idle, WriteSome;
    var perm := WriteBatchConserves(s, t, f, g, start, chunks, counts);
    CallRanInOrder(s, t, start, WriteOps(f.fd, chunks), counts);
    GatherInOrder(Prefixes(chunks, counts), |chunks|);
    assert Prefixes(chunks, counts)[..|chunks|] == Prefixes(chunks, counts);
    RepeatedIsOneWrite(f, chunks, counts);
  }

}
