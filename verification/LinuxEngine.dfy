/**
 The io_uring engine of one thread: its ring, its table of completions not yet claimed, and the calls
 that use them. The kernel side is nondeterministic: it consumes, completes and fails as it likes
 within the bounds stated at KernelCompletes and Enter.
 */
module LinuxEngine {
  import opened IoTypes
  import opened RingProtocol
  import opened FileModel
  import opened Calls
  import Threads

  /** NEXT_USER_DATA: the process-wide u64 counter. */
  class Counter {
    var next: Id
    ghost var issued: nat

    ghost predicate Valid()
      reads this
    {
      next == (1 + issued) % U64
    }

    constructor ()
      ensures Valid() && issued == 0
    {
      next, issued := 1, 0;
    }

    method FetchAdd(n: nat) returns (start: Id)
      requires Valid()
      modifies this
      ensures Valid() && start == old(next)
      ensures next == (old(next) + n) % U64 && issued == old(issued) + n
    {
      start := next;
      next := (next + n) % U64;
      issued := issued + n;
    }
  }

  /** Nothing on record was lost, and the file went through exactly the operations added to the log. */
  ghost predicate Progressed(f: File, s: State, g: File, t: State) {
    Extends(s.hist, t.hist) && Advances(f, s.hist.log, g, t.hist.log)
  }

  lemma ProgressedTwice(f: File, s: State, g: File, t: State, h: File, u: State)
    requires Progressed(f, s, g, t) && Progressed(g, t, h, u)
    ensures Progressed(f, s, h, u)
  {
    AdvancesTwice(f, s.hist.log, g, t.hist.log, h, u.hist.log);
  }

  lemma NothingRun(f: File, log: seq<Done>)
    ensures Advances(f, log, f, log)
  {
    assert log[|log|..] == [];
  }

  lemma OneMoreRun(f: File, log: seq<Done>, d: Done)
    requires CanRun(f, d)
    ensures Advances(f, log, Run(f, d), log + [d])
  {
    NothingRun(f, log);
    AdvancesByOne(f, log, f, log, d);
  }

  lemma NothingMoved(f: File, s: State)
    ensures KernelMoved(s, s) && Progressed(f, s, f, s)
  {
    NothingRun(f, s.hist.log);
  }

  lemma JustExtended(f: File, s: State, g: File, t: State)
    requires Extends(s.hist, t.hist) && t.hist.log == s.hist.log && f == g
    ensures Progressed(f, s, g, t)
  {
    NothingRun(f, s.hist.log);
  }

  lemma KernelMovedTwice(s: State, t: State, u: State)
    requires KernelMoved(s, t) && KernelMoved(t, u)
    ensures KernelMoved(s, u)
  {
  }

  lemma KernelMovedWaits(s: State, t: State)
    requires KernelMoved(s, t)
    ensures Waited(s, t) && |s.cq| <= |t.cq|
  {
  }

  lemma FilledStays(f: File, s: State, g: File, t: State, start: Id, buffers: seq<seq<byte>>, n: nat)
    requires Progressed(f, s, g, t) && Filled(s.hist, start, buffers, n)
    ensures Filled(t.hist, start, buffers, n)
  {
    FilledExtends(s.hist, t.hist, start, buffers, n);
  }

  /** Completions may have been reaped, but nothing was pushed or taken. */
  ghost predicate Waited(s: State, t: State) {
    && t.cap == s.cap && t.hist.owned == s.hist.owned && t.hist.order == s.hist.order
    && t.hist.pushed == s.hist.pushed && t.hist.taken == s.hist.taken
    && Undrained(t) <= Undrained(s) && |t.sq| <= |s.sq|
  }

  lemma NextStep(cap: nat, steps: seq<Step>, st: Step, issued: nat)
    requires Legal(Init(cap), steps) && Enabled(After(Init(cap), steps), st)
    requires Threads.Ascending(0, steps, issued)
    ensures Legal(Init(cap), steps + [st])
    ensures After(Init(cap), steps + [st]) == Apply(After(Init(cap), steps), st)
    ensures Extends(After(Init(cap), steps).hist, Apply(After(Init(cap), steps), st).hist)
    ensures IsKernel(st) ==> KernelMoved(After(Init(cap), steps), Apply(After(Init(cap), steps), st))
    ensures !st.Alloc? ==> Threads.Ascending(0, steps + [st], issued)
  {
    hide Extends, KernelMoved, Apply, Enabled, Inv, Init;
    if !st.Alloc? {
      Threads.AscendingStep(0, steps, issued, st);
    }
    hide Threads.Ascending;
    OneMoreStep(Init(cap), steps, st);
    InitInv(cap);
    RunInv(Init(cap), steps);
    StepExtends(After(Init(cap), steps), st);
    if IsKernel(st) {
      KernelStepMoves(After(Init(cap), steps), st);
    }
  }

  lemma BlockIsRange(k: nat, n: nat)
    requires k + n < U64
    ensures Threads.Block(Threads.IdAt(k), n) == IdRange(1 + k, n)
  {
    forall i | 0 <= i < n
      ensures Threads.WrapAdd(Threads.IdAt(k), i) == 1 + k + i
    {
      Threads.WrapAddIdAt(k, i);
    }
    forall id | id in IdRange(1 + k, n)
      ensures id in Threads.Block(Threads.IdAt(k), n)
    {
      assert Threads.WrapAdd(Threads.IdAt(k), id - (1 + k)) in Threads.Block(Threads.IdAt(k), n);
    }
  }

  lemma ReachedQueue(cap: nat, steps: seq<Step>)
    requires Legal(Init(cap), steps)
    ensures |After(Init(cap), steps).sq| <= After(Init(cap), steps).cap
  {
    InitInv(cap);
    RunInv(Init(cap), steps);
  }

  lemma ReachedHonest(cap: nat, steps: seq<Step>)
    requires Legal(Init(cap), steps)
    ensures Honest(After(Init(cap), steps).hist)
    ensures After(Init(cap), steps).hist.taken.Keys <= After(Init(cap), steps).hist.pushed.Keys
  {
    InitInv(cap);
    RunInv(Init(cap), steps);
    InvIsHonest(After(Init(cap), steps));
  }

  /** An operation not yet handed back and not in the table is still to be reaped. */
  lemma ReachedPending(cap: nat, steps: seq<Step>, id: Id)
    requires Legal(Init(cap), steps)
    requires var s := After(Init(cap), steps);
             id in s.hist.pushed && id !in s.hist.taken && id !in s.completed
    ensures Undrained(After(Init(cap), steps)) >= 1
  {
    InitInv(cap);
    RunInv(Init(cap), steps);
    var s := After(Init(cap), steps);
    assert Places(s, id) == 1;
  }

  /** What the engine's own system calls have met with so far; not stored by the program. */
  datatype Entered = Entered(
    locks: nat,              // times the ring was to be locked
    submits: nat,            // io_uring_enter calls that did not wait
    waits: nat,              // io_uring_enter calls that waited
    hastyWaits: nat,         // those of them made with completions left to reap
    failedLocks: nat,        // times the ring could not be created or locked
    failedSubmits: nat,      // failed io_uring_enter calls that did not wait
    failedWaits: nat,        // failed io_uring_enter calls that waited
    lastWant: nat)           // how many completions the last one waited for

  function EnteredOnce(e: Entered, want: nat, failed: bool, unreaped: bool): Entered {
    var n := if failed then 1 else 0;
    if want == 0 then e.(submits := e.submits + 1, failedSubmits := e.failedSubmits + n, lastWant := want)
    else
      e.(waits := e.waits + 1, hastyWaits := e.hastyWaits + (if unreaped then 1 else 0),
         failedWaits := e.failedWaits + n, lastWant := want)
  }

  /** No lock and no wait has failed in between. */
  ghost predicate NoneFailed(e: Entered, f: Entered) {
    f.failedWaits == e.failedWaits && f.failedLocks == e.failedLocks
  }

  /** No lock and no wait has failed in between but the one that `r` reports: an error that is not a result
      of the kernel comes from a call that failed, and no such failure goes unreported. */
  ghost predicate Reports<T>(e: Entered, f: Entered, r: Result<T>) {
    if r.Ok? || r.error.Os? then NoneFailed(e, f)
    else if r.error == EnterFailed then f.failedWaits == e.failedWaits + 1 && f.failedLocks == e.failedLocks
    else r.error == RingUnavailable && f.failedWaits == e.failedWaits && f.failedLocks == e.failedLocks + 1
  }

  /** In between, no lock was taken, there were as many calls that did not wait as calls that did, and
      `ahead` more, and no wait was made with completions left to reap. */
  ghost predicate InTurns(e: Entered, f: Entered, ahead: nat) {
    && f.locks == e.locks && f.submits - e.submits == f.waits - e.waits + ahead && f.waits >= e.waits
    && f.hastyWaits == e.hastyWaits
  }

  predicate Posted(cq: seq<Cqe>, id: Id) {
    exists c | c in cq :: c.id == id
  }

  lemma NoFailureYet(e: Entered)
    ensures NoneFailed(e, e) && InTurns(e, e, 0)
  {
  }

  lemma InTurnsAfter(e: Entered, f: Entered, g: Entered)
    requires NoneFailed(e, f) && NoneFailed(f, g) && InTurns(e, f, 0)
    ensures NoneFailed(e, g) && (InTurns(f, g, 1) ==> InTurns(e, g, 1))
  {
  }

  lemma ReportsAfter<T>(e: Entered, f: Entered, g: Entered, r: Result<T>)
    requires NoneFailed(e, f) && Reports(f, g, r)
    ensures Reports(e, g, r)
    ensures r.Ok? ==> NoneFailed(e, g)
  {
  }

  lemma ReportsOk<T>(e: Entered, f: Entered, r: Result<T>)
    requires Reports(e, f, r) && r.Ok?
    ensures NoneFailed(e, f)
  {
  }

  lemma EnterReports<T>(e: Entered, f: Entered, want: nat, r: Result<T>, unreaped: bool)
    requires NoneFailed(e, f) && (r.Err? ==> r.error == EnterFailed)
    ensures want == 0 || r.Ok? ==> NoneFailed(e, EnteredOnce(f, want, r.Err?, unreaped))
    ensures want > 0 ==> Reports(e, EnteredOnce(f, want, r.Err?, unreaped), r)
    ensures want == 0 && InTurns(e, f, 0) ==> InTurns(e, EnteredOnce(f, want, r.Err?, unreaped), 1)
    ensures want > 0 && !unreaped && InTurns(e, f, 1) ==> InTurns(e, EnteredOnce(f, want, r.Err?, unreaped), 0)
  {
  }

  lemma ReportsError<A, B>(e: Entered, f: Entered, r: Result<A>, q: Result<B>)
    requires Reports(e, f, r) && r.Err? && q.Err? && q.error == r.error
    ensures Reports(e, f, q)
  {
  }

  lemma ReportsResult<T>(e: Entered, f: Entered, r: Result<T>)
    requires NoneFailed(e, f) && (r.Ok? || r.error.Os?)
    ensures Reports(e, f, r)
  {
  }

  class ThreadRing {
    const cap: nat          // submission queue entries
    const cqCap: nat        // completion queue entries
    const counter: Counter

    var sq: seq<Entry>
    var inflight: set<Entry>
    var cq: seq<Cqe>
    var completed: map<Id, int>
    var memory: map<Id, seq<byte>>   // what the kernel has put in the buffer of each operation
    var file: File                   // the file behind one of the descriptors

    ghost var hist: History
    ghost var trace: seq<Step>
    ghost var calls: seq<Call>
    ghost var entered: Entered

    ghost function View(): State
      reads this
    {
      State(cap, sq, inflight, cq, completed, hist)
    }

    /** The ring is in a state reached by steps of the protocol, under ids the counter has given out. */
    ghost predicate Valid()
      reads this, counter
    {
      && cap >= 1 && cqCap >= 1 && counter.Valid()
      && Legal(Init(cap), trace) && View() == After(Init(cap), trace)
      && Threads.Ascending(0, trace, counter.issued)
      && memory.Keys == hist.posted.Keys
      && (forall id | id in hist.posted :: memory[id] == hist.posted[id].data)
      && (forall id | id in hist.owned + hist.pushed.Keys :: 1 <= id <= counter.issued)
    }

    /** Between calls. */
    ghost predicate Ready()
      reads this, counter
    {
      Valid() && Boundary(hist, calls)
    }

    constructor (cap: nat, cqCap: nat, counter: Counter, file: File)
      requires cap >= 1 && cqCap >= 1 && counter.Valid()
      ensures Ready() && this.cap == cap && this.cqCap == cqCap && this.counter == counter
      ensures View() == Init(cap) && this.file == file && calls == [] && trace == []
    {
      this.cap, this.cqCap, this.counter, this.file := cap, cqCap, counter, file;
      sq, inflight, cq, completed, memory := [], {}, [], map[], map[];
      hist := Init(cap).hist;
      trace, calls, entered := [], [], Entered(0, 0, 0, 0, 0, 0, 0, 0);
    }

    /** with_thread_ring_state: the first call creates the ring, which may fail, and so may taking its lock. */
    method LockRing() returns (ok: bool)
      requires Valid()
      modifies this`entered
      ensures Valid() && View() == old(View())
      ensures entered == old(entered).(locks := old(entered).locks + 1,
                                       failedLocks := old(entered).failedLocks + (if ok then 0 else 1))
    {
      ok := *;
      entered := entered.(locks := entered.locks + 1, failedLocks := entered.failedLocks + (if ok then 0 else 1));
    }

    // --- The kernel ---

    /** The kernel finishes one in-flight operation: it posts exactly one completion for it. */
    method KernelCompletes(e: Entry)
      requires Valid() && e in inflight
      modifies this`inflight, this`cq, this`memory, this`file, this`hist, this`trace
      ensures Valid() && old(trace) <= trace
      ensures KernelMoved(old(View()), View()) && Progressed(old(file), old(View()), file, View())
      ensures sq == old(sq) && inflight == old(inflight) - {e} && |cq| == |old(cq)| + 1
    {
      hide Legal, After, Threads.Ascending, KernelMoved, Extends, Advances, Run, Init;
      var res: int, data: seq<byte> := *, *;
      var d := Done(e, res, data);
      if !CanRun(file, d) {
        d := Failing(e);
      }
      NextStep(cap, trace, Complete(d), counter.issued);
      OneMoreRun(file, hist.log, d);
      inflight := inflight - {e};
      cq := cq + [Cqe(e.id, d.res)];
      memory := memory[e.id := d.data];
      file := Run(file, d);
      hist := hist.(log := hist.log + [d], posted := hist.posted[e.id := d]);
      trace := trace + [Complete(d)];
    }

    /** The kernel takes the oldest submission queue entry. */
    method KernelConsumes()
      requires Valid() && sq != []
      modifies this`sq, this`inflight, this`trace
      ensures Valid() && old(trace) <= trace
      ensures KernelMoved(old(View()), View()) && Progressed(old(file), old(View()), file, View())
      ensures |sq| == |old(sq)| - 1
    {
      hide Legal, After, Threads.Ascending, KernelMoved, Extends, Advances, Init;
      NextStep(cap, trace, Consume, counter.issued);
      NothingRun(file, hist.log);
      inflight := inflight + {sq[0]};
      sq := sq[1..];
      trace := trace + [Consume];
    }

    /** Any number of in-flight operations finish, in any order. */
    method Progress()
      requires Valid()
      modifies this`inflight, this`cq, this`memory, this`file, this`hist, this`trace
      ensures Valid() && old(trace) <= trace
      ensures KernelMoved(old(View()), View()) && Progressed(old(file), old(View()), file, View())
      ensures sq == old(sq)
      ensures |inflight| < |old(inflight)| || (View() == old(View()) && file == old(file))
    {
      hide Legal, After, Threads.Ascending, KernelMoved, Progressed, Init;
      NothingMoved(file, View());
      while inflight != {}
        invariant Valid() && old(trace) <= trace && sq == old(sq)
        invariant KernelMoved(old(View()), View()) && Progressed(old(file), old(View()), file, View())
        invariant |inflight| < |old(inflight)| || (View() == old(View()) && file == old(file))
      {
        if * {
          break;
        }
        var e :| e in inflight;
        ghost var f, s := file, View();
        KernelCompletes(e);
        KernelMovedTwice(old(View()), s, View());
        ProgressedTwice(old(file), old(View()), f, s, file, View());
      }
    }

    /** Between calls the kernel goes on with what is in flight. */
    method KernelRuns()
      requires Ready()
      modifies this`inflight, this`cq, this`memory, this`file, this`hist, this`trace
      ensures Ready() && old(trace) <= trace
      ensures KernelMoved(old(View()), View()) && Progressed(old(file), old(View()), file, View())
      ensures sq == old(sq)
      ensures |inflight| < |old(inflight)| || (View() == old(View()) && file == old(file))
      ensures hist.order == old(hist.order)
    {
      hide Legal, After, Threads.Ascending, Progressed, Init;
      Progress();
    }

    /** io_uring_enter: submit what is queued and wait for `want` completions. On success a non-empty
        queue was at least partly consumed; the wait is only certain when there was nothing to submit.
        A call that fails may still have consumed entries. The wait could not end at all if fewer than
        `want` operations were undrained. */
    method Enter(want: nat) returns (r: Result<nat>)
      requires Valid() && want <= Undrained(View())
      modifies this`entered, this`sq, this`inflight, this`cq, this`memory, this`file, this`hist, this`trace
      ensures Valid() && old(trace) <= trace
      ensures KernelMoved(old(View()), View()) && Progressed(old(file), old(View()), file, View())
      ensures r.Ok? ==> r.value == |old(sq)| - |sq|
      ensures r.Ok? && old(sq) != [] ==> r.value >= 1
      ensures r.Ok? && old(sq) == [] ==> |cq| >= Min(want, cqCap)
      ensures r.Err? ==> r.error == EnterFailed
      ensures entered == EnteredOnce(old(entered), want, r.Err?, old(cq) != [])
    {
      hide Legal, After, Threads.Ascending, KernelMoved, Progressed, Init;
      NothingMoved(file, View());
      var queued := |sq|;
      ghost var unreaped := cq != [];
      while sq != []
        invariant Valid() && old(trace) <= trace && |sq| <= |old(sq)|
        invariant KernelMoved(old(View()), View()) && Progressed(old(file), old(View()), file, View())
        invariant entered == old(entered)
        decreases |sq|
      {
        if * {
          break;
        }
        ghost var f, s := file, View();
        KernelConsumes();
        KernelMovedTwice(old(View()), s, View());
        ProgressedTwice(old(file), old(View()), f, s, file, View());
      }
      ghost var f, s := file, View();
      Progress();
      KernelMovedTwice(old(View()), s, View());
      ProgressedTwice(old(file), old(View()), f, s, file, View());
      var failed: bool := *;
      var consumed := queued - |sq|;
      failed := failed || (queued > 0 && consumed == 0) || (queued == 0 && |cq| < Min(want, cqCap));
      entered := EnteredOnce(entered, want, failed, unreaped);
      if failed {
        return Err(EnterFailed);
      }
      return Ok(consumed);
    }

    // --- The program's own steps ---

    /** Move every completion posted so far into the table. */
    method Drain()
      requires Valid()
      modifies this`inflight, this`cq, this`completed, this`memory, this`file, this`hist, this`trace
      ensures Valid() && old(trace) <= trace
      ensures Waited(old(View()), View()) && Progressed(old(file), old(View()), file, View())
      ensures sq == old(sq) && cq == []
      ensures forall id | Posted(old(cq), id) || id in old(completed) :: id in completed
      ensures Undrained(View()) <= Undrained(old(View())) - |old(cq)|
    {
      hide Legal, After, Threads.Ascending, Init, Extends, Advances;
      Progress();
      KernelMovedWaits(old(View()), View());
      ghost var s := View();
      while cq != []
        invariant Valid() && old(trace) <= trace && sq == old(sq)
        invariant Waited(old(View()), View()) && Progressed(old(file), old(View()), file, View())
        invariant Undrained(View()) == Undrained(s) - |s.cq| + |cq|
        invariant forall id | Posted(old(cq), id) || id in old(completed) :: Posted(cq, id) || id in completed
      {
        Reaps();
      }
    }

    /** The program moves the oldest completion into the table. */
    method Reaps()
      requires Valid() && cq != []
      modifies this`cq, this`completed, this`trace
      ensures Valid() && old(trace) <= trace
      ensures cq == old(cq)[1..] && completed == old(completed)[old(cq)[0].id := old(cq)[0].res]
    {
      hide Legal, After, Threads.Ascending, Init, Extends;
      NextStep(cap, trace, Reap, counter.issued);
      completed := completed[cq[0].id := cq[0].res];
      cq := cq[1..];
      trace := trace + [Reap];
    }

    /** completed.remove(&id) */
    method Remove(id: Id) returns (r: Option<int>)
      requires Valid()
      modifies this`completed, this`hist, this`trace
      ensures Valid() && old(trace) <= trace
      ensures r == if id in old(completed) then Some(old(completed)[id]) else None
      ensures r.Some? ==> completed == old(completed) - {id}
      ensures r.Some? ==> hist == old(hist).(taken := old(hist).taken[id := r.value]) && Extends(old(hist), hist)
      ensures r.None? ==> View() == old(View())
    {
      hide Legal, After, Threads.Ascending, Init;
      if id in completed {
        NextStep(cap, trace, Take(id), counter.issued);
        r := Some(completed[id]);
        hist := hist.(taken := hist.taken[id := completed[id]]);
        trace := trace + [Take(id)];
        completed := completed - {id};
      } else {
        r := None;
      }
    }

    /** ring.submission().push(): refuses an entry when the queue is full. */
    method TryPush(e: Entry) returns (ok: bool)
      requires Valid() && e.id in hist.owned
      modifies this`sq, this`hist, this`trace
      ensures Valid() && old(trace) <= trace
      ensures ok == (|old(sq)| < cap)
      ensures ok ==> sq == old(sq) + [e]
      ensures ok ==> hist == old(hist).(owned := old(hist).owned - {e.id}, order := old(hist).order + [e],
                                        pushed := old(hist).pushed[e.id := e.op])
      ensures !ok ==> View() == old(View())
      ensures Extends(old(hist), hist)
    {
      hide Legal, After, Threads.Ascending, Init;
      ok := |sq| < cap;
      if ok {
        NextStep(cap, trace, Push(e), counter.issued);
        sq := sq + [e];
        assert hist.owned - {e.id} + hist.pushed[e.id := e.op].Keys == hist.owned + hist.pushed.Keys;
        hist := hist.(owned := hist.owned - {e.id}, order := hist.order + [e], pushed := hist.pushed[e.id := e.op]);
        trace := trace + [Push(e)];
      }
    }

    /** Push an entry; if the queue is full, submit once and push again. The second push never finds
        the queue full. */
    method PushWithRetry(e: Entry) returns (r: Result<()>)
      requires Valid() && e.id in hist.owned
      modifies this`entered, this`sq, this`inflight, this`cq, this`memory, this`file, this`hist, this`trace
      ensures Valid() && old(trace) <= trace && Progressed(old(file), old(View()), file, View())
      ensures hist.taken == old(hist.taken) && completed == old(completed)
      ensures r.Ok? ==>
                && hist.owned == old(hist.owned) - {e.id} && hist.order == old(hist.order) + [e]
                && hist.pushed == old(hist.pushed)[e.id := e.op]
                && Undrained(View()) == Undrained(old(View())) + 1
      ensures r.Err? ==> r.error == EnterFailed && Waited(old(View()), View())
      ensures Reports(old(entered), entered, r)
      ensures |old(sq)| < cap ==> r.Ok? && sq == old(sq) + [e] && inflight == old(inflight) && entered == old(entered)
      ensures |old(sq)| == cap ==> entered.lastWant == 1
      ensures entered.locks == old(entered).locks
    {
      hide Legal, After, Threads.Ascending, Init, Extends, Advances;
      NothingMoved(file, View());
      var ok := TryPush(e);
      if ok {
        JustExtended(old(file), old(View()), file, View());
        return Ok(());
      }
      ReachedQueue(cap, trace);
      var submitted := Enter(1);
      ghost var f, s := file, View();
      if submitted.Err? {
        KernelMovedWaits(old(View()), View());
        return Err(submitted.error);
      }
      ok := TryPush(e);
      JustExtended(f, s, file, View());
      ProgressedTwice(old(file), old(View()), f, s, file, View());
      r := if ok then Ok(()) else Err(QueueFull);
    }

    /** fetch_add: take `n` fresh consecutive ids. */
    method TakeIds(n: nat) returns (start: Id)
      requires Valid() && n >= 1 && counter.issued + n < U64
      modifies this`hist, this`trace, counter
      ensures Valid() && old(trace) <= trace && Extends(old(hist), hist)
      ensures counter.issued == old(counter.issued) + n && start == old(counter.next)
      ensures IdRange(start, n) !! old(hist.pushed).Keys && IdRange(start, n) !! old(hist.owned)
      ensures hist == old(hist).(owned := old(hist).owned + IdRange(start, n))
    {
      hide Legal, After, Threads.Ascending, Init;
      start := counter.FetchAdd(n);
      assert start == 1 + old(counter.issued);
      assert forall id | id in hist.owned :: id in hist.owned + hist.pushed.Keys;
      assert forall id | id in hist.pushed.Keys :: id in hist.owned + hist.pushed.Keys;
      assert IdRange(start, n) !! hist.owned && IdRange(start, n) !! hist.pushed.Keys;
      BlockIsRange(old(counter.issued), n);
      Threads.AscendingAlloc(0, trace, old(counter.issued), n);
      NextStep(cap, trace, Alloc(IdRange(start, n)), old(counter.issued));
      hist := hist.(owned := hist.owned + IdRange(start, n));
      trace := trace + [Alloc(IdRange(start, n))];
    }

    /** Reap everything posted so far, then look for `id` in the table. */
    method DrainAndRemove(id: Id) returns (r: Option<int>)
      requires Valid()
      modifies this`inflight, this`cq, this`completed, this`memory, this`file, this`hist, this`trace
      ensures Valid() && old(trace) <= trace && Progressed(old(file), old(View()), file, View())
      ensures hist.owned == old(hist.owned) && hist.order == old(hist.order) && hist.pushed == old(hist.pushed)
      ensures r.Some? ==> hist.taken == old(hist.taken)[id := r.value]
      ensures r.None? ==> hist.taken == old(hist.taken) && id !in completed && cq == []
      ensures Posted(old(cq), id) || id in old(completed) ==> r.Some?
      ensures sq == old(sq) && Undrained(View()) <= Undrained(old(View())) - |old(cq)|
    {
      hide Legal, After, Threads.Ascending, Init, Extends, Progressed;
      Drain();
      ghost var f, s := file, View();
      r := Remove(id);
      if r.Some? {
        JustExtended(f, s, file, View());
        ProgressedTwice(old(file), old(View()), f, s, file, View());
      }
    }

    /** An operation not handed back and not in the table keeps a wait for one completion from hanging. */
    lemma StillPending(id: Id)
      requires Valid() && id in hist.pushed && id !in hist.taken && id !in completed
      ensures Undrained(View()) >= 1 && cqCap >= 1
    {
      ReachedPending(cap, trace, id);
    }

    /** Look for the completion for `id`: in the table, then in what has been posted, then in what submitting
        without waiting brings about. */
    method LookFor(id: Id) returns (r: Option<int>)
      requires Valid()
      modifies this`entered, this`sq, this`inflight, this`cq, this`completed, this`memory, this`file, this`hist,
               this`trace
      ensures Valid() && old(trace) <= trace && Progressed(old(file), old(View()), file, View())
      ensures hist.owned == old(hist.owned) && hist.order == old(hist.order) && hist.pushed == old(hist.pushed)
      ensures r.Some? ==> hist.taken == old(hist.taken)[id := r.value]
      ensures r.None? ==> hist.taken == old(hist.taken) && id !in completed && cq == []
      ensures id in old(completed) ==> r == Some(old(completed)[id]) && cq == old(cq) && entered == old(entered)
      ensures Posted(old(cq), id) ==> r.Some? && entered == old(entered)
      ensures NoneFailed(old(entered), entered)
      ensures InTurns(old(entered), entered, 1) || (r.Some? && entered == old(entered))
      ensures |sq| <= |old(sq)|
      ensures r.None? ==> Undrained(View()) <= Undrained(old(View())) - |old(cq)|
    {
      hide Valid, NoneFailed, InTurns, Posted, EnteredOnce, Extends, Progressed, KernelMoved, Undrained;
      NothingMoved(file, View());
      NoFailureYet(entered);
      r := Remove(id);
      ghost var f, s, t := old(file), old(View()), View();
      JustExtended(f, s, file, t);
      if r.Some? {
        return;
      }
      r := DrainAndRemove(id);
      if r.Some? {
        return;
      }
      f, t := file, View();
      ghost var e := entered;
      var ignored := Enter(0);
      EnterReports(old(entered), e, 0, ignored, t.cq != []);
      KernelMovedWaits(t, View());
      ProgressedTwice(old(file), s, f, t, file, View());
      f, t := file, View();
      r := DrainAndRemove(id);
      ProgressedTwice(old(file), s, f, t, file, View());
    }

    /** Wait until the completion for `id` is in the table and take it. It takes no system call if that has
        been posted before; otherwise every wait comes after a call that only submits, and with everything
        posted so far reaped. */
    method PollCompletionForId(id: Id) returns (r: Result<int>)
      requires Valid() && id in hist.pushed && id !in hist.taken
      modifies this`entered, this`sq, this`inflight, this`cq, this`completed, this`memory, this`file, this`hist,
               this`trace
      ensures Valid() && old(trace) <= trace && Progressed(old(file), old(View()), file, View())
      ensures hist.owned == old(hist.owned) && hist.order == old(hist.order) && hist.pushed == old(hist.pushed)
      ensures r.Ok? ==> hist.taken == old(hist.taken)[id := r.value]
      ensures r.Err? ==> r.error == EnterFailed && hist.taken == old(hist.taken)
      ensures Reports(old(entered), entered, r)
      ensures id in old(completed) ==> r == Ok(old(completed)[id]) && cq == old(cq) && entered == old(entered)
      ensures Posted(old(cq), id) ==> r.Ok? && entered == old(entered)
      ensures InTurns(old(entered), entered, 0) || InTurns(old(entered), entered, 1)
    {
      hide Valid, Reports, NoneFailed, InTurns, Posted, EnteredOnce, Extends, Progressed, KernelMoved, Undrained;
      NothingMoved(file, View());
      NoFailureYet(entered);
      while true
        invariant Valid() && old(trace) <= trace && Progressed(old(file), old(View()), file, View())
        invariant hist.owned == old(hist.owned) && hist.order == old(hist.order)
        invariant hist.pushed == old(hist.pushed) && hist.taken == old(hist.taken)
        invariant NoneFailed(old(entered), entered) && InTurns(old(entered), entered, 0)
        invariant id in old(completed) || Posted(old(cq), id) ==> View() == old(View()) && entered == old(entered)
        decreases Undrained(View()), |sq|, if cq == [] then 1 else 0
      {
        ghost var f, s, e := file, View(), entered;
        var res := LookFor(id);
        ProgressedTwice(old(file), old(View()), f, s, file, View());
        InTurnsAfter(old(entered), e, entered);
        if res.Some? {
          r := Ok(res.value);
          ReportsResult(old(entered), entered, r);
          return;
        }
        f, s, e := file, View(), entered;
        StillPending(id);
        var waited := Enter(1);
        EnterReports(old(entered), e, 1, waited, false);
        KernelMovedWaits(s, View());
        ProgressedTwice(old(file), old(View()), f, s, file, View());
        if waited.Err? {
          r := Err(waited.error);
          ReportsError(old(entered), entered, waited, r);
          return;
        }
      }
    }

    // --- Calls ---

    lemma TakenWasPushed()
      requires Valid()
      ensures hist.taken.Keys <= hist.pushed.Keys && Honest(hist)
    {
      ReachedHonest(cap, trace);
    }

    lemma Invariant()
      requires Ready()
      ensures Inv(View()) && Boundary(hist, calls)
    {
      InitInv(cap);
      RunInv(Init(cap), trace);
    }

    /** Every result this ring has handed back was posted for the entry pushed under the same id. */
    lemma HandedBackIsDelivered(k: nat)
      requires Valid() && k < |trace| && trace[k].Take?
      ensures exists i: nat, j: nat :: Delivered(Init(cap), trace, k, i, j)
    {
      ResultsAreDelivered(cap, trace, k);
    }

    /** Everything that ever happened to an engine object, the ids it took included, is what one thread
        does in some run of many. */
    lemma TraceIsAView(caps: map<Threads.Tid, nat>, t: Threads.Tid, u: Threads.Tid)
      requires Valid() && t in caps && u in caps && t != u && caps[t] == cap
      ensures exists moves ::
                && Threads.Schedule(Threads.Start(caps), moves)
                && Threads.View(Threads.Start(caps), moves, t) == trace
                && Threads.Outcome(Threads.Start(caps), moves).issued == counter.issued
                && t in Threads.Outcome(Threads.Start(caps), moves).threads
                && Threads.Outcome(Threads.Start(caps), moves).threads[t] == View()
    {
      var g := Threads.Start(caps);
      assert Threads.Outcome(g, []) == g && Threads.View(g, [], t) == [];
      var more := Threads.RingRunsAnywhere(caps, [], t, u, trace, counter.issued);
      assert [] + more == more && [] + trace == trace;
    }

    /** Between calls the ring holds what failed calls pushed and never read, and nothing else. */
    lemma HoldsOnlyLeaks()
      requires Ready()
      ensures Outstanding(View()) == UnreadByFailed(calls, hist.taken.Keys)
      ensures (forall c | c in calls :: c.ok) ==> sq == [] && inflight == {} && cq == [] && completed == map[]
    {
      Invariant();
      LeakAccounting(View(), calls);
      if forall c | c in calls :: c.ok {
        NoFailureNoLeak(View(), calls);
      }
    }

    /** Whatever rings of other threads do with the counter leaves this one between calls. */
    twostate lemma StaysReady()
      requires old(Ready()) && unchanged(this)
      requires counter.Valid() && old(counter.issued) <= counter.issued
      ensures Ready()
    {
      Threads.AscendingGrows(0, trace, old(counter.issued), counter.issued);
    }

    /** The file changes by other means than the ring. */
    method FileBecomes(f: File)
      requires Ready()
      modifies this`file
      ensures Ready() && file == f
    {
      file := f;
    }

    /** Put a finished call on record. */
    ghost method Finish(s: State, start: Id, ops: seq<Op>, p: nat, results: seq<int>, ok: bool)
      requires Valid() && Boundary(s.hist, calls) && Called(s, View(), start, ops, p, results)
      requires ok ==> |results| == |ops|
      modifies this`calls
      ensures Ready() && calls == old(calls) + [Call(IdRange(start, p), ok)]
    {
      CallKeepsBoundary(s, View(), calls, start, ops, p, results, ok);
      calls := calls + [Call(IdRange(start, p), ok)];
    }

    /** Push every operation in order, under consecutive ids, submitting whenever the queue is full. */
    method PushAll(start: Id, ops: seq<Op>) returns (r: Result<()>, ghost p: nat)
      requires Valid() && IdRange(start, |ops|) <= hist.owned && IdRange(start, |ops|) !! hist.pushed.Keys
      modifies this`entered, this`sq, this`inflight, this`cq, this`memory, this`file, this`hist, this`trace
      ensures Valid() && old(trace) <= trace && Progressed(old(file), old(View()), file, View())
      ensures Called(old(View()), View(), start, ops, p, [])
      ensures r.Ok? ==> p == |ops| && Undrained(View()) == Undrained(old(View())) + |ops|
      ensures r.Err? ==> r.error == EnterFailed
      ensures Reports(old(entered), entered, r) && entered.locks == old(entered).locks
    {
      hide Valid, Reports, NoneFailed, Extends, FileModel.Advances, Undrained, Called;
      NothingMoved(file, View());
      NoFailureYet(entered);
      CallStarts(View(), View(), start, ops);
      for i := 0 to |ops|
        invariant Valid() && old(trace) <= trace && Progressed(old(file), old(View()), file, View())
        invariant Called(old(View()), View(), start, ops, i, [])
        invariant IdRange(start + i, |ops| - i) <= hist.owned
        invariant NoneFailed(old(entered), entered) && entered.locks == old(entered).locks
        invariant Undrained(View()) == Undrained(old(View())) + i
      {
        ghost var f, s, e := file, View(), entered;
        var pushed := PushWithRetry(Entry(start + i, ops[i]));
        ProgressedTwice(old(file), old(View()), f, s, file, View());
        ReportsAfter(old(entered), e, entered, pushed);
        if pushed.Err? {
          p := i;
          CallWaits(old(View()), s, View(), start, ops, i, []);
          r := Err(pushed.error);
          ReportsError(old(entered), entered, pushed, r);
          return;
        }
        CallPushes(old(View()), s, View(), start, ops, i);
      }
      p := |ops|;
      r := Ok(());
      ReportsResult(old(entered), entered, r);
    }

    /** Begin a call: take its ids, then lock the ring and push its operations. */
    method Begin(ops: seq<Op>) returns (r: Result<()>, start: Id, ghost p: nat)
      requires Valid() && ops != [] && counter.issued + |ops| < U64
      modifies this`entered, this`sq, this`inflight, this`cq, this`memory, this`file, this`hist, this`trace, counter
      ensures Valid() && old(trace) <= trace && Progressed(old(file), old(View()), file, View())
      ensures start == old(counter.next) && counter.issued == old(counter.issued) + |ops|
      ensures Called(old(View()), View(), start, ops, p, [])
      ensures r.Ok? ==> p == |ops| && |ops| <= Undrained(View())
      ensures r.Err? ==> r.error in {EnterFailed, RingUnavailable}
      ensures old(hist.taken).Keys <= old(hist.pushed).Keys
      ensures Reports(old(entered), entered, r) && entered.locks == old(entered).locks + 1
    {
      hide Valid, Extends, FileModel.Advances, Undrained, Called;
      TakenWasPushed();
      start := TakeIds(|ops|);
      JustExtended(old(file), old(View()), file, View());
      CallStarts(old(View()), View(), start, ops);
      p := 0;
      var locked := LockRing();
      if !locked {
        return Err(RingUnavailable), start, p;
      }
      ghost var f, s := file, View();
      r, p := PushAll(start, ops);
      ProgressedTwice(old(file), old(View()), f, s, file, View());
      CallAfterIds(old(View()), s, View(), start, ops, p);
    }

    /** Lock the ring and poll for the next operation of a call. */
    method PollNext(ghost s0: State, myId: Id, ghost start: Id, ghost ops: seq<Op>, ghost p: nat,
                    ghost results: seq<int>)
      returns (r: Result<int>)
      requires Valid() && Called(s0, View(), start, ops, p, results) && |results| < p
      requires myId == start + |results| && s0.hist.taken.Keys <= s0.hist.pushed.Keys
      modifies this`entered, this`sq, this`inflight, this`cq, this`completed, this`memory, this`file, this`hist,
               this`trace
      ensures Valid() && old(trace) <= trace && Progressed(old(file), old(View()), file, View())
      ensures r.Ok? ==> Called(s0, View(), start, ops, p, results + [r.value])
      ensures r.Err? ==> Called(s0, View(), start, ops, p, results) && r.error in {EnterFailed, RingUnavailable}
      ensures Reports(old(entered), entered, r) && entered.locks == old(entered).locks + 1
    {
      hide Valid, Extends, FileModel.Advances, Undrained, Called;
      ghost var s := View();
      CallPending(s0, s, start, ops, p, results);
      var locked := LockRing();
      if !locked {
        NothingMoved(file, View());
        return Err(RingUnavailable);
      }
      r := PollCompletionForId(myId);
      if r.Ok? {
        CallTakes(s0, s, View(), start, ops, p, results, r.value);
      } else {
        CallWaits(s0, s, View(), start, ops, p, results);
      }
    }

    /** One operation: take an id, push, and wait for its result. */
    method SubmitOne(op: Op) returns (r: Result<nat>, myId: Id, ghost p: nat, ghost results: seq<int>)
      requires Ready() && counter.issued + 1 < U64
      modifies this, counter
      ensures Ready() && old(trace) <= trace && Progressed(old(file), old(View()), file, View())
      ensures myId == old(counter.next) && counter.issued == old(counter.issued) + 1
      ensures Called(old(View()), View(), myId, [op], p, results)
      ensures r.Ok? ==> results == [r.value] && p == 1
      ensures r.Err? ==> if results == [] then r.error in {EnterFailed, RingUnavailable}
                         else results[0] < 0 && r.error == Os(-results[0])
      ensures calls == old(calls) + [Call(IdRange(myId, p), r.Ok?)]
      ensures Reports(old(entered), entered, r)
    {
      hide Valid, Reports, NoneFailed, Extends, FileModel.Advances, Undrained, Called;
      var begun: Result<()>;
      begun, myId, p := Begin([op]);
      results := [];
      if begun.Err? {
        Finish(old(View()), myId, [op], p, results, false);
        r := Err(begun.error);
        ReportsError(old(entered), entered, begun, r);
        return;
      }
      ghost var f, s, e := file, View(), entered;
      ReportsOk(old(entered), e, begun);
      var ret := PollNext(old(View()), myId, myId, [op], p, results);
      ProgressedTwice(old(file), old(View()), f, s, file, View());
      ReportsAfter(old(entered), e, entered, ret);
      if ret.Err? {
        Finish(old(View()), myId, [op], p, results, false);
        r := Err(ret.error);
        ReportsError(old(entered), entered, ret, r);
        return;
      }
      results := results + [ret.value];
      Finish(old(View()), myId, [op], p, results, ret.value >= 0);
      r := if ret.value < 0 then Err(Os(-ret.value)) else Ok(ret.value);
      ReportsResult(old(entered), entered, r);
    }

    /** The buffer of an operation whose result a call has taken holds what that operation returned. */
    lemma BufferOf(s0: State, start: Id, ops: seq<Op>, p: nat, results: seq<int>, i: nat)
      requires Valid() && Called(s0, View(), start, ops, p, results) && i < |results|
      ensures start + i in hist.posted && start + i in memory
      ensures memory[start + i] == hist.posted[start + i].data
      ensures hist.posted[start + i].entry == Entry(start + i, ops[i])
      ensures hist.posted[start + i].res == results[i] && WellFormed(hist.posted[start + i])
    {
      hide Legal, After, Threads.Ascending, Called;
      TakenWasPushed();
      CallResults(s0, View(), start, ops, p, results, i);
    }

    /** IORING_OP_READ: on success the bytes returned are those the kernel read for this very call. */
    method SubmitUringRead(fd: int, offset: nat, size: nat)
      returns (r: Result<seq<byte>>, myId: Id, ghost p: nat, ghost results: seq<int>)
      requires Ready() && counter.issued + 1 < U64
      modifies this, counter
      ensures Ready() && old(trace) <= trace && Progressed(old(file), old(View()), file, View())
      ensures counter.issued == old(counter.issued) + 1
      ensures Called(old(View()), View(), myId, [Read(fd, offset, size % U32)], p, results)
      ensures r.Ok? ==> results == [|r.value|] && p == 1 && Filled(hist, myId, [r.value], 1)
      ensures r.Err? ==> if results == [] then r.error in {EnterFailed, RingUnavailable}
                         else results[0] < 0 && r.error == Os(-results[0])
      ensures calls == old(calls) + [Call(IdRange(myId, p), r.Ok?)]
      ensures Reports(old(entered), entered, r)
    {
      hide Valid, Reports, NoneFailed, Progressed, Extends, FileModel.Advances, Undrained, Called, Boundary;
      var buf := Zeros(size);
      var ret: Result<nat>;
      ret, myId, p, results := SubmitOne(ReadOp(fd, offset, size));
      if ret.Err? {
        r := Err(ret.error);
        ReportsError(old(entered), entered, ret, r);
        return;
      }
      BufferOf(old(View()), myId, [ReadOp(fd, offset, size)], p, results, 0);
      FillThenTruncate(buf, memory[myId]);
      buf := Truncate(Fill(buf, memory[myId]), ret.value);
      ReportsOk(old(entered), entered, ret);
      r := Ok(buf);
      ReportsResult(old(entered), entered, r);
    }

    /** IORING_OP_WRITE at the current position: on success the number of bytes accepted. */
    method SubmitUringWrite(fd: int, bytes: seq<byte>)
      returns (r: Result<nat>, myId: Id, ghost p: nat, ghost results: seq<int>)
      requires Ready() && counter.issued + 1 < U64
      modifies this, counter
      ensures Ready() && old(trace) <= trace && Progressed(old(file), old(View()), file, View())
      ensures counter.issued == old(counter.issued) + 1
      ensures Called(old(View()), View(), myId, [Write(fd, bytes[..|bytes| % U32])], p, results)
      ensures r.Ok? ==> results == [r.value] && p == 1
      ensures r.Err? ==> if results == [] then r.error in {EnterFailed, RingUnavailable}
                         else results[0] < 0 && r.error == Os(-results[0])
      ensures calls == old(calls) + [Call(IdRange(myId, p), r.Ok?)]
      ensures Reports(old(entered), entered, r)
    {
      r, myId, p, results := SubmitOne(WriteOp(fd, bytes));
    }

    /** IORING_OP_SPLICE between two descriptors. */
    method SubmitUringSplice(fdIn: int, fdOut: int, size: nat)
      returns (r: Result<nat>, myId: Id, ghost p: nat, ghost results: seq<int>)
      requires Ready() && counter.issued + 1 < U64
      modifies this, counter
      ensures Ready() && old(trace) <= trace && Progressed(old(file), old(View()), file, View())
      ensures counter.issued == old(counter.issued) + 1
      ensures Called(old(View()), View(), myId, [Splice(fdIn, fdOut, size % U32)], p, results)
      ensures r.Ok? ==> results == [r.value] && p == 1 && r.value <= size % U32
      ensures r.Err? ==> if results == [] then r.error in {EnterFailed, RingUnavailable}
                         else results[0] < 0 && r.error == Os(-results[0])
      ensures calls == old(calls) + [Call(IdRange(myId, p), r.Ok?)]
      ensures Reports(old(entered), entered, r)
    {
      hide Valid, Reports, NoneFailed, Progressed, Extends, FileModel.Advances, Undrained, Called, Boundary;
      r, myId, p, results := SubmitOne(Splice(fdIn, fdOut, size % U32));
      if r.Ok? {
        BufferOf(old(View()), myId, [Splice(fdIn, fdOut, size % U32)], p, results, 0);
      }
    }

    /** The submission half of a batch call: push everything, then wait once for that many completions. */
    method SubmitBatch(ops: seq<Op>) returns (r: Result<()>, start: Id, ghost p: nat)
      requires Valid() && ops != [] && counter.issued + |ops| < U64
      modifies this`entered, this`sq, this`inflight, this`cq, this`memory, this`file, this`hist, this`trace, counter
      ensures Valid() && old(trace) <= trace && Progressed(old(file), old(View()), file, View())
      ensures start == old(counter.next) && counter.issued == old(counter.issued) + |ops|
      ensures Called(old(View()), View(), start, ops, p, [])
      ensures r.Ok? ==> p == |ops|
      ensures r.Err? ==> r.error in {EnterFailed, RingUnavailable}
      ensures old(hist.taken).Keys <= old(hist.pushed).Keys
      ensures Reports(old(entered), entered, r)
      ensures r.Ok? ==> entered.lastWant == |ops|
    {
      hide Valid, Extends, FileModel.Advances, Undrained, Called;
      r, start, p := Begin(ops);
      if r.Ok? {
        ghost var f, s := file, View();
        var waited := Enter(|ops|);
        ProgressedTwice(old(file), old(View()), f, s, file, View());
        CallWaits(old(View()), s, View(), start, ops, p, []);
        if waited.Err? {
          r := Err(waited.error);
        }
      }
    }

    /** A batch of reads. It returns a value exactly when every operation completed without an error,
        and then `buffers[i]` is what the kernel read for the i-th specification. */
    method SubmitUringReadBatch(fd: int, specs: seq<(nat, nat)>)
      returns (r: Result<seq<seq<byte>>>, start: Id, ghost p: nat, ghost results: seq<int>)
      requires Ready() && counter.issued + |specs| < U64
      modifies this, counter
      ensures forall i | 0 <= i < |specs| :: ReadOps(fd, specs)[i] == Read(fd, specs[i].0, specs[i].1 % U32)
      ensures Ready() && old(trace) <= trace && Progressed(old(file), old(View()), file, View())
      ensures counter.issued == old(counter.issued) + |specs|
      ensures Called(old(View()), View(), start, ReadOps(fd, specs), p, results)
      ensures r.Ok? <==> |results| == |specs| && forall i | 0 <= i < |results| :: results[i] >= 0
      ensures r.Ok? ==> p == |specs| == |r.value| && Filled(hist, start, r.value, |specs|)
      ensures r.Err? && r.error.Os? ==> results != [] && results[|results| - 1] == -r.error.errno < 0
      ensures r.Err? ==> forall j | 0 <= j < |results| - (if r.error.Os? then 1 else 0) :: results[j] >= 0
      ensures calls == old(calls) + [Call(IdRange(start, p), r.Ok?)]
      ensures Reports(old(entered), entered, r)
    {
      hide Valid, Reports, NoneFailed, Progressed, Extends, FileModel.Advances, Undrained, Called, Boundary;
      var ops := ReadOps(fd, specs);
      p, results := 0, [];
      if specs == [] {
        start := 0;
        CallStarts(View(), View(), start, ops);
        NothingMoved(file, View());
        Finish(View(), start, ops, 0, [], true);
        r := Ok([]);
        NoFailureYet(entered);
        ReportsResult(entered, entered, r);
        return;
      }
      var buffers := seq(|specs|, i requires 0 <= i < |specs| => Zeros(specs[i].1));
      var submitted: Result<()>;
      submitted, start, p := SubmitBatch(ops);
      if submitted.Err? {
        Finish(old(View()), start, ops, p, results, false);
        r := Err(submitted.error);
        ReportsError(old(entered), entered, submitted, r);
        return;
      }
      ReportsOk(old(entered), entered, submitted);
      for i := 0 to |specs|
        invariant Valid() && old(trace) <= trace && Progressed(old(file), old(View()), file, View())
        invariant calls == old(calls) && counter.issued == old(counter.issued) + |specs|
        invariant Called(old(View()), View(), start, ops, p, results) && |results| == i && p == |ops|
        invariant NoneFailed(old(entered), entered)
        invariant forall j | 0 <= j < i :: results[j] >= 0
        invariant |buffers| == |specs| && Filled(hist, start, buffers, i)
        invariant forall j | i <= j < |specs| :: |buffers[j]| == specs[j].1
      {
        ghost var f, s, e := file, View(), entered;
        var ret := PollNext(old(View()), start + i, start, ops, p, results);
        ProgressedTwice(old(file), old(View()), f, s, file, View());
        ReportsAfter(old(entered), e, entered, ret);
        if ret.Err? {
          Finish(old(View()), start, ops, p, results, false);
          r := Err(ret.error);
          ReportsError(old(entered), entered, ret, r);
          return;
        }
        results := results + [ret.value];
        FilledStays(f, s, file, View(), start, buffers, i);
        if ret.value < 0 {
          Finish(old(View()), start, ops, p, results, false);
          r := Err(Os(-ret.value));
          ReportsResult(old(entered), entered, r);
          return;
        }
        BufferOf(old(View()), start, ops, p, results, i);
        FillThenTruncate(buffers[i], memory[start + i]);
        FilledNext(hist, start, buffers, i, memory[start + i]);
        buffers := buffers[i := Truncate(Fill(buffers[i], memory[start + i]), ret.value)];
      }
      Finish(old(View()), start, ops, p, results, true);
      r := Ok(buffers);
      ReportsResult(old(entered), entered, r);
    }

    /** A batch of writes at the current position. It returns a value exactly when every operation
        completed without an error, and then the i-th count is what the kernel accepted of chunk i. */
    method SubmitUringWriteBatch(fd: int, chunks: seq<seq<byte>>)
      returns (r: Result<seq<int>>, start: Id, ghost p: nat, ghost results: seq<int>)
      requires Ready() && counter.issued + |chunks| < U64
      modifies this, counter
      ensures forall i | 0 <= i < |chunks| :: WriteOps(fd, chunks)[i] == Write(fd, chunks[i][..|chunks[i]| % U32])
      ensures Ready() && old(trace) <= trace && Progressed(old(file), old(View()), file, View())
      ensures counter.issued == old(counter.issued) + |chunks|
      ensures Called(old(View()), View(), start, WriteOps(fd, chunks), p, results)
      ensures r.Ok? <==> |results| == |chunks| && forall i | 0 <= i < |results| :: results[i] >= 0
      ensures r.Ok? ==> r.value == results && p == |chunks|
      ensures r.Err? && r.error.Os? ==> results != [] && results[|results| - 1] == -r.error.errno < 0
      ensures r.Err? ==> forall j | 0 <= j < |results| - (if r.error.Os? then 1 else 0) :: results[j] >= 0
      ensures calls == old(calls) + [Call(IdRange(start, p), r.Ok?)]
      ensures Reports(old(entered), entered, r)
    {
      hide Valid, Reports, NoneFailed, Progressed, Extends, FileModel.Advances, Undrained, Called, Boundary;
      var ops := WriteOps(fd, chunks);
      p, results := 0, [];
      if chunks == [] {
        start := 0;
        CallStarts(View(), View(), start, ops);
        NothingMoved(file, View());
        Finish(View(), start, ops, 0, [], true);
        r := Ok([]);
        NoFailureYet(entered);
        ReportsResult(entered, entered, r);
        return;
      }
      var submitted: Result<()>;
      submitted, start, p := SubmitBatch(ops);
      if submitted.Err? {
        Finish(old(View()), start, ops, p, results, false);
        r := Err(submitted.error);
        ReportsError(old(entered), entered, submitted, r);
        return;
      }
      ReportsOk(old(entered), entered, submitted);
      var counts: seq<int> := [];
      for i := 0 to |chunks|
        invariant Valid() && old(trace) <= trace && Progressed(old(file), old(View()), file, View())
        invariant calls == old(calls) && counter.issued == old(counter.issued) + |chunks|
        invariant Called(old(View()), View(), start, ops, p, results) && |results| == i && p == |ops|
        invariant NoneFailed(old(entered), entered)
        invariant forall j | 0 <= j < i :: results[j] >= 0
        invariant counts == results
      {
        ghost var f, s, e := file, View(), entered;
        var ret := PollNext(old(View()), start + i, start, ops, p, results);
        ProgressedTwice(old(file), old(View()), f, s, file, View());
        ReportsAfter(old(entered), e, entered, ret);
        if ret.Err? {
          Finish(old(View()), start, ops, p, results, false);
          r := Err(ret.error);
          ReportsError(old(entered), entered, ret, r);
          return;
        }
        results := results + [ret.value];
        if ret.value < 0 {
          assert results[i] < 0;
          Finish(old(View()), start, ops, p, results, false);
          r := Err(Os(-ret.value));
          ReportsResult(old(entered), entered, r);
          return;
        }
        counts := counts + [ret.value];
      }
      Finish(old(View()), start, ops, p, results, true);
      r := Ok(counts);
      ReportsResult(old(entered), entered, r);
    }

    /** Submit whatever is queued without waiting; no call's accounting changes. */
    method FlushThreadRing() returns (r: Result<nat>)
      requires Ready()
      modifies this`entered, this`sq, this`inflight, this`cq, this`memory, this`file, this`hist, this`trace
      ensures Ready() && old(trace) <= trace && Progressed(old(file), old(View()), file, View())
      ensures KernelMoved(old(View()), View())
      ensures r.Ok? ==> r.value == |old(sq)| - |sq| && (old(sq) != [] ==> r.value >= 1)
      ensures r.Err? ==> r.error in {EnterFailed, RingUnavailable}
      ensures entered.failedSubmits == old(entered).failedSubmits + (if r.Err? && r.error == EnterFailed then 1 else 0)
      ensures entered.failedLocks == old(entered).failedLocks + (if r.Err? && r.error == RingUnavailable then 1 else 0)
      ensures entered.locks == old(entered).locks + 1
      ensures entered.submits == old(entered).submits + (if r.Err? && r.error == RingUnavailable then 0 else 1)
    {
      hide Legal, After, Threads.Ascending, Init, Extends, FileModel.Advances;
      var locked := LockRing();
      if !locked {
        NothingMoved(file, View());
        return Err(RingUnavailable);
      }
      r := Enter(0);
    }
  }
}
