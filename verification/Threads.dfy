/**
 Many threads, each with its own ring, sharing only the counter that hands out ids. A run is any
 interleaving of counter increments and ring steps of all the threads.
 */
module Threads {
  import opened IoTypes
  import opened RingProtocol

  type Tid = nat

  /** `next` is the u64 counter; `issued` is how many ids it has handed out in all. */
  datatype Global = Global(next: Id, issued: nat, threads: map<Tid, State>)

  datatype Action = FetchAdd(n: nat) | Local(step: Step)

  datatype Move = Move(tid: Tid, action: Action)

  /** u64 addition. */
  function WrapAdd(a: nat, b: nat): Id {
    (a + b) % U64
  }

  /** The ids a caller derives from the value fetch_add(n) returned. */
  function Block(start: Id, n: nat): set<Id> {
    set i | 0 <= i < n :: WrapAdd(start, i)
  }

  function Start(caps: map<Tid, nat>): Global {
    Global(1, 0, map t | t in caps :: Init(caps[t]))
  }

  predicate CanMove(g: Global, m: Move) {
    && m.tid in g.threads
    && (m.action.Local? ==> !m.action.step.Alloc? && Enabled(g.threads[m.tid], m.action.step))
  }

  function Moved(g: Global, m: Move): Global
    requires CanMove(g, m)
  {
    var s := g.threads[m.tid];
    match m.action
    case FetchAdd(n) =>
      var owned := s.hist.owned + Block(g.next, n);
      Global(WrapAdd(g.next, n), g.issued + n, g.threads[m.tid := s.(hist := s.hist.(owned := owned))])
    case Local(st) => g.(threads := g.threads[m.tid := Apply(s, st)])
  }

  predicate Schedule(g: Global, moves: seq<Move>) {
    if moves == [] then true
    else
      var n := |moves| - 1;
      Schedule(g, moves[..n]) && CanMove(Outcome(g, moves[..n]), moves[n])
  }

  function Outcome(g: Global, moves: seq<Move>): Global {
    if moves == [] then g
    else
      var n := |moves| - 1;
      var h := Outcome(g, moves[..n]);
      if CanMove(h, moves[n]) then Moved(h, moves[n]) else h
  }

  lemma {:induction false} SchedulePrefix(g: Global, moves: seq<Move>, k: nat)
    requires Schedule(g, moves) && k <= |moves|
    ensures Schedule(g, moves[..k])
    ensures k < |moves| ==> CanMove(Outcome(g, moves[..k]), moves[k])
    ensures Outcome(g, moves[..k]).issued <= Outcome(g, moves).issued
  {
    if k == |moves| {
      assert moves[..k] == moves;
    } else {
      var n := |moves| - 1;
      SchedulePrefix(g, moves[..n], k);
      assert moves[..n][..k] == moves[..k];
    }
  }

  // --- The ids handed out ---

  /** The k-th id the counter hands out, counting from zero. */
  function IdAt(k: nat): Id {
    (1 + k) % U64
  }

  function Ordinal(id: Id): nat {
    (id + U64 - 1) % U64
  }

  lemma IdAtOrdinal(k: nat)
    requires k < U64
    ensures IdAt(k) < U64 && Ordinal(IdAt(k)) == k
  {
  }

  lemma WrapAddIdAt(k: nat, i: nat)
    ensures WrapAdd(IdAt(k), i) == IdAt(k + i)
  {
  }

  /** Every id handed out in a run, in the order the counter gave them, whoever asked. */
  function HandedOut(g: Global, moves: seq<Move>): seq<Id> {
    if moves == [] then []
    else
      var n := |moves| - 1;
      var before := HandedOut(g, moves[..n]);
      match moves[n].action
      case FetchAdd(k) => before + seq(k, i requires 0 <= i < k => WrapAdd(Outcome(g, moves[..n]).next, i))
      case Local(_) => before
  }

  lemma {:induction false} HandedOutInOrder(caps: map<Tid, nat>, moves: seq<Move>)
    requires Schedule(Start(caps), moves)
    ensures var g, ids := Outcome(Start(caps), moves), HandedOut(Start(caps), moves);
            && g.next == IdAt(g.issued)
            && |ids| == g.issued
            && forall k | 0 <= k < |ids| :: ids[k] == IdAt(k)
  {
    if moves != [] {
      var n := |moves| - 1;
      HandedOutInOrder(caps, moves[..n]);
      var h := Outcome(Start(caps), moves[..n]);
      if moves[n].action.FetchAdd? {
        var k := moves[n].action.n;
        WrapAddIdAt(h.issued, k);
        forall i | 0 <= i < k {
          WrapAddIdAt(h.issued, i);
        }
      }
    }
  }

  /** However the increments of all the threads interleave, no id is handed out twice exactly while
      at most 2^64 have been handed out. */
  lemma IdsDistinctIff(caps: map<Tid, nat>, moves: seq<Move>)
    requires Schedule(Start(caps), moves)
    ensures var ids := HandedOut(Start(caps), moves);
            (forall i, j | 0 <= i < j < |ids| :: ids[i] != ids[j]) <==> Outcome(Start(caps), moves).issued <= U64
  {
    HandedOutInOrder(caps, moves);
    var ids := HandedOut(Start(caps), moves);
    if |ids| <= U64 {
      forall i, j | 0 <= i < j < |ids|
        ensures ids[i] != ids[j]
      {
        IdAtOrdinal(i);
        IdAtOrdinal(j);
      }
    } else {
      assert ids[0] == ids[U64];
    }
  }

  // --- Isolation ---

  /** Ids a thread holds or has used. */
  function Ids(s: State): set<Id> {
    s.hist.owned + s.hist.pushed.Keys
  }

  /** These ids are among the first `issued` the counter hands out. */
  ghost predicate FirstOnes(ids: set<Id>, issued: nat) {
    forall id | id in ids :: id < U64 && Ordinal(id) < issued
  }

  /** Every id a thread holds is one the counter has handed out, and no two threads hold the same. */
  ghost predicate Isolated(g: Global) {
    && g.next == IdAt(g.issued)
    && (forall t | t in g.threads :: FirstOnes(Ids(g.threads[t]), g.issued))
    && (forall t, u | t in g.threads && u in g.threads && t != u :: Ids(g.threads[t]) !! Ids(g.threads[u]))
  }

  lemma BlockIsFresh(g: Global, n: nat, t: Tid)
    requires Isolated(g) && g.issued + n <= U64 && t in g.threads
    ensures Block(g.next, n) !! Ids(g.threads[t])
    ensures FirstOnes(Ids(g.threads[t]) + Block(g.next, n), g.issued + n)
  {
    forall i | 0 <= i < n
      ensures WrapAdd(g.next, i) < U64 && Ordinal(WrapAdd(g.next, i)) == g.issued + i
    {
      WrapAddIdAt(g.issued, i);
      IdAtOrdinal(g.issued + i);
    }
  }

  lemma LocalIds(s: State, st: Step)
    requires Enabled(s, st) && !st.Alloc?
    ensures Ids(Apply(s, st)) == Ids(s)
  {
  }

  lemma MoveKeepsIsolation(g: Global, m: Move)
    requires Isolated(g) && CanMove(g, m) && Moved(g, m).issued <= U64
    ensures Isolated(Moved(g, m))
  {
    var h := Moved(g, m);
    match m.action
    case FetchAdd(n) =>
      WrapAddIdAt(g.issued, n);
      forall t | t in g.threads {
        BlockIsFresh(g, n, t);
      }
      assert Ids(h.threads[m.tid]) == Ids(g.threads[m.tid]) + Block(g.next, n);
    case Local(st) =>
      LocalIds(g.threads[m.tid], st);
  }

  /** While the counter has not gone round, no two threads ever hold the same id. */
  lemma {:induction false} ThreadsIsolated(caps: map<Tid, nat>, moves: seq<Move>)
    requires Schedule(Start(caps), moves) && Outcome(Start(caps), moves).issued <= U64
    ensures Isolated(Outcome(Start(caps), moves))
  {
    if moves == [] {
      assert forall t | t in caps :: Ids(Start(caps).threads[t]) == {};
    } else {
      var n := |moves| - 1;
      ThreadsIsolated(caps, moves[..n]);
      MoveKeepsIsolation(Outcome(Start(caps), moves[..n]), moves[n]);
    }
  }

  // --- One thread's view of a run ---

  /** The steps thread `t` takes in a run. */
  function View(g: Global, moves: seq<Move>, t: Tid): seq<Step> {
    if moves == [] then []
    else
      var n := |moves| - 1;
      var before := View(g, moves[..n], t);
      if moves[n].tid != t then before
      else
        match moves[n].action
        case FetchAdd(k) => before + [Alloc(Block(Outcome(g, moves[..n]).next, k))]
        case Local(st) => before + [st]
  }

  /** Seen from one thread, any interleaving is a run of its ring alone. */
  lemma {:induction false} ViewIsARun(caps: map<Tid, nat>, moves: seq<Move>, t: Tid)
    requires Schedule(Start(caps), moves) && Outcome(Start(caps), moves).issued <= U64 && t in caps
    ensures Legal(Init(caps[t]), View(Start(caps), moves, t))
    ensures t in Outcome(Start(caps), moves).threads
    ensures After(Init(caps[t]), View(Start(caps), moves, t)) == Outcome(Start(caps), moves).threads[t]
  {
    if moves != [] {
      var n := |moves| - 1;
      ViewIsARun(caps, moves[..n], t);
      if moves[n].tid == t {
        var g := Outcome(Start(caps), moves[..n]);
        var before, now := View(Start(caps), moves[..n], t), View(Start(caps), moves, t);
        assert now[..|now| - 1] == before;
        if moves[n].action.FetchAdd? {
          ThreadsIsolated(caps, moves[..n]);
          BlockIsFresh(g, moves[n].action.n, t);
        }
      }
    }
  }

  /** Where in the whole run the j-th step of thread `t` is. */
  lemma {:induction false} Locate(g: Global, moves: seq<Move>, t: Tid, j: nat) returns (x: nat)
    requires j < |View(g, moves, t)| && !View(g, moves, t)[j].Alloc?
    ensures x < |moves| && moves[x] == Move(t, Local(View(g, moves, t)[j]))
    ensures View(g, moves[..x], t) == View(g, moves, t)[..j]
  {
    var n := |moves| - 1;
    var before := View(g, moves[..n], t);
    if j < |before| {
      x := Locate(g, moves[..n], t, j);
      assert moves[..n][..x] == moves[..x];
      assert before[..j] == View(g, moves, t)[..j];
    } else {
      x := n;
      assert before == View(g, moves, t)[..j];
    }
  }

  /** In a run of many threads, thread `t` takes the result for `id` at move `m`: it is the result of
      the completion at move `j` of the entry that the same thread pushed at move `i`. */
  ghost predicate DeliveredToOwner(g: Global, moves: seq<Move>, m: nat, i: nat, j: nat)
    requires m < |moves| && moves[m].action.Local? && moves[m].action.step.Take?
  {
    var t, id := moves[m].tid, moves[m].action.step.id;
    var h := Outcome(g, moves[..m]);
    && i < j < m
    && moves[j].tid == t && moves[j].action.Local? && moves[j].action.step.Complete?
    && var d := moves[j].action.step.done;
    && d.entry.id == id
    && moves[i] == Move(t, Local(Push(d.entry)))
    && t in h.threads && id in h.threads[t].completed && h.threads[t].completed[id] == d.res
    && (forall x | 0 <= x < |moves| && PushesId(moves[x], id) ::
          moves[x].tid == t && moves[x].action.step == Push(d.entry))
  }

  predicate PushesId(m: Move, id: Id) {
    m.action.Local? && m.action.step.Push? && m.action.step.entry.id == id
  }

  lemma PushedIsKept(s: State, st: Step, e: Entry)
    requires Inv(s) && Enabled(s, st) && e.id in s.hist.pushed && s.hist.pushed[e.id] == e.op
    ensures e.id in Apply(s, st).hist.pushed && Apply(s, st).hist.pushed[e.id] == e.op
  {
    StepExtends(s, st);
  }

  lemma {:induction false} PushIsRecorded(caps: map<Tid, nat>, moves: seq<Move>, x: nat)
    requires Schedule(Start(caps), moves) && Outcome(Start(caps), moves).issued <= U64
    requires x < |moves| && moves[x].action.Local? && moves[x].action.step.Push?
    ensures var e, s := moves[x].action.step.entry, Outcome(Start(caps), moves).threads;
            moves[x].tid in s && e.id in s[moves[x].tid].hist.pushed && s[moves[x].tid].hist.pushed[e.id] == e.op
  {
    var n := |moves| - 1;
    if x < n {
      PushIsRecorded(caps, moves[..n], x);
      var g, t := Outcome(Start(caps), moves[..n]), moves[n].tid;
      if t == moves[x].tid && moves[n].action.Local? {
        RingKeepsInv(caps, moves[..n], t);
        PushedIsKept(g.threads[t], moves[n].action.step, moves[x].action.step.entry);
      }
    }
  }

  /** The ring of every thread keeps its invariant in every interleaving. */
  lemma {:induction false} RingKeepsInv(caps: map<Tid, nat>, moves: seq<Move>, t: Tid)
    requires Schedule(Start(caps), moves) && Outcome(Start(caps), moves).issued <= U64
    requires t in Outcome(Start(caps), moves).threads
    ensures Inv(Outcome(Start(caps), moves).threads[t])
  {
    KnownThread(caps, moves);
    ViewIsARun(caps, moves, t);
    InitInv(caps[t]);
    RunInv(Init(caps[t]), View(Start(caps), moves, t));
  }

  lemma FindDeliveryInRun(caps: map<Tid, nat>, moves: seq<Move>, m: nat) returns (i: nat, j: nat)
    requires Schedule(Start(caps), moves) && Outcome(Start(caps), moves).issued <= U64
    requires m < |moves| && moves[m].action.Local? && moves[m].action.step.Take?
    ensures i < j < m && moves[j].tid == moves[m].tid && moves[j].action.Local? && moves[j].action.step.Complete?
    ensures var t, id, d := moves[m].tid, moves[m].action.step.id, moves[j].action.step.done;
            var h := Outcome(Start(caps), moves[..m]);
            && d.entry.id == id && moves[i] == Move(t, Local(Push(d.entry)))
            && t in h.threads && id in h.threads[t].completed && h.threads[t].completed[id] == d.res
  {
    var g, t, id := Start(caps), moves[m].tid, moves[m].action.step.id;
    SchedulePrefix(g, moves, m);
    KnownThread(caps, moves[..m]);
    ViewIsARun(caps, moves[..m], t);
    var mine := View(g, moves[..m], t);
    var k := |mine|;
    var all := mine + [Take(id)];
    assert all[..k] == mine;
    var i', j' := FindDelivery(caps[t], all, k);
    j := Locate(g, moves[..m], t, j');
    assert moves[..m][..j] == moves[..j];
    assert mine[..j'][i'] == all[i'];
    i := Locate(g, moves[..j], t, i');
  }

  /** Whatever the threads and the kernel do and in whatever order, and whatever earlier calls left
      behind in a ring, a result is only ever handed to the thread that pushed the entry it is for. */
  lemma {:induction false} ResultsReachTheirOwner(caps: map<Tid, nat>, moves: seq<Move>, m: nat)
    requires Schedule(Start(caps), moves) && Outcome(Start(caps), moves).issued <= U64
    requires m < |moves| && moves[m].action.Local? && moves[m].action.step.Take?
    ensures exists i: nat, j: nat :: DeliveredToOwner(Start(caps), moves, m, i, j)
  {
    var i, j := FindDeliveryInRun(caps, moves, m);
    var t, e := moves[m].tid, moves[i].action.step.entry;
    PushIsRecorded(caps, moves, i);
    ThreadsIsolated(caps, moves);
    var h := Outcome(Start(caps), moves);
    forall x | 0 <= x < |moves| && PushesId(moves[x], e.id)
      ensures moves[x].tid == t && moves[x].action.step == Push(e)
    {
      PushIsRecorded(caps, moves, x);
      assert e.id in Ids(h.threads[t]) && e.id in Ids(h.threads[moves[x].tid]);
    }
    assert DeliveredToOwner(Start(caps), moves, m, i, j);
  }

  lemma {:induction false} KnownThread(caps: map<Tid, nat>, moves: seq<Move>)
    requires Schedule(Start(caps), moves)
    ensures Outcome(Start(caps), moves).threads.Keys == caps.Keys
  {
    if moves != [] {
      KnownThread(caps, moves[..|moves| - 1]);
    }
  }

  // --- Running one ring inside a larger run ---

  /** The blocks of ids taken in `steps` are ones the counter could give one thread while it goes from
      having issued `from` ids to having issued `issued`, in this order and whatever others take between. */
  ghost predicate Ascending(from: nat, steps: seq<Step>, issued: nat) {
    if steps == [] then from <= issued
    else
      var n := |steps| - 1;
      match steps[n]
      case Alloc(ids) => exists k: nat :: Takes(k, ids, issued) && Ascending(from, steps[..n], k)
      case _ => Ascending(from, steps[..n], issued)
  }

  /** `ids` is a block taken when `k` ids had been issued, leaving at most `issued` issued. */
  ghost predicate Takes(k: nat, ids: set<Id>, issued: nat) {
    exists n: nat :: k + n <= issued && ids == Block(IdAt(k), n)
  }

  lemma AscendingStep(from: nat, steps: seq<Step>, issued: nat, st: Step)
    requires Ascending(from, steps, issued) && !st.Alloc?
    ensures Ascending(from, steps + [st], issued)
  {
    assert (steps + [st])[..|steps|] == steps;
  }

  lemma AscendingAlloc(from: nat, steps: seq<Step>, k: nat, n: nat)
    requires Ascending(from, steps, k)
    ensures Ascending(from, steps + [Alloc(Block(IdAt(k), n))], k + n)
  {
    var all := steps + [Alloc(Block(IdAt(k), n))];
    assert all[..|all| - 1] == steps;
    assert Takes(k, Block(IdAt(k), n), k + n);
  }

  lemma {:induction false} AscendingGrows(from: nat, steps: seq<Step>, k: nat, issued: nat)
    requires Ascending(from, steps, k) && k <= issued
    ensures Ascending(from, steps, issued)
  {
    if steps != [] {
      var n := |steps| - 1;
      if steps[n].Alloc? {
        var j: nat :| Takes(j, steps[n].ids, k) && Ascending(from, steps[..n], j);
        assert Takes(j, steps[n].ids, issued);
      } else {
        AscendingGrows(from, steps[..n], k, issued);
      }
    }
  }

  lemma OneMoreMove(g: Global, moves: seq<Move>, m: Move)
    requires Schedule(g, moves) && CanMove(Outcome(g, moves), m)
    ensures Schedule(g, moves + [m]) && Outcome(g, moves + [m]) == Moved(Outcome(g, moves), m)
    ensures forall t | t != m.tid :: View(g, moves + [m], t) == View(g, moves, t)
    ensures View(g, moves + [m], m.tid) == View(g, moves, m.tid) + [
      match m.action
      case FetchAdd(n) => Alloc(Block(Outcome(g, moves).next, n))
      case Local(st) => st]
  {
    assert (moves + [m])[..|moves|] == moves;
  }

  /** In between, thread `t` did `steps`, thread `u` took ids at most, and no other thread did anything. */
  ghost predicate Embedded(g: Global, moves: seq<Move>, more: seq<Move>, t: Tid, u: Tid, steps: seq<Step>,
                           issued: nat)
  {
    var h, k := Outcome(g, moves), Outcome(g, moves + more);
    && Schedule(g, moves + more)
    && k.issued == issued && k.threads.Keys == h.threads.Keys
    && View(g, moves + more, t) == View(g, moves, t) + steps
    && (t in h.threads ==> k.threads[t] == After(h.threads[t], steps))
    && (u in h.threads ==> SameButIds(h.threads[u], k.threads[u]))
    && forall v | v in h.threads && v != t && v != u :: k.threads[v] == h.threads[v]
  }

  predicate SameButIds(s: State, t: State) {
    t.(hist := t.hist.(owned := s.hist.owned)) == s
  }

  lemma EmbedLocal(g: Global, moves: seq<Move>, more: seq<Move>, t: Tid, u: Tid, steps: seq<Step>, issued: nat,
                   st: Step)
    requires Embedded(g, moves, more, t, u, steps, issued) && t != u && t in Outcome(g, moves).threads
    requires !st.Alloc? && Enabled(Outcome(g, moves + more).threads[t], st)
    ensures Embedded(g, moves, more + [Move(t, Local(st))], t, u, steps + [st], issued)
  {
    hide Schedule, Outcome, View, Enabled, Apply;
    OneMoreMove(g, moves + more, Move(t, Local(st)));
    assert moves + more + [Move(t, Local(st))] == moves + (more + [Move(t, Local(st))]);
    OneMoreStep(Outcome(g, moves).threads[t], steps, st);
    assert View(g, moves, t) + steps + [st] == View(g, moves, t) + (steps + [st]);
    hide After;
  }

  lemma EmbedAlloc(g: Global, moves: seq<Move>, more: seq<Move>, t: Tid, u: Tid, steps: seq<Step>, k: nat, n: nat)
    requires Embedded(g, moves, more, t, u, steps, k) && t != u && t in Outcome(g, moves).threads
    requires Outcome(g, moves + more).next == IdAt(k)
    requires Enabled(Outcome(g, moves + more).threads[t], Alloc(Block(IdAt(k), n)))
    ensures Embedded(g, moves, more + [Move(t, FetchAdd(n))], t, u, steps + [Alloc(Block(IdAt(k), n))], k + n)
  {
    var st := Alloc(Block(IdAt(k), n));
    hide Schedule, Outcome, View, Block;
    OneMoreMove(g, moves + more, Move(t, FetchAdd(n)));
    assert moves + more + [Move(t, FetchAdd(n))] == moves + (more + [Move(t, FetchAdd(n))]);
    OneMoreStep(Outcome(g, moves).threads[t], steps, st);
    assert View(g, moves, t) + steps + [st] == View(g, moves, t) + (steps + [st]);
    hide After;
  }

  /** Thread `u` takes the ids in between. */
  lemma EmbedGap(g: Global, moves: seq<Move>, more: seq<Move>, t: Tid, u: Tid, steps: seq<Step>, k: nat, issued: nat)
    requires Embedded(g, moves, more, t, u, steps, k) && t != u && u in Outcome(g, moves).threads && k <= issued
    ensures Embedded(g, moves, more + [Move(u, FetchAdd(issued - k))], t, u, steps, issued)
  {
    hide Schedule, Outcome, View, Block, After;
    OneMoreMove(g, moves + more, Move(u, FetchAdd(issued - k)));
    assert moves + more + [Move(u, FetchAdd(issued - k))] == moves + (more + [Move(u, FetchAdd(issued - k))]);
  }

  lemma EmbedNothing(g: Global, moves: seq<Move>, t: Tid, u: Tid)
    requires Schedule(g, moves)
    ensures Embedded(g, moves, [], t, u, [], Outcome(g, moves).issued)
  {
    assert moves + [] == moves && View(g, moves, t) + [] == View(g, moves, t);
  }

  /** Whatever a thread's ring can do by itself, the ids it takes included, can happen in the middle of
      any run of many threads: some run continues the given one so that this thread does exactly that,
      another only takes the ids that this one does not, and nothing else happens to any thread. */
  lemma {:induction false} RingRunsAnywhere(caps: map<Tid, nat>, moves: seq<Move>, t: Tid, u: Tid, steps: seq<Step>,
                                            issued: nat) returns (more: seq<Move>)
    requires Schedule(Start(caps), moves) && t in caps && u in caps && t != u
    requires t in Outcome(Start(caps), moves).threads
    requires var h := Outcome(Start(caps), moves);
             Legal(h.threads[t], steps) && Ascending(h.issued, steps, issued)
    ensures Embedded(Start(caps), moves, more, t, u, steps, issued)
    decreases |steps|
  {
    hide Enabled, Apply, Schedule, Outcome, View, Embedded, Block;
    var g := Start(caps);
    KnownThread(caps, moves);
    if steps == [] {
      EmbedNothing(g, moves, t, u);
      EmbedGap(g, moves, [], t, u, [], Outcome(g, moves).issued, issued);
      more := [] + [Move(u, FetchAdd(issued - Outcome(g, moves).issued))];
    } else {
      var front, st := steps[..|steps| - 1], steps[|steps| - 1];
      assert steps == front + [st];
      if st.Alloc? {
        var k: nat :| Takes(k, st.ids, issued) && Ascending(Outcome(g, moves).issued, front, k);
        var n: nat :| k + n <= issued && st.ids == Block(IdAt(k), n);
        more := RingRunsAnywhere(caps, moves, t, u, front, k);
        EmbeddedEnds(caps, moves, more, t, u, front, k);
        EmbedAlloc(g, moves, more, t, u, front, k, n);
        more := more + [Move(t, FetchAdd(n))];
        EmbedGap(g, moves, more, t, u, steps, k + n, issued);
        more := more + [Move(u, FetchAdd(issued - (k + n)))];
      } else {
        more := RingRunsAnywhere(caps, moves, t, u, front, issued);
        EmbeddedEnds(caps, moves, more, t, u, front, issued);
        EmbedLocal(g, moves, more, t, u, front, issued, st);
        more := more + [Move(t, Local(st))];
      }
    }
  }

  lemma EmbeddedEnds(caps: map<Tid, nat>, moves: seq<Move>, more: seq<Move>, t: Tid, u: Tid, steps: seq<Step>,
                     issued: nat)
    requires Embedded(Start(caps), moves, more, t, u, steps, issued)
    requires t in Outcome(Start(caps), moves).threads
    ensures var h, k := Outcome(Start(caps), moves), Outcome(Start(caps), moves + more);
            && k.next == IdAt(issued)
            && t in k.threads && k.threads[t] == After(h.threads[t], steps)
  {
    HandedOutInOrder(caps, moves + more);
  }
}
