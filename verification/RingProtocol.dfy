/**
 One thread's ring as a transition system. A run is any sequence of the steps the engine and the
 kernel can take, in any order; the engine's methods (module LinuxEngine) only ever take such steps.
 */
module RingProtocol {
  import opened IoTypes

  /** What has happened on a ring so far; not stored by the program. */
  datatype History = History(
    owned: set<Id>,          // handed out to this thread by the counter, not yet pushed
    order: seq<Entry>,       // every entry pushed, oldest first
    pushed: map<Id, Op>,     // the same entries by id
    log: seq<Done>,          // every operation the kernel has carried out, oldest first
    posted: map<Id, Done>,   // the same operations by id
    taken: map<Id, int>)     // results handed back to callers

  datatype State = State(
    cap: nat,                // submission queue capacity
    sq: seq<Entry>,
    inflight: set<Entry>,
    cq: seq<Cqe>,
    completed: map<Id, int>,
    hist: History)

  function Init(cap: nat): State {
    State(cap, [], {}, [], map[], History({}, [], map[], [], map[], map[]))
  }

  datatype Step =
    | Alloc(ids: set<Id>)    // fetch_add handed these ids to the thread
    | Push(entry: Entry)     // the program pushes a submission queue entry
    | Consume                // the kernel takes the oldest submission queue entry
    | Complete(done: Done)   // the kernel finishes an in-flight operation and posts its completion
    | Reap                   // the program moves the oldest completion into the table
    | Take(id: Id)           // the program removes a result from the table

  predicate IsKernel(st: Step) {
    st.Consume? || st.Complete?
  }

  /** What a completion may say about its own entry, whatever the descriptor. */
  predicate WellFormed(d: Done) {
    match d.entry.op
    case Read(_, _, size) => d.res <= size && |d.data| == (if d.res < 0 then 0 else d.res)
    case Write(_, bytes) => d.res <= |bytes| && d.data == []
    case Splice(_, _, size) => d.res <= size && |d.data| == (if d.res < 0 then 0 else d.res)
  }

  predicate Enabled(s: State, st: Step) {
    match st
    case Alloc(ids) => ids !! s.hist.owned && ids !! s.hist.pushed.Keys
    case Push(e) => |s.sq| < s.cap && e.id in s.hist.owned
    case Consume => s.sq != []
    case Complete(d) => d.entry in s.inflight && WellFormed(d)
    case Reap => s.cq != []
    case Take(id) => id in s.completed
  }

  function Apply(s: State, st: Step): State
    requires Enabled(s, st)
  {
    var h := s.hist;
    match st
    case Alloc(ids) => s.(hist := h.(owned := h.owned + ids))
    case Push(e) =>
      s.(sq := s.sq + [e],
         hist := h.(owned := h.owned - {e.id}, order := h.order + [e], pushed := h.pushed[e.id := e.op]))
    case Consume => s.(sq := s.sq[1..], inflight := s.inflight + {s.sq[0]})
    case Complete(d) =>
      s.(inflight := s.inflight - {d.entry},
         cq := s.cq + [Cqe(d.entry.id, d.res)],
         hist := h.(log := h.log + [d], posted := h.posted[d.entry.id := d]))
    case Reap => s.(cq := s.cq[1..], completed := s.completed[s.cq[0].id := s.cq[0].res])
    case Take(id) =>
      s.(completed := s.completed - {id}, hist := h.(taken := h.taken[id := s.completed[id]]))
  }

  /** `steps` can be taken one after the other from `s`. */
  predicate Legal(s: State, steps: seq<Step>) {
    if steps == [] then true
    else
      var n := |steps| - 1;
      Legal(s, steps[..n]) && Enabled(After(s, steps[..n]), steps[n])
  }

  /** The state `steps` lead to; a step that is not enabled is skipped, which Legal rules out. */
  function After(s: State, steps: seq<Step>): State {
    if steps == [] then s
    else
      var n := |steps| - 1;
      var t := After(s, steps[..n]);
      if Enabled(t, steps[n]) then Apply(t, steps[n]) else t
  }

  /** Taking one more step at the end of a run. */
  lemma OneMoreStep(s: State, steps: seq<Step>, st: Step)
    requires Enabled(After(s, steps), st)
    ensures Legal(s, steps) ==> Legal(s, steps + [st])
    ensures After(s, steps + [st]) == Apply(After(s, steps), st)
  {
    assert (steps + [st])[..|steps|] == steps;
  }

  // --- The invariant ---

  predicate InSq(s: State, id: Id)
    requires id in s.hist.pushed
  {
    Entry(id, s.hist.pushed[id]) in s.sq
  }

  predicate InFlight(s: State, id: Id)
    requires id in s.hist.pushed
  {
    Entry(id, s.hist.pushed[id]) in s.inflight
  }

  predicate InCq(s: State, id: Id) {
    id in s.hist.posted && Cqe(id, s.hist.posted[id].res) in s.cq
  }

  /** In how many places a pushed id is. */
  function Places(s: State, id: Id): nat
    requires id in s.hist.pushed
  {
    (if InSq(s, id) then 1 else 0) + (if InFlight(s, id) then 1 else 0) + (if InCq(s, id) then 1 else 0)
    + (if id in s.completed then 1 else 0) + (if id in s.hist.taken then 1 else 0)
  }

  /** Every pushed id is in exactly one place, and each place holds pushed ids only, at most once. */
  ghost predicate Located(s: State) {
    && (forall id | id in s.hist.pushed :: Places(s, id) == 1)
    && (forall e | e in s.sq :: e.id in s.hist.pushed && s.hist.pushed[e.id] == e.op)
    && (forall e | e in s.inflight :: e.id in s.hist.pushed && s.hist.pushed[e.id] == e.op)
    && (forall c | c in s.cq :: c.id in s.hist.pushed && c.id in s.hist.posted)
    && s.completed.Keys <= s.hist.pushed.Keys
    && s.hist.taken.Keys <= s.hist.pushed.Keys
    && s.hist.owned !! s.hist.pushed.Keys
    && (forall i, j | 0 <= i < j < |s.cq| :: s.cq[i].id != s.cq[j].id)
  }

  /** The submission queue is the part of the push order the kernel has not consumed. */
  ghost predicate Queued(s: State) {
    && |s.sq| <= s.cap
    && |s.sq| <= |s.hist.order|
    && s.sq == s.hist.order[|s.hist.order| - |s.sq|..]
    && (forall i, j | 0 <= i < j < |s.hist.order| :: s.hist.order[i].id != s.hist.order[j].id)
    && (forall e | e in s.hist.order :: e.id in s.hist.pushed && s.hist.pushed[e.id] == e.op)
    && (forall id | id in s.hist.pushed :: Entry(id, s.hist.pushed[id]) in s.hist.order)
  }

  /** Every result waiting in the completion queue, in the table or already handed back is the
      one the kernel posted for the entry pushed under that id. */
  ghost predicate Truthful(s: State) {
    && (forall id | id in s.hist.posted ::
          && id in s.hist.pushed && s.hist.posted[id].entry == Entry(id, s.hist.pushed[id])
          && WellFormed(s.hist.posted[id]))
    && (forall id | id in s.hist.posted :: !InSq(s, id) && !InFlight(s, id))
    && (forall c | c in s.cq :: c.id in s.hist.posted && s.hist.posted[c.id].res == c.res)
    && (forall id | id in s.completed :: id in s.hist.posted && s.hist.posted[id].res == s.completed[id])
    && (forall id | id in s.hist.taken :: id in s.hist.posted && s.hist.posted[id].res == s.hist.taken[id])
  }

  /** The kernel's log and the posted results say the same, each operation once. */
  ghost predicate Logged(s: State) {
    && (forall d | d in s.hist.log :: d.entry.id in s.hist.posted && s.hist.posted[d.entry.id] == d)
    && (forall id | id in s.hist.posted :: s.hist.posted[id].entry.id == id && s.hist.posted[id] in s.hist.log)
    && (forall i, j | 0 <= i < j < |s.hist.log| :: s.hist.log[i].entry.id != s.hist.log[j].entry.id)
  }

  ghost predicate Inv(s: State) {
    Located(s) && Queued(s) && Truthful(s) && Logged(s)
  }

  lemma InitInv(cap: nat)
    ensures Inv(Init(cap))
  {
  }

  lemma HeadTail<T>(q: seq<T>)
    requires q != []
    ensures forall x :: x in q <==> x == q[0] || x in q[1..]
  {
    assert q == [q[0]] + q[1..];
  }

  lemma HeadOnce(s: State)
    requires Queued(s) && s.sq != []
    ensures s.sq[0] !in s.sq[1..]
  {
    assert forall j | 0 < j < |s.sq| :: s.sq[j].id != s.sq[0].id;
  }

  lemma ConsumePlaces(s: State, id: Id)
    requires s.sq != [] && s.sq[0] !in s.sq[1..]
    requires s.sq[0].id in s.hist.pushed && s.hist.pushed[s.sq[0].id] == s.sq[0].op
    requires id in s.hist.pushed && Places(s, id) == 1
    ensures Places(Apply(s, Consume), id) == 1
  {
    HeadTail(s.sq);
    var e := Entry(id, s.hist.pushed[id]);
    assert e == s.sq[0] <==> id == s.sq[0].id;
  }

  lemma ConsumeLocated(s: State)
    requires Inv(s) && Enabled(s, Consume)
    ensures Located(Apply(s, Consume))
  {
    hide Places;
    HeadTail(s.sq);
    HeadOnce(s);
    hide Queued, Logged, Truthful;
    forall id | id in s.hist.pushed {
      ConsumePlaces(s, id);
    }
    ConsumeHolds(s);
  }

  lemma ConsumeHolds(s: State)
    requires s.sq != []
    ensures var t := Apply(s, Consume);
            && t == s.(sq := t.sq, inflight := t.inflight)
            && (forall e | e in t.sq :: e in s.sq) && (forall e | e in t.inflight :: e in s.inflight || e == s.sq[0])
  {
  }

  lemma CompleteLocated(s: State, d: Done)
    requires Inv(s) && Enabled(s, Complete(d))
    ensures Located(Apply(s, Complete(d)))
  {
    hide Queued, Logged;
    var t := Apply(s, Complete(d));
    var me := d.entry.id;
    assert Places(s, me) == 1 && InFlight(s, me);
    assert me !in s.hist.posted;
    forall id | id in t.hist.pushed
      ensures Places(t, id) == 1
    {
      assert Places(s, id) == 1;
      if id != me {
        assert InCq(s, id) == InCq(t, id);
      }
    }
  }

  lemma CompleteTruthful(s: State, d: Done)
    requires Inv(s) && Enabled(s, Complete(d))
    ensures Truthful(Apply(s, Complete(d)))
  {
    hide Queued, Logged, WellFormed;
    var t := Apply(s, Complete(d));
    var me := d.entry.id;
    assert Places(s, me) == 1 && InFlight(s, me) && !InSq(s, me);
    assert me !in s.hist.posted;
    forall id | id in t.hist.posted
      ensures !InSq(t, id) && !InFlight(t, id)
    {
      assert id != me ==> !InSq(s, id) && !InFlight(s, id);
    }
    forall c | c in t.cq
      ensures c.id in t.hist.posted && t.hist.posted[c.id].res == c.res
    {
      assert c in s.cq || c == Cqe(me, d.res);
    }
  }

  lemma PushLocated(s: State, e: Entry)
    requires Inv(s) && Enabled(s, Push(e))
    ensures Located(Apply(s, Push(e)))
  {
    hide Queued, Logged;
  }

  lemma ReapLocated(s: State)
    requires Inv(s) && Enabled(s, Reap)
    ensures Located(Apply(s, Reap))
  {
    hide Queued, Logged;
    HeadTail(s.cq);
  }

  lemma TakeLocated(s: State, id: Id)
    requires Inv(s) && Enabled(s, Take(id))
    ensures Located(Apply(s, Take(id)))
  {
    hide Queued, Logged;
  }

  lemma StepLocated(s: State, st: Step)
    requires Inv(s) && Enabled(s, st)
    ensures Located(Apply(s, st))
  {
    match st
    case Alloc(_) =>
    case Push(e) => PushLocated(s, e);
    case Consume => ConsumeLocated(s);
    case Complete(d) => CompleteLocated(s, d);
    case Reap => ReapLocated(s);
    case Take(id) => TakeLocated(s, id);
  }

  lemma PushQueued(s: State, e: Entry)
    requires Queued(s) && Enabled(s, Push(e)) && e.id !in s.hist.pushed
    ensures Queued(Apply(s, Push(e)))
  {
  }

  lemma ConsumeQueued(s: State)
    requires Queued(s) && Enabled(s, Consume)
    ensures Queued(Apply(s, Consume))
  {
    assert s.sq[1..] == s.hist.order[|s.hist.order| - |s.sq| + 1..];
  }

  lemma StepQueued(s: State, st: Step)
    requires Inv(s) && Enabled(s, st)
    ensures Queued(Apply(s, st))
  {
    assert st.Push? ==> st.entry.id !in s.hist.pushed;
    hide Located, Logged, Truthful;
    match st
    case Push(e) => PushQueued(s, e);
    case Consume => ConsumeQueued(s);
    case _ => OtherQueued(s, st);
  }

  lemma OtherQueued(s: State, st: Step)
    requires Queued(s) && Enabled(s, st) && !st.Push? && !st.Consume?
    ensures Queued(Apply(s, st))
  {
    var t := Apply(s, st);
    assert t.sq == s.sq && t.cap == s.cap && t.hist.order == s.hist.order && t.hist.pushed == s.hist.pushed;
  }

  lemma TakeTruthful(s: State, st: Step)
    requires Located(s) && Truthful(s) && Enabled(s, st) && !st.Consume? && !st.Complete? && !st.Reap?
    ensures Truthful(Apply(s, st))
  {
  }

  lemma StepTruthful(s: State, st: Step)
    requires Inv(s) && Enabled(s, st)
    ensures Truthful(Apply(s, st))
  {
    hide Queued, Logged;
    match st
    case Consume => HeadTail(s.sq);
    case Complete(d) => CompleteTruthful(s, d);
    case Reap => HeadTail(s.cq);
    case _ => TakeTruthful(s, st);
  }

  lemma CompleteLogged(s: State, d: Done)
    requires Logged(s) && Enabled(s, Complete(d)) && d.entry.id !in s.hist.posted
    ensures Logged(Apply(s, Complete(d)))
  {
    hide WellFormed;
  }

  lemma OtherLogged(s: State, st: Step)
    requires Logged(s) && Enabled(s, st) && !st.Complete?
    ensures Logged(Apply(s, st))
  {
    var t := Apply(s, st);
    assert t.hist.log == s.hist.log && t.hist.posted == s.hist.posted;
  }

  lemma StepLogged(s: State, st: Step)
    requires Inv(s) && Enabled(s, st)
    ensures Logged(Apply(s, st))
  {
    hide Queued, Logged;
    if st.Complete? {
      assert Places(s, st.done.entry.id) == 1 && InFlight(s, st.done.entry.id);
      CompleteLogged(s, st.done);
    } else {
      OtherLogged(s, st);
    }
  }

  /** Every step keeps the invariant. */
  lemma {:induction false} StepInv(s: State, st: Step)
    requires Inv(s) && Enabled(s, st)
    ensures Inv(Apply(s, st))
  {
    hide Located, Queued, Truthful, Logged, Apply;
    StepLocated(s, st);
    StepQueued(s, st);
    StepTruthful(s, st);
    StepLogged(s, st);
  }

  /** So does every run. */
  lemma {:induction false} RunInv(s: State, steps: seq<Step>)
    requires Inv(s) && Legal(s, steps)
    ensures Inv(After(s, steps))
  {
    hide Inv, Apply, Enabled;
    if steps != [] {
      var n := |steps| - 1;
      RunInv(s, steps[..n]);
      StepInv(After(s, steps[..n]), steps[n]);
    }
  }

  // --- What every run guarantees ---

  /** History is only ever added to. */
  ghost predicate Extends(h: History, g: History) {
    && h.order <= g.order && h.log <= g.log
    && (forall id | id in h.pushed :: id in g.pushed && g.pushed[id] == h.pushed[id])
    && (forall id | id in h.posted :: id in g.posted && g.posted[id] == h.posted[id])
    && (forall id | id in h.taken :: id in g.taken && g.taken[id] == h.taken[id])
  }

  lemma StepExtends(s: State, st: Step)
    requires Inv(s) && Enabled(s, st)
    ensures Extends(s.hist, Apply(s, st).hist)
  {
    hide Queued, Logged;
    match st
    case Complete(d) => assert Places(s, d.entry.id) == 1;
    case Take(id) => assert Places(s, id) == 1;
    case _ =>
  }

  /** What a step leaves in the history. */
  ghost predicate OnRecord(st: Step, h: History) {
    match st
    case Complete(d) => d.entry.id in h.posted && h.posted[d.entry.id] == d
    case Push(e) => e.id in h.pushed && h.pushed[e.id] == e.op
    case Take(id) => id in h.taken
    case _ => true
  }

  lemma StaysOnRecord(st: Step, h: History, g: History)
    requires OnRecord(st, h) && Extends(h, g)
    ensures OnRecord(st, g)
  {
  }

  lemma ComesOnRecord(s: State, st: Step)
    requires Enabled(s, st)
    ensures OnRecord(st, Apply(s, st).hist)
  {
  }

  /** A step in a legal run is still on record at its end. */
  lemma {:induction false} Recorded(s: State, steps: seq<Step>, j: nat)
    requires Inv(s) && Legal(s, steps) && j < |steps|
    ensures OnRecord(steps[j], After(s, steps).hist)
  {
    hide Inv, Apply, Enabled, OnRecord, Extends;
    var n := |steps| - 1;
    var t := After(s, steps[..n]);
    RunInv(s, steps[..n]);
    if j < n {
      Recorded(s, steps[..n], j);
      StepExtends(t, steps[n]);
      StaysOnRecord(steps[j], t.hist, After(s, steps).hist);
    } else {
      ComesOnRecord(t, steps[n]);
    }
  }

  /** In a legal run an id is pushed once, completed once and handed back once. */
  lemma OncePerId(s: State, steps: seq<Step>, i: nat, j: nat)
    requires Inv(s) && Legal(s, steps) && i < j < |steps|
    ensures steps[i].Push? && steps[j].Push? ==> steps[i].entry.id != steps[j].entry.id
    ensures steps[i].Complete? && steps[j].Complete? ==> steps[i].done.entry.id != steps[j].done.entry.id
    ensures steps[i].Take? && steps[j].Take? ==> steps[i].id != steps[j].id
  {
    hide Inv, Legal, After;
    EnabledAt(s, steps, j);
    RunInv(s, steps[..j]);
    Recorded(s, steps[..j], i);
    NotAgain(After(s, steps[..j]), steps[i], steps[j]);
  }

  /** What is on record cannot be done again. */
  lemma NotAgain(s: State, done: Step, st: Step)
    requires Inv(s) && OnRecord(done, s.hist) && Enabled(s, st)
    ensures done.Push? && st.Push? ==> done.entry.id != st.entry.id
    ensures done.Complete? && st.Complete? ==> done.done.entry.id != st.done.entry.id
    ensures done.Take? && st.Take? ==> done.id != st.id
  {
    hide Queued, Logged;
    if st.Complete? {
      assert Places(s, st.done.entry.id) == 1;
    } else if st.Take? {
      assert Places(s, st.id) == 1;
    }
  }

  lemma {:induction false} LegalPrefix(s: State, steps: seq<Step>, k: nat)
    requires Legal(s, steps) && k <= |steps|
    ensures Legal(s, steps[..k])
  {
    hide Enabled, Apply;
    if k == |steps| {
      assert steps[..k] == steps;
    } else {
      var n := |steps| - 1;
      LegalPrefix(s, steps[..n], k);
      assert steps[..n][..k] == steps[..k];
    }
  }

  /** A result on record at the end of a run was posted by a step of it. */
  lemma {:induction false} PostedBy(cap: nat, steps: seq<Step>, id: Id)
    requires Legal(Init(cap), steps) && id in After(Init(cap), steps).hist.posted
    ensures exists j :: 0 <= j < |steps| && steps[j] == Complete(After(Init(cap), steps).hist.posted[id])
  {
    var n := |steps| - 1;
    var t, u := After(Init(cap), steps[..n]), After(Init(cap), steps);
    PostedInOneStep(t, steps[n], id);
    hide Enabled, Apply;
    if steps[n] != Complete(u.hist.posted[id]) {
      PostedBy(cap, steps[..n], id);
      var j :| 0 <= j < n && steps[..n][j] == Complete(t.hist.posted[id]);
      assert steps[j] == Complete(u.hist.posted[id]);
    }
  }

  lemma PostedInOneStep(s: State, st: Step, id: Id)
    requires Enabled(s, st) && id in Apply(s, st).hist.posted
    ensures var h := Apply(s, st).hist;
            st == Complete(h.posted[id]) || (id in s.hist.posted && s.hist.posted[id] == h.posted[id])
  {
  }

  /** An entry on record at the end of a run was pushed by a step of it. */
  lemma {:induction false} PushedBy(cap: nat, steps: seq<Step>, id: Id)
    requires Legal(Init(cap), steps) && id in After(Init(cap), steps).hist.pushed
    ensures exists i :: 0 <= i < |steps| && steps[i] == Push(Entry(id, After(Init(cap), steps).hist.pushed[id]))
  {
    var n := |steps| - 1;
    var t, u := After(Init(cap), steps[..n]), After(Init(cap), steps);
    PushedInOneStep(t, steps[n], id);
    hide Enabled, Apply;
    if steps[n] != Push(Entry(id, u.hist.pushed[id])) {
      PushedBy(cap, steps[..n], id);
      var i :| 0 <= i < n && steps[..n][i] == Push(Entry(id, t.hist.pushed[id]));
      assert steps[i] == Push(Entry(id, u.hist.pushed[id]));
    }
  }

  lemma PushedInOneStep(s: State, st: Step, id: Id)
    requires Enabled(s, st) && id in Apply(s, st).hist.pushed
    ensures var h := Apply(s, st).hist;
            st == Push(Entry(id, h.pushed[id])) || (id in s.hist.pushed && s.hist.pushed[id] == h.pushed[id])
  {
  }

  /** The value a run hands back at step `k` for `id` is the result of the only completion the kernel
      posts under that id anywhere in the run; that completion comes earlier, and it is the completion
      of the only entry ever pushed under that id, pushed earlier still. */
  ghost predicate Delivered(s: State, steps: seq<Step>, k: nat, i: nat, j: nat)
    requires k < |steps| && steps[k].Take?
  {
    var id := steps[k].id;
    && i < j < k
    && steps[j].Complete? && steps[j].done.entry.id == id
    && steps[i] == Push(steps[j].done.entry)
    && (forall x | 0 <= x < |steps| && steps[x].Push? && steps[x].entry.id == id :: x == i)
    && (forall x | 0 <= x < |steps| && steps[x].Complete? && steps[x].done.entry.id == id :: x == j)
    && (forall x | 0 <= x < |steps| && steps[x].Take? && steps[x].id == id :: x == k)
    && id in After(s, steps[..k]).completed
    && After(s, steps[..k]).completed[id] == steps[j].done.res
  }

  lemma TakesWhatWasPosted(s: State, id: Id)
    requires Inv(s) && id in s.completed
    ensures id in s.hist.posted && s.hist.posted[id].entry.id == id && s.completed[id] == s.hist.posted[id].res
  {
  }

  lemma CompletesWhatWasPushed(s: State, d: Done)
    requires Inv(s) && Enabled(s, Complete(d))
    ensures d.entry.id in s.hist.pushed && d.entry == Entry(d.entry.id, s.hist.pushed[d.entry.id])
  {
  }

  /** Where the entry and the completion behind a result come from. */
  lemma FindDelivery(cap: nat, steps: seq<Step>, k: nat) returns (i: nat, j: nat)
    requires Legal(Init(cap), steps) && k < |steps| && steps[k].Take?
    ensures i < j < k && steps[j].Complete? && steps[j].done.entry.id == steps[k].id
    ensures steps[i] == Push(steps[j].done.entry)
    ensures steps[k].id in After(Init(cap), steps[..k]).completed
    ensures After(Init(cap), steps[..k]).completed[steps[k].id] == steps[j].done.res
  {
    hide Inv, Legal, After;
    var s, id := Init(cap), steps[k].id;
    InitInv(cap);
    EnabledAt(s, steps, k);
    var t := After(s, steps[..k]);
    assert id in t.hist.posted && t.hist.posted[id].entry.id == id && t.completed[id] == t.hist.posted[id].res by {
      RunInv(s, steps[..k]);
      TakesWhatWasPosted(t, id);
    }
    PostedBy(cap, steps[..k], id);
    j :| 0 <= j < k && steps[..k][j] == Complete(t.hist.posted[id]);
    var d := steps[j].done;
    EnabledAt(s, steps, j);
    var u := After(s, steps[..j]);
    assert id in u.hist.pushed && d.entry == Entry(id, u.hist.pushed[id]) by {
      RunInv(s, steps[..j]);
      CompletesWhatWasPushed(u, d);
    }
    PushedBy(cap, steps[..j], id);
    i :| 0 <= i < j && steps[..j][i] == Push(d.entry);
  }

  lemma EnabledAt(s: State, steps: seq<Step>, k: nat)
    requires Legal(s, steps) && k < |steps|
    ensures Legal(s, steps[..k]) && Enabled(After(s, steps[..k]), steps[k])
  {
    LegalPrefix(s, steps, k + 1);
    assert steps[..k + 1][..k] == steps[..k];
  }

  lemma ResultsAreDelivered(cap: nat, steps: seq<Step>, k: nat)
    requires Legal(Init(cap), steps) && k < |steps| && steps[k].Take?
    ensures exists i: nat, j: nat :: Delivered(Init(cap), steps, k, i, j)
  {
    var i, j := FindDelivery(cap, steps, k);
    hide Inv, Legal, After;
    InitInv(cap);
    forall x | 0 <= x < |steps|
      ensures steps[x].Push? && steps[x].entry.id == steps[k].id ==> x == i
      ensures steps[x].Complete? && steps[x].done.entry.id == steps[k].id ==> x == j
      ensures steps[x].Take? && steps[x].id == steps[k].id ==> x == k
    {
      if x < i { OncePerId(Init(cap), steps, x, i); } else if i < x { OncePerId(Init(cap), steps, i, x); }
      if x < j { OncePerId(Init(cap), steps, x, j); } else if j < x { OncePerId(Init(cap), steps, j, x); }
      if x < k { OncePerId(Init(cap), steps, x, k); } else if k < x { OncePerId(Init(cap), steps, k, x); }
    }
    assert Delivered(Init(cap), steps, k, i, j);
  }

  /** In every run, an id pushed and not handed back is in exactly one of the submission queue, the
      kernel's hands, the completion queue and the table. */
  lemma UnreadIsInOnePlace(cap: nat, steps: seq<Step>, id: Id)
    requires Legal(Init(cap), steps)
    requires id in After(Init(cap), steps).hist.pushed && id !in After(Init(cap), steps).hist.taken
    ensures var s := After(Init(cap), steps);
            (if InSq(s, id) then 1 else 0) + (if InFlight(s, id) then 1 else 0) + (if InCq(s, id) then 1 else 0)
            + (if id in s.completed then 1 else 0) == 1
  {
    InitInv(cap);
    RunInv(Init(cap), steps);
    assert Places(After(Init(cap), steps), id) == 1;
  }

  /** The kernel takes entries in the order they were pushed: what is still queued is the tail of it. */
  lemma {:induction false} QueueIsTail(cap: nat, steps: seq<Step>)
    requires Legal(Init(cap), steps)
    ensures var s := After(Init(cap), steps);
            |s.sq| <= cap && |s.sq| <= |s.hist.order| && s.sq == s.hist.order[|s.hist.order| - |s.sq|..]
  {
    InitInv(cap);
    RunInv(Init(cap), steps);
    CapStays(Init(cap), steps);
  }

  lemma {:induction false} CapStays(s: State, steps: seq<Step>)
    ensures After(s, steps).cap == s.cap
  {
    if steps != [] {
      CapStays(s, steps[..|steps| - 1]);
    }
  }

  /** Reaping never overwrites a result that is still in the table. */
  lemma ReapNeverOverwrites(cap: nat, steps: seq<Step>)
    requires Legal(Init(cap), steps) && Enabled(After(Init(cap), steps), Reap)
    ensures var s := After(Init(cap), steps);
            s.cq[0].id !in s.completed && s.cq[0].id !in s.hist.taken
  {
    InitInv(cap);
    RunInv(Init(cap), steps);
    var s := After(Init(cap), steps);
    assert s.cq[0] in s.cq;
    assert Places(s, s.cq[0].id) == 1;
  }

  // --- Outstanding work and waiting ---

  /** Operations pushed whose completion has not been reaped. */
  function Undrained(s: State): nat {
    |s.sq| + |s.inflight| + |s.cq|
  }

  /** Ids with something left in the rings or the table. */
  function Outstanding(s: State): set<Id> {
    (set e | e in s.sq :: e.id) + (set e | e in s.inflight :: e.id) + (set c | c in s.cq :: c.id) + s.completed.Keys
  }

  lemma OutstandingIsInPlace(s: State, id: Id)
    requires Inv(s)
    ensures id in Outstanding(s) <==>
              id in s.hist.pushed && (InSq(s, id) || InFlight(s, id) || InCq(s, id) || id in s.completed)
  {
    hide Queued, Logged;
    if id in s.hist.pushed {
      assert Entry(id, s.hist.pushed[id]).id == id;
      if InCq(s, id) {
        assert Cqe(id, s.hist.posted[id].res).id == id;
      }
    }
  }

  /** What is left anywhere is exactly what was pushed and never handed back. */
  lemma {:induction false} OutstandingIsUnread(s: State)
    requires Inv(s)
    ensures Outstanding(s) == s.hist.pushed.Keys - s.hist.taken.Keys
  {
    forall id
      ensures id in Outstanding(s) <==> id in s.hist.pushed.Keys - s.hist.taken.Keys
    {
      OutstandingIsInPlace(s, id);
      if id in s.hist.pushed {
        assert Places(s, id) == 1;
      }
    }
  }

  /** Only the kernel moved: nothing pushed, reaped or taken, the submission queue shortened from its
      head, and every consumed operation still in flight or completed. */
  ghost predicate KernelMoved(s: State, t: State) {
    && t.cap == s.cap && t.completed == s.completed
    && t.hist.owned == s.hist.owned && t.hist.order == s.hist.order
    && t.hist.pushed == s.hist.pushed && t.hist.taken == s.hist.taken
    && |t.sq| <= |s.sq| && s.cq <= t.cq && s.hist.log <= t.hist.log
    && (forall id | id in s.hist.posted :: id in t.hist.posted && t.hist.posted[id] == s.hist.posted[id])
    && Undrained(t) == Undrained(s)
  }

  lemma KernelStepMoves(s: State, st: Step)
    requires Inv(s) && Enabled(s, st) && IsKernel(st)
    ensures KernelMoved(s, Apply(s, st))
  {
    hide Queued, Logged;
    if st.Consume? {
      ConsumeMoves(s);
    } else {
      CompleteMoves(s, st.done);
    }
  }

  lemma ConsumeMoves(s: State)
    requires Located(s) && Enabled(s, Consume)
    ensures KernelMoved(s, Apply(s, Consume))
  {
    assert s.sq[0] in s.sq;
    assert Places(s, s.sq[0].id) == 1;
    assert s.sq[0] !in s.inflight;
    hide Located;
  }

  lemma CompleteMoves(s: State, d: Done)
    requires Located(s) && Truthful(s) && Enabled(s, Complete(d))
    ensures KernelMoved(s, Apply(s, Complete(d)))
  {
    assert Places(s, d.entry.id) == 1;
    assert d.entry.id !in s.hist.posted;
    hide Located, Truthful;
  }

  ghost predicate KernelOnly(steps: seq<Step>) {
    forall st | st in steps :: IsKernel(st)
  }

  lemma {:induction false} KernelRunMoves(s: State, steps: seq<Step>)
    requires Inv(s) && Legal(s, steps) && KernelOnly(steps)
    ensures KernelMoved(s, After(s, steps))
  {
    hide Inv, Enabled, Apply;
    if steps != [] {
      var n := |steps| - 1;
      assert forall st | st in steps[..n] :: st in steps;
      KernelRunMoves(s, steps[..n]);
      RunInv(s, steps[..n]);
      KernelStepMoves(After(s, steps[..n]), steps[n]);
      hide Legal, After;
    }
  }

  /** An error result, which the kernel may give to any operation. */
  function Failing(e: Entry): Done {
    Done(e, -1, [])
  }

  /** The kernel can always finish everything that has been pushed. */
  lemma {:induction false} KernelCanFinish(s: State) returns (steps: seq<Step>)
    requires Inv(s)
    ensures KernelOnly(steps) && Legal(s, steps)
    ensures After(s, steps).sq == [] && After(s, steps).inflight == {}
    decreases 2 * |s.sq| + |s.inflight|
  {
    hide Inv, KernelMoved;
    if s.sq == [] && s.inflight == {} {
      steps := [];
    } else {
      var st: Step;
      if s.sq != [] {
        st := Consume;
        StepInv(s, st);
        KernelStepMoves(s, st);
      } else {
        var e :| e in s.inflight;
        st := Complete(Failing(e));
        StepInv(s, st);
      }
      var rest := KernelCanFinish(Apply(s, st));
      steps := [st] + rest;
      RunCons(s, st, rest);
    }
  }

  lemma {:induction false} RunCons(s: State, st: Step, rest: seq<Step>)
    requires Enabled(s, st) && Legal(Apply(s, st), rest)
    ensures Legal(s, [st] + rest)
    ensures After(s, [st] + rest) == After(Apply(s, st), rest)
  {
    var steps := [st] + rest;
    var n := |steps| - 1;
    if rest == [] {
      assert steps[..n] == [];
    } else {
      RunCons(s, st, rest[..n - 1]);
      assert steps[..n] == [st] + rest[..n - 1];
    }
  }

  /** A wait for `want` completions can end exactly when at least `want` operations are undrained:
      with fewer, no kernel activity whatever lets the caller return. */
  lemma WaitEndsIff(s: State, want: nat)
    requires Inv(s)
    ensures (exists steps :: KernelOnly(steps) && Legal(s, steps) && want <= |After(s, steps).cq|)
            <==> want <= Undrained(s)
  {
    if want <= Undrained(s) {
      var steps := KernelCanFinish(s);
      KernelRunMoves(s, steps);
      assert want <= |After(s, steps).cq|;
    }
    forall steps | KernelOnly(steps) && Legal(s, steps)
      ensures |After(s, steps).cq| <= Undrained(s)
    {
      KernelRunMoves(s, steps);
    }
  }
}
