/** A stream's whole life as the sequence of things that happened to its file, and what it leaves there. */
module StreamRuns {
  import opened IoTypes
  import opened RingProtocol
  import opened FileModel
  import opened RanDuring

  datatype Effect =
    | RingRan(log: seq<Done>)            // operations the kernel ran for the thread's ring
    | DidRead(count: nat)                // reads on the descriptor, `count` bytes in all
    | DidWrite(data: seq<byte>)          // writes on the descriptor, accepting `data` in all
    | DidSeek(whence: int, offset: int)
    | PathAppended(data: seq<byte>)      // `data` appended through another descriptor on the path

  /** Where lseek(2) goes, if anywhere. */
  function SeekTarget(f: File, whence: int, offset: int): Option<nat> {
    var target := (if whence == 0 then 0 else if whence == 1 then f.pos else |f.bytes|) + offset;
    if 0 <= target <= I64_MAX then Some(target) else None
  }

  predicate CanHappen(f: File, e: Effect) {
    match e
    case RingRan(log) => CanRunAll(f, log)
    case DidRead(count) => count == 0 || (f.canRead && |Slice(f.bytes, f.pos, count)| == count)
    case DidWrite(data) => data == [] || f.canWrite
    case DidSeek(_, _) => true
    case PathAppended(_) => true
  }

  function Perform(f: File, e: Effect): File {
    match e
    case RingRan(log) => RunAll(f, log)
    case DidRead(count) => f.(pos := f.pos + count)
    case DidWrite(data) => WriteSome(f, data)
    case DidSeek(whence, offset) =>
      (match SeekTarget(f, whence, offset)
       case Some(target) => f.(pos := target)
       case None => f)
    case PathAppended(data) => f.(bytes := f.bytes + data)
  }

  predicate CanHappenAll(f: File, effects: seq<Effect>) {
    if effects == [] then true
    else
      var n := |effects| - 1;
      CanHappenAll(f, effects[..n]) && CanHappen(PerformAll(f, effects[..n]), effects[n])
  }

  function PerformAll(f: File, effects: seq<Effect>): File {
    if effects == [] then f
    else
      var n := |effects| - 1;
      Perform(PerformAll(f, effects[..n]), effects[n])
  }

  lemma OneMoreEffect(f: File, effects: seq<Effect>, e: Effect)
    requires CanHappenAll(f, effects) && CanHappen(PerformAll(f, effects), e)
    ensures CanHappenAll(f, effects + [e])
    ensures PerformAll(f, effects + [e]) == Perform(PerformAll(f, effects), e)
  {
    assert (effects + [e])[..|effects|] == effects;
  }

  /** These effects take `f` to `g`. */
  ghost predicate Took(f: File, effects: seq<Effect>, g: File) {
    CanHappenAll(f, effects) && g == PerformAll(f, effects)
  }

  lemma TookNothing(f: File)
    ensures Took(f, [], f)
  {
  }

  lemma TookOne(f: File, e: Effect)
    requires CanHappen(f, e)
    ensures Took(f, [e], Perform(f, e))
  {
    assert [e][..0] == [];
  }

  lemma {:induction false} TookTwice(f: File, a: seq<Effect>, g: File, b: seq<Effect>, h: File)
    requires Took(f, a, g) && Took(g, b, h)
    ensures Took(f, a + b, h)
  {
    hide CanHappen, Perform;
    if b == [] {
      assert a + b == a;
    } else {
      var n := |b| - 1;
      TookTwice(f, a, g, b[..n], PerformAll(g, b[..n]));
      assert (a + b)[..|a + b| - 1] == a + b[..n];
    }
  }

  /** The bytes an effect puts into the file. */
  function AcceptedIn(fd: int, e: Effect): seq<byte> {
    match e
    case RingRan(log) => Accepted(fd, log)
    case DidWrite(data) => data
    case PathAppended(data) => data
    case _ => []
  }

  function AcceptedInAll(fd: int, effects: seq<Effect>): seq<byte> {
    if effects == [] then []
    else AcceptedInAll(fd, effects[..|effects| - 1]) + AcceptedIn(fd, effects[|effects| - 1])
  }

  /** The part of it that the stream's own system calls put there. */
  function DirectIn(e: Effect): seq<byte> {
    match e
    case DidWrite(data) => data
    case PathAppended(data) => data
    case _ => []
  }

  function Direct(effects: seq<Effect>): seq<byte> {
    if effects == [] then [] else Direct(effects[..|effects| - 1]) + DirectIn(effects[|effects| - 1])
  }

  /** The part of it that the ring put there. */
  function ByTheRing(fd: int, e: Effect): seq<byte> {
    if e.RingRan? then Accepted(fd, e.log) else []
  }

  function RingAccepted(fd: int, effects: seq<Effect>): seq<byte> {
    if effects == [] then []
    else RingAccepted(fd, effects[..|effects| - 1]) + ByTheRing(fd, effects[|effects| - 1])
  }

  lemma {:induction false} AcceptedConcat(fd: int, a: seq<Effect>, b: seq<Effect>)
    ensures AcceptedInAll(fd, a + b) == AcceptedInAll(fd, a) + AcceptedInAll(fd, b)
  {
    hide AcceptedIn;
    if b == [] {
      assert a + b == a;
    } else {
      var n := |b| - 1;
      AcceptedConcat(fd, a, b[..n]);
      assert (a + b)[..|a + b| - 1] == a + b[..n];
    }
  }

  lemma {:induction false} DirectConcat(a: seq<Effect>, b: seq<Effect>)
    ensures Direct(a + b) == Direct(a) + Direct(b)
  {
    hide DirectIn;
    if b == [] {
      assert a + b == a;
    } else {
      var n := |b| - 1;
      DirectConcat(a, b[..n]);
      assert (a + b)[..|a + b| - 1] == a + b[..n];
    }
  }

  lemma {:induction false} RingConcat(fd: int, a: seq<Effect>, b: seq<Effect>)
    ensures RingAccepted(fd, a + b) == RingAccepted(fd, a) + RingAccepted(fd, b)
  {
    hide ByTheRing;
    if b == [] {
      assert a + b == a;
    } else {
      var n := |b| - 1;
      RingConcat(fd, a, b[..n]);
      assert (a + b)[..|a + b| - 1] == a + b[..n];
    }
  }

  lemma AcceptedOne(fd: int, e: Effect)
    ensures AcceptedInAll(fd, [e]) == AcceptedIn(fd, e)
    ensures Direct([e]) == DirectIn(e) && RingAccepted(fd, [e]) == ByTheRing(fd, e)
  {
    assert [e][..0] == [];
  }

  lemma {:induction false} AcceptedDirectly(fd: int, effects: seq<Effect>)
    requires RingAccepted(fd, effects) == []
    ensures AcceptedInAll(fd, effects) == Direct(effects)
  {
    if effects != [] {
      AcceptedDirectly(fd, effects[..|effects| - 1]);
    }
  }

  // --- Streams opened for appending ---

  lemma EffectAppends(f: File, e: Effect)
    requires CanHappen(f, e) && f.append
    ensures var g := Perform(f, e);
            g.bytes == f.bytes + AcceptedIn(f.fd, e) && g.append && g.fd == f.fd
  {
    match e
    case RingRan(log) => LogAppends(f, log);
    case _ =>
  }

  /** Whatever happens to a stream opened for appending, in whatever order, by either route and with
      seeks and reads in between: the file is what it was, followed by the bytes accepted, in the
      order in which they took effect. */
  lemma {:induction false} AppendRun(f: File, effects: seq<Effect>)
    requires CanHappenAll(f, effects) && f.append
    ensures var g := PerformAll(f, effects);
            g.bytes == f.bytes + AcceptedInAll(f.fd, effects) && g.append && g.fd == f.fd
  {
    if effects != [] {
      var n := |effects| - 1;
      AppendRun(f, effects[..n]);
      EffectAppends(PerformAll(f, effects[..n]), effects[n]);
    }
  }

  // --- Streams opened for reading only ---

  /** The ring, like the descriptor, keeps to the stream's access; an append by the path asks only for the
      path. So whatever happens to a stream that may not write, its file is what it was followed by what
      went by the path. */
  lemma {:induction false} ReadOnlyRun(f: File, effects: seq<Effect>)
    requires CanHappenAll(f, effects) && !f.canWrite
    ensures var g := PerformAll(f, effects);
            && g.bytes == f.bytes + AcceptedInAll(f.fd, effects) && RingAccepted(f.fd, effects) == []
            && g.(bytes := f.bytes, pos := f.pos) == f
    ensures (forall e | e in effects :: !e.PathAppended?) ==> PerformAll(f, effects).bytes == f.bytes
  {
    hide Perform, CanHappen, AcceptedIn, ByTheRing;
    if effects != [] {
      var n := |effects| - 1;
      assert forall e | e in effects[..n] :: e in effects;
      ReadOnlyRun(f, effects[..n]);
      ReadOnlyEffect(PerformAll(f, effects[..n]), effects[n]);
      assert effects[n] in effects;
    }
  }

  lemma ReadOnlyEffect(f: File, e: Effect)
    requires CanHappen(f, e) && !f.canWrite
    ensures var g := Perform(f, e);
            && g.bytes == f.bytes + AcceptedIn(f.fd, e) && ByTheRing(f.fd, e) == []
            && g.(bytes := f.bytes, pos := f.pos) == f && (!e.PathAppended? ==> g.bytes == f.bytes)
  {
    if e.RingRan? {
      LogNeedsAccess(f, e.log);
      RunAllKeepsDescriptor(f, e.log);
    }
  }

  /** A stream opened for reading that is written to: the ring refuses "hi", and the path takes it. */
  lemma ReadOnlyStreamGrows()
    ensures var f, hi := File(3, [], 0, false, true, false), [104 as byte, 105];
            var run := [RingRan([Done(Entry(1, Write(3, hi)), -9, [])]), PathAppended(hi)];
            CanHappenAll(f, run) && PerformAll(f, run).bytes == hi
  {
    var f, hi := File(3, [], 0, false, true, false), [104 as byte, 105];
    var d := Done(Entry(1, Write(3, hi)), -9, []);
    RunOne(f, d);
    var refused, appended := RingRan([d]), PathAppended(hi);
    assert Perform(f, refused) == f && f.bytes + hi == hi;
    hide CanRunAll, RunAll;
    TookOne(f, refused);
    TookOne(f, appended);
    hide CanHappen, Perform, CanHappenAll, PerformAll;
    TookTwice(f, [refused], f, [appended], f.(bytes := hi));
    assert [refused] + [appended] == [refused, appended];
  }

  lemma RunOne(f: File, d: Done)
    ensures RunAll(f, [d]) == Run(f, d) && (CanRunAll(f, [d]) <==> CanRun(f, d))
  {
    assert [d][..0] == [];
  }

  // --- Streams that start at the end of the file without appending ---

  predicate Sequential(e: Effect) {
    e.RingRan? || e.DidWrite?
  }

  lemma SequentialEffect(f: File, e: Effect)
    requires CanHappen(f, e) && Sequential(e) && f.pos == |f.bytes|
    ensures var g := Perform(f, e);
            && g.bytes == f.bytes + AcceptedIn(f.fd, e)
            && g.pos == |g.bytes| && g.(bytes := f.bytes, pos := f.pos) == f
  {
    match e
    case RingRan(log) => LogAppends(f, log);
    case DidWrite(data) => WriteAtEnd(f, data);
  }

  /** A stream positioned at the end, as after opening with truncation, stays there as long as nothing
      seeks, reads or goes round by the path; its file grows by exactly what was accepted. */
  lemma {:induction false} SequentialRun(f: File, effects: seq<Effect>)
    requires CanHappenAll(f, effects) && f.pos == |f.bytes|
    requires forall e | e in effects :: Sequential(e)
    ensures var g := PerformAll(f, effects);
            && g.bytes == f.bytes + AcceptedInAll(f.fd, effects)
            && g.pos == |g.bytes| && g.(bytes := f.bytes, pos := f.pos) == f
  {
    hide Perform, CanHappen, AcceptedIn, Sequential;
    if effects != [] {
      var n := |effects| - 1;
      assert forall e | e in effects[..n] :: e in effects;
      SequentialRun(f, effects[..n]);
      assert effects[n] in effects;
      SequentialEffect(PerformAll(f, effects[..n]), effects[n]);
    }
  }

  // --- The ring route and the path route of a write ---

  /** A write of `data` by the ring and an append by the path leave the same bytes exactly when there
      is nothing to write or the stream writes at the end; and the same position exactly when there is
      nothing to write or the stream appends and stands just beyond what is written. */
  lemma WriteRoutesAgreeIff(f: File, data: seq<byte>)
    ensures var byRing, byPath := WriteSome(f, data), Perform(f, PathAppended(data));
            && (byRing.bytes == byPath.bytes <==> data == [] || AtEnd(f))
            && (byRing.pos == byPath.pos <==> data == [] || (f.append && f.pos == |f.bytes| + |data|))
  {
    if data == [] {
      assert f.bytes + data == f.bytes;
    } else if AtEnd(f) {
      WriteAtEnd(f, data);
    } else {
      OverwriteLength(f.bytes, f.pos, data);
    }
  }

  lemma OverwriteLength(bytes: seq<byte>, at: nat, data: seq<byte>)
    ensures |Overwrite(bytes, at, data)| == if |bytes| <= at + |data| then at + |data| else |bytes|
  {
  }

  /** The byte at `k` after an overwrite: new where it reaches, else as before, or zero in a gap. */
  lemma OverwriteAt(bytes: seq<byte>, at: nat, data: seq<byte>, k: nat)
    requires k < |Overwrite(bytes, at, data)|
    ensures Overwrite(bytes, at, data)[k] ==
              if at <= k < at + |data| then data[k - at] else if k < |bytes| then bytes[k] else 0
  {
  }

  lemma OverwriteTail(p: seq<byte>, a: seq<byte>, b: seq<byte>)
    ensures Overwrite(p + a, |p|, b) == p + b + (if |b| < |a| then a[|b|..] else [])
  {
    assert (p + a)[..|p|] == p;
    if |b| < |a| {
      assert (p + a)[|p| + |b|..] == a[|b|..];
    }
  }

  /** Without append, a write that went by the path leaves the descriptor where it was, and the next
      write on the descriptor goes there, whatever is there by then. */
  lemma {:induction false} PathWriteIsOverwritten(f: File, a: seq<byte>, b: seq<byte>)
    requires !f.append
    ensures var g := Perform(Perform(f, PathAppended(a)), DidWrite(b));
            && g.bytes == (if b == [] then f.bytes + a else Overwrite(f.bytes + a, f.pos, b))
            && (f.pos == |f.bytes| ==> g.bytes == f.bytes + b + (if |b| < |a| then a[|b|..] else []))
  {
    hide Overwrite;
    OverwriteTail(f.bytes, a, b);
    if b == [] {
      assert a[|b|..] == a;
      assert f.bytes + b + a == f.bytes + a;
    }
  }

  /** What an overwrite leaves of `a` behind `bytes`. */
  lemma TailAfter(bytes: seq<byte>, a: seq<byte>, at: nat, b: seq<byte>) returns (kept: seq<byte>)
    requires b != []
    ensures |bytes| + |a| <= |Overwrite(bytes + a, at, b)| && |kept| == |a|
    ensures kept == Overwrite(bytes + a, at, b)[|bytes|..|bytes| + |a|]
    ensures forall i | 0 <= i < |a| ::
              kept[i] == if at <= |bytes| + i < at + |b| then b[|bytes| + i - at] else a[i]
  {
    OverwriteLength(bytes + a, at, b);
    hide Overwrite;
    kept := Overwrite(bytes + a, at, b)[|bytes|..|bytes| + |a|];
    forall i | 0 <= i < |a|
      ensures kept[i] == if at <= |bytes| + i < at + |b| then b[|bytes| + i - at] else a[i]
    {
      OverwriteAt(bytes + a, at, b, |bytes| + i);
    }
  }

  /** The bytes that went by the path are still in place after that exactly when the next write either
      does not reach them or repeats them. */
  lemma PathWriteSurvivesIff(f: File, a: seq<byte>, b: seq<byte>)
    requires !f.append
    ensures var g, end := Perform(Perform(f, PathAppended(a)), DidWrite(b)), |f.bytes|;
            && end + |a| <= |g.bytes|
            && (g.bytes[end..end + |a|] == a
                <==> forall i | 0 <= i < |a| && f.pos <= end + i < f.pos + |b| :: a[i] == b[end + i - f.pos])
  {
    hide Overwrite;
    PathWriteIsOverwritten(f, a, b);
    if b == [] {
      assert (f.bytes + a)[|f.bytes|..|f.bytes| + |a|] == a;
    } else {
      var kept := TailAfter(f.bytes, a, f.pos, b);
      TailSurvives(kept, a, |f.bytes|, f.pos, b);
    }
    hide Perform;
  }

  lemma TailSurvives(kept: seq<byte>, a: seq<byte>, end: nat, at: nat, b: seq<byte>)
    requires |kept| == |a|
    requires forall i | 0 <= i < |a| :: kept[i] == if at <= end + i < at + |b| then b[end + i - at] else a[i]
    ensures kept == a <==> forall i | 0 <= i < |a| && at <= end + i < at + |b| :: a[i] == b[end + i - at]
  {
    if kept == a {
      assert forall i | 0 <= i < |a| && at <= end + i < at + |b| :: a[i] == kept[i];
    }
  }

  /** Two writes in a row leave the same bytes whether the first went by the path or by the ring exactly
      when the stream appends, or the first is empty, or the second is empty and the position was at the
      end, or the second fills the file up to its old end and the two can be swapped. */
  lemma LaterWriteAgreesIff(f: File, a: seq<byte>, b: seq<byte>)
    ensures var byPath := Perform(Perform(f, PathAppended(a)), DidWrite(b));
            var byRing := Perform(WriteSome(f, a), DidWrite(b));
            byPath.bytes == byRing.bytes
            <==> f.append || a == []
                 || (if b == [] then f.pos == |f.bytes| else f.pos + |b| == |f.bytes| && a + b == b + a)
  {
    hide Overwrite;
    WriteTwice(f, a, b);
    if f.append {
      assert f.bytes + (a + b) == f.bytes + a + b;
      WriteAtEnd(f, a + b);
      WriteAtEnd(f.(bytes := f.bytes + a), b);
    } else if a == [] {
      assert f.bytes + a == f.bytes && a + b == b;
    } else if b == [] {
      WriteRoutesAgreeIff(f, a);
    } else {
      LaterWriteLands(f, a, b);
    }
  }

  lemma LaterWriteLands(f: File, a: seq<byte>, b: seq<byte>)
    requires a != [] && b != []
    ensures Overwrite(f.bytes + a, f.pos, b) == Overwrite(f.bytes, f.pos, a + b)
            <==> f.pos + |b| == |f.bytes| && a + b == b + a
  {
    var x, y := Overwrite(f.bytes + a, f.pos, b), Overwrite(f.bytes, f.pos, a + b);
    OverwriteLength(f.bytes + a, f.pos, b);
    OverwriteLength(f.bytes, f.pos, a + b);
    if f.pos + |b| == |f.bytes| {
      var p := f.bytes[..f.pos];
      assert (f.bytes + a)[..f.pos] == p && (f.bytes + a)[f.pos + |b|..] == a;
      assert x == p + (b + a) && y == p + (a + b);
      assert x[f.pos..] == b + a && y[f.pos..] == a + b;
    } else {
      assert |x| != |y|;
    }
  }

  /** On a two-byte file written from its start, 9 and then 7 on the stream: by the path, 9 goes behind
      the two bytes and 7 over the first; by the ring, they go over the two. */
  lemma LaterWriteElsewhere()
    ensures var f := File(3, [1, 2], 0, false, true, true);
            && Perform(Perform(f, PathAppended([9])), DidWrite([7])).bytes == [7, 2, 9]
            && Perform(WriteSome(f, [9]), DidWrite([7])).bytes == [9, 7]
  {
    assert [1, 2, 9][1..] == [2, 9] && [1, 2][1..] == [2];
  }

  /** The one write of 9 on that stream: [9, 2] by the ring, [1, 2, 9] by the path. */
  lemma WriteRoutesDisagree()
    ensures var f := File(3, [1, 2], 0, false, true, true);
            && WriteSome(f, [9]).bytes == [9, 2]
            && Perform(f, PathAppended([9])).bytes == [1, 2, 9]
  {
    assert [1, 2][1..] == [2];
  }

  // --- Calls that leave no trace ---

  /** What a caller sees of an effect. */
  datatype Answer = Bytes(data: seq<byte>) | Wrote(count: nat) | Position(target: Option<nat>)

  function AnswerTo(f: File, e: Effect): seq<Answer> {
    match e
    case DidRead(count) => [Bytes(Slice(f.bytes, f.pos, count))]
    case DidWrite(data) => [Wrote(|data|)]
    case DidSeek(whence, offset) => [Position(SeekTarget(f, whence, offset))]
    case _ => []
  }

  function Answers(f: File, effects: seq<Effect>): seq<Answer> {
    if effects == [] then []
    else
      var n := |effects| - 1;
      Answers(f, effects[..n]) + AnswerTo(PerformAll(f, effects[..n]), effects[n])
  }

  /** Ring activity that neither writes to the file nor moves its position, such as an aread. */
  predicate Traceless(fd: int, e: Effect) {
    e.RingRan? && forall d | d in e.log :: Harmless(d.entry.op, fd)
  }

  function WithoutTraceless(fd: int, effects: seq<Effect>): seq<Effect> {
    if effects == [] then []
    else
      var n := |effects| - 1;
      WithoutTraceless(fd, effects[..n]) + (if Traceless(fd, effects[n]) then [] else [effects[n]])
  }

  lemma EffectKeepsDescriptor(f: File, e: Effect)
    ensures Perform(f, e).(bytes := f.bytes, pos := f.pos) == f
  {
    if e.RingRan? {
      RunAllKeepsDescriptor(f, e.log);
    }
  }

  lemma {:induction false} RunKeepsDescriptor(f: File, effects: seq<Effect>)
    ensures PerformAll(f, effects).(bytes := f.bytes, pos := f.pos) == f
  {
    hide Perform;
    if effects != [] {
      var n := |effects| - 1;
      RunKeepsDescriptor(f, effects[..n]);
      EffectKeepsDescriptor(PerformAll(f, effects[..n]), effects[n]);
    }
  }

  /** Put such activity anywhere into a run, or take it out: every read, write, seek and tell answers
      the same, and the file and position end up the same. */
  lemma {:induction false} TracelessIsInvisible(f: File, effects: seq<Effect>)
    requires CanHappenAll(f, effects)
    ensures var kept := WithoutTraceless(f.fd, effects);
            && CanHappenAll(f, kept)
            && PerformAll(f, kept) == PerformAll(f, effects)
            && Answers(f, kept) == Answers(f, effects)
            && PerformAll(f, effects).fd == f.fd
  {
    if effects != [] {
      var n := |effects| - 1;
      TracelessIsInvisible(f, effects[..n]);
      var g, e := PerformAll(f, effects[..n]), effects[n];
      EffectKeepsDescriptor(g, e);
      var before := WithoutTraceless(f.fd, effects[..n]);
      if Traceless(f.fd, e) {
        HarmlessLog(g, e.log);
        assert before + [] == before;
      } else {
        OneMoreEffect(f, before, e);
        assert (before + [e])[..|before|] == before;
      }
    }
  }

  // --- What one call's effects amount to ---

  /** Whatever the ring did meanwhile left the file alone. */
  ghost predicate Undisturbed(fd: int, effects: seq<Effect>) {
    forall e | e in effects && e.RingRan? :: Traceless(fd, e)
  }

  ghost predicate Reads(effects: seq<Effect>) {
    forall e | e in effects :: e.RingRan? || e.DidRead?
  }

  ghost predicate Writes(effects: seq<Effect>) {
    forall e | e in effects :: e.RingRan? || e.DidWrite?
  }

  ghost predicate PathWrites(effects: seq<Effect>) {
    forall e | e in effects :: e.RingRan? || e.PathAppended?
  }

  ghost predicate RingOnly(effects: seq<Effect>) {
    forall e | e in effects :: e.RingRan?
  }

  /** What the reads among these effects returned, joined. */
  function BytesRead(f: File, effects: seq<Effect>): seq<byte> {
    if effects == [] then []
    else
      var n := |effects| - 1;
      BytesRead(f, effects[..n]) + ReadIn(PerformAll(f, effects[..n]), effects[n])
  }

  function ReadIn(f: File, e: Effect): seq<byte> {
    if e.DidRead? then Slice(f.bytes, f.pos, e.count) else []
  }

  lemma {:induction false} BytesReadConcat(f: File, a: seq<Effect>, b: seq<Effect>)
    ensures BytesRead(f, a + b) == BytesRead(f, a) + BytesRead(PerformAll(f, a), b)
    ensures PerformAll(f, a + b) == PerformAll(PerformAll(f, a), b)
  {
    hide Perform, ReadIn;
    if b == [] {
      assert a + b == a;
    } else {
      var n := |b| - 1;
      BytesReadConcat(f, a, b[..n]);
      assert (a + b)[..|a + b| - 1] == a + b[..n];
    }
  }

  lemma TracelessRun(f: File, e: Effect)
    requires CanHappen(f, e) && Traceless(f.fd, e)
    ensures Perform(f, e) == f && ByTheRing(f.fd, e) == []
  {
    HarmlessLog(f, e.log);
  }

  lemma {:induction false} UndisturbedAcceptsNothing(f: File, effects: seq<Effect>)
    requires CanHappenAll(f, effects) && Undisturbed(f.fd, effects)
    ensures RingAccepted(f.fd, effects) == [] && PerformAll(f, effects).fd == f.fd
  {
    hide CanHappen, Perform, Traceless;
    if effects != [] {
      var n := |effects| - 1;
      assert forall e | e in effects[..n] :: e in effects;
      UndisturbedAcceptsNothing(f, effects[..n]);
      assert effects[n] in effects;
      EffectKeepsDescriptor(PerformAll(f, effects[..n]), effects[n]);
      if effects[n].RingRan? {
        TracelessRun(PerformAll(f, effects[..n]), effects[n]);
      }
    }
  }

  /** Undisturbed reads return the bytes from the position on and move it by as many. */
  lemma {:induction false} ReadsAdvance(f: File, effects: seq<Effect>)
    requires CanHappenAll(f, effects) && Undisturbed(f.fd, effects) && Reads(effects)
    ensures var data := BytesRead(f, effects);
            data == Slice(f.bytes, f.pos, |data|) && PerformAll(f, effects) == f.(pos := f.pos + |data|)
  {
    hide CanHappen, Perform, Traceless, ReadIn, Slice;
    if effects == [] {
      NoSlice(f.bytes, f.pos);
    } else {
      var n := |effects| - 1;
      assert forall e | e in effects[..n] :: e in effects;
      assert effects[n] in effects;
      ReadsAdvance(f, effects[..n]);
      OneMoreRead(f, BytesRead(f, effects[..n]), effects[n]);
    }
  }

  lemma OneMoreRead(f: File, before: seq<byte>, e: Effect)
    requires before == Slice(f.bytes, f.pos, |before|)
    requires var g := f.(pos := f.pos + |before|); CanHappen(g, e) && (e.DidRead? || Traceless(f.fd, e))
    ensures var g := f.(pos := f.pos + |before|);
            var data := before + ReadIn(g, e);
            data == Slice(f.bytes, f.pos, |data|) && Perform(g, e) == f.(pos := f.pos + |data|)
  {
    if e.DidRead? {
      SliceJoins(f.bytes, f.pos, |before|, e.count);
    } else {
      TracelessRun(f.(pos := f.pos + |before|), e);
    }
  }

  /** Undisturbed writes on the descriptor are one write of all they accepted. */
  lemma {:induction false} WritesAreOne(f: File, effects: seq<Effect>)
    requires CanHappenAll(f, effects) && Undisturbed(f.fd, effects) && Writes(effects)
    ensures PerformAll(f, effects) == WriteSome(f, Direct(effects)) && PerformAll(f, effects).fd == f.fd
  {
    hide WriteSome, CanHappen, Traceless;
    if effects == [] {
      NothingWritten(f);
    } else {
      var n := |effects| - 1;
      assert forall e | e in effects[..n] :: e in effects;
      assert effects[n] in effects;
      WritesAreOne(f, effects[..n]);
      EffectKeepsDescriptor(PerformAll(f, effects[..n]), effects[n]);
      NothingWritten(PerformAll(f, effects[..n]));
      if effects[n].RingRan? {
        TracelessRun(PerformAll(f, effects[..n]), effects[n]);
      }
      WriteTwice(f, Direct(effects[..n]), DirectIn(effects[n]));
    }
  }

  /** Appends by the path, while the ring accepts nothing, add exactly their bytes on any stream. */
  lemma {:induction false} PathWritesAppend(f: File, effects: seq<Effect>)
    requires CanHappenAll(f, effects) && PathWrites(effects) && RingAccepted(f.fd, effects) == []
    ensures PerformAll(f, effects).bytes == f.bytes + Direct(effects) && PerformAll(f, effects).fd == f.fd
  {
    hide CanHappen, Perform, ByTheRing, DirectIn;
    if effects == [] {
      assert f.bytes + [] == f.bytes;
    } else {
      var n := |effects| - 1;
      assert forall e | e in effects[..n] :: e in effects;
      assert effects[n] in effects;
      PathWritesAppend(f, effects[..n]);
      OneMorePathWrite(PerformAll(f, effects[..n]), effects[n]);
    }
  }

  lemma OneMorePathWrite(f: File, e: Effect)
    requires CanHappen(f, e) && (e.RingRan? || e.PathAppended?) && ByTheRing(f.fd, e) == []
    ensures Perform(f, e).bytes == f.bytes + DirectIn(e) && Perform(f, e).fd == f.fd
  {
    if e.RingRan? {
      LogTiles(f, e.log);
      assert f.bytes + [] == f.bytes;
    }
  }

  /** Ring activity that is harmless throughout changes nothing. */
  lemma {:induction false} RingOnlyIsStill(f: File, effects: seq<Effect>)
    requires CanHappenAll(f, effects) && Undisturbed(f.fd, effects) && RingOnly(effects)
    ensures PerformAll(f, effects) == f
  {
    hide CanHappen, Perform, Traceless;
    if effects != [] {
      var n := |effects| - 1;
      assert forall e | e in effects[..n] :: e in effects;
      assert effects[n] in effects;
      RingOnlyIsStill(f, effects[..n]);
      TracelessRun(f, effects[n]);
    }
  }
}
